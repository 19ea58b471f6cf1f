/**
 The handful of Python `str` operations the log parser is built from, with the
 semantics CPython gives them: `isspace`, `strip()`, `find`, `split(sep)`,
 `sep.join`, `split()` with no argument, and `replace(c, "")`.
 */
module PyStrings {
  import opened Wrappers

  /** `c.isspace()`: the characters CPython's `strip()` and `split()` treat as whitespace. */
  predicate IsSpace(c: char) {
    || ('\t' <= c <= '\r')
    || ('\U{1C}' <= c <= '\U{1F}')
    || c == ' '
    || c == '\U{85}'
    || c == '\U{A0}'
    || c == '\U{1680}'
    || ('\U{2000}' <= c <= '\U{200A}')
    || c == '\U{2028}'
    || c == '\U{2029}'
    || c == '\U{202F}'
    || c == '\U{205F}'
    || c == '\U{3000}'
  }

  predicate NoSpace(s: string) {
    forall i :: 0 <= i < |s| ==> !IsSpace(s[i])
  }

  predicate AllSpace(s: string) {
    forall i :: 0 <= i < |s| ==> IsSpace(s[i])
  }

  /** A text without whitespace has no blank in it. */
  lemma {:induction false} NoSpaceNoBlank(s: string)
    requires NoSpace(s)
    ensures ' ' !in s && multiset(s)[' '] == 0
  {
    forall i | 0 <= i < |s|
      ensures s[i] != ' '
    {
      assert !IsSpace(s[i]);
    }
  }

  /** Neither starts nor ends with whitespace: what `strip()` returns. */
  predicate Stripped(s: string) {
    s == [] || (!IsSpace(s[0]) && !IsSpace(s[|s| - 1]))
  }

  // ---------------------------------------------------------------- strip()

  /** The number of whitespace characters `s` starts with. */
  function LeadingSpaces(s: string): (n: nat)
    ensures n <= |s|
    ensures n == |s| || !IsSpace(s[n])
  {
    if |s| > 0 && IsSpace(s[0]) then 1 + LeadingSpaces(s[1..]) else 0
  }

  /** The number of whitespace characters `s` ends with. */
  function TrailingSpaces(s: string): (n: nat)
    ensures n <= |s|
    ensures n == |s| || !IsSpace(s[|s| - 1 - n])
  {
    if |s| > 0 && IsSpace(s[|s| - 1]) then 1 + TrailingSpaces(s[..|s| - 1]) else 0
  }

  /** The characters `LeadingSpaces` counts are all whitespace. */
  lemma {:induction false} LeadingSpacesAll(s: string)
    ensures AllSpace(s[..LeadingSpaces(s)])
  {
    var removed := s[..LeadingSpaces(s)];
    forall i | 0 <= i < |removed|
      ensures IsSpace(removed[i])
    {
      LeadingSpaceAt(s, i);
    }
  }

  lemma {:induction false} LeadingSpaceAt(s: string, i: nat)
    requires i < LeadingSpaces(s)
    ensures IsSpace(s[i])
    decreases i
  {
    if i > 0 {
      LeadingSpaceAt(s[1..], i - 1);
    }
  }

  /** The characters `TrailingSpaces` counts are all whitespace. */
  lemma {:induction false} TrailingSpacesAll(s: string)
    ensures AllSpace(s[|s| - TrailingSpaces(s)..])
  {
    var start := |s| - TrailingSpaces(s);
    var removed := s[start..];
    forall i | 0 <= i < |removed|
      ensures IsSpace(removed[i])
    {
      TrailingSpaceAt(s, start + i);
    }
  }

  lemma {:induction false} TrailingSpaceAt(s: string, i: nat)
    requires |s| - TrailingSpaces(s) <= i < |s|
    ensures IsSpace(s[i])
    decreases |s|
  {
    if i < |s| - 1 {
      TrailingSpaceAt(s[..|s| - 1], i);
    }
  }

  /** A whitespace run followed by text that does not start with whitespace. */
  lemma {:induction false} LeadingSpacesOf(a: string, u: string)
    requires AllSpace(a)
    requires u == [] || !IsSpace(u[0])
    ensures LeadingSpaces(a + u) == |a|
    decreases |a|
  {
    if a == [] {
      assert a + u == u;
    } else {
      assert (a + u)[0] == a[0];
      assert (a + u)[1..] == a[1..] + u;
      LeadingSpacesOf(a[1..], u);
    }
  }

  /** Text that does not end with whitespace followed by a whitespace run. */
  lemma {:induction false} TrailingSpacesOf(u: string, b: string)
    requires AllSpace(b)
    requires u == [] || !IsSpace(u[|u| - 1])
    ensures TrailingSpaces(u + b) == |b|
    decreases |b|
  {
    if b == [] {
      assert u + b == u;
    } else {
      var s := u + b;
      assert s[|s| - 1] == b[|b| - 1];
      assert s[..|s| - 1] == u + b[..|b| - 1];
      TrailingSpacesOf(u, b[..|b| - 1]);
    }
  }

  /** `s.lstrip()` */
  function TrimStart(s: string): (r: string)
    ensures r == [] || !IsSpace(r[0])
  {
    s[LeadingSpaces(s)..]
  }

  /** `s.rstrip()` */
  function TrimEnd(s: string): (r: string)
    ensures r == [] || !IsSpace(r[|r| - 1])
  {
    s[..|s| - TrailingSpaces(s)]
  }

  /** `s.strip()`: whitespace removed from both ends. */
  function Strip(s: string): (r: string)
    ensures |r| <= |s| && Stripped(r)
  {
    TrimEnd(TrimStart(s))
  }

  /** What `strip()` keeps is the infix of the text after its leading whitespace,
      and what it removes on either side is whitespace. */
  lemma {:induction false} StripInfix(s: string)
    ensures var a, r := LeadingSpaces(s), Strip(s);
      && a + |r| <= |s| && s[a..a + |r|] == r
      && AllSpace(s[..a]) && AllSpace(s[a + |r|..])
  {
    var a := LeadingSpaces(s);
    var t := TrimStart(s);
    var r := Strip(s);
    assert t == s[a..] && r == t[..|r|];
    LeadingSpacesAll(s);
    TrailingSpacesAll(t);
    var tail := s[a + |r|..];
    forall i | 0 <= i < |tail|
      ensures IsSpace(tail[i])
    {
      assert tail[i] == t[|t| - TrailingSpaces(t)..][i];
    }
    forall i | 0 <= i < |r|
      ensures s[a..a + |r|][i] == r[i]
    {
      assert r[i] == t[i];
    }
  }

  lemma {:induction false} TrimStartPadded(a: string, u: string)
    requires AllSpace(a)
    requires u == [] || !IsSpace(u[0])
    ensures TrimStart(a + u) == u
  {
    LeadingSpacesOf(a, u);
    assert (a + u)[|a|..] == u;
  }

  lemma {:induction false} TrimEndPadded(u: string, b: string)
    requires AllSpace(b)
    requires u == [] || !IsSpace(u[|u| - 1])
    ensures TrimEnd(u + b) == u
  {
    TrailingSpacesOf(u, b);
    assert (u + b)[..|u|] == u;
  }

  /** `strip()` removes exactly the whitespace padding around a stripped text. */
  lemma {:induction false} StripPadded(a: string, t: string, b: string)
    requires AllSpace(a) && AllSpace(b) && Stripped(t)
    ensures Strip(a + t + b) == t
  {
    if t == [] {
      assert a + t + b == a + b;
      TrimStartPadded(a + b, []);
      assert a + b + [] == a + b;
      TrimEndPadded([], []);
    } else {
      assert a + t + b == a + (t + b);
      TrimStartPadded(a, t + b);
      TrimEndPadded(t, b);
    }
  }

  /** `strip()` is idempotent. */
  lemma {:induction false} StripIdempotent(s: string)
    ensures Strip(Strip(s)) == Strip(s)
  {
    var t := Strip(s);
    assert [] + t + [] == t;
    StripPadded([], t, []);
  }

  // ---------------------------------------------------------------- find

  /** `sep` occurs in `s` starting at index `i`. */
  predicate OccursAt(s: string, sep: string, i: int) {
    0 <= i && i + |sep| <= |s| && s[i..i + |sep|] == sep
  }

  /** `sep in s` */
  predicate Contains(s: string, sep: string) {
    exists i :: 0 <= i <= |s| - |sep| && OccursAt(s, sep, i)
  }

  /** A text that lacks one of the characters of `sep` does not contain `sep`. */
  lemma {:induction false} MissingCharNotContained(s: string, sep: string, k: nat)
    requires k < |sep| && sep[k] !in s
    ensures !Contains(s, sep)
  {
    forall j | 0 <= j <= |s| - |sep|
      ensures !OccursAt(s, sep, j)
    {
      assert s[j..j + |sep|][k] == s[j + k];
    }
  }

  /** `s.find(sep, k)`, with `None` for Python's `-1`. */
  function FindFrom(s: string, sep: string, k: nat): (r: Option<nat>)
    ensures r.Some? ==> k <= r.value && OccursAt(s, sep, r.value)
    ensures r.Some? ==> forall j :: k <= j < r.value ==> !OccursAt(s, sep, j)
    ensures r.None? ==> forall j :: k <= j ==> !OccursAt(s, sep, j)
    decreases |s| - k
  {
    if k + |sep| > |s| then None
    else if s[k..k + |sep|] == sep then Some(k)
    else FindFrom(s, sep, k + 1)
  }

  /** `s.find(sep)`: the leftmost occurrence. */
  function FindFirst(s: string, sep: string): (r: Option<nat>)
    ensures r.None? <==> !Contains(s, sep)
    ensures r.Some? ==> OccursAt(s, sep, r.value) && forall j :: 0 <= j < r.value ==> !OccursAt(s, sep, j)
  {
    FindFrom(s, sep, 0)
  }

  /** A one-character separator occurs exactly when the character does. */
  lemma {:induction false} ContainsChar(s: string, c: char)
    ensures Contains(s, [c]) <==> c in s
  {
    if c in s {
      var i :| 0 <= i < |s| && s[i] == c;
      assert OccursAt(s, [c], i);
    }
    if Contains(s, [c]) {
      var i :| 0 <= i <= |s| - 1 && OccursAt(s, [c], i);
      assert s[i] == s[i..i + 1][0];
    }
  }

  /** The leftmost occurrence of a one-character separator is the first index of that character. */
  lemma {:induction false} FindFirstChar(s: string, c: char)
    requires c in s
    ensures FindFirst(s, [c]).Some?
    ensures var i := FindFirst(s, [c]).value; i < |s| && s[i] == c && c !in s[..i]
  {
    ContainsChar(s, c);
    var i := FindFirst(s, [c]).value;
    assert s[i] == s[i..i + 1][0];
    forall j | 0 <= j < i
      ensures s[..i][j] != c
    {
      assert !OccursAt(s, [c], j);
      assert s[j..j + 1] == [s[j]];
    }
  }

  /** The text before the first occurrence of `sep` (all of `s` when there is none). */
  function Before(s: string, sep: string): (r: string)
    requires |sep| > 0
    ensures !Contains(r, sep)
    ensures r == s || (Contains(s, sep) && OccursAt(s, sep, |r|) && s[..|r|] == r)
    ensures FindFirst(s, sep).Some? ==> r == s[..FindFirst(s, sep).value]
  {
    match FindFirst(s, sep)
    case None => s
    case Some(i) =>
      var r := s[..i];
      assert !Contains(r, sep) by {
        forall j | 0 <= j <= |r| - |sep|
          ensures !OccursAt(r, sep, j)
        {
          assert !OccursAt(s, sep, j);
          assert r[j..j + |sep|] == s[j..j + |sep|];
        }
      }
      r
  }

  /** The text after the first occurrence of `sep`. */
  function After(s: string, sep: string): (r: string)
    requires |sep| > 0
    requires Contains(s, sep)
    ensures |r| + |sep| <= |s| && s[|s| - |r|..] == r && OccursAt(s, sep, |s| - |r| - |sep|)
  {
    var i := FindFirst(s, sep).value;
    s[i + |sep|..]
  }

  /** The text between the first and the second occurrence of `sep` (or the end of `s`). */
  function Between(s: string, sep: string): string
    requires |sep| > 0
    requires Contains(s, sep)
  {
    Before(After(s, sep), sep)
  }

  // ---------------------------------------------------------------- split(sep), join

  /** `sep.join(parts)` */
  function Join(parts: seq<string>, sep: string): string {
    if |parts| == 0 then []
    else if |parts| == 1 then parts[0]
    else parts[0] + sep + Join(parts[1..], sep)
  }

  /** `s.split(sep)` for a non-empty separator: cut at every leftmost non-overlapping occurrence. */
  function SplitOn(s: string, sep: string): (parts: seq<string>)
    requires |sep| > 0
    ensures |parts| >= 1
    ensures Join(parts, sep) == s
    ensures forall k :: 0 <= k < |parts| ==> !Contains(parts[k], sep)
    ensures |parts| >= 2 <==> Contains(s, sep)
    ensures parts[0] == Before(s, sep)
    decreases |s|
  {
    match FindFirst(s, sep)
    case None => [s]
    case Some(i) =>
      var head := Before(s, sep);
      var tail := SplitOn(s[i + |sep|..], sep);
      assert s == head + sep + s[i + |sep|..];
      [head] + tail
  }

  /** `s.split(sep)[0]` and `s.split(sep)[1]` are the texts before and between the first two separators. */
  lemma {:induction false} SplitOnFields(s: string, sep: string)
    requires |sep| > 0
    ensures SplitOn(s, sep)[0] == Before(s, sep)
    ensures Contains(s, sep) ==> SplitOn(s, sep)[1] == Between(s, sep)
  {
    match FindFirst(s, sep)
    case None =>
    case Some(i) =>
      var rest := s[i + |sep|..];
      assert rest == After(s, sep);
      match FindFirst(rest, sep)
      case None =>
      case Some(j) =>
  }

  /** Once the leftmost occurrence is known, `Before` and `After` are the slices around it. */
  lemma {:induction false} FirstOccurrence(s: string, sep: string, i: nat)
    requires |sep| > 0
    requires OccursAt(s, sep, i)
    requires forall j :: 0 <= j < i ==> !OccursAt(s, sep, j)
    ensures Contains(s, sep) && FindFirst(s, sep) == Some(i)
    ensures Before(s, sep) == s[..i] && After(s, sep) == s[i + |sep|..]
  {
    var v := FindFirst(s, sep).value;
    assert !(v < i);
    assert !(i < v);
  }

  /** `(a + c + b).split(c)` starts with `a` and continues with `b` when `a` has no `c`. */
  lemma {:induction false} FirstOccurrenceChar(a: string, c: char, b: string)
    requires c !in a
    ensures Contains(a + [c] + b, [c])
    ensures Before(a + [c] + b, [c]) == a && After(a + [c] + b, [c]) == b
  {
    var s := a + [c] + b;
    assert s[|a|..|a| + 1] == [c];
    forall j | 0 <= j < |a|
      ensures !OccursAt(s, [c], j)
    {
      assert s[j] == a[j];
    }
    FirstOccurrence(s, [c], |a|);
    assert s[..|a|] == a;
    assert s[|a| + 1..] == b;
  }

  /** Text without the separator is its own `Before`. */
  lemma {:induction false} BeforeAbsent(s: string, sep: string)
    requires |sep| > 0 && !Contains(s, sep)
    ensures Before(s, sep) == s
  {
  }

  /** An occurrence of `sep` cannot straddle a character that `sep` does not contain. */
  lemma {:induction false} NotContainsAcross(a: string, c: char, b: string, sep: string)
    requires c !in sep && !Contains(a, sep) && !Contains(b, sep)
    ensures !Contains(a + [c] + b, sep)
  {
    var s := a + [c] + b;
    forall j | 0 <= j <= |s| - |sep|
      ensures !OccursAt(s, sep, j)
    {
      if j + |sep| <= |a| {
        assert s[j..j + |sep|] == a[j..j + |sep|];
        assert !OccursAt(a, sep, j);
      } else if j > |a| {
        var k := j - |a| - 1;
        assert s[|a| + 1..] == b;
        assert s[j..j + |sep|] == b[k..k + |sep|];
        assert !OccursAt(b, sep, k);
      } else {
        assert s[j..j + |sep|][|a| - j] == c;
      }
    }
  }

  /** For a one-character separator, the text between the first two separators is the
      run of non-`c` characters that follows the first `c`. */
  lemma {:induction false} BetweenChar(s: string, c: char)
    requires Contains(s, [c])
    ensures FindFirst(s, [c]).Some?
    ensures var i, q := FindFirst(s, [c]).value, Between(s, [c]);
      && c !in q && i + 1 + |q| <= |s| && s[i + 1..i + 1 + |q|] == q
      && (i + 1 + |q| == |s| || s[i + 1 + |q|] == c)
  {
    var i := FindFirst(s, [c]).value;
    var rest := After(s, [c]);
    assert rest == s[i + 1..];
    BeforeChar(rest, c);
    var q := Between(s, [c]);
    assert s[i + 1..i + 1 + |q|] == rest[..|q|];
  }

  lemma {:induction false} BeforeChar(s: string, c: char)
    ensures var q := Before(s, [c]);
      && c !in q && |q| <= |s| && s[..|q|] == q && (|q| == |s| || s[|q|] == c)
  {
    var q := Before(s, [c]);
    ContainsChar(q, c);
    if q != s {
      assert s[|q|] == s[|q|..|q| + 1][0];
    }
  }

  // ---------------------------------------------------------------- split()

  /** A word as `split()` returns it: non-empty and free of whitespace. */
  predicate IsWord(w: string) {
    |w| > 0 && NoSpace(w)
  }

  /** The length of the leading run of non-whitespace characters. */
  function WordLength(s: string): (n: nat)
    ensures n <= |s|
    ensures n == |s| || IsSpace(s[n])
    ensures |s| > 0 && !IsSpace(s[0]) ==> n > 0
  {
    if |s| == 0 || IsSpace(s[0]) then 0 else 1 + WordLength(s[1..])
  }

  /** No character of the leading run is whitespace. */
  lemma {:induction false} WordLengthNoSpace(s: string)
    ensures NoSpace(s[..WordLength(s)])
    decreases |s|
  {
    if |s| > 0 && !IsSpace(s[0]) {
      var n := WordLength(s);
      WordLengthNoSpace(s[1..]);
      assert s[..n] == [s[0]] + s[1..][..n - 1];
    }
  }

  /** `s.split()`: the maximal runs of non-whitespace characters, in order. */
  function SplitWs(s: string): seq<string>
    decreases |s|
  {
    if s == [] then []
    else if IsSpace(s[0]) then SplitWs(s[1..])
    else
      var n := WordLength(s);
      [s[..n]] + SplitWs(s[n..])
  }

  /** Every token `split()` returns is a word. */
  lemma {:induction false} SplitWsTokens(s: string)
    ensures forall k :: 0 <= k < |SplitWs(s)| ==> IsWord(SplitWs(s)[k])
    decreases |s|
  {
    if s != [] {
      if IsSpace(s[0]) {
        SplitWsTokens(s[1..]);
      } else {
        var n := WordLength(s);
        var rest := SplitWs(s[n..]);
        assert SplitWs(s) == [s[..n]] + rest;
        WordLengthNoSpace(s);
        SplitWsTokens(s[n..]);
        forall k | 0 <= k < |SplitWs(s)|
          ensures IsWord(SplitWs(s)[k])
        {
          if k > 0 {
            assert SplitWs(s)[k] == rest[k - 1];
          }
        }
      }
    }
  }

  /** Leading whitespace does not change what `split()` returns. */
  lemma {:induction false} SplitWsPadded(a: string, s: string)
    requires AllSpace(a)
    ensures SplitWs(a + s) == SplitWs(s)
    decreases |a|
  {
    if a == [] {
      assert a + s == s;
    } else {
      assert (a + s)[0] == a[0];
      assert (a + s)[1..] == a[1..] + s;
      SplitWsPadded(a[1..], s);
    }
  }

  /** The leading run of `w + rest` is `w` when `w` has no whitespace and `rest` starts with some. */
  lemma {:induction false} WordLengthOf(w: string, rest: string)
    requires NoSpace(w)
    requires rest == [] || IsSpace(rest[0])
    ensures WordLength(w + rest) == |w|
    decreases |w|
  {
    if w == [] {
      assert w + rest == rest;
    } else {
      assert (w + rest)[0] == w[0];
      assert (w + rest)[1..] == w[1..] + rest;
      WordLengthOf(w[1..], rest);
    }
  }

  /** A leading word followed by whitespace (or nothing) is the first thing `split()` returns. */
  lemma {:induction false} SplitWsCons(w: string, rest: string)
    requires IsWord(w)
    requires rest == [] || IsSpace(rest[0])
    ensures SplitWs(w + rest) == [w] + SplitWs(rest)
  {
    var s := w + rest;
    assert s[0] == w[0];
    WordLengthOf(w, rest);
    assert s[..|w|] == w;
    assert s[|w|..] == rest;
  }

  /** An empty text has no words. */
  lemma {:induction false} SplitWsEmpty()
    ensures SplitWs([]) == []
  {
  }

  /** A single word splits into itself. */
  lemma {:induction false} SplitWsWord(w: string)
    requires IsWord(w)
    ensures SplitWs(w) == [w]
  {
    SplitWsLast(w);
    SplitWsEmpty();
    var noWords: seq<string> := [];
    assert [w] + noWords == [w];
  }

  lemma {:induction false} SplitWsLast(w: string)
    requires IsWord(w)
    ensures SplitWs(w) == [w] + SplitWs([])
  {
    assert w + [] == w;
    SplitWsCons(w, []);
  }

  /** Each word of a joined text is split off in turn. */
  lemma {:induction false} SplitWsJoinStep(tokens: seq<string>)
    requires |tokens| > 1 && IsWord(tokens[0])
    ensures SplitWs(Join(tokens, " ")) == [tokens[0]] + SplitWs(Join(tokens[1..], " "))
  {
    var w, rest := tokens[0], Join(tokens[1..], " ");
    JoinCons(tokens, " ");
    SplitWsCons(w, " " + rest);
    SplitWsPadded(" ", rest);
  }

  /** `" ".join(tokens).split() == tokens` for words. */
  lemma {:induction false} SplitWsOfJoin(tokens: seq<string>)
    requires forall k :: 0 <= k < |tokens| ==> IsWord(tokens[k])
    ensures SplitWs(Join(tokens, " ")) == tokens
  {
    if |tokens| == 1 {
      assert Join(tokens, " ") == tokens[0];
      SplitWsWord(tokens[0]);
    } else if |tokens| > 1 {
      SplitWsJoinStep(tokens);
      SplitWsOfJoin(tokens[1..]);
    }
  }

  lemma {:induction false} JoinCons(parts: seq<string>, sep: string)
    requires |parts| > 1
    ensures Join(parts, sep) == parts[0] + (sep + Join(parts[1..], sep))
  {
  }

  // ---------------------------------------------------------------- replace(c, "")

  /** `s.replace(c, "")`: every `c` deleted, the other characters kept in order. */
  function RemoveChar(s: string, c: char): (r: string)
    ensures |r| <= |s|
  {
    if s == [] then []
    else (if s[0] == c then [] else [s[0]]) + RemoveChar(s[1..], c)
  }

  /** After `replace(c, "")` no `c` is left and every other character is still there. */
  lemma {:induction false} RemoveCharMembers(s: string, c: char)
    ensures c !in RemoveChar(s, c)
    ensures forall d :: d != c ==> (d in RemoveChar(s, c) <==> d in s)
    decreases |s|
  {
    if s != [] {
      RemoveCharMembers(s[1..], c);
      assert s == [s[0]] + s[1..];
    }
  }

  /** Deleting a character distributes over concatenation. */
  lemma {:induction false} RemoveCharAppend(a: string, b: string, c: char)
    ensures RemoveChar(a + b, c) == RemoveChar(a, c) + RemoveChar(b, c)
    decreases |a|
  {
    if a == [] {
      assert a + b == b;
    } else {
      assert (a + b)[1..] == a[1..] + b;
      RemoveCharAppend(a[1..], b, c);
    }
  }

  /** Deleting `c` from `a + c + rest` where `a` has no `c` leaves `a + RemoveChar(rest)`. */
  lemma {:induction false} RemoveCharAround(a: string, c: char, rest: string)
    requires c !in a
    ensures RemoveChar(a + [c] + rest, c) == a + RemoveChar(rest, c)
  {
    var front := a + [c];
    RemoveCharAppend(front, rest, c);
    RemoveCharAppend(a, [c], c);
    RemoveCharAbsent(a, c);
    RemoveCharOnly(c);
    assert RemoveChar(front, c) == a;
  }

  /** Deleting `c` from the one-character text `c` leaves nothing. */
  lemma {:induction false} RemoveCharOnly(c: char)
    ensures RemoveChar([c], c) == []
  {
    assert [c][1..] == [];
  }

  /** Deleting a character that does not occur changes nothing. */
  lemma {:induction false} RemoveCharAbsent(s: string, c: char)
    requires c !in s
    ensures RemoveChar(s, c) == s
    decreases |s|
  {
    if s != [] {
      RemoveCharAbsent(s[1..], c);
      assert s == [s[0]] + s[1..];
    }
  }
}
