/**
 The per-line parser of the ETL script (`parse_logfile`). It cuts one access-log
 line of the shape

     <client> - - [<timestamp>] "<METHOD> <url> <protocol>" <status> <size>

 into fields using nothing but Python string splitting, and instead of raising it
 reports what went wrong next to the (possibly partial) dictionary it built.
 The timestamp parser `datetime.strptime(..., "%d/%b/%Y:%H:%M:%S %z")` is a
 parameter: a partial function from text to an instant of type `T`.
 */
module LogParser {
  import opened Wrappers
  import opened PyStrings

  /** The separator between the client address and the rest of the line. */
  const Separator: string := " - - "

  /** `Response_Size`: the integer `0` when the token is "-", otherwise the token text itself. */
  datatype ResponseSize = Zero | Token(text: string)

  /**
   The dictionary `parse_logfile` returns. `IP_Address` is the first key it sets, so
   a line whose timestamp does not parse yields a dictionary with that key only;
   a line that fails earlier yields an empty one.
   */
  datatype Record<T> =
    | Empty
    | AddressOnly(address: string)
    | Full(address: string, timestamp: T, requestMethod: string, url: string,
           status: string, size: ResponseSize, query: string)

  /** The exception that interrupted `parse_logfile`. */
  datatype ParseError =
    | NoSeparator              // IndexError on `first_split[1]`
    | NoClosingBracket         // IndexError on `second_split[1]`
    | WrongFieldCount(found: nat)  // ValueError from unpacking into five names
    | BadTimestamp(text: string)   // ValueError from `strptime`

  /** What one call returns (`record`) together with what it appended to the error list. */
  datatype Parsed<T> = Parsed(record: Record<T>, error: Option<ParseError>)

  // ------------------------------------------------------------------ views of a line

  /** The second field: the text between the first and the second separator. */
  function SecondField(line: string): string
    requires Contains(line, Separator)
  {
    Between(line, Separator)
  }

  /** The second field with every `[` deleted. */
  function Unbracketed(line: string): string
    requires Contains(line, Separator)
  {
    RemoveChar(SecondField(line), '[')
  }

  /** The timestamp text: the stripped text before the first `]` of the second field. */
  function TimestampText(line: string): string
    requires Contains(line, Separator)
  {
    Strip(Before(Unbracketed(line), "]"))
  }

  /** The line has a second field and a `]` in it. */
  predicate HasRequest(line: string) {
    Contains(line, Separator) && ']' in SecondField(line)
  }

  /** Deleting `[` keeps every `]`, so the second field has a `]` exactly when its unbracketed form does. */
  lemma {:induction false} ClosingBracketKept(line: string)
    requires Contains(line, Separator)
    ensures Contains(Unbracketed(line), "]") <==> ']' in SecondField(line)
  {
    RemoveCharMembers(SecondField(line), '[');
    ContainsChar(Unbracketed(line), ']');
  }

  /** The whitespace tokens of the quote-free text between the first and second `]`. */
  function RequestTokens(line: string): seq<string>
    requires HasRequest(line)
  {
    ClosingBracketKept(line);
    SplitWs(RemoveChar(Between(Unbracketed(line), "]"), '"'))
  }

  /** The two `split` calls of the parser seen through the views above. */
  lemma {:induction false} LineSplits(line: string)
    ensures var first := SplitOn(line, Separator);
      && (|first| >= 2 <==> Contains(line, Separator))
      && first[0] == Before(line, Separator)
      && (|first| >= 2 ==> first[1] == SecondField(line))
    ensures Contains(line, Separator) ==>
      var second := SplitOn(Unbracketed(line), "]");
      && (|second| >= 2 <==> ']' in SecondField(line))
      && second[0] == Before(Unbracketed(line), "]")
      && (|second| >= 2 ==> second[1] == Between(Unbracketed(line), "]"))
  {
    SplitOnFields(line, Separator);
    if Contains(line, Separator) {
      SplitOnFields(Unbracketed(line), "]");
      ClosingBracketKept(line);
    }
  }

  // ------------------------------------------------------------------ field rules

  /** `Response_Size`: "-" becomes the integer 0; any other token is kept as it is. */
  function SizeOf(token: string): (r: ResponseSize)
    ensures r == Zero <==> token == "-"
    ensures r.Token? ==> r.text == token
  {
    if token == "-" then Zero else Token(token)
  }

  /**
   `url.split("?")[1] if "?" in url else ""`: the text between the first `?` and the
   next `?` (or the end of the URL); empty when there is no `?` at all.
   */
  function QueryOf(url: string): (q: string)
    ensures '?' !in url ==> q == ""
    ensures '?' in url ==> '?' !in q
    ensures '?' in url ==> exists i :: 0 <= i < |url| && url[i] == '?' && '?' !in url[..i] && QueryAt(url, i, q)
  {
    if '?' in url then
      QueryFacts(url);
      SplitOnFields(url, "?");
      SplitOn(url, "?")[1]
    else ""
  }

  lemma {:induction false} QueryFacts(url: string)
    requires '?' in url
    ensures Contains(url, "?") && FindFirst(url, "?").Some?
    ensures var q, i := Between(url, "?"), FindFirst(url, "?").value;
      && '?' !in q && i < |url| && url[i] == '?' && '?' !in url[..i] && QueryAt(url, i, q)
  {
    ContainsChar(url, '?');
    FindFirstChar(url, '?');
    BetweenChar(url, '?');
  }

  /**
   The query of a URL `a?b…` is `b`: the first `?` closes the path `a`, and the query
   runs up to the next `?` or the end.
   */
  lemma {:induction false} QuerySplit(a: string, b: string, c: string)
    requires '?' !in a && '?' !in b
    requires c == [] || c[0] == '?'
    ensures QueryOf(a + "?" + b + c) == b
  {
    var url := a + "?" + b + c;
    assert url[..|a|] == a && url[|a|] == '?' && url[|a| + 1..] == b + c;
    QueryAfterMark(url, a, b, c);
  }

  lemma {:induction false} QueryAfterMark(url: string, a: string, b: string, c: string)
    requires |a| < |url| && url[..|a|] == a && url[|a|] == '?' && url[|a| + 1..] == b + c
    requires '?' !in a && '?' !in b && (c == [] || c[0] == '?')
    ensures QueryOf(url) == b
  {
    var q := QueryOf(url);
    var i :| 0 <= i < |url| && url[i] == '?' && '?' !in url[..i] && QueryAt(url, i, q);
    QueryAtMark(url, a, b, c, i, q);
  }

  /** The query found after the first `?` of `a?b…` is `b`. */
  lemma {:induction false} QueryAtMark(url: string, a: string, b: string, c: string, i: nat, q: string)
    requires |a| < |url| && url[..|a|] == a && url[|a|] == '?' && url[|a| + 1..] == b + c
    requires '?' !in a && '?' !in b && (c == [] || c[0] == '?') && '?' !in q
    requires i < |url| && url[i] == '?' && '?' !in url[..i] && QueryAt(url, i, q)
    ensures q == b
  {
    FirstMark(url, a, i);
    var rest := url[|a| + 1..];
    assert rest[..|q|] == q;
    QueryExtent(rest, q, b, c);
  }

  /** The first `?` of `a?…` sits right after `a` when `a` has none. */
  lemma {:induction false} FirstMark(url: string, a: string, i: nat)
    requires |a| < |url| && url[..|a|] == a && url[|a|] == '?' && '?' !in a
    requires i < |url| && url[i] == '?' && '?' !in url[..i]
    ensures i == |a|
  {
  }

  /** A `?`-free prefix of `b + c` that ends at a `?` or the end of text is all of `b`. */
  lemma {:induction false} QueryExtent(rest: string, q: string, b: string, c: string)
    requires rest == b + c && '?' !in b && (c == [] || c[0] == '?') && '?' !in q
    requires |q| <= |rest| && rest[..|q|] == q && (|q| == |rest| || rest[|q|] == '?')
    ensures q == b
  {
    assert rest[..|b|] == b;
  }

  /** `q` starts right after the `?` at index `i` and runs up to the next `?` or the end. */
  predicate QueryAt(url: string, i: nat, q: string) {
    i + 1 + |q| <= |url| && url[i + 1..i + 1 + |q|] == q
    && (i + 1 + |q| == |url| || url[i + 1 + |q|] == '?')
  }

  // ------------------------------------------------------------------ the parser

  /**
   `parse_logfile(line)`: the dictionary it returns and the entry it adds to the
   error list, if any. The steps follow the source statement by statement.
   */
  function ParseLine<T>(line: string, strptime: string -> Option<T>): (r: Parsed<T>)
    ensures r.record.Full? <==> r.error.None?
    ensures r.record.AddressOnly? <==> r.error.Some? && r.error.value.BadTimestamp?
    ensures !r.record.Empty? ==> r.record.address == Strip(Before(line, Separator))
  {
    LineSplits(line);
    var firstSplit := SplitOn(line, Separator);
    var address := Strip(firstSplit[0]);
    if |firstSplit| < 2 then Parsed(Empty, Some(NoSeparator))
    else
      var secondSplit := SplitOn(RemoveChar(firstSplit[1], '['), "]");
      var timestamp := Strip(secondSplit[0]);
      if |secondSplit| < 2 then Parsed(Empty, Some(NoClosingBracket))
      else
        var fields := SplitWs(RemoveChar(secondSplit[1], '"'));
        if |fields| != 5 then Parsed(Empty, Some(WrongFieldCount(|fields|)))
        else
          match strptime(timestamp)
          case None => Parsed(AddressOnly(address), Some(BadTimestamp(timestamp)))
          case Some(t) =>
            Parsed(Full(address, t, fields[0], fields[1], fields[3], SizeOf(fields[4]), QueryOf(fields[1])), None)
  }

  /** Each exception `parse_logfile` can catch, with exactly the lines that raise it. */
  lemma {:induction false} ParseLineFailures<T>(line: string, strptime: string -> Option<T>)
    ensures var r := ParseLine(line, strptime);
      && (r.error == Some(NoSeparator) <==> !Contains(line, Separator))
      && (r.error == Some(NoClosingBracket) <==> Contains(line, Separator) && ']' !in SecondField(line))
      && (r.error.Some? && r.error.value.WrongFieldCount? <==> HasRequest(line) && |RequestTokens(line)| != 5)
      && (r.error.Some? && r.error.value.BadTimestamp? <==>
            HasRequest(line) && |RequestTokens(line)| == 5 && strptime(TimestampText(line)).None?)
  {
    LineSplits(line);
  }

  /** The fields of a full record are the request tokens and the parsed timestamp. */
  lemma {:induction false} ParseLineFields<T>(line: string, strptime: string -> Option<T>)
    ensures var r := ParseLine(line, strptime);
      r.record.Full? ==>
        && HasRequest(line) && |RequestTokens(line)| == 5
        && strptime(TimestampText(line)) == Some(r.record.timestamp)
        && r.record.requestMethod == RequestTokens(line)[0]
        && r.record.url == RequestTokens(line)[1]
        && r.record.status == RequestTokens(line)[3]
        && r.record.size == SizeOf(RequestTokens(line)[4])
        && r.record.query == QueryOf(r.record.url)
  {
    LineSplits(line);
    var r := ParseLine(line, strptime);
    if r.record.Full? {
      assert Contains(line, Separator) && ']' in SecondField(line);
      assert |RequestTokens(line)| == 5;
    }
  }

  /**
   The converse of the failure conditions: a line with a separator, a `]` after it,
   five request tokens and a timestamp `strptime` accepts parses to a full record.
   */
  lemma {:induction false} ParseSucceeds<T>(line: string, strptime: string -> Option<T>, t: T)
    ensures HasRequest(line) && |RequestTokens(line)| == 5 && strptime(TimestampText(line)) == Some(t) ==>
      var toks := RequestTokens(line);
      ParseLine(line, strptime)
      == Parsed(Full(Strip(Before(line, Separator)), t, toks[0], toks[1], toks[3], SizeOf(toks[4]), QueryOf(toks[1])), None)
  {
    if HasRequest(line) && |RequestTokens(line)| == 5 && strptime(TimestampText(line)) == Some(t) {
      ParseLineFailures(line, strptime);
      ParseLineFields(line, strptime);
      var r := ParseLine(line, strptime);
      assert r.error.None?;
      assert r.record.Full?;
    }
  }

  // ------------------------------------------------------------------ formatting and round trip

  /** The part after `]` in a formatted line: ` "m u p" st sz`. */
  function RequestText(m: string, u: string, p: string, st: string, sz: string): string {
    " \"" + m + " " + u + " " + p + "\" " + st + " " + sz
  }

  /** Lays the fields out as `address - - [timestamp] "m u p" st sz`. */
  function FormatLine(address: string, timestamp: string, m: string, u: string, p: string,
                      st: string, sz: string): string
  {
    address + Separator + "[" + timestamp + "]" + RequestText(m, u, p, st, sz)
  }

  /** The request part grouped as the quote, the first three tokens, the quote and the last two. */
  lemma {:induction false} RequestTextGrouped(m: string, u: string, p: string, st: string, sz: string)
    ensures RequestText(m, u, p, st, sz) == " " + ['"'] + ((m + " " + u + " " + p) + ['"'] + (" " + st + " " + sz))
  {
    var a := m + " " + u + " " + p;
    var b := " " + st + " " + sz;
    assert " \"" == " " + ['"'];
    assert "\" " == ['"'] + " ";
    assert " \"" + m + " " + u + " " + p == " \"" + a;
    assert " \"" + a + "\" " + st + " " + sz == " \"" + a + ['"'] + b;
  }

  /** A formatted line grouped as the address, the separator and the bracketed rest. */
  lemma {:induction false} FormatLineGrouped(address: string, timestamp: string, m: string, u: string, p: string,
                                             st: string, sz: string)
    ensures FormatLine(address, timestamp, m, u, p, st, sz)
            == address + Separator + (['['] + (timestamp + [']'] + RequestText(m, u, p, st, sz)))
  {
  }

  /** A token the formatter can carry through the parser unchanged. */
  predicate PlainToken(s: string) {
    |s| > 0 && NoSpace(s) && '[' !in s && ']' !in s && '"' !in s
  }

  /** A separator needs three blanks, so a text with fewer than three has none. */
  lemma {:induction false} FewBlanksNoSeparator(s: string)
    requires multiset(s)[' '] < 3
    ensures !Contains(s, Separator)
  {
    forall j | 0 <= j <= |s| - |Separator|
      ensures !OccursAt(s, Separator, j)
    {
      assert s == s[..j] + s[j..j + 5] + s[j + 5..];
      assert multiset(s)[' '] == multiset(s[..j])[' '] + multiset(s[j..j + 5])[' '] + multiset(s[j + 5..])[' '];
      assert multiset(Separator)[' '] == 3;
    }
  }

  /** The request part of a formatted line holds no separator. */
  lemma {:induction false} RequestHasNoSeparator(m: string, u: string, p: string, st: string, sz: string)
    requires PlainToken(m) && PlainToken(u) && PlainToken(p) && PlainToken(st) && PlainToken(sz)
    ensures !Contains(RequestText(m, u, p, st, sz), Separator)
  {
    RequestTextGrouped(m, u, p, st, sz);
    NoSpaceNoBlank(m); NoSpaceNoBlank(u); NoSpaceNoBlank(p); NoSpaceNoBlank(st); NoSpaceNoBlank(sz);
    var a := m + " " + u + " " + p;
    var b := " " + st + " " + sz;
    assert multiset(a)[' '] == 2;
    assert multiset(b)[' '] == 2;
    FewBlanksNoSeparator(a);
    FewBlanksNoSeparator(b);
    NotContainsAcross(a, '"', b, Separator);
    FewBlanksNoSeparator(" ");
    NotContainsAcross(" ", '"', a + ['"'] + b, Separator);
  }

  /** The second field of a formatted line holds no separator either. */
  lemma {:induction false} TailHasNoSeparator(timestamp: string, r: string)
    requires !Contains(timestamp, Separator) && !Contains(r, Separator)
    ensures !Contains(['['] + (timestamp + [']'] + r), Separator)
  {
    NotContainsAcross(timestamp, ']', r, Separator);
    FewBlanksNoSeparator([]);
    NotContainsAcross([], '[', timestamp + [']'] + r, Separator);
    assert [] + ['['] + (timestamp + [']'] + r) == ['['] + (timestamp + [']'] + r);
  }

  /** The first split of `address + " - - " + tail`, when the address has no blank and the tail no separator. */
  lemma {:induction false} SplitFormatted(address: string, tail: string)
    requires NoSpace(address) && !Contains(tail, Separator)
    ensures Contains(address + Separator + tail, Separator)
    ensures Strip(Before(address + Separator + tail, Separator)) == address
    ensures SecondField(address + Separator + tail) == tail
  {
    var line := address + Separator + tail;
    forall j | 0 <= j < |address|
      ensures !OccursAt(line, Separator, j)
    {
      assert line[j] == address[j];
      assert line[j..j + 5][0] == line[j];
    }
    assert line[|address|..|address| + 5] == Separator;
    FirstOccurrence(line, Separator, |address|);
    assert line[..|address|] == address;
    assert line[|address| + 5..] == tail;
    BeforeAbsent(tail, Separator);
    StripNoSpace(address);
  }

  /** A text without whitespace is left as it is by `strip()`. */
  lemma {:induction false} StripNoSpace(s: string)
    requires NoSpace(s)
    ensures Strip(s) == s
  {
    if |s| > 0 {
      assert !IsSpace(s[0]) && !IsSpace(s[|s| - 1]);
    }
    StripPadded([], s, []);
    assert [] + s + [] == s;
  }

  /** The second field `[ts]r` loses its `[`, and splits on `]` into `ts` and `r`. */
  lemma {:induction false} SplitBracketed(timestamp: string, r: string)
    requires '[' !in timestamp && ']' !in timestamp && '[' !in r && ']' !in r
    ensures RemoveChar(['['] + (timestamp + [']'] + r), '[') == timestamp + [']'] + r
    ensures Contains(timestamp + [']'] + r, "]")
    ensures Before(timestamp + [']'] + r, "]") == timestamp
    ensures Between(timestamp + [']'] + r, "]") == r
  {
    var x := timestamp + [']'] + r;
    assert '[' !in x;
    assert ['['] + x == [] + ['['] + x;
    RemoveCharAround([], '[', x);
    RemoveCharAbsent(x, '[');
    FirstOccurrenceChar(timestamp, ']', r);
    ContainsChar(r, ']');
    BeforeAbsent(r, "]");
  }

  /** The request part loses its quotes and leaves the five tokens joined by blanks. */
  lemma {:induction false} UnquoteRequest(m: string, u: string, p: string, st: string, sz: string)
    requires PlainToken(m) && PlainToken(u) && PlainToken(p) && PlainToken(st) && PlainToken(sz)
    ensures RemoveChar(RequestText(m, u, p, st, sz), '"') == " " + Join([m, u, p, st, sz], " ")
  {
    RequestTextGrouped(m, u, p, st, sz);
    var a := m + " " + u + " " + p;
    var b := " " + st + " " + sz;
    assert '"' !in a && '"' !in b;
    UnquoteAround(a, b);
    JoinFive(m, u, p, st, sz);
  }

  lemma {:induction false} UnquoteAround(a: string, b: string)
    requires '"' !in a && '"' !in b
    ensures RemoveChar(" " + ['"'] + (a + ['"'] + b), '"') == " " + (a + b)
  {
    RemoveCharAround(" ", '"', a + ['"'] + b);
    RemoveCharAround(a, '"', b);
    RemoveCharAbsent(b, '"');
  }

  /** `(" " + " ".join(tokens)).split()` gives the tokens back. */
  lemma {:induction false} SplitJoined(toks: seq<string>)
    requires forall k :: 0 <= k < |toks| ==> PlainToken(toks[k])
    ensures SplitWs(" " + Join(toks, " ")) == toks
  {
    SplitWsPadded(" ", Join(toks, " "));
    SplitWsOfJoin(toks);
  }

  /** What the parser needs to know about the request part of a formatted line. */
  lemma {:induction false} RequestFacts(m: string, u: string, p: string, st: string, sz: string)
    requires PlainToken(m) && PlainToken(u) && PlainToken(p) && PlainToken(st) && PlainToken(sz)
    ensures var r := RequestText(m, u, p, st, sz);
      && !Contains(r, Separator) && '[' !in r && ']' !in r
      && SplitWs(RemoveChar(r, '"')) == [m, u, p, st, sz]
  {
    RequestHasNoSeparator(m, u, p, st, sz);
    RequestHasNoBrackets(m, u, p, st, sz);
    UnquoteRequest(m, u, p, st, sz);
    SplitJoinedFive(m, u, p, st, sz);
  }

  lemma {:induction false} RequestHasNoBrackets(m: string, u: string, p: string, st: string, sz: string)
    requires PlainToken(m) && PlainToken(u) && PlainToken(p) && PlainToken(st) && PlainToken(sz)
    ensures '[' !in RequestText(m, u, p, st, sz) && ']' !in RequestText(m, u, p, st, sz)
  {
    RequestTextGrouped(m, u, p, st, sz);
  }

  /** What the parser's views see in `address - - [timestamp]r`. */
  lemma {:induction false} FormattedViews(address: string, timestamp: string, r: string)
    requires NoSpace(address)
    requires Stripped(timestamp) && '[' !in timestamp && ']' !in timestamp && !Contains(timestamp, Separator)
    requires !Contains(r, Separator) && '[' !in r && ']' !in r
    ensures var line := address + Separator + (['['] + (timestamp + [']'] + r));
      && Contains(line, Separator) && Strip(Before(line, Separator)) == address
      && HasRequest(line) && TimestampText(line) == timestamp
      && RequestTokens(line) == SplitWs(RemoveChar(r, '"'))
  {
    var tail := ['['] + (timestamp + [']'] + r);
    var line := address + Separator + tail;
    TailHasNoSeparator(timestamp, r);
    SplitFormatted(address, tail);
    BracketViews(line, timestamp, r);
  }

  /** Once the second field is known to be `[ts]r`, the timestamp and request views follow. */
  lemma {:induction false} BracketViews(line: string, timestamp: string, r: string)
    requires Contains(line, Separator) && SecondField(line) == ['['] + (timestamp + [']'] + r)
    requires Stripped(timestamp) && '[' !in timestamp && ']' !in timestamp && '[' !in r && ']' !in r
    ensures HasRequest(line) && TimestampText(line) == timestamp
    ensures RequestTokens(line) == SplitWs(RemoveChar(r, '"'))
  {
    SplitBracketed(timestamp, r);
    var x := timestamp + [']'] + r;
    assert Unbracketed(line) == x;
    assert ']' in SecondField(line);
    StripPadded([], timestamp, []);
    assert [] + timestamp + [] == timestamp;
  }

  lemma {:induction false} SplitJoinedFive(m: string, u: string, p: string, st: string, sz: string)
    requires PlainToken(m) && PlainToken(u) && PlainToken(p) && PlainToken(st) && PlainToken(sz)
    ensures SplitWs(" " + Join([m, u, p, st, sz], " ")) == [m, u, p, st, sz]
  {
    var toks := [m, u, p, st, sz];
    forall k | 0 <= k < |toks|
      ensures PlainToken(toks[k])
    {
    }
    SplitJoined(toks);
  }

  /**
   Round trip: a line laid out from plain fields parses back to exactly those fields,
   except the protocol, which the parser drops.
   */
  lemma {:induction false} ParseFormatted<T>(address: string, timestamp: string, m: string, u: string, p: string,
                          st: string, sz: string, strptime: string -> Option<T>, t: T)
    requires NoSpace(address)
    requires Stripped(timestamp) && '[' !in timestamp && ']' !in timestamp && !Contains(timestamp, Separator)
    requires PlainToken(m) && PlainToken(u) && PlainToken(p) && PlainToken(st) && PlainToken(sz)
    requires strptime(timestamp) == Some(t)
    ensures ParseLine(FormatLine(address, timestamp, m, u, p, st, sz), strptime)
            == Parsed(Full(address, t, m, u, st, SizeOf(sz), QueryOf(u)), None)
  {
    FormatLineGrouped(address, timestamp, m, u, p, st, sz);
    RequestFacts(m, u, p, st, sz);
    ParseBracketed(address, timestamp, RequestText(m, u, p, st, sz), [m, u, p, st, sz], strptime, t);
  }

  lemma {:induction false} ParseBracketed<T>(address: string, timestamp: string, r: string, toks: seq<string>,
                          strptime: string -> Option<T>, t: T)
    requires NoSpace(address)
    requires Stripped(timestamp) && '[' !in timestamp && ']' !in timestamp && !Contains(timestamp, Separator)
    requires !Contains(r, Separator) && '[' !in r && ']' !in r
    requires SplitWs(RemoveChar(r, '"')) == toks && |toks| == 5
    requires strptime(timestamp) == Some(t)
    ensures ParseLine(address + Separator + (['['] + (timestamp + [']'] + r)), strptime)
            == Parsed(Full(address, t, toks[0], toks[1], toks[3], SizeOf(toks[4]), QueryOf(toks[1])), None)
  {
    FormattedViews(address, timestamp, r);
    ParseSucceeds(address + Separator + (['['] + (timestamp + [']'] + r)), strptime, t);
  }

  lemma {:induction false} JoinFive(m: string, u: string, p: string, st: string, sz: string)
    ensures Join([m, u, p, st, sz], " ") == m + " " + u + " " + p + " " + st + " " + sz
  {
    assert Join([sz], " ") == sz;
    assert Join([st, sz], " ") == st + " " + sz by {
      assert [st, sz][1..] == [sz];
    }
    assert Join([p, st, sz], " ") == p + " " + (st + " " + sz) by {
      assert [p, st, sz][1..] == [st, sz];
    }
    assert Join([u, p, st, sz], " ") == u + " " + (p + " " + (st + " " + sz)) by {
      assert [u, p, st, sz][1..] == [p, st, sz];
    }
    assert [m, u, p, st, sz][1..] == [u, p, st, sz];
  }
}
