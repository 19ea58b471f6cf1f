/**
 The batch step of `main`: every line read from the log file is stripped of
 surrounding whitespace, then handed to `parse_logfile`; the dictionaries it
 returns are collected one per line, failures included, and the entries it
 appends to the module-level `parsing_errors` list are returned here as an
 explicit accumulator. The parser is a parameter here; the pipeline passes
 `parse_logfile` with its timestamp parser.
 */
module Batch {
  import opened Wrappers
  import opened PyStrings
  import opened LogParser

  /** One entry of `parsing_errors`: the line as it was parsed and the exception it raised. */
  datatype ParseFailure = ParseFailure(line: string, error: ParseError)

  /** `[log.strip() for log in logs]`: one stripped line per line read, in order. */
  function StripLines(lines: seq<string>): (logs: seq<string>)
    ensures |logs| == |lines|
    ensures forall i :: 0 <= i < |lines| ==> logs[i] == Strip(lines[i]) && Stripped(logs[i])
  {
    seq(|lines|, i requires 0 <= i < |lines| => Strip(lines[i]))
  }

  /** The line raises inside the parser. */
  predicate Fails<T>(log: string, parse: string -> Parsed<T>) {
    parse(log).error.Some?
  }

  /** The error-list entry a single line contributes: one entry if it fails, none otherwise. */
  function EntryOf<T>(log: string, parse: string -> Parsed<T>): (e: seq<ParseFailure>)
    ensures |e| <= 1
    ensures |e| == 1 <==> Fails(log, parse)
    ensures |e| == 1 ==> e[0].line == log && Some(e[0].error) == parse(log).error
  {
    match parse(log).error
    case None => []
    case Some(err) => [ParseFailure(log, err)]
  }

  /** The whole error list: the entries of the lines, in input order. */
  function Failures<T>(lines: seq<string>, parse: string -> Parsed<T>): (errors: seq<ParseFailure>)
    ensures |errors| <= |lines|
    ensures forall k :: 0 <= k < |errors| ==> parse(errors[k].line).error == Some(errors[k].error)
  {
    if lines == [] then []
    else Failures(lines[..|lines| - 1], parse) + EntryOf(lines[|lines| - 1], parse)
  }

  /** `[parse_logfile(log) for log in logs]`: the dictionaries alone, one per line, in order. */
  function Records<T>(logs: seq<string>, parse: string -> Parsed<T>): (records: seq<Record<T>>)
    ensures |records| == |logs|
    ensures forall i :: 0 <= i < |logs| ==> records[i] == parse(logs[i]).record
  {
    seq(|logs|, i requires 0 <= i < |logs| => parse(logs[i]).record)
  }

  /**
   `output = [parse_logfile(log) for log in logs]`, with the entries appended to
   `parsing_errors` returned instead of collected in a global.
   */
  method ParseLines<T>(logs: seq<string>, parse: string -> Parsed<T>)
    returns (records: seq<Record<T>>, failures: seq<ParseFailure>)
    ensures |records| == |logs|
    ensures forall i :: 0 <= i < |logs| ==> records[i] == parse(logs[i]).record
    ensures failures == Failures(logs, parse)
  {
    records, failures := [], [];
    for i := 0 to |logs|
      invariant |records| == i
      invariant forall k :: 0 <= k < i ==> records[k] == parse(logs[k]).record
      invariant failures == Failures(logs[..i], parse)
    {
      var parsed := parse(logs[i]);
      records := records + [parsed.record];
      if parsed.error.Some? {
        failures := failures + [ParseFailure(logs[i], parsed.error.value)];
      }
      assert logs[..i + 1][..i] == logs[..i];
    }
    assert logs[..|logs|] == logs;
  }

  /** The error list of a concatenation is the concatenation of the error lists. */
  lemma {:induction false} FailuresAppend<T>(a: seq<string>, b: seq<string>, parse: string -> Parsed<T>)
    ensures Failures(a + b, parse) == Failures(a, parse) + Failures(b, parse)
    decreases |b|
  {
    if b == [] {
      assert a + b == a;
    } else {
      var b' := b[..|b| - 1];
      assert (a + b)[..|a + b| - 1] == a + b';
      FailuresAppend(a, b', parse);
    }
  }

  /**
   The error list holds exactly the failing lines: an entry is in it if and only if
   some line is the entry's line and raises the entry's error.
   */
  lemma {:induction false} FailuresExactly<T>(lines: seq<string>, parse: string -> Parsed<T>, f: ParseFailure)
    ensures f in Failures(lines, parse) <==>
      exists i :: 0 <= i < |lines| && f.line == lines[i]
        && parse(lines[i]).error == Some(f.error)
    decreases |lines|
  {
    if lines != [] {
      var n := |lines| - 1;
      var init := lines[..n];
      FailuresExactly(init, parse, f);
      var e := EntryOf(lines[n], parse);
      if f in Failures(lines, parse) {
        if f !in Failures(init, parse) {
          assert f in e;
          assert f.line == lines[n];
        } else {
          var i :| 0 <= i < |init| && f.line == init[i]
            && parse(init[i]).error == Some(f.error);
          assert lines[i] == init[i];
        }
      }
      if exists i :: (0 <= i < |lines| && f.line == lines[i]
                      && parse(lines[i]).error == Some(f.error))
      {
        var i :| 0 <= i < |lines| && f.line == lines[i]
          && parse(lines[i]).error == Some(f.error);
        if i < n {
          assert init[i] == lines[i];
        } else {
          assert e == [f];
        }
      }
    }
  }

  /** The number of lines that fail to parse. */
  function CountFailing<T>(lines: seq<string>, parse: string -> Parsed<T>): nat {
    if lines == [] then 0
    else CountFailing(lines[..|lines| - 1], parse) + (if Fails(lines[|lines| - 1], parse) then 1 else 0)
  }

  /** There is one error entry per failing line. */
  lemma {:induction false} FailuresCount<T>(lines: seq<string>, parse: string -> Parsed<T>)
    ensures |Failures(lines, parse)| == CountFailing(lines, parse)
    decreases |lines|
  {
    if lines != [] {
      FailuresCount(lines[..|lines| - 1], parse);
    }
  }

  /** The error list is empty exactly when no line raised. */
  lemma {:induction false} NoFailuresNoErrors<T>(lines: seq<string>, parse: string -> Parsed<T>)
    ensures Failures(lines, parse) == [] <==>
      forall i :: 0 <= i < |lines| ==> parse(lines[i]).error.None?
    decreases |lines|
  {
    if lines != [] {
      var n := |lines| - 1;
      var init := lines[..n];
      NoFailuresNoErrors(init, parse);
      assert forall i :: 0 <= i < n ==> init[i] == lines[i];
    }
  }
}
