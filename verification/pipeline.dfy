/**
 The body of `main` with its I/O taken out: the lines read from the log file go
 through strip, `parse_logfile`, the duplicate drop and the per-row insertion loop.
 The timestamp parser and the database are parameters; the table the rows are
 inserted into may already hold rows from earlier runs.
 */
module Pipeline {
  import opened Wrappers
  import opened PyStrings
  import opened LogParser
  import opened Batch
  import opened Dedup
  import opened Loader

  /** `parse_logfile` with a fixed timestamp parser. */
  function Parser<T>(strptime: string -> Option<T>): (parse: string -> Parsed<T>)
    ensures forall line :: parse(line) == ParseLine(line, strptime)
  {
    line => ParseLine(line, strptime)
  }

  /**
   `pd.DataFrame(records)` has rows but no columns: every dictionary is empty. pandas
   gives such a frame an empty `duplicated()` mask, and `df[mask]` cannot align that
   mask with the frame's rows and raises, so `main` stops at the duplicate check.
   */
  predicate Columnless<T>(records: seq<Record<T>>) {
    |records| > 0 && forall i :: 0 <= i < |records| ==> records[i].Empty?
  }

  /** The exception left the dictionary empty: it was raised before `IP_Address` was set. */
  predicate RaisedBeforeAddress(error: Option<ParseError>) {
    error.Some? && !error.value.BadTimestamp?
  }

  /**
   No record is complete, so the frame has no `Timestamp` column: it has at most the
   `IP_Address` column. The insertion loop reads `row["Timestamp"]` to build the
   `INSERT`'s arguments, which raises `KeyError` on every row before the database is
   reached.
   */
  predicate Incomplete<T>(records: seq<Record<T>>) {
    forall i :: 0 <= i < |records| ==> !records[i].Full?
  }

  /** `str(KeyError('Timestamp'))`: the message every row fails with when that column is missing. */
  const MissingTimestamp: string := "'Timestamp'"

  /** What the insertion loop meets: the database when the frame has every column, a `KeyError` on each row otherwise. */
  function FrameSink<T>(records: seq<Record<T>>, sink: Sink<Record<T>>): Sink<Record<T>> {
    if Incomplete(records) then RejectEvery(MissingTimestamp) else sink
  }

  /**
   One run of `main`: the records built from the lines, the parse errors, whether the
   duplicate check raised, the frame after the duplicate drop, the table after the
   insertion loop and the insertion errors. When the duplicate check raises, the frame
   is left as built and nothing reaches the database. When no record is complete,
   every row of the frame fails with `KeyError` and the database is not called.
   */
  method RunPipeline<T(==)>(lines: seq<string>, strptime: string -> Option<T>,
                            table: seq<Record<T>>, sink: Sink<Record<T>>)
    returns (records: seq<Record<T>>, parseFailures: seq<ParseFailure>, aborted: bool,
             frame: seq<Record<T>>, committed: seq<Record<T>>,
             insertFailures: seq<InsertionFailure<Record<T>>>)
    ensures records == Records(StripLines(lines), Parser(strptime))
    ensures parseFailures == Failures(StripLines(lines), Parser(strptime))
    ensures aborted <==> Columnless(records)
    ensures aborted ==> frame == records && committed == table && insertFailures == []
    ensures !aborted ==> frame == DropDuplicates(records)
    ensures !aborted ==> CountTrue(Duplicated(records)) == |records| - |frame|
    ensures !aborted && !Incomplete(records) ==> Outcome(committed, insertFailures) == Load(table, frame, sink)
    ensures !aborted && Incomplete(records) ==>
      committed == table && |insertFailures| == |frame| &&
      forall k :: 0 <= k < |frame| ==> insertFailures[k] == InsertionFailure(frame[k], MissingTimestamp)
    ensures !aborted ==> |committed| - |table| + |insertFailures| == |frame| <= |lines|
  {
    var logs := StripLines(lines);
    records, parseFailures := ParseLines(logs, Parser(strptime));
    assert records == Records(StripLines(lines), Parser(strptime));
    aborted := |records| > 0 && forall i :: 0 <= i < |records| ==> records[i].Empty?;
    if aborted {
      frame, committed, insertFailures := records, table, [];
    } else {
      DuplicateCount(records);
      frame := Deduplicate(records);
      committed, insertFailures := InsertRows(table, frame, FrameSink(records, sink));
      if Incomplete(records) {
        RejectAll(table, frame, MissingTimestamp);
      }
    }
  }

  /**
   The duplicate check raises exactly when there is at least one line and every line
   raised inside the parser before `IP_Address` was set.
   */
  lemma {:induction false} AbortsOnEarlyFailures<T>(lines: seq<string>, strptime: string -> Option<T>)
    ensures Columnless(Records(StripLines(lines), Parser(strptime))) <==>
      |lines| > 0 && forall i :: 0 <= i < |lines| ==> RaisedBeforeAddress(ParseLine(Strip(lines[i]), strptime).error)
  {
    var records := Records(StripLines(lines), Parser(strptime));
    forall i | 0 <= i < |lines|
      ensures records[i].Empty? <==> RaisedBeforeAddress(ParseLine(Strip(lines[i]), strptime).error)
    {
      var r := ParseLine(Strip(lines[i]), strptime);
      assert records[i] == r.record;
    }
  }

  /**
   When `strptime` rejects every timestamp no record is complete, so no row of the log
   reaches the database.
   */
  lemma {:induction false} NoTimestampNoInsert<T>(lines: seq<string>, strptime: string -> Option<T>)
    requires forall text :: strptime(text).None?
    ensures Incomplete(Records(StripLines(lines), Parser(strptime)))
  {
    var records := Records(StripLines(lines), Parser(strptime));
    forall i | 0 <= i < |lines|
      ensures !records[i].Full?
    {
      ParseLineFields(Strip(lines[i]), strptime);
    }
  }

  /** The parse-error list is empty exactly when every stripped line yields a full record. */
  lemma {:induction false} CleanParse<T>(lines: seq<string>, strptime: string -> Option<T>)
    ensures Failures(StripLines(lines), Parser(strptime)) == [] <==>
      forall i :: 0 <= i < |lines| ==> ParseLine(Strip(lines[i]), strptime).record.Full?
  {
    var logs := StripLines(lines);
    var parse := Parser(strptime);
    NoFailuresNoErrors(logs, parse);
    assert forall i :: 0 <= i < |lines| ==>
      (parse(logs[i]).error.None? <==> ParseLine(Strip(lines[i]), strptime).record.Full?);
  }

  /** Every line that fails to parse has its stripped text and its error in the list. */
  lemma {:induction false} FailureReported<T>(lines: seq<string>, strptime: string -> Option<T>, i: nat)
    requires i < |lines|
    requires ParseLine(Strip(lines[i]), strptime).error.Some?
    ensures ParseFailure(Strip(lines[i]), ParseLine(Strip(lines[i]), strptime).error.value)
            in Failures(StripLines(lines), Parser(strptime))
  {
    var logs := StripLines(lines);
    var f := ParseFailure(Strip(lines[i]), ParseLine(Strip(lines[i]), strptime).error.value);
    FailuresExactly(logs, Parser(strptime), f);
    assert f.line == logs[i];
  }
}
