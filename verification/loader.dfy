/**
 The insertion loop of `main`: every row of the deduplicated frame is offered to
 the database one at a time; an exception on one row is caught, recorded with the
 row, and the loop moves on to the next row.

 A sink, given the rows committed so far and the next row, either accepts the row
 (the `INSERT` and `commit` succeed) or rejects it with a message (any exception
 raised inside the `try`). When the frame has every column the sink is the database,
 which may reject, e.g., a value MySQL cannot coerce into an `INT` column; when reading
 a column of the row itself raises, the pipeline passes a sink that rejects every row.
 */
module Loader {
  import opened Dedup

  /** The database's answer to one `INSERT` plus `commit`. */
  datatype Verdict = Accepted | Rejected(message: string)

  /** One entry of `insertion_errors`: `{"Record": row.to_dict(), "Error": str(e)}`. */
  datatype InsertionFailure<R> = InsertionFailure(record: R, error: string)

  /** The table after the loop and the error list it built. */
  datatype Outcome<R> = Outcome(table: seq<R>, failures: seq<InsertionFailure<R>>)

  /** A sink: the verdict on a row, given the rows committed before it. */
  type Sink<!R> = (seq<R>, R) -> Verdict

  /**
   Reference definition of the loop: offer `rows` in order to `sink`, starting from
   the committed rows `table`.
   */
  function Load<R>(table: seq<R>, rows: seq<R>, sink: Sink<R>): (o: Outcome<R>)
    ensures |o.table| == |table| + |rows| - |o.failures|
    ensures |table| <= |o.table| && o.table[..|table|] == table
    decreases |rows|
  {
    if rows == [] then Outcome(table, [])
    else
      match sink(table, rows[0])
      case Accepted => Load(table + [rows[0]], rows[1..], sink)
      case Rejected(message) =>
        var rest := Load(table, rows[1..], sink);
        Outcome(rest.table, [InsertionFailure(rows[0], message)] + rest.failures)
  }

  /** The verdict each row receives, in order. */
  function Verdicts<R>(table: seq<R>, rows: seq<R>, sink: Sink<R>): (vs: seq<Verdict>)
    ensures |vs| == |rows|
    decreases |rows|
  {
    if rows == [] then []
    else
      var v := sink(table, rows[0]);
      [v] + Verdicts(if v.Accepted? then table + [rows[0]] else table, rows[1..], sink)
  }

  /** The rows whose verdict is `Accepted`, in order. */
  function AcceptedRows<R>(rows: seq<R>, vs: seq<Verdict>): seq<R>
    requires |vs| == |rows|
  {
    if rows == [] then []
    else (if vs[0].Accepted? then [rows[0]] else []) + AcceptedRows(rows[1..], vs[1..])
  }

  /** The rows whose verdict is a rejection, each with its message, in order. */
  function RejectedRows<R>(rows: seq<R>, vs: seq<Verdict>): seq<InsertionFailure<R>>
    requires |vs| == |rows|
  {
    if rows == [] then []
    else
      (if vs[0].Rejected? then [InsertionFailure(rows[0], vs[0].message)] else [])
      + RejectedRows(rows[1..], vs[1..])
  }

  /**
   The loop partitions the rows: the table grows by exactly the accepted rows and the
   error list holds exactly the rejected ones, each in input order.
   */
  lemma {:induction false} LoadPartition<R>(table: seq<R>, rows: seq<R>, sink: Sink<R>)
    ensures var o, vs := Load(table, rows, sink), Verdicts(table, rows, sink);
      o.table == table + AcceptedRows(rows, vs) && o.failures == RejectedRows(rows, vs)
    decreases |rows|
  {
    if rows == [] {
      assert table + [] == table;
    } else if sink(table, rows[0]).Accepted? {
      AcceptedStep(table, rows, sink);
    } else {
      RejectedStep(table, rows, sink);
    }
  }

  lemma {:induction false} AcceptedStep<R>(table: seq<R>, rows: seq<R>, sink: Sink<R>)
    requires rows != [] && sink(table, rows[0]).Accepted?
    ensures var o, vs := Load(table, rows, sink), Verdicts(table, rows, sink);
      o.table == table + AcceptedRows(rows, vs) && o.failures == RejectedRows(rows, vs)
    decreases |rows|, 0
  {
    var next := table + [rows[0]];
    var vs := Verdicts(table, rows, sink);
    var tail := Verdicts(next, rows[1..], sink);
    assert vs == [Accepted] + tail;
    assert vs[1..] == tail;
    LoadPartition(next, rows[1..], sink);
    LoadStep(table, rows, sink);
    assert AcceptedRows(rows, vs) == [rows[0]] + AcceptedRows(rows[1..], tail);
    AppendAssoc(table, [rows[0]], AcceptedRows(rows[1..], tail));
  }

  lemma {:induction false} RejectedStep<R>(table: seq<R>, rows: seq<R>, sink: Sink<R>)
    requires rows != [] && sink(table, rows[0]).Rejected?
    ensures var o, vs := Load(table, rows, sink), Verdicts(table, rows, sink);
      o.table == table + AcceptedRows(rows, vs) && o.failures == RejectedRows(rows, vs)
    decreases |rows|, 0
  {
    var v := sink(table, rows[0]);
    var vs := Verdicts(table, rows, sink);
    var tail := Verdicts(table, rows[1..], sink);
    assert vs == [v] + tail;
    assert vs[1..] == tail;
    LoadPartition(table, rows[1..], sink);
    LoadStep(table, rows, sink);
    assert AcceptedRows(rows, vs) == [] + AcceptedRows(rows[1..], tail);
    assert [] + AcceptedRows(rows[1..], tail) == AcceptedRows(rows[1..], tail);
  }

  /** Every row is counted once: inserted plus failed equals the number of rows. */
  lemma {:induction false} PartitionCount<R>(rows: seq<R>, vs: seq<Verdict>)
    requires |vs| == |rows|
    ensures |AcceptedRows(rows, vs)| + |RejectedRows(rows, vs)| == |rows|
    decreases |rows|
  {
    if rows != [] {
      PartitionCount(rows[1..], vs[1..]);
    }
  }

  /** Row `i` lands in the table if accepted and in the error list, with its message, if rejected. */
  lemma {:induction false} RowFate<R>(rows: seq<R>, vs: seq<Verdict>, i: nat)
    requires |vs| == |rows| && i < |rows|
    ensures vs[i].Accepted? ==> rows[i] in AcceptedRows(rows, vs)
    ensures vs[i].Rejected? ==> InsertionFailure(rows[i], vs[i].message) in RejectedRows(rows, vs)
    decreases i
  {
    if i > 0 {
      RowFate(rows[1..], vs[1..], i - 1);
    }
  }

  /** The error list carries only rejected rows, with the message of their rejection. */
  lemma {:induction false} FailureIsRejection<R>(rows: seq<R>, vs: seq<Verdict>, f: InsertionFailure<R>)
    requires |vs| == |rows|
    requires f in RejectedRows(rows, vs)
    ensures exists i :: 0 <= i < |rows| && rows[i] == f.record && vs[i] == Rejected(f.error)
    decreases |rows|
  {
    if vs[0].Rejected? && f == InsertionFailure(rows[0], vs[0].message) {
      assert rows[0] == f.record && vs[0] == Rejected(f.error);
    } else {
      FailureIsRejection(rows[1..], vs[1..], f);
      var i :| 0 <= i < |rows[1..]| && rows[1..][i] == f.record && vs[1..][i] == Rejected(f.error);
      assert rows[i + 1] == f.record && vs[i + 1] == Rejected(f.error);
    }
  }

  /** The inserted rows are exactly the rows whose verdict is `Accepted`. */
  lemma {:induction false} AcceptedMembers<R>(rows: seq<R>, vs: seq<Verdict>, x: R)
    requires |vs| == |rows|
    ensures x in AcceptedRows(rows, vs) <==>
      exists j :: 0 <= j < |rows| && rows[j] == x && vs[j].Accepted?
    decreases |rows|
  {
    if rows != [] {
      AcceptedMembers(rows[1..], vs[1..], x);
      if x in AcceptedRows(rows[1..], vs[1..]) {
        var j :| 0 <= j < |rows[1..]| && rows[1..][j] == x && vs[1..][j].Accepted?;
        assert rows[j + 1] == x && vs[j + 1].Accepted?;
      }
      if exists j :: (0 <= j < |rows| && rows[j] == x && vs[j].Accepted?) {
        var j :| 0 <= j < |rows| && rows[j] == x && vs[j].Accepted?;
        if j > 0 {
          assert rows[1..][j - 1] == x && vs[1..][j - 1].Accepted?;
        }
      }
    }
  }

  /**
   In a frame without repeated rows every row ends up on exactly one side: in the
   table when accepted, in the error list when rejected, never both.
   */
  lemma {:induction false} NeverBoth<R>(rows: seq<R>, vs: seq<Verdict>, i: nat)
    requires |vs| == |rows| && i < |rows| && NoDuplicates(rows)
    ensures rows[i] in AcceptedRows(rows, vs) <==> vs[i].Accepted?
    ensures (exists f :: f in RejectedRows(rows, vs) && f.record == rows[i]) <==> vs[i].Rejected?
  {
    AcceptedMembers(rows, vs, rows[i]);
    RowFate(rows, vs, i);
    if rows[i] in AcceptedRows(rows, vs) {
      var j :| 0 <= j < |rows| && rows[j] == rows[i] && vs[j].Accepted?;
      SameRow(rows, i, j);
    }
    if exists f :: f in RejectedRows(rows, vs) && f.record == rows[i] {
      var f :| f in RejectedRows(rows, vs) && f.record == rows[i];
      FailureIsRejection(rows, vs, f);
      var j :| 0 <= j < |rows| && rows[j] == f.record && vs[j] == Rejected(f.error);
      SameRow(rows, i, j);
    }
    if vs[i].Rejected? {
      assert InsertionFailure(rows[i], vs[i].message) in RejectedRows(rows, vs);
    }
  }

  lemma {:induction false} SameRow<R>(rows: seq<R>, i: nat, j: nat)
    requires i < |rows| && j < |rows| && NoDuplicates(rows) && rows[i] == rows[j]
    ensures i == j
  {
  }

  /** A sink that ignores what is already committed and judges every row on its own. */
  function Independent<R>(judge: R -> Verdict): Sink<R> {
    (table: seq<R>, row: R) => judge(row)
  }

  /** A sink that rejects every row with the same message and never looks at the table. */
  function RejectEvery<R>(message: string): Sink<R> {
    (table: seq<R>, row: R) => Rejected(message)
  }

  /** When every row is rejected the table is left alone and every row fails, in order. */
  lemma {:induction false} RejectAll<R>(table: seq<R>, rows: seq<R>, message: string)
    ensures Load(table, rows, RejectEvery(message)).table == table
    ensures var failures := Load(table, rows, RejectEvery(message)).failures;
      |failures| == |rows| &&
      forall k :: 0 <= k < |rows| ==> failures[k] == InsertionFailure(rows[k], message)
    decreases |rows|
  {
    if rows != [] {
      RejectAll(table, rows[1..], message);
      var rest := Load(table, rows[1..], RejectEvery(message));
      var failures := Load(table, rows, RejectEvery(message)).failures;
      assert failures == [InsertionFailure(rows[0], message)] + rest.failures;
      forall k | 0 <= k < |rows|
        ensures failures[k] == InsertionFailure(rows[k], message)
      {
        if k > 0 {
          assert failures[k] == rest.failures[k - 1];
          assert rows[1..][k - 1] == rows[k];
        }
      }
    }
  }

  /** With an independent sink, a rejection has no effect on the verdicts of later rows. */
  lemma {:induction false} IndependentVerdicts<R>(table: seq<R>, rows: seq<R>, judge: R -> Verdict)
    ensures forall i :: 0 <= i < |rows| ==> Verdicts(table, rows, Independent(judge))[i] == judge(rows[i])
    decreases |rows|
  {
    if rows != [] {
      var sink := Independent(judge);
      var v := sink(table, rows[0]);
      var next := if v.Accepted? then table + [rows[0]] else table;
      IndependentVerdicts(next, rows[1..], judge);
      var vs := Verdicts(table, rows, sink);
      forall i | 0 <= i < |rows|
        ensures vs[i] == judge(rows[i])
      {
        if i > 0 {
          assert vs[i] == Verdicts(next, rows[1..], sink)[i - 1];
        }
      }
    }
  }

  /**
   Per-row isolation: when every row is judged on its own and rejects exactly the
   row at index `k`, the loop records exactly one failure, for that row, and inserts
   all the others in order.
   */
  lemma {:induction false} Isolation<R>(table: seq<R>, rows: seq<R>, judge: R -> Verdict, k: nat, message: string)
    requires k < |rows| && judge(rows[k]) == Rejected(message)
    requires forall i :: 0 <= i < |rows| && i != k ==> judge(rows[i]) == Accepted
    ensures Load(table, rows, Independent(judge))
      == Outcome(table + rows[..k] + rows[k + 1..], [InsertionFailure(rows[k], message)])
  {
    var sink := Independent(judge);
    var vs := Verdicts(table, rows, sink);
    IndependentVerdicts(table, rows, judge);
    assert vs[k] == Rejected(message);
    assert forall i :: 0 <= i < |rows| && i != k ==> vs[i] == Accepted;
    LoadPartition(table, rows, sink);
    OnlyOneRejected(rows, vs, k);
    AppendAssoc(table, rows[..k], rows[k + 1..]);
  }

  lemma {:induction false} AppendAssoc<R>(a: seq<R>, b: seq<R>, c: seq<R>)
    ensures a + (b + c) == a + b + c
  {
  }

  lemma {:induction false} OnlyOneRejected<R>(rows: seq<R>, vs: seq<Verdict>, k: nat)
    requires |vs| == |rows| && k < |rows| && vs[k].Rejected?
    requires forall i :: 0 <= i < |rows| && i != k ==> vs[i] == Accepted
    ensures AcceptedRows(rows, vs) == rows[..k] + rows[k + 1..]
    ensures RejectedRows(rows, vs) == [InsertionFailure(rows[k], vs[k].message)]
    decreases |rows|
  {
    var rows', vs' := rows[1..], vs[1..];
    if k == 0 {
      forall i | 0 <= i < |rows'|
        ensures vs'[i] == Accepted
      {
        assert vs'[i] == vs[i + 1];
      }
      AllAccepted(rows', vs');
      assert rows[..0] + rows[1..] == rows';
    } else {
      forall i | 0 <= i < |rows'| && i != k - 1
        ensures vs'[i] == Accepted
      {
        assert vs'[i] == vs[i + 1];
      }
      assert vs'[k - 1] == vs[k];
      OnlyOneRejected(rows', vs', k - 1);
      assert vs[0] == Accepted;
      assert rows'[..k - 1] == rows[1..k];
      assert rows'[k - 1 + 1..] == rows[k + 1..];
      assert [rows[0]] + rows[1..k] == rows[..k];
    }
  }

  lemma {:induction false} AllAccepted<R>(rows: seq<R>, vs: seq<Verdict>)
    requires |vs| == |rows|
    requires forall i :: 0 <= i < |rows| ==> vs[i] == Accepted
    ensures AcceptedRows(rows, vs) == rows && RejectedRows(rows, vs) == []
    decreases |rows|
  {
    if rows != [] {
      AllAccepted(rows[1..], vs[1..]);
    }
  }

  /**
   `for _, row in df.iterrows(): try: INSERT ...; conn.commit() except Exception as e:
   insertion_errors.append(...)`, starting from the rows already in the table.
   */
  method InsertRows<R>(table: seq<R>, rows: seq<R>, sink: Sink<R>)
    returns (committed: seq<R>, failures: seq<InsertionFailure<R>>)
    ensures Outcome(committed, failures) == Load(table, rows, sink)
    ensures |committed| - |table| + |failures| == |rows|
  {
    committed, failures := table, [];
    for i := 0 to |rows|
      invariant var rest := Load(committed, rows[i..], sink);
        Load(table, rows, sink) == Outcome(rest.table, failures + rest.failures)
    {
      LoadStep(committed, rows[i..], sink);
      assert rows[i..][0] == rows[i] && rows[i..][1..] == rows[i + 1..];
      match sink(committed, rows[i])
      case Accepted =>
        committed := committed + [rows[i]];
      case Rejected(message) =>
        failures := failures + [InsertionFailure(rows[i], message)];
    }
    assert rows[|rows|..] == [];
  }

  /** One step of the reference definition. */
  lemma {:induction false} LoadStep<R>(table: seq<R>, rows: seq<R>, sink: Sink<R>)
    requires rows != []
    ensures sink(table, rows[0]).Accepted? ==>
      Load(table, rows, sink) == Load(table + [rows[0]], rows[1..], sink)
    ensures sink(table, rows[0]).Rejected? ==>
      var rest := Load(table, rows[1..], sink);
      Load(table, rows, sink)
      == Outcome(rest.table, [InsertionFailure(rows[0], sink(table, rows[0]).message)] + rest.failures)
  {
  }
}
