/**
 Duplicate removal on the data frame built from the parsed records: pandas'
 `df.duplicated()` and `df.drop_duplicates()` with their default `keep="first"`.
 A frame is a sequence of rows compared structurally, so the model is generic
 in the row type.
 */
module Dedup {

  /** No row occurs twice. */
  predicate NoDuplicates<X(==)>(rows: seq<X>) {
    forall i, j :: 0 <= i < j < |rows| ==> rows[i] != rows[j]
  }

  /** `df.duplicated()`: row `i` is flagged when an equal row comes before it. */
  function Duplicated<X(==)>(rows: seq<X>): (mask: seq<bool>)
    ensures |mask| == |rows|
    ensures forall i :: 0 <= i < |rows| ==> (mask[i] <==> rows[i] in rows[..i])
  {
    if rows == [] then []
    else
      var n := |rows| - 1;
      var init := Duplicated(rows[..n]);
      assert forall i :: 0 <= i < n ==> rows[..n][i] == rows[i] && rows[..n][..i] == rows[..i];
      init + [rows[n] in rows[..n]]
  }

  /** The number of `True` entries of a mask: `len(df[df.duplicated()])`. */
  function CountTrue(mask: seq<bool>): (n: nat)
    ensures n <= |mask|
    ensures n == 0 <==> forall j :: 0 <= j < |mask| ==> !mask[j]
  {
    if mask == [] then 0
    else CountTrue(mask[..|mask| - 1]) + (if mask[|mask| - 1] then 1 else 0)
  }

  /** The rows whose mask entry is `False`, in order: `df[~mask]`. */
  function Unflagged<X>(rows: seq<X>, mask: seq<bool>): (kept: seq<X>)
    requires |mask| == |rows|
    ensures |kept| + CountTrue(mask) == |rows|
  {
    if rows == [] then []
    else
      var n := |rows| - 1;
      Unflagged(rows[..n], mask[..n]) + (if mask[n] then [] else [rows[n]])
  }

  /** `df.drop_duplicates()`: the first occurrence of every distinct row, in order. */
  function DropDuplicates<X(==)>(rows: seq<X>): (kept: seq<X>)
    ensures NoDuplicates(kept)
    ensures forall i :: 0 <= i < |kept| ==> kept[i] in rows
    ensures forall i :: 0 <= i < |rows| ==> rows[i] in kept
    ensures |kept| <= |rows|
  {
    if rows == [] then []
    else
      var n := |rows| - 1;
      var init := DropDuplicates(rows[..n]);
      assert forall i :: 0 <= i < n ==> rows[i] == rows[..n][i];
      if rows[n] in rows[..n] then init else init + [rows[n]]
  }

  /**
   `df.drop_duplicates()` is `df[~df.duplicated()]`: it keeps exactly the rows the
   duplicate mask leaves unflagged, in their original order.
   */
  lemma {:induction false} DropIsUnflagged<X>(rows: seq<X>)
    ensures DropDuplicates(rows) == Unflagged(rows, Duplicated(rows))
    decreases |rows|
  {
    if rows != [] {
      var n := |rows| - 1;
      var mask := Duplicated(rows);
      assert mask[..n] == Duplicated(rows[..n]);
      DropIsUnflagged(rows[..n]);
    }
  }

  /** The duplicate count `main` logs is the number of rows `drop_duplicates` removes. */
  lemma {:induction false} DuplicateCount<X>(rows: seq<X>)
    ensures CountTrue(Duplicated(rows)) == |rows| - |DropDuplicates(rows)|
  {
    DropIsUnflagged(rows);
  }

  /** A frame without repeated rows is left as it is. */
  lemma {:induction false} DropDistinct<X>(rows: seq<X>)
    requires NoDuplicates(rows)
    ensures DropDuplicates(rows) == rows
    decreases |rows|
  {
    if rows != [] {
      var n := |rows| - 1;
      assert rows[n] !in rows[..n] by {
        forall i | 0 <= i < n
          ensures rows[..n][i] != rows[n]
        {
          assert rows[..n][i] == rows[i];
        }
      }
      DropDistinct(rows[..n]);
      assert rows == rows[..n] + [rows[n]];
    }
  }

  /** `drop_duplicates()` is idempotent. */
  lemma {:induction false} DropIdempotent<X>(rows: seq<X>)
    ensures DropDuplicates(DropDuplicates(rows)) == DropDuplicates(rows)
  {
    DropDistinct(DropDuplicates(rows));
  }

  /** The mask flags nothing exactly when no row repeats. */
  lemma {:induction false} NothingFlagged<X>(rows: seq<X>)
    ensures CountTrue(Duplicated(rows)) == 0 <==> NoDuplicates(rows)
  {
    DuplicateCount(rows);
    if NoDuplicates(rows) {
      DropDistinct(rows);
    }
    if CountTrue(Duplicated(rows)) == 0 {
      var mask := Duplicated(rows);
      ZeroCountAllFalse(mask);
      forall i, j | 0 <= i < j < |rows|
        ensures rows[i] != rows[j]
      {
        assert !mask[j];
        assert rows[..j][i] == rows[i];
      }
    }
  }

  /** A mask with no `True` entry counted has none at all. */
  lemma {:induction false} ZeroCountAllFalse(mask: seq<bool>)
    requires CountTrue(mask) == 0
    ensures forall j :: 0 <= j < |mask| ==> !mask[j]
    decreases |mask|
  {
    if mask != [] {
      var init := mask[..|mask| - 1];
      ZeroCountAllFalse(init);
      assert forall j :: 0 <= j < |init| ==> init[j] == mask[j];
    }
  }

  /**
   Lines 95-96: `if len(df[df.duplicated()]) != 0: df = df.drop_duplicates()`.
   */
  function Deduplicate<X(==)>(rows: seq<X>): (frame: seq<X>)
    ensures frame == DropDuplicates(rows)
  {
    NothingFlagged(rows);
    if CountTrue(Duplicated(rows)) != 0 then DropDuplicates(rows)
    else
      DropDistinct(rows);
      rows
  }

  /** Equal rows, such as the empty dictionaries of failed lines, collapse into one. */
  lemma {:induction false} AtMostOnce<X>(rows: seq<X>, x: X)
    ensures multiset(DropDuplicates(rows))[x] == (if x in rows then 1 else 0)
  {
    var kept := DropDuplicates(rows);
    MultiplicityDistinct(kept, x);
  }

  lemma {:induction false} MultiplicityDistinct<X>(rows: seq<X>, x: X)
    requires NoDuplicates(rows)
    ensures multiset(rows)[x] == (if x in rows then 1 else 0)
    decreases |rows|
  {
    if rows != [] {
      var n := |rows| - 1;
      var init := rows[..n];
      assert rows == init + [rows[n]];
      assert NoDuplicates(init) by {
        forall i, j | 0 <= i < j < |init|
          ensures init[i] != init[j]
        {
          assert init[i] == rows[i] && init[j] == rows[j];
        }
      }
      assert rows[n] !in init by {
        forall i | 0 <= i < n
          ensures init[i] != rows[n]
        {
          assert init[i] == rows[i];
        }
      }
      MultiplicityDistinct(init, x);
    }
  }
}
