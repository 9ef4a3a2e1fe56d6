/** `toTotalsBaseline` of the `Main` component: the company-wide Ending MRR
    per month, computed over every record whatever the selection. */
module Baseline {
  import opened Seqs
  import opened Lex
  import opened Records
  import opened Dataset
  import opened Pivot
  import opened MonthAxis

  /** The `totals` object after the first `n` records. */
  function BaselineFold(ds: Data, n: nat): Rec<int>
    requires WellFormed(ds) && n <= Size(ds)
  {
    if n == 0 then Empty()
    else
      var t := BaselineFold(ds, n - 1);
      if BucketAt(ds, n - 1) == S(EndingMrr)
      then Put(t, MonthAt(ds, n - 1), GetOr(t, MonthAt(ds, n - 1), 0) + ValueAt(ds, n - 1))
      else t
  }

  /** `Object.values(totals)` (rounding to two decimals is the identity on
      the exact amounts modelled here). */
  function ToTotalsBaseline(ds: Data): (r: seq<int>)
    requires WellFormed(ds)
  {
    BaselineFoldValid(ds, Size(ds));
    Values(BaselineFold(ds, Size(ds)))
  }

  /** The months of the Ending MRR records among the first `n`, in record order. */
  function EndingMonths(ds: Data, n: nat): seq<string>
    requires WellFormed(ds) && n <= Size(ds)
  {
    if n == 0 then []
    else EndingMonths(ds, n - 1) + (if BucketAt(ds, n - 1) == S(EndingMrr) then [MonthAt(ds, n - 1)] else [])
  }

  lemma BaselineStep(ds: Data, n: nat)
    requires WellFormed(ds) && 0 < n <= Size(ds)
    ensures var t := BaselineFold(ds, n - 1);
      var m := MonthAt(ds, n - 1);
      && (BucketAt(ds, n - 1) == S(EndingMrr) ==>
            && BaselineFold(ds, n) == Put(t, m, GetOr(t, m, 0) + ValueAt(ds, n - 1))
            && EndingMonths(ds, n) == EndingMonths(ds, n - 1) + [m])
      && (BucketAt(ds, n - 1) != S(EndingMrr) ==>
            && BaselineFold(ds, n) == t
            && EndingMonths(ds, n) == EndingMonths(ds, n - 1))
  {
  }

  lemma {:induction false} BaselineFoldValid(ds: Data, n: nat)
    requires WellFormed(ds) && n <= Size(ds)
    ensures Valid(BaselineFold(ds, n))
    ensures BaselineFold(ds, n).keys == Distinct(EndingMonths(ds, n))
  {
    if n > 0 {
      BaselineFoldValid(ds, n - 1);
      BaselineStep(ds, n);
      var t := BaselineFold(ds, n - 1);
      if BucketAt(ds, n - 1) == S(EndingMrr) {
        var m := MonthAt(ds, n - 1);
        PutKeepsDistinctOrder(t, EndingMonths(ds, n - 1), m, GetOr(t, m, 0) + ValueAt(ds, n - 1));
      }
    }
  }

  /** Only the Ending MRR row of a table changes when a record of another
      bucket is added, and a record of that bucket adds its value to the
      row once when the label is listed once. */
  lemma {:induction false} AddLabelsRowOf(p: Table, labels: seq<string>, b: Cell, m: string, v: int, l: string)
    requires multiset(labels)[l] <= 1
    decreases |labels|
    ensures RowOf(AddLabels(p, labels, b, m, v), l) ==
      if b == S(l) && l in labels then Put(RowOf(p, l), m, CellOf(p, l, m) + v) else RowOf(p, l)
  {
    if |labels| > 0 {
      var k, rest := labels[0], labels[1..];
      var p' := if b == S(k) then Bump(p, k, m, v) else p;
      var before := RowOf(p, l);
      var bumped := Put(before, m, CellOf(p, l, m) + v);
      Multiplicity(labels, l);
      AddLabelsRowOf(p', rest, b, m, v, l);
      InLabels(labels, l);
      if k == l && b == S(l) {
        BumpRow(p, k, l, m, v);
        assert multiset(rest)[l] == 0;
        assert RowOf(p', l) == bumped;
      } else {
        if b == S(k) {
          BumpRow(p, k, l, m, v);
        }
        assert RowOf(p', l) == before && CellOf(p', l, m) == CellOf(p, l, m);
      }
    }
  }

  /** The baseline accumulator is the Ending MRR row of the unfiltered
      canonical pivot, key order included. */
  lemma {:induction false} BaselineFoldIsEndingRow(ds: Data, n: nat)
    requires WellFormed(ds) && n <= Size(ds)
    ensures BaselineFold(ds, n) == RowOf(Fold(ds, MrrLabels, None, n), EndingMrr)
  {
    if n > 0 {
      BaselineFoldIsEndingRow(ds, n - 1);
      BaselineEndingRowStep(ds, n);
    }
  }

  /** One record adds to the baseline what it adds to the Ending MRR row. */
  lemma BaselineEndingRowStep(ds: Data, n: nat)
    requires WellFormed(ds) && 0 < n <= Size(ds)
    requires BaselineFold(ds, n - 1) == RowOf(Fold(ds, MrrLabels, None, n - 1), EndingMrr)
    ensures BaselineFold(ds, n) == RowOf(Fold(ds, MrrLabels, None, n), EndingMrr)
  {
    var t := BaselineFold(ds, n - 1);
    var q := Fold(ds, MrrLabels, None, n - 1);
    var b, m, v := BucketAt(ds, n - 1), MonthAt(ds, n - 1), ValueAt(ds, n - 1);
    assert BaselineFold(ds, n) == if b == S(EndingMrr) then Put(t, m, GetOr(t, m, 0) + v) else t;
    FoldStep(ds, MrrLabels, None, n);
    EndingRowAdd(t, q, b, m, v);
  }

  /** The baseline's update for one record, stated on the tables alone. */
  lemma EndingRowAdd(t: Rec<int>, q: Table, b: Cell, m: string, v: int)
    requires t == RowOf(q, EndingMrr)
    ensures RowOf(AddLabels(q, MrrLabels, b, m, v), EndingMrr) ==
      if b == S(EndingMrr) then Put(t, m, GetOr(t, m, 0) + v) else t
  {
    CanonicalLabelsOnce(EndingMrr);
    LabelRowAdd(t, q, MrrLabels, b, m, v, EndingMrr);
  }

  /** The same update for any label listed once. */
  lemma LabelRowAdd(t: Rec<int>, q: Table, labels: seq<string>, b: Cell, m: string, v: int, l: string)
    requires multiset(labels)[l] == 1 && t == RowOf(q, l)
    ensures RowOf(AddLabels(q, labels, b, m, v), l) ==
      if b == S(l) then Put(t, m, GetOr(t, m, 0) + v) else t
  {
    assert l in labels;
    AddLabelsRowOf(q, labels, b, m, v, l);
    assert GetOr(t, m, 0) == CellOf(q, l, m);
  }

  /** The accumulated total of a month is that month's Ending MRR sum
      over all records, and a month has a total exactly when it holds an
      Ending MRR record. */
  lemma BaselineFoldEntry(ds: Data, m: string)
    requires WellFormed(ds)
    ensures var t := BaselineFold(ds, Size(ds));
      && (m in t.vals <==> exists i :: 0 <= i < Size(ds) && BucketAt(ds, i) == S(EndingMrr) && MonthAt(ds, i) == m)
      && (m in t.vals ==> t.vals[m] == CellSum(ds, None, EndingMrr, m, Size(ds)))
  {
    var n := Size(ds);
    BaselineFoldIsEndingRow(ds, n);
    FoldCell(ds, MrrLabels, None, n, EndingMrr, m);
    FoldHas(ds, MrrLabels, None, n, EndingMrr, m);
    CanonicalLabelsOnce(EndingMrr);
    if exists i :: 0 <= i < n && BucketAt(ds, i) == S(EndingMrr) && MonthAt(ds, i) == m {
      var i :| 0 <= i < n && BucketAt(ds, i) == S(EndingMrr) && MonthAt(ds, i) == m;
      assert Contributes(ds, None, EndingMrr, m, i);
    }
  }

  /** The baseline has one entry per month holding an Ending MRR record, in
      order of first appearance, and each entry is that month's Ending MRR
      total over all records. */
  lemma BaselineEntries(ds: Data)
    requires WellFormed(ds)
    ensures var r := ToTotalsBaseline(ds);
      var order := Distinct(EndingMonths(ds, Size(ds)));
      && |r| == |order|
      && (forall k :: 0 <= k < |r| ==> r[k] == CellSum(ds, None, EndingMrr, order[k], Size(ds)))
      && (forall m :: m in order <==>
            exists i :: 0 <= i < Size(ds) && BucketAt(ds, i) == S(EndingMrr) && MonthAt(ds, i) == m)
  {
    var n := Size(ds);
    BaselineFoldValid(ds, n);
    var t := BaselineFold(ds, n);
    forall m
      ensures m in t.vals <==> exists i :: 0 <= i < n && BucketAt(ds, i) == S(EndingMrr) && MonthAt(ds, i) == m
      ensures m in t.vals ==> t.vals[m] == CellSum(ds, None, EndingMrr, m, n)
    {
      BaselineFoldEntry(ds, m);
    }
  }

  /** Without a selection, the application's Ending MRR series and the
      `Main` baseline are the same list. */
  lemma BaselineIsUnfilteredEndingRow(ds: Data)
    requires WellFormed(ds)
    ensures var p := AppGroupDataByColumn(ds, MrrLabels, None).value;
      ToTotalsBaseline(ds) == Values(RowOf(p, EndingMrr))
  {
    BaselineFoldIsEndingRow(ds, Size(ds));
    FoldInvariant(ds, MrrLabels, None, Size(ds));
  }

  /** With the records in month order, the Ending MRR months are in order
      too, and each is the month of an earlier record. */
  lemma {:induction false} EndingMonthsSorted(ds: Data, n: nat)
    requires WellFormed(ds) && n <= Size(ds) && Sorted(MonthColumn(ds))
    ensures Sorted(EndingMonths(ds, n))
    ensures forall x :: x in EndingMonths(ds, n) ==> exists i :: 0 <= i < n && MonthAt(ds, i) == x
  {
    if n > 0 {
      EndingMonthsSorted(ds, n - 1);
      var e := EndingMonths(ds, n - 1);
      var m := MonthAt(ds, n - 1);
      if BucketAt(ds, n - 1) == S(EndingMrr) {
        forall x | x in e
          ensures Le(x, m)
        {
          var i :| 0 <= i < n - 1 && MonthAt(ds, i) == x;
          assert MonthColumn(ds)[i] == x && MonthColumn(ds)[n - 1] == m;
        }
        var e' := e + [m];
        forall i, j | 0 <= i < j < |e'|
          ensures Le(e'[i], e'[j])
        {
          if j == |e| {
            assert e'[i] in e;
          }
        }
      }
    }
  }

  /** When the records come in month order and every month has an Ending
      MRR record, the baseline lines up with the month axis: its `k`-th
      entry is the Ending MRR total of the `k`-th month. */
  lemma BaselineFollowsMonthAxis(ds: Data)
    requires WellFormed(ds) && Sorted(MonthColumn(ds))
    requires forall i :: 0 <= i < Size(ds) ==>
      exists j :: 0 <= j < Size(ds) && BucketAt(ds, j) == S(EndingMrr) && MonthAt(ds, j) == MonthAt(ds, i)
    ensures var r := ToTotalsBaseline(ds);
      var ms := Months(ds);
      && |r| == |ms|
      && forall k :: 0 <= k < |r| ==> r[k] == CellSum(ds, None, EndingMrr, ms[k], Size(ds))
  {
    var e := EndingMonths(ds, Size(ds));
    EndingMonthsSorted(ds, Size(ds));
    DistinctOfSorted(e);
    BaselineEntries(ds);
    StrictlySortedSameElements(Distinct(e), Months(ds));
  }
}
