/** The grouping/pivot engine `groupDataByColumn`: totals per bucket label
    and month, optionally restricted by a selection. Both copies of the
    source share the record fold below; they differ only when there is no
    selection. */
module Pivot {
  import opened Seqs
  import opened Records
  import opened Dataset

  /** `totals[label][month]`, with insertion order at both levels. */
  type Table = Rec<Rec<int>>

  predicate ValidTable(p: Table) {
    && Valid(p)
    && (forall l :: l in p.vals ==> Valid(p.vals[l]))
    && (forall l :: l in p.vals ==> |p.vals[l].keys| > 0)
  }

  /** The cell `[label][month]` exists. */
  predicate Has(p: Table, l: string, m: string) {
    l in p.vals && m in p.vals[l].vals
  }

  /** `totals[label]?.[month] ?? 0`. */
  function CellOf(p: Table, l: string, m: string): int {
    if Has(p, l, m) then p.vals[l].vals[m] else 0
  }

  function RowOf(p: Table, l: string): Rec<int> {
    if l in p.vals then p.vals[l] else Empty()
  }

  /** `setWith(totals, [l, m], (totals[l]?.[m] ?? 0) + v, Object)`. */
  function Bump(p: Table, l: string, m: string, v: int): Table {
    Put(p, l, Put(RowOf(p, l), m, CellOf(p, l, m) + v))
  }

  /** The selection test applied to record `i`: with a selection, the
      record's entry in the selection's field must be a string listed in
      `bucketValues` (an absent entry is `undefined`, not a string). */
  predicate PassesFilter(ds: Data, sel: Option<Selection>, i: nat) {
    match sel
    case None => true
    case Some(s) =>
      s.bucketName in ds &&
      match FieldAt(ds, s.bucketName, i)
      case Some(S(x)) => x in s.bucketValues
      case _ => false
  }

  /** Record `i` is added to the cell `[l][m]`. */
  predicate Contributes(ds: Data, sel: Option<Selection>, l: string, m: string, i: nat)
    requires WellFormed(ds) && i < Size(ds)
  {
    PassesFilter(ds, sel, i) && BucketAt(ds, i) == S(l) && MonthAt(ds, i) == m
  }

  /** Reference definition: the sum of `value` over the first `n` records
      that contribute to `[l][m]`. */
  function CellSum(ds: Data, sel: Option<Selection>, l: string, m: string, n: nat): int
    requires WellFormed(ds) && n <= Size(ds)
  {
    if n == 0 then 0
    else CellSum(ds, sel, l, m, n - 1) + (if Contributes(ds, sel, l, m, n - 1) then ValueAt(ds, n - 1) else 0)
  }

  predicate AnyContribution(ds: Data, sel: Option<Selection>, l: string, m: string, n: nat)
    requires WellFormed(ds) && n <= Size(ds)
  {
    exists i :: 0 <= i < n && Contributes(ds, sel, l, m, i)
  }

  /** The inner `bucketValues.forEach` for one record with bucket entry `b`,
      month `m` and value `v`: every listed label equal to `b` gets `v`. */
  function AddLabels(p: Table, labels: seq<string>, b: Cell, m: string, v: int): Table
    decreases |labels|
  {
    if |labels| == 0 then p
    else
      var p' := if b == S(labels[0]) then Bump(p, labels[0], m, v) else p;
      AddLabels(p', labels[1..], b, m, v)
  }

  /** The outer `data.month.forEach` over the first `n` records. */
  function Fold(ds: Data, labels: seq<string>, sel: Option<Selection>, n: nat): Table
    requires WellFormed(ds) && n <= Size(ds)
  {
    if n == 0 then Empty()
    else
      var p := Fold(ds, labels, sel, n - 1);
      if PassesFilter(ds, sel, n - 1)
      then AddLabels(p, labels, BucketAt(ds, n - 1), MonthAt(ds, n - 1), ValueAt(ds, n - 1))
      else p
  }

  /** The source reads `data[selection.bucketName][index]` at the first
      (record, label) pair; with no such column that read throws. */
  predicate Throws(ds: Data, labels: seq<string>, sel: Option<Selection>)
    requires WellFormed(ds)
  {
    sel.Some? && sel.value.bucketName !in ds && Size(ds) > 0 && |labels| > 0
  }

  /** `groupDataByColumn` of the application component: without a
      selection the filter step is skipped and every record counts. */
  function AppGroupDataByColumn(ds: Data, labels: seq<string>, sel: Option<Selection>): (r: Result<Table>)
    requires WellFormed(ds)
    ensures r.TypeError? <==> Throws(ds, labels, sel)
    ensures r.Ok? ==> ValidTable(r.value)
  {
    if Throws(ds, labels, sel) then TypeError
    else
      FoldInvariant(ds, labels, sel, Size(ds));
      Ok(Fold(ds, labels, sel, Size(ds)))
  }

  /** `groupDataByColumn` of the `Main` component: without a selection it
      returns an empty object; with one it agrees with the application's copy. */
  function MainGroupDataByColumn(ds: Data, labels: seq<string>, sel: Option<Selection>): (r: Result<Table>)
    requires WellFormed(ds)
    ensures sel.None? ==> r == Ok(Empty())
    ensures sel.Some? ==> r == AppGroupDataByColumn(ds, labels, sel)
  {
    if sel.None? then Ok(Empty())
    else if Throws(ds, labels, sel) then TypeError
    else Ok(Fold(ds, labels, sel, Size(ds)))
  }

  // ---------------------------------------------------------------------
  // Proofs about the fold

  lemma FoldStep(ds: Data, labels: seq<string>, sel: Option<Selection>, n: nat)
    requires WellFormed(ds) && 0 < n <= Size(ds)
    ensures Fold(ds, labels, sel, n) ==
      if PassesFilter(ds, sel, n - 1)
      then AddLabels(Fold(ds, labels, sel, n - 1), labels, BucketAt(ds, n - 1), MonthAt(ds, n - 1), ValueAt(ds, n - 1))
      else Fold(ds, labels, sel, n - 1)
  {
  }

  lemma BumpValid(p: Table, l: string, m: string, v: int)
    requires ValidTable(p)
    ensures ValidTable(Bump(p, l, m, v))
  {
    var old_row := RowOf(p, l);
    assert Valid(old_row);
    var row := Put(old_row, m, CellOf(p, l, m) + v);
    assert m in row.vals && m in row.keys;
    assert |row.keys| > 0;
  }

  lemma BumpCell(p: Table, l: string, m: string, v: int, l': string, m': string)
    ensures CellOf(Bump(p, l, m, v), l', m') == CellOf(p, l', m') + (if l' == l && m' == m then v else 0)
    ensures Has(Bump(p, l, m, v), l', m') <==> Has(p, l', m') || (l' == l && m' == m)
    ensures l' in Bump(p, l, m, v).vals <==> l' in p.vals || l' == l
  {
  }

  lemma {:induction false} AddLabelsValid(p: Table, labels: seq<string>, b: Cell, m: string, v: int)
    requires ValidTable(p)
    decreases |labels|
    ensures ValidTable(AddLabels(p, labels, b, m, v))
  {
    if |labels| > 0 {
      var p' := if b == S(labels[0]) then Bump(p, labels[0], m, v) else p;
      if b == S(labels[0]) {
        BumpValid(p, labels[0], m, v);
      }
      AddLabelsValid(p', labels[1..], b, m, v);
    }
  }

  /** One record adds its value to the cell `[b][m]` once per occurrence of
      `b` in `labels`, and to no other cell. */
  lemma Multiplicity(labels: seq<string>, l: string)
    requires |labels| > 0
    ensures multiset(labels)[l] == multiset(labels[1..])[l] + if labels[0] == l then 1 else 0
  {
    assert labels == [labels[0]] + labels[1..];
  }

  lemma MulDistrib(c: int, a: int, b: int)
    ensures c * (a + b) == c * a + c * b
  {
  }

  lemma MulSucc(k: int, v: int)
    ensures (k + 1) * v == k * v + v
  {
  }

  lemma {:induction false} AddLabelsCell(p: Table, labels: seq<string>, b: Cell, m: string, v: int, l: string, m': string)
    decreases |labels|
    ensures CellOf(AddLabels(p, labels, b, m, v), l, m') ==
      CellOf(p, l, m') + (if b == S(l) && m' == m then multiset(labels)[l] * v else 0)
  {
    if |labels| > 0 {
      var h, rest := labels[0], labels[1..];
      var p' := if b == S(h) then Bump(p, h, m, v) else p;
      assert AddLabels(p, labels, b, m, v) == AddLabels(p', rest, b, m, v);
      var hit := b == S(l) && m' == m;
      if b == S(h) {
        BumpCell(p, h, m, v, l, m');
      }
      assert CellOf(p', l, m') == CellOf(p, l, m') + (if hit && l == h then v else 0);
      AddLabelsCell(p', rest, b, m, v, l, m');
      Multiplicity(labels, l);
      if l == h {
        MulSucc(multiset(rest)[l], v);
      }
    }
  }

  /** The same record creates the cell `[b][m]` when `b` is listed, and no
      other cell or row. */
  lemma {:induction false} AddLabelsHas(p: Table, labels: seq<string>, b: Cell, m: string, v: int, l: string, m': string)
    decreases |labels|
    ensures Has(AddLabels(p, labels, b, m, v), l, m') <==>
      Has(p, l, m') || (b == S(l) && m' == m && l in labels)
  {
    if |labels| > 0 {
      var p' := if b == S(labels[0]) then Bump(p, labels[0], m, v) else p;
      if b == S(labels[0]) {
        BumpCell(p, labels[0], m, v, l, m');
      }
      AddLabelsHas(p', labels[1..], b, m, v, l, m');
      assert labels == [labels[0]] + labels[1..];
    }
  }

  lemma {:induction false} AddLabelsRows(p: Table, labels: seq<string>, b: Cell, m: string, v: int, l: string)
    decreases |labels|
    ensures l in AddLabels(p, labels, b, m, v).vals ==> l in p.vals || l in labels
  {
    if |labels| > 0 {
      var p' := if b == S(labels[0]) then Bump(p, labels[0], m, v) else p;
      if b == S(labels[0]) {
        BumpCell(p, labels[0], m, v, l, m);
      }
      AddLabelsRows(p', labels[1..], b, m, v, l);
      assert labels == [labels[0]] + labels[1..];
    }
  }

  /** Validity of the running totals, and that a record failing the filter
      leaves them unchanged. */
  lemma {:induction false} FoldInvariant(ds: Data, labels: seq<string>, sel: Option<Selection>, n: nat)
    requires WellFormed(ds) && n <= Size(ds)
    ensures ValidTable(Fold(ds, labels, sel, n))
  {
    if n > 0 {
      FoldInvariant(ds, labels, sel, n - 1);
      if PassesFilter(ds, sel, n - 1) {
        AddLabelsValid(Fold(ds, labels, sel, n - 1), labels, BucketAt(ds, n - 1), MonthAt(ds, n - 1), ValueAt(ds, n - 1));
      }
    }
  }

  lemma {:induction false} FoldCell(ds: Data, labels: seq<string>, sel: Option<Selection>, n: nat, l: string, m: string)
    requires WellFormed(ds) && n <= Size(ds)
    ensures CellOf(Fold(ds, labels, sel, n), l, m) == multiset(labels)[l] * CellSum(ds, sel, l, m, n)
  {
    if n > 0 {
      var i := n - 1;
      var c, s := multiset(labels)[l], CellSum(ds, sel, l, m, i);
      var d := if Contributes(ds, sel, l, m, i) then ValueAt(ds, i) else 0;
      FoldCell(ds, labels, sel, i, l, m);
      FoldStep(ds, labels, sel, n);
      assert CellSum(ds, sel, l, m, n) == s + d;
      if PassesFilter(ds, sel, i) {
        AddLabelsCell(Fold(ds, labels, sel, i), labels, BucketAt(ds, i), MonthAt(ds, i), ValueAt(ds, i), l, m);
        assert CellOf(Fold(ds, labels, sel, n), l, m) == c * s + c * d;
      } else {
        assert d == 0;
      }
      MulDistrib(c, s, d);
    }
  }

  lemma {:induction false} FoldHas(ds: Data, labels: seq<string>, sel: Option<Selection>, n: nat, l: string, m: string)
    requires WellFormed(ds) && n <= Size(ds)
    ensures Has(Fold(ds, labels, sel, n), l, m) <==> l in labels && AnyContribution(ds, sel, l, m, n)
  {
    if n > 0 {
      var i := n - 1;
      FoldHas(ds, labels, sel, i, l, m);
      if PassesFilter(ds, sel, i) {
        AddLabelsHas(Fold(ds, labels, sel, i), labels, BucketAt(ds, i), MonthAt(ds, i), ValueAt(ds, i), l, m);
      }
      if Contributes(ds, sel, l, m, i) {
        assert AnyContribution(ds, sel, l, m, n);
      } else {
        assert AnyContribution(ds, sel, l, m, n) <==> AnyContribution(ds, sel, l, m, i) by {
          if AnyContribution(ds, sel, l, m, n) {
            var j :| 0 <= j < n && Contributes(ds, sel, l, m, j);
            assert j < i;
          }
        }
      }
    }
  }

  lemma {:induction false} FoldRows(ds: Data, labels: seq<string>, sel: Option<Selection>, n: nat, l: string)
    requires WellFormed(ds) && n <= Size(ds)
    ensures l in Fold(ds, labels, sel, n).vals ==> l in labels
  {
    if n > 0 {
      var i := n - 1;
      FoldRows(ds, labels, sel, i, l);
      if PassesFilter(ds, sel, i) {
        AddLabelsRows(Fold(ds, labels, sel, i), labels, BucketAt(ds, i), MonthAt(ds, i), ValueAt(ds, i), l);
      }
    }
  }

  lemma InLabels(labels: seq<string>, l: string)
    requires |labels| > 0
    ensures l in labels <==> l == labels[0] || l in labels[1..]
  {
    assert labels == [labels[0]] + labels[1..];
  }

  /** Bumping label `k` replaces its row and leaves every other row alone. */
  lemma BumpRow(p: Table, k: string, l: string, m: string, v: int)
    ensures k == l ==> RowOf(Bump(p, k, m, v), l) == Put(RowOf(p, l), m, CellOf(p, l, m) + v)
    ensures k != l ==> RowOf(Bump(p, k, m, v), l) == RowOf(p, l) && CellOf(Bump(p, k, m, v), l, m) == CellOf(p, l, m)
  {
  }

  /** The months of the records, among the first `n`, that pass the filter
      and carry bucket `l`, in record order. */
  function ContribMonths(ds: Data, sel: Option<Selection>, l: string, n: nat): seq<string>
    requires WellFormed(ds) && n <= Size(ds)
  {
    if n == 0 then []
    else
      var hit := PassesFilter(ds, sel, n - 1) && BucketAt(ds, n - 1) == S(l);
      ContribMonths(ds, sel, l, n - 1) + if hit then [MonthAt(ds, n - 1)] else []
  }

  /** One record appends its month to row `l` when it carries that listed
      bucket and the month is new to the row; every other row, and row `l`
      otherwise, keeps its keys. */
  lemma {:induction false} AddLabelsRowKeys(p: Table, labels: seq<string>, b: Cell, m: string, v: int, l: string)
    decreases |labels|
    ensures var before, after := RowOf(p, l), RowOf(AddLabels(p, labels, b, m, v), l);
      if b == S(l) && l in labels
      then after.keys == Put(before, m, 0).keys && m in after.vals
      else after == before
  {
    if |labels| > 0 {
      var k := labels[0];
      var p' := if b == S(k) then Bump(p, k, m, v) else p;
      InLabels(labels, l);
      if b == S(k) {
        BumpRow(p, k, l, m, v);
      }
      AddLabelsRowKeys(p', labels[1..], b, m, v, l);
    }
  }

  /** Row `l` of the fold lists the months of the records that pass the
      filter and carry bucket `l`, once each and in order of first
      appearance; an unlisted label has no row. This is the order in which
      `Object.values` reads the row. */
  lemma {:induction false} FoldRowKeys(ds: Data, labels: seq<string>, sel: Option<Selection>, n: nat, l: string)
    requires WellFormed(ds) && n <= Size(ds)
    ensures RowOf(Fold(ds, labels, sel, n), l).keys ==
      if l in labels then Distinct(ContribMonths(ds, sel, l, n)) else []
  {
    if n > 0 {
      var i := n - 1;
      var q := Fold(ds, labels, sel, i);
      var e := ContribMonths(ds, sel, l, i);
      FoldRowKeys(ds, labels, sel, i, l);
      FoldInvariant(ds, labels, sel, i);
      FoldStep(ds, labels, sel, n);
      assert Valid(RowOf(q, l));
      if PassesFilter(ds, sel, i) && BucketAt(ds, i) == S(l) {
        var m := MonthAt(ds, i);
        assert ContribMonths(ds, sel, l, n) == e + [m];
        AddLabelsRowKeys(q, labels, BucketAt(ds, i), m, ValueAt(ds, i), l);
        if l in labels {
          PutKeepsDistinctOrder(RowOf(q, l), e, m, 0);
        }
      } else {
        assert ContribMonths(ds, sel, l, n) == e;
        if PassesFilter(ds, sel, i) {
          AddLabelsRowKeys(q, labels, BucketAt(ds, i), MonthAt(ds, i), ValueAt(ds, i), l);
        }
      }
    }
  }

  /** Every cell of the fold is the filtered sum (counted once per
      occurrence of its label in `labels`); a cell exists exactly when some
      record contributes to it, and only listed labels become keys. */
  lemma FoldCells(ds: Data, labels: seq<string>, sel: Option<Selection>, n: nat)
    requires WellFormed(ds) && n <= Size(ds)
    ensures var p := Fold(ds, labels, sel, n);
      && ValidTable(p)
      && (forall l, m :: CellOf(p, l, m) == multiset(labels)[l] * CellSum(ds, sel, l, m, n))
      && (forall l, m :: Has(p, l, m) <==> l in labels && AnyContribution(ds, sel, l, m, n))
      && (forall l :: l in p.vals ==> l in labels)
  {
    FoldInvariant(ds, labels, sel, n);
    var p := Fold(ds, labels, sel, n);
    forall l, m
      ensures CellOf(p, l, m) == multiset(labels)[l] * CellSum(ds, sel, l, m, n)
      ensures Has(p, l, m) <==> l in labels && AnyContribution(ds, sel, l, m, n)
    {
      FoldCell(ds, labels, sel, n, l, m);
      FoldHas(ds, labels, sel, n, l, m);
    }
    forall l {
      FoldRows(ds, labels, sel, n, l);
    }
  }

  /** The sums behind the cells of the application's pivot: each cell
      `[l][m]` is the sum of `value` over records that pass the selection
      (every record when there is none), have bucket `l` and month `m`. */
  lemma AppPivotCells(ds: Data, labels: seq<string>, sel: Option<Selection>)
    requires WellFormed(ds) && !Throws(ds, labels, sel)
    ensures var p := AppGroupDataByColumn(ds, labels, sel).value;
      && (forall l, m :: CellOf(p, l, m) == multiset(labels)[l] * CellSum(ds, sel, l, m, Size(ds)))
      && (forall l, m :: Has(p, l, m) <==> l in labels && AnyContribution(ds, sel, l, m, Size(ds)))
      && (forall l :: l in p.vals ==> l in labels)
  {
    FoldCells(ds, labels, sel, Size(ds));
  }

  /** The `Main` pivot under a selection: the same cell sums, keys only
      for listed labels and only for cells that received a contribution. */
  lemma MainPivotCells(ds: Data, labels: seq<string>, s: Selection)
    requires WellFormed(ds) && !Throws(ds, labels, Some(s))
    ensures var p := MainGroupDataByColumn(ds, labels, Some(s)).value;
      && (forall l, m :: CellOf(p, l, m) == multiset(labels)[l] * CellSum(ds, Some(s), l, m, Size(ds)))
      && (forall l, m :: Has(p, l, m) <==> l in labels && AnyContribution(ds, Some(s), l, m, Size(ds)))
      && (forall l :: l in p.vals ==> l in labels)
  {
    FoldCells(ds, labels, Some(s), Size(ds));
  }

  /** Each canonical label occurs once, so the canonical pivot's cells are
      plain filtered sums. */
  lemma CanonicalLabelsOnce(l: string)
    requires l in MrrLabels
    ensures multiset(MrrLabels)[l] == 1
  {
  }

  /** With no selection the `Main` pivot is empty for every dataset. */
  lemma MainNoSelectionEmpty(ds: Data, labels: seq<string>)
    requires WellFormed(ds)
    ensures var r := MainGroupDataByColumn(ds, labels, None);
      r.Ok? && r.value.keys == [] && forall l, m :: !Has(r.value, l, m) && CellOf(r.value, l, m) == 0
  {
  }

  lemma {:induction false} NothingPassesEmptyFold(ds: Data, labels: seq<string>, sel: Option<Selection>, n: nat)
    requires WellFormed(ds) && n <= Size(ds)
    requires forall i :: 0 <= i < n ==> !PassesFilter(ds, sel, i)
    ensures Fold(ds, labels, sel, n) == Empty()
  {
    if n > 0 {
      NothingPassesEmptyFold(ds, labels, sel, n - 1);
    }
  }

  /** A selection listing no values admits no record: the pivot is empty
      (or the read of a missing column throws). */
  lemma EmptyValuesEmptyPivot(ds: Data, labels: seq<string>, field: string)
    requires WellFormed(ds)
    ensures var r := MainGroupDataByColumn(ds, labels, Some(Selection(field, [])));
      r == if Throws(ds, labels, Some(Selection(field, []))) then TypeError else Ok(Empty())
    ensures var r := AppGroupDataByColumn(ds, labels, Some(Selection(field, [])));
      r == if Throws(ds, labels, Some(Selection(field, []))) then TypeError else Ok(Empty())
  {
    NothingPassesEmptyFold(ds, labels, Some(Selection(field, [])), Size(ds));
  }

  /** A record passing a selection also passes "no selection": the cells of
      a filtered application pivot are cells of the unfiltered one. */
  lemma FilteredCellsAmongUnfiltered(ds: Data, labels: seq<string>, s: Selection, l: string, m: string)
    requires WellFormed(ds) && !Throws(ds, labels, Some(s))
    requires Has(AppGroupDataByColumn(ds, labels, Some(s)).value, l, m)
    ensures Has(AppGroupDataByColumn(ds, labels, None).value, l, m)
  {
    AppPivotCells(ds, labels, Some(s));
    AppPivotCells(ds, labels, None);
    var j :| 0 <= j < Size(ds) && Contributes(ds, Some(s), l, m, j);
    assert Contributes(ds, None, l, m, j);
  }

  lemma {:induction false} FilteredSumBound(ds: Data, s: Selection, l: string, m: string, n: nat)
    requires WellFormed(ds) && n <= Size(ds)
    requires forall i :: 0 <= i < n ==> ValueAt(ds, i) >= 0
    ensures CellSum(ds, Some(s), l, m, n) <= CellSum(ds, None, l, m, n)
  {
    if n > 0 {
      FilteredSumBound(ds, s, l, m, n - 1);
    }
  }

  /** When no amount is negative, filtering never increases a cell of the
      application pivot. */
  lemma FilteredCellBound(ds: Data, labels: seq<string>, s: Selection, l: string, m: string)
    requires WellFormed(ds) && !Throws(ds, labels, Some(s))
    requires forall i :: 0 <= i < Size(ds) ==> ValueAt(ds, i) >= 0
    ensures CellOf(AppGroupDataByColumn(ds, labels, Some(s)).value, l, m)
         <= CellOf(AppGroupDataByColumn(ds, labels, None).value, l, m)
  {
    var n := Size(ds);
    assert !Throws(ds, labels, None);
    FoldCell(ds, labels, Some(s), n, l, m);
    FoldCell(ds, labels, None, n, l, m);
    FilteredSumBound(ds, s, l, m, n);
    MulMono(multiset(labels)[l], CellSum(ds, Some(s), l, m, n), CellSum(ds, None, l, m, n));
  }

  lemma MulMono(c: nat, a: int, b: int)
    requires a <= b
    ensures c * a <= c * b
  {
  }

  lemma {:induction false} AllPassSameFold(ds: Data, labels: seq<string>, s: Selection, n: nat)
    requires WellFormed(ds) && n <= Size(ds)
    requires forall i :: 0 <= i < n ==> PassesFilter(ds, Some(s), i)
    ensures Fold(ds, labels, Some(s), n) == Fold(ds, labels, None, n)
  {
    if n > 0 {
      AllPassSameFold(ds, labels, s, n - 1);
    }
  }

  /** A selection whose field holds only strings, all of them listed,
      filters nothing: the application pivot equals the unfiltered one. */
  lemma CoveringSelectionIsUnfiltered(ds: Data, labels: seq<string>, s: Selection)
    requires WellFormed(ds) && s.bucketName in ds
    requires forall i :: 0 <= i < |ds[s.bucketName]| ==>
      ds[s.bucketName][i].S? && ds[s.bucketName][i].s in s.bucketValues
    ensures AppGroupDataByColumn(ds, labels, Some(s)) == AppGroupDataByColumn(ds, labels, None)
  {
    AllPassSameFold(ds, labels, s, Size(ds));
  }

  // ---------------------------------------------------------------------
  // Record order

  /** The position record `j` moves to when records `i` and `i + 1` are
      exchanged. */
  function Swapped(i: nat, j: nat): nat {
    if j == i then i + 1 else if j == i + 1 then i else j
  }

  /** The dataset with records `i` and `i + 1` exchanged in every column.
      Any reordering of the records is a sequence of such exchanges. */
  function SwapRecords(ds: Data, i: nat): (ds': Data)
    requires WellFormed(ds) && i + 1 < Size(ds)
    ensures WellFormed(ds') && Size(ds') == Size(ds)
    ensures forall f :: f in ds' <==> f in ds
    ensures forall f, j :: f in ds && 0 <= j < Size(ds) ==> ds'[f][j] == ds[f][Swapped(i, j)]
  {
    map f | f in ds :: ds[f][i := ds[f][i + 1]][i + 1 := ds[f][i]]
  }

  /** Record `j` of the exchanged dataset is record `Swapped(i, j)` of the
      original, for the filter and for every cell. */
  lemma SwapContributes(ds: Data, sel: Option<Selection>, i: nat, j: nat, l: string, m: string)
    requires WellFormed(ds) && i + 1 < Size(ds) && j < Size(ds)
    ensures var ds' := SwapRecords(ds, i);
      && (Contributes(ds', sel, l, m, j) <==> Contributes(ds, sel, l, m, Swapped(i, j)))
      && ValueAt(ds', j) == ValueAt(ds, Swapped(i, j))
  {
    var ds' := SwapRecords(ds, i);
    var k := Swapped(i, j);
    assert BucketAt(ds', j) == BucketAt(ds, k);
    assert MonthAt(ds', j) == MonthAt(ds, k);
    if sel.Some? && sel.value.bucketName in ds {
      assert FieldAt(ds', sel.value.bucketName, j) == FieldAt(ds, sel.value.bucketName, k);
    }
  }

  /** Below the exchanged pair and from just above it on, the running sums
      of the two datasets agree. */
  lemma {:induction false} SwapCellSum(ds: Data, sel: Option<Selection>, i: nat, l: string, m: string, n: nat)
    requires WellFormed(ds) && i + 1 < Size(ds) && n <= Size(ds)
    requires n <= i || i + 2 <= n
    ensures CellSum(SwapRecords(ds, i), sel, l, m, n) == CellSum(ds, sel, l, m, n)
  {
    var ds' := SwapRecords(ds, i);
    if n > 0 {
      if n == i + 2 {
        if i > 0 {
          SwapCellSum(ds, sel, i, l, m, i);
        }
        SwapPair(ds, sel, i, l, m);
      } else {
        SwapCellSum(ds, sel, i, l, m, n - 1);
        SwapContributes(ds, sel, i, n - 1, l, m);
      }
    }
  }

  /** The exchanged pair adds the same two amounts, in the other order. */
  lemma SwapPair(ds: Data, sel: Option<Selection>, i: nat, l: string, m: string)
    requires WellFormed(ds) && i + 1 < Size(ds)
    ensures CellSum(SwapRecords(ds, i), sel, l, m, i + 2) - CellSum(SwapRecords(ds, i), sel, l, m, i) ==
            CellSum(ds, sel, l, m, i + 2) - CellSum(ds, sel, l, m, i)
  {
    var ds' := SwapRecords(ds, i);
    SwapContributes(ds, sel, i, i, l, m);
    SwapContributes(ds, sel, i, i + 1, l, m);
    var a := if Contributes(ds, sel, l, m, i) then ValueAt(ds, i) else 0;
    var b := if Contributes(ds, sel, l, m, i + 1) then ValueAt(ds, i + 1) else 0;
    assert CellSum(ds, sel, l, m, i + 2) == CellSum(ds, sel, l, m, i) + a + b;
    assert CellSum(ds', sel, l, m, i + 1) == CellSum(ds', sel, l, m, i) + b;
  }

  /** Some record contributes to a cell in one order exactly when some
      record does in the other. */
  lemma SwapAnyContribution(ds: Data, sel: Option<Selection>, i: nat, l: string, m: string)
    requires WellFormed(ds) && i + 1 < Size(ds)
    ensures AnyContribution(SwapRecords(ds, i), sel, l, m, Size(ds)) <==> AnyContribution(ds, sel, l, m, Size(ds))
  {
    var ds' := SwapRecords(ds, i);
    if AnyContribution(ds', sel, l, m, Size(ds)) {
      var j :| 0 <= j < Size(ds) && Contributes(ds', sel, l, m, j);
      SwapContributes(ds, sel, i, j, l, m);
    }
    if AnyContribution(ds, sel, l, m, Size(ds)) {
      var k :| 0 <= k < Size(ds) && Contributes(ds, sel, l, m, k);
      SwapContributes(ds, sel, i, Swapped(i, k), l, m);
      assert Swapped(i, Swapped(i, k)) == k;
    }
  }

  /** The pivot's totals do not depend on the order of the records: after
      exchanging two neighbouring records it throws exactly when it threw
      before, and every cell exists and holds the same total as before.
      Only the order of the keys may change. */
  lemma PivotIgnoresRecordOrder(ds: Data, labels: seq<string>, sel: Option<Selection>, i: nat, l: string, m: string)
    requires WellFormed(ds) && i + 1 < Size(ds)
    ensures var r, r' := AppGroupDataByColumn(ds, labels, sel), AppGroupDataByColumn(SwapRecords(ds, i), labels, sel);
      && (r'.TypeError? <==> r.TypeError?)
      && (r.Ok? ==> (Has(r'.value, l, m) <==> Has(r.value, l, m)) && CellOf(r'.value, l, m) == CellOf(r.value, l, m))
  {
    var ds' := SwapRecords(ds, i);
    if !Throws(ds, labels, sel) {
      AppPivotCells(ds, labels, sel);
      AppPivotCells(ds', labels, sel);
      SwapCellSum(ds, sel, i, l, m, Size(ds));
      SwapAnyContribution(ds, sel, i, l, m);
    }
  }
}
