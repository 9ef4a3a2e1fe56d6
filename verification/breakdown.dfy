/** `getLastMonthMrrSegments`: the Ending MRR of the last month on the
    month axis, broken down by the selection's field. The `Main` component
    passes its dataset; the application reads the module's dataset, which
    is the same computation on that dataset. */
module Breakdown {
  import opened Seqs
  import opened Lex
  import opened Records
  import opened Dataset
  import opened Pivot
  import opened MonthAxis

  /** `{ name, data }` handed to the horizontal bar chart. */
  datatype Segments = Segments(name: string, data: seq<int>)

  /** Record `i` passes the first two guards: its month is the last month
      and its bucket is Ending MRR. */
  predicate LastEnding(ds: Data, last: Option<string>, i: nat)
    requires WellFormed(ds) && i < Size(ds)
  {
    last == Some(MonthAt(ds, i)) && BucketAt(ds, i) == S(EndingMrr)
  }

  /** The value a record passing both guards adds to, when its entry in the
      selection's field is one of the selected strings. */
  function Target(ds: Data, s: Selection, i: nat): Option<string>
    requires s.bucketName in ds
  {
    match FieldAt(ds, s.bucketName, i)
    case Some(S(x)) => if x in s.bucketValues then Some(x) else None
    case _ => None
  }

  /** Reading the selection's field of a guarded record throws when the
      dataset has no such column. */
  predicate SegmentsThrow(ds: Data, s: Selection, last: Option<string>)
    requires WellFormed(ds)
  {
    s.bucketName !in ds && exists i :: 0 <= i < Size(ds) && LastEnding(ds, last, i)
  }

  /** The `totals` object after the first `n` records: one entry per
      selected value, starting at 0. */
  function SegmentFold(ds: Data, s: Selection, last: Option<string>, n: nat): Rec<int>
    requires WellFormed(ds) && n <= Size(ds)
  {
    if n == 0 then FromEntries(s.bucketValues, 0)
    else
      var t := SegmentFold(ds, s, last, n - 1);
      var i := n - 1;
      if LastEnding(ds, last, i) && s.bucketName in ds && Target(ds, s, i).Some?
      then
        var x := Target(ds, s, i).value;
        Put(t, x, GetOr(t, x, 0) + ValueAt(ds, i))
      else t
  }

  function GetLastMonthMrrSegments(months: seq<string>, s: Selection, ds: Data): (r: Result<Segments>)
    requires WellFormed(ds)
    ensures r.TypeError? <==> SegmentsThrow(ds, s, LastMonth(months))
    ensures r.Ok? ==> r.value.name == s.bucketName
    ensures r.Ok? ==>
      var vs := Distinct(s.bucketValues);
      && |r.value.data| == |vs|
      && forall k :: 0 <= k < |vs| ==>
           r.value.data[k] == SegmentSum(ds, s.bucketName, LastMonth(months), vs[k], Size(ds))
  {
    var last := LastMonth(months);
    if SegmentsThrow(ds, s, last) then TypeError
    else
      SegmentFoldEntries(ds, s, last, Size(ds));
      Ok(Segments(s.bucketName, Values(SegmentFold(ds, s, last, Size(ds)))))
  }

  /** Reference definition of one entry: the Ending MRR pivot cell of the
      last month under the one-value selection `{field: [v]}`. */
  function SegmentSum(ds: Data, field: string, last: Option<string>, v: string, n: nat): int
    requires WellFormed(ds) && n <= Size(ds)
  {
    match last
    case None => 0
    case Some(m) => CellSum(ds, Some(Selection(field, [v])), EndingMrr, m, n)
  }

  lemma SegmentStep(ds: Data, s: Selection, last: Option<string>, n: nat)
    requires WellFormed(ds) && 0 < n <= Size(ds)
    ensures var t := SegmentFold(ds, s, last, n - 1);
      var i := n - 1;
      SegmentFold(ds, s, last, n) ==
        if LastEnding(ds, last, i) && s.bucketName in ds && Target(ds, s, i).Some?
        then Put(t, Target(ds, s, i).value, GetOr(t, Target(ds, s, i).value, 0) + ValueAt(ds, i))
        else t
  {
  }

  /** Record `i` is added to the entry of `v` exactly when it contributes
      to that one-value pivot cell. */
  lemma TargetIsContribution(ds: Data, s: Selection, last: Option<string>, v: string, i: nat)
    requires WellFormed(ds) && i < Size(ds) && last.Some? && v in s.bucketValues
    ensures (LastEnding(ds, last, i) && s.bucketName in ds && Target(ds, s, i) == Some(v)) <==>
      Contributes(ds, Some(Selection(s.bucketName, [v])), EndingMrr, last.value, i)
  {
  }

  lemma {:induction false} SegmentFoldEntries(ds: Data, s: Selection, last: Option<string>, n: nat)
    requires WellFormed(ds) && n <= Size(ds)
    ensures var t := SegmentFold(ds, s, last, n);
      && Valid(t)
      && t.keys == Distinct(s.bucketValues)
      && (forall v :: v in t.vals ==> t.vals[v] == SegmentSum(ds, s.bucketName, last, v, n))
  {
    if n > 0 {
      var i := n - 1;
      SegmentFoldEntries(ds, s, last, i);
      SegmentStep(ds, s, last, n);
      var t := SegmentFold(ds, s, last, i);
      var t' := SegmentFold(ds, s, last, n);
      assert t'.vals.Keys == t.vals.Keys && t'.keys == t.keys;
      forall v | v in t'.vals
        ensures t'.vals[v] == SegmentSum(ds, s.bucketName, last, v, n)
      {
        SegmentEntryStep(ds, s, last, n, v);
      }
    }
  }

  /** One record changes the entry of `v` by what it adds to the
      one-value pivot cell of `v`. */
  lemma SegmentEntryStep(ds: Data, s: Selection, last: Option<string>, n: nat, v: string)
    requires WellFormed(ds) && 0 < n <= Size(ds)
    requires var t := SegmentFold(ds, s, last, n - 1);
      && v in t.vals && v in s.bucketValues
      && t.vals[v] == SegmentSum(ds, s.bucketName, last, v, n - 1)
    ensures var t' := SegmentFold(ds, s, last, n);
      v in t'.vals && t'.vals[v] == SegmentSum(ds, s.bucketName, last, v, n)
  {
    SegmentStep(ds, s, last, n);
    if last.Some? {
      TargetIsContribution(ds, s, last, v, n - 1);
    }
  }

  /** For a selection without repeated values (every selection the widgets
      build) the entries line up with `bucketValues`, which the bar chart
      uses as its category axis; no values, no entries. */
  lemma SegmentsAligned(months: seq<string>, s: Selection, ds: Data)
    requires WellFormed(ds) && NoDup(s.bucketValues)
    ensures var r := GetLastMonthMrrSegments(months, s, ds);
      r.Ok? ==>
        && |r.value.data| == |s.bucketValues|
        && (s.bucketValues == [] ==> r.value.data == [])
        && forall k :: 0 <= k < |s.bucketValues| ==>
             r.value.data[k] == SegmentSum(ds, s.bucketName, LastMonth(months), s.bucketValues[k], Size(ds))
  {
    DistinctOfNoDup(s.bucketValues);
  }

  lemma {:induction false} NoMatchSumsZero(ds: Data, field: string, m: string, v: string, n: nat)
    requires WellFormed(ds) && n <= Size(ds)
    requires forall i :: 0 <= i < n ==> !Contributes(ds, Some(Selection(field, [v])), EndingMrr, m, i)
    ensures CellSum(ds, Some(Selection(field, [v])), EndingMrr, m, n) == 0
  {
    if n > 0 {
      NoMatchSumsZero(ds, field, m, v, n - 1);
    }
  }

  /** A selected value that no Ending MRR record of the last month holds
      keeps its initial zero. */
  lemma UnmatchedValueIsZero(months: seq<string>, s: Selection, ds: Data, k: nat)
    requires WellFormed(ds)
    requires k < |Distinct(s.bucketValues)|
    requires GetLastMonthMrrSegments(months, s, ds).Ok?
    requires s.bucketName !in ds ||
      (forall i :: 0 <= i < Size(ds) && LastEnding(ds, LastMonth(months), i) ==>
         FieldAt(ds, s.bucketName, i) != Some(S(Distinct(s.bucketValues)[k])))
    ensures var r := GetLastMonthMrrSegments(months, s, ds).value;
      k < |r.data| && r.data[k] == 0
  {
    var last := LastMonth(months);
    if last.Some? {
      var v := Distinct(s.bucketValues)[k];
      assert v in s.bucketValues;
      forall i | 0 <= i < Size(ds)
        ensures !Contributes(ds, Some(Selection(s.bucketName, [v])), EndingMrr, last.value, i)
      {
        if s.bucketName in ds {
          TargetIsContribution(ds, s, last, v, i);
        }
      }
      NoMatchSumsZero(ds, s.bucketName, last.value, v, Size(ds));
    }
  }

  /** On the application's month axis the breakdown reads the greatest
      month of the dataset, not the month of the last record. */
  lemma AppSegmentsUseGreatestMonth(s: Selection, ds: Data, k: nat)
    requires WellFormed(ds) && Size(ds) > 0
    requires k < |Distinct(s.bucketValues)|
    requires GetLastMonthMrrSegments(Months(ds), s, ds).Ok?
    ensures var r := GetLastMonthMrrSegments(Months(ds), s, ds).value;
      var last := LastMonth(Months(ds)).value;
      && (forall i :: 0 <= i < Size(ds) ==> Le(MonthAt(ds, i), last))
      && k < |r.data|
      && r.data[k] == CellSum(ds, Some(Selection(s.bucketName, [Distinct(s.bucketValues)[k]])), EndingMrr, last, Size(ds))
  {
    LastMonthIsMaximum(ds);
  }
}
