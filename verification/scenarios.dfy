/** Small datasets evaluated end to end: a worked scenario with two plans
    over two months; records listed out of month order, where the baseline
    no longer lines up with the month axis; and a selection that leaves
    out the first month, where the selected series no longer lines up with
    it. Each dataset is described by the records it holds, and the lemmas
    hold for every dataset with those records. */
module Scenarios {
  import opened Seqs
  import opened Lex
  import opened Records
  import opened Dataset
  import opened Pivot
  import opened MonthAxis
  import opened Baseline
  import opened Breakdown
  import opened Presentation

  const Jan: string := "2024-01"
  const Feb: string := "2024-02"

  lemma JanBeforeFeb()
    ensures StrictlySorted([Jan, Feb])
  {
    var want := [Jan, Feb];
    LeAtFirstDifference(want[0], want[1], 6);
  }

  lemma JanIsNotFeb()
    ensures Jan != Feb
  {
    assert Jan[6] != Feb[6];
  }

  // ---------------------------------------------------------------------
  // Records out of month order

  /** Two Ending MRR records, February listed before January. */
  predicate OutOfOrderShape(ds: Data) {
    && WellFormed(ds) && Size(ds) == 2
    && MonthAt(ds, 0) == Feb && MonthAt(ds, 1) == Jan
    && BucketAt(ds, 0) == S(EndingMrr) && BucketAt(ds, 1) == S(EndingMrr)
    && ValueAt(ds, 0) == 120 && ValueAt(ds, 1) == 150
  }

  function OutOfOrder(): (ds: Data)
    ensures OutOfOrderShape(ds)
  {
    map[MonthField := [S(Feb), S(Jan)],
        BucketField := [S(EndingMrr), S(EndingMrr)],
        ValueField := [N(120), N(150)]]
  }

  lemma OutOfOrderMonth(ds: Data, m: string)
    requires OutOfOrderShape(ds)
    ensures m in Months(ds) <==> m == Jan || m == Feb
  {
    if m == Jan {
      assert MonthAt(ds, 1) == m;
    } else if m == Feb {
      assert MonthAt(ds, 0) == m;
    }
  }

  lemma OutOfOrderMonths(ds: Data)
    requires OutOfOrderShape(ds)
    ensures Months(ds) == [Jan, Feb]
  {
    var ms := Months(ds);
    var want := [Jan, Feb];
    JanBeforeFeb();
    forall m
      ensures m in ms <==> m in want
    {
      OutOfOrderMonth(ds, m);
    }
    StrictlySortedSameElements(ms, want);
  }

  lemma OutOfOrderFirst(ds: Data)
    requires OutOfOrderShape(ds)
    ensures BaselineFold(ds, 1) == Rec([Feb], map[Feb := 120])
  {
    BaselineStep(ds, 1);
  }

  lemma OutOfOrderFold(ds: Data)
    requires OutOfOrderShape(ds)
    ensures BaselineFold(ds, 2) == Rec([Feb, Jan], map[Feb := 120, Jan := 150])
  {
    var t := BaselineFold(ds, 1);
    OutOfOrderFirst(ds);
    JanIsNotFeb();
    assert BaselineFold(ds, 2) == Put(t, Jan, GetOr(t, Jan, 0) + 150);
    assert GetOr(t, Jan, 0) == 0;
    assert Put(t, Jan, 150) == Rec([Feb] + [Jan], map[Feb := 120][Jan := 150]);
  }

  /** The baseline keeps the months in record order while the axis sorts
      them: the point drawn at January carries February's total. */
  lemma BaselineOutOfOrder(ds: Data)
    requires OutOfOrderShape(ds)
    ensures Months(ds) == [Jan, Feb]
    ensures ToTotalsBaseline(ds) == [120, 150]
  {
    OutOfOrderMonths(ds);
    OutOfOrderFold(ds);
    assert BaselineFold(ds, Size(ds)) == Rec([Feb, Jan], map[Feb := 120, Jan := 150]);
  }

  // ---------------------------------------------------------------------
  // A selection that leaves out the first month

  /** `pro` Ending MRR in January, `basic` Ending MRR in February. */
  predicate SplitShape(ds: Data) {
    && WellFormed(ds) && Size(ds) == 2 && "plan" in ds
    && MonthAt(ds, 0) == Jan && MonthAt(ds, 1) == Feb
    && BucketAt(ds, 0) == S(EndingMrr) && BucketAt(ds, 1) == S(EndingMrr)
    && ValueAt(ds, 0) == 100 && ValueAt(ds, 1) == 80
    && ds["plan"] == [S("pro"), S("basic")]
  }

  function Split(): (ds: Data)
    ensures SplitShape(ds)
  {
    map[MonthField := [S(Jan), S(Feb)],
        BucketField := [S(EndingMrr), S(EndingMrr)],
        "plan" := [S("pro"), S("basic")],
        ValueField := [N(100), N(80)]]
  }

  const Basic: Option<Selection> := Some(Selection("plan", ["basic"]))

  lemma SplitMonth(ds: Data, m: string)
    requires SplitShape(ds)
    ensures m in Months(ds) <==> m == Jan || m == Feb
  {
    if m == Jan {
      assert MonthAt(ds, 0) == m;
    } else if m == Feb {
      assert MonthAt(ds, 1) == m;
    }
  }

  lemma SplitMonths(ds: Data)
    requires SplitShape(ds)
    ensures Months(ds) == [Jan, Feb]
  {
    var ms := Months(ds);
    var want := [Jan, Feb];
    JanBeforeFeb();
    forall m
      ensures m in ms <==> m in want
    {
      SplitMonth(ds, m);
    }
    StrictlySortedSameElements(ms, want);
  }

  /** Only the February record passes `{plan: [basic]}`. */
  lemma SplitBasic(ds: Data)
    requires SplitShape(ds)
    ensures Distinct(ContribMonths(ds, Basic, EndingMrr, 2)) == [Feb]
    ensures CellSum(ds, Basic, EndingMrr, Feb, 2) == 80
  {
    JanIsNotFeb();
    assert FieldAt(ds, "plan", 0) == Some(S("pro"));
    assert FieldAt(ds, "plan", 1) == Some(S("basic"));
    assert !PassesFilter(ds, Basic, 0) && PassesFilter(ds, Basic, 1);
    assert ContribMonths(ds, Basic, EndingMrr, 1) == [];
    assert ContribMonths(ds, Basic, EndingMrr, 2) == [Feb];
    DistinctOfNoDup([Feb]);
    assert CellSum(ds, Basic, EndingMrr, Feb, 1) == 0;
  }

  /** The Ending MRR row of the `{plan: [basic]}` pivot is `{Feb: 80}`. */
  lemma SplitRow(ds: Data)
    requires SplitShape(ds)
    ensures var r := AppGroupDataByColumn(ds, MrrLabels, Basic);
      && r.Ok?
      && EndingMrr in r.value.vals
      && Values(r.value.vals[EndingMrr]) == [80]
  {
    assert !Throws(ds, MrrLabels, Basic);
    var p := AppGroupDataByColumn(ds, MrrLabels, Basic).value;
    SplitHasEnding(ds, p);
    SplitBasic(ds);
    var ms := Distinct(ContribMonths(ds, Basic, EndingMrr, Size(ds)));
    assert ms == [Feb];
    EndingRowEntries(ds, Basic);
    var vs := Values(p.vals[EndingMrr]);
    assert |vs| == 1;
    assert vs[0] == CellSum(ds, Basic, EndingMrr, ms[0], Size(ds));
  }

  lemma SplitHasEnding(ds: Data, p: Table)
    requires SplitShape(ds) && !Throws(ds, MrrLabels, Basic)
    requires p == AppGroupDataByColumn(ds, MrrLabels, Basic).value
    ensures EndingMrr in p.vals
  {
    assert FieldAt(ds, "plan", 1) == Some(S("basic"));
    assert Contributes(ds, Basic, EndingMrr, Feb, 1);
    AppPivotCells(ds, MrrLabels, Basic);
    assert EndingMrr in MrrLabels;
    assert AnyContribution(ds, Basic, EndingMrr, Feb, Size(ds));
    assert Has(p, EndingMrr, Feb);
  }

  lemma SplitScreenOk(ds: Data, format: int -> string)
    requires SplitShape(ds)
    ensures MainScreen(ds, Basic, format).Ok?
  {
    assert !Throws(ds, MrrLabels, Basic);
    assert !SegmentsThrow(ds, Basic.value, LastMonth(Months(ds)));
  }

  /** Under `{plan: [basic]}` the axis is `[Jan, Feb]` but the selected
      series holds the single point `[80]`: the chart draws February's
      total at January. */
  lemma SelectedSeriesMisaligned(ds: Data, format: int -> string)
    requires SplitShape(ds)
    ensures var r := MainScreen(ds, Basic, format);
      && r.Ok?
      && r.value.charts.xAxisData == [Jan, Feb]
      && |r.value.charts.lines| == 2
      && r.value.charts.lines[1] == Series("Ending MRR - basic", [80])
  {
    var r := MainScreen(ds, Basic, format);
    var totals := AppGroupDataByColumn(ds, MrrLabels, Basic).value;
    SplitMonths(ds);
    SplitRow(ds);
    SplitScreenOk(ds, format);
    MainScreenShape(ds, Basic, format);
    assert |r.value.charts.lines| == 2;
    assert r.value.charts.lines[1] == Series(MainSeriesName(Basic), Values(totals.vals[EndingMrr]));
    BasicSeriesName();
  }

  lemma BasicSeriesName()
    ensures MainSeriesName(Basic) == "Ending MRR - basic"
  {
  }

  // ---------------------------------------------------------------------
  // The worked scenario

  /** `pro` and `basic` Ending MRR in January, `pro` in February. */
  predicate PlansShape(ds: Data) {
    && WellFormed(ds) && Size(ds) == 3 && "plan" in ds
    && MonthAt(ds, 0) == Jan && MonthAt(ds, 1) == Jan && MonthAt(ds, 2) == Feb
    && BucketAt(ds, 0) == S(EndingMrr) && BucketAt(ds, 1) == S(EndingMrr) && BucketAt(ds, 2) == S(EndingMrr)
    && ValueAt(ds, 0) == 100 && ValueAt(ds, 1) == 50 && ValueAt(ds, 2) == 120
    && ds["plan"] == [S("pro"), S("basic"), S("pro")]
  }

  function Plans(): (ds: Data)
    ensures PlansShape(ds)
  {
    map[MonthField := [S(Jan), S(Jan), S(Feb)],
        BucketField := [S(EndingMrr), S(EndingMrr), S(EndingMrr)],
        "plan" := [S("pro"), S("basic"), S("pro")],
        ValueField := [N(100), N(50), N(120)]]
  }

  lemma PlansMonth(ds: Data, m: string)
    requires PlansShape(ds)
    ensures m in Months(ds) <==> m == Jan || m == Feb
  {
    if m in Months(ds) {
      var i :| 0 <= i < Size(ds) && MonthAt(ds, i) == m;
      assert i == 0 || i == 1 || i == 2;
    }
    if m == Jan {
      assert MonthAt(ds, 0) == m;
    } else if m == Feb {
      assert MonthAt(ds, 2) == m;
    }
  }

  lemma PlansMonths(ds: Data)
    requires PlansShape(ds)
    ensures Months(ds) == [Jan, Feb]
  {
    var ms := Months(ds);
    var want := [Jan, Feb];
    JanBeforeFeb();
    forall m
      ensures m in ms <==> m in want
    {
      PlansMonth(ds, m);
    }
    StrictlySortedSameElements(ms, want);
  }

  lemma PlansFirst(ds: Data)
    requires PlansShape(ds)
    ensures BaselineFold(ds, 1) == Rec([Jan], map[Jan := 100])
  {
    BaselineStep(ds, 1);
  }

  lemma PlansSecond(ds: Data)
    requires PlansShape(ds)
    ensures BaselineFold(ds, 2) == Rec([Jan], map[Jan := 150])
  {
    PlansFirst(ds);
    BaselineStep(ds, 2);
  }

  lemma PlansFold(ds: Data)
    requires PlansShape(ds)
    ensures BaselineFold(ds, 3) == Rec([Jan, Feb], map[Jan := 150, Feb := 120])
  {
    var t := BaselineFold(ds, 2);
    PlansSecond(ds);
    JanIsNotFeb();
    assert BaselineFold(ds, 3) == Put(t, Feb, GetOr(t, Feb, 0) + 120);
    assert GetOr(t, Feb, 0) == 0;
    assert Put(t, Feb, 120) == Rec([Jan] + [Feb], map[Jan := 150][Feb := 120]);
  }

  lemma PlansBaseline(ds: Data)
    requires PlansShape(ds)
    ensures ToTotalsBaseline(ds) == [150, 120]
  {
    PlansFold(ds);
    assert BaselineFold(ds, Size(ds)) == Rec([Jan, Feb], map[Jan := 150, Feb := 120]);
  }

  lemma PlansJanuarySums(ds: Data)
    requires PlansShape(ds)
    ensures CellSum(ds, Some(Selection("plan", ["pro"])), EndingMrr, Jan, 3) == 100
    ensures CellSum(ds, None, EndingMrr, Jan, 3) == 150
  {
    JanIsNotFeb();
    var pro := Some(Selection("plan", ["pro"]));
    assert FieldAt(ds, "plan", 0) == Some(S("pro"));
    assert FieldAt(ds, "plan", 1) == Some(S("basic"));
    assert Contributes(ds, pro, EndingMrr, Jan, 0) && !Contributes(ds, pro, EndingMrr, Jan, 1);
    assert !Contributes(ds, pro, EndingMrr, Jan, 2);
    assert CellSum(ds, pro, EndingMrr, Jan, 1) == 100;
    assert CellSum(ds, pro, EndingMrr, Jan, 2) == 100;
    assert Contributes(ds, None, EndingMrr, Jan, 0) && Contributes(ds, None, EndingMrr, Jan, 1);
    assert !Contributes(ds, None, EndingMrr, Jan, 2);
    assert CellSum(ds, None, EndingMrr, Jan, 1) == 100;
    assert CellSum(ds, None, EndingMrr, Jan, 2) == 150;
  }

  /** January's Ending MRR cell is 100 for `pro` alone and 150 without a
      selection. */
  lemma PlansPivot(ds: Data)
    requires PlansShape(ds)
    ensures var pro := AppGroupDataByColumn(ds, MrrLabels, Some(Selection("plan", ["pro"])));
      pro.Ok? && CellOf(pro.value, EndingMrr, Jan) == 100
    ensures var all := AppGroupDataByColumn(ds, MrrLabels, None);
      all.Ok? && CellOf(all.value, EndingMrr, Jan) == 150
  {
    CanonicalLabelsOnce(EndingMrr);
    AppPivotCells(ds, MrrLabels, Some(Selection("plan", ["pro"])));
    AppPivotCells(ds, MrrLabels, None);
    PlansJanuarySums(ds);
  }

  lemma PlansFebruarySums(ds: Data)
    requires PlansShape(ds)
    ensures SegmentSum(ds, "plan", Some(Feb), "pro", 3) == 120
    ensures SegmentSum(ds, "plan", Some(Feb), "basic", 3) == 0
  {
    JanIsNotFeb();
    var pro := Some(Selection("plan", ["pro"]));
    var basic := Some(Selection("plan", ["basic"]));
    assert FieldAt(ds, "plan", 2) == Some(S("pro"));
    assert !Contributes(ds, pro, EndingMrr, Feb, 0) && !Contributes(ds, pro, EndingMrr, Feb, 1);
    assert Contributes(ds, pro, EndingMrr, Feb, 2);
    assert CellSum(ds, pro, EndingMrr, Feb, 1) == 0;
    assert CellSum(ds, pro, EndingMrr, Feb, 2) == 0;
    assert !Contributes(ds, basic, EndingMrr, Feb, 0) && !Contributes(ds, basic, EndingMrr, Feb, 1);
    assert !Contributes(ds, basic, EndingMrr, Feb, 2);
    assert CellSum(ds, basic, EndingMrr, Feb, 1) == 0;
    assert CellSum(ds, basic, EndingMrr, Feb, 2) == 0;
  }

  lemma PlansBreakdownEntries(ds: Data)
    requires PlansShape(ds)
    ensures GetLastMonthMrrSegments(Months(ds), Selection("plan", ["pro", "basic"]), ds) ==
            Ok(Segments("plan", [SegmentSum(ds, "plan", Some(Feb), "pro", 3), SegmentSum(ds, "plan", Some(Feb), "basic", 3)]))
  {
    var s := Selection("plan", ["pro", "basic"]);
    var ms := Months(ds);
    PlansLastMonth(ds);
    assert !SegmentsThrow(ds, s, LastMonth(ms));
    assert NoDup(s.bucketValues) by {
      assert s.bucketValues[0][0] != s.bucketValues[1][0];
    }
    SegmentsAligned(ms, s, ds);
    var r := GetLastMonthMrrSegments(ms, s, ds);
    var want := [SegmentSum(ds, "plan", Some(Feb), "pro", 3), SegmentSum(ds, "plan", Some(Feb), "basic", 3)];
    assert r.value.data[0] == want[0] && r.value.data[1] == want[1];
    assert r.value.data == want;
  }

  lemma PlansLastMonth(ds: Data)
    requires PlansShape(ds)
    ensures LastMonth(Months(ds)) == Some(Feb)
  {
    PlansMonths(ds);
  }

  /** The February breakdown over `pro` and `basic` is `[120, 0]`, named
      after the field. */
  lemma PlansBreakdown(ds: Data)
    requires PlansShape(ds)
    ensures GetLastMonthMrrSegments(Months(ds), Selection("plan", ["pro", "basic"]), ds) ==
            Ok(Segments("plan", [120, 0]))
  {
    PlansBreakdownEntries(ds);
    PlansFebruarySums(ds);
  }
}
