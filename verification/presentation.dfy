/** Presentation adapters of both components: grid rows, line-chart series,
    and the guard that decides whether the breakdown bar chart is shown.
    Number formatting (`toLocaleString`, `toFixed(2)`) is a parameter or the
    identity on the exact amounts modelled here. */
module Presentation {
  import opened Seqs
  import opened Records
  import opened Dataset
  import opened Pivot
  import opened MonthAxis
  import opened Baseline
  import opened Breakdown

  // ---------------------------------------------------------------------
  // Grid

  /** A grid row: the `bucket` column and one text cell per month. */
  datatype GridRow = GridRow(bucket: string, cells: seq<string>)

  /** `String(totals[label]?.[month]?.toLocaleString(...) ?? 0)`. */
  function GridCell(p: Table, l: string, m: string, format: int -> string): string {
    if Has(p, l, m) then format(CellOf(p, l, m)) else "0"
  }

  /** `mrrLabels.map(...)`: one row per canonical label, in canonical order,
      whatever order the dataset lists its buckets in. */
  function GridRows(p: Table, months: seq<string>, format: int -> string): (rows: seq<GridRow>)
    ensures |rows| == |MrrLabels|
    ensures forall i :: 0 <= i < |rows| ==> rows[i].bucket == MrrLabels[i] && |rows[i].cells| == |months|
  {
    seq(|MrrLabels|, i requires 0 <= i < |MrrLabels| =>
      GridRow(MrrLabels[i], seq(|months|, j requires 0 <= j < |months| => GridCell(p, MrrLabels[i], months[j], format))))
  }

  /** Grid of the application pivot: each cell shows the formatted total
      of its records when some record of that bucket and month passes the
      selection, and `"0"` when none does. */
  lemma AppGridCells(ds: Data, sel: Option<Selection>, format: int -> string, i: nat, j: nat)
    requires WellFormed(ds) && !Throws(ds, MrrLabels, sel)
    requires i < |MrrLabels| && j < |Months(ds)|
    ensures var rows := GridRows(AppGroupDataByColumn(ds, MrrLabels, sel).value, Months(ds), format);
      var l := MrrLabels[i];
      var m := Months(ds)[j];
      rows[i].cells[j] ==
        if AnyContribution(ds, sel, l, m, Size(ds)) then format(CellSum(ds, sel, l, m, Size(ds))) else "0"
  {
    var l := MrrLabels[i];
    var m := Months(ds)[j];
    FoldCell(ds, MrrLabels, sel, Size(ds), l, m);
    FoldHas(ds, MrrLabels, sel, Size(ds), l, m);
    CanonicalLabelsOnce(l);
  }

  /** Without a selection the `Main` grid shows `"0"` in every cell. */
  lemma MainGridWithoutSelection(ds: Data, format: int -> string)
    requires WellFormed(ds)
    ensures var rows := GridRows(MainGroupDataByColumn(ds, MrrLabels, None).value, Months(ds), format);
      forall i, j :: 0 <= i < |rows| && 0 <= j < |rows[i].cells| ==> rows[i].cells[j] == "0"
  {
  }

  // ---------------------------------------------------------------------
  // Line series

  datatype Series = Series(name: string, data: seq<int>)

  /** `Object.entries(totals).filter(([name]) => name === '6. Ending MRR')`
      mapped to series named `name`, whose data are the row's values in
      the order their months were first added. */
  function EndingSeries(p: Table, name: string): (r: seq<Series>)
    requires ValidTable(p)
  {
    var ks := Keep(p.keys, k => k == EndingMrr);
    KeepSpec(p.keys, k => k == EndingMrr);
    seq(|ks|, i requires 0 <= i < |ks| =>
      assert ks[i] in multiset(ks);
      Series(name, Values(p.vals[ks[i]])))
  }

  /** At most one series comes out of the filter: exactly one, carrying the
      Ending MRR row, when the table has that row, and none otherwise. */
  lemma EndingSeriesShape(p: Table, name: string)
    requires ValidTable(p)
    ensures var r := EndingSeries(p, name);
      && |r| <= 1
      && (|r| == 1 <==> EndingMrr in p.vals)
      && (|r| == 1 ==> r[0] == Series(name, Values(p.vals[EndingMrr])))
  {
    var ks := Keep(p.keys, k => k == EndingMrr);
    KeepSpec(p.keys, k => k == EndingMrr);
    NoDupMultiplicity(p.keys, EndingMrr);
    assert forall x :: x != EndingMrr ==> multiset(ks)[x] == 0;
    if EndingMrr in p.vals {
      assert multiset(ks)[EndingMrr] == 1;
      assert multiset(ks) == multiset{EndingMrr};
      assert |ks| == 1;
      assert ks[0] in multiset(ks);
    } else {
      assert multiset(ks)[EndingMrr] == 0;
      assert multiset(ks) == multiset{};
    }
  }

  /** The Ending MRR row of a pivot, read by `Object.values`, holds one
      entry per month in which some record passing the filter has Ending
      MRR, in order of first appearance, each that month's filtered total.
      It follows the month axis only when those months first appear in
      ascending order and every axis month has such a record. */
  lemma EndingRowEntries(ds: Data, sel: Option<Selection>)
    requires WellFormed(ds)
    ensures var r := AppGroupDataByColumn(ds, MrrLabels, sel);
      r.Ok? && EndingMrr in r.value.vals ==>
        var ms := Distinct(ContribMonths(ds, sel, EndingMrr, Size(ds)));
        var vs := Values(r.value.vals[EndingMrr]);
        && |vs| == |ms|
        && forall k :: 0 <= k < |vs| ==> vs[k] == CellSum(ds, sel, EndingMrr, ms[k], Size(ds))
  {
    var r := AppGroupDataByColumn(ds, MrrLabels, sel);
    if r.Ok? && EndingMrr in r.value.vals {
      var row := RowOf(Fold(ds, MrrLabels, sel, Size(ds)), EndingMrr);
      assert r.value.vals[EndingMrr] == row;
      EndingRow(ds, sel);
    }
  }

  /** The Ending MRR row of the canonical fold, key by key. */
  lemma EndingRow(ds: Data, sel: Option<Selection>)
    requires WellFormed(ds)
    ensures var row := RowOf(Fold(ds, MrrLabels, sel, Size(ds)), EndingMrr);
      && row.keys == Distinct(ContribMonths(ds, sel, EndingMrr, Size(ds)))
      && forall m :: m in row.vals ==> row.vals[m] == CellSum(ds, sel, EndingMrr, m, Size(ds))
  {
    var p := Fold(ds, MrrLabels, sel, Size(ds));
    var row := RowOf(p, EndingMrr);
    assert EndingMrr in MrrLabels;
    FoldRowKeys(ds, MrrLabels, sel, Size(ds), EndingMrr);
    CanonicalLabelsOnce(EndingMrr);
    forall m | m in row.vals
      ensures row.vals[m] == CellSum(ds, sel, EndingMrr, m, Size(ds))
    {
      assert Has(p, EndingMrr, m);
      FoldCell(ds, MrrLabels, sel, Size(ds), EndingMrr, m);
    }
  }

  /** `selection?.bucketValues?.join(', ')` inside a template string. */
  function Join(xs: seq<string>, sep: string): string {
    if |xs| == 0 then ""
    else if |xs| == 1 then xs[0]
    else xs[0] + sep + Join(xs[1..], sep)
  }

  function MainSeriesName(sel: Option<Selection>): string {
    "Ending MRR - " + match sel
      case None => "undefined"
      case Some(s) => Join(s.bucketValues, ", ")
  }

  /** The `Main` line chart: the baseline first, then the Ending MRR row of
      the selected pivot when it exists. */
  function MainLineSeries(baseline: seq<int>, p: Table, sel: Option<Selection>): (r: seq<Series>)
    requires ValidTable(p)
  {
    [Series("Ending MRR", baseline)] + EndingSeries(p, MainSeriesName(sel))
  }

  /** The application's line chart: only the Ending MRR row of its pivot. */
  function AppLineSeries(p: Table): (r: seq<Series>)
    requires ValidTable(p)
  {
    EndingSeries(p, EndingMrr)
  }

  // ---------------------------------------------------------------------
  // Charts

  /** `yAxisData` and `xAxisDataSeries` of the horizontal bar chart. */
  datatype Bar = Bar(yAxisData: seq<string>, series: Segments)

  datatype ChartsView = ChartsView(xAxisData: seq<string>, lines: seq<Series>, bar: Option<Bar>)

  /** `selection?.bucketValues?.length` is truthy. */
  predicate ShowBreakdown(sel: Option<Selection>) {
    sel.Some? && |sel.value.bucketValues| > 0
  }

  /** The bar chart, when shown: categories are the selected values and
      data the last-month breakdown. */
  function BarFor(sel: Option<Selection>, months: seq<string>, ds: Data): Result<Option<Bar>>
    requires WellFormed(ds)
  {
    if !ShowBreakdown(sel) then Ok(None)
    else match GetLastMonthMrrSegments(months, sel.value, ds)
      case TypeError => TypeError
      case Ok(seg) => Ok(Some(Bar(sel.value.bucketValues, seg)))
  }

  /** `Charts` of the `Main` component, given the prepared line series. */
  function MainCharts(sel: Option<Selection>, lines: seq<Series>, months: seq<string>, ds: Data): Result<ChartsView>
    requires WellFormed(ds)
  {
    match BarFor(sel, months, ds)
    case TypeError => TypeError
    case Ok(bar) => Ok(ChartsView(months, lines, bar))
  }

  /** `Charts` of the application: both branches build the same line
      series from the pivot. */
  function AppCharts(sel: Option<Selection>, totals: Table, months: seq<string>, ds: Data): Result<ChartsView>
    requires WellFormed(ds) && ValidTable(totals)
  {
    if !ShowBreakdown(sel) then Ok(ChartsView(months, AppLineSeries(totals), None))
    else match BarFor(sel, months, ds)
      case TypeError => TypeError
      case Ok(bar) => Ok(ChartsView(months, AppLineSeries(totals), bar))
  }

  /** What one render of a component computes: the chart view and the grid. */
  datatype Screen = Screen(charts: ChartsView, grid: seq<GridRow>)

  /** One render of `Main` for a dataset and a selection. */
  function MainScreen(ds: Data, sel: Option<Selection>, format: int -> string): Result<Screen>
    requires WellFormed(ds)
  {
    var months := Months(ds);
    match MainGroupDataByColumn(ds, MrrLabels, sel)
    case TypeError => TypeError
    case Ok(totals) =>
      match MainCharts(sel, MainLineSeries(ToTotalsBaseline(ds), totals, sel), months, ds)
      case TypeError => TypeError
      case Ok(view) => Ok(Screen(view, GridRows(totals, months, format)))
  }

  /** One render of the application for its dataset and a selection. */
  function AppScreen(ds: Data, sel: Option<Selection>, format: int -> string): Result<Screen>
    requires WellFormed(ds)
  {
    var months := Months(ds);
    match AppGroupDataByColumn(ds, MrrLabels, sel)
    case TypeError => TypeError
    case Ok(totals) =>
      match AppCharts(sel, totals, months, ds)
      case TypeError => TypeError
      case Ok(view) => Ok(Screen(view, GridRows(totals, months, format)))
  }

  /** `Main` renders the baseline as its first series; it adds at most one
      selected series, none without a selection, and otherwise exactly the
      Ending MRR row of the selected pivot when that row exists. The bar
      chart is present exactly when values are selected, with those values
      as its categories and the last-month breakdown as its data. */
  lemma MainScreenShape(ds: Data, sel: Option<Selection>, format: int -> string)
    requires WellFormed(ds)
    ensures var r := MainScreen(ds, sel, format);
      r.Ok? ==>
        && 1 <= |r.value.charts.lines| <= 2
        && r.value.charts.lines[0] == Series("Ending MRR", ToTotalsBaseline(ds))
        && (sel.None? ==> |r.value.charts.lines| == 1)
        && r.value.charts.xAxisData == Months(ds)
        && (r.value.charts.bar.Some? <==> ShowBreakdown(sel))
        && (r.value.charts.bar.Some? ==> r.value.charts.bar.value.yAxisData == sel.value.bucketValues)
    ensures var r := MainScreen(ds, sel, format);
      r.Ok? && sel.Some? ==>
        var totals := AppGroupDataByColumn(ds, MrrLabels, sel).value;
        && (|r.value.charts.lines| == 2 <==> EndingMrr in totals.vals)
        && (|r.value.charts.lines| == 2 ==>
              r.value.charts.lines[1] == Series(MainSeriesName(sel), Values(totals.vals[EndingMrr])))
    ensures var r := MainScreen(ds, sel, format);
      r.Ok? && r.value.charts.bar.Some? ==>
        && GetLastMonthMrrSegments(Months(ds), sel.value, ds).Ok?
        && r.value.charts.bar.value.series == GetLastMonthMrrSegments(Months(ds), sel.value, ds).value
  {
    match MainGroupDataByColumn(ds, MrrLabels, sel)
    case TypeError =>
    case Ok(totals) =>
      EndingSeriesShape(totals, MainSeriesName(sel));
  }

  /** The application's line series are the Ending MRR row of its pivot in
      both branches of `Charts`; without a selection that row is the
      baseline of `Main`. The bar chart, shown exactly when values are
      selected, carries the last-month breakdown. */
  lemma AppScreenShape(ds: Data, sel: Option<Selection>, format: int -> string)
    requires WellFormed(ds)
    ensures var r := AppScreen(ds, sel, format);
      r.Ok? ==>
        && |r.value.charts.lines| <= 1
        && r.value.charts.lines == AppLineSeries(AppGroupDataByColumn(ds, MrrLabels, sel).value)
        && (sel.None? && |r.value.charts.lines| == 1 ==>
              r.value.charts.lines[0] == Series(EndingMrr, ToTotalsBaseline(ds)))
        && (r.value.charts.bar.Some? <==> ShowBreakdown(sel))
        && (r.value.charts.bar.Some? ==> r.value.charts.bar.value.yAxisData == sel.value.bucketValues)
    ensures var r := AppScreen(ds, sel, format);
      r.Ok? && r.value.charts.bar.Some? ==>
        && GetLastMonthMrrSegments(Months(ds), sel.value, ds).Ok?
        && r.value.charts.bar.value.series == GetLastMonthMrrSegments(Months(ds), sel.value, ds).value
  {
    match AppGroupDataByColumn(ds, MrrLabels, sel)
    case TypeError =>
    case Ok(totals) =>
      EndingSeriesShape(totals, EndingMrr);
      if sel.None? {
        BaselineIsUnfilteredEndingRow(ds);
      }
  }
}
