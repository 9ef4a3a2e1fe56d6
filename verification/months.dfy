/** The month axis shared by the charts, the grid and the breakdown:
    `Array.from(new Set(data.month)).sort()` and its last entry. */
module MonthAxis {
  import opened Seqs
  import opened Lex
  import opened Dataset

  /** The distinct months of the dataset, sorted ascending. */
  function Months(ds: Data): (ms: seq<string>)
    requires WellFormed(ds)
    ensures StrictlySorted(ms)
    ensures forall m :: m in ms <==> exists i :: 0 <= i < Size(ds) && MonthAt(ds, i) == m
  {
    var col := MonthColumn(ds);
    var ms := DistinctSorted(col);
    assert forall m :: m in col <==> exists i :: 0 <= i < Size(ds) && MonthAt(ds, i) == m by {
      forall m | m in col
        ensures exists i :: 0 <= i < Size(ds) && MonthAt(ds, i) == m
      {
        var i :| 0 <= i < |col| && col[i] == m;
        assert MonthAt(ds, i) == m;
      }
    }
    ms
  }

  /** `months[months.length - 1]`; `None` stands for `undefined`. */
  function LastMonth(ms: seq<string>): Option<string> {
    if |ms| == 0 then None else Some(ms[|ms| - 1])
  }

  /** The last entry of the month axis is the lexicographically greatest
      month of the dataset (not the month of the last record), and it is
      absent only for an empty dataset. */
  lemma LastMonthIsMaximum(ds: Data)
    requires WellFormed(ds)
    ensures LastMonth(Months(ds)).None? <==> Size(ds) == 0
    ensures LastMonth(Months(ds)).Some? ==>
      && (exists i :: 0 <= i < Size(ds) && MonthAt(ds, i) == LastMonth(Months(ds)).value)
      && (forall i :: 0 <= i < Size(ds) ==> Le(MonthAt(ds, i), LastMonth(Months(ds)).value))
  {
    var ms := Months(ds);
    if Size(ds) > 0 {
      assert MonthAt(ds, 0) in ms;
    }
    if |ms| > 0 {
      var last := ms[|ms| - 1];
      assert LastMonth(ms) == Some(last);
      assert last in ms;
      forall i | 0 <= i < Size(ds)
        ensures Le(MonthAt(ds, i), last)
      {
        assert MonthAt(ds, i) in ms;
        SortedLastIsMax(ms, MonthAt(ds, i));
      }
    }
  }
}
