/** The segment chooser: picking a dimension builds a selection holding
    every distinct value of that column, sorted; the clear button drops the
    selection. The chooser reads the dataset itself, passed here as a
    parameter. */
module SelectSegment {
  import opened Seqs
  import opened Lex
  import opened Dataset
  import opened Pivot

  /** The source treats the chosen column as a list of strings. */
  predicate StringColumn(ds: Data, field: string) {
    field in ds ==> forall i :: 0 <= i < |ds[field]| ==> ds[field][i].S?
  }

  /** `data[field]` as strings; an absent column is `undefined`, from which
      `new Set(undefined)` builds an empty set. */
  function ColumnStrings(ds: Data, field: string): (xs: seq<string>)
    requires StringColumn(ds, field)
    ensures forall v :: v in xs <==> field in ds && S(v) in ds[field]
  {
    if field !in ds then []
    else
      var col := ds[field];
      var xs := seq(|col|, i requires 0 <= i < |col| => col[i].s);
      assert forall v :: S(v) in col ==> v in xs by {
        forall v | S(v) in col
          ensures v in xs
        {
          var i :| 0 <= i < |col| && col[i] == S(v);
          assert xs[i] == v;
        }
      }
      xs
  }

  /** `onValueChange`: the new selection names the chosen field and holds
      its distinct values, sorted ascending. */
  function ChooseField(ds: Data, field: string): (s: Selection)
    requires StringColumn(ds, field)
    ensures s.bucketName == field
    ensures StrictlySorted(s.bucketValues)
    ensures forall v :: v in s.bucketValues <==> field in ds && S(v) in ds[field]
  {
    Selection(field, DistinctSorted(ColumnStrings(ds, field)))
  }

  /** `!skipNames?.includes(value)`: with no skip list every name passes. */
  function NotSkipped(skip: Option<seq<string>>): string -> bool {
    x => skip.None? || x !in skip.value
  }

  /** The dimensions offered in the drop-down: the given names minus the
      skipped ones, in their original order. */
  function OfferedDimensions(names: seq<string>, skip: Option<seq<string>>): (r: seq<string>)
    ensures IsSubsequence(r, names)
    ensures forall x :: x in r <==> x in names && (skip.None? || x !in skip.value)
    ensures forall x :: x in r ==> multiset(r)[x] == multiset(names)[x]
  {
    var r := Keep(names, NotSkipped(skip));
    KeepSpec(names, NotSkipped(skip));
    assert forall x :: x in names && NotSkipped(skip)(x) ==> multiset(r)[x] > 0;
    r
  }

  /** The two user actions of the chooser. */
  datatype SegmentEvent = Choose(field: string) | ClearSegment

  /** The selection after an action. The current selection is not an
      input: a choice replaces it whole and the clear button drops it. */
  function OnSegmentEvent(ds: Data, e: SegmentEvent): (r: Option<Selection>)
    requires e.Choose? ==> StringColumn(ds, e.field)
    ensures e.ClearSegment? ==> r.None?
    ensures e.Choose? ==> && r.Some?
                          && r.value.bucketName == e.field
                          && StrictlySorted(r.value.bucketValues)
                          && forall v :: v in r.value.bucketValues <==> e.field in ds && S(v) in ds[e.field]
  {
    match e
    case Choose(field) => Some(ChooseField(ds, field))
    case ClearSegment => None
  }

  /** Right after a dimension is chosen every value of it is selected, so
      the application's pivot equals the unfiltered one. */
  lemma ChosenSegmentKeepsPivot(ds: Data, labels: seq<string>, field: string)
    requires WellFormed(ds) && field in ds && StringColumn(ds, field)
    ensures AppGroupDataByColumn(ds, labels, Some(ChooseField(ds, field))) ==
            AppGroupDataByColumn(ds, labels, None)
  {
    var s := ChooseField(ds, field);
    forall i | 0 <= i < |ds[field]|
      ensures ds[field][i].S? && ds[field][i].s in s.bucketValues
    {
      assert ds[field][i] in ds[field];
    }
    CoveringSelectionIsUnfiltered(ds, labels, s);
  }
}
