/** One filter drop-down: a multi-select over a dimension's values whose
    chosen list is turned into a selection, or into no selection when it
    is empty. It always runs the multi-select with `maxCount` zero. */
module Selector {
  import opened Seqs
  import opened Lex
  import opened Dataset
  import opened MultiSelect

  const SelectorMaxCount: int := 0

  /** `Array.from(values).sort().map(value => ({ value, label: value }))`. */
  function SelectorOptions(values: seq<string>): (opts: seq<Opt>)
    ensures Sorted(OptionValues(opts))
    ensures multiset(OptionValues(opts)) == multiset(values)
    ensures forall i :: 0 <= i < |opts| ==> opts[i].caption == opts[i].value
  {
    var sorted := Sort(values);
    var opts := seq(|sorted|, i requires 0 <= i < |sorted| => Opt(sorted[i], sorted[i]));
    assert OptionValues(opts) == sorted;
    opts
  }

  /** `setSelectedValues`: an empty list means no selection. */
  function SetSelectedValues(name: string, vals: seq<string>): (r: Option<Selection>)
    ensures r.None? <==> |vals| == 0
    ensures r.Some? ==> r.value.bucketName == name && r.value.bucketValues == vals
    ensures DisplayedSelection(r) == vals
    ensures OwnSelection(name, r)
  {
    if |vals| > 0 then Some(Selection(name, vals)) else None
  }

  /** `selected?.bucketValues ?? []`. */
  function DisplayedSelection(sel: Option<Selection>): seq<string> {
    match sel
    case None => []
    case Some(s) => s.bucketValues
  }

  /** A selection this drop-down can have produced: none, or one naming its
      dimension with at least one value. */
  predicate OwnSelection(name: string, sel: Option<Selection>) {
    sel.Some? ==> sel.value.bucketName == name && |sel.value.bucketValues| > 0
  }

  /** Reading the selection and writing it back changes nothing, for every
      selection the drop-down can have produced and only for those. */
  lemma DisplayThenSet(name: string, sel: Option<Selection>)
    ensures SetSelectedValues(name, DisplayedSelection(sel)) == sel <==> OwnSelection(name, sel)
  {
  }

  /** The "clear extra" action runs with `maxCount` zero, so it empties the
      list and clears the selection. */
  lemma ClearExtraDropsSelection(name: string, sel: Option<Selection>)
    ensures SetSelectedValues(name, ClearExtraOptions(DisplayedSelection(sel), SelectorMaxCount)) == None
  {
  }

  /** Picking an unselected value in the drop-down and picking it again
      gives back the selection it started from. */
  lemma ToggleTwiceRestores(name: string, sel: Option<Selection>, v: string)
    requires OwnSelection(name, sel) && v !in DisplayedSelection(sel)
    ensures var once := SetSelectedValues(name, ToggleOption(DisplayedSelection(sel), v));
      SetSelectedValues(name, ToggleOption(DisplayedSelection(once), v)) == sel
  {
    var vs := DisplayedSelection(sel);
    var once := SetSelectedValues(name, ToggleOption(vs, v));
    ToggleAbsentTwice(vs, v);
  }

  /** Distinct values (as the filter bar passes them) give options whose
      values are strictly ascending, so "(Select All)" selects them in
      that order. */
  lemma SelectorOptionsStrict(values: seq<string>)
    requires NoDup(values)
    ensures StrictlySorted(OptionValues(SelectorOptions(values)))
    ensures forall x :: x in OptionValues(SelectorOptions(values)) <==> x in values
  {
    var vs := OptionValues(SelectorOptions(values));
    MultisetNoDup(values, vs);
    forall x
      ensures x in vs <==> x in values
    {
      assert x in vs <==> x in multiset(vs);
      assert x in values <==> x in multiset(values);
    }
  }

  /** "(Select All)" from a list of another length selects every offered
      value once, in the ascending order of the options; with no values on
      offer it clears the selection. */
  lemma SelectAllAscending(name: string, sel: Option<Selection>, values: seq<string>)
    requires NoDup(values)
    requires |DisplayedSelection(sel)| != |values|
    ensures var r := SetSelectedValues(name, ToggleAll(DisplayedSelection(sel), SelectorOptions(values)));
      && (r.None? <==> |values| == 0)
      && (r.Some? ==>
            && r.value.bucketName == name
            && StrictlySorted(r.value.bucketValues)
            && forall x :: x in r.value.bucketValues <==> x in values)
  {
    var opts := SelectorOptions(values);
    assert |OptionValues(opts)| == |multiset(values)|;
    ToggleAllFlips(DisplayedSelection(sel), opts);
    SelectorOptionsStrict(values);
    assert ToggleAll(DisplayedSelection(sel), opts) == OptionValues(opts);
  }

  /** With `maxCount` zero the trigger shows one chip for a single value
      and only an "n selected" badge for more. */
  lemma SelectorTrigger(vals: seq<string>, opts: seq<Opt>, placeholder: string)
    requires |vals| > 0
    ensures var t := TriggerContent(vals, opts, SelectorMaxCount, placeholder);
      && t.Chips?
      && (|vals| == 1 ==> |t.labels| == 1 && t.badge.None?)
      && (|vals| > 1 ==> |t.labels| == 0 && t.badge == Some(SelectedCount(|vals|)))
  {
  }
}
