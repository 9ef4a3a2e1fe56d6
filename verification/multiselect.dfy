/** The state transitions and derived display of the multi-select widget:
    the handlers that compute a new list of selected values, the checked
    state of each entry, the summary badge and the option-label lookup. */
module MultiSelect {
  import opened Seqs
  import opened Dataset

  /** A selectable entry: the text shown (its `label`) and the value it stands for. */
  datatype Opt = Opt(caption: string, value: string)

  /** `options.map(option => option.value)`. */
  function OptionValues(opts: seq<Opt>): (vs: seq<string>)
    ensures |vs| == |opts|
    ensures forall i :: 0 <= i < |vs| ==> vs[i] == opts[i].value
  {
    seq(|opts|, i requires 0 <= i < |opts| => opts[i].value)
  }

  // ---------------------------------------------------------------------
  // Handlers

  /** `toggleOption`: a present option is removed (every occurrence, the
      other values keeping their order); an absent one is appended. */
  function ToggleOption(s: seq<string>, opt: string): (r: seq<string>)
    ensures opt in r <==> opt !in s
    ensures forall x :: x != opt ==> multiset(r)[x] == multiset(s)[x]
    ensures opt in s ==> IsSubsequence(r, s)
    ensures opt !in s ==> r == s + [opt]
  {
    if opt in s then
      KeepSpec(s, Other(opt));
      Keep(s, Other(opt))
    else s + [opt]
  }

  /** The filter predicate `value => value !== option`. */
  function Other(opt: string): string -> bool {
    v => v != opt
  }

  /** `handleClear`. */
  function HandleClear(): seq<string> {
    []
  }

  /** The end index `Array.prototype.slice(0, end)` uses: a negative end
      counts from the back, and both are clamped to the length. */
  function SliceEnd(len: nat, end: int): (k: nat)
    ensures k <= len
    ensures 0 <= end ==> k <= end && (k == len || k == end)
    ensures end < 0 ==> k < len || len == 0
    ensures end < 0 ==> len - k <= -end && (k == 0 || len - k == -end)
  {
    if end < 0 then (if len + end < 0 then 0 else len + end)
    else if end < len then end
    else len
  }

  /** `clearExtraOptions`: `selectedValues.slice(0, maxCount)`. */
  function ClearExtraOptions(s: seq<string>, maxCount: int): (r: seq<string>)
    ensures |r| <= |s|
    ensures forall i :: 0 <= i < |r| ==> r[i] == s[i]
    ensures 0 <= maxCount ==> |r| == if maxCount < |s| then maxCount else |s|
    ensures maxCount < 0 ==> |r| == if |s| + maxCount < 0 then 0 else |s| + maxCount
    ensures maxCount == 0 ==> r == []
  {
    s[..SliceEnd(|s|, maxCount)]
  }

  /** `toggleAll`: decided by comparing lengths only. */
  function ToggleAll(s: seq<string>, opts: seq<Opt>): seq<string> {
    if |s| == |opts| then HandleClear() else OptionValues(opts)
  }

  // ---------------------------------------------------------------------
  // Checked state

  /** The "(Select All)" entry is shown checked. */
  predicate SelectAllChecked(s: seq<string>, opts: seq<Opt>) {
    |s| == |opts|
  }

  /** An option's entry is shown checked. */
  predicate OptionChecked(s: seq<string>, o: Opt) {
    o.value in s
  }

  /** The shape the handlers keep a selection in when they start from one:
      no value twice, and only values that some option offers. Option
      values are documented as unique. */
  predicate Consistent(s: seq<string>, opts: seq<Opt>) {
    && NoDup(s)
    && NoDup(OptionValues(opts))
    && (forall x :: x in s ==> x in OptionValues(opts))
  }

  // ---------------------------------------------------------------------
  // Trigger content

  /** `SelectedOption`: the label of the first option with that value;
      `None` when no option has it, and then no label is shown. */
  function SelectedOptionLabel(opts: seq<Opt>, v: string): (r: Option<string>)
    ensures r.None? <==> v !in OptionValues(opts)
    ensures r.Some? ==> r.value == opts[IndexOf(OptionValues(opts), v)].caption
  {
    if |opts| == 0 then None
    else if opts[0].value == v then Some(opts[0].caption)
    else
      assert OptionValues(opts) == [opts[0].value] + OptionValues(opts[1..]);
      SelectedOptionLabel(opts[1..], v)
  }

  /** The summary badge: `+ k more` or `k selected`. */
  datatype Badge = More(extra: int) | SelectedCount(count: int)

  function Max(a: int, b: int): int {
    if a < b then b else a
  }

  /** The badge shown next to the chips for `n` selected values. */
  function SummaryBadge(n: nat, maxCount: int): (b: Option<Badge>)
    ensures b.Some? <==> n > 1 && n > maxCount
    ensures b.Some? ==> (b.value.More? <==> maxCount != 0)
    ensures b.Some? ==> Hidden(b) >= 1
    ensures b.Some? && b.value.SelectedCount? ==> b.value.count >= 2
    ensures 0 <= maxCount ==>
      forall s: seq<string> :: |s| == n > 0 ==> |ChipValues(s, maxCount)| + Hidden(b) == n
  {
    if n > Max(1, maxCount) then
      Some(if maxCount != 0 then More(n - maxCount) else SelectedCount(n - maxCount))
    else None
  }

  /** The number a badge shows; zero when there is none. */
  function Hidden(b: Option<Badge>): int {
    match b
    case None => 0
    case Some(More(k)) => k
    case Some(SelectedCount(k)) => k
  }

  /** The values shown as chips: the single value when exactly one is
      selected and `maxCount` is zero, then `slice(0, maxCount)`. */
  function ChipValues(s: seq<string>, maxCount: int): seq<string> {
    (if |s| == 1 && maxCount == 0 then [s[0]] else []) + ClearExtraOptions(s, maxCount)
  }

  /** What the trigger button shows. */
  datatype Trigger =
    | Placeholder(text: string)
    | Chips(labels: seq<Option<string>>, badge: Option<Badge>)

  function TriggerContent(s: seq<string>, opts: seq<Opt>, maxCount: int, placeholder: string): (t: Trigger)
    ensures t.Placeholder? <==> |s| == 0
    ensures t.Chips? ==> t.badge == SummaryBadge(|s|, maxCount)
    ensures t.Chips? ==> |t.labels| <= |s|
    ensures t.Chips? ==> forall i :: 0 <= i < |t.labels| ==> t.labels[i] == SelectedOptionLabel(opts, s[i])
    ensures t.Chips? && 0 <= maxCount ==> |t.labels| + Hidden(t.badge) == |s|
    ensures t.Chips? && Consistent(s, opts) ==> forall i :: 0 <= i < |t.labels| ==> t.labels[i].Some?
  {
    if |s| == 0 then Placeholder(placeholder)
    else
      var vs := ChipValues(s, maxCount);
      ChipsArePrefix(s, maxCount);
      Chips(seq(|vs|, i requires 0 <= i < |vs| => SelectedOptionLabel(opts, vs[i])), SummaryBadge(|s|, maxCount))
  }

  /** The chips show the first values of the selection. */
  lemma ChipsArePrefix(s: seq<string>, maxCount: int)
    ensures var vs := ChipValues(s, maxCount);
      |vs| <= |s| && forall i :: 0 <= i < |vs| ==> vs[i] == s[i]
  {
  }

  // ---------------------------------------------------------------------
  // Properties

  /** Toggling an absent value twice restores the list. */
  lemma ToggleAbsentTwice(s: seq<string>, opt: string)
    requires opt !in s
    ensures ToggleOption(ToggleOption(s, opt), opt) == s
  {
    KeepAppend(s, [opt], Other(opt));
    KeepAll(s, Other(opt));
    KeepWithoutSelf(opt);
  }

  /** Toggling a present value twice keeps it selected but moves it to the
      end, so the round trip restores the list only when it was last. */
  lemma TogglePresentTwice(s: seq<string>, opt: string)
    requires NoDup(s) && opt in s
    ensures ToggleOption(ToggleOption(s, opt), opt) == Keep(s, Other(opt)) + [opt]
    ensures ToggleOption(ToggleOption(s, opt), opt) == s <==> s[|s| - 1] == opt
  {
    var w := Keep(s, Other(opt));
    assert ToggleOption(s, opt) == w;
    assert opt !in w;
    var r := w + [opt];
    assert ToggleOption(w, opt) == r;
    assert r[|r| - 1] == opt;
    if s[|s| - 1] == opt {
      KeepDropsLast(s, opt);
    }
  }

  /** Filtering out the last value of a duplicate-free list is dropping it. */
  lemma KeepDropsLast(s: seq<string>, opt: string)
    requires NoDup(s) && |s| > 0 && s[|s| - 1] == opt
    ensures Keep(s, Other(opt)) + [opt] == s
  {
    var p := s[..|s| - 1];
    assert s == p + [opt];
    assert opt !in p;
    KeepAppend(p, [opt], Other(opt));
    KeepWithoutAbsent(p, opt);
    KeepWithoutSelf(opt);
    calc {
      Keep(s, Other(opt));
      Keep(p + [opt], Other(opt));
      Keep(p, Other(opt)) + Keep([opt], Other(opt));
      p;
    }
  }

  lemma KeepWithoutAbsent(p: seq<string>, opt: string)
    requires opt !in p
    ensures Keep(p, Other(opt)) == p
  {
    KeepAll(p, Other(opt));
  }

  lemma KeepWithoutSelf(opt: string)
    ensures Keep([opt], Other(opt)) == []
  {
    assert !Other(opt)(opt);
    assert [opt][1..] == [];
  }

  /** Toggling an offered value keeps a consistent selection consistent. */
  lemma ToggleKeepsConsistent(s: seq<string>, opts: seq<Opt>, opt: string)
    requires Consistent(s, opts) && opt in OptionValues(opts)
    ensures Consistent(ToggleOption(s, opt), opts)
  {
    var r := ToggleOption(s, opt);
    if opt in s {
      KeepNoDup(s, Other(opt));
    } else {
      forall i, j | 0 <= i < j < |r|
        ensures r[i] != r[j]
      {
        if j == |s| {
          assert r[i] == s[i];
        }
      }
    }
    forall x | x in r
      ensures x in OptionValues(opts)
    {
      if x != opt {
        assert multiset(r)[x] == multiset(s)[x];
      }
    }
  }

  /** After clearing, nothing is checked and "(Select All)" is checked only
      for an empty option list. */
  lemma ClearUnchecksEverything(opts: seq<Opt>)
    ensures forall o :: !OptionChecked(HandleClear(), o)
    ensures SelectAllChecked(HandleClear(), opts) <==> |opts| == 0
  {
  }

  /** With a non-negative `maxCount`, clearing the extras a second time
      changes nothing. */
  lemma ClearExtraIdempotent(s: seq<string>, maxCount: int)
    requires 0 <= maxCount
    ensures ClearExtraOptions(ClearExtraOptions(s, maxCount), maxCount) == ClearExtraOptions(s, maxCount)
  {
  }

  lemma SubsetCardinality(a: set<string>, b: set<string>)
    requires a <= b && |a| == |b|
    ensures a == b
  {
    if a != b {
      var x :| x in b && x !in a;
      assert a <= b - {x};
      SubsetCardinalityLe(a, b - {x});
    }
  }

  lemma {:induction false} SubsetCardinalityLe(a: set<string>, b: set<string>)
    requires a <= b
    ensures |a| <= |b|
    decreases b
  {
    if a != {} {
      var x :| x in a;
      SubsetCardinalityLe(a - {x}, b - {x});
    }
  }

  /** On a consistent selection, "(Select All)" is checked exactly when
      every option is checked, although the source compares lengths only. */
  lemma SelectAllMeansEveryOption(s: seq<string>, opts: seq<Opt>)
    requires Consistent(s, opts)
    ensures SelectAllChecked(s, opts) <==> forall i :: 0 <= i < |opts| ==> OptionChecked(s, opts[i])
  {
    var vs := OptionValues(opts);
    var a := set x | x in s;
    var b := set x | x in vs;
    NoDupCard(s);
    NoDupCard(vs);
    assert a <= b;
    if SelectAllChecked(s, opts) {
      SubsetCardinality(a, b);
      forall i | 0 <= i < |opts|
        ensures OptionChecked(s, opts[i])
      {
        assert vs[i] in b;
      }
    }
    if forall i :: 0 <= i < |opts| ==> OptionChecked(s, opts[i]) {
      assert b <= a by {
        forall x | x in b
          ensures x in a
        {
          var i :| 0 <= i < |vs| && vs[i] == x;
          assert OptionChecked(s, opts[i]);
        }
      }
      assert a == b;
    }
  }

  /** `toggleAll` flips the "(Select All)" check box, except that with no
      options at all it stays checked. From a list of another length it
      selects every option's value, in option order. */
  lemma ToggleAllFlips(s: seq<string>, opts: seq<Opt>)
    ensures SelectAllChecked(ToggleAll(s, opts), opts) <==> !SelectAllChecked(s, opts) || |opts| == 0
    ensures SelectAllChecked(s, opts) ==> ToggleAll(s, opts) == []
    ensures !SelectAllChecked(s, opts) ==>
      forall i :: 0 <= i < |opts| ==> OptionChecked(ToggleAll(s, opts), opts[i])
    ensures !SelectAllChecked(s, opts) ==>
      && |ToggleAll(s, opts)| == |opts|
      && forall i :: 0 <= i < |opts| ==> ToggleAll(s, opts)[i] == opts[i].value
  {
    if !SelectAllChecked(s, opts) {
      forall i | 0 <= i < |opts|
        ensures OptionChecked(ToggleAll(s, opts), opts[i])
      {
        assert OptionValues(opts)[i] == opts[i].value;
      }
    }
  }
}
