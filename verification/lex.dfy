/** The ordering JavaScript's default `Array.prototype.sort` uses on strings:
    lexicographic comparison character by character, a proper prefix sorting
    first. (Dafny's own `<` on sequences means "proper prefix", so the
    order is defined here.) */
module Lex {
  import opened Seqs

  /** `a` sorts no later than `b`. */
  predicate Le(a: string, b: string)
    decreases |a|
  {
    |a| == 0 || (|b| > 0 && (a[0] < b[0] || (a[0] == b[0] && Le(a[1..], b[1..]))))
  }

  lemma {:induction false} LeRefl(a: string)
    ensures Le(a, a)
  {
    if |a| > 0 {
      LeRefl(a[1..]);
    }
  }

  lemma {:induction false} LeAntisym(a: string, b: string)
    requires Le(a, b) && Le(b, a)
    ensures a == b
  {
    if |a| > 0 {
      LeAntisym(a[1..], b[1..]);
      assert a == [a[0]] + a[1..] && b == [b[0]] + b[1..];
    }
  }

  lemma {:induction false} LeTrans(a: string, b: string, c: string)
    requires Le(a, b) && Le(b, c)
    ensures Le(a, c)
  {
    if |a| > 0 && a[0] == b[0] && b[0] == c[0] {
      LeTrans(a[1..], b[1..], c[1..]);
    }
  }

  lemma {:induction false} LeTotal(a: string, b: string)
    ensures Le(a, b) || Le(b, a)
  {
    if |a| > 0 && |b| > 0 && a[0] == b[0] {
      LeTotal(a[1..], b[1..]);
    }
  }

  predicate Sorted(s: seq<string>) {
    forall i, j :: 0 <= i < j < |s| ==> Le(s[i], s[j])
  }

  /** Sorted with no repeats: every element sorts strictly before the next. */
  predicate StrictlySorted(s: seq<string>) {
    Sorted(s) && NoDup(s)
  }

  function Insert(x: string, s: seq<string>): (r: seq<string>)
    requires Sorted(s)
    ensures Sorted(r)
    ensures multiset(r) == multiset(s) + multiset{x}
  {
    if |s| == 0 then [x]
    else if Le(x, s[0]) then
      InsertFront(x, s);
      [x] + s
    else
      LeTotal(x, s[0]);
      DropHead(s);
      var rest := Insert(x, s[1..]);
      InsertBehind(x, s, rest);
      [s[0]] + rest
  }

  /** An element no later than the head of a sorted list may go in front. */
  lemma InsertFront(x: string, s: seq<string>)
    requires Sorted(s) && |s| > 0 && Le(x, s[0])
    ensures Sorted([x] + s)
  {
    forall j | 0 <= j < |s|
      ensures Le(x, s[j])
    {
      if j > 0 { LeTrans(x, s[0], s[j]); }
    }
  }

  /** The head of a sorted list may go in front of the rest with `x`
      inserted, when `x` does not sort before it. */
  lemma InsertBehind(x: string, s: seq<string>, rest: seq<string>)
    requires Sorted(s) && |s| > 0 && Le(s[0], x)
    requires Sorted(rest) && multiset(rest) == multiset(s[1..]) + multiset{x}
    ensures Sorted([s[0]] + rest)
    ensures multiset([s[0]] + rest) == multiset(s) + multiset{x}
  {
    forall y | y in multiset(rest)
      ensures Le(s[0], y)
    {
      if y != x {
        assert y in s[1..];
      }
    }
    var r := [s[0]] + rest;
    forall i, j | 0 <= i < j < |r|
      ensures Le(r[i], r[j])
    {
      if i == 0 {
        assert r[j] == rest[j - 1] && rest[j - 1] in multiset(rest);
      } else {
        assert r[i] == rest[i - 1] && r[j] == rest[j - 1];
      }
    }
    assert multiset(r) == multiset{s[0]} + multiset(rest);
    assert s == [s[0]] + s[1..];
  }

  /** The result of JavaScript's default sort on a list of strings. The
      order is total, so every sorting algorithm yields this same list
      (see `SortedPermutationUnique`); insertion sort is used here. */
  function Sort(s: seq<string>): (r: seq<string>)
    ensures Sorted(r)
    ensures multiset(r) == multiset(s)
  {
    if |s| == 0 then []
    else
      assert s == [s[0]] + s[1..];
      Insert(s[0], Sort(s[1..]))
  }

  /** Two sorted arrangements of the same strings are the same list: the
      output of the source's sort does not depend on the sorting algorithm
      or on the input order. */
  lemma {:induction false} SortedPermutationUnique(a: seq<string>, b: seq<string>)
    requires Sorted(a) && Sorted(b)
    requires multiset(a) == multiset(b)
    ensures a == b
  {
    if |a| == 0 {
      assert |b| == |multiset(b)| == 0;
    } else {
      SortedHeadsEqual(a, b);
      DropHead(a);
      DropHead(b);
      SortedPermutationUnique(a[1..], b[1..]);
      assert a == [a[0]] + a[1..] && b == [b[0]] + b[1..];
    }
  }

  /** Sorted arrangements of the same non-empty multiset start alike. */
  lemma SortedHeadsEqual(a: seq<string>, b: seq<string>)
    requires Sorted(a) && Sorted(b)
    requires multiset(a) == multiset(b) && |a| > 0
    ensures |b| > 0 && a[0] == b[0]
  {
    assert |b| == |multiset(b)| == |multiset(a)| == |a|;
    assert a[0] in multiset(b) && b[0] in multiset(a);
    var i :| 0 <= i < |b| && b[i] == a[0];
    var j :| 0 <= j < |a| && a[j] == b[0];
    assert Le(b[0], a[0]) by { if i > 0 { } else { LeRefl(b[0]); } }
    assert Le(a[0], b[0]) by { if j > 0 { } else { LeRefl(a[0]); } }
    LeAntisym(a[0], b[0]);
  }

  /** The tail of a sorted list is sorted and holds the rest of its multiset. */
  lemma DropHead(a: seq<string>)
    requires Sorted(a) && |a| > 0
    ensures Sorted(a[1..])
    ensures multiset(a[1..]) == multiset(a) - multiset{a[0]}
  {
    assert a == [a[0]] + a[1..];
  }

  /** `Array.from(new Set(xs)).sort()`: the distinct values of `xs`, sorted. */
  function DistinctSorted(xs: seq<string>): (r: seq<string>)
    ensures StrictlySorted(r)
    ensures forall x :: x in r <==> x in xs
  {
    var d := Distinct(xs);
    var r := Sort(d);
    assert forall x :: x in r <==> x in multiset(d);
    MultisetNoDup(d, r);
    r
  }

  lemma MultisetNoDup(d: seq<string>, r: seq<string>)
    requires NoDup(d) && multiset(r) == multiset(d)
    ensures NoDup(r)
  {
    forall i, j | 0 <= i < j < |r|
      ensures r[i] != r[j]
    {
      if r[i] == r[j] {
        assert r == r[..i] + [r[i]] + r[i+1..];
        assert r[i+1..] == r[i+1..j] + [r[j]] + r[j+1..];
        assert multiset(r)[r[i]] >= 2;
        NoDupMultiplicity(d, r[i]);
      }
    }
  }

  /** The last element of a sorted list is its maximum. */
  lemma SortedLastIsMax(s: seq<string>, x: string)
    requires Sorted(s) && x in s
    ensures Le(x, s[|s| - 1])
  {
    var i :| 0 <= i < |s| && s[i] == x;
    if i == |s| - 1 {
      LeRefl(x);
    }
  }

  /** Two strictly sorted lists with the same elements are equal. */
  lemma StrictlySortedSameElements(a: seq<string>, b: seq<string>)
    requires StrictlySorted(a) && StrictlySorted(b)
    requires forall x :: x in a <==> x in b
    ensures a == b
  {
    forall x
      ensures multiset(a)[x] == multiset(b)[x]
    {
      NoDupMultiplicity(a, x);
      NoDupMultiplicity(b, x);
      assert x in a <==> x in multiset(a);
      assert x in b <==> x in multiset(b);
    }
    assert multiset(a) == multiset(b);
    SortedPermutationUnique(a, b);
  }

  /** First-occurrence deduplication of a sorted list is strictly sorted. */
  lemma DistinctOfSorted(s: seq<string>)
    requires Sorted(s)
    ensures StrictlySorted(Distinct(s))
  {
    var r := Distinct(s);
    forall i, j | 0 <= i < j < |r|
      ensures Le(r[i], r[j])
    {
      var a := IndexOf(s, r[i]);
      var b := IndexOf(s, r[j]);
      assert a < b;
    }
  }

  /** Strings that agree before index `k` and differ at `k` are ordered by
      their `k`-th characters. */
  lemma {:induction false} LeAtFirstDifference(a: string, b: string, k: nat)
    requires k < |a| && k < |b| && a[..k] == b[..k] && a[k] < b[k]
    ensures Le(a, b) && !Le(b, a)
  {
    if k > 0 {
      assert a[0] == a[..k][0];
      assert a[1..][..k - 1] == a[..k][1..];
      assert b[1..][..k - 1] == b[..k][1..];
      LeAtFirstDifference(a[1..], b[1..], k - 1);
    }
  }
}
