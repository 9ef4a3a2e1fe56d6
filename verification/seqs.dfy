/** Generic sequence vocabulary shared by the aggregation engine and the
    selection widgets: duplicate-freedom, first-occurrence deduplication
    (what `Array.from(new Set(xs))` computes), filtering and subsequences. */
module Seqs {

  predicate NoDup(s: seq<string>) {
    forall i, j :: 0 <= i < j < |s| ==> s[i] != s[j]
  }

  /** Index of the first occurrence of `x` in `s`. */
  function IndexOf(s: seq<string>, x: string): (k: nat)
    requires x in s
    ensures k < |s| && s[k] == x
    ensures forall j :: 0 <= j < k ==> s[j] != x
  {
    if s[0] == x then 0 else 1 + IndexOf(s[1..], x)
  }

  lemma IndexOfPrefix(s: seq<string>, n: nat, x: string)
    requires n <= |s| && x in s[..n]
    ensures IndexOf(s, x) == IndexOf(s[..n], x)
  {
    var k := IndexOf(s[..n], x);
    var k' := IndexOf(s, x);
    assert s[k] == x;
    assert k' <= k;
    assert s[..n][k'] == x;
  }

  /** `a` can be obtained from `b` by deleting elements. */
  predicate IsSubsequence(a: seq<string>, b: seq<string>)
    decreases |b|
  {
    |a| == 0 ||
    (|b| > 0 &&
     if a[0] == b[0] then IsSubsequence(a[1..], b[1..]) else IsSubsequence(a, b[1..]))
  }

  /** First-occurrence deduplication: the elements of `s` in the order in
      which a JavaScript `Set` built from `s` enumerates them. */
  function Distinct(s: seq<string>): (r: seq<string>)
    ensures NoDup(r)
    ensures forall x :: x in r <==> x in s
    ensures forall i, j :: 0 <= i < j < |r| ==> IndexOf(s, r[i]) < IndexOf(s, r[j])
  {
    if |s| == 0 then []
    else
      var n := |s| - 1;
      var p := Distinct(s[..n]);
      assert forall i, j :: 0 <= i < j < |p| ==> p[i] in s[..n] && p[j] in s[..n];
      DistinctStep(s, p);
      if s[n] in s[..n] then p else p + [s[n]]
  }

  /** One more element keeps first-occurrence order: it is appended when
      it is new and dropped otherwise. */
  lemma DistinctStep(s: seq<string>, p: seq<string>)
    requires |s| > 0
    requires NoDup(p) && forall x :: x in p <==> x in s[..|s| - 1]
    requires forall i, j :: 0 <= i < j < |p| ==>
      p[i] in s[..|s| - 1] && p[j] in s[..|s| - 1] && IndexOf(s[..|s| - 1], p[i]) < IndexOf(s[..|s| - 1], p[j])
    ensures var r := if s[|s| - 1] in s[..|s| - 1] then p else p + [s[|s| - 1]];
      && NoDup(r)
      && (forall x :: x in r <==> x in s)
      && (forall i, j :: 0 <= i < j < |r| ==> r[i] in s && r[j] in s && IndexOf(s, r[i]) < IndexOf(s, r[j]))
  {
    var n := |s| - 1;
    assert s == s[..n] + [s[n]];
    forall i | 0 <= i < |p|
      ensures p[i] in s[..n] && p[i] in s && IndexOf(s, p[i]) == IndexOf(s[..n], p[i]) < n
    {
      assert p[i] in p;
      IndexOfPrefix(s, n, p[i]);
    }
    if s[n] !in s[..n] {
      var r := p + [s[n]];
      assert IndexOf(s, s[n]) == n;
      forall i, j | 0 <= i < j < |r|
        ensures r[i] != r[j] && IndexOf(s, r[i]) < IndexOf(s, r[j])
      {
        assert r[i] == p[i];
        if j < |p| {
          assert r[j] == p[j];
        }
      }
    }
  }

  lemma DistinctSnoc(s: seq<string>, x: string)
    ensures Distinct(s + [x]) == if x in s then Distinct(s) else Distinct(s) + [x]
  {
    assert (s + [x])[..|s|] == s;
  }

  lemma {:induction false} DistinctOfNoDup(s: seq<string>)
    requires NoDup(s)
    ensures Distinct(s) == s
  {
    if |s| > 0 {
      var n := |s| - 1;
      DistinctOfNoDup(s[..n]);
      assert s[n] !in s[..n];
      assert s == s[..n] + [s[n]];
    }
  }

  /** The elements of `s` satisfying `keep`, in their original order
      (`Array.prototype.filter`). */
  function Keep(s: seq<string>, keep: string -> bool): seq<string> {
    if |s| == 0 then []
    else if keep(s[0]) then [s[0]] + Keep(s[1..], keep)
    else Keep(s[1..], keep)
  }

  /** The filter keeps every element satisfying `keep` as often as it
      occurs, drops the rest, and keeps the original order. */
  lemma {:induction false} KeepSpec(s: seq<string>, keep: string -> bool)
    ensures var r := Keep(s, keep);
      && (forall x :: multiset(r)[x] == if keep(x) then multiset(s)[x] else 0)
      && (forall x :: x in r ==> keep(x))
      && IsSubsequence(r, s)
  {
    if |s| > 0 {
      assert s == [s[0]] + s[1..];
      var rest := Keep(s[1..], keep);
      KeepSpec(s[1..], keep);
      if !keep(s[0]) {
        assert |rest| > 0 ==> rest[0] in rest;
      }
    }
  }

  lemma {:induction false} KeepAll(s: seq<string>, keep: string -> bool)
    requires forall x :: x in s ==> keep(x)
    ensures Keep(s, keep) == s
  {
    if |s| > 0 {
      KeepAll(s[1..], keep);
    }
  }

  lemma {:induction false} KeepAppend(s: seq<string>, t: seq<string>, keep: string -> bool)
    ensures Keep(s + t, keep) == Keep(s, keep) + Keep(t, keep)
  {
    if |s| == 0 {
      assert s + t == t;
    } else {
      assert (s + t)[1..] == s[1..] + t;
      KeepAppend(s[1..], t, keep);
    }
  }

  lemma KeepCons(s: seq<string>, keep: string -> bool)
    requires |s| > 0
    ensures Keep(s, keep) == if keep(s[0]) then [s[0]] + Keep(s[1..], keep) else Keep(s[1..], keep)
  {
  }

  lemma NoDupCard(s: seq<string>)
    requires NoDup(s)
    ensures |set x | x in s| == |s|
  {
    if |s| > 0 {
      var t := s[1..];
      NoDupCard(t);
      assert (set x | x in s) == (set x | x in t) + {s[0]};
      assert s[0] !in t;
    }
  }

  lemma {:induction false} KeepNoDup(s: seq<string>, keep: string -> bool)
    requires NoDup(s)
    ensures NoDup(Keep(s, keep))
  {
    if |s| > 0 {
      assert s == [s[0]] + s[1..];
      var rest := Keep(s[1..], keep);
      KeepNoDup(s[1..], keep);
      KeepSpec(s[1..], keep);
      if keep(s[0]) {
        assert s[0] !in s[1..];
        assert multiset(s[1..])[s[0]] == 0;
        assert s[0] !in rest by {
          assert multiset(rest)[s[0]] == 0;
        }
        assert Keep(s, keep) == [s[0]] + rest;
      }
    }
  }

  lemma NoDupMultiplicity(s: seq<string>, x: string)
    requires NoDup(s)
    ensures multiset(s)[x] <= 1
  {
    if |s| > 0 {
      assert s == [s[0]] + s[1..];
      NoDupMultiplicity(s[1..], x);
      assert s[0] !in s[1..];
    }
  }
}
