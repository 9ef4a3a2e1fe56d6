/** JavaScript plain objects keyed by strings, as the source uses them for
    running totals: a value per key plus the order in which keys were first
    assigned, which is the order `Object.values` and `Object.entries`
    enumerate them (for keys that do not look like array indices). */
module Records {
  import opened Seqs

  datatype Rec<V> = Rec(keys: seq<string>, vals: map<string, V>)

  /** Keys are listed once each, and exactly the keys that hold a value. */
  predicate Valid<V>(r: Rec<V>) {
    && NoDup(r.keys)
    && (forall k :: k in r.keys ==> k in r.vals)
    && (forall k :: k in r.vals ==> k in r.keys)
  }

  function Empty<V>(): (r: Rec<V>)
    ensures Valid(r) && r.keys == [] && r.vals == map[]
  {
    Rec([], map[])
  }

  /** `obj[k] = v`: an existing key keeps its position, a new key goes last. */
  function Put<V>(r: Rec<V>, k: string, v: V): (r': Rec<V>)
    ensures Valid(r) ==> Valid(r')
    ensures r'.vals == r.vals[k := v]
    ensures k in r.vals ==> r'.keys == r.keys
    ensures k !in r.vals ==> r'.keys == r.keys + [k]
  {
    if k in r.vals then Rec(r.keys, r.vals[k := v])
    else Rec(r.keys + [k], r.vals[k := v])
  }

  /** Assigning keys in the order they occur in `e` lists them once each,
      in order of first occurrence. */
  lemma PutKeepsDistinctOrder<V>(t: Rec<V>, e: seq<string>, m: string, v: V)
    requires Valid(t) && t.keys == Distinct(e)
    ensures Valid(Put(t, m, v)) && Put(t, m, v).keys == Distinct(e + [m])
  {
    DistinctSnoc(e, m);
    assert m in t.vals <==> m in e;
  }

  /** `obj[k] ?? d`. */
  function GetOr<V>(r: Rec<V>, k: string, d: V): V {
    if k in r.vals then r.vals[k] else d
  }

  /** `Object.values(obj)`. */
  function Values<V>(r: Rec<V>): (s: seq<V>)
    requires Valid(r)
    ensures |s| == |r.keys|
    ensures forall i :: 0 <= i < |s| ==> s[i] == r.vals[r.keys[i]]
  {
    seq(|r.keys|, i requires 0 <= i < |r.keys| => r.vals[r.keys[i]])
  }

  /** `Object.fromEntries(ks.map(k => [k, v]))`: a repeated key keeps the
      position of its first occurrence. */
  function FromEntries<V>(ks: seq<string>, v: V): (r: Rec<V>)
    ensures Valid(r)
    ensures r.keys == Distinct(ks)
    ensures forall k :: k in r.vals ==> r.vals[k] == v
  {
    if |ks| == 0 then Empty()
    else
      var n := |ks| - 1;
      Put(FromEntries(ks[..n], v), ks[n], v)
  }
}
