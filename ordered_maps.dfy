/**
 * A JavaScript `Map` with string keys, or a plain object whose keys are not
 * array indexes: its entries in insertion order. `set` on a present key
 * replaces the value where it stands; on a new key it appends.
 */
module OrderedMaps {
  import opened Common
  import opened Seqs

  type OMap<V> = seq<(string, V)>

  /** `m.has(k)`. */
  predicate Has<V>(m: OMap<V>, k: string) {
    m != [] && (m[0].0 == k || Has(m[1..], k))
  }

  /** No key twice, as in any `Map`. */
  predicate UniqueKeys<V>(m: OMap<V>) {
    m == [] || (!Has(m[1..], m[0].0) && UniqueKeys(m[1..]))
  }

  /** `m.get(k)`, `None` for `undefined`. */
  function Get<V>(m: OMap<V>, k: string): (r: Option<V>)
    ensures r.Some? <==> Has(m, k)
  {
    if m == [] then None else if m[0].0 == k then Some(m[0].1) else Get(m[1..], k)
  }

  /** `Array.from(m.keys())`. */
  function Keys<V>(m: OMap<V>): (ks: seq<string>)
    ensures |ks| == |m|
    ensures forall i :: 0 <= i < |m| ==> ks[i] == m[i].0
  {
    if m == [] then [] else [m[0].0] + Keys(m[1..])
  }

  /** `Array.from(m.values())`. */
  function Values<V>(m: OMap<V>): (vs: seq<V>)
    ensures |vs| == |m|
    ensures forall i :: 0 <= i < |m| ==> vs[i] == m[i].1
  {
    if m == [] then [] else [m[0].1] + Values(m[1..])
  }

  /** `m.set(k, v)`. */
  function Put<V>(m: OMap<V>, k: string, v: V): (r: OMap<V>)
    requires UniqueKeys(m)
    ensures UniqueKeys(r)
    ensures forall j :: Get(r, j) == if j == k then Some(v) else Get(m, j)
    ensures forall j :: Has(r, j) <==> Has(m, j) || j == k
    ensures Keys(r) == if Has(m, k) then Keys(m) else Keys(m) + [k]
  {
    if m == [] then [(k, v)]
    else if m[0].0 == k then
      var r := [(k, v)] + m[1..];
      assert r[1..] == m[1..];
      r
    else
      var t := Put(m[1..], k, v);
      var r := [m[0]] + t;
      assert r[1..] == t;
      r
  }

  /** A key is present exactly when some entry carries it. */
  lemma {:induction false} HasIndex<V>(m: OMap<V>, k: string)
    ensures Has(m, k) <==> k in Keys(m)
  {
    if m != [] {
      HasIndex(m[1..], k);
      assert Keys(m) == [m[0].0] + Keys(m[1..]);
    }
  }

  /** The keys of a map, in order, are free of duplicates. */
  lemma {:induction false} KeysDistinct<V>(m: OMap<V>)
    requires UniqueKeys(m)
    ensures NoDuplicates(Keys(m))
  {
    if m != [] {
      KeysDistinct(m[1..]);
      HasIndex(m[1..], m[0].0);
      assert Keys(m) == [m[0].0] + Keys(m[1..]);
    }
  }

  /** Each entry's value is what `get` returns for its key. */
  lemma {:induction false} GetEntry<V>(m: OMap<V>, i: int)
    requires UniqueKeys(m) && 0 <= i < |m|
    ensures Get(m, m[i].0) == Some(m[i].1)
  {
    if i > 0 {
      GetEntry(m[1..], i - 1);
      HasIndex(m[1..], m[0].0);
      assert Keys(m[1..])[i - 1] == m[i].0;
    }
  }

  /** A value `get` returns is among the map's values. */
  lemma {:induction false} GetInValues<V>(m: OMap<V>, k: string)
    requires Has(m, k)
    ensures Get(m, k).value in Values(m)
  {
    if m[0].0 != k {
      GetInValues(m[1..], k);
      assert Values(m) == [m[0].1] + Values(m[1..]);
    }
  }
}
