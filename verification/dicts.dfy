/** A JavaScript plain object used as a string-keyed dictionary (the style
    table `styles` and the preset table `presets`). Besides its key/value
    mapping such an object has an iteration order, which `Object.keys` and
    `Object.entries` expose and which the compilers and the preset-order
    reconciliation depend on; `keys` records it. */
module Dicts {
  import opened Wrappers
  import opened Seqs

  datatype RawDict<V> = RawDict(keys: seq<string>, values: map<string, V>)

  /** The iteration order lists every key exactly once. */
  ghost predicate WellFormed<V>(d: RawDict<V>) {
    && Distinct(d.keys)
    && (forall k :: k in d.values <==> k in d.keys)
  }

  type Dict<V> = d: RawDict<V> | WellFormed(d) witness RawDict([], map[])

  /** `{}` */
  function Empty<V>(): (r: Dict<V>)
    ensures r.values == map[] && r.keys == []
  {
    RawDict([], map[])
  }

  /** `obj[k]`, `undefined` when absent. */
  function Get<V>(d: Dict<V>, k: string): (r: Option<V>)
    ensures r.Some? <==> k in d.keys
    ensures r.Some? ==> r.value == d.values[k]
  {
    if k in d.values then Some(d.values[k]) else None
  }

  /** `obj[k] = v`: an existing key keeps its place in the iteration order,
      a new key goes last. */
  function Put<V>(d: Dict<V>, k: string, v: V): (r: Dict<V>)
    ensures r.values == d.values[k := v]
    ensures k in d.keys ==> r.keys == d.keys
    ensures k !in d.keys ==> r.keys == d.keys + [k]
    ensures forall q :: q in r.keys <==> q in d.keys || q == k
  {
    if k in d.values then RawDict(d.keys, d.values[k := v])
    else
      DistinctSnoc(d.keys, k);
      RawDict(d.keys + [k], d.values[k := v])
  }

  /** Reading back: `k` now holds `v`, and every other key reads as before. */
  lemma GetAfterPut<V>(d: Dict<V>, k: string, v: V)
    ensures Get(Put(d, k, v), k) == Some(v)
    ensures forall q :: q != k ==> Get(Put(d, k, v), q) == Get(d, q)
  {
  }

  /** `delete obj[k]`; a no-op when `k` is absent. */
  function Remove<V>(d: Dict<V>, k: string): (r: Dict<V>)
    ensures r.values == d.values - {k}
    ensures r.keys == Without(d.keys, k)
  {
    WithoutDistinct(d.keys, k);
    RawDict(Without(d.keys, k), d.values - {k})
  }

  /** Reading back: `k` is gone, and every other key reads as before. */
  lemma GetAfterRemove<V>(d: Dict<V>, k: string)
    ensures Get(Remove(d, k), k) == None
    ensures forall q :: q != k ==> Get(Remove(d, k), q) == Get(d, q)
  {
  }

  /** `delete` leaves an object without the key untouched, and otherwise
      closes the key's gap in the iteration order. */
  lemma RemoveKeepsOrder<V>(d: Dict<V>, k: string)
    ensures k !in d.keys ==> Remove(d, k) == d
    ensures forall i :: 0 <= i < |d.keys| && d.keys[i] == k ==>
              Remove(d, k).keys == d.keys[..i] + d.keys[i + 1..]
  {
    WithoutOnce(d.keys, k);
    forall i | 0 <= i < |d.keys| && d.keys[i] == k
      ensures k !in d.keys[..i] && k !in d.keys[i + 1..]
    {
      forall j | 0 <= j < |d.keys| && j != i ensures d.keys[j] != k {
        if j < i { assert d.keys[j] != d.keys[i]; } else { assert d.keys[i] != d.keys[j]; }
      }
    }
    if k !in d.keys {
      assert d.values - {k} == d.values;
    }
  }

  /** Removing a key that `Put` has just added restores the dictionary,
      iteration order included. */
  lemma RemoveAfterPutNew<V>(d: Dict<V>, k: string, v: V)
    requires k !in d.keys
    ensures Remove(Put(d, k, v), k) == d
  {
    WithoutConcat(d.keys, [k], k);
    assert Without([k], k) == [];
    assert d.keys + [] == d.keys;
    assert (d.values[k := v]) - {k} == d.values;
  }
}
