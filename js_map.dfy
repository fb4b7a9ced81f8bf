/** JavaScript's `Map` as the prompt loader uses it: `set`, `get`, and
    iteration over values and entries, all in insertion order. */
module JsMap {
  import opened Wrappers
  import opened JsArray

  /** A `Map`: its keys in the order they were first set, and the value each
      key holds now. */
  datatype InsertionMap<K(==, !new), V> = InsertionMap(order: seq<K>, store: map<K, V>)
  {
    /** Each key is listed once, and the listed keys are exactly the stored ones. */
    ghost predicate Valid() {
      Distinct(order) && forall k :: k in store <==> k in order
    }

    /** The number of keys, as `m.size` would give it; the loader never asks
        for it, and it serves the proof about the listing's length. */
    function Size(): (n: nat)
      requires Valid()
      ensures n == |store|
    {
      DistinctCardinality(order);
      assert store.Keys == set k | k in order;
      |order|
    }

    /** `m.get(k)`: the value `k` holds, or `undefined` (None) for a key that
        was never set. */
    function Get(k: K): (r: Option<V>)
      ensures r.Some? <==> k in store
      ensures r.Some? ==> r.value == store[k]
    {
      if k in store then Some(store[k]) else None
    }

    /** `m.set(k, v)`: `k` holds `v` afterwards and every other key keeps its
        value; a new key goes to the end of the iteration order, a key that
        is already present keeps its place. */
    function Set(k: K, v: V): (m: InsertionMap<K, V>)
      requires Valid()
      ensures m.Valid()
      ensures m.Get(k) == Some(v)
      ensures forall k' :: k' != k ==> m.Get(k') == Get(k')
      ensures k in store ==> m.order == order
      ensures k !in store ==> m.order == order + [k]
    {
      InsertionMap(if k in store then order else order + [k], store[k := v])
    }

    /** `Array.from(m.values())`: one value per key, in key order. */
    function Values(): (vs: seq<V>)
      requires Valid()
      ensures |vs| == |order|
      ensures forall i :: 0 <= i < |order| ==> order[i] in store && vs[i] == store[order[i]]
    {
      seq(|order|, i requires 0 <= i < |order| => assert order[i] in order; store[order[i]])
    }

    /** `Array.from(m.entries())`: one key-value pair per key, in key order. */
    function Entries(): (es: seq<(K, V)>)
      requires Valid()
      ensures |es| == |order|
      ensures forall i :: 0 <= i < |order| ==> order[i] in store && es[i] == (order[i], store[order[i]])
    {
      seq(|order|, i requires 0 <= i < |order| => assert order[i] in order; (order[i], store[order[i]]))
    }
  }

  /** The empty `Map`, `new Map()`. */
  function EmptyMap<K(==, !new), V>(): (m: InsertionMap<K, V>)
    ensures m.Valid() && m.order == [] && forall k :: m.Get(k) == None
  {
    InsertionMap([], map[])
  }

  lemma {:induction false} DistinctCardinality<K>(s: seq<K>)
    requires Distinct(s)
    ensures |set k | k in s| == |s|
  {
    if s != [] {
      var rest := s[1..];
      assert Distinct(rest);
      DistinctCardinality(rest);
      assert s[0] !in rest;
      assert (set k | k in s) == {s[0]} + (set k | k in rest);
    }
  }
}
