/**
 * Python dictionaries keyed by strings, as the scorer uses them: a map plus
 * the order in which keys were first inserted, which is the order `for key
 * in d` visits them.
 */
module Dicts {

  predicate Distinct<T(==)>(s: seq<T>) {
    forall i, j | 0 <= i < j < |s| :: s[i] != s[j]
  }

  datatype Dict<V> = Dict(keys: seq<string>, items: map<string, V>)
  {
    /** Every key is listed once, and the listed keys are exactly the map's keys. */
    predicate Valid() {
      Distinct(keys) && (forall k | k in keys :: k in items) && (forall k | k in items :: k in keys)
    }

    /** `d[k] = v`: a new key goes to the end of the order, an old one keeps its place. */
    function Put(k: string, v: V): (r: Dict<V>)
      requires Valid()
      ensures r.Valid()
      ensures r.items == items[k := v]
      ensures k in items ==> r.keys == keys
      ensures k !in items ==> r.keys == keys + [k]
    {
      if k in items then Dict(keys, items[k := v]) else Dict(keys + [k], items[k := v])
    }
  }

  function Empty<V>(): (r: Dict<V>)
    ensures r.Valid() && r.keys == [] && r.items == map[]
  {
    Dict([], map[])
  }

  /** The set of a dictionary's keys, as Python's `set(d)`. */
  function KeySet<V>(d: Dict<V>): set<string> {
    d.items.Keys
  }
}
