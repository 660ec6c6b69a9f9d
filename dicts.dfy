/**
 A Python `dict` as the join uses it: a finite map together with the order in
 which its keys were first inserted, which is the order `for k in d` visits
 them. Assigning to a key already present replaces its value and keeps its
 place; assigning to a new key puts it last.
 */
module Dicts {
  import opened Lists

  datatype Dict<K(==), V> = Dict(keys: seq<K>, entries: map<K, V>)
  {
    /** The key order lists every key of the map exactly once. */
    predicate Valid()
    {
      && Distinct(keys)
      && entries.Keys == set k | k in keys
    }

    /** Python's `d[k] = v`. */
    function Put(k: K, v: V): (d: Dict<K, V>)
      ensures k in d.entries && d.entries[k] == v
    {
      if k in entries then Dict(keys, entries[k := v])
      else Dict(keys + [k], entries[k := v])
    }

    /** Assigning into a dict keeps its key order listing each key once. */
    lemma PutValid(k: K, v: V)
      requires Valid()
      ensures Put(k, v).Valid()
    {
    }
  }

  /** Python's `{}`. */
  function Empty<K, V>(): (d: Dict<K, V>)
    ensures d.Valid()
  {
    Dict([], map[])
  }
}
