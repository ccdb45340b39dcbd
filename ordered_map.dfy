/** JavaScript's `Map` with string keys: a key/value mapping that also remembers the
    order in which keys were first set, the order `forEach` visits them in. */
module OrderedMaps {
  import opened Seqs

  datatype OrderedMap<V> = OrderedMap(keys: seq<string>, entries: map<string, V>)

  /** Each key is listed once, and exactly the mapped keys are listed. */
  predicate Valid<V>(m: OrderedMap<V>) {
    && Distinct(m.keys)
    && m.entries.Keys == (set k | k in m.keys)
  }

  /** A well-formed map has as many entries as listed keys. */
  lemma KeyCount<V>(m: OrderedMap<V>)
    requires Valid(m)
    ensures |m.entries.Keys| == |m.keys|
  {
    DistinctCardinality(m.keys);
  }

  /** `new Map()`. */
  function Empty<V>(): (m: OrderedMap<V>)
    ensures Valid(m) && m.entries == map[]
  {
    OrderedMap([], map[])
  }

  /** `m.set(k, v)`: a new key goes to the end of the order, an existing key keeps
      its place and only its value is replaced. */
  function Set<V>(m: OrderedMap<V>, k: string, v: V): (r: OrderedMap<V>)
    requires Valid(m)
    ensures Valid(r)
    ensures r.entries == m.entries[k := v]
    ensures k in m.entries ==> r.keys == m.keys
    ensures k !in m.entries ==> r.keys == m.keys + [k]
  {
    if k in m.entries then OrderedMap(m.keys, m.entries[k := v])
    else OrderedMap(m.keys + [k], m.entries[k := v])
  }

  /** Setting a key adds it to the mapped keys. */
  lemma SetKeys<V>(m: OrderedMap<V>, k: string, v: V)
    requires Valid(m)
    ensures Set(m, k, v).entries.Keys == m.entries.Keys + {k}
  {
  }
}
