/** The ArrayMap that IndexedArrayMap extends, seen only through the part of
    the java.util.Map contract the class relies on: get and put over a finite
    map from keys to values. Hashing, binary search and array growth are not
    part of this model. */
module BackingMap {
  import opened Outcomes

  /** Map.get: the value stored for k, or null when k has no entry. */
  function Get<K(==), V>(m: map<K, V>, k: K): (r: Option<V>)
    ensures r.Some? <==> k in m
    ensures r.Some? ==> r.value == m[k]
  {
    if k in m then Some(m[k]) else None
  }

  /** Map.put: the new contents, in which k maps to v and every other entry is
      unchanged, paired with the value k mapped to before (null if none). */
  function Put<K(==), V>(m: map<K, V>, k: K, v: V): (r: (map<K, V>, Option<V>))
    ensures r.0.Keys == m.Keys + {k}
    ensures r.0[k] == v
    ensures forall k' :: k' in m && k' != k ==> r.0[k'] == m[k']
    ensures r.1.Some? <==> k in m
    ensures r.1.Some? ==> r.1.value == m[k]
  {
    (m[k := v], Get(m, k))
  }
}
