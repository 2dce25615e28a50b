/** What a sequence of put(key, value) calls on a new IndexedArrayMap leaves
    behind, as functions of the calls themselves (oldest first): the key list
    and the contents of the backing map. The lemmas state what positional
    reads then return. */
module PutHistory {
  import opened Outcomes
  import BackingMap

  /** One call put(key, value). */
  datatype Entry<K, V> = Entry(key: K, value: V)

  /** The set of keys a key list mentions, duplicates collapsed. */
  function KeySet<K(==)>(keys: seq<K>): set<K>
  {
    set k | k in keys
  }

  /** The key list after the calls in h: each call appends its key, whether or
      not the key was put before, so position i holds the i-th call's key. */
  function KeysOf<K, V>(h: seq<Entry<K, V>>): (keys: seq<K>)
    ensures |keys| == |h|
    ensures forall i :: 0 <= i < |h| ==> keys[i] == h[i].key
  {
    if h == [] then [] else KeysOf(h[..|h| - 1]) + [h[|h| - 1].key]
  }

  /** The backing map after the calls in h, each call going through Map.put.
      Its keys are exactly the keys in the key list. */
  function StoreOf<K(==), V>(h: seq<Entry<K, V>>): (store: map<K, V>)
    ensures store.Keys == KeySet(KeysOf(h))
  {
    if h == [] then map[]
    else
      var front := h[..|h| - 1];
      assert KeysOf(h) == KeysOf(front) + [h[|h| - 1].key];
      BackingMap.Put(StoreOf(front), h[|h| - 1].key, h[|h| - 1].value).0
  }

  /** The value of the most recent call in h with key k, scanning back from
      the newest call; None when k was never put. */
  function LatestValue<K(==), V>(h: seq<Entry<K, V>>, k: K): Option<V>
  {
    if h == [] then None
    else if h[|h| - 1].key == k then Some(h[|h| - 1].value)
    else LatestValue(h[..|h| - 1], k)
  }

  /** Call i puts k, and no later call in h puts k again. */
  ghost predicate IsLastPut<K, V>(h: seq<Entry<K, V>>, i: int, k: K)
  {
    0 <= i < |h| && h[i].key == k && forall j :: i < j < |h| ==> h[j].key != k
  }

  /** LatestValue agrees with its declarative reading: it is absent exactly
      when no call put k, and otherwise it is the value of the last call that
      did. */
  lemma {:induction false} LatestValueIsLastPut<K, V>(h: seq<Entry<K, V>>, k: K)
    ensures LatestValue(h, k).None? <==> forall i :: 0 <= i < |h| ==> h[i].key != k
    ensures LatestValue(h, k).Some? ==>
              exists i :: IsLastPut(h, i, k) && LatestValue(h, k).value == h[i].value
    ensures forall i :: IsLastPut(h, i, k) ==> LatestValue(h, k) == Some(h[i].value)
  {
    if h != [] {
      var n := |h| - 1;
      var front := h[..n];
      if h[n].key == k {
        assert IsLastPut(h, n, k);
        forall i | IsLastPut(h, i, k) ensures i == n {
        }
      } else {
        LatestValueIsLastPut(front, k);
        assert forall i :: 0 <= i < n ==> front[i] == h[i];
        if LatestValue(h, k).Some? {
          var i :| IsLastPut(front, i, k) && LatestValue(front, k).value == front[i].value;
          assert IsLastPut(h, i, k);
        }
        forall i | IsLastPut(h, i, k) ensures LatestValue(h, k) == Some(h[i].value) {
          assert i < n;
          assert IsLastPut(front, i, k);
        }
      }
    }
  }

  /** The backing map holds, for every key, the value of the most recent call
      that put it, and nothing for a key never put. */
  lemma {:induction false} StoreIsLatest<K, V>(h: seq<Entry<K, V>>, k: K)
    ensures BackingMap.Get(StoreOf(h), k) == LatestValue(h, k)
  {
    if h != [] {
      StoreIsLatest(h[..|h| - 1], k);
    }
  }

  /** A key put by exactly one call i occupies exactly one position, i, and
      the value stored for it is the value of that call. */
  lemma {:induction false} SinglePutRoundTrip<K, V>(h: seq<Entry<K, V>>, i: int)
    requires 0 <= i < |h|
    requires forall j :: 0 <= j < |h| && j != i ==> h[j].key != h[i].key
    ensures forall p :: 0 <= p < |h| ==> (KeysOf(h)[p] == h[i].key <==> p == i)
    ensures BackingMap.Get(StoreOf(h), h[i].key) == Some(h[i].value)
  {
    assert IsLastPut(h, i, h[i].key);
    LatestValueIsLastPut(h, h[i].key);
    StoreIsLatest(h, h[i].key);
  }

  /** A repeated key keeps every one of its positions, and all of them read
      the value of the later call: an earlier call's value is no longer
      visible through its own position. */
  lemma {:induction false} RepeatedKeyReadsLatest<K, V>(h: seq<Entry<K, V>>, p: int, q: int)
    requires 0 <= p < q < |h|
    requires h[p].key == h[q].key
    requires forall j :: q < j < |h| ==> h[j].key != h[q].key
    ensures KeysOf(h)[p] == KeysOf(h)[q]
    ensures BackingMap.Get(StoreOf(h), KeysOf(h)[p]) == Some(h[q].value)
  {
    assert IsLastPut(h, q, h[q].key);
    LatestValueIsLastPut(h, h[q].key);
    StoreIsLatest(h, h[q].key);
  }
}
