/** IndexedArrayMap: an ArrayMap that also records, in a list, every key
    passed to put, so that keys and their current values can be read back by
    position. */
module IndexedMap {
  import opened Outcomes
  import BackingMap
  import opened PutHistory

  class IndexedArrayMap<K(==), V> {
    /** mKeyList: the key of every put call, in call order, duplicates kept. */
    var keys: seq<K>
    /** The entries of the ArrayMap this class extends. */
    var store: map<K, V>
    /** Every put call made on this object so far, oldest first. */
    ghost var history: seq<Entry<K, V>>

    /** The key list and the map are what the put calls so far produce; in
        particular the map's keys are exactly the keys in the list. */
    ghost predicate Valid()
      reads this
      ensures Valid() ==> store.Keys == KeySet(keys)
    {
      keys == KeysOf(history) && store == StoreOf(history)
    }

    /** IndexedArrayMap(): an empty map with an empty key list. */
    constructor ()
      ensures Valid()
      ensures history == [] && keys == [] && store == map[]
    {
      keys := [];
      store := map[];
      history := [];
    }

    /** IndexedArrayMap(int capacity): the same empty map; the capacity only
        pre-sizes the Java arrays and leaves nothing observable. */
    constructor WithCapacity(capacity: nat)
      ensures Valid()
      ensures history == [] && keys == [] && store == map[]
    {
      keys := [];
      store := map[];
      history := [];
    }

    /** put(key, value): appends key to the key list even when it is already
        there, then stores value under key in the map, returning the value
        key had before (null when it had none). */
    method Put(key: K, value: V) returns (previous: Option<V>)
      requires Valid()
      modifies this
      ensures Valid()
      ensures history == old(history) + [Entry(key, value)]
      ensures keys == old(keys) + [key]
      ensures store.Keys == old(store).Keys + {key} && store[key] == value
      ensures forall k :: k in old(store) && k != key ==> store[k] == old(store)[k]
      ensures previous == BackingMap.Get(old(store), key)
    {
      keys := keys + [key];
      var r := BackingMap.Put(store, key, value);
      store, previous := r.0, r.1;
      history := history + [Entry(key, value)];
      assert history[..|history| - 1] == old(history);
    }

    /** getKey(position): the key of the position-th put call; fails as
        ArrayList.get does when position is outside the list. */
    function GetKey(position: int): (r: Result<K>)
      reads this
      ensures r.Ok? <==> 0 <= position < |keys|
      ensures r.Ok? ==> r.value == keys[position]
      ensures r.Err? ==> r.error == IndexOutOfBounds(position, |keys|)
      ensures Valid() && r.Ok? ==> r.value == history[position].key
    {
      if 0 <= position < |keys| then Ok(keys[position])
      else Err(IndexOutOfBounds(position, |keys|))
    }

    /** getValue(position): the map's current value for the key at position,
        failing exactly where getKey fails. While only put has changed the
        object, that value is present and is the one of the latest put of
        that key, which need not be the put that created the position. */
    function GetValue(position: int): (r: Result<Option<V>>)
      reads this
      ensures r.Ok? <==> 0 <= position < |keys|
      ensures r.Err? ==> r.error == IndexOutOfBounds(position, |keys|)
      ensures r.Ok? ==> r.value == BackingMap.Get(store, keys[position])
      ensures Valid() && r.Ok? ==>
                r.value.Some? && r.value == LatestValue(history, keys[position])
    {
      match GetKey(position)
      case Err(e) => Err(e)
      case Ok(k) =>
        StoreIsLatest(history, k);
        Ok(BackingMap.Get(store, k))
    }
  }
}
