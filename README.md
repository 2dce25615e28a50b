# IndexedArrayMap in Dafny

A model of `IndexedArrayMap<K, V>`, a small Java utility class that extends
Android's `ArrayMap` with positional access. Besides the map's entries it keeps
`mKeyList`, the list of every key ever passed to `put`, in call order and with
duplicates. `getKey(position)` reads that list, and `getValue(position)` looks up
the map's current value for the key found there.

The model has these parts:

- `Outcomes` (outcomes.dfy): `Option` for a Java reference that may be null,
  `Result` for a value or an exception, and the one exception the modelled operations raise
  (`IndexOutOfBounds`, carrying the index and the list size).
- `BackingMap` (backing_map.dfy): the `ArrayMap` superclass seen through the
  `Map.get` / `Map.put` contract only, over a Dafny `map<K, V>`.
- `PutHistory` (put_history.dfy): the key list and map contents that a sequence
  of `put` calls produces, written as functions of the calls. A reference
  definition, `LatestValue`, gives the value of the most recent call for a key.
  The lemmas there state what positional reads return.
- `IndexedMap.IndexedArrayMap` (indexed_array_map.dfy): the class itself. It has
  the fields `keys` (`mKeyList`) and `store` (the inherited map entries), plus a
  ghost `history` of the `put` calls. Its invariant `Valid()` ties both fields to
  that history. `Put` is a method that changes both fields. `GetKey` and
  `GetValue` are read-only functions returning `Result`.
- `Scenarios` (scenarios.dfy): two clients that rely only on the class's
  contracts. One shows the repeated-key behaviour; the other shows an
  out-of-range read on an empty map.

`put` appends its key to the list on every call, so a re-inserted key gets an
extra position. Every position of a key reads the value of that key's latest
`put`.

## Model

| member | source | states |
|---|---|---|
| BackingMap.Get | IndexedArrayMap.java:66-67 | the map lookup used by getValue. It gives a value exactly when the key has an entry, and then it gives that entry |
| BackingMap.Put | IndexedArrayMap.java:47 | the superclass put. The new map's key set is the old one plus `key`, and `key` maps to `value`. Every other entry is unchanged. The returned value is the previous value for `key`, or null when there was none |
| PutHistory.KeysOf | IndexedArrayMap.java:45-46 | after n put calls the key list has exactly n elements. Position i holds the key of the i-th call, with repeated keys kept |
| PutHistory.StoreOf | IndexedArrayMap.java:45-47 | after any put calls, the map's key set equals the set of keys in the key list |
| PutHistory.LatestValueIsLastPut | IndexedArrayMap.java:45-47 | the reference value for a key is absent exactly when no call put that key. Otherwise it is the value of the last call that put it, in both directions |
| PutHistory.StoreIsLatest | IndexedArrayMap.java:45-47 | after any put calls, looking up a key in the map gives the value of the most recent put of that key. A key never put gives nothing |
| PutHistory.SinglePutRoundTrip | IndexedArrayMap.java:45-67 | a key put by exactly one call i is found at exactly one position, i. The value stored for it is that call's value |
| PutHistory.RepeatedKeyReadsLatest | IndexedArrayMap.java:45-67 | when a key is put at calls p < q and not again after q, both positions hold the key. Both read the value of call q, not the value of call p |
| IndexedMap.IndexedArrayMap.Valid | IndexedArrayMap.java:32-47 | class invariant: the key list and map are what the put calls so far produce. Hence the map's key set equals the set of listed keys |
| IndexedMap.IndexedArrayMap.constructor | IndexedArrayMap.java:34-37 | a new object has an empty key list, an empty map and no put history, and satisfies the invariant |
| IndexedMap.IndexedArrayMap.WithCapacity | IndexedArrayMap.java:39-42 | the capacity constructor gives the same empty state as the default constructor. The capacity has no observable effect |
| IndexedMap.IndexedArrayMap.Put | IndexedArrayMap.java:44-48 | appends `key` to the key list even when it is already present, leaving earlier positions unchanged. Stores `value` under `key` and leaves every other entry unchanged. Returns the previous value or null, and keeps the invariant |
| IndexedMap.IndexedArrayMap.GetKey | IndexedArrayMap.java:56-58 | succeeds exactly for 0 <= position < list size and then returns the key at that position, which is the key of that put call. Any other position fails with IndexOutOfBounds(position, size). Reads only |
| IndexedMap.IndexedArrayMap.GetValue | IndexedArrayMap.java:66-68 | fails exactly where GetKey fails, with the same error. Otherwise it returns the map lookup of the key at that position. Under the invariant that value is present and is the most recent value put for the key. Reads only |
| Scenarios.RepeatedKeyScenario | IndexedArrayMap.java:45-67 | put("a",1), put("b",2), put("a",3) gives keys a, b, a at positions 0-2, and the value 3 at both positions 0 and 2. The third put returns 1 |
| Scenarios.EmptyMapScenario | IndexedArrayMap.java:56-67 | on a new map of any capacity, getKey(0) and getValue(0) both fail with IndexOutOfBounds(0, 0) |

## Left out

- The internals of `ArrayMap`: hash arrays, binary search, and growth and shrink policy. The superclass's source is not part of this model, so it is modelled only as a finite map with the `Map.get` / `Map.put` contract. Key equality is Dafny equality; `equals`/`hashCode` are not modelled.
- The inherited `ArrayMap` operations the class does not override: `remove`, `clear`, `removeAt`, `setValueAt`, `putAll`, `size` and iteration. None of them is modelled. `remove`, `clear`, `removeAt`, `setValueAt` and removal through an iterator change the map without touching `mKeyList`. `putAll(Map)` goes through the overridden `put` and appends to `mKeyList`. `putAll(SimpleArrayMap)` does the same on a non-empty map. On an empty map it copies the entries directly and bypasses `mKeyList`. `size` and iteration only read. After `remove(k)`, for example, positions holding `k` would still exist, and `getValue` would read null there. That would break `Valid()`. `GetValue`'s contract in terms of `BackingMap.Get` still describes that read, but no such operation is modelled.
- IndexedMap.IndexedArrayMap.Put: the returned `Option` keeps apart "no previous entry" and "previous value was null". Java returns null for both; a null value can be modelled by choosing an option type for `V`.
- IndexedMap.IndexedArrayMap.WithCapacity: the capacity is a `nat`. In Java a negative capacity makes the constructor throw (the superclass constructor at line 40 runs first). That failure is not modelled. Pre-sizing itself has no observable effect and is not modelled.
- 32-bit limits: positions are unbounded integers. The Java list cannot grow past `Integer.MAX_VALUE` elements, and the model has no such limit.
- Thread safety and the use of the class from Android adapters: the class has no concurrency logic.
