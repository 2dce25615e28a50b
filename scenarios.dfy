/** Clients of IndexedArrayMap that use nothing but its contracts. */
module Scenarios {
  import opened Outcomes
  import opened IndexedMap

  /** put("a", 1), put("b", 2), put("a", 3): the key list keeps both
      positions of "a", and both read the value 3 of the later call. */
  method RepeatedKeyScenario()
    returns (k0: string, k1: string, k2: string, v0: Option<int>, v2: Option<int>, previous: Option<int>)
    ensures k0 == "a" && k1 == "b" && k2 == "a"
    ensures v0 == Some(3) && v2 == Some(3)
    ensures previous == Some(1)
  {
    var m := new IndexedArrayMap<string, int>();
    var first := m.Put("a", 1);
    var second := m.Put("b", 2);
    previous := m.Put("a", 3);
    k0, k1, k2 := m.GetKey(0).value, m.GetKey(1).value, m.GetKey(2).value;
    v0, v2 := m.GetValue(0).value, m.GetValue(2).value;
  }

  /** On a new map, even one created with a capacity, position 0 is out of
      range for both positional reads. */
  method EmptyMapScenario(capacity: nat) returns (key: Result<string>, value: Result<Option<int>>)
    ensures key == Err(IndexOutOfBounds(0, 0))
    ensures value == Err(IndexOutOfBounds(0, 0))
  {
    var m := new IndexedArrayMap<string, int>.WithCapacity(capacity);
    key := m.GetKey(0);
    value := m.GetValue(0);
  }
}
