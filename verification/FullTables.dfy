/** Tables without a free slot, built through the table's own operations: a search for an absent key never ends. */
module FullTables {
  import opened Growth
  import opened HashTable
  import opened Primes
  import opened Probing

  // No attempt meets the key or a free slot.
  ghost predicate NeverStops<V>(t: HashTable<V>, k: Key)
    requires t.Valid()
    reads t, t.records
  {
    SizeIsPrime(t.records[..], t.h);
    forall n: nat :: !StopsAt(t.records[..], t.h, k, n)
  }

  lemma FullNeverStops<V>(t: HashTable<V>, k: Key)
    requires t.Valid() && t.count == t.capacity && k !in t.Contents()
    ensures NeverStops(t, k)
  {
    SizeIsPrime(t.records[..], t.h);
    SearchStopsIff(t.records[..], t.h, k);
  }

  /** A table without a free slot has a base capacity of at most three; every such base capacity occurs, by `TwoInTwo`
      and `ThreeInThree`. */
  lemma FullIsSmall<V>(t: HashTable<V>)
    requires t.Valid() && t.count == t.capacity
    ensures t.baseCapacity <= 3
  {
    SizeIsPrime(t.records[..], t.h);
    FourIsNoPrime();
  }

  lemma FourIsNoPrime()
    ensures !Prime(4)
  {
    Divided(4, 2);
  }

  lemma AllNeverStop<V>(t: HashTable<V>)
    requires t.Valid() && t.count == t.capacity
    ensures forall k | k !in t.Contents() :: NeverStops(t, k)
  {
    forall k | k !in t.Contents()
      ensures NeverStops(t, k)
    {
      FullNeverStops(t, k);
    }
  }

  /** Three keys fill a table of base capacity three without making it grow: a search for any other key never ends. */
  method ThreeInThree(h: Hashing) returns (t: HashTable<int>)
    ensures fresh(t) && fresh(t.records) && t.Valid() && t.baseCapacity == 3
    ensures t.Contents() == map["a" := 1, "b" := 2, "c" := 3] && t.count == t.capacity == 3
    ensures forall k | k !in t.Contents() :: NeverStops(t, k)
  {
    hide WellFormed, View, Load, StopsAt;
    t := new HashTable<int>(h, 3);
    SmallCases(3);
    StartIsPrime(3, t.capacity);
    LoadIff(t.count, 3);
    t.Insert("a", 1);
    StoreCount(map[], "a", 1);
    LoadIff(t.count, 3);
    t.Insert("b", 2);
    StoreCount(map["a" := 1], "b", 2);
    LoadIff(t.count, 3);
    t.Insert("c", 3);
    StoreCount(map["a" := 1, "b" := 2], "c", 3);
    AllNeverStop(t);
  }

  /** Two keys fill a table of base capacity one, two or below zero: a search for any other key never ends. */
  method TwoInTwo(h: Hashing, base: int) returns (t: HashTable<int>)
    requires base <= 2 && base != 0
    ensures fresh(t) && fresh(t.records) && t.Valid() && t.baseCapacity == base
    ensures t.Contents() == map["a" := 1, "b" := 2] && t.count == t.capacity == 2
    ensures forall k | k !in t.Contents() :: NeverStops(t, k)
  {
    hide WellFormed, View, Load, StopsAt;
    t := new HashTable<int>(h, base);
    TwoIsPrime();
    if base == 2 {
      StartIsPrime(2, t.capacity);
    }
    LoadIff(t.count, 2);
    t.Insert("a", 1);
    StoreCount(map[], "a", 1);
    LoadIff(t.count, 2);
    t.Insert("b", 2);
    StoreCount(map["a" := 1], "b", 2);
    AllNeverStop(t);
  }

  /** The resize an insertion starts with leaves a full table of negative base capacity as it is, so no third key ever
      gets in. */
  method TwoForGood(h: Hashing, base: int) returns (t: HashTable<int>)
    requires base < 0
    ensures fresh(t) && fresh(t.records) && t.Valid() && t.baseCapacity == base
    ensures t.Contents() == map["a" := 1, "b" := 2] && t.count == t.capacity == 2
    ensures forall k | k !in t.Contents() :: NeverStops(t, k)
  {
    t := TwoInTwo(h, base);
    hide WellFormed, View, Load, StopsAt;
    t.ResizeUp();
    AllNeverStop(t);
  }

  /** With base capacity one that resize gives base capacity two, which is two slots again: the insertion of a third key
      into the full table never ends either. */
  method OneDoublingTooFew(h: Hashing) returns (t: HashTable<int>)
    ensures fresh(t) && fresh(t.records) && t.Valid() && t.baseCapacity == 2
    ensures t.Contents() == map["a" := 1, "b" := 2] && t.count == t.capacity == 2
    ensures forall k | k !in t.Contents() :: NeverStops(t, k)
  {
    t := TwoInTwo(h, 1);
    hide WellFormed, View, Load, StopsAt;
    t.ResizeUp();
    AllNeverStop(t);
  }

  lemma FiveFromFour<V>(t: HashTable<V>)
    requires t.Valid() && t.baseCapacity == 4
    ensures 5 <= t.capacity
  {
    SizeIsPrime(t.records[..], t.h);
    FourIsNoPrime();
  }

  /** But overwriting a stored key doubles base capacity one to two, and the next insertion makes room for a third
      key. */
  method ThreeAfterOverwriting(h: Hashing) returns (t: HashTable<int>)
    ensures fresh(t) && fresh(t.records) && t.Valid() && t.baseCapacity == 4 && 5 <= t.capacity
    ensures t.Contents() == map["a" := 4, "b" := 2, "c" := 3]
  {
    hide *;
    LargeCapacity();
    DoubledIs(1);
    DoubledIs(2);
    t := TwoInTwo(h, 1);
    FullFacts(t, "a");
    t.Insert("a", 4);
    assert t.Contents() == map["a" := 4, "b" := 2];
    KeysAreCounted(t);
    TwoKeys();
    FullFacts(t, "c");
    t.Insert("c", 3);
    assert t.Contents() == map["a" := 4, "b" := 2, "c" := 3];
    FiveFromFour(t);
  }

  // What an insertion asks for and does when both slots are taken.
  lemma FullFacts<V>(t: HashTable<V>, k: Key)
    requires t.Valid() && t.count == t.capacity == 2
    ensures t.baseCapacity >= 2 || k in t.Contents() ==> t.HasSlotFor(k)
    ensures Load(t.count, t.capacity) > 70
  {
    LoadIff(2, 2);
  }

  lemma TwoKeys()
    ensures |map["a" := 4, "b" := 2]| == 2
  {
    hide *;
    StoreCount(map[], "a", 4);
    StoreCount(map["a" := 4], "b", 2);
    assert map["a" := 4, "b" := 2] == map["a" := 4]["b" := 2];
  }

  lemma KeysAreCounted<V>(t: HashTable<V>)
    requires t.Valid()
    ensures t.count == |t.Contents()|
  {
    hide WellFormed, View;
  }
}
