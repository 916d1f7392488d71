/** The hash table: an array of record slots probed by double hashing, grown when it is more than 70 percent full. */
module HashTable {
  import opened Growth
  import opened Options
  import opened Primes
  import opened Probing

  class HashTable<V> {
    const h: Hashing
    var capacity: nat
    var baseCapacity: int
    var count: nat
    var records: array<Slot<V>>

    // The slots are well formed and counted.
    ghost predicate Stored()
      reads this, records
    {
      records.Length == capacity && WellFormed(records[..], h) && count == |View(records[..])|
    }

    // Below base capacity two there are two slots. The first doubling of one gives two again, the second one five; a
    // negative base capacity is never doubled.
    ghost predicate Valid()
      reads this, records
    {
      && Stored() && baseCapacity != 0 && capacity <= MAX_CAPACITY
      && (baseCapacity < 2 ==> capacity == 2)
      && (baseCapacity >= 2 ==> baseCapacity <= capacity < 2 * baseCapacity && 100 * (count - 1) < 71 * capacity)
    }

    ghost function Contents(): map<Key, V>
      reads this, records
    {
      View(records[..])
    }

    // From five slots on, the load limit keeps a slot free, so every search ends.
    ghost predicate HasRoom()
      reads this
    {
      count < capacity
    }

    lemma RoomFromFive()
      requires Valid() && 5 <= capacity
      ensures HasRoom()
    {
    }

    constructor (h: Hashing, base: int)
      requires base <= MAX_CAPACITY
      ensures Valid() && fresh(records) && this.h == h
      ensures Contents() == map[] && baseCapacity == if base == 0 then 50 else base
      ensures Prime(capacity) && forall q | baseCapacity <= q < capacity :: !Prime(q)
    {
      this.h := h;
      var wanted := if base == 0 then H_DEFAULT_CAPACITY else base;
      var prime := NextPrime(wanted);
      if wanted < 2 {
        assert Prime(2);
      } else {
        NextPrimeBelowDouble(wanted, prime);
      }
      baseCapacity := wanted;
      capacity := prime;
      count := 0;
      records := new Slot<V>[prime](_ => Free);
      new;
      EmptySlots(records[..], h);
    }

    // Is there a slot for the key, now or after growing? A full table that cannot grow takes stored keys only.
    ghost predicate HasSlotFor(k: Key)
      reads this, records
    {
      k in Contents() || count < capacity || baseCapacity >= 2
    }

    // Above 70 percent load the table must still be able to double within the range of its ints.
    method Insert(k: Key, v: V)
      requires Valid()
      requires HasSlotFor(k) && (Load(count, capacity) > 70 ==> 2 * baseCapacity <= MAX_CAPACITY)
      modifies this, records
      ensures Valid() && (records == old(records) || fresh(records))
      ensures Contents() == old(Contents())[k := v]
      ensures old(Load(count, capacity) <= 70) ==> capacity == old(capacity) && baseCapacity == old(baseCapacity)
      ensures old(Load(count, capacity) > 70) ==> baseCapacity == Doubled(old(baseCapacity))
      ensures old(baseCapacity) < 2 ==> capacity == 2
      decreases count, 3
    {
      hide WellFormed, View, Load;
      LoadIff(count, capacity);
      if Load(count, capacity) > 70 {
        ResizeUp();
      }
      Place(k, v);
    }

    // The probing half of an insertion: overwrite the key's record or fill the first free slot.
    method Place(k: Key, v: V)
      requires Valid() && (k in Contents() || (count < capacity && (baseCapacity < 2 || 100 * count < 71 * capacity)))
      modifies this`count, records
      ensures Valid()
      ensures Contents() == old(Contents())[k := v]
      decreases count, 0
    {
      hide WellFormed, Passes, Resolve, View, Keys, StopsAt, Prime;
      ghost var slots := records[..];
      ghost var stop := SomewhereStops(slots, h, k);
      StoreCount(View(slots), k, v);
      var idx := Resolve(h, k, capacity, 0);
      var i := 1;
      while records[idx].Used?
        invariant 1 <= i <= stop + 1 && 0 < capacity == |slots| && idx == Resolve(h, k, capacity, i - 1)
        invariant Passes(slots, h, k, i - 1) && records[..] == slots && count == |View(slots)|
        decreases stop + 1 - i
      {
        if records[idx].key == k {
          StoreOver(slots, h, k, v, idx);
          records[idx] := Used(k, v);
          assert records[..] == slots[idx := Used(k, v)];
          return;
        }
        PassesStep(slots, h, k, i - 1);
        MetBounds(slots, h, k, stop, i);
        idx := Resolve(h, k, capacity, i);
        i := i + 1;
      }
      StoreFresh(slots, h, k, v, i - 1);
      records[idx] := Used(k, v);
      assert records[..] == slots[idx := Used(k, v)];
      count := count + 1;
    }

    // Inserts every record into an empty table that is large enough not to grow on the way.
    method CopyInto(grown: HashTable<V>)
      requires Valid() && grown.Valid() && grown != this && grown.records != records
      requires grown.Contents() == map[] && grown.baseCapacity >= 2
      requires count <= grown.capacity && 100 * (count - 1) < 71 * grown.capacity
      modifies grown, grown.records
      ensures grown.Valid() && (grown.records == old(grown.records) || fresh(grown.records))
      ensures grown.Contents() == Contents() && grown.count == count
      ensures grown.capacity == old(grown.capacity) && grown.baseCapacity == old(grown.baseCapacity)
      decreases count, 1
    {
      hide WellFormed, View, Moved, Load, Prime, Keys;
      ghost var slots := records[..];
      MovedEnds(slots);
      for i := 0 to capacity
        invariant grown.Valid() && (grown.records == old(grown.records) || fresh(grown.records))
        invariant grown.capacity == old(grown.capacity) && grown.baseCapacity == old(grown.baseCapacity)
        invariant records[..] == slots && grown.Contents() == Moved(slots, i)
      {
        MovedStep(slots, h, i);
        if records[i].Used? {
          LoadIff(grown.count, grown.capacity);
          grown.Insert(records[i].key, records[i].value);
        }
      }
    }

    // Rehashes every record into a table of twice the base capacity, unless that is negative.
    method ResizeUp()
      requires Valid() && 2 * baseCapacity <= MAX_CAPACITY
      modifies this
      ensures Valid() && (records == old(records) || fresh(records))
      ensures Contents() == old(Contents()) && count == old(count)
      ensures baseCapacity == Doubled(old(baseCapacity))
      ensures old(baseCapacity) < 2 ==> capacity == 2
      ensures old(baseCapacity) >= 2 ==> old(capacity) + 2 <= capacity && 100 * count < 71 * capacity
      decreases count, 2
    {
      hide WellFormed, View, Keys, Prime, Load;
      CountBound(records[..], h);
      if 2 * baseCapacity < 0 {
        return;
      }
      var grown := new HashTable<V>(h, 2 * baseCapacity);
      SizeIsPrime(records[..], h);
      SizeIsPrime(grown.records[..], grown.h);
      if baseCapacity < 2 {
        TwoIsPrime();
        StartIsPrime(2, grown.capacity);
      } else {
        GrownCapacity(baseCapacity, capacity, grown.capacity, count);
      }
      CopyInto(grown);
      baseCapacity := grown.baseCapacity;
      count := grown.count;
      capacity := grown.capacity;
      records := grown.records;
    }

    // The record of a key, if it is stored. On a full table an absent key would be searched for forever.
    method Search(k: Key) returns (r: Option<Slot<V>>)
      requires Valid() && (k in Contents() || HasRoom())
      ensures r == if k in Contents() then Some(Used(k, Contents()[k])) else None
    {
      hide WellFormed, Passes, Resolve, View, Keys, StopsAt, Prime;
      ghost var slots := records[..];
      ghost var stop := SomewhereStops(slots, h, k);
      var idx := Resolve(h, k, capacity, 0);
      var i := 1;
      while records[idx].Used?
        invariant 1 <= i <= stop + 1 && 0 < capacity == |slots| && idx == Resolve(h, k, capacity, i - 1)
        invariant Passes(slots, h, k, i - 1)
        decreases stop + 1 - i
      {
        if records[idx].key == k {
          EntryInView(slots, h, idx);
          return Some(records[idx]);
        }
        PassesStep(slots, h, k, i - 1);
        MetBounds(slots, h, k, stop, i);
        idx := Resolve(h, k, capacity, i);
        i := i + 1;
      }
      FreeMeansAbsent(slots, h, k, i - 1);
      return None;
    }

    method Get(k: Key) returns (r: Option<V>)
      requires Valid() && (k in Contents() || HasRoom())
      ensures r == if k in Contents() then Some(Contents()[k]) else None
    {
      var record := Search(k);
      return if record.Some? then Some(record.value.value) else None;
    }
  }
}
