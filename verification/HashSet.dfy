/** The hash set: the same open addressing over bare keys, with a membership test that stops after as many probes as
    there are keys, so it also ends on a set without a free slot. */
module HashSet {
  import opened Growth
  import opened Primes
  import opened Probing

  class HashSet {
    const h: Hashing
    var capacity: nat
    var baseCapacity: int
    var count: nat
    var keys: array<Slot<()>>

    // The slots are well formed and counted.
    ghost predicate Stored()
      reads this, keys
    {
      keys.Length == capacity && WellFormed(keys[..], h) && count == |View(keys[..])|
    }

    // Below base capacity two there are two slots. The first doubling of one gives two again, the second one five; a
    // negative base capacity is never doubled.
    ghost predicate Valid()
      reads this, keys
    {
      && Stored() && baseCapacity != 0 && capacity <= MAX_CAPACITY
      && (baseCapacity < 2 ==> capacity == 2)
      && (baseCapacity >= 2 ==> baseCapacity <= capacity < 2 * baseCapacity && 100 * (count - 1) < 71 * capacity)
    }

    ghost function Contents(): set<Key>
      reads this, keys
    {
      Keys(keys[..])
    }

    lemma CountIsSize()
      requires Stored()
      ensures count == |Contents()|
    {
    }

    lemma ValidFacts()
      requires Valid()
      ensures keys.Length == capacity && 2 <= capacity && WellFormed(keys[..], h) && count == |View(keys[..])|
      ensures Contents() == View(keys[..]).Keys && count == |Contents()|
      ensures baseCapacity >= 2 ==> baseCapacity <= capacity && forall k :: HasSlotFor(k)
    {
      SizeIsPrime(keys[..], h);
    }

    constructor (h: Hashing, base: int)
      requires base <= MAX_CAPACITY
      ensures Valid() && fresh(keys) && this.h == h
      ensures Contents() == {} && baseCapacity == if base == 0 then 50 else base
      ensures Prime(capacity) && forall q | baseCapacity <= q < capacity :: !Prime(q)
    {
      this.h := h;
      var wanted := if base == 0 then H_DEFAULT_CAPACITY else base;
      var prime := NextPrime(wanted);
      if wanted < 2 {
        assert Prime(2);
      } else {
        NextPrimeBelowDouble(wanted, prime);
      }
      baseCapacity := wanted;
      capacity := prime;
      count := 0;
      keys := new Slot<()>[prime](_ => Free);
      new;
      EmptySlots(keys[..], h);
    }

    // Is there a slot for the key, now or after growing? A full set that cannot grow takes stored keys only.
    ghost predicate HasSlotFor(k: Key)
      reads this, keys
    {
      k in Contents() || count < capacity || baseCapacity >= 2
    }

    // Above 70 percent load the set must still be able to double within the range of its ints.
    method Insert(k: Key)
      requires Valid()
      requires HasSlotFor(k) && (Load(count, capacity) > 70 ==> 2 * baseCapacity <= MAX_CAPACITY)
      modifies this, keys
      ensures Valid() && (keys == old(keys) || fresh(keys))
      ensures Contents() == old(Contents()) + {k}
      ensures old(Load(count, capacity) <= 70) ==> capacity == old(capacity) && baseCapacity == old(baseCapacity)
      ensures old(Load(count, capacity) > 70) ==> baseCapacity == Doubled(old(baseCapacity))
      ensures old(baseCapacity) < 2 ==> capacity == 2
      decreases count, 3
    {
      hide WellFormed, View, Load;
      LoadIff(count, capacity);
      if Load(count, capacity) > 70 {
        ResizeUp();
      }
      Place(k);
    }

    // The probing half of an insertion: leave a stored key alone or fill the first free slot.
    method Place(k: Key)
      requires Valid() && (k in Contents() || (count < capacity && (baseCapacity < 2 || 100 * count < 71 * capacity)))
      modifies this`count, keys
      ensures Valid()
      ensures Contents() == old(Contents()) + {k}
      decreases count, 0
    {
      hide WellFormed, Passes, Resolve, View, Keys, StopsAt, Prime;
      ghost var slots := keys[..];
      ghost var stop := SomewhereStops(slots, h, k);
      StoreCount(View(slots), k, ());
      var idx := Resolve(h, k, capacity, 0);
      var i := 1;
      while keys[idx].Used?
        invariant 1 <= i <= stop + 1 && 0 < capacity == |slots| && idx == Resolve(h, k, capacity, i - 1)
        invariant Passes(slots, h, k, i - 1) && keys[..] == slots && count == |View(slots)|
        decreases stop + 1 - i
      {
        if keys[idx].key == k {
          EntryInView(slots, h, idx);
          return;
        }
        PassesStep(slots, h, k, i - 1);
        MetBounds(slots, h, k, stop, i);
        idx := Resolve(h, k, capacity, i);
        i := i + 1;
      }
      StoreFresh(slots, h, k, (), i - 1);
      keys[idx] := Used(k, ());
      assert keys[..] == slots[idx := Used(k, ())];
      count := count + 1;
    }

    // Inserts every key into an empty set that is large enough not to grow on the way.
    method CopyInto(grown: HashSet)
      requires Valid() && grown.Valid() && grown != this && grown.keys != keys
      requires grown.Contents() == {} && grown.baseCapacity >= 2
      requires count <= grown.capacity && 100 * (count - 1) < 71 * grown.capacity
      modifies grown, grown.keys
      ensures grown.Valid() && (grown.keys == old(grown.keys) || fresh(grown.keys))
      ensures grown.Contents() == Contents() && grown.count == count
      ensures grown.capacity == old(grown.capacity) && grown.baseCapacity == old(grown.baseCapacity)
      decreases count, 1
    {
      hide *;
      ghost var slots := keys[..];
      ValidFacts();
      grown.ValidFacts();
      MovedEnds(slots);
      for i := 0 to capacity
        invariant grown.Valid() && (grown.keys == old(grown.keys) || fresh(grown.keys))
        invariant grown.capacity == old(grown.capacity) && grown.baseCapacity == old(grown.baseCapacity)
        invariant keys[..] == slots && grown.Contents() == Moved(slots, i).Keys
        invariant grown.count == |Moved(slots, i)|
      {
        MovedStep(slots, h, i);
        if keys[i].Used? {
          grown.ValidFacts();
          LoadIff(grown.count, grown.capacity);
          grown.Insert(keys[i].key);
          grown.ValidFacts();
          assert |Moved(slots, i + 1).Keys| == |Moved(slots, i + 1)|;
        }
      }
    }

    // Rehashes every key into a set of twice the base capacity, unless that is negative.
    method ResizeUp()
      requires Valid() && 2 * baseCapacity <= MAX_CAPACITY
      modifies this
      ensures Valid() && (keys == old(keys) || fresh(keys))
      ensures Contents() == old(Contents()) && count == old(count)
      ensures baseCapacity == Doubled(old(baseCapacity))
      ensures old(baseCapacity) < 2 ==> capacity == 2
      ensures old(baseCapacity) >= 2 ==> old(capacity) + 2 <= capacity && 100 * count < 71 * capacity
      decreases count, 2
    {
      hide WellFormed, View, Keys, Prime, Load;
      CountBound(keys[..], h);
      if 2 * baseCapacity < 0 {
        return;
      }
      var grown := new HashSet(h, 2 * baseCapacity);
      SizeIsPrime(keys[..], h);
      SizeIsPrime(grown.keys[..], grown.h);
      if baseCapacity < 2 {
        TwoIsPrime();
        StartIsPrime(2, grown.capacity);
      } else {
        GrownCapacity(baseCapacity, capacity, grown.capacity, count);
      }
      CopyInto(grown);
      baseCapacity := grown.baseCapacity;
      count := grown.count;
      capacity := grown.capacity;
      keys := grown.keys;
    }

    /** Membership at every fill level, also when no slot is free: after `count` probes all keys have been seen. */
    method Contains(k: Key) returns (found: bool)
      requires Stored()
      ensures found <==> k in Contents()
    {
      hide WellFormed, Passes, Resolve, View, Keys, Prime;
      ghost var slots := keys[..];
      SizeIsPrime(slots, h);
      CountBound(slots, h);
      assert Passes(slots, h, k, 0) by {
        PassesNone(slots, h, k);
      }
      var idx := Resolve(h, k, capacity, 0);
      var i := 1;
      while keys[idx].Used?
        invariant 1 <= i && (i <= count || i == 1) && idx == Resolve(h, k, capacity, i - 1)
        invariant Passes(slots, h, k, i - 1)
        decreases count + 1 - i
      {
        if keys[idx].key == k {
          EntryInView(slots, h, idx);
          return true;
        }
        PassesStep(slots, h, k, i - 1);
        PassesBound(slots, h, k, i);
        idx := Resolve(h, k, capacity, i);
        i := i + 1;
        if i == count + 1 {
          return false;
        }
      }
      FreeMeansAbsent(slots, h, k, i - 1);
      return false;
    }
  }
}
