/** What the hash table and the hash set share about filling up and moving to a larger slot array. */
module Growth {
  import opened Counting
  import opened Primes
  import opened Probing

  const H_DEFAULT_CAPACITY := 50

  lemma EmptySlots<V>(slots: seq<Slot<V>>, h: Hashing)
    requires Prime(|slots|) && forall s | 0 <= s < |slots| :: slots[s].Free?
    ensures WellFormed(slots, h) && View(slots) == map[]
  {
    assert Keys(slots) == {};
  }

  // What a resize has moved after the first `n` slots.
  ghost function Moved<V>(slots: seq<Slot<V>>, n: nat): map<Key, V>
    requires n <= |slots|
  {
    map k | k in View(slots) && (exists s :: 0 <= s < n && slots[s].Used? && slots[s].key == k) :: View(slots)[k]
  }

  lemma MovedEnds<V>(slots: seq<Slot<V>>)
    ensures Moved(slots, 0) == map[] && Moved(slots, |slots|) == View(slots)
  {
  }

  lemma MovedStep<V>(slots: seq<Slot<V>>, h: Hashing, n: nat)
    requires WellFormed(slots, h) && n < |slots|
    ensures slots[n].Free? ==> Moved(slots, n + 1) == Moved(slots, n)
    ensures slots[n].Used? ==> Moved(slots, n + 1) == Moved(slots, n)[slots[n].key := slots[n].value]
    ensures slots[n].Used? ==> |Moved(slots, n)| < |View(slots)|
  {
    hide WellFormed;
    if slots[n].Used? {
      var k := slots[n].key;
      EntryInView(slots, h, n);
      if k in Moved(slots, n) {
        var s :| 0 <= s < n && slots[s].Used? && slots[s].key == k;
        KeyOnce(slots, h, s, n);
      }
      SubsetCount(Moved(slots, n).Keys, View(slots).Keys - {k});
    }
  }

  // Growing leaves room: the new capacity exceeds the old one by at least two.
  lemma GrownCapacity(base: nat, capacity: nat, grown: nat, count: nat)
    requires 2 <= base <= capacity < 2 * base && 2 * base <= grown && Prime(grown) && Prime(capacity)
    requires 100 * (count - 1) < 71 * capacity
    ensures capacity + 2 <= grown && 100 * count < 71 * grown
  {
    assert grown % 2 != 0;
  }

  // The base capacity behind a resize: a negative one is left alone.
  function Doubled(base: int): int {
    if base < 0 then base else 2 * base
  }

  lemma DoubledIs(base: nat)
    ensures Doubled(base) == 2 * base
  {
  }

  lemma StoreCount<V>(m: map<Key, V>, k: Key, v: V)
    ensures |m[k := v]| == if k in m then |m| else |m| + 1
  {
    assert m[k := v].Keys == m.Keys + {k};
  }

  // The load in percent, as the C ints compute it.
  function Load(count: nat, capacity: nat): nat
    requires 0 < capacity
  {
    count * 100 / capacity
  }

  lemma LoadIff(count: nat, capacity: nat)
    requires 0 < capacity
    ensures Load(count, capacity) <= 70 <==> 100 * count < 71 * capacity
  {
    var q, r := count * 100 / capacity, count * 100 % capacity;
    assert count * 100 == q * capacity + r;
    if q <= 70 {
      MulMono(q, 70, capacity);
    } else {
      MulMono(71, q, capacity);
    }
  }
}
