/** Open addressing with double hashing over a prime number of slots: the probe sequence, what a well-formed slot
    array is, and the map it represents. */
module Probing {
  import opened Counting
  import opened Primes

  type Key = string

  // The C hash is a polynomial computed in doubles; the tables need only its range.
  type HashFn = f: (Key, nat) -> nat | forall k, c | 0 < c :: f(k, c) < c witness (k, c) => 0

  datatype Hashing = Hashing(a: HashFn, b: HashFn)

  datatype Slot<+V> = Free | Used(key: Key, value: V)

  // ---------- the probe sequence ----------

  function Resolve(h: Hashing, k: Key, capacity: nat, attempt: nat): (slot: nat)
    requires 0 < capacity
    ensures slot < capacity
  {
    var b := h.b(k, capacity);
    (h.a(k, capacity) + attempt * (if b == 0 then 1 else b)) % capacity
  }

  // Two attempts that land on the same slot differ by a multiple of the modulus.
  lemma SameResidue(x: nat, y: nat, p: nat)
    requires 0 < p && x <= y && x % p == y % p
    ensures (y - x) % p == 0
  {
    assert y - x == (y / p - x / p) * p;
    MultipleIff(y - x, p, y / p - x / p);
  }

  /** Modulo a prime, different attempts below the capacity probe different slots. */
  lemma ProbesDistinct(h: Hashing, k: Key, capacity: nat, i: nat, j: nat)
    requires Prime(capacity) && i < j < capacity
    ensures Resolve(h, k, capacity, i) != Resolve(h, k, capacity, j)
  {
    var a, b := h.a(k, capacity), h.b(k, capacity);
    var step := if b == 0 then 1 else b;
    if Resolve(h, k, capacity, i) == Resolve(h, k, capacity, j) {
      MulMono(i, j, step);
      SameResidue(a + i * step, a + j * step, capacity);
      assert a + j * step - (a + i * step) == (j - i) * step;
      NoZeroDivisors(capacity, j - i, step);
    }
  }

  /** Every product the C code forms while probing fits a 32-bit int. */
  lemma ProbeFitsInt(h: Hashing, k: Key, capacity: nat, attempt: nat)
    requires 2 <= capacity <= MAX_CAPACITY && attempt < capacity
    ensures var b := h.b(k, capacity);
            h.a(k, capacity) + attempt * (if b == 0 then 1 else b) < 0x8000_0000
  {
    var b := h.b(k, capacity);
    var step := if b == 0 then 1 else b;
    MulMono(attempt, MAX_CAPACITY - 1, step);
    MulMono(step, MAX_CAPACITY - 1, MAX_CAPACITY - 1);
  }

  // ---------- coverage ----------

  ghost function Probes(h: Hashing, k: Key, capacity: nat, n: nat): seq<nat>
    requires 0 < capacity
  {
    seq(n, i requires 0 <= i < n => Resolve(h, k, capacity, i))
  }

  /** Coverage: the first `capacity` attempts hit every slot, each exactly once by `ProbesDistinct`. */
  lemma ProbesCover(h: Hashing, k: Key, capacity: nat, slot: nat) returns (attempt: nat)
    requires Prime(capacity) && slot < capacity
    ensures attempt < capacity && Resolve(h, k, capacity, attempt) == slot
  {
    var probes := Probes(h, k, capacity, capacity);
    forall i, j | 0 <= i < j < capacity
      ensures probes[i] != probes[j]
    {
      ProbesDistinct(h, k, capacity, i, j);
    }
    DistinctCount(probes);
    assert Elements(probes) <= Below(capacity);
    SubsetCount(Elements(probes), Below(capacity));
    assert slot in Below(capacity) && slot in Elements(probes);
    attempt :| attempt < |probes| && probes[attempt] == slot;
  }

  // ---------- well-formed slots ----------

  // The first `n` probes for `k` meet only other keys.
  ghost predicate Passes<V>(slots: seq<Slot<V>>, h: Hashing, k: Key, n: nat)
    requires 0 < |slots|
  {
    forall j | 0 <= j < n :: var s := slots[Resolve(h, k, |slots|, j)]; s.Used? && s.key != k
  }

  // The search loop ends at attempt `n`.
  ghost predicate StopsAt<V>(slots: seq<Slot<V>>, h: Hashing, k: Key, n: nat)
    requires 0 < |slots|
  {
    var s := slots[Resolve(h, k, |slots|, n)];
    s.Free? || s.key == k
  }

  // Every stored key is met by its own probe sequence before a free slot.
  ghost predicate Reachable<V>(slots: seq<Slot<V>>, h: Hashing, slot: nat)
    requires slot < |slots| && slots[slot].Used?
  {
    var k := slots[slot].key;
    exists n: nat :: n < |slots| && Resolve(h, k, |slots|, n) == slot && Passes(slots, h, k, n)
  }

  ghost predicate WellFormed<V>(slots: seq<Slot<V>>, h: Hashing) {
    && Prime(|slots|)
    && forall s | 0 <= s < |slots| && slots[s].Used? :: Reachable(slots, h, s)
  }

  ghost function Keys<V>(slots: seq<Slot<V>>): set<Key> {
    set s | 0 <= s < |slots| && slots[s].Used? :: slots[s].key
  }

  ghost function ValueOf<V>(slots: seq<Slot<V>>, k: Key): V
    requires k in Keys(slots)
  {
    var s :| 0 <= s < |slots| && slots[s].Used? && slots[s].key == k;
    slots[s].value
  }

  // The mathematical map the slots stand for.
  ghost function View<V>(slots: seq<Slot<V>>): (m: map<Key, V>)
    ensures m.Keys == Keys(slots)
  {
    map k | k in Keys(slots) :: ValueOf(slots, k)
  }

  // The attempt at which the key of a used slot is met.
  lemma AttemptOf<V>(slots: seq<Slot<V>>, h: Hashing, s: nat) returns (n: nat)
    requires WellFormed(slots, h) && s < |slots| && slots[s].Used?
    ensures n < |slots| && Resolve(h, slots[s].key, |slots|, n) == s && Passes(slots, h, slots[s].key, n)
  {
    hide Resolve, Passes, Prime;
    assert Reachable(slots, h, s);
    n :| n < |slots| && Resolve(h, slots[s].key, |slots|, n) == s && Passes(slots, h, slots[s].key, n);
  }

  lemma SlotOf<V>(slots: seq<Slot<V>>, k: Key) returns (s: nat)
    requires k in Keys(slots)
    ensures s < |slots| && slots[s].Used? && slots[s].key == k && View(slots)[k] == slots[s].value
  {
    s :| 0 <= s < |slots| && slots[s].Used? && slots[s].key == k && ValueOf(slots, k) == slots[s].value;
  }

  lemma PassesNone<V>(slots: seq<Slot<V>>, h: Hashing, k: Key)
    requires 0 < |slots|
    ensures Passes(slots, h, k, 0)
  {
  }

  lemma PassesStep<V>(slots: seq<Slot<V>>, h: Hashing, k: Key, n: nat)
    requires 0 < |slots| && Passes(slots, h, k, n)
    requires var s := slots[Resolve(h, k, |slots|, n)]; s.Used? && s.key != k
    ensures Passes(slots, h, k, n + 1)
  {
  }

  // If `k` is met at attempt `n`, a probe sequence for `k` that only meets other keys is no longer than `n`.
  lemma MetBounds<V>(slots: seq<Slot<V>>, h: Hashing, k: Key, n: nat, m: nat)
    requires 0 < |slots| && Passes(slots, h, k, m) && StopsAt(slots, h, k, n)
    ensures m <= n
  {
    hide Resolve;
  }

  /** A key is stored at most once. */
  lemma KeyOnce<V>(slots: seq<Slot<V>>, h: Hashing, s: nat, t: nat)
    requires WellFormed(slots, h) && s < |slots| && t < |slots|
    requires slots[s].Used? && slots[t].Used? && slots[s].key == slots[t].key
    ensures s == t
  {
    hide Resolve, Passes, WellFormed;
    assert Prime(|slots|) by {
      SizeIsPrime(slots, h);
    }
    var n := AttemptOf(slots, h, s);
    var m := AttemptOf(slots, h, t);
    MetBounds(slots, h, slots[s].key, n, m);
    MetBounds(slots, h, slots[s].key, m, n);
  }

  lemma SizeIsPrime<V>(slots: seq<Slot<V>>, h: Hashing)
    requires WellFormed(slots, h)
    ensures Prime(|slots|) && 2 <= |slots|
  {
  }

  lemma EntryInView<V>(slots: seq<Slot<V>>, h: Hashing, s: nat)
    requires WellFormed(slots, h) && s < |slots| && slots[s].Used?
    ensures slots[s].key in View(slots) && View(slots)[slots[s].key] == slots[s].value
  {
    hide WellFormed;
    var k := slots[s].key;
    assert k in Keys(slots);
    var t := SlotOf(slots, k);
    KeyOnce(slots, h, s, t);
  }

  /** A free slot on the probe sequence proves the key absent. */
  lemma FreeMeansAbsent<V>(slots: seq<Slot<V>>, h: Hashing, k: Key, n: nat)
    requires WellFormed(slots, h) && n < |slots| && Passes(slots, h, k, n)
    requires slots[Resolve(h, k, |slots|, n)].Free?
    ensures k !in Keys(slots)
  {
    hide Resolve, Passes, WellFormed;
    if k in Keys(slots) {
      var s := SlotOf(slots, k);
      var m := AttemptOf(slots, h, s);
      MetBounds(slots, h, k, n, m);
      MetBounds(slots, h, k, m, n);
    }
  }

  /** As many probes as there are keys settle membership: the slots passed hold distinct keys other than `k`. */
  lemma PassesBound<V>(slots: seq<Slot<V>>, h: Hashing, k: Key, n: nat)
    requires WellFormed(slots, h) && n <= |slots| && Passes(slots, h, k, n)
    ensures n <= |Keys(slots)|
    ensures n == |Keys(slots)| ==> k !in Keys(slots)
  {
    hide Resolve, WellFormed;
    SizeIsPrime(slots, h);
    var met := seq(n, i requires 0 <= i < n => slots[Resolve(h, k, |slots|, i)].key);
    forall i, j | 0 <= i < j < n
      ensures met[i] != met[j]
    {
      ProbesDistinct(h, k, |slots|, i, j);
      if met[i] == met[j] {
        KeyOnce(slots, h, Resolve(h, k, |slots|, i), Resolve(h, k, |slots|, j));
      }
    }
    DistinctCount(met);
    SubsetCount(Elements(met), Keys(slots));
  }

  ghost function UsedSlots<V>(slots: seq<Slot<V>>): set<nat> {
    set s: nat | s < |slots| && slots[s].Used?
  }

  lemma CountBound<V>(slots: seq<Slot<V>>, h: Hashing)
    requires WellFormed(slots, h)
    ensures |Keys(slots)| <= |slots|
    ensures |Keys(slots)| == |slots| <==> forall s | 0 <= s < |slots| :: slots[s].Used?
  {
    hide WellFormed;
    var used := UsedSlots(slots);
    KeyCount(slots, h, used);
    assert (set s | s in used :: slots[s].key) == Keys(slots);
    SubsetCount(used, Below(|slots|));
    if |Keys(slots)| == |slots| {
      assert forall s: nat :: s in Below(|slots|) ==> s in used;
    }
    if forall s | 0 <= s < |slots| :: slots[s].Used? {
      assert used == Below(|slots|);
    }
  }

  lemma {:induction false} KeyCount<V>(slots: seq<Slot<V>>, h: Hashing, used: set<nat>)
    requires WellFormed(slots, h) && forall s | s in used :: s < |slots| && slots[s].Used?
    ensures |set s | s in used :: slots[s].key| == |used|
    decreases |used|
  {
    hide WellFormed;
    var keys := set s | s in used :: slots[s].key;
    if used == {} {
      assert keys == {};
    } else {
      var t :| t in used;
      var rest := used - {t};
      KeyCount(slots, h, rest);
      var keys' := set s | s in rest :: slots[s].key;
      assert keys == keys' + {slots[t].key};
      if slots[t].key in keys' {
        var s :| s in rest && slots[s].key == slots[t].key;
        KeyOnce(slots, h, s, t);
      }
    }
  }

  lemma SomewhereStops<V>(slots: seq<Slot<V>>, h: Hashing, k: Key) returns (n: nat)
    requires WellFormed(slots, h)
    requires k in Keys(slots) || |Keys(slots)| < |slots|
    ensures n < |slots| && StopsAt(slots, h, k, n) && Passes(slots, h, k, 0)
  {
    hide Resolve, WellFormed;
    SizeIsPrime(slots, h);
    CountBound(slots, h);
    var s: nat :| s < |slots| && (slots[s].Free? || slots[s].key == k);
    n := ProbesCover(h, k, |slots|, s);
  }

  /** Searching for `k` comes to an end exactly when `k` is stored or some slot is free. */
  lemma SearchStopsIff<V>(slots: seq<Slot<V>>, h: Hashing, k: Key)
    requires WellFormed(slots, h)
    ensures (exists n: nat :: StopsAt(slots, h, k, n)) <==> k in Keys(slots) || |Keys(slots)| < |slots|
  {
    hide Resolve, WellFormed;
    CountBound(slots, h);
    if k in Keys(slots) || |Keys(slots)| < |slots| {
      var n := SomewhereStops(slots, h, k);
    }
  }

  // ---------- storing ----------

  // Slots that only change a value, or fill a slot that was free, keep every probe sequence.
  lemma StillReachable<V>(slots: seq<Slot<V>>, slots': seq<Slot<V>>, h: Hashing, s: nat)
    requires WellFormed(slots, h) && |slots'| == |slots| && s < |slots| && slots[s].Used?
    requires forall t | 0 <= t < |slots| && slots[t].Used? :: slots'[t].Used? && slots'[t].key == slots[t].key
    ensures Reachable(slots', h, s)
  {
    hide Resolve, WellFormed;
    var key := slots[s].key;
    var m := AttemptOf(slots, h, s);
    assert Passes(slots', h, key, m);
  }

  /** Writing a new key to the free slot that ends its probe sequence. */
  lemma StoreFresh<V>(slots: seq<Slot<V>>, h: Hashing, k: Key, v: V, n: nat)
    requires WellFormed(slots, h) && n < |slots| && Passes(slots, h, k, n)
    requires slots[Resolve(h, k, |slots|, n)].Free?
    ensures var slots' := slots[Resolve(h, k, |slots|, n) := Used(k, v)];
            WellFormed(slots', h) && View(slots') == View(slots)[k := v] && k !in View(slots)
  {
    hide Resolve, Prime;
    var t := Resolve(h, k, |slots|, n);
    var slots' := slots[t := Used(k, v)];
    FreeMeansAbsent(slots, h, k, n);
    forall s: nat | s < |slots'| && slots'[s].Used?
      ensures Reachable(slots', h, s)
    {
      if s == t {
        assert Passes(slots', h, k, n);
      } else {
        StillReachable(slots, slots', h, s);
      }
    }
    ViewAfterStore(slots, slots', h, t, k, v);
  }

  /** Overwriting the slot that already holds the key. */
  lemma StoreOver<V>(slots: seq<Slot<V>>, h: Hashing, k: Key, v: V, t: nat)
    requires WellFormed(slots, h) && t < |slots| && slots[t].Used? && slots[t].key == k
    ensures var slots' := slots[t := Used(k, v)];
            WellFormed(slots', h) && View(slots') == View(slots)[k := v] && k in View(slots)
  {
    hide Resolve, Prime, Passes, Reachable;
    var slots' := slots[t := Used(k, v)];
    forall s: nat | s < |slots'| && slots'[s].Used?
      ensures Reachable(slots', h, s)
    {
      StillReachable(slots, slots', h, s);
    }
    EntryInView(slots, h, t);
    ViewAfterStore(slots, slots', h, t, k, v);
  }

  lemma ViewAfterStore<V>(slots: seq<Slot<V>>, slots': seq<Slot<V>>, h: Hashing, t: nat, k: Key, v: V)
    requires WellFormed(slots, h) && WellFormed(slots', h) && t < |slots|
    requires slots' == slots[t := Used(k, v)] && (slots[t].Used? ==> slots[t].key == k)
    ensures View(slots') == View(slots)[k := v]
  {
    hide WellFormed;
    EntryInView(slots', h, t);
    forall key
      ensures key in Keys(slots') <==> key in Keys(slots) || key == k
    {
      if key in Keys(slots) && key != k {
        var s := SlotOf(slots, key);
        assert slots'[s].Used? && slots'[s].key == key;
      }
      assert slots'[t].key == k;
    }
    forall key | key in Keys(slots) && key != k
      ensures View(slots')[key] == View(slots)[key]
    {
      var s := SlotOf(slots, key);
      EntryInView(slots', h, s);
    }
  }
}
