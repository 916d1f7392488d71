/** Trial division and the next prime, with the number theory the hash tables rest on. */
module Primes {

  ghost predicate Prime(n: int) {
    2 <= n && forall d | 2 <= d < n :: n % d != 0
  }

  // ---------- division ----------

  lemma MulMono(a: int, b: int, d: int)
    requires a <= b && 0 <= d
    ensures a * d <= b * d
  {
    assert 0 <= (b - a) * d;
  }

  lemma UniqueQuotient(d: int, q: int, r: int, q': int, r': int)
    requires 0 <= r < d && 0 <= r' < d && q * d + r == q' * d + r'
    ensures q == q' && r == r'
  {
    if q < q' {
      MulMono(q + 1, q', d);
    } else if q' < q {
      MulMono(q' + 1, q, d);
    }
  }

  lemma DivModUnique(n: int, d: int, q: int, r: int)
    requires 0 < d && 0 <= r < d && n == q * d + r
    ensures n / d == q && n % d == r
  {
    UniqueQuotient(d, q, r, n / d, n % d);
  }

  lemma MultipleIff(n: int, d: int, q: int)
    requires 0 < d && n == q * d
    ensures n % d == 0
  {
    DivModUnique(n, d, q, 0);
  }

  // Both cofactors of a divisor divide, and the smaller one is at most the square root.
  lemma SmallCofactor(x: int, d: int) returns (m: int)
    requires 2 <= d < x && x % d == 0
    ensures 2 <= m <= d && m * m <= x && x % m == 0
  {
    var q := x / d;
    assert x == q * d;
    assert 0 < (q - 1) * d;
    MultipleIff(x, q, d);
    m := if d <= q then d else q;
    if d <= q {
      MulMono(d, q, d);
    } else {
      MulMono(q, d, q);
    }
  }

  // ---------- is_prime ----------

  lemma EvenTimes(x: int, d: int, q: int)
    requires x == q * d && d % 2 == 0
    ensures x % 2 == 0
  {
    var h := d / 2;
    assert q * (2 * h) == 2 * (q * h);
  }

  lemma OddHasNoEvenDivisor(x: int, d: int)
    requires 0 < d && x % 2 == 1 && d % 2 == 0
    ensures x % d != 0
  {
    if x % d == 0 {
      EvenTimes(x, d, x / d);
    }
  }

  // Only divisors up to the square root matter.
  lemma NoSmallDivisor(x: int)
    requires 2 <= x && forall d | 2 <= d && d * d <= x :: x % d != 0
    ensures Prime(x)
  {
    if d :| 2 <= d < x && x % d == 0 {
      var m := SmallCofactor(x, d);
    }
  }

  // No candidate below `i` and up to the root divides.
  ghost predicate Undivided(x: int, i: int) {
    forall d | 2 <= d < i && d * d <= x :: x % d != 0
  }

  lemma UndividedStep(x: int, i: int)
    requires 3 <= i && i % 2 == 1 && x % 2 == 1 && Undivided(x, i) && x % i != 0
    ensures Undivided(x, i + 2)
  {
    OddHasNoEvenDivisor(x, i + 1);
  }

  lemma NoneYet(x: int)
    requires x % 2 == 1
    ensures Undivided(x, 3)
  {
  }

  lemma PastRoot(x: int, i: int)
    requires 2 <= x && 0 < i && i * i > x && Undivided(x, i)
    ensures Prime(x)
  {
    hide Prime;
    forall d | 2 <= d && d * d <= x
      ensures x % d != 0
    {
      if i <= d {
        MulMono(i, d, i);
        MulMono(i, d, d);
      }
    }
    NoSmallDivisor(x);
  }

  lemma SmallCases(x: int)
    ensures x < 4 ==> (Prime(x) <==> 2 <= x)
  {
  }

  lemma Divided(x: int, d: int)
    requires 2 <= d < x && x % d == 0
    ensures !Prime(x)
  {
  }

  lemma BelowSquare(x: int, i: int)
    requires 3 <= i && i * i <= x
    ensures i + 2 <= x
  {
    MulMono(3, i, i);
  }

  method IsPrime(x: int) returns (r: bool)
    ensures r <==> Prime(x)
  {
    hide *;
    SmallCases(x);
    if x < 2 {
      return false;
    }
    if x < 4 {
      return true;
    }
    if x % 2 == 0 {
      Divided(x, 2);
      return false;
    }
    NoneYet(x);
    var i := 3;
    while i * i <= x
      invariant 3 <= i && i % 2 == 1 && Undivided(x, i)
      decreases x - i
    {
      BelowSquare(x, i);
      if x % i == 0 {
        Divided(x, i);
        return false;
      }
      UndividedStep(x, i);
      i := i + 2;
    }
    PastRoot(x, i);
    return true;
  }

  // ---------- there is always a next prime ----------

  ghost function Factorial(n: nat): (f: nat)
    ensures 1 <= f
  {
    if n == 0 then 1 else n * Factorial(n - 1)
  }

  lemma {:induction false} DividesFactorial(n: nat, d: nat)
    requires 1 <= d <= n
    ensures Factorial(n) % d == 0
  {
    if d == n {
      MultipleIff(Factorial(n), n, Factorial(n - 1));
    } else {
      DividesFactorial(n - 1, d);
      var q := Factorial(n - 1) / d;
      assert Factorial(n - 1) == q * d;
      assert Factorial(n) == (n * q) * d;
      MultipleIff(Factorial(n), d, n * q);
    }
  }

  lemma {:induction false} PrimeDivisor(n: int, d: int) returns (p: int)
    requires 2 <= d <= n && n % d == 0
    ensures Prime(p) && p <= d && n % p == 0
    decreases d
  {
    if Prime(d) {
      p := d;
    } else {
      var e :| 2 <= e < d && d % e == 0;
      var q, r := n / d, d / e;
      assert n == d * q && d == e * r;
      assert n == (r * q) * e;
      MultipleIff(n, e, r * q);
      p := PrimeDivisor(n, e);
    }
  }

  /** Beyond every bound there is a prime. */
  lemma PrimeAbove(x: int) returns (p: int)
    ensures Prime(p) && x <= p
  {
    if x <= 2 {
      p := 2;
    } else {
      var f := Factorial(x);
      p := PrimeDivisor(f + 1, f + 1);
      if p < x {
        DividesFactorial(x, p);
        assert f == (f / p) * p;
        DivModUnique(f + 1, p, f / p, 1);
      }
    }
  }

  method NextPrime(start: int) returns (p: int)
    ensures Prime(p) && start <= p
    ensures forall q | start <= q < p :: !Prime(q)
  {
    ghost var bound := PrimeAbove(start);
    p := start;
    var found := IsPrime(p);
    while !found
      invariant found <==> Prime(p)
      invariant start <= p <= bound && forall q | start <= q < p :: !Prime(q)
      decreases bound - p, !found
    {
      p := p + 1;
      found := IsPrime(p);
    }
  }

  lemma TwoIsPrime()
    ensures Prime(2)
  {
  }

  // A prime is its own next prime.
  lemma StartIsPrime(start: int, p: int)
    requires Prime(start) && Prime(p) && start <= p && forall q | start <= q < p :: !Prime(q)
    ensures p == start
  {
  }

  // ---------- a prime modulus has no zero divisors ----------

  /** Euclid: a prime does not divide a product of two smaller factors. */
  lemma {:induction false} NoZeroDivisors(p: int, k: int, b: int)
    requires Prime(p) && 0 < k < p && 0 < b < p
    ensures (k * b) % p != 0
    decreases b
  {
    if b == 1 {
      assert k * b == k;
    } else if (k * b) % p == 0 {
      var c := (k * b) / p;
      var q, r := p / b, p % b;
      assert k * b == c * p && p == q * b + r;
      assert k * r == (k - q * c) * p by {
        assert k * r == k * p - q * (k * b);
        assert q * (c * p) == (q * c) * p;
      }
      MultipleIff(k * r, p, k - q * c);
      NoZeroDivisors(p, k, r);
    }
  }

  // ---------- primes within a factor of two, up to the range of the C ints ----------

  predicate Clears(x: nat, d: nat)
    requires 0 < d
  {
    d * d > x || x % d != 0
  }

  // Odd trial division from `i` on, eight candidates at a time.
  function Trial(x: nat, i: nat): bool
    requires 0 < i
    decreases x - i
  {
    || i * i > x
    || (&& Clears(x, i) && Clears(x, i + 2) && Clears(x, i + 4) && Clears(x, i + 6)
        && Clears(x, i + 8) && Clears(x, i + 10) && Clears(x, i + 12) && Clears(x, i + 14)
        && (MulMono(1, i, i); Trial(x, i + 16)))
  }

  // The odd candidates of one round.
  lemma RoundClears(x: nat, i: nat, d: nat)
    requires 3 <= i <= d < i + 16 && i % 2 == 1 && d % 2 == 1
    requires d * d <= x && i * i <= x && Trial(x, i)
    ensures x % d != 0
  {
    assert Clears(x, d) by {
      hide Clears;
      assert d == i || d == i + 2 || d == i + 4 || d == i + 6
          || d == i + 8 || d == i + 10 || d == i + 12 || d == i + 14;
    }
  }

  lemma RoundPasses(x: nat, i: nat)
    requires 3 <= i && i % 2 == 1 && x % 2 == 1 && i * i <= x && Trial(x, i) && Undivided(x, i)
    ensures Undivided(x, i + 16)
  {
    hide Trial;
    forall d | 2 <= d < i + 16 && d * d <= x
      ensures x % d != 0
    {
      if d % 2 == 0 {
        OddHasNoEvenDivisor(x, d);
      } else if i <= d {
        RoundClears(x, i, d);
      }
    }
  }

  lemma NextRound(x: nat, i: nat)
    requires 0 < i && i * i <= x && Trial(x, i)
    ensures i <= x && Trial(x, i + 16)
  {
    hide Clears;
    MulMono(1, i, i);
  }

  lemma {:induction false} TrialDecides(x: nat, i: nat)
    requires 3 <= i && i % 2 == 1 && x % 2 == 1 && 3 <= x && Trial(x, i) && Undivided(x, i)
    ensures Prime(x)
    decreases x - i
  {
    hide *;
    if i * i > x {
      PastRoot(x, i);
    } else {
      NextRound(x, i);
      RoundPasses(x, i);
      TrialDecides(x, i + 16);
    }
  }

  // Each at most twice the one before; the last one is the largest whose square fits a 32-bit int.
  const LADDER: seq<nat> :=
    [2, 3, 5, 7, 13, 23, 43, 83, 163, 317, 631, 1259, 2503, 4999, 9973, 19937, 39869, 46337]

  const MAX_CAPACITY := 46337

  lemma LargeCapacity()
    ensures 2000 < MAX_CAPACITY
  {
  }

  lemma LowRungs(k: nat)
    requires 2 <= k < 11
    ensures Trial(LADDER[k], 3) && LADDER[k] % 2 == 1
  {
    assert Trial(5, 3) && Trial(7, 3) && Trial(13, 3) && Trial(23, 3) && Trial(43, 3) && Trial(83, 3);
    assert Trial(163, 3) && Trial(317, 3) && Trial(631, 3);
  }

  lemma MiddleRungs()
    ensures Trial(1259, 3) && Trial(2503, 3) && Trial(4999, 3)
  {
  }

  lemma UpperRungs()
    ensures Trial(9973, 3) && Trial(19937, 3)
  {
  }

  lemma HighRungs()
    ensures Trial(39869, 3) && Trial(46337, 3)
  {
    HighStart();
    assert Trial(39869, 3) && Trial(46337, 3);
  }

  lemma HighStart()
    ensures Trial(39869, 99) && Trial(46337, 99)
  {
  }

  lemma LadderIsPrime(k: nat)
    requires k < |LADDER|
    ensures Prime(LADDER[k])
  {
    hide Trial;
    if k >= 2 {
      if k < 11 {
        LowRungs(k);
      } else {
        MiddleRungs();
        UpperRungs();
        HighRungs();
      }
      TrialDecides(LADDER[k], 3);
    }
  }

  /** In the range the C ints allow, the next prime is less than twice its start. */
  lemma NextPrimeBelowDouble(b: nat, p: nat)
    requires 2 <= b <= MAX_CAPACITY && b <= p
    requires forall q | b <= q < p :: !Prime(q)
    ensures p < 2 * b && p <= MAX_CAPACITY
  {
    var k := 0;
    while LADDER[k] < b
      invariant k < |LADDER| && forall j | 0 <= j < k :: LADDER[j] < b
      decreases |LADDER| - k
    {
      k := k + 1;
    }
    LadderIsPrime(k);
    assert k > 0 ==> LADDER[k] < 2 * LADDER[k - 1];
    assert LADDER[k] <= MAX_CAPACITY;
  }
}
