/**
 Primality as the service decides it: trial division by 2, by 3, and then by
 the pairs i, i + 2 for i = 5, 11, 17, ... while i * i <= n (the 6k +/- 1
 wheel). The algorithm is given twice, once as the imperative loop the
 service runs (`IsPrimeLoop`) and once as a pure function (`IsPrime`) that
 the reply logic calls; both are proved equal to the textbook definition
 `Prime`.
 */
module Primality {

  /** n is prime: it exceeds 1 and no d with 2 <= d < n divides it. */
  predicate Prime(n: int) {
    n > 1 && forall d :: 2 <= d < n ==> n % d != 0
  }

  /** No d with 2 <= d < bound divides n. */
  predicate NoDivisorBelow(n: int, bound: int) {
    forall d :: 2 <= d < bound ==> n % d != 0
  }

  /* ---------------------------------------------------------------------
     Arithmetic facts about divisibility
     --------------------------------------------------------------------- */

  /** A nonzero multiple of a positive a is at least a in magnitude. */
  lemma ProductBounds(a: int, t: int)
    requires a > 0
    ensures t >= 1 ==> a * t >= a
    ensures t <= -1 ==> a * t <= -a
  {
  }

  /** A multiple of a leaves remainder 0 modulo a. */
  lemma MultipleMod(a: int, k: int)
    requires a > 0
    ensures (a * k) % a == 0
  {
    var m := a * k;
    var q, r := m / a, m % a;
    assert m == a * q + r && 0 <= r < a;
    assert a * (k - q) == r;
    ProductBounds(a, k - q);
  }

  /** A divisor of a divisor of n divides n. */
  lemma DivisorOfDivisor(a: int, k: int, n: int)
    requires a > 0 && k > 0
    requires n % (a * k) == 0
    ensures n % a == 0
  {
    var q := n / (a * k);
    assert n == (a * k) * q;
    assert n == a * (k * q);
    MultipleMod(a, k * q);
  }

  /** Squaring is monotone on positive integers. */
  lemma SquareMonotone(a: int, b: int)
    requires 0 < a <= b
    ensures a * a <= b * b
  {
    assert a * a <= a * b;
  }

  /** Both candidates of a wheel turn lie below i * i. */
  lemma WheelBounds(i: int)
    requires i >= 5
    ensures i + 2 < i * i
  {
    assert i * i >= 5 * i;
  }

  /** A divisor among the candidates of a turn makes n composite. */
  lemma WheelHit(n: int, i: int)
    requires i >= 2 && i + 2 < n
    requires n % i == 0 || n % (i + 2) == 0
    ensures !Prime(n)
  {
    if n % i == 0 {
      assert !NoDivisorBelow(n, n) by { assert 2 <= i < n; }
    } else {
      assert !NoDivisorBelow(n, n) by { assert 2 <= i + 2 < n; }
    }
  }

  /** A composite n has a divisor e with 2 <= e and e * e <= n. */
  lemma SmallDivisor(n: int, d: int) returns (e: int)
    requires 2 <= d < n && n % d == 0
    ensures 2 <= e && e * e <= n && n % e == 0
  {
    var q := n / d;
    assert n == d * q;
    if d * d <= n {
      e := d;
    } else {
      assert d * q < d * d;
      assert q < d;
      assert q * q < q * d;
      MultipleMod(q, d);
      assert n == q * d;
      e := q;
    }
  }

  /** Once i * i exceeds n, the absence of divisors below i settles primality. */
  lemma NoDivisorBeyondRoot(n: int, i: int)
    requires n > 1 && i > 0 && i * i > n
    requires NoDivisorBelow(n, i)
    ensures Prime(n)
  {
    if !Prime(n) {
      var d :| 2 <= d < n && n % d == 0;
      var e := SmallDivisor(n, d);
      if e >= i {
        SquareMonotone(i, e);
      }
    }
  }

  /**
   One turn of the wheel: when i = 6k + 5 and neither i nor i + 2 divides n,
   an n coprime to 6 has no divisor below i + 6 either, because i + 1, i + 3,
   i + 4 and i + 5 are multiples of 2 or 3.
   */
  lemma WheelStep(n: int, i: int)
    requires n % 2 != 0 && n % 3 != 0
    requires i >= 5 && i % 6 == 5
    requires NoDivisorBelow(n, i)
    requires n % i != 0 && n % (i + 2) != 0
    ensures NoDivisorBelow(n, i + 6)
  {
    var k := i / 6;
    assert i == 6 * k + 5;
    if n % (i + 1) == 0 {
      assert i + 1 == 2 * (3 * k + 3);
      DivisorOfDivisor(2, 3 * k + 3, n);
    }
    if n % (i + 3) == 0 {
      assert i + 3 == 2 * (3 * k + 4);
      DivisorOfDivisor(2, 3 * k + 4, n);
    }
    if n % (i + 4) == 0 {
      assert i + 4 == 3 * (2 * k + 3);
      DivisorOfDivisor(3, 2 * k + 3, n);
    }
    if n % (i + 5) == 0 {
      assert i + 5 == 2 * (3 * k + 5);
      DivisorOfDivisor(2, 3 * k + 5, n);
    }
    forall d | 2 <= d < i + 6
      ensures n % d != 0
    {
      if d >= i {
        assert d == i || d == i + 1 || d == i + 2 || d == i + 3 || d == i + 4 || d == i + 5;
      }
    }
  }

  /** Before the loop: an odd n that 3 does not divide has no divisor below 5. */
  lemma WheelStart(n: int)
    requires n % 2 != 0 && n % 3 != 0
    ensures NoDivisorBelow(n, 5)
  {
    if n % 4 == 0 {
      DivisorOfDivisor(2, 2, n);
    }
    forall d | 2 <= d < 5
      ensures n % d != 0
    {
      assert d == 2 || d == 3 || d == 4;
    }
  }

  /* ---------------------------------------------------------------------
     The test
     --------------------------------------------------------------------- */

  /**
   The loop of the test from candidate i on, as a recursive function: true
   when no i, i + 2, i + 6, i + 8, ... up to the square root divides n.
   */
  function WheelScan(n: int, i: int): (r: bool)
    requires n > 3 && n % 2 != 0 && n % 3 != 0
    requires i >= 5 && i % 6 == 5
    requires NoDivisorBelow(n, i)
    ensures r <==> Prime(n)
    decreases n - i
  {
    if i * i > n then
      NoDivisorBeyondRoot(n, i);
      true
    else if n % i == 0 || n % (i + 2) == 0 then
      WheelBounds(i);
      WheelHit(n, i);
      false
    else
      WheelBounds(i);
      WheelStep(n, i);
      assert (i + 6) % 6 == 5;
      WheelScan(n, i + 6)
  }

  /** The primality test of the service, as a pure function of the integer. */
  function IsPrime(n: int): (r: bool)
    ensures r <==> Prime(n)
  {
    if n <= 1 then false
    else if n <= 3 then true
    else if n % 2 == 0 || n % 3 == 0 then false
    else
      WheelStart(n);
      WheelScan(n, 5)
  }

  /** The primality test of the service as the loop it runs. */
  method IsPrimeLoop(n: int) returns (r: bool)
    ensures r <==> Prime(n)
    ensures r == IsPrime(n)
  {
    if n <= 1 {
      return false;
    }
    if n <= 3 {
      return true;
    }
    if n % 2 == 0 || n % 3 == 0 {
      return false;
    }
    WheelStart(n);
    var i := 5;
    while i * i <= n
      invariant i >= 5 && i % 6 == 5
      invariant NoDivisorBelow(n, i)
      decreases n - i
    {
      WheelBounds(i);
      if n % i == 0 || n % (i + 2) == 0 {
        WheelHit(n, i);
        return false;
      }
      WheelStep(n, i);
      i := i + 6;
    }
    NoDivisorBeyondRoot(n, i);
    return true;
  }

  /* ---------------------------------------------------------------------
     Properties
     --------------------------------------------------------------------- */

  /** The early exits of the test: nothing below 2 is prime, 2 and 3 are,
      and a larger multiple of 2 or 3 is not. */
  lemma EarlyExits(n: int)
    ensures n <= 1 ==> !IsPrime(n)
    ensures IsPrime(2) && IsPrime(3)
    ensures n > 3 && (n % 2 == 0 || n % 3 == 0) ==> !IsPrime(n)
  {
    if n > 3 && n % 2 == 0 {
      assert !NoDivisorBelow(n, n) by { assert 2 <= 2 < n && n % 2 == 0; }
    }
    if n > 3 && n % 3 == 0 {
      assert !NoDivisorBelow(n, n) by { assert 2 <= 3 < n && n % 3 == 0; }
    }
  }

  /** Small cases: the primes up to 17 and the composites up to 12. */
  lemma SmallValues()
    ensures IsPrime(2) && IsPrime(3) && IsPrime(5) && IsPrime(7) && IsPrime(11) && IsPrime(13)
    ensures IsPrime(17)
    ensures !IsPrime(4) && !IsPrime(6) && !IsPrime(8) && !IsPrime(9) && !IsPrime(10) && !IsPrime(12)
  {
    assert IsPrime(5) == WheelScan(5, 5);
    assert IsPrime(7) == WheelScan(7, 5);
    assert IsPrime(11) == WheelScan(11, 5);
    assert IsPrime(13) == WheelScan(13, 5);
    assert IsPrime(17) == WheelScan(17, 5);
  }
}
