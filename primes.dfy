/** Primality as the hash table needs it: the table sizes come from
    `_nextPrime` (VehicleHashTable.py), which steps through odd candidates and
    tests each by trial division with odd divisors up to its integer square
    root.  Probing by double hashing visits every slot only because the size
    is prime, which is why `NoZeroDivisors` is here too. */
module Primes {

  predicate IsPrime(n: int)
  {
    n >= 2 && forall d | 2 <= d < n :: n % d != 0
  }

  /** What the trial division in `_nextPrime` establishes: no odd divisor
      from 3 up to the square root. */
  ghost predicate PassesTrialDivision(n: int)
  {
    forall d | 3 <= d && d * d <= n && d % 2 == 1 :: n % d != 0
  }

  /** `math.isqrt`: the largest `r` with `r * r <= n`. */
  function Isqrt(n: nat): (r: nat)
    ensures r * r <= n < (r + 1) * (r + 1)
  {
    if n == 0 then 0
    else
      var r := Isqrt(n - 1);
      assert (r + 2) * (r + 2) == (r + 1) * (r + 1) + 2 * r + 3;
      if (r + 1) * (r + 1) <= n then r + 1 else r
  }

  // ---------------------------------------------------------------------
  // Divisibility

  /** Quotient and remainder are the only ones. */
  lemma DivModUnique(n: int, d: int, q: int, r: int)
    requires d > 0 && 0 <= r < d && n == d * q + r
    ensures n / d == q && n % d == r
  {
    var q0, r0 := n / d, n % d;
    assert n == d * q0 + r0;
    if q0 > q {
      var k := q0 - q;
      assert d * q0 == d * q + d * k;
      AtLeastOnce(d, k);
    } else if q0 < q {
      var k := q - q0;
      assert d * q == d * q0 + d * k;
      AtLeastOnce(d, k);
    }
  }

  lemma {:induction false} AtLeastOnce(d: int, k: int)
    requires d > 0 && k >= 1
    ensures d * k >= d
    decreases k
  {
    if k > 1 {
      AtLeastOnce(d, k - 1);
      assert d * k == d * (k - 1) + d;
    }
  }

  lemma MultipleMod(a: int, b: int)
    requires a > 0
    ensures (a * b) % a == 0
  {
    DivModUnique(a * b, a, b, 0);
  }

  lemma OnePastMultipleMod(a: int, b: int)
    requires a >= 2
    ensures (a * b + 1) % a == 1
  {
    DivModUnique(a * b + 1, a, b, 1);
  }

  /** Dividend, quotient and remainder. */
  lemma DivModSplit(n: int, d: int)
    requires d > 0
    ensures n == d * (n / d) + n % d && 0 <= n % d < d
  {
  }

  lemma QuotientProduct(n: int, d: int)
    requires d > 0 && n % d == 0
    ensures n == d * (n / d)
  {
  }

  lemma EvenProduct(d: int, q: int)
    requires d % 2 == 0
    ensures (d * q) % 2 == 0
  {
    assert d == 2 * (d / 2);
    assert d * q == 2 * ((d / 2) * q);
    MultipleMod(2, (d / 2) * q);
  }

  /** Multiples of `p` are closed under difference and scaling. */
  lemma DifferenceOfMultiples(p: int, x: int, y: int, k: int)
    requires p > 0 && x % p == 0 && y % p == 0
    ensures (x - k * y) % p == 0
  {
    QuotientProduct(x, p);
    QuotientProduct(y, p);
    assert x - k * y == p * (x / p - k * (y / p));
    MultipleMod(p, x / p - k * (y / p));
  }

  // ---------------------------------------------------------------------
  // Euclid: there is a prime above every number

  function Fact(n: nat): (r: nat)
    ensures r >= 1
  {
    if n == 0 then 1 else n * Fact(n - 1)
  }

  lemma {:induction false} FactDivisible(n: nat, k: int)
    requires 1 <= k <= n
    ensures Fact(n) % k == 0
  {
    if k == n {
      MultipleMod(n, Fact(n - 1));
    } else {
      FactDivisible(n - 1, k);
      var q := Fact(n - 1) / k;
      QuotientProduct(Fact(n - 1), k);
      assert Fact(n) == k * (n * q);
      MultipleMod(k, n * q);
    }
  }

  /** Every number from 2 up has a prime divisor no larger than itself. */
  lemma {:induction false} PrimeFactor(m: int) returns (p: int)
    requires m >= 2
    ensures IsPrime(p) && p <= m && m % p == 0
    decreases m
  {
    if IsPrime(m) {
      p := m;
      MultipleMod(m, 1);
    } else {
      var d :| 2 <= d < m && m % d == 0;
      p := PrimeFactor(d);
      QuotientProduct(m, d);
      QuotientProduct(d, p);
      assert m == p * ((d / p) * (m / d));
      MultipleMod(p, (d / p) * (m / d));
    }
  }

  lemma PrimeAbove(n: nat) returns (p: int)
    ensures IsPrime(p) && p > n
  {
    var m := Fact(n) + 1;
    p := PrimeFactor(m);
    if p <= n {
      FactDivisible(n, p);
      QuotientProduct(Fact(n), p);
      OnePastMultipleMod(p, Fact(n) / p);
    }
  }

  /** The primes above 5 start at 7. */
  lemma PrimeAboveFive(p: int)
    requires IsPrime(p) && p > 5
    ensures p >= 7
  {
    assert p % 2 != 0;
  }

  lemma PrimeAboveTwoIsOdd(p: int)
    requires IsPrime(p) && p > 2
    ensures p % 2 == 1
  {
    assert p % 2 != 0;
  }

  // ---------------------------------------------------------------------
  // Trial division decides primality of odd numbers

  lemma TrialDivisionDecides(n: int)
    requires n >= 3 && n % 2 == 1
    ensures PassesTrialDivision(n) <==> IsPrime(n)
  {
    if IsPrime(n) {
      forall d | 3 <= d && d * d <= n && d % 2 == 1 ensures n % d != 0 {
        MulLe(d, 1, d);
      }
    } else {
      var m := SmallFactor(n);
      assert 3 <= m && m * m <= n && m % 2 == 1 && n % m == 0;
    }
  }

  /** An odd composite has an odd factor from 3 up to its square root. */
  lemma SmallFactor(n: int) returns (m: int)
    requires n >= 3 && n % 2 == 1 && !IsPrime(n)
    ensures 3 <= m && m * m <= n && m % 2 == 1 && n % m == 0
  {
    var d :| 2 <= d < n && n % d == 0;
    var q := n / d;
    QuotientProduct(n, d);
    OddFactors(n, d, q);
    if d <= q {
      m := d;
      MulLe(d, d, q);
    } else {
      m := q;
      MulLe(q, q, d);
      MultipleMod(q, d);
    }
  }

  /** Both factors of an odd number are odd, and the cofactor of a proper
      divisor is at least 3. */
  lemma OddFactors(n: int, d: int, q: int)
    requires n % 2 == 1 && n == d * q && 2 <= d < n
    ensures d % 2 == 1 && q % 2 == 1 && q >= 3
  {
    if d % 2 == 0 {
      EvenProduct(d, q);
      assert false;
    }
    if q <= 0 {
      MulLe(d, q, 0);
      assert false;
    }
    if q % 2 == 0 {
      EvenProduct(q, d);
      assert false;
    }
    assert q != 1;
  }

  lemma MulLe(a: int, b: int, c: int)
    requires a >= 0 && b <= c
    ensures a * b <= a * c
  {
    var k := c - b;
    assert a * c == a * b + a * k;
    assert a * k >= 0;
  }

  // ---------------------------------------------------------------------
  // `_nextPrime`

  /** The least prime above `startVal`: odd candidates from just above
      `startVal`, each tested by trial division with odd divisors up to its
      integer square root.  Only the odd numbers are tried, which is right
      from `startVal >= 2` on. */
  method NextPrime(startVal: int) returns (primeVal: int)
    requires startVal >= 2
    ensures primeVal > startVal && IsPrime(primeVal)
    ensures forall q | startVal < q < primeVal :: !IsPrime(q)
  {
    if startVal % 2 == 0 {
      primeVal := startVal - 1;
    } else {
      primeVal := startVal;
    }
    ghost var bound := PrimeAbove(startVal);
    PrimeAboveTwoIsOdd(bound);
    var isPrime := false;
    while !isPrime
      invariant primeVal % 2 == 1 && startVal - 1 <= primeVal <= bound
      invariant !isPrime ==> primeVal <= startVal || (primeVal < bound && !IsPrime(primeVal))
      invariant isPrime ==> startVal < primeVal && IsPrime(primeVal)
      invariant NoOddPrimeBetween(startVal, primeVal)
      decreases bound - primeVal, if isPrime then 0 else 1
    {
      GapGrows(startVal, primeVal, bound);
      primeVal := primeVal + 2;
      isPrime := TrialDivision(primeVal);
      TrialDivisionDecides(primeVal);
    }
    OnlyOddPrimes(startVal, primeVal);
  }

  ghost predicate NoOddPrimeBetween(lo: int, hi: int)
  {
    forall q | lo < q < hi && q % 2 == 1 :: !IsPrime(q)
  }

  /** Stepping past an odd candidate that is not a prime above `lo`. */
  lemma GapGrows(lo: int, p: int, bound: int)
    requires p % 2 == 1 && bound % 2 == 1 && p < bound
    requires NoOddPrimeBetween(lo, p) && (p <= lo || !IsPrime(p))
    ensures NoOddPrimeBetween(lo, p + 2) && p + 2 <= bound
  {
  }

  lemma OnlyOddPrimes(lo: int, hi: int)
    requires lo >= 2 && NoOddPrimeBetween(lo, hi)
    ensures forall q | lo < q < hi :: !IsPrime(q)
  {
    forall q | lo < q < hi ensures !IsPrime(q) {
      if q % 2 == 0 {
        assert q % 2 == 0;
      }
    }
  }

  /** The inner loop of `_nextPrime`: divides `primeVal` by 3, 5, 7, ... up
      to its integer square root and stops at the first exact division. */
  method TrialDivision(primeVal: int) returns (isPrime: bool)
    requires primeVal >= 3
    ensures isPrime <==> PassesTrialDivision(primeVal)
  {
    var rootVal: int := Isqrt(primeVal);
    var ii;
    isPrime, ii := DivideUpTo(primeVal, rootVal);
    if isPrime {
      NoDivisorBelowRoot(primeVal, ii);
    } else {
      DivisorBelowRoot(primeVal, ii);
    }
  }

  /** The trial-division loop with its bound given: the odd divisors from 3
      to `rootVal`, stopping at the first exact one. */
  method DivideUpTo(primeVal: int, rootVal: int) returns (isPrime: bool, ii: int)
    ensures isPrime ==> rootVal < ii && NoOddDivisorBelow(primeVal, ii)
    ensures !isPrime ==> 3 <= ii <= rootVal && ii % 2 == 1 && primeVal % ii == 0
  {
    ii := 3;
    isPrime := true;
    while ii <= rootVal && isPrime
      invariant 3 <= ii && ii % 2 == 1
      invariant isPrime ==> NoOddDivisorBelow(primeVal, ii)
      invariant !isPrime ==> ii <= rootVal && primeVal % ii == 0
      decreases rootVal + 2 - ii, if isPrime then 1 else 0
    {
      if primeVal % ii == 0 {
        isPrime := false;
      } else {
        OddDivisorStep(primeVal, ii);
        ii := ii + 2;
      }
    }
  }

  /** No odd number from 3 up to `hi` divides `n`. */
  ghost predicate NoOddDivisorBelow(n: int, hi: int)
  {
    forall d | 3 <= d < hi && d % 2 == 1 :: n % d != 0
  }

  lemma OddDivisorStep(n: int, ii: int)
    requires ii % 2 == 1 && NoOddDivisorBelow(n, ii) && n % ii != 0
    ensures NoOddDivisorBelow(n, ii + 2)
  {
    forall d | 3 <= d < ii + 2 && d % 2 == 1 ensures n % d != 0 {
      assert d < ii || d == ii || d == ii + 1;
    }
  }

  lemma NoDivisorBelowRoot(n: nat, ii: int)
    requires Isqrt(n) < ii
    requires NoOddDivisorBelow(n, ii)
    ensures PassesTrialDivision(n)
  {
    forall d | 3 <= d && d * d <= n && d % 2 == 1 ensures n % d != 0 {
      WithinRoot(n, d);
    }
  }

  lemma WithinRoot(n: nat, d: int)
    requires 0 <= d && d * d <= n
    ensures d <= Isqrt(n)
  {
    var r := Isqrt(n);
    if d > r {
      MulLe(d, r + 1, d);
      MulLe(r + 1, r + 1, d);
    }
  }

  lemma DivisorBelowRoot(n: nat, ii: int)
    requires 3 <= ii <= Isqrt(n) && ii % 2 == 1 && n % ii == 0
    ensures !PassesTrialDivision(n)
  {
    var rootVal := Isqrt(n);
    MulLe(ii, ii, rootVal);
    MulLe(rootVal, ii, rootVal);
  }

  /** Two numbers below a prime, both non-zero, have a product the prime does
      not divide. */
  lemma {:induction false} NoZeroDivisors(p: int, a: int, b: int)
    requires IsPrime(p) && 0 < a < p && 0 < b < p
    ensures (a * b) % p != 0
    decreases b
  {
    if b == 1 {
      DivModUnique(a * b, p, 0, a);
    } else if (a * b) % p == 0 {
      var q := p / b;
      var r := p % b;
      assert r != 0;
      assert p == q * b + r;
      MultipleMod(p, a);
      assert a * r == p * a - q * (a * b);
      DifferenceOfMultiples(p, p * a, a * b, q);
      NoZeroDivisors(p, a, r);
    }
  }
}
