/**
 * Bucket-array sizing (src/hashset.c, get_prime): the smallest number at or
 * above the request that has no divisor between 2 and its integer square root.
 * The C takes the square root in floating point and truncates it; the model
 * uses the exact integer square root, which is what the C computes as long as
 * `double` represents the size exactly.
 */
module Primes {

  /** The integer square root: the largest r with r * r <= n. */
  function Isqrt(n: nat): (r: nat)
    ensures r * r <= n < (r + 1) * (r + 1)
  {
    if n < 4 then (if n == 0 then 0 else 1)
    else
      var h := 2 * Isqrt(n / 4);
      IsqrtStep(n, Isqrt(n / 4));
      if (h + 1) * (h + 1) <= n then h + 1 else h
  }

  /** The root of n / 4, doubled, is the root of n or one below it. */
  lemma IsqrtStep(n: nat, s: nat)
    requires n >= 4 && s * s <= n / 4 < (s + 1) * (s + 1)
    ensures (2 * s) * (2 * s) <= n < (2 * s + 2) * (2 * s + 2)
  {
    assert (2 * s) * (2 * s) == 4 * (s * s);
    assert (2 * s + 2) * (2 * s + 2) == 4 * ((s + 1) * (s + 1));
    assert 4 * (n / 4) <= n < 4 * (n / 4 + 1);
  }

  /** Multiplying by at least one never makes a positive number smaller. */
  lemma MulAtLeast(a: int, b: int)
    requires a > 0 && b >= 1
    ensures a * b >= a
  {
  }

  /** Multiplication by a natural number is monotone. */
  lemma MulMonotone(a: nat, b: nat, c: nat)
    requires a <= b
    ensures a * c <= b * c
  {
  }

  /** Multiplication distributes over subtraction. */
  lemma MulDistributes(d: int, q: int, q': int)
    ensures d * (q - q') == d * q - d * q'
  {
  }

  /** The acceptance test of get_prime: no divisor in [2, isqrt(m)]. */
  ghost predicate NoSmallDivisor(m: nat)
  {
    forall i :: 2 <= i <= Isqrt(m) ==> m % i != 0
  }

  ghost predicate IsPrime(m: nat)
  {
    m >= 2 && forall d :: 2 <= d < m ==> m % d != 0
  }

  /** Division with remainder has exactly one solution. */
  lemma DivModUnique(x: int, d: int, q: int, r: int)
    requires d > 0 && x == d * q + r && 0 <= r < d
    ensures x % d == r && x / d == q
  {
    var q', r' := x / d, x % d;
    assert x == d * q' + r';
    MulDistributes(d, q, q');
    if q > q' {
      MulAtLeast(d, q - q');
    } else if q < q' {
      MulDistributes(d, q', q);
      MulAtLeast(d, q' - q);
    }
  }

  lemma MultipleMod(a: nat, q: nat)
    requires a > 0
    ensures (a * q) % a == 0
  {
    DivModUnique(a * q, a, q, 0);
  }

  /** From 2 on, the integer square root is smaller than the number. */
  lemma IsqrtBelow(m: nat)
    requires m >= 2
    ensures Isqrt(m) < m
  {
    var r := Isqrt(m);
    if r >= m {
      MulMonotone(m, r, r);
      MulMonotone(2, m, m);
    }
  }

  /** A prime passes get_prime's test. */
  lemma PrimeHasNoSmallDivisor(m: nat)
    requires IsPrime(m)
    ensures NoSmallDivisor(m)
  {
    IsqrtBelow(m);
  }

  /**
   * Trial division up to the square root suffices: from 2 on, a number that
   * passes get_prime's test is prime.
   */
  lemma NoSmallDivisorIsPrime(m: nat)
    requires m >= 2 && NoSmallDivisor(m)
    ensures IsPrime(m)
  {
    forall d | 2 <= d < m
      ensures m % d != 0
    {
      if m % d == 0 {
        CofactorIsSmall(m, d);
      }
    }
  }

  /** A number is at least the square of anything at most both of its factors. */
  lemma ProductBound(m: nat, d: nat, e: nat, t: nat)
    requires m == d * e && t <= d && t <= e
    ensures t * t <= m
  {
    MulMonotone(t, d, e);
    MulMonotone(t, e, t);
    assert e * t == t * e;
  }

  /** Of two factors of m, one is at most isqrt(m). */
  lemma SmallFactor(m: nat, d: nat, e: nat)
    requires m == d * e
    ensures d <= Isqrt(m) || e <= Isqrt(m)
  {
    var s := Isqrt(m);
    if d > s && e > s {
      ProductBound(m, d, e, s + 1);
    }
  }

  /** A factor of 0 or 1 gives a product no larger than the other factor. */
  lemma MulAtMostOne(d: nat, e: nat)
    ensures e <= 1 ==> d * e <= d
  {
    if e == 0 {
    } else if e == 1 {
    }
  }

  /** If d divides m, then d or its cofactor m / d is a divisor in [2, isqrt(m)]. */
  lemma CofactorIsSmall(m: nat, d: nat)
    requires 2 <= d < m && m % d == 0
    ensures exists e :: 2 <= e <= Isqrt(m) && m % e == 0
  {
    var e := m / d;
    DivModUnique(m, d, e, 0);
    MulAtMostOne(d, e);
    SmallFactor(m, d, e);
    if d > Isqrt(m) {
      MultipleMod(e, d);
      assert 2 <= e <= Isqrt(m) && m % e == 0;
    }
  }

  function Factorial(n: nat): (r: nat)
    ensures r >= 1
  {
    if n == 0 then 1 else n * Factorial(n - 1)
  }

  lemma {:induction false} FactorialDivisible(n: nat, k: nat)
    requires 1 <= k <= n
    ensures Factorial(n) % k == 0
  {
    if k == n {
      MultipleMod(n, Factorial(n - 1));
    } else {
      FactorialDivisible(n - 1, k);
      var t := Factorial(n - 1) / k;
      DivModUnique(Factorial(n - 1), k, t, 0);
      assert Factorial(n) == k * (n * t);
      MultipleMod(k, n * t);
    }
  }

  /** The least divisor of x that is at least d, given that none lies in [2, d). */
  ghost function LeastFactor(x: nat, d: nat): (q: nat)
    requires 2 <= d <= x
    requires forall j :: 2 <= j < d ==> x % j != 0
    ensures d <= q <= x && x % q == 0
    ensures forall j :: 2 <= j < q ==> x % j != 0
    decreases x - d
  {
    MultipleMod(x, 1);
    if x % d == 0 then d else LeastFactor(x, d + 1)
  }

  /** The least factor of n! + 1: a prime above n (Euclid's argument). */
  ghost function EuclidBound(n: nat): nat
  {
    LeastFactor(Factorial(n) + 1, 2)
  }

  lemma EuclidBoundIsPrimeAbove(n: nat)
    ensures n < EuclidBound(n) && IsPrime(EuclidBound(n))
  {
    var x := Factorial(n) + 1;
    var q := EuclidBound(n);
    if q <= n {
      FactorialDivisible(n, q);
      DivModUnique(x, q, Factorial(n) / q, 1);
    }
    forall j | 2 <= j < q
      ensures q % j != 0
    {
      if q % j == 0 {
        var a, b := q / j, x / q;
        DivModUnique(q, j, a, 0);
        DivModUnique(x, q, b, 0);
        assert x == j * (a * b);
        MultipleMod(j, a * b);
      }
    }
  }

  /** The first number from m on that passes get_prime's test, searching no further than bound. */
  ghost function SearchFrom(m: nat, bound: nat): (r: nat)
    requires m <= bound && NoSmallDivisor(bound)
    ensures m <= r <= bound && NoSmallDivisor(r)
    ensures forall k :: m <= k < r ==> !NoSmallDivisor(k)
    decreases bound - m
  {
    if NoSmallDivisor(m) then m else SearchFrom(m + 1, bound)
  }

  /** r is the smallest number from n on that passes get_prime's test. */
  ghost predicate IsLeastFrom(n: nat, r: nat)
  {
    n <= r && NoSmallDivisor(r) && forall k :: n <= k < r ==> !NoSmallDivisor(k)
  }

  /** The search of get_prime stops: Euclid's prime above n bounds it. */
  lemma LeastFromExists(n: nat)
    ensures exists r :: IsLeastFrom(n, r)
  {
    EuclidBoundIsPrimeAbove(n);
    PrimeHasNoSmallDivisor(EuclidBound(n));
    var r := SearchFrom(n, EuclidBound(n));
    assert IsLeastFrom(n, r);
  }

  /**
   * What get_prime returns: the smallest r >= n with no divisor in
   * [2, isqrt(r)]. For n >= 2 this is the smallest prime at or above n;
   * 0 and 1 are returned unchanged.
   */
  ghost function NextPrime(n: nat): (r: nat)
    ensures n <= r && NoSmallDivisor(r)
    ensures forall k :: n <= k < r ==> !NoSmallDivisor(k)
  {
    LeastFromExists(n);
    var r :| IsLeastFrom(n, r);
    r
  }

  /** The three properties of NextPrime determine it. */
  lemma LeastIsNextPrime(n: nat, r: nat)
    requires n <= r && NoSmallDivisor(r)
    requires forall k :: n <= k < r ==> !NoSmallDivisor(k)
    ensures r == NextPrime(n)
  {
  }

  lemma NextPrimeIsPrime(n: nat)
    requires n >= 2
    ensures IsPrime(NextPrime(n)) && NextPrime(n) >= n
  {
    NoSmallDivisorIsPrime(NextPrime(n));
  }

  /** get_prime leaves a size it produced unchanged. */
  lemma NextPrimeIdempotent(n: nat)
    ensures NextPrime(NextPrime(n)) == NextPrime(n)
  {
    LeastIsNextPrime(NextPrime(n), NextPrime(n));
  }

  /** get_prime(0) == 0 and get_prime(1) == 1: tiny requests are not rounded up to a prime. */
  lemma NextPrimeOfZeroAndOne()
    ensures NextPrime(0) == 0 && NextPrime(1) == 1
  {
    assert Isqrt(0) == 0 && Isqrt(1) == 1;
    LeastIsNextPrime(0, 0);
    LeastIsNextPrime(1, 1);
  }

  /** A request for 10 buckets gets 11. */
  lemma NextPrimeOfTen()
    ensures NextPrime(10) == 11
  {
    assert Isqrt(10) == 3 && Isqrt(11) == 3;
    assert 10 % 2 == 0;
    forall i | 2 <= i <= Isqrt(11)
      ensures 11 % i != 0
    {
      assert i == 2 || i == 3;
    }
    LeastIsNextPrime(10, 11);
  }

  /**
   * get_prime: tries num, num + 1, ... and stops at the first one whose
   * trial division up to its square root finds no divisor.
   */
  method GetPrime(request: nat) returns (num: nat)
    ensures num == NextPrime(request)
  {
    ghost var bound := NextPrime(request);
    num := request;
    while true
      invariant request <= num <= bound
      invariant forall k :: request <= k < num ==> !NoSmallDivisor(k)
      decreases bound - num
    {
      var c := Isqrt(num);
      var i := 2;
      while i <= c && num % i != 0
        invariant 2 <= i && (i <= c + 1 || i == 2)
        invariant forall j :: 2 <= j < i ==> num % j != 0
      {
        i := i + 1;
      }
      if i > c {
        break;
      }
      num := num + 1;
    }
    LeastIsNextPrime(request, num);
  }
}
