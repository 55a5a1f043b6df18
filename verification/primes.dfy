/**
 * Prime numbers as code/primes.hpp uses them: `is_prime` by 6k±1 trial
 * division, the ordered list of primes below a bound (what PrimesStorage
 * accumulates), and `bits_required_for_number`.
 */
module Primes {
  import opened Base
  import Arith

  /** A prime: at least 2 and no divisor strictly between 1 and itself. */
  predicate IsPrime(n: nat)
  {
    n >= 2 && forall d :: 2 <= d < n ==> n % d != 0
  }

  /** d is a positive divisor of n. */
  predicate Divides(d: nat, n: nat)
  {
    d > 0 && n % d == 0
  }

  /** No divisor in [2, bound) below n itself. */
  predicate NoDivisorBelow(n: nat, bound: nat)
  {
    forall d :: 2 <= d < bound ==> n % d != 0
  }

  /** Divisibility is transitive. */
  lemma ModTransitive(a: nat, b: nat, n: nat)
    requires a > 0 && b > 0 && b % a == 0 && n % b == 0
    ensures n % a == 0
  {
    var q, r := n / b, b / a;
    assert n == q * b;
    assert b == r * a;
    assert n == (q * r) * a;
    Arith.MulMod(q * r, a);
  }

  /** A proper divisor is at most half of the number. */
  lemma ProperDivisorAtMostHalf(n: nat, d: nat)
    requires 0 < d < n && n % d == 0
    ensures 2 * d <= n
  {
    var q := n / d;
    assert n == q * d;
  }

  /**
   * A composite number has a divisor no larger than its square root: if
   * nothing below `i` divides n and i*i > n, n is prime.
   */
  lemma PrimeBySquareBound(n: nat, i: nat)
    requires n >= 2 && NoDivisorBelow(n, i) && i * i > n
    ensures IsPrime(n)
  {
    forall d | 2 <= d < n
      ensures n % d != 0
    {
      if n % d == 0 {
        var e := Cofactor(n, d);
        if d >= i && e >= i {
          Arith.MulMonotone(i, d, i);
          Arith.MulMonotone(i, e, d);
          assert false;
        }
      }
    }
  }

  /** The divisor paired with a proper divisor d of n. */
  lemma Cofactor(n: nat, d: nat) returns (e: nat)
    requires 2 <= d < n && n % d == 0
    ensures 2 <= e < n && n % e == 0 && d * e == n
  {
    e := n / d;
    assert n == e * d;
    Arith.MulMod(d, e);
  }

  /**
   * `is_prime` (code/primes.hpp): small cases, then 2 and 3, then the
   * candidates 6k-1 and 6k+1 while their square stays within n.
   */
  method IsPrimeTrial(n: nat) returns (r: bool)
    ensures r == IsPrime(n)
  {
    if n <= 1 {
      return false;
    }
    if n <= 3 {
      return true;
    }
    if n % 2 == 0 || n % 3 == 0 {
      return false;
    }
    var i := 5;
    while i * i <= n
      invariant i >= 5 && i % 6 == 5
      invariant NoDivisorBelow(n, i)
    {
      if n % i == 0 || n % (i + 2) == 0 {
        Arith.MulMonotone(5, i, i);
        return false;
      }
      SkipNonCandidates(n, i);
      i := i + 6;
    }
    PrimeBySquareBound(n, i);
    return true;
  }

  /** i+1, i+3, i+5 are even and i+4 is a multiple of 3, so they cannot divide n. */
  lemma SkipNonCandidates(n: nat, i: nat)
    requires i >= 5 && i % 6 == 5
    requires n % 2 != 0 && n % 3 != 0 && n % i != 0 && n % (i + 2) != 0
    requires NoDivisorBelow(n, i)
    ensures NoDivisorBelow(n, i + 6)
  {
    CandidateGaps(i);
    forall d | 2 <= d < i + 6
      ensures n % d != 0
    {
      if d == i + 1 || d == i + 3 || d == i + 5 {
        if n % d == 0 {
          ModTransitive(2, d, n);
        }
      } else if d == i + 4 {
        if n % d == 0 {
          ModTransitive(3, d, n);
        }
      }
    }
  }

  lemma CandidateGaps(i: nat)
    requires i % 6 == 5
    ensures (i + 1) % 2 == 0 && (i + 3) % 2 == 0 && (i + 5) % 2 == 0 && (i + 4) % 3 == 0
  {
    var m := i / 6;
    Arith.DivMod(i, 6);
    Arith.ModUnique(i + 1, 2, 3 * m + 3, 0);
    Arith.ModUnique(i + 3, 2, 3 * m + 4, 0);
    Arith.ModUnique(i + 5, 2, 3 * m + 5, 0);
    Arith.ModUnique(i + 4, 3, 2 * m + 3, 0);
  }

  /** The primes below `x`, in increasing order. */
  function PrimesBelow(x: nat): seq<nat>
  {
    if x == 0 then []
    else PrimesBelow(x - 1) + (if IsPrime(x - 1) then [x - 1] else [])
  }

  /** The list below x is strictly increasing and holds exactly the primes below x. */
  lemma {:induction false} PrimesBelowFacts(x: nat)
    ensures forall k :: 0 <= k < |PrimesBelow(x)| ==> IsPrime(PrimesBelow(x)[k]) && PrimesBelow(x)[k] < x
    ensures forall k, l :: 0 <= k < l < |PrimesBelow(x)| ==> PrimesBelow(x)[k] < PrimesBelow(x)[l]
    ensures forall p: nat :: p in PrimesBelow(x) <==> p < x && IsPrime(p)
  {
    if x > 0 {
      PrimesBelowFacts(x - 1);
    }
  }

  lemma PrimesBelowStep(n: nat)
    ensures PrimesBelow(n + 1) == PrimesBelow(n) + if IsPrime(n) then [n] else []
  {
  }

  /** Raising the bound only appends primes: the list for a lower bound is a prefix. */
  lemma {:induction false} PrimesBelowPrefix(x: nat, y: nat)
    requires x <= y
    ensures |PrimesBelow(x)| <= |PrimesBelow(y)|
    ensures PrimesBelow(x) == PrimesBelow(y)[..|PrimesBelow(x)|]
    decreases y - x
  {
    if x < y {
      PrimesBelowPrefix(x, y - 1);
    }
  }

  /** Below the k-th prime lie exactly the k primes before it. */
  lemma PrimesBelowIndex(y: nat, k: nat)
    requires k < |PrimesBelow(y)|
    ensures PrimesBelow(PrimesBelow(y)[k]) == PrimesBelow(y)[..k]
  {
    var all := PrimesBelow(y);
    var p := all[k];
    PrimesBelowFacts(y);
    PrimesBelowFacts(p);
    PrimesBelowPrefix(p, y);
    var below := PrimesBelow(p);
    var m := |below|;
    assert below == all[..m];
    if m > 0 {
      // The last prime below p precedes p in the list.
      StrictOrder(all, m - 1, k);
    }
    if k > 0 {
      // The prime just before p in the list lies below p.
      assert all[k - 1] in below;
      var j :| 0 <= j < m && below[j] == all[k - 1];
      StrictOrder(all, j, k - 1);
      StrictOrder(all, k - 1, j);
    }
  }

  /** In a strictly increasing sequence order of values is order of positions. */
  lemma StrictOrder(s: seq<nat>, i: nat, j: nat)
    requires forall k, l :: 0 <= k < l < |s| ==> s[k] < s[l]
    requires i < |s| && j < |s|
    ensures s[i] <= s[j] ==> i <= j
  {
  }

  /**
   * "p is the k-th prime, counting from 0": p is prime and exactly k primes
   * lie below it.
   */
  predicate IsNthPrime(p: nat, k: nat)
  {
    IsPrime(p) && |PrimesBelow(p)| == k
  }

  /** There is at most one k-th prime. */
  lemma NthPrimeUnique(p: nat, q: nat, k: nat)
    requires IsNthPrime(p, k) && IsNthPrime(q, k)
    ensures p == q
  {
    if p < q {
      PrimesBelowStep(p);
      PrimesBelowPrefix(p + 1, q);
      assert false;
    } else if q < p {
      PrimesBelowStep(q);
      PrimesBelowPrefix(q + 1, p);
      assert false;
    }
  }

  /** The k-th prime of a list of all primes below some bound. */
  lemma NthOfPrimesBelow(y: nat, k: nat)
    requires k < |PrimesBelow(y)|
    ensures IsNthPrime(PrimesBelow(y)[k], k)
  {
    PrimesBelowIndex(y, k);
  }

  /** 2 is the first prime. */
  lemma FirstPrimeIsTwo()
    ensures IsNthPrime(2, 0)
  {
    assert PrimesBelow(2) == PrimesBelow(1) == PrimesBelow(0) == [];
  }

  function Factorial(n: nat): (r: nat)
    ensures r >= 1
  {
    if n == 0 then 1 else n * Factorial(n - 1)
  }

  lemma {:induction false} FactorialDivisible(n: nat, d: nat)
    requires 1 <= d <= n
    ensures Factorial(n) % d == 0
  {
    if d == n {
      Arith.MulMod(Factorial(n - 1), n);
    } else {
      var f := Factorial(n - 1);
      var q := f / d;
      FactorialDivisible(n - 1, d);
      Arith.DivMod(f, d);
      assert f == q * d;
      Arith.MulAssoc(n, q, d);
      assert Factorial(n) == (n * q) * d;
      Arith.MulMod(n * q, d);
    }
  }

  /** The least divisor of m that is at least `from`, searched upwards. */
  function LeastDivisorFrom(m: nat, from: nat): (q: nat)
    requires 2 <= from <= m
    requires NoDivisorBelow(m, from)
    ensures from <= q <= m && m % q == 0 && NoDivisorBelow(m, q)
    decreases m - from
  {
    if m % from == 0 then from else LeastDivisorFrom(m, from + 1)
  }

  /** The least divisor above 1 of a number is prime. */
  lemma LeastDivisorIsPrime(m: nat, q: nat)
    requires 2 <= q && m % q == 0 && NoDivisorBelow(m, q)
    ensures IsPrime(q)
  {
    forall e | 2 <= e < q
      ensures q % e != 0
    {
      if q % e == 0 {
        ModTransitive(e, q, m);
      }
    }
  }

  /** A composite number has a prime factor whose square does not exceed it. */
  lemma LeastPrimeFactor(n: nat) returns (p: nat)
    requires n >= 2 && !IsPrime(n)
    ensures IsPrime(p) && n % p == 0 && p * p <= n && p < n
  {
    var d :| 2 <= d < n && n % d == 0;
    p := LeastDivisorFrom(n, 2);
    LeastDivisorIsPrime(n, p);
    assert p <= d;
    LeastDivisorSquare(n, p);
  }

  /** The least proper divisor p of n is at most its cofactor, so p*p <= n. */
  lemma LeastDivisorSquare(n: nat, p: nat)
    requires 2 <= p < n && n % p == 0 && NoDivisorBelow(n, p)
    ensures p * p <= n
  {
    var e := Cofactor(n, p);
    assert p <= e;
    Arith.MulMonotone(p, e, p);
  }

  /** Euclid: above every number there is a prime. */
  lemma PrimeAbove(n: nat) returns (p: nat)
    ensures IsPrime(p) && p > n
  {
    var m := Factorial(n) + 1;
    p := LeastDivisorFrom(m, 2);
    LeastDivisorIsPrime(m, p);
    if p <= n {
      var f := Factorial(n);
      FactorialDivisible(n, p);
      Arith.DivMod(f, p);
      Arith.MulModPlusOne(f / p, p);
      assert false;
    }
  }

  /** For every k some bound has more than k primes below it. */
  lemma {:induction false} EnoughPrimesBelow(k: nat) returns (x: nat)
    ensures |PrimesBelow(x)| > k
  {
    if k == 0 {
      x := 3;
      PrimesBelowFacts(3);
      assert 2 in PrimesBelow(3);
    } else {
      var y := EnoughPrimesBelow(k - 1);
      var p := PrimeAbove(y);
      x := p + 1;
      PrimesBelowPrefix(y, x);
      PrimesBelowFacts(x);
      PrimesBelowFacts(y);
      assert p in PrimesBelow(x);
    }
  }

  /**
   * `bits_required_for_number`: shift the number right until it is zero,
   * counting the shifts. The result is the least b with number < 2^b.
   */
  method BitsRequiredForNumber(number: nat) returns (bits: nat)
    ensures number < Pow2(bits)
    ensures bits > 0 ==> Pow2(bits - 1) <= number
  {
    bits := 0;
    var rest := number;
    while rest != 0
      invariant Pow2(bits) * rest <= number < Pow2(bits) * (rest + 1)
      invariant bits > 0 ==> Pow2(bits - 1) <= number
    {
      ShiftStep(bits, rest, number);
      bits := bits + 1;
      rest := rest / 2;
    }
  }

  /** One right shift keeps the loop's bounds, one bit further on. */
  lemma ShiftStep(bits: nat, rest: nat, number: nat)
    requires rest != 0
    requires Pow2(bits) * rest <= number < Pow2(bits) * (rest + 1)
    ensures Pow2(bits + 1) * (rest / 2) <= number < Pow2(bits + 1) * (rest / 2 + 1)
    ensures Pow2(bits) <= number
  {
    var p := Pow2(bits);
    Arith.MulMonotone(1, rest, p);
    HalveStep(p, rest, number);
  }

  lemma HalveStep(p: nat, rest: nat, number: nat)
    requires p * rest <= number < p * (rest + 1)
    ensures (2 * p) * (rest / 2) <= number < (2 * p) * (rest / 2 + 1)
  {
    var h := rest / 2;
    assert rest == 2 * h || rest == 2 * h + 1;
    assert (2 * p) * h == p * (2 * h);
    assert (2 * p) * (h + 1) == p * (2 * h + 2);
    assert p * (2 * h) <= p * rest;
    assert p * (rest + 1) <= p * (2 * h + 2);
  }

  /** The bit count is determined: any two counts meeting the bounds agree. */
  lemma BitsRequiredUnique(number: nat, a: nat, b: nat)
    requires number < Pow2(a) && (a > 0 ==> Pow2(a - 1) <= number)
    requires number < Pow2(b) && (b > 0 ==> Pow2(b - 1) <= number)
    ensures a == b
  {
    if a < b {
      Pow2Monotone(a, b - 1);
    } else if b < a {
      Pow2Monotone(b, a - 1);
    }
  }

  lemma {:induction false} Pow2Monotone(a: nat, b: nat)
    requires a <= b
    ensures Pow2(a) <= Pow2(b)
    decreases b - a
  {
    if a < b {
      Pow2Monotone(a, b - 1);
    }
  }
}
