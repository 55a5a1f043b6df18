/**
 * FactorizedNumber of code/primes.hpp: a natural number held as a list of
 * (power, prime index) pairs, where prime index k names the k-th prime
 * (0-based, so index 0 is 2). The empty list is zero; one is the single
 * pair (power 0, index 0). Construction factorizes by trial division with
 * the primes of a PrimesStorage, and `mul` merges two lists.
 */
module Factorized {
  import opened Primes
  import PrimeSieve
  import Sorting
  import Arith

  datatype PrimeAndPower = PrimeAndPower(power: nat, primeIndex: nat)

  /** `m_negative` is always false: no operation of the class sets it. */
  datatype FactorizedNumber = FactorizedNumber(factors: seq<PrimeAndPower>, negative: bool)

  lemma NthPrimeExists(k: nat)
    ensures exists p :: IsNthPrime(p, k)
  {
    var x := EnoughPrimesBelow(k);
    NthOfPrimesBelow(x, k);
  }

  /** The k-th prime, counting from 0. */
  ghost function NthPrime(k: nat): (p: nat)
    ensures p >= 2
  {
    NthPrimeExists(k);
    var p :| IsNthPrime(p, k);
    p
  }

  /** NthPrime(k) is the prime with exactly k primes below it. */
  lemma NthPrimeIsNth(k: nat)
    ensures IsNthPrime(NthPrime(k), k)
  {
  }

  /** Any prime with k primes below it is NthPrime(k). */
  lemma NthPrimeOf(p: nat, k: nat)
    requires IsNthPrime(p, k)
    ensures NthPrime(k) == p
  {
    NthPrimeIsNth(k);
    NthPrimeUnique(p, NthPrime(k), k);
  }

  function NatPow(b: nat, e: nat): nat
  {
    if e == 0 then 1 else b * NatPow(b, e - 1)
  }

  lemma {:induction false} NatPowAdd(b: nat, e: nat, f: nat)
    ensures NatPow(b, e + f) == NatPow(b, e) * NatPow(b, f)
    decreases e
  {
    if e > 0 {
      NatPowAdd(b, e - 1, f);
      Arith.MulAssoc(b, NatPow(b, e - 1), NatPow(b, f));
    }
  }

  lemma {:induction false} NatPowPositive(b: nat, e: nat)
    requires b >= 1
    ensures NatPow(b, e) >= 1
  {
    if e > 0 {
      NatPowPositive(b, e - 1);
      Arith.MulMonotone(1, b, NatPow(b, e - 1));
    }
  }

  /** What one pair contributes: its prime raised to its power. */
  ghost function Weight(f: PrimeAndPower): nat
  {
    NatPow(NthPrime(f.primeIndex), f.power)
  }

  /** `defactorize`'s meaning: the product of the weights of all pairs. */
  ghost function Value(fs: seq<PrimeAndPower>): nat
  {
    if |fs| == 0 then 1 else Weight(fs[0]) * Value(fs[1..])
  }

  /** `to_number`'s meaning: zero for the empty list, otherwise the signed product. */
  ghost function Number(n: FactorizedNumber): int
  {
    if |n.factors| == 0 then 0
    else if n.negative then -(Value(n.factors) as int)
    else Value(n.factors)
  }

  lemma {:induction false} ValueAppend(a: seq<PrimeAndPower>, b: seq<PrimeAndPower>)
    ensures Value(a + b) == Value(a) * Value(b)
  {
    if |a| == 0 {
      assert a + b == b;
    } else {
      assert (a + b)[1..] == a[1..] + b;
      ValueAppend(a[1..], b);
      Arith.MulAssoc(Weight(a[0]), Value(a[1..]), Value(b));
    }
  }

  /** The product over a list depends only on the multiset of its pairs. */
  lemma {:induction false} ValuePermutation(a: seq<PrimeAndPower>, b: seq<PrimeAndPower>)
    requires multiset(a) == multiset(b)
    ensures Value(a) == Value(b)
    decreases |a|
  {
    if |a| == 0 {
      assert |b| == |multiset(b)| == 0;
    } else {
      var x := a[0];
      assert x in multiset(b);
      var k :| 0 <= k < |b| && b[k] == x;
      var rest := b[..k] + b[k + 1..];
      assert a == [x] + a[1..];
      RemoveAt(b, k);
      ValuePermutation(a[1..], rest);
      ValueRemoveAt(b, k);
    }
  }

  /** Taking out the pair at k takes one copy of it out of the multiset. */
  lemma RemoveAt(b: seq<PrimeAndPower>, k: nat)
    requires k < |b|
    ensures multiset(b[..k] + b[k + 1..]) == multiset(b) - multiset{b[k]}
  {
    assert b == b[..k] + [b[k]] + b[k + 1..];
  }

  /** The product over a list is the weight of the pair at k times the product over the others. */
  lemma ValueRemoveAt(b: seq<PrimeAndPower>, k: nat)
    requires k < |b|
    ensures Value(b) == Weight(b[k]) * Value(b[..k] + b[k + 1..])
  {
    var p, q, w := Value(b[..k]), Value(b[k + 1..]), Weight(b[k]);
    assert b[..k] + b[k..] == b;
    ValueAppend(b[..k], b[k..]);
    assert b[k..][0] == b[k] && b[k..][1..] == b[k + 1..];
    assert Value(b[k..]) == w * q;
    ValueAppend(b[..k], b[k + 1..]);
    Arith.MulAssoc(p, w, q);
    Arith.MulRearrange(p, w, q);
  }

  lemma {:induction false} ValuePositive(fs: seq<PrimeAndPower>)
    ensures Value(fs) >= 1
  {
    if |fs| > 0 {
      ValuePositive(fs[1..]);
      NatPowPositive(NthPrime(fs[0].primeIndex), fs[0].power);
      Arith.MulMonotone(1, Weight(fs[0]), Value(fs[1..]));
    }
  }

  /** Prime indices strictly increase along the list. */
  predicate Ordered(fs: seq<PrimeAndPower>)
  {
    forall t, u :: 0 <= t < u < |fs| ==> fs[t].primeIndex < fs[u].primeIndex
  }

  predicate NoZeroPowers(fs: seq<PrimeAndPower>)
  {
    forall t :: 0 <= t < |fs| ==> fs[t].power >= 1
  }

  const One: FactorizedNumber := FactorizedNumber([PrimeAndPower(0, 0)], false)

  /** `is_zero`. */
  predicate IsZero(n: FactorizedNumber)
  {
    |n.factors| == 0
  }

  /** `is_one`: a single pair whose power is 0. */
  predicate IsOne(n: FactorizedNumber)
  {
    |n.factors| == 1 && n.factors[|n.factors| - 1].power == 0
  }

  /** Every number the class can hold: zero, one, or an ordered list of positive powers. */
  predicate WellFormed(n: FactorizedNumber)
  {
    !n.negative && (IsZero(n) || n == One || (Ordered(n.factors) && NoZeroPowers(n.factors)))
  }

  /** Zero reads as 0 and one reads as 1. */
  lemma ZeroAndOne()
    ensures Number(FactorizedNumber([], false)) == 0
    ensures Number(One) == 1 && IsOne(One) && !IsZero(One)
  {
    assert One.factors[1..] == [];
  }

  /** The least prime factor of v has an index below v; the trial division cannot run past it. */
  lemma TrialIndexBound(v: nat, i: nat)
    requires v > 1
    requires forall j :: 0 <= j < i ==> v % NthPrime(j) != 0
    ensures i < v
  {
    var q: nat;
    if IsPrime(v) {
      q := v;
    } else {
      q := LeastPrimeFactor(v);
    }
    var k := |PrimesBelow(q)|;
    NthPrimeOf(q, k);
    PrimesBelowLength(q);
  }

  /** The list below x has at most x - 1 entries (0 is not prime). */
  lemma {:induction false} PrimesBelowLength(x: nat)
    requires x >= 1
    ensures |PrimesBelow(x)| <= x - 1
  {
    if x > 1 {
      PrimesBelowLength(x - 1);
    }
  }

  /** Dividing out one more factor p keeps the product with p^count. */
  lemma DivideOut(v: nat, p: nat, count: nat, v0: nat)
    requires p >= 2 && v >= 1 && v % p == 0 && v * NatPow(p, count) == v0
    ensures 1 <= v / p < v && (v / p) * NatPow(p, count + 1) == v0
  {
    var q := v / p;
    Arith.DivMod(v, p);
    assert v == q * p;
    calc {
      q * NatPow(p, count + 1);
      q * (p * NatPow(p, count));
      (q * p) * NatPow(p, count);
    }
  }

  /** A divisor of v also divides any multiple of v, so a non-divisor of v*c cannot divide v. */
  lemma NotDividesFactor(d: nat, v: nat, c: nat)
    requires d > 0 && v >= 1 && c >= 1 && (v * c) % d != 0
    ensures v % d != 0
  {
    if v % d == 0 {
      Arith.MulMod(c, v);
      assert (v * c) % v == 0;
      Primes.ModTransitive(d, v, v * c);
    }
  }

  /**
   * The constructor with a storage: 0 gives the empty list, 1 gives (0, 0),
   * and larger values are divided by the primes of the storage, in order,
   * recording each prime that divides with its multiplicity, until 1 is left.
   */
  method Factorize(st: PrimeSieve.Storage, value: nat) returns (n: FactorizedNumber, r: PrimeSieve.Storage)
    requires PrimeSieve.Valid(st)
    ensures PrimeSieve.Valid(r)
    ensures WellFormed(n) && Number(n) == value
    ensures value == 0 <==> IsZero(n)
    ensures value == 1 <==> n == One
  {
    r := st;
    if value == 0 {
      ZeroAndOne();
      return FactorizedNumber([], false), r;
    }
    if value == 1 {
      ZeroAndOne();
      return One, r;
    }
    var fs: seq<PrimeAndPower> := [];
    var v := value;
    var i := 0;
    while v > 1
      invariant PrimeSieve.Valid(r) && TrialState(value, v, fs, i)
      decreases value - i
    {
      var prime;
      prime, r := PrimeSieve.GetPrime(r, i);
      NthPrimeOf(prime, i);
      ghost var v0, fs0 := v, fs;
      var count;
      v, count := DivideAll(v, prime);
      if count > 0 {
        fs := fs + [PrimeAndPower(count, i)];
      }
      TrialStep(fs0, fs, v, v0, prime, count, i, value);
      i := i + 1;
    }
    n := FactorizedNumber(fs, false);
    TrialDone(fs, i, value);
  }

  /**
   * The state of the trial division at prime index i: v times the pairs
   * recorded so far is the value, the pairs are ordered by index below i,
   * and no prime with index below i divides what is left.
   */
  ghost predicate TrialState(value: nat, v: nat, fs: seq<PrimeAndPower>, i: nat)
  {
    && v >= 1 && v * Value(fs) == value
    && Ordered(fs) && NoZeroPowers(fs)
    && (forall t :: 0 <= t < |fs| ==> fs[t].primeIndex < i)
    && (forall j :: 0 <= j < i ==> v % NthPrime(j) != 0)
    && (v > 1 ==> i < value)
  }

  /** Dividing out the i-th prime moves the trial division on to index i + 1. */
  lemma TrialStep(fs0: seq<PrimeAndPower>, fs: seq<PrimeAndPower>, v: nat, v0: nat, prime: nat, count: nat, i: nat, value: nat)
    requires TrialState(value, v0, fs0, i) && v0 > 1
    requires prime == NthPrime(i)
    requires fs == if count > 0 then fs0 + [PrimeAndPower(count, i)] else fs0
    requires v >= 1 && v * NatPow(prime, count) == v0 && v % prime != 0
    ensures TrialState(value, v, fs, i + 1)
  {
    ExtendFactors(fs0, fs, v, v0, prime, count, i, value);
    if v > 1 {
      TrialIndexBound(v, i + 1);
      FactorBound(v, fs, value);
    }
  }

  /** Once 1 is left, the recorded pairs are the factorization of a value of at least 2. */
  lemma TrialDone(fs: seq<PrimeAndPower>, i: nat, value: nat)
    requires value >= 2 && TrialState(value, 1, fs, i)
    ensures WellFormed(FactorizedNumber(fs, false)) && Number(FactorizedNumber(fs, false)) == value
    ensures !IsZero(FactorizedNumber(fs, false)) && FactorizedNumber(fs, false) != One
  {
    ValueAtLeastTwo(fs, value);
  }

  /** Divide `v` by `prime` while it divides, counting the divisions. */
  method DivideAll(v0: nat, prime: nat) returns (v: nat, count: nat)
    requires v0 >= 1 && prime >= 2
    ensures v >= 1 && v * NatPow(prime, count) == v0 && v % prime != 0
  {
    v, count := v0, 0;
    while v % prime == 0
      invariant 1 <= v && v * NatPow(prime, count) == v0
      decreases v
    {
      DivideOut(v, prime, count, v0);
      v := v / prime;
      count := count + 1;
    }
  }

  /** The bookkeeping of one trial division step, kept out of the loop body. */
  lemma ExtendFactors(fs0: seq<PrimeAndPower>, fs: seq<PrimeAndPower>, v: nat, v0: nat, prime: nat, count: nat, i: nat, value: nat)
    requires prime == NthPrime(i)
    requires fs == if count > 0 then fs0 + [PrimeAndPower(count, i)] else fs0
    requires v >= 1 && v * NatPow(prime, count) == v0 && v % prime != 0
    requires v0 * Value(fs0) == value
    requires Ordered(fs0) && NoZeroPowers(fs0) && forall t :: 0 <= t < |fs0| ==> fs0[t].primeIndex < i
    requires forall j :: 0 <= j < i ==> v0 % NthPrime(j) != 0
    ensures v * Value(fs) == value
    ensures Ordered(fs) && NoZeroPowers(fs)
    ensures forall t :: 0 <= t < |fs| ==> fs[t].primeIndex < i + 1
    ensures forall j :: 0 <= j < i + 1 ==> v % NthPrime(j) != 0
  {
    ExtendValue(fs0, fs, v, v0, prime, count, i, value);
    ExtendOrdered(fs0, fs, count, i);
    ExtendCoprime(v, v0, prime, count, i);
  }

  lemma ExtendOrdered(fs0: seq<PrimeAndPower>, fs: seq<PrimeAndPower>, count: nat, i: nat)
    requires fs == if count > 0 then fs0 + [PrimeAndPower(count, i)] else fs0
    requires Ordered(fs0) && NoZeroPowers(fs0) && forall t :: 0 <= t < |fs0| ==> fs0[t].primeIndex < i
    ensures Ordered(fs) && NoZeroPowers(fs)
    ensures forall t :: 0 <= t < |fs| ==> fs[t].primeIndex < i + 1
  {
  }

  lemma ExtendCoprime(v: nat, v0: nat, prime: nat, count: nat, i: nat)
    requires prime == NthPrime(i)
    requires v >= 1 && v * NatPow(prime, count) == v0 && v % prime != 0
    requires forall j :: 0 <= j < i ==> v0 % NthPrime(j) != 0
    ensures forall j :: 0 <= j < i + 1 ==> v % NthPrime(j) != 0
  {
    NatPowPositive(prime, count);
    forall j | 0 <= j < i
      ensures v % NthPrime(j) != 0
    {
      NotDividesFactor(NthPrime(j), v, NatPow(prime, count));
    }
  }

  lemma ExtendValue(fs0: seq<PrimeAndPower>, fs: seq<PrimeAndPower>, v: nat, v0: nat, prime: nat, count: nat, i: nat, value: nat)
    requires prime == NthPrime(i)
    requires fs == if count > 0 then fs0 + [PrimeAndPower(count, i)] else fs0
    requires v * NatPow(prime, count) == v0
    requires v0 * Value(fs0) == value
    ensures v * Value(fs) == value
  {
    var w := NatPow(prime, count);
    if count > 0 {
      var f := PrimeAndPower(count, i);
      ValueAppend(fs0, [f]);
      assert [f][1..] == [];
      assert Value([f]) == w;
      assert Value(fs) == Value(fs0) * w;
      ProductStep(v, Value(fs0), w, v0, value);
    } else {
      assert w == 1;
      assert v == v0;
    }
  }

  lemma ProductStep(v: int, a: int, w: int, v0: int, value: int)
    requires v * w == v0 && v0 * a == value
    ensures v * (a * w) == value
  {
    Arith.MulRearrange(a, v, w);
    Arith.MulAssoc(a, v, w);
  }

  /** A factor of a product with a positive-valued list is at most the product. */
  lemma FactorBound(v: nat, fs: seq<PrimeAndPower>, value: nat)
    requires v * Value(fs) == value
    ensures v <= value
  {
    ValuePositive(fs);
    Arith.MulAtLeast(Value(fs), v);
  }

  /** The factor list of a value of at least 2 is not empty and not One. */
  lemma ValueAtLeastTwo(fs: seq<PrimeAndPower>, value: nat)
    requires value >= 2 && Value(fs) == value && NoZeroPowers(fs)
    ensures |fs| > 0 && FactorizedNumber(fs, false) != One
  {
  }

  /**
   * `defactorize`: multiply, pair by pair, the pair's prime as many times
   * as its power, fetching each prime from the storage.
   */
  method Defactorize(st: PrimeSieve.Storage, fs: seq<PrimeAndPower>) returns (v: nat, r: PrimeSieve.Storage)
    requires PrimeSieve.Valid(st)
    ensures PrimeSieve.Valid(r)
    ensures v == Value(fs)
  {
    r := st;
    v := 1;
    var k := |fs|;
    // The product is accumulated from the back so that each step extends Value's recursion.
    while k > 0
      invariant 0 <= k <= |fs|
      invariant PrimeSieve.Valid(r)
      invariant v == Value(fs[k..])
    {
      k := k - 1;
      var f := fs[k];
      var c := 0;
      var w := 1;
      while c < f.power
        invariant c <= f.power && PrimeSieve.Valid(r)
        invariant w == NatPow(NthPrime(f.primeIndex), c)
      {
        var prime;
        prime, r := PrimeSieve.GetPrime(r, f.primeIndex);
        NthPrimeOf(prime, f.primeIndex);
        NatPowAdd(prime, c, 1);
        w := w * prime;
        c := c + 1;
      }
      assert fs[k..][1..] == fs[k + 1..];
      v := w * v;
    }
  }

  /** `to_number`: 0 for the empty list, otherwise the (signed) product. */
  method ToNumber(st: PrimeSieve.Storage, n: FactorizedNumber) returns (x: int, r: PrimeSieve.Storage)
    requires PrimeSieve.Valid(st)
    ensures PrimeSieve.Valid(r)
    ensures x == Number(n)
  {
    r := st;
    if |n.factors| == 0 {
      return 0, r;
    }
    var v;
    v, r := Defactorize(r, n.factors);
    x := if n.negative then -(v as int) else v;
  }

  /** The exponent of prime index k that one pair contributes. */
  function PowerAt(k: nat): PrimeAndPower -> int
  {
    (f: PrimeAndPower) => if f.primeIndex == k then f.power else 0
  }

  /** The exponent of the k-th prime in the product a list denotes. */
  function Exponent(fs: seq<PrimeAndPower>, k: nat): int
  {
    Sorting.SumBy(fs, PowerAt(k))
  }

  /** The sort key of `mul`: the prime index. */
  function ByIndex(f: PrimeAndPower): int
  {
    f.primeIndex
  }

  /** No two pairs name the same prime. */
  predicate Distinct(fs: seq<PrimeAndPower>)
  {
    forall t, u :: 0 <= t < u < |fs| ==> fs[t].primeIndex != fs[u].primeIndex
  }

  /** `std::ranges::remove` on a zero power followed by `erase`: the other pairs, in order. */
  function RemoveZeroPowers(fs: seq<PrimeAndPower>): (r: seq<PrimeAndPower>)
    ensures NoZeroPowers(r)
    ensures forall y :: y in r <==> y in fs && y.power != 0
  {
    if |fs| == 0 then []
    else
      assert fs == [fs[0]] + fs[1..];
      (if fs[0].power != 0 then [fs[0]] else []) + RemoveZeroPowers(fs[1..])
  }

  /** Dropping pairs with power 0 changes neither the product nor any exponent. */
  lemma RemoveZeroKeeps(fs: seq<PrimeAndPower>)
    ensures Value(RemoveZeroPowers(fs)) == Value(fs)
    ensures forall k: nat :: Exponent(RemoveZeroPowers(fs), k) == Exponent(fs, k)
  {
    RemoveZeroValue(fs);
    forall k: nat
      ensures Exponent(RemoveZeroPowers(fs), k) == Exponent(fs, k)
    {
      RemoveZeroExponent(fs, k);
    }
  }

  lemma {:induction false} RemoveZeroValue(fs: seq<PrimeAndPower>)
    ensures Value(RemoveZeroPowers(fs)) == Value(fs)
  {
    if |fs| > 0 {
      RemoveZeroValue(fs[1..]);
      var rest := RemoveZeroPowers(fs[1..]);
      if fs[0].power != 0 {
        assert ([fs[0]] + rest)[0] == fs[0];
        assert ([fs[0]] + rest)[1..] == rest;
      } else {
        assert [] + rest == rest;
        assert Weight(fs[0]) == 1;
      }
    }
  }

  lemma {:induction false} RemoveZeroExponent(fs: seq<PrimeAndPower>, k: nat)
    ensures Exponent(RemoveZeroPowers(fs), k) == Exponent(fs, k)
  {
    if |fs| > 0 {
      RemoveZeroExponent(fs[1..], k);
      var rest := RemoveZeroPowers(fs[1..]);
      if fs[0].power != 0 {
        assert ([fs[0]] + rest)[0] == fs[0];
        assert ([fs[0]] + rest)[1..] == rest;
      } else {
        assert [] + rest == rest;
      }
    }
  }

  lemma {:induction false} RemoveZeroDistinct(fs: seq<PrimeAndPower>)
    requires Distinct(fs)
    ensures Distinct(RemoveZeroPowers(fs))
  {
    if |fs| > 0 {
      RemoveZeroDistinct(fs[1..]);
      var rest := RemoveZeroPowers(fs[1..]);
      HeadDistinct(fs);
      if fs[0].power != 0 {
        ConsDistinct(fs[0], rest);
      } else {
        assert [] + rest == rest;
      }
    }
  }

  /** In a list without repeated primes, the head's prime occurs nowhere in the tail. */
  lemma HeadDistinct(fs: seq<PrimeAndPower>)
    requires Distinct(fs) && |fs| > 0
    ensures forall y :: y in fs[1..] ==> y.primeIndex != fs[0].primeIndex
  {
    forall y | y in fs[1..]
      ensures y.primeIndex != fs[0].primeIndex
    {
      var k :| 0 <= k < |fs[1..]| && fs[1..][k] == y;
      assert fs[k + 1] == y;
    }
  }

  /** A pair whose prime is new to a list without repeated primes extends it without repeats. */
  lemma ConsDistinct(x: PrimeAndPower, rest: seq<PrimeAndPower>)
    requires Distinct(rest) && forall y :: y in rest ==> y.primeIndex != x.primeIndex
    ensures Distinct([x] + rest)
  {
    var r := [x] + rest;
    forall t, u | 0 <= t < u < |r|
      ensures r[t].primeIndex != r[u].primeIndex
    {
      if t == 0 {
        assert r[u] in rest;
      } else {
        assert r[t] == rest[t - 1] && r[u] == rest[u - 1];
      }
    }
  }

  /** Raising one pair's power by e multiplies the product by that prime to the e. */
  lemma ValueUpdate(s: seq<PrimeAndPower>, i: nat, e: nat)
    requires i < |s|
    ensures Value(s[i := PrimeAndPower(s[i].power + e, s[i].primeIndex)])
      == Value(s) * NatPow(NthPrime(s[i].primeIndex), e)
  {
    var x := s[i];
    var x' := PrimeAndPower(x.power + e, x.primeIndex);
    var s' := s[i := x'];
    assert s[..i] + s[i..] == s && s'[..i] + s'[i..] == s' && s'[..i] == s[..i];
    assert s[i..][0] == x && s[i..][1..] == s[i + 1..];
    assert s'[i..][0] == x' && s'[i..][1..] == s[i + 1..];
    ValueAppend(s[..i], s[i..]);
    ValueAppend(s[..i], s'[i..]);
    var pe := NatPow(NthPrime(x.primeIndex), e);
    NatPowAdd(NthPrime(x.primeIndex), x.power, e);
    assert Weight(x') == Weight(x) * pe;
    ScaleInner(Value(s[..i]), Weight(x), pe, Value(s[i + 1..]));
  }

  lemma ScaleInner(p: int, w: int, e: int, q: int)
    ensures p * ((w * e) * q) == (p * (w * q)) * e
  {
    Arith.MulRearrange(w, e, q);
    Arith.MulAssoc(p, e, w * q);
    Arith.MulRearrange(p, w * q, e);
  }

  /** The product and exponents of a list extended by one pair. */
  lemma AppendOne(s: seq<PrimeAndPower>, x: PrimeAndPower)
    ensures Value(s + [x]) == Value(s) * Weight(x)
    ensures forall k: nat :: Exponent(s + [x], k) == Exponent(s, k) + PowerAt(k)(x)
  {
    ValueAppend(s, [x]);
    assert [x][1..] == [];
    forall k: nat
      ensures Exponent(s + [x], k) == Exponent(s, k) + PowerAt(k)(x)
    {
      Sorting.SumByAppend(s, [x], PowerAt(k));
      assert [x][1..] == [];
    }
  }

  /**
   * The shape `mul`'s merge loop keeps: positions below |a| hold a's pairs
   * (those from i on untouched), pairs pushed from b sit behind them, no
   * prime occurs twice, and b's next pair lies above everything already placed
   * that can no longer meet it.
   */
  predicate MergeShape(fa: seq<PrimeAndPower>, a: seq<PrimeAndPower>, b: seq<PrimeAndPower>, i: nat, j: nat)
  {
    && i <= |a| && j <= |b| && |a| <= |fa|
    && (forall t :: 0 <= t < |a| ==> fa[t].primeIndex == a[t].primeIndex)
    && (forall t :: i <= t < |a| ==> fa[t] == a[t])
    && Distinct(fa)
    && (j < |b| ==> forall t :: |a| <= t < |fa| ==> fa[t].primeIndex < b[j].primeIndex)
    && (0 < i && j < |b| ==> a[i - 1].primeIndex < b[j].primeIndex)
  }

  /** What the merge has multiplied in so far: all of a and the first j pairs of b. */
  ghost predicate MergeValue(fa: seq<PrimeAndPower>, a: seq<PrimeAndPower>, b: seq<PrimeAndPower>, j: nat)
    requires j <= |b|
  {
    && Value(fa) == Value(a) * Value(b[..j])
    && forall k: nat :: Exponent(fa, k) == Exponent(a, k) + Exponent(b[..j], k)
  }

  lemma MergeStart(a: seq<PrimeAndPower>, b: seq<PrimeAndPower>)
    requires Ordered(a)
    ensures MergeShape(a, a, b, 0, 0) && MergeValue(a, a, b, 0)
  {
    assert b[..0] == [];
  }

  /** The inner loop pushes b[j], whose prime lies below a[i]'s. */
  lemma PushShape(fa: seq<PrimeAndPower>, a: seq<PrimeAndPower>, b: seq<PrimeAndPower>, i: nat, j: nat)
    requires Ordered(a) && Ordered(b) && MergeShape(fa, a, b, i, j)
    requires i < |a| && j < |b| && b[j].primeIndex < a[i].primeIndex
    ensures MergeShape(fa + [b[j]], a, b, i, j + 1)
  {
    var fa' := fa + [b[j]];
    forall t | 0 <= t < |fa|
      ensures fa[t].primeIndex != b[j].primeIndex
    {
      if t < |a| && t >= i {
        assert fa[t] == a[t];
      } else if t < |a| {
        assert fa[t].primeIndex == a[t].primeIndex;
      }
    }
    assert Distinct(fa') by {
      forall t, u | 0 <= t < u < |fa'|
        ensures fa'[t].primeIndex != fa'[u].primeIndex
      {
        if u == |fa| {
          assert fa'[t] == fa[t];
        } else {
          assert fa'[t] == fa[t] && fa'[u] == fa[u];
        }
      }
    }
  }

  lemma PushValue(fa: seq<PrimeAndPower>, a: seq<PrimeAndPower>, b: seq<PrimeAndPower>, j: nat)
    requires j < |b| && MergeValue(fa, a, b, j)
    ensures MergeValue(fa + [b[j]], a, b, j + 1)
  {
    assert b[..j + 1] == b[..j] + [b[j]];
    AppendOne(fa, b[j]);
    AppendOne(b[..j], b[j]);
    Arith.MulAssoc(Value(a), Value(b[..j]), Weight(b[j]));
  }

  /** The step that adds b[j]'s power to a[i], both naming the same prime. */
  lemma CombineShape(fa: seq<PrimeAndPower>, a: seq<PrimeAndPower>, b: seq<PrimeAndPower>, i: nat, j: nat)
    requires Ordered(b) && MergeShape(fa, a, b, i, j)
    requires i < |a| && j < |b| && b[j].primeIndex == a[i].primeIndex
    ensures MergeShape(fa[i := PrimeAndPower(fa[i].power + b[j].power, fa[i].primeIndex)], a, b, i + 1, j + 1)
  {
  }

  lemma CombineValue(fa: seq<PrimeAndPower>, a: seq<PrimeAndPower>, b: seq<PrimeAndPower>, i: nat, j: nat)
    requires i < |fa| && j < |b| && b[j].primeIndex == fa[i].primeIndex && MergeValue(fa, a, b, j)
    ensures MergeValue(fa[i := PrimeAndPower(fa[i].power + b[j].power, fa[i].primeIndex)], a, b, j + 1)
  {
    var x' := PrimeAndPower(fa[i].power + b[j].power, fa[i].primeIndex);
    var fa' := fa[i := x'];
    assert b[..j + 1] == b[..j] + [b[j]];
    AppendOne(b[..j], b[j]);
    ValueUpdate(fa, i, b[j].power);
    Arith.MulAssoc(Value(a), Value(b[..j]), Weight(b[j]));
    forall k: nat
      ensures Exponent(fa', k) == Exponent(a, k) + Exponent(b[..j + 1], k)
    {
      Sorting.SumByUpdate(fa, i, x', PowerAt(k));
    }
  }

  /** a[i] meets no pair of b: the outer loop moves past it. */
  lemma SkipShape(fa: seq<PrimeAndPower>, a: seq<PrimeAndPower>, b: seq<PrimeAndPower>, i: nat, j: nat)
    requires MergeShape(fa, a, b, i, j) && i < |a|
    requires j == |b| || b[j].primeIndex > a[i].primeIndex
    ensures MergeShape(fa, a, b, i + 1, j)
  {
  }

  /** After the loop the rest of b is appended; its primes lie above everything placed. */
  lemma TailDistinct(fa: seq<PrimeAndPower>, a: seq<PrimeAndPower>, b: seq<PrimeAndPower>, i: nat, j: nat)
    requires Ordered(a) && Ordered(b) && MergeShape(fa, a, b, i, j) && |a| > 0
    requires i == |a| || j == |b|
    ensures Distinct(fa + b[j..])
  {
    var r := fa + b[j..];
    forall t, u | 0 <= t < u < |r|
      ensures r[t].primeIndex != r[u].primeIndex
    {
      if u >= |fa| {
        assert r[u] == b[j + (u - |fa|)];
        if t >= |fa| {
          assert r[t] == b[j + (t - |fa|)];
        } else if t < |a| {
          assert r[t].primeIndex == a[t].primeIndex;
          assert a[t].primeIndex <= a[|a| - 1].primeIndex;
        }
      }
    }
  }

  lemma TailValue(fa: seq<PrimeAndPower>, a: seq<PrimeAndPower>, b: seq<PrimeAndPower>, j: nat)
    requires j <= |b| && MergeValue(fa, a, b, j)
    ensures Value(fa + b[j..]) == Value(a) * Value(b)
    ensures forall k: nat :: Exponent(fa + b[j..], k) == Exponent(a, k) + Exponent(b, k)
  {
    assert b == b[..j] + b[j..];
    ValueAppend(fa, b[j..]);
    ValueAppend(b[..j], b[j..]);
    Arith.MulAssoc(Value(a), Value(b[..j]), Value(b[j..]));
    forall k: nat
      ensures Exponent(fa + b[j..], k) == Exponent(a, k) + Exponent(b, k)
    {
      Sorting.SumByAppend(fa, b[j..], PowerAt(k));
      Sorting.SumByAppend(b[..j], b[j..], PowerAt(k));
    }
  }

  /** The merged list, without zero powers, sorted by prime index. */
  lemma FinishMerge(fa: seq<PrimeAndPower>, sorted: seq<PrimeAndPower>)
    requires Distinct(fa)
    requires sorted == Sorting.SortBy(RemoveZeroPowers(fa), ByIndex)
    ensures Ordered(sorted) && NoZeroPowers(sorted)
    ensures Value(sorted) == Value(fa)
    ensures forall k: nat :: Exponent(sorted, k) == Exponent(fa, k)
  {
    var kept := RemoveZeroPowers(fa);
    RemoveZeroKeeps(fa);
    RemoveZeroDistinct(fa);
    assert Sorting.DistinctBy(kept, ByIndex);
    Sorting.SortStrict(kept, ByIndex);
    ValuePermutation(sorted, kept);
    forall k: nat
      ensures Exponent(sorted, k) == Exponent(fa, k)
    {
      Sorting.SumByPermutation(sorted, kept, PowerAt(k));
    }
    forall t | 0 <= t < |sorted|
      ensures sorted[t].power >= 1
    {
      assert sorted[t] in multiset(kept);
    }
  }

  /** A non-empty list without zero powers denotes at least 2: every pair weighs at least 2. */
  lemma ValueAboveOne(fs: seq<PrimeAndPower>)
    requires NoZeroPowers(fs)
    ensures |fs| > 0 ==> Value(fs) >= 2
  {
    if |fs| > 0 {
      var p := NthPrime(fs[0].primeIndex);
      NatPowPositive(p, fs[0].power - 1);
      ValuePositive(fs[1..]);
      Arith.MulAtLeast(NatPow(p, fs[0].power - 1), 2);
      Arith.MulAtLeast(Value(fs[1..]), Weight(fs[0]));
    }
  }

  /**
   * `mul` as written: zero times anything clears the list; otherwise a
   * merge by prime index pushes the smaller pairs of b, adds the powers of
   * pairs naming the same prime, appends what is left of b, removes pairs
   * with power 0 and sorts by prime index. One times one leaves the empty
   * list, which the class reads as zero.
   */
  method MulAsWritten(x: FactorizedNumber, y: FactorizedNumber) returns (r: FactorizedNumber)
    requires WellFormed(x) && WellFormed(y)
    ensures !r.negative
    ensures IsZero(x) || IsZero(y) ==> IsZero(r)
    ensures !IsZero(x) && !IsZero(y) ==>
      && Ordered(r.factors) && NoZeroPowers(r.factors)
      && Value(r.factors) == Value(x.factors) * Value(y.factors)
      && forall k: nat :: Exponent(r.factors, k) == Exponent(x.factors, k) + Exponent(y.factors, k)
    ensures IsOne(x) && IsOne(y) ==> IsZero(r)
  {
    if IsZero(x) || IsZero(y) {
      return FactorizedNumber([], false);
    }
    var fa := Merge(x.factors, y.factors);
    var sorted := Sorting.SortBy(RemoveZeroPowers(fa), ByIndex);
    FinishMerge(fa, sorted);
    r := FactorizedNumber(sorted, false);
    if IsOne(x) && IsOne(y) {
      OneIsOne(x);
      OneIsOne(y);
      ValueAboveOne(sorted);
    }
  }

  /**
   * The merge loop of `mul`: walk a with i; push the pairs of b below a[i],
   * add b's power to a[i] when b names the same prime, and finally append
   * the rest of b.
   */
  method Merge(a: seq<PrimeAndPower>, b: seq<PrimeAndPower>) returns (fa: seq<PrimeAndPower>)
    requires Ordered(a) && Ordered(b) && |a| > 0
    ensures Distinct(fa)
    ensures Value(fa) == Value(a) * Value(b)
    ensures forall k: nat :: Exponent(fa, k) == Exponent(a, k) + Exponent(b, k)
  {
    fa := a;
    var i: nat, j: nat := 0, 0;
    MergeStart(a, b);
    while i < |a| && j < |b|
      invariant MergeShape(fa, a, b, i, j) && MergeValue(fa, a, b, j)
      decreases |a| - i
    {
      fa, j := PushLesser(fa, a, b, i, j);
      if j < |b| && b[j].primeIndex == fa[i].primeIndex {
        CombineShape(fa, a, b, i, j);
        CombineValue(fa, a, b, i, j);
        fa := fa[i := PrimeAndPower(fa[i].power + b[j].power, fa[i].primeIndex)];
        j := j + 1;
      } else {
        SkipShape(fa, a, b, i, j);
      }
      i := i + 1;
    }
    TailDistinct(fa, a, b, i, j);
    TailValue(fa, a, b, j);
    fa := fa + b[j..];
  }

  /** The inner loop of the merge: push every pair of b whose prime lies below a[i]'s. */
  method PushLesser(fa0: seq<PrimeAndPower>, a: seq<PrimeAndPower>, b: seq<PrimeAndPower>, i: nat, j0: nat)
    returns (fa: seq<PrimeAndPower>, j: nat)
    requires Ordered(a) && Ordered(b) && i < |a|
    requires MergeShape(fa0, a, b, i, j0) && MergeValue(fa0, a, b, j0)
    ensures MergeShape(fa, a, b, i, j) && MergeValue(fa, a, b, j)
    ensures j == |b| || b[j].primeIndex >= a[i].primeIndex
  {
    fa, j := fa0, j0;
    while j < |b| && b[j].primeIndex < fa[i].primeIndex
      invariant MergeShape(fa, a, b, i, j) && MergeValue(fa, a, b, j)
      decreases |b| - j
    {
      PushShape(fa, a, b, i, j);
      PushValue(fa, a, b, j);
      fa := fa + [b[j]];
      j := j + 1;
    }
  }

  /** Under the class's invariant, a number `is_one` accepts is One, whose product is 1. */
  lemma OneIsOne(x: FactorizedNumber)
    requires WellFormed(x) && IsOne(x)
    ensures x == One && Value(x.factors) == 1
  {
    ZeroAndOne();
  }

  /**
   * `mul` with the evidently intended result for one times one: when both
   * factors are non-zero and the merge leaves no pair, the product is One.
   */
  method Mul(x: FactorizedNumber, y: FactorizedNumber) returns (r: FactorizedNumber)
    requires WellFormed(x) && WellFormed(y)
    ensures WellFormed(r)
    ensures Number(r) == Number(x) * Number(y)
    ensures !IsZero(x) && !IsZero(y) ==>
      forall k: nat :: Exponent(r.factors, k) == Exponent(x.factors, k) + Exponent(y.factors, k)
  {
    r := MulAsWritten(x, y);
    if !IsZero(x) && !IsZero(y) && IsZero(r) {
      EmptyProductIsOne(x, y, r.factors);
      r := One;
    } else {
      ProductNumber(x, y, r);
    }
  }

  /** An empty merge of two non-zero numbers stands for the product 1, which One denotes. */
  lemma EmptyProductIsOne(x: FactorizedNumber, y: FactorizedNumber, fs: seq<PrimeAndPower>)
    requires WellFormed(x) && WellFormed(y) && !IsZero(x) && !IsZero(y) && fs == []
    requires Value(fs) == Value(x.factors) * Value(y.factors)
    requires forall k: nat :: Exponent(fs, k) == Exponent(x.factors, k) + Exponent(y.factors, k)
    ensures WellFormed(One) && Number(One) == Number(x) * Number(y)
    ensures forall k: nat :: Exponent(One.factors, k) == Exponent(x.factors, k) + Exponent(y.factors, k)
  {
    ZeroAndOne();
    assert One.factors[1..] == [];
  }

  /** What `mul` computes for a non-empty merge, or for a zero factor, is the product of the numbers. */
  lemma ProductNumber(x: FactorizedNumber, y: FactorizedNumber, r: FactorizedNumber)
    requires WellFormed(x) && WellFormed(y) && !r.negative
    requires IsZero(x) || IsZero(y) ==> IsZero(r)
    requires !IsZero(x) && !IsZero(y) ==>
      && !IsZero(r) && Ordered(r.factors) && NoZeroPowers(r.factors)
      && Value(r.factors) == Value(x.factors) * Value(y.factors)
    ensures WellFormed(r) && Number(r) == Number(x) * Number(y)
  {
  }
}
