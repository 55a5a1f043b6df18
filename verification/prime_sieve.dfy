/**
 * PrimesStorage of code/primes.hpp: a segmented sieve of Eratosthenes over
 * a 512-bit StaticBitset. The storage keeps every prime found so far, in
 * order, and the number of primes each 512-number segment contributed;
 * `get_at` sieves further segments until the requested index exists.
 */
module PrimeSieve {
  import opened Bitset
  import opened Primes
  import Arith

  /** `segment_size = 64 * 8`. */
  const SegmentSize: nat := 512

  datatype Storage = Storage(segment: StaticBitset, primes: seq<nat>, segments: seq<nat>)

  /**
   * After k segments the storage holds exactly the primes below 512*k, in
   * increasing order, and entry j of `segments` counts the primes in
   * segment j.
   */
  predicate Valid(st: Storage)
  {
    && |st.segments| >= 1
    && Sized(st.segment, SegmentSize)
    && st.primes == PrimesBelow(SegmentSize * |st.segments|)
    && forall j :: 0 <= j < |st.segments| ==>
         |PrimesBelow(SegmentSize * j)| + st.segments[j] == |PrimesBelow(SegmentSize * (j + 1))|
  }

  lemma SegmentInRange(b: StaticBitset, k: nat)
    requires Sized(b, SegmentSize) && k < SegmentSize
    ensures InRange(b, k)
  {
  }

  /**
   * A number still marked while the first segment is sieved with every
   * d < i: at least 2, not at a word's bit 0, and no such d divides it
   * unless it is d itself.
   */
  predicate Survivor(k: nat, i: nat)
  {
    k >= 2 && k % WordBits != 0 && forall d :: 2 <= d < i && d < k ==> k % d != 0
  }

  lemma SurvivorStep(k: nat, i: nat)
    requires i >= 2
    ensures Survivor(k, i + 1) == (Survivor(k, i) && !(i < k && k % i == 0))
  {
  }

  /**
   * Sieving with an unmarked i removes nothing new: i is a multiple of 64
   * (so of 2) or of some smaller d, and its multiples went with them.
   */
  lemma NonSurvivorStep(k: nat, i: nat)
    requires 2 <= i && !Survivor(i, i)
    ensures Survivor(k, i + 1) == Survivor(k, i)
  {
    SurvivorStep(k, i);
    if Survivor(k, i) && i < k && k % i == 0 {
      if i % WordBits == 0 {
        Primes.ModTransitive(2, WordBits, i);
        Primes.ModTransitive(2, i, k);
      } else {
        var d :| 2 <= d < i && d < i && i % d == 0;
        Primes.ModTransitive(d, i, k);
      }
      assert false;
    }
  }

  /** A multiple of 64 above 2 is even, hence not prime. */
  lemma WordStartNotPrime(n: nat)
    ensures n % WordBits == 0 && n > 2 ==> !IsPrime(n)
  {
    if n % WordBits == 0 && n > 2 {
      Primes.ModTransitive(2, WordBits, n);
    }
  }

  /** After sieving with every i up to 256, the survivors below 512 are the primes. */
  lemma FirstSieveComplete(k: nat)
    requires k < SegmentSize
    ensures Survivor(k, SegmentSize / 2 + 1) == IsPrime(k)
  {
    WordStartNotPrime(k);
    if k >= 2 && !IsPrime(k) {
      var p := LeastPrimeFactor(k);
      Arith.MulMonotone(SegmentSize / 2 + 1, p, p);
      Arith.MulMonotone(2, p, SegmentSize / 2 + 1);
    }
  }

  /** The inner loop of the first sieve: strike 2i, 3i, ... below 512. */
  method StrikeMultiples(seg: StaticBitset, i: nat) returns (r: StaticBitset)
    requires Sized(seg, SegmentSize) && i >= 2
    ensures Sized(r, SegmentSize)
    ensures forall k :: 0 <= k < SegmentSize ==> GetAt(r, k) == (GetAt(seg, k) && !(i < k && k % i == 0))
  {
    r := seg;
    NextMultiple(i, i);
    var j := i * 2;
    while j < SegmentSize
      invariant i * 2 <= j && j % i == 0
      invariant Sized(r, SegmentSize)
      invariant forall k :: 0 <= k < SegmentSize ==>
        GetAt(r, k) == (GetAt(seg, k) && !(i < k < j && k % i == 0))
    {
      var before := r;
      ClearAt(before, j);
      r := SetAt(before, j, false);
      NextMultiple(j, i);
      forall k | 0 <= k < SegmentSize
        ensures GetAt(r, k) == (GetAt(seg, k) && !(i < k < j + i && k % i == 0))
      {
        SegmentInRange(before, k);
        assert GetAt(r, k) == (k != j && GetAt(before, k));
      }
      j := j + i;
    }
  }

  /** Marked positions of a sieved first segment, in order. */
  method CollectFirst(seg: StaticBitset) returns (primes: seq<nat>)
    requires Sized(seg, SegmentSize)
    requires forall k :: 0 <= k < SegmentSize ==> GetAt(seg, k) == IsPrime(k)
    ensures primes == PrimesBelow(SegmentSize)
  {
    primes := [];
    var c := 0;
    while c < SegmentSize
      invariant c <= SegmentSize
      invariant primes == PrimesBelow(c)
    {
      if GetAt(seg, c) {
        primes := primes + [c];
      }
      c := c + 1;
    }
  }

  /** Sieving with one i: strike its multiples when it is still marked. */
  method SieveWith(seg: StaticBitset, i: nat) returns (r: StaticBitset)
    requires Sized(seg, SegmentSize) && i >= 2
    requires forall k :: 0 <= k < SegmentSize ==> GetAt(seg, k) == Survivor(k, i)
    ensures Sized(r, SegmentSize)
    ensures forall k :: 0 <= k < SegmentSize ==> GetAt(r, k) == Survivor(k, i + 1)
  {
    r := seg;
    if i < SegmentSize && GetAt(seg, i) {
      r := StrikeMultiples(seg, i);
      forall k | 0 <= k < SegmentSize
        ensures GetAt(r, k) == Survivor(k, i + 1)
      {
        SurvivorStep(k, i);
      }
    } else {
      forall k | 0 <= k < SegmentSize
        ensures GetAt(r, k) == Survivor(k, i + 1)
      {
        if i >= SegmentSize {
          SurvivorStep(k, i);
        } else {
          NonSurvivorStep(k, i);
        }
      }
    }
  }

  /** The first segment before sieving: all ones except 0, 1 and each word's bit 0. */
  method StartFirst() returns (seg: StaticBitset)
    ensures Sized(seg, SegmentSize)
    ensures forall k :: 0 <= k < SegmentSize ==> GetAt(seg, k) == Survivor(k, 2)
  {
    var full := Reset(SegmentSize, true);
    ClearAt(full, 0);
    var one := SetAt(full, 0, false);
    ClearAt(one, 1);
    seg := SetAt(one, 1, false);
  }

  /**
   * `make_first_segment`: reset the bitset to ones, clear 0 and 1, strike
   * the multiples 2i, 3i, ... of every still-marked i up to 256, then collect
   * the marked positions.
   */
  method FirstSegment() returns (st: Storage)
    ensures Valid(st) && |st.segments| == 1
  {
    var seg := StartFirst();
    var i := 2;
    while i < SegmentSize / 2 + 1
      invariant 2 <= i <= SegmentSize / 2 + 1
      invariant Sized(seg, SegmentSize)
      invariant forall k :: 0 <= k < SegmentSize ==> GetAt(seg, k) == Survivor(k, i)
    {
      seg := SieveWith(seg, i);
      i := i + 1;
    }
    forall k | 0 <= k < SegmentSize
      ensures GetAt(seg, k) == IsPrime(k)
    {
      FirstSieveComplete(k);
    }
    var primes := CollectFirst(seg);
    st := Storage(seg, primes, [|primes|]);
  }

  /** Between two consecutive multiples of p lies no multiple of p. */
  lemma NextMultiple(pos: nat, p: nat)
    requires p > 0 && pos % p == 0
    ensures forall x :: pos < x < pos + p ==> x % p != 0
    ensures (pos + p) % p == 0
  {
    forall x | pos < x < pos + p
      ensures x % p != 0
    {
      var q := pos / p;
      assert pos == q * p;
      Arith.DivMod(x, p);
      if x % p == 0 {
        var r := x / p;
        assert (r - q) * p == x - pos;
        Arith.MulBetween(r - q, p);
        assert false;
      }
    }
    var q := pos / p;
    assert pos + p == (q + 1) * p;
    Arith.MulMod(q + 1, p);
  }

  /**
   * The first multiple of p at or after `begin`, as the source computes it:
   * begin / p, rounded up when p does not divide begin, times p.
   */
  function FirstMultiple(begin: nat, p: nat): (pos: nat)
    requires p > 0
    ensures pos % p == 0 && begin <= pos
    ensures forall x :: begin <= x < pos ==> x % p != 0
  {
    FirstMultipleFacts(begin, p);
    (begin / p + (if begin % p != 0 then 1 else 0)) * p
  }

  lemma FirstMultipleFacts(begin: nat, p: nat)
    requires p > 0
    ensures var pos := (begin / p + (if begin % p != 0 then 1 else 0)) * p;
      pos % p == 0 && begin <= pos && forall x :: begin <= x < pos ==> x % p != 0
  {
    var b := begin / p;
    var lo := b * p;
    Arith.DivMod(begin, p);
    Arith.MulMod(b, p);
    if begin % p != 0 {
      NextMultiple(lo, p);
      assert (b + 1) * p == lo + p;
    }
  }

  /**
   * A position of the current segment is still marked after sieving with
   * primes[0..upto): it is not at a word's bit 0 and none of those primes
   * divides the number it stands for.
   */
  predicate Unmarked(begin: nat, k: nat, primes: seq<nat>, upto: nat)
    requires upto <= |primes|
  {
    k % WordBits != 0 && forall q :: 0 <= q < upto ==> !Divides(primes[q], begin + k)
  }

  /** Segment starts are multiples of 64, so the word position of begin+k is that of k. */
  lemma SegmentBitZero(s: nat, k: nat)
    ensures (SegmentSize * s + k) % WordBits == k % WordBits
  {
    Arith.DivMod(k, WordBits);
    var q := 8 * s + k / WordBits;
    assert SegmentSize * s + k == q * WordBits + k % WordBits;
    Arith.ModUnique(SegmentSize * s + k, WordBits, q, k % WordBits);
  }

  /** Inside a segment, `pos % segment_size` is the offset from the segment start. */
  lemma SegmentOffset(s: nat, pos: nat)
    requires SegmentSize * s <= pos < SegmentSize * s + SegmentSize
    ensures pos % SegmentSize == pos - SegmentSize * s
  {
    var off := pos - SegmentSize * s;
    assert pos == SegmentSize * s + off;
  }

  /**
   * Once every stored prime up to msq has been sieved, a position of
   * segment s >= 1 is still marked exactly when it stands for a prime.
   */
  lemma NextSieveComplete(primes: seq<nat>, s: nat, msq: nat, upto: nat, k: nat)
    requires s >= 1 && primes == PrimesBelow(SegmentSize * s)
    requires msq * msq >= SegmentSize * s + SegmentSize - 1
    requires upto <= |primes| && (upto == |primes| || primes[upto] > msq)
    requires k < SegmentSize
    ensures Unmarked(SegmentSize * s, k, primes, upto) == IsPrime(SegmentSize * s + k)
  {
    if IsPrime(SegmentSize * s + k) {
      PrimeUnmarked(primes, s, upto, k);
    } else {
      CompositeMarked(primes, s, msq, upto, k);
    }
  }

  /** A prime of the segment is never struck: every stored prime is smaller than it. */
  lemma PrimeUnmarked(primes: seq<nat>, s: nat, upto: nat, k: nat)
    requires s >= 1 && primes == PrimesBelow(SegmentSize * s)
    requires upto <= |primes| && k < SegmentSize
    requires IsPrime(SegmentSize * s + k)
    ensures Unmarked(SegmentSize * s, k, primes, upto)
  {
    SegmentBitZero(s, k);
    WordStartNotPrime(SegmentSize * s + k);
    PrimesBelowFacts(SegmentSize * s);
  }

  /**
   * A composite of the segment has a prime factor p with p*p within it, so
   * p <= msq and p < begin: p is stored before the first prime above msq.
   */
  lemma CompositeMarked(primes: seq<nat>, s: nat, msq: nat, upto: nat, k: nat)
    requires s >= 1 && primes == PrimesBelow(SegmentSize * s)
    requires msq * msq >= SegmentSize * s + SegmentSize - 1
    requires upto <= |primes| && (upto == |primes| || primes[upto] > msq)
    requires k < SegmentSize
    requires !IsPrime(SegmentSize * s + k)
    ensures !Unmarked(SegmentSize * s, k, primes, upto)
  {
    var begin := SegmentSize * s;
    var n := begin + k;
    var p := LeastPrimeFactor(n);
    SquareBelow(p, msq);
    Arith.MulMonotone(2, begin, begin);
    SquareBelowStrict(p, begin);
    PrimesBelowFacts(begin);
    assert p in primes;
    var q :| 0 <= q < |primes| && primes[q] == p;
    if upto < |primes| {
      StrictOrder(primes, upto, q);
    }
    assert Divides(primes[q], begin + k);
  }

  lemma SquareBelow(a: nat, b: nat)
    ensures a * a <= b * b ==> a <= b
  {
    if a > b {
      Arith.MulStrict(b, a, a);
      Arith.MulMonotone(b, a, b);
    }
  }

  lemma SquareBelowStrict(a: nat, b: nat)
    ensures a * a < b * b ==> a < b
  {
    if a >= b {
      Arith.MulMonotone(b, a, a);
      Arith.MulMonotone(b, a, b);
    }
  }

  /**
   * `make_next_segment`: reset the bitset to ones, strike, for each stored
   * prime up to `msq`, its multiples inside [begin, begin + 512), then
   * append the marked positions (offset by begin) and the segment's count.
   * `msq` stands for the source's `my_sqrt(begin + 511) + 1`; all the sieve
   * needs of it is msq*msq >= begin + 511.
   */
  method NextSegment(st: Storage, msq: nat) returns (r: Storage)
    requires Valid(st)
    requires msq * msq >= SegmentSize * (|st.segments| + 1) - 1
    ensures Valid(r) && |r.segments| == |st.segments| + 1
    ensures |st.primes| <= |r.primes| && r.primes[..|st.primes|] == st.primes
  {
    var s := |st.segments|;
    var seg, idx := SieveSegment(st, msq);
    forall k | 0 <= k < SegmentSize
      ensures GetAt(seg, k) == IsPrime(SegmentSize * s + k)
    {
      NextSieveComplete(st.primes, s, msq, idx, k);
    }
    var found := CollectSegment(seg, s);
    PrimesBelowPrefix(SegmentSize * s, SegmentSize * (s + 1));
    r := Storage(seg, found, st.segments + [|found| - |st.primes|]);
    AppendSegmentValid(st, r);
  }

  /** Appending the primes of the next segment and their count keeps the storage valid. */
  lemma AppendSegmentValid(st: Storage, r: Storage)
    requires Valid(st) && Sized(r.segment, SegmentSize)
    requires r.primes == PrimesBelow(SegmentSize * (|st.segments| + 1))
    requires r.segments == st.segments + [|r.primes| - |st.primes|]
    ensures Valid(r)
    ensures |st.primes| <= |r.primes| && r.primes[..|st.primes|] == st.primes
  {
    PrimesBelowPrefix(SegmentSize * |st.segments|, SegmentSize * (|st.segments| + 1));
  }

  /**
   * The sieving loop of `make_next_segment`: strike the multiples of each
   * stored prime, in order, until the list ends or a prime exceeds msq.
   */
  method SieveSegment(st: Storage, msq: nat) returns (seg: StaticBitset, idx: nat)
    requires Valid(st)
    ensures Sized(seg, SegmentSize) && idx <= |st.primes|
    ensures idx == |st.primes| || st.primes[idx] > msq
    ensures forall k :: 0 <= k < SegmentSize ==>
      GetAt(seg, k) == Unmarked(SegmentSize * |st.segments|, k, st.primes, idx)
  {
    var s := |st.segments|;
    var begin := s * SegmentSize;
    var primes := st.primes;
    seg := Reset(SegmentSize, true);
    idx := 0;
    while idx < |primes| && primes[idx] <= msq
      invariant idx <= |primes|
      invariant Sized(seg, SegmentSize)
      invariant forall k :: 0 <= k < SegmentSize ==> GetAt(seg, k) == Unmarked(begin, k, primes, idx)
    {
      var before := seg;
      StoredPrime(st, idx);
      seg := StrikeSegment(before, s, primes[idx]);
      forall k | 0 <= k < SegmentSize
        ensures GetAt(seg, k) == Unmarked(begin, k, primes, idx + 1)
      {
        UnmarkedStep(begin, k, primes, idx);
      }
      idx := idx + 1;
    }
  }

  lemma StoredPrime(st: Storage, idx: nat)
    requires Valid(st) && idx < |st.primes|
    ensures IsPrime(st.primes[idx])
  {
    PrimesBelowFacts(SegmentSize * |st.segments|);
  }

  lemma UnmarkedStep(begin: nat, k: nat, primes: seq<nat>, upto: nat)
    requires upto < |primes|
    ensures Unmarked(begin, k, primes, upto + 1)
      == (Unmarked(begin, k, primes, upto) && !Divides(primes[upto], begin + k))
  {
  }

  /**
   * The inner loop of `make_next_segment`: from the first multiple of
   * `prime` at or after the segment start, strike every multiple inside
   * the segment, at its offset `pos % segment_size`.
   */
  method StrikeSegment(seg: StaticBitset, s: nat, prime: nat) returns (r: StaticBitset)
    requires Sized(seg, SegmentSize) && prime > 0
    ensures Sized(r, SegmentSize)
    ensures forall k :: 0 <= k < SegmentSize ==>
      GetAt(r, k) == (GetAt(seg, k) && (SegmentSize * s + k) % prime != 0)
  {
    var begin := s * SegmentSize;
    var end := begin + SegmentSize;
    var pos := begin / prime;
    pos := pos + if begin % prime != 0 then 1 else 0;
    pos := pos * prime;
    assert pos == FirstMultiple(begin, prime);
    r := seg;
    while pos < end
      invariant pos % prime == 0 && begin <= pos
      invariant Sized(r, SegmentSize)
      invariant forall k :: 0 <= k < SegmentSize ==>
        GetAt(r, k) == (GetAt(seg, k) && !(begin + k < pos && (begin + k) % prime == 0))
    {
      SegmentOffset(s, pos);
      var before := r;
      var offset := pos % SegmentSize;
      ClearAt(before, offset);
      r := SetAt(before, offset, false);
      NextMultiple(pos, prime);
      forall k | 0 <= k < SegmentSize
        ensures GetAt(r, k) == (GetAt(seg, k) && !(begin + k < pos + prime && (begin + k) % prime == 0))
      {
        SegmentInRange(before, k);
        assert GetAt(r, k) == (k != offset && GetAt(before, k));
      }
      pos := pos + prime;
    }
  }

  /** `make_next_segment`'s collection: append begin + i for every marked i. */
  method CollectSegment(seg: StaticBitset, s: nat) returns (found: seq<nat>)
    requires Sized(seg, SegmentSize)
    requires forall k :: 0 <= k < SegmentSize ==> GetAt(seg, k) == IsPrime(SegmentSize * s + k)
    ensures found == PrimesBelow(SegmentSize * (s + 1))
  {
    var begin := s * SegmentSize;
    found := PrimesBelow(begin);
    var c := 0;
    while c < SegmentSize
      invariant c <= SegmentSize
      invariant found == PrimesBelow(begin + c)
    {
      var n := begin + c;
      assert GetAt(seg, c) == IsPrime(n);
      PrimesBelowStep(n);
      if GetAt(seg, c) {
        found := found + [n];
      }
      c := c + 1;
    }
  }

  /** The least m with m*m at least `target`: an exact stand-in for `my_sqrt(target) + 1`. */
  method SquareRootAbove(target: nat) returns (m: nat)
    ensures m * m >= target
  {
    m := 0;
    while m * m < target
      invariant m <= target
      decreases target - m
    {
      Arith.MulMonotone(1, m, m);
      m := m + 1;
    }
  }

  /** A bound with more than `index` primes below it lies beyond every storage that lacks the index. */
  lemma BoundAhead(bound: nat, x: nat, index: nat)
    ensures |PrimesBelow(bound)| > index && index >= |PrimesBelow(x)| ==> x < bound
  {
    if bound <= x {
      PrimesBelowPrefix(bound, x);
    }
  }

  /** `PrimesStorage()`: the storage starts with the first segment sieved. */
  method NewStorage() returns (st: Storage)
    ensures Valid(st) && |st.segments| == 1
    ensures st.primes == PrimesBelow(SegmentSize)
  {
    st := FirstSegment();
  }

  /**
   * `get_at`: sieve further segments until the index is stored, then read
   * it. The result is the index-th prime (so `get_at(0)` is 2), and the
   * primes stored before are kept in place.
   */
  method GetPrime(st: Storage, index: nat) returns (p: nat, r: Storage)
    requires Valid(st)
    ensures Valid(r) && IsNthPrime(p, index)
    ensures index < |r.primes| && r.primes[index] == p
    ensures index < |st.primes| ==> r == st
    ensures |st.segments| <= |r.segments| && r.primes[..|st.primes|] == st.primes
  {
    r := st;
    ghost var bound := EnoughPrimesBelow(index);
    while index >= |r.primes|
      invariant Valid(r) && |st.segments| <= |r.segments|
      invariant |st.primes| <= |r.primes| && r.primes[..|st.primes|] == st.primes
      invariant index < |st.primes| ==> r == st
      decreases bound - SegmentSize * |r.segments|
    {
      BoundAhead(bound, SegmentSize * |r.segments|, index);
      var msq := SquareRootAbove(SegmentSize * (|r.segments| + 1) - 1);
      var before := r;
      r := NextSegment(r, msq);
      assert r.primes[..|st.primes|] == before.primes[..|st.primes|];
    }
    p := r.primes[index];
    NthOfPrimesBelow(SegmentSize * |r.segments|, index);
  }

  /** The upper bound of the values the compile-time self-check walks. */
  const SelfCheckLimit: nat := 10000

  /**
   * `compiletime_test_correctness`: for every value in [2, 10000) that trial
   * division calls prime, the storage's entry at the running prime count must
   * equal it. The check always succeeds.
   */
  method SelfCheck() returns (ok: bool)
    ensures ok
  {
    var st := NewStorage();
    var index := 0;
    var value := 2;
    FirstPrimeIsTwo();
    while value < SelfCheckLimit
      invariant 2 <= value <= SelfCheckLimit
      invariant Valid(st) && index == |PrimesBelow(value)|
    {
      var isPrime := IsPrimeTrial(value);
      PrimesBelowStep(value);
      if isPrime {
        var p;
        p, st := GetPrime(st, index);
        NthPrimeUnique(p, value, index);
        if p != value {
          return false;
        }
        index := index + 1;
      }
      value := value + 1;
    }
    return true;
  }
}
