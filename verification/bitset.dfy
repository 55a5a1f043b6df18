/**
 * StaticBitset<Size, ui64> of code/primes.hpp: a fixed array of 64-bit
 * words, bit `idx` living in word `idx / 64` at position `idx % 64`.
 */
module Bitset {
  const WordBits: nat := 64

  /** `words_count`: the number of words that hold `size` bits, rounded up. */
  function WordsCount(size: nat): (n: nat)
    ensures n * WordBits >= size
    ensures n > 0 ==> (n - 1) * WordBits < size
  {
    if size % WordBits != 0 then size / WordBits + 1 else size / WordBits
  }

  datatype StaticBitset = StaticBitset(words: seq<bv64>)

  /** The bitset has the word count StaticBitset<size> declares. */
  predicate Sized(b: StaticBitset, size: nat)
  {
    |b.words| == WordsCount(size)
  }

  /** Whether `idx` addresses a word of the bitset. */
  predicate InRange(b: StaticBitset, idx: nat)
  {
    idx / WordBits < |b.words|
  }

  /** `make_bit_mask`: the word with only bit `j` set. */
  function Mask(j: bv7): bv64
    requires j < 64
  {
    1 << j
  }

  /** The bit position of `idx` inside its word. */
  function Position(idx: nat): (j: bv7)
    ensures j < 64
  {
    PositionRoundTrip(idx % WordBits);
    (idx % WordBits) as bv7
  }

  /** Bit `j` of one word. */
  function WordGet(w: bv64, j: bv7): bool
    requires j < 64
  {
    w & Mask(j) != 0
  }

  /** One word with bit `j` set to `value`. */
  function WordSet(w: bv64, j: bv7, value: bool): bv64
    requires j < 64
  {
    if value then w | Mask(j) else w & !Mask(j)
  }

  /** `get_at`. */
  function GetAt(b: StaticBitset, idx: nat): bool
    requires InRange(b, idx)
  {
    WordGet(b.words[idx / WordBits], Position(idx))
  }

  /** `set_at`: or-in the mask, or and-out its complement. */
  function SetAt(b: StaticBitset, idx: nat, value: bool): (r: StaticBitset)
    requires InRange(b, idx)
    ensures |r.words| == |b.words|
  {
    var i := idx / WordBits;
    StaticBitset(b.words[i := WordSet(b.words[i], Position(idx), value)])
  }

  /**
   * `reset`: every word becomes `~1` or 0. The `~1` pattern leaves bit 0 of
   * each word clear, so after reset(true) the bits at multiples of 64 read
   * false.
   */
  function Reset(size: nat, value: bool): (r: StaticBitset)
    ensures Sized(r, size)
    ensures forall idx :: 0 <= idx < size ==> InRange(r, idx) && GetAt(r, idx) == (value && idx % WordBits != 0)
  {
    var k: bv64 := if value then !(1 as bv64) else 0;
    var r := StaticBitset(seq(WordsCount(size), _ => k));
    assert forall idx :: 0 <= idx < size ==> InRange(r, idx) && GetAt(r, idx) == (value && idx % WordBits != 0) by {
      forall idx | 0 <= idx < size
        ensures InRange(r, idx) && GetAt(r, idx) == (value && idx % WordBits != 0)
      {
        InRangeBelowSize(size, idx);
        MaskOfWord(k, Position(idx), value);
        PositionRoundTrip(idx % WordBits);
      }
    }
    r
  }

  lemma InRangeBelowSize(size: nat, idx: nat)
    requires idx < size
    ensures idx / WordBits < WordsCount(size)
  {
  }

  lemma MaskOfWord(k: bv64, j: bv7, value: bool)
    requires j < 64
    requires k == if value then !(1 as bv64) else 0
    ensures WordGet(k, j) == (value && j != 0)
  {
  }

  /** Within one word: a written bit reads back, the others keep their value. */
  lemma WordGetSet(w: bv64, j: bv7, value: bool, k: bv7)
    requires j < 64 && k < 64
    ensures WordGet(WordSet(w, j, value), k) == if j == k then value else WordGet(w, k)
  {
    if value {
      MaskOr(w, j, k);
    } else {
      MaskAndNot(w, j, k);
    }
  }

  lemma MaskOr(w: bv64, j: bv7, k: bv7)
    requires j < 64 && k < 64
    ensures ((w | Mask(j)) & Mask(k) != 0) == (j == k || w & Mask(k) != 0)
  {
  }

  lemma MaskAndNot(w: bv64, j: bv7, k: bv7)
    requires j < 64 && k < 64
    ensures ((w & !Mask(j)) & Mask(k) != 0) == (j != k && w & Mask(k) != 0)
  {
  }

  lemma PositionRoundTrip(j: nat)
    requires j < 64
    ensures (j as bv7) as int == j
  {
  }

  /** An index is determined by its word and its bit position. */
  lemma SplitInjective(a: nat, c: nat)
    requires a / WordBits == c / WordBits
    ensures (Position(a) == Position(c)) == (a == c)
  {
    PositionRoundTrip(a % WordBits);
    PositionRoundTrip(c % WordBits);
    var q := a / WordBits;
    assert a == q * WordBits + a % WordBits;
    assert c == q * WordBits + c % WordBits;
  }

  /** Reading a bit after writing it returns what was written; every other bit is unchanged. */
  lemma {:induction false} GetAfterSet(b: StaticBitset, idx: nat, value: bool, k: nat)
    requires InRange(b, idx) && InRange(b, k)
    ensures GetAt(SetAt(b, idx, value), k) == if k == idx then value else GetAt(b, k)
  {
    if k / WordBits == idx / WordBits {
      SplitInjective(idx, k);
      WordGetSet(b.words[idx / WordBits], Position(idx), value, Position(k));
    }
  }

  /** Clearing one bit: that bit reads false, every other bit keeps its value. */
  lemma ClearAt(b: StaticBitset, idx: nat)
    requires InRange(b, idx)
    ensures forall k :: InRange(b, k) ==> GetAt(SetAt(b, idx, false), k) == (k != idx && GetAt(b, k))
  {
    forall k | InRange(b, k)
      ensures GetAt(SetAt(b, idx, false), k) == (k != idx && GetAt(b, k))
    {
      GetAfterSet(b, idx, false, k);
    }
  }
}
