/**
 * Facts about natural multiplication and Euclidean division that the
 * solver does not find unaided. Every module with index arithmetic uses them.
 */
module Arith {

  lemma MulMonotone(a: nat, b: nat, d: nat)
    ensures a <= b ==> a * d <= b * d
  {
  }

  /** A non-empty product has a non-zero first factor. */
  lemma ProductPositive(a: nat, b: nat)
    ensures a * b > 0 ==> a > 0
  {
    if a == 0 {
      assert a * b == 0;
    }
  }

  lemma MulStrict(a: nat, b: nat, d: nat)
    requires d > 0
    ensures a < b ==> a * d < b * d
  {
  }

  lemma DivMod(k: nat, d: nat)
    requires d > 0
    ensures k == (k / d) * d + k % d && 0 <= k % d < d
  {
  }

  lemma DivNonNegative(a: nat, d: nat)
    requires d > 0
    ensures a / d >= 0
  {
  }

  lemma DivMonotone(a: nat, b: nat, d: nat)
    requires a <= b && d > 0
    ensures a / d <= b / d
  {
    DivMod(a, d);
    DivMod(b, d);
    MulMonotone(b / d + 1, a / d, d);
  }

  /** `k < d*m` bounds the quotient `k / d` below `m`. */
  lemma DivBelow(k: nat, d: nat, m: nat)
    requires d > 0 && k < d * m
    ensures k / d < m
  {
    DivMod(k, d);
    MulMonotone(m, k / d, d);
  }

  lemma DivExact(a: nat, d: nat)
    requires d > 0
    ensures (a * d) / d == a
  {
    DivMod(a * d, d);
    var q := (a * d) / d;
    MulMonotone(q + 1, a, d);
    MulMonotone(a + 1, q, d);
  }

  lemma MulAssoc(a: int, b: int, c: int)
    ensures (a * b) * c == a * (b * c)
  {
  }

  lemma MulRearrange(p: int, w: int, q: int)
    ensures (p * w) * q == w * (p * q)
  {
  }

  lemma MulAtLeast(c: int, a: nat)
    requires c >= 1
    ensures c * a >= a
  {
  }

  lemma MulNegative(c: int, a: nat)
    requires c <= -1 && a > 0
    ensures c * a <= 0 - (a as int)
  {
  }

  /** The only multiple of `a` in [0, a) is zero. */
  lemma MulBetween(c: int, a: nat)
    requires a > 0 && 0 <= c * a < a
    ensures c == 0
  {
    if c >= 1 {
      MulAtLeast(c, a);
      assert false;
    } else if c <= -1 {
      MulNegative(c, a);
      assert false;
    }
  }

  /** A multiple of `a` leaves remainder zero. */
  lemma MulMod(k: nat, a: nat)
    requires a > 0
    ensures (k * a) % a == 0
  {
    var n := k * a;
    var q, r := n / a, n % a;
    assert n == q * a + r;
    assert r == (k - q) * a;
    MulBetween(k - q, a);
  }

  /** One above a multiple of `p` leaves remainder one. */
  lemma MulModPlusOne(k: nat, p: nat)
    requires p >= 2
    ensures (k * p + 1) % p == 1
  {
    var n := k * p + 1;
    var q, r := n / p, n % p;
    assert n == q * p + r;
    assert r - 1 == (k - q) * p;
    if k - q >= 1 {
      MulAtLeast(k - q, p);
      assert false;
    } else if k - q <= -1 {
      MulNegative(k - q, p);
      assert false;
    }
  }

  /** Euclidean division is unique: a quotient and a remainder in [0, d) are n / d and n % d. */
  lemma ModUnique(n: nat, d: nat, q: nat, r: nat)
    requires d > 0 && n == q * d + r && r < d
    ensures n / d == q && n % d == r
  {
    DivMod(n, d);
    var c := q - n / d;
    assert c * d == n % d - r;
    if c >= 1 {
      MulAtLeast(c, d);
      assert false;
    } else if c <= -1 {
      MulNegative(c, d);
      assert false;
    }
  }

  /**
   * `w * p`, named so that facts about one product carry over to every
   * occurrence of it.
   */
  function Scaled(w: real, p: real): real
  {
    w * p
  }

  /** A weight in [0, 1] scales a non-negative width inside [0, width]. */
  lemma ScaleWithin(w: real, p: real)
    requires w >= 0.0 && 0.0 <= p <= 1.0
    ensures 0.0 <= Scaled(w, p) <= w
  {
  }

  /** Scaling commutes with negation, and a zero weight gives zero. */
  lemma ScaledSigns(w: real, p: real)
    ensures Scaled(-w, p) == -Scaled(w, p)
    ensures p == 0.0 ==> Scaled(w, p) == 0.0
  {
  }

  lemma RealDivStrict(x: real, y: real, d: real)
    requires x < y && d > 0.0
    ensures x / d < y / d
  {
  }
}
