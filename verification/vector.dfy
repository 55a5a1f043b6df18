/**
 * `Vector<T, N>` of gpu_fractal/code/vector.hpp instantiated at the
 * 100-digit decimal float, here idealised as `real`: a fixed-length
 * sequence of components with component-wise arithmetic, scalar operands
 * broadcast through the splatting constructor, and unary negation.
 * Values are immutable, so the non-assigning operators trivially leave
 * both operands unchanged; the compound assignments are the same
 * functions with the result stored back.
 */
module Vectors {

  type Vector = seq<real>

  /** A two-component vector, `Vector2f`. */
  type Vec2 = v: Vector | |v| == 2 witness [0.0, 0.0]

  /** `Vector(value)`: every one of the `n` components is `value`. */
  function Splat(n: nat, value: real): (r: Vector)
    ensures |r| == n
    ensures forall i :: 0 <= i < n ==> r[i] == value
  {
    seq(n, _ => value)
  }

  function Add(a: Vector, b: Vector): (r: Vector)
    requires |a| == |b|
    ensures |r| == |a|
    ensures forall i :: 0 <= i < |r| ==> r[i] == a[i] + b[i]
  {
    seq(|a|, i requires 0 <= i < |a| => a[i] + b[i])
  }

  function Sub(a: Vector, b: Vector): (r: Vector)
    requires |a| == |b|
    ensures |r| == |a|
    ensures forall i :: 0 <= i < |r| ==> r[i] == a[i] - b[i]
  {
    seq(|a|, i requires 0 <= i < |a| => a[i] - b[i])
  }

  function Mul(a: Vector, b: Vector): (r: Vector)
    requires |a| == |b|
    ensures |r| == |a|
    ensures forall i :: 0 <= i < |r| ==> r[i] == a[i] * b[i]
  {
    seq(|a|, i requires 0 <= i < |a| => a[i] * b[i])
  }

  predicate NonZero(v: Vector)
  {
    forall i :: 0 <= i < |v| ==> v[i] != 0.0
  }

  /** Division divides by every component, so none may be zero. */
  function Div(a: Vector, b: Vector): (r: Vector)
    requires |a| == |b|
    requires NonZero(b)
    ensures |r| == |a|
    ensures forall i :: 0 <= i < |r| ==> r[i] == a[i] / b[i]
  {
    seq(|a|, i requires 0 <= i < |a| => a[i] / b[i])
  }

  /** `v + s` is `v + Vector(s)`. */
  function AddScalar(a: Vector, s: real): (r: Vector)
    ensures |r| == |a|
    ensures forall i :: 0 <= i < |r| ==> r[i] == a[i] + s
  {
    Add(a, Splat(|a|, s))
  }

  /** `v - s` is `v - Vector(s)`. */
  function SubScalar(a: Vector, s: real): (r: Vector)
    ensures |r| == |a|
    ensures forall i :: 0 <= i < |r| ==> r[i] == a[i] - s
  {
    Sub(a, Splat(|a|, s))
  }

  /** `v * s` is `v * Vector(s)`. */
  function MulScalar(a: Vector, s: real): (r: Vector)
    ensures |r| == |a|
    ensures forall i :: 0 <= i < |r| ==> r[i] == a[i] * s
  {
    Mul(a, Splat(|a|, s))
  }

  /** `v / s` is `v / Vector(s)`, so the scalar must be non-zero. */
  function DivScalar(a: Vector, s: real): (r: Vector)
    requires s != 0.0
    ensures |r| == |a|
    ensures forall i :: 0 <= i < |r| ==> r[i] == a[i] / s
  {
    Div(a, Splat(|a|, s))
  }

  function Neg(a: Vector): (r: Vector)
    ensures |r| == |a|
    ensures forall i :: 0 <= i < |r| ==> r[i] == -a[i]
  {
    seq(|a|, i requires 0 <= i < |a| => -a[i])
  }

  /** `x()`, `y()` and `z()` read components 0, 1 and 2 and need that many. */
  function X(v: Vector): real requires |v| > 0 { v[0] }
  function Y(v: Vector): real requires |v| > 1 { v[1] }
  function Z(v: Vector): real requires |v| > 2 { v[2] }

  /** Negation is an involution. */
  lemma NegNeg(v: Vector)
    ensures Neg(Neg(v)) == v
  {
    assert forall i :: 0 <= i < |v| ==> Neg(Neg(v))[i] == v[i];
  }

  /** Subtraction undoes addition, component by component. */
  lemma AddSubRoundTrip(a: Vector, b: Vector)
    requires |a| == |b|
    ensures Sub(Add(a, b), b) == a
  {
    assert forall i :: 0 <= i < |a| ==> Sub(Add(a, b), b)[i] == a[i];
  }

  /** Multiplication undoes division by a vector with non-zero components. */
  lemma DivMulRoundTrip(a: Vector, b: Vector)
    requires |a| == |b| && NonZero(b)
    ensures Mul(Div(a, b), b) == a
  {
    forall i | 0 <= i < |a|
      ensures Mul(Div(a, b), b)[i] == a[i]
    {
      assert b[i] != 0.0;
      assert (a[i] / b[i]) * b[i] == a[i];
    }
  }

  /** Subtracting is adding the negation. */
  lemma SubIsAddNeg(a: Vector, b: Vector)
    requires |a| == |b|
    ensures Sub(a, b) == Add(a, Neg(b))
  {
    assert forall i :: 0 <= i < |a| ==> Sub(a, b)[i] == Add(a, Neg(b))[i];
  }

  /** Component-wise addition commutes, so `a + b` and `b + a` agree. */
  lemma AddCommutes(a: Vector, b: Vector)
    requires |a| == |b|
    ensures Add(a, b) == Add(b, a)
  {
    assert forall i :: 0 <= i < |a| ==> Add(a, b)[i] == Add(b, a)[i];
  }
}
