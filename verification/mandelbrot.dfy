/**
 * The escape-time kernel. The C++ sources carry four textual copies of
 * one loop: `lib_fractal::MandelbrotLoop` over `double`, the identical
 * `DoMandelbrotLoop` of code/main.cpp, and the 100-digit decimal
 * `MandelbrotLoop` of gpu_fractal/code/mandelbrot.hpp, which tests the
 * iteration cap before the magnitude. All of them compute the same count
 * once arithmetic is exact, so the kernel is written here once over
 * `real` (`EscapeCount`), and each loop shape is a method proved equal to it.
 */
module Mandelbrot {

  datatype Complex = Complex(re: real, im: real)

  /** One step of `z <- z^2 + c`: `x' = x^2 - y^2 + x0`, `y' = 2xy + y0`. */
  function Step(z: Complex, c: Complex): Complex
  {
    var x := z.re;
    var y := z.im;
    Complex(x * x - y * y + c.re, 2.0 * x * y + c.im)
  }

  /** The k-th iterate of the orbit of `c`, starting from `z0 = 0`. */
  function Orbit(c: Complex, k: nat): Complex
  {
    if k == 0 then Complex(0.0, 0.0) else Step(Orbit(c, k - 1), c)
  }

  /** Divergence test on the squared magnitude: radius 2, no square root. */
  predicate Escaped(z: Complex)
  {
    z.re * z.re + z.im * z.im > 4.0
  }

  function EscapeFrom(c: Complex, k: nat, maxIterations: nat): nat
    requires k <= maxIterations
    decreases maxIterations - k
  {
    if k == maxIterations || Escaped(Orbit(c, k)) then k
    else EscapeFrom(c, k + 1, maxIterations)
  }

  /** Number of iterations before the orbit of `x0 + i*y0` escapes, capped. */
  function EscapeCount(x0: real, y0: real, maxIterations: nat): nat
  {
    EscapeFrom(Complex(x0, y0), 0, maxIterations)
  }

  /**
   * What the count means: every iterate before it stays inside the radius,
   * and if it is below the cap the iterate it stops at has escaped.
   */
  predicate IsEscapeCount(c: Complex, maxIterations: nat, n: nat)
  {
    && n <= maxIterations
    && (forall k :: 0 <= k < n ==> !Escaped(Orbit(c, k)))
    && (n < maxIterations ==> Escaped(Orbit(c, n)))
  }

  lemma {:induction false} EscapeFromMeaning(c: Complex, k: nat, maxIterations: nat)
    requires k <= maxIterations
    requires forall j :: 0 <= j < k ==> !Escaped(Orbit(c, j))
    ensures IsEscapeCount(c, maxIterations, EscapeFrom(c, k, maxIterations))
    decreases maxIterations - k
  {
    if k == maxIterations || Escaped(Orbit(c, k)) {
    } else {
      EscapeFromMeaning(c, k + 1, maxIterations);
    }
  }

  lemma OrbitSucc(c: Complex, k: nat)
    ensures Orbit(c, k + 1) == Step(Orbit(c, k), c)
  {
  }

  /** `Step` written out on the coordinates the loops keep. */
  lemma StepInCoordinates(x: real, y: real, c: Complex)
    ensures Step(Complex(x, y), c) == Complex(x * x - y * y + c.re, 2.0 * x * y + c.im)
  {
    var z := Step(Complex(x, y), c);
    assert z.re == x * x - y * y + c.re;
    assert z.im == 2.0 * x * y + c.im;
  }

  /**
   * One turn of either loop: an iterate inside the radius, below the cap,
   * moves the count forward, and the next iterate is the coordinate update.
   */
  lemma Advance(c: Complex, x: real, y: real, k: nat, maxIterations: nat)
    requires k < maxIterations
    requires Complex(x, y) == Orbit(c, k) && x * x + y * y <= 4.0
    ensures EscapeFrom(c, k, maxIterations) == EscapeFrom(c, k + 1, maxIterations)
    ensures Orbit(c, k + 1) == Complex(x * x - y * y + c.re, 2.0 * x * y + c.im)
  {
    OrbitSucc(c, k);
    StepInCoordinates(x, y, c);
  }

  /** The count stops at an iterate outside the radius, or at the cap. */
  lemma Stop(c: Complex, x: real, y: real, k: nat, maxIterations: nat)
    requires k <= maxIterations
    requires Complex(x, y) == Orbit(c, k) && (k == maxIterations || x * x + y * y > 4.0)
    ensures EscapeFrom(c, k, maxIterations) == k
  {
    if k < maxIterations {
      assert Escaped(Complex(x, y));
    }
  }

  /** The count is characterised by `IsEscapeCount`, and by nothing else. */
  lemma EscapeCountCharacterised(x0: real, y0: real, maxIterations: nat, n: nat)
    ensures IsEscapeCount(Complex(x0, y0), maxIterations, EscapeCount(x0, y0, maxIterations))
    ensures IsEscapeCount(Complex(x0, y0), maxIterations, n) ==> n == EscapeCount(x0, y0, maxIterations)
  {
    var c := Complex(x0, y0);
    EscapeFromMeaning(c, 0, maxIterations);
  }

  /**
   * `lib_fractal::MandelbrotLoop` and `DoMandelbrotLoop`: the magnitude is
   * tested before the cap, and the loop stops on whichever fails first.
   */
  method MandelbrotLoop(x0: real, y0: real, maxIterations: nat) returns (iteration: nat)
    ensures iteration <= maxIterations
    ensures maxIterations == 0 ==> iteration == 0
    ensures IsEscapeCount(Complex(x0, y0), maxIterations, iteration)
    ensures iteration == EscapeCount(x0, y0, maxIterations)
  {
    ghost var c := Complex(x0, y0);
    var x := 0.0;
    var y := 0.0;
    iteration := 0;
    while x * x + y * y <= 4.0 && iteration != maxIterations
      invariant iteration <= maxIterations
      invariant Complex(x, y) == Orbit(c, iteration)
      invariant EscapeFrom(c, iteration, maxIterations) == EscapeCount(x0, y0, maxIterations)
      decreases maxIterations - iteration
    {
      Advance(c, x, y, iteration, maxIterations);
      var xTemp := x * x - y * y + x0;
      var yNext := 2.0 * x * y + y0;
      y := yNext;
      x := xTemp;
      iteration := iteration + 1;
    }
    Stop(c, x, y, iteration, maxIterations);
    EscapeCountCharacterised(x0, y0, maxIterations, iteration);
  }

  /**
   * The extended-precision loop of gpu_fractal/code/mandelbrot.hpp: the cap
   * is tested first, then the loop breaks when `xs + ys` compares strictly
   * greater than 4; the update reuses the squares `xs` and `ys`.
   */
  method MandelbrotLoopCapFirst(x0: real, y0: real, maxIterations: nat) returns (iteration: nat)
    ensures iteration <= maxIterations
    ensures maxIterations == 0 ==> iteration == 0
    ensures IsEscapeCount(Complex(x0, y0), maxIterations, iteration)
    ensures iteration == EscapeCount(x0, y0, maxIterations)
  {
    ghost var c := Complex(x0, y0);
    var x := 0.0;
    var y := 0.0;
    iteration := 0;
    while iteration != maxIterations
      invariant iteration <= maxIterations
      invariant Complex(x, y) == Orbit(c, iteration)
      invariant EscapeFrom(c, iteration, maxIterations) == EscapeCount(x0, y0, maxIterations)
      decreases maxIterations - iteration
    {
      var xs := x * x;
      var ys := y * y;
      if xs + ys > 4.0 {
        break;
      }
      Advance(c, x, y, iteration, maxIterations);
      var xTemp := xs - ys + x0;
      var yNext := 2.0 * x * y + y0;
      y := yNext;
      x := xTemp;
      iteration := iteration + 1;
    }
    Stop(c, x, y, iteration, maxIterations);
    EscapeCountCharacterised(x0, y0, maxIterations, iteration);
  }

  /** The origin is a fixed point of `z^2 + 0`: it never escapes. */
  lemma {:induction false} OriginOrbitIsZero(k: nat)
    ensures Orbit(Complex(0.0, 0.0), k) == Complex(0.0, 0.0)
  {
    if k > 0 {
      OriginOrbitIsZero(k - 1);
    }
  }

  lemma OriginNeverEscapes(maxIterations: nat)
    ensures EscapeCount(0.0, 0.0, maxIterations) == maxIterations
  {
    var c := Complex(0.0, 0.0);
    forall k | 0 <= k < maxIterations
      ensures !Escaped(Orbit(c, k))
    {
      OriginOrbitIsZero(k);
    }
    EscapeCountCharacterised(0.0, 0.0, maxIterations, maxIterations);
  }

  /** `c = -1` has the period-2 orbit 0, -1, 0, -1, ... */
  lemma {:induction false} MinusOneOrbit(k: nat)
    ensures Orbit(Complex(-1.0, 0.0), k) == (if k % 2 == 0 then Complex(0.0, 0.0) else Complex(-1.0, 0.0))
  {
    if k > 0 {
      MinusOneOrbit(k - 1);
      var prev := Orbit(Complex(-1.0, 0.0), k - 1);
      assert Orbit(Complex(-1.0, 0.0), k) == Step(prev, Complex(-1.0, 0.0));
      if k % 2 == 0 {
        assert prev == Complex(-1.0, 0.0);
        assert Step(prev, Complex(-1.0, 0.0)) == Complex(0.0, 0.0);
      } else {
        assert prev == Complex(0.0, 0.0);
        assert Step(prev, Complex(-1.0, 0.0)) == Complex(-1.0, 0.0);
      }
    }
  }

  lemma MinusOneNeverEscapes(maxIterations: nat)
    ensures EscapeCount(-1.0, 0.0, maxIterations) == maxIterations
  {
    var c := Complex(-1.0, 0.0);
    forall k | 0 <= k < maxIterations
      ensures !Escaped(Orbit(c, k))
    {
      MinusOneOrbit(k);
    }
    EscapeCountCharacterised(-1.0, 0.0, maxIterations, maxIterations);
  }

  /**
   * `c = 2` lands exactly on the radius (`|z1|^2 = 4`, not greater) and
   * escapes at the second iterate, so the count is 2, not 0.
   */
  lemma TwoEscapesAtSecondIterate(maxIterations: nat)
    requires maxIterations >= 2
    ensures EscapeCount(2.0, 0.0, maxIterations) == 2
  {
    var c := Complex(2.0, 0.0);
    assert Orbit(c, 1) == Complex(2.0, 0.0);
    assert Orbit(c, 2) == Complex(6.0, 0.0);
    Advance(c, 0.0, 0.0, 0, maxIterations);
    Advance(c, 2.0, 0.0, 1, maxIterations);
    Stop(c, 6.0, 0.0, 2, maxIterations);
  }
}
