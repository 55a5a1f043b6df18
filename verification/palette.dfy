/**
 * Colour tables. Three independent schemes live in the sources:
 *  - the render-thread `ColorForIteration` of both CPU backends, which
 *    blends two neighbouring colours of the settings' colour list;
 *  - the precomputed `lib_fractal::pallete::MakePallete<N>`, one colour per
 *    iteration count, whose channels fall off linearly from a per-channel
 *    centre;
 *  - the red-to-white gradient palette of code/main.cpp.
 * Float casts are exact here: `static_cast<uint8_t>` of a non-negative value
 * is its floor, and a value above 255 is the undefined conversion the
 * constexpr evaluator rejects, modelled as `None`.
 */
module Palette {
  import opened Base
  import opened Arith

  /** `lib_fractal::Color` and `Eigen::Vector3<uint8_t>`. */
  datatype Rgb = Rgb(r: byte, g: byte, b: byte)

  /** raylib's `Color`, with alpha. */
  datatype Rgba = Rgba(r: byte, g: byte, b: byte, a: byte)

  const Black: Rgb := Rgb(0, 0, 0)
  const RayWhite: Rgba := Rgba(255, 255, 255, 255)
  const RayBlack: Rgba := Rgba(0, 0, 0, 255)

  /** `Eigen::Vector3f`, a colour with float channels in the settings. */
  datatype ColorF = ColorF(r: real, g: real, b: real)

  /** `Color::Fill(v)`: all three channels set to `v`. */
  function Fill(v: byte): Rgb
  {
    Rgb(v, v, v)
  }

  // ---------------------------------------------------------------------
  // Segment blend of the render threads
  // ---------------------------------------------------------------------

  /**
   * The divisions of `ColorForIteration` are defined: at least two colours
   * (one segment), and at least one iteration per segment.
   */
  predicate BlendSettings(colorsCount: nat, iterations: nat)
  {
    colorsCount >= 2 && iterations >= colorsCount - 1
  }

  /** `first_color_index = iteration * segments / iterations`. */
  function SegmentIndex(colorsCount: nat, iterations: nat, iteration: nat): (first: nat)
    requires BlendSettings(colorsCount, iterations) && iteration < iterations
    ensures first + 1 < colorsCount
    ensures first * iterations <= iteration * (colorsCount - 1) < (first + 1) * iterations
  {
    var segments := colorsCount - 1;
    var k := iteration * segments;
    MulStrict(iteration, iterations, segments);
    DivBelow(k, iterations, segments);
    DivMod(k, iterations);
    k / iterations
  }

  /**
   * The blend weight as written: `k % iterations_per_segment` over
   * `iterations_per_segment`, where `k = iteration * segments`.
   */
  function BlendFractionAsWritten(colorsCount: nat, iterations: nat, iteration: nat): (p: real)
    requires BlendSettings(colorsCount, iterations)
    ensures 0.0 <= p < 1.0
  {
    var segments := colorsCount - 1;
    var perSegment := iterations / segments;
    assert perSegment >= 1;
    ((iteration * segments) % perSegment) as real / perSegment as real
  }

  /**
   * With ten colours and 1000 iterations, iterations 12 and 13 both blend
   * segment 0, yet the weight falls from 108/111 to 6/111: the as-written
   * weight is not monotone inside a segment, so the gradient saw-tooths.
   */
  lemma BlendFractionAsWrittenJumps()
    ensures SegmentIndex(10, 1000, 12) == SegmentIndex(10, 1000, 13) == 0
    ensures BlendFractionAsWritten(10, 1000, 12) == 108.0 / 111.0
    ensures BlendFractionAsWritten(10, 1000, 13) == 6.0 / 111.0
    ensures BlendFractionAsWritten(10, 1000, 13) < BlendFractionAsWritten(10, 1000, 12)
  {
  }

  /**
   * The blend weight that matches `SegmentIndex`: the fractional part of
   * `iteration * segments / iterations`.
   */
  function BlendFraction(colorsCount: nat, iterations: nat, iteration: nat): (p: real)
    requires BlendSettings(colorsCount, iterations) && iteration < iterations
    ensures 0.0 <= p < 1.0
  {
    var k := iteration * (colorsCount - 1);
    (k % iterations) as real / iterations as real
  }

  /**
   * Segment index plus weight is the exact position of the iteration along
   * the colour list, so the weight rises with the iteration inside a segment.
   */
  lemma BlendPosition(colorsCount: nat, iterations: nat, iteration: nat)
    requires BlendSettings(colorsCount, iterations) && iteration < iterations
    ensures SegmentIndex(colorsCount, iterations, iteration) as real
              + BlendFraction(colorsCount, iterations, iteration)
            == (iteration * (colorsCount - 1)) as real / iterations as real
  {
    var k := iteration * (colorsCount - 1);
    var q := k / iterations;
    var m := k % iterations;
    assert k == q * iterations + m;
    assert (k as real) / (iterations as real) == (q * iterations) as real / iterations as real + m as real / iterations as real;
  }

  lemma BlendFractionMonotone(colorsCount: nat, iterations: nat, i: nat, j: nat)
    requires BlendSettings(colorsCount, iterations) && i < j < iterations
    requires SegmentIndex(colorsCount, iterations, i) == SegmentIndex(colorsCount, iterations, j)
    ensures BlendFraction(colorsCount, iterations, i) < BlendFraction(colorsCount, iterations, j)
  {
    BlendPosition(colorsCount, iterations, i);
    BlendPosition(colorsCount, iterations, j);
    var s := colorsCount - 1;
    MulStrict(i, j, s);
    RealDivStrict((i * s) as real, (j * s) as real, iterations as real);
  }

  /** `a + (b - a) * p` truncated to a byte, for a weight in [0, 1). */
  function Lerp(a: byte, b: byte, p: real): (v: byte)
    requires 0.0 <= p < 1.0
    ensures a <= b ==> a <= v <= b
    ensures b <= a ==> b <= v <= a
    ensures p == 0.0 ==> v == a
  {
    var x := a as real + Scaled(b as real - a as real, p);
    ScaledSigns(a as real - b as real, p);
    if a <= b then
      ScaleWithin(b as real - a as real, p);
      FloorBetween(x, a, b);
      x.Floor
    else
      ScaleWithin(a as real - b as real, p);
      FloorBetween(x, b, a);
      x.Floor
  }

  lemma FloorBetween(x: real, lo: int, hi: int)
    requires lo as real <= x <= hi as real
    ensures lo <= x.Floor <= hi
  {
  }

  /** The colour `a + (b - a) * p` of a blend with weight `p`, channel by channel. */
  function Blend(a: Rgb, b: Rgb, p: real): (c: Rgb)
    requires 0.0 <= p < 1.0
    ensures Between(c.r, a.r, b.r) && Between(c.g, a.g, b.g) && Between(c.b, a.b, b.b)
    ensures p == 0.0 ==> c == a
  {
    Rgb(Lerp(a.r, b.r, p), Lerp(a.g, b.g, p), Lerp(a.b, b.b, p))
  }

  /**
   * `ColorForIteration` of both CPU backends: black for a point that never
   * escaped, otherwise the two colours around its segment blended with the
   * weight the code computes, `BlendFractionAsWritten`.
   */
  function ColorForIteration(colors: seq<Rgb>, iterations: nat, iteration: nat): (c: Rgb)
    requires BlendSettings(|colors|, iterations) && iteration <= iterations
    ensures iteration == iterations ==> c == Black
    ensures iteration < iterations ==>
      var first := SegmentIndex(|colors|, iterations, iteration);
      && Between(c.r, colors[first].r, colors[first + 1].r)
      && Between(c.g, colors[first].g, colors[first + 1].g)
      && Between(c.b, colors[first].b, colors[first + 1].b)
  {
    if iteration == iterations then Black
    else
      var first := SegmentIndex(|colors|, iterations, iteration);
      Blend(colors[first], colors[first + 1], BlendFractionAsWritten(|colors|, iterations, iteration))
  }

  /**
   * The colour the blend evidently intends: the same segment, blended with
   * the fractional part of the position along the colour list.
   */
  function ColorForIterationIntended(colors: seq<Rgb>, iterations: nat, iteration: nat): (c: Rgb)
    requires BlendSettings(|colors|, iterations) && iteration <= iterations
    ensures iteration == iterations ==> c == Black
    ensures iteration < iterations ==>
      var first := SegmentIndex(|colors|, iterations, iteration);
      && Between(c.r, colors[first].r, colors[first + 1].r)
      && Between(c.g, colors[first].g, colors[first + 1].g)
      && Between(c.b, colors[first].b, colors[first + 1].b)
  {
    if iteration == iterations then Black
    else
      var first := SegmentIndex(|colors|, iterations, iteration);
      Blend(colors[first], colors[first + 1], BlendFraction(|colors|, iterations, iteration))
  }

  /**
   * With ten colours, 1000 iterations and a red channel rising from 0 to 111
   * over the first segment, iteration 12 is drawn with red 108, almost the
   * segment's end colour, where the intended blend gives 11.
   */
  lemma ColorForIterationAsWrittenDiffers(colors: seq<Rgb>)
    requires |colors| == 10 && colors[0].r == 0 && colors[1].r == 111
    ensures ColorForIteration(colors, 1000, 12).r == 108
    ensures ColorForIterationIntended(colors, 1000, 12).r == 11
  {
    BlendFractionAsWrittenJumps();
    assert BlendFraction(10, 1000, 12) == 108.0 / 1000.0;
    assert Scaled(111.0, 108.0 / 111.0) == 108.0;
    assert Scaled(111.0, 108.0 / 1000.0) == 11988.0 / 1000.0;
  }

  predicate Between(v: int, a: int, b: int)
  {
    (a <= v <= b) || (b <= v <= a)
  }

  /** Iteration 0 sits exactly on the first colour of the list, as written and as intended. */
  lemma ColorForIterationStartsAtFirstColor(colors: seq<Rgb>, iterations: nat)
    requires BlendSettings(|colors|, iterations)
    ensures ColorForIteration(colors, iterations, 0) == colors[0]
    ensures ColorForIterationIntended(colors, iterations, 0) == colors[0]
  {
    assert SegmentIndex(|colors|, iterations, 0) == 0;
    assert BlendFractionAsWritten(|colors|, iterations, 0) == 0.0;
    assert BlendFraction(|colors|, iterations, 0) == 0.0;
  }

  // ---------------------------------------------------------------------
  // lib_fractal::pallete
  // ---------------------------------------------------------------------

  /** `300 + (offset * (2 * index + 3) / 2) % max_iterations`, `offset = max/3`. */
  function ChannelCenter(n: nat, index: nat): (center: nat)
    requires 0 < n
    ensures 300 <= center < 300 + n
  {
    300 + ((n / 3) * (2 * index + 3) / 2) % n
  }

  /**
   * `max_dist`: the larger of `center` and `max_iterations - center`, where
   * the subtraction is on `size_t` and wraps when the centre lies beyond
   * `max_iterations`.
   */
  function MaxDist(n: nat, center: nat): (d: nat)
    requires n < U32_LIMIT && center < U32_LIMIT
    ensures d >= center
    ensures center <= n ==> d >= n - center
    ensures n < center ==> d == U64_LIMIT + n - center
  {
    var other := SizeSub(n, center);
    if center > other then center else other
  }

  function AbsDiff(a: nat, b: nat): nat
  {
    if a > b then a - b else b - a
  }

  /** The channels' palette sizes: `max_iterations` positive, centres below 2^32. */
  predicate PaletteSize(n: nat)
  {
    0 < n < U32_LIMIT - 300
  }

  /** `255 * dist / max_dist` for one centre, truncated, before the cast to `uint8_t`. */
  function ChannelValue(n: nat, center: nat, iteration: nat): nat
    requires PaletteSize(n) && 300 <= center < 300 + n
  {
    var d := MaxDist(n, center);
    DivNonNegative(255 * AbsDiff(center, iteration), d);
    (255 * AbsDiff(center, iteration)) / d
  }

  /** With the centre and the iteration inside `[0, n]`, a channel fits a byte. */
  lemma ChannelFits(n: nat, center: nat, iteration: nat)
    requires PaletteSize(n) && 300 <= center <= n && iteration <= n
    ensures ChannelValue(n, center, iteration) <= 255
  {
    var d := MaxDist(n, center);
    var dist := AbsDiff(center, iteration);
    assert dist <= d;
    MulMonotone(dist, d, 255);
    DivMonotone(255 * dist, 255 * d, d);
    DivExact(255, d);
  }

  /** The channel vanishes at its centre. */
  lemma ChannelZeroAtCenter(n: nat, center: nat)
    requires PaletteSize(n) && 300 <= center < 300 + n
    ensures ChannelValue(n, center, center) == 0
  {
  }

  /**
   * A centre beyond `max_iterations` wraps `max_dist` to nearly 2^64, and the
   * channel is 0 for every iteration below 2^32.
   */
  lemma WrappedChannelIsZero(n: nat, center: nat, iteration: nat)
    requires PaletteSize(n) && 300 <= center < 300 + n && n < center && iteration < U32_LIMIT
    ensures ChannelValue(n, center, iteration) == 0
  {
    var d := MaxDist(n, center);
    var dist := AbsDiff(center, iteration);
    assert dist < U32_LIMIT;
    MulMonotone(dist, U32_LIMIT, 255);
    assert 255 * dist < d;
    DivMod(255 * dist, d);
  }

  /** The three channel values of an iteration, red first. */
  function Channels(n: nat, iteration: nat): (c: (nat, nat, nat))
    requires PaletteSize(n)
  {
    (ChannelValue(n, ChannelCenter(n, 0), iteration),
     ChannelValue(n, ChannelCenter(n, 1), iteration),
     ChannelValue(n, ChannelCenter(n, 2), iteration))
  }

  /**
   * `MakeColorForIteration<n>(iteration)`: white for 0, black above 999,
   * otherwise one channel per centre; `None` when a channel exceeds 255.
   */
  function MakeColorForIteration(n: nat, iteration: nat): (c: Option<Rgb>)
    requires PaletteSize(n)
    ensures iteration == 0 ==> c == Some(Fill(255))
    ensures iteration > 999 ==> c == Some(Fill(0))
    ensures 0 < iteration <= 999 ==>
      var (r, g, b) := Channels(n, iteration);
      && (c.Some? <==> r <= 255 && g <= 255 && b <= 255)
      && (c.Some? ==> c.value == Rgb(r, g, b))
  {
    if iteration == 0 then Some(Fill(255))
    else if iteration > 999 then Some(Fill(0))
    else
      var (r, g, b) := Channels(n, iteration);
      if r <= 255 && g <= 255 && b <= 255 then Some(Rgb(r, g, b)) else None
  }

  /** Every iteration in `[0, n]` has a colour when all three centres lie in `[0, n]`. */
  lemma MakeColorForIterationDefined(n: nat, iteration: nat)
    requires PaletteSize(n) && iteration <= n
    requires ChannelCenter(n, 0) <= n && ChannelCenter(n, 1) <= n && ChannelCenter(n, 2) <= n
    ensures MakeColorForIteration(n, iteration).Some?
  {
    ChannelFits(n, ChannelCenter(n, 0), iteration);
    ChannelFits(n, ChannelCenter(n, 1), iteration);
    ChannelFits(n, ChannelCenter(n, 2), iteration);
  }

  /** `MakePallete<n>()`: entry `i` is `MakeColorForIteration<n>(i)`. */
  method MakePallete(n: nat) returns (palette: Option<seq<Rgb>>)
    requires PaletteSize(n)
    ensures palette.Some? <==> forall i :: 0 <= i < n ==> MakeColorForIteration(n, i).Some?
    ensures palette.Some? ==> |palette.value| == n
    ensures palette.Some? ==> forall i :: 0 <= i < n ==> Some(palette.value[i]) == MakeColorForIteration(n, i)
  {
    var result: seq<Rgb> := [];
    var i := 0;
    while i != n
      invariant 0 <= i <= n
      invariant |result| == i
      invariant forall j :: 0 <= j < i ==> Some(result[j]) == MakeColorForIteration(n, j)
    {
      var c := MakeColorForIteration(n, i);
      if c.None? {
        return None;
      }
      result := result + [c.value];
      i := i + 1;
    }
    return Some(result);
  }

  /** The centres of the 1001-entry table of cpu_fractal/code/main.cpp. */
  lemma Pallete1001Centers()
    ensures ChannelCenter(1001, 0) == 799
    ensures ChannelCenter(1001, 1) == 1132
    ensures ChannelCenter(1001, 2) == 464
  {
    assert 1001 / 3 == 333;
    assert 333 * 3 / 2 == 499;
    assert 333 * 5 / 2 == 832;
    assert 333 * 7 / 2 == 1165;
    assert 1165 % 1001 == 164;
  }

  /**
   * In the 1001-entry table the green centre, 1132, lies past the end, so
   * green is 0 for every iteration from 1 to 999; every entry is defined.
   */
  lemma Pallete1001GreenIsZero(iteration: nat)
    requires 0 < iteration <= 999
    ensures MakeColorForIteration(1001, iteration).Some?
    ensures MakeColorForIteration(1001, iteration).value.g == 0
  {
    Pallete1001Centers();
    WrappedChannelIsZero(1001, 1132, iteration);
    ChannelFits(1001, 799, iteration);
    ChannelFits(1001, 464, iteration);
  }

  lemma Pallete1001Defined(iteration: nat)
    requires iteration < 1001
    ensures MakeColorForIteration(1001, iteration).Some?
  {
    if 0 < iteration <= 999 {
      Pallete1001GreenIsZero(iteration);
    }
  }

  /** `ToRayColor`: the channels unchanged and an opaque alpha. */
  function ToRayColor(c: Rgb): (ray: Rgba)
    ensures ray.a == 255
    ensures FromRayColor(ray) == c
  {
    Rgba(c.r, c.g, c.b, 255)
  }

  function FromRayColor(c: Rgba): Rgb
  {
    Rgb(c.r, c.g, c.b)
  }

  // ---------------------------------------------------------------------
  // The gradient palette of code/main.cpp
  // ---------------------------------------------------------------------

  const GradientStart: nat := 4
  const GradientEnd: nat := 100

  /** The gradient weight `k`: 0 before 4, 1 from 100 on, linear in between. */
  function GradientWeight(i: nat): (k: real)
    ensures 0.0 <= k <= 1.0
    ensures i < GradientStart ==> k == 0.0
    ensures i >= GradientEnd ==> k == 1.0
  {
    if i < GradientStart then 0.0
    else if i >= GradientEnd then 1.0
    else (i - GradientStart) as real / (GradientEnd - GradientStart) as real
  }

  lemma GradientWeightMonotone(i: nat, j: nat)
    requires i <= j
    ensures GradientWeight(i) <= GradientWeight(j)
  {
    if GradientStart <= i && j < GradientEnd {
      assert (i - GradientStart) as real <= (j - GradientStart) as real;
    }
  }

  /** `compute_color(k)`: red, with green and blue lowered by `uint8(255 k)`. */
  function GradientColor(k: real): (c: Rgba)
    requires 0.0 <= k <= 1.0
    ensures c.r == 255 && c.a == 255 && c.g == c.b
    ensures c.g == 255 - (255.0 * k).Floor
  {
    var kk := (255.0 * k).Floor;
    Rgba(255, 255 - kk, 255 - kk, 255)
  }

  /** The darker the weight, the lower green and blue. */
  lemma GradientGreenNonIncreasing(i: nat, j: nat)
    requires i <= j
    ensures GradientColor(GradientWeight(j)).g <= GradientColor(GradientWeight(i)).g
  {
    GradientWeightMonotone(i, j);
    var ki := GradientWeight(i);
    var kj := GradientWeight(j);
    assert 255.0 * ki <= 255.0 * kj;
  }

  /**
   * `MakePallete<n>()` of code/main.cpp: all white, then the front white,
   * the back black, and entries 1 .. n-2 from the gradient.
   */
  method MakeGradientPalette(n: nat) returns (palette: seq<Rgba>)
    requires n >= 2
    ensures |palette| == n
    ensures palette[0] == RayWhite && palette[n - 1] == RayBlack
    ensures forall i :: 0 < i < n - 1 ==> palette[i] == GradientColor(GradientWeight(i))
  {
    palette := seq(n, _ => Rgba(255, 255, 255, 255));
    palette := palette[0 := RayWhite];
    palette := palette[n - 1 := RayBlack];
    var i := 1;
    while i != n - 1
      invariant 1 <= i <= n - 1
      invariant |palette| == n
      invariant palette[0] == RayWhite && palette[n - 1] == RayBlack
      invariant forall j :: 0 < j < i ==> palette[j] == GradientColor(GradientWeight(j))
    {
      palette := palette[i := GradientColor(GradientWeight(i))];
      i := i + 1;
    }
  }

  // ---------------------------------------------------------------------
  // Settings colours to bytes
  // ---------------------------------------------------------------------

  /** Float colour channels the `uint8_t` cast of `c * 255` is defined on. */
  predicate ColorsInRange(colors: seq<ColorF>)
  {
    forall i :: 0 <= i < |colors| ==>
      0.0 <= colors[i].r <= 1.0 && 0.0 <= colors[i].g <= 1.0 && 0.0 <= colors[i].b <= 1.0
  }

  /** `static_cast<uint8_t>(c * 255.f)`: truncation of the scaled channel. */
  function ByteChannel(c: real): (v: byte)
    requires 0.0 <= c <= 1.0
    ensures v as real <= 255.0 * c < v as real + 1.0
  {
    FloorBetween(255.0 * c, 0, 255);
    (255.0 * c).Floor
  }

  /** One byte colour per settings colour, in order. */
  function ByteColors(colors: seq<ColorF>): (r: seq<Rgb>)
    requires ColorsInRange(colors)
    ensures |r| == |colors|
    ensures forall i :: 0 <= i < |colors| ==>
      r[i] == Rgb(ByteChannel(colors[i].r), ByteChannel(colors[i].g), ByteChannel(colors[i].b))
  {
    seq(|colors|, i requires 0 <= i < |colors| =>
      Rgb(ByteChannel(colors[i].r), ByteChannel(colors[i].g), ByteChannel(colors[i].b)))
  }
}
