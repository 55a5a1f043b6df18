/**
 * The older `FractalSettings` of the region-based viewer: a fixed global
 * view rectangle, an integer zoom step `scale_i` whose range is
 * `global_range * 0.95^scale_i` (applied by the rendering backend), a
 * camera, and the `settings_applied` dirty flag. Doubles are `real`.
 */
module LegacySettings {
  import opened Base
  import opened Vectors

  const ColorsCount: nat := 10
  const ScaleFactor: real := 0.95
  const PanStep: real := 0.1
  const DefaultColorSeed: int := 1234

  /** The largest value of the `int` zoom counter; `++` past it is undefined behaviour. */
  const IntMax: int := 0x7fff_ffff

  datatype LegacySettings = LegacySettings(
    globalMin: Vec2,
    globalMax: Vec2,
    globalRange: Vec2,
    camera: Vec2,
    scaleI: int,
    colorSeed: int,
    settingsApplied: bool)

  /** What every reachable settings value satisfies: a non-negative zoom step. */
  predicate Valid(s: LegacySettings)
  {
    0 <= s.scaleI <= IntMax
  }

  /**
   * The constructor: the global rectangle `[-2, 0.47] x [-1.12, 1.12]`,
   * its range `max - min`, the camera at `min + range / 2`, zoom step 0,
   * seed 1234 and the flag cleared.
   */
  function New(): (s: LegacySettings)
    ensures Valid(s) && s.scaleI == 0 && !s.settingsApplied && s.colorSeed == DefaultColorSeed
    ensures s.globalMin == [-2.0, -1.12] && s.globalMax == [0.47, 1.12]
    ensures s.globalRange[0] == 2.47 && s.globalRange[1] == 2.24
    ensures s.camera[0] == (s.globalMin[0] + s.globalMax[0]) / 2.0
    ensures s.camera[1] == (s.globalMin[1] + s.globalMax[1]) / 2.0
  {
    var lo: Vec2 := [-2.0, -1.12];
    var hi: Vec2 := [0.47, 1.12];
    var range: Vec2 := Sub(hi, lo);
    var camera: Vec2 := Add(lo, DivScalar(range, 2.0));
    LegacySettings(lo, hi, range, camera, 0, DefaultColorSeed, false)
  }

  /** `IncrementScale`: one zoom step in, flag cleared. */
  function IncrementScale(s: LegacySettings): (r: LegacySettings)
    requires s.scaleI < IntMax
    ensures r.scaleI == s.scaleI + 1 && !r.settingsApplied
    ensures r == s.(scaleI := r.scaleI, settingsApplied := false)
  {
    s.(scaleI := s.scaleI + 1, settingsApplied := false)
  }

  /** `DecrementScale`: a no-op (flag included) at step 0, otherwise one step out. */
  function DecrementScale(s: LegacySettings): (r: LegacySettings)
    ensures s.scaleI == 0 ==> r == s
    ensures s.scaleI != 0 ==> r == s.(scaleI := s.scaleI - 1, settingsApplied := false)
  {
    if s.scaleI != 0 then s.(scaleI := s.scaleI - 1, settingsApplied := false) else s
  }

  /** `ShiftCameraX`: only the first camera coordinate moves; the flag is cleared. */
  function ShiftCameraX(s: LegacySettings, delta: real): (r: LegacySettings)
    ensures r.camera[0] == s.camera[0] + delta && r.camera[1] == s.camera[1]
    ensures r == s.(camera := r.camera, settingsApplied := false)
  {
    s.(camera := [s.camera[0] + delta, s.camera[1]], settingsApplied := false)
  }

  /** `ShiftCameraY`: only the second camera coordinate moves; the flag is cleared. */
  function ShiftCameraY(s: LegacySettings, delta: real): (r: LegacySettings)
    ensures r.camera[1] == s.camera[1] + delta && r.camera[0] == s.camera[0]
    ensures r == s.(camera := r.camera, settingsApplied := false)
  {
    s.(camera := [s.camera[0], s.camera[1] + delta], settingsApplied := false)
  }

  /** The view range the rendering backend derives: `global_range * 0.95^scale_i`. */
  function ViewRange(s: LegacySettings): (r: Vec2)
    requires Valid(s)
    ensures 0.0 < Pow(ScaleFactor, s.scaleI) <= 1.0
    ensures r[0] == s.globalRange[0] * Pow(ScaleFactor, s.scaleI)
    ensures r[1] == s.globalRange[1] * Pow(ScaleFactor, s.scaleI)
  {
    PowBetween(ScaleFactor, s.scaleI);
    MulScalar(s.globalRange, Pow(ScaleFactor, s.scaleI))
  }

  lemma {:induction false} PowBetween(x: real, n: nat)
    requires 0.0 < x <= 1.0
    ensures 0.0 < Pow(x, n) <= 1.0
  {
    if n > 0 {
      PowBetween(x, n - 1);
      assert x * Pow(x, n - 1) <= 1.0 * Pow(x, n - 1);
    }
  }

  /** Zooming in shrinks the view range by exactly the scale factor. */
  lemma IncrementShrinksRange(s: LegacySettings)
    requires Valid(s) && s.scaleI < IntMax
    ensures Valid(IncrementScale(s))
    ensures ViewRange(IncrementScale(s))[0] == ViewRange(s)[0] * ScaleFactor
    ensures ViewRange(IncrementScale(s))[1] == ViewRange(s)[1] * ScaleFactor
  {
    var p := Pow(ScaleFactor, s.scaleI);
    assert Pow(ScaleFactor, s.scaleI + 1) == ScaleFactor * p;
  }

  /** Every mutator keeps the zoom step in `[0, IntMax]`. */
  lemma MutatorsPreserveValid(s: LegacySettings, delta: real)
    requires Valid(s)
    ensures s.scaleI < IntMax ==> Valid(IncrementScale(s))
    ensures Valid(DecrementScale(s))
    ensures Valid(ShiftCameraX(s, delta)) && Valid(ShiftCameraY(s, delta))
  {
  }

  /** Stepping in and back out restores everything but the flag, which stays cleared. */
  lemma IncrementDecrementRoundTrip(s: LegacySettings)
    requires Valid(s) && s.scaleI < IntMax
    ensures DecrementScale(IncrementScale(s)) == s.(settingsApplied := false)
  {
  }
}
