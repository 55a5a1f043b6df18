/**
 * `FractalSettings` of the fractal viewer: the camera, an exponential zoom,
 * the viewport size, and the derived view rectangle (`min_coord_`,
 * `max_coord_`, `coord_range_`) and world step per pixel. `Update`
 * recomputes the derived fields and clears the `settings_applied` dirty
 * flag that the rendering backend watches. The 100-digit decimal `Float`
 * is `real`. Every mutator returns the new settings value.
 */
module FractalSettings {
  import opened Base
  import opened Vectors
  import Palette

  const ColorsCount: nat := 10
  const DefaultScaleFactor: real := 0.95
  const DefaultPanSpeed: real := 0.1
  const DefaultSize: nat := 800
  const DefaultColorSeed: int := 1234

  datatype Settings = Settings(
    colorSeed: int,
    colors: seq<Palette.ColorF>,
    settingsApplied: bool,
    useDouble: bool,
    scale: real,
    scaleFactor: real,
    zoom: nat,
    coordRange: Vec2,
    minCoord: Vec2,
    maxCoord: Vec2,
    stepPerPixel: Vec2,
    width: nat,
    height: nat,
    panSpeed: real,
    camera: Vec2)

  /** The divisions by the viewport size are defined, and `zoom_` is a `uint16_t`. */
  predicate Sized(s: Settings)
  {
    s.width > 0 && s.height > 0 && s.zoom < U16_LIMIT
  }

  /**
   * The view the derived fields describe, stated as geometry rather than
   * as the computation: the scale is `factor^zoom`; the shorter screen axis
   * spans `4 * scale` and the longer one keeps the screen's aspect ratio;
   * the camera is the midpoint of `[min, max]`; `max - min` is the range;
   * and one step per pixel crosses the range in `width` (`height`) steps.
   */
  predicate Derived(s: Settings)
    requires Sized(s)
  {
    var w := s.width as real;
    var h := s.height as real;
    && s.scale == Pow(s.scaleFactor, s.zoom)
    && (s.width >= s.height ==> s.coordRange[1] == 4.0 * s.scale)
    && (s.height >= s.width ==> s.coordRange[0] == 4.0 * s.scale)
    && s.coordRange[0] * h == s.coordRange[1] * w
    && s.maxCoord[0] - s.minCoord[0] == s.coordRange[0]
    && s.maxCoord[1] - s.minCoord[1] == s.coordRange[1]
    && s.minCoord[0] + s.maxCoord[0] == 2.0 * s.camera[0]
    && s.minCoord[1] + s.maxCoord[1] == 2.0 * s.camera[1]
    && s.stepPerPixel[0] * w == s.coordRange[0]
    && s.stepPerPixel[1] * h == s.coordRange[1]
  }

  /** The fields `Update` does not touch. */
  predicate SameInputs(a: Settings, b: Settings)
  {
    && a.colorSeed == b.colorSeed && a.colors == b.colors && a.useDouble == b.useDouble
    && a.scaleFactor == b.scaleFactor && a.zoom == b.zoom
    && a.width == b.width && a.height == b.height
    && a.panSpeed == b.panSpeed && a.camera == b.camera
  }

  /** `offset`: `2 * scale` on both axes, the longer axis stretched by the aspect ratio. */
  function Offset(scale: real, width: nat, height: nat): Vec2
    requires width > 0 && height > 0
  {
    var o := scale * 2.0;
    if width != height then
      if width > height then [o * (width as real / height as real), o]
      else [o, o * (height as real / width as real)]
    else [o, o]
  }

  lemma AspectStretch(o: real, a: nat, b: nat)
    requires a > 0 && b > 0
    ensures (o * (a as real / b as real)) * b as real == o * a as real
  {
  }

  lemma StepTimesSize(range: real, n: nat)
    requires n > 0
    ensures (range / n as real) * n as real == range
  {
  }

  /** `Update()`: clears the dirty flag and recomputes the view from the inputs. */
  function Update(s: Settings): (r: Settings)
    requires Sized(s)
    ensures Sized(r) && Derived(r) && SameInputs(r, s)
    ensures !r.settingsApplied
  {
    var scale := Pow(s.scaleFactor, s.zoom);
    var offset := Offset(scale, s.width, s.height);
    var minCoord: Vec2 := Sub(s.camera, offset);
    var maxCoord: Vec2 := Add(s.camera, offset);
    var coordRange: Vec2 := MulScalar(offset, 2.0);
    var step: Vec2 := [coordRange[0] / s.width as real, coordRange[1] / s.height as real];
    var r := s.(settingsApplied := false, scale := scale, coordRange := coordRange,
                minCoord := minCoord, maxCoord := maxCoord, stepPerPixel := step);
    AspectStretch(scale * 2.0 * 2.0, s.width, s.height);
    AspectStretch(scale * 2.0 * 2.0, s.height, s.width);
    assert (scale * 2.0 * (s.width as real / s.height as real)) * 2.0
        == scale * 2.0 * 2.0 * (s.width as real / s.height as real);
    assert (scale * 2.0 * (s.height as real / s.width as real)) * 2.0
        == scale * 2.0 * 2.0 * (s.height as real / s.width as real);
    StepTimesSize(coordRange[0], s.width);
    StepTimesSize(coordRange[1], s.height);
    r
  }

  /** The range and step depend only on the viewport size, the scale factor and the zoom. */
  lemma RangeDeterminedByZoom(a: Settings, b: Settings)
    requires Sized(a) && Sized(b) && Derived(a) && Derived(b)
    requires a.width == b.width && a.height == b.height
    requires a.scaleFactor == b.scaleFactor && a.zoom == b.zoom
    ensures a.coordRange == b.coordRange && a.stepPerPixel == b.stepPerPixel
  {
    SameRange(a, b);
    CancelFactor(a.stepPerPixel[0], b.stepPerPixel[0], a.width as real);
    CancelFactor(a.stepPerPixel[1], b.stepPerPixel[1], a.height as real);
    assert a.stepPerPixel == b.stepPerPixel;
  }

  lemma SameRange(a: Settings, b: Settings)
    requires Sized(a) && Sized(b) && Derived(a) && Derived(b)
    requires a.width == b.width && a.height == b.height
    requires a.scaleFactor == b.scaleFactor && a.zoom == b.zoom
    ensures a.coordRange == b.coordRange
  {
    var w := a.width as real;
    var h := a.height as real;
    if a.width >= a.height {
      assert a.coordRange[1] == b.coordRange[1];
      assert a.coordRange[0] * h == b.coordRange[0] * h;
      CancelFactor(a.coordRange[0], b.coordRange[0], h);
    } else {
      assert a.coordRange[0] == b.coordRange[0];
      assert a.coordRange[1] * w == b.coordRange[1] * w;
      CancelFactor(a.coordRange[1], b.coordRange[1], w);
    }
    assert a.coordRange[0] == b.coordRange[0] && a.coordRange[1] == b.coordRange[1];
  }

  /** Two settings with the same inputs, the same flag and a consistent view are equal. */
  lemma DerivedDeterminesView(a: Settings, b: Settings)
    requires Sized(a) && Sized(b) && SameInputs(a, b) && Derived(a) && Derived(b)
    requires a.settingsApplied == b.settingsApplied
    ensures a == b
  {
    RangeDeterminedByZoom(a, b);
    assert a.minCoord[0] == b.minCoord[0] && a.minCoord[1] == b.minCoord[1];
    assert a.maxCoord[0] == b.maxCoord[0] && a.maxCoord[1] == b.maxCoord[1];
    assert a.minCoord == b.minCoord && a.maxCoord == b.maxCoord;
  }

  lemma CancelFactor(x: real, y: real, f: real)
    requires f != 0.0 && x * f == y * f
    ensures x == y
  {
    assert (x - y) * f == 0.0;
  }

  /**
   * The constructor: camera at the origin, scale factor 0.95, pan speed 0.1,
   * an 800 x 800 viewport, zoom 0, and the view computed by `Update`. The
   * colours come from outside (`RandomizeColors`).
   */
  function New(colors: seq<Palette.ColorF>): (s: Settings)
    ensures Sized(s) && Derived(s)
    ensures s.camera == [0.0, 0.0] && s.zoom == 0 && s.scale == 1.0
    ensures s.scaleFactor == DefaultScaleFactor && s.panSpeed == DefaultPanSpeed
    ensures s.width == DefaultSize && s.height == DefaultSize
    ensures !s.settingsApplied && s.useDouble && s.colorSeed == DefaultColorSeed
    ensures s.minCoord == [-2.0, -2.0] && s.maxCoord == [2.0, 2.0]
  {
    var zero: Vec2 := [0.0, 0.0];
    Update(Settings(DefaultColorSeed, colors, false, true, 0.0, DefaultScaleFactor, 0,
                    zero, zero, zero, zero, DefaultSize, DefaultSize, DefaultPanSpeed, zero))
  }

  /** `IncrementScale`: `++zoom_` on a `uint16_t`, wrapping at 2^16, then `Update`. */
  function IncrementScale(s: Settings): (r: Settings)
    requires Sized(s)
    ensures Sized(r) && Derived(r) && !r.settingsApplied
    ensures r.zoom == (s.zoom + 1) % U16_LIMIT
    ensures r.camera == s.camera && r.width == s.width && r.height == s.height
  {
    Update(s.(zoom := (s.zoom + 1) % U16_LIMIT))
  }

  /** `DecrementScale`: nothing at zoom 0, otherwise `--zoom_` and `Update`. */
  function DecrementScale(s: Settings): (r: Settings)
    requires Sized(s)
    ensures Sized(r)
    ensures s.zoom == 0 ==> r == s
    ensures s.zoom > 0 ==> r.zoom == s.zoom - 1 && Derived(r) && !r.settingsApplied
    ensures r.camera == s.camera && r.width == s.width && r.height == s.height
  {
    if s.zoom != 0 then Update(s.(zoom := s.zoom - 1)) else s
  }

  /** Zooming in one step and out one step restores the view, except at the wrap. */
  lemma IncrementDecrementRoundTrip(s: Settings)
    requires Sized(s) && Derived(s) && s.zoom + 1 < U16_LIMIT
    ensures DecrementScale(IncrementScale(s)) == s.(settingsApplied := false)
  {
    var r := DecrementScale(IncrementScale(s));
    SameZoomSameView(s, r);
  }

  lemma SameZoomSameView(s: Settings, r: Settings)
    requires Sized(s) && Derived(s) && Sized(r) && Derived(r) && !r.settingsApplied
    requires SameInputs(r, s)
    ensures r == s.(settingsApplied := false)
  {
    var t := s.(settingsApplied := false);
    assert Sized(t) && Derived(t);
    assert SameInputs(r, t);
    DerivedDeterminesView(r, t);
  }

  /**
   * `ShiftCameraX`: moves the camera and clears the flag, but does not call
   * `Update`, so the view rectangle and the step stay where they were.
   */
  function ShiftCameraX(s: Settings, delta: real): (r: Settings)
    ensures r.camera[0] == s.camera[0] + delta && r.camera[1] == s.camera[1]
    ensures !r.settingsApplied
    ensures r.minCoord == s.minCoord && r.maxCoord == s.maxCoord
    ensures r.coordRange == s.coordRange && r.stepPerPixel == s.stepPerPixel
    ensures r.zoom == s.zoom && r.scale == s.scale && r.width == s.width && r.height == s.height
  {
    s.(camera := [s.camera[0] + delta, s.camera[1]], settingsApplied := false)
  }

  function ShiftCameraY(s: Settings, delta: real): (r: Settings)
    ensures r.camera[1] == s.camera[1] + delta && r.camera[0] == s.camera[0]
    ensures !r.settingsApplied
    ensures r.minCoord == s.minCoord && r.maxCoord == s.maxCoord
    ensures r.coordRange == s.coordRange && r.stepPerPixel == s.stepPerPixel
    ensures r.zoom == s.zoom && r.scale == s.scale && r.width == s.width && r.height == s.height
  {
    s.(camera := [s.camera[0], s.camera[1] + delta], settingsApplied := false)
  }

  /** After a non-zero shift the camera is no longer the midpoint of the stale view. */
  lemma ShiftLeavesViewStale(s: Settings, delta: real)
    requires Sized(s) && Derived(s) && delta != 0.0
    ensures Sized(ShiftCameraX(s, delta)) && !Derived(ShiftCameraX(s, delta))
    ensures Sized(ShiftCameraY(s, delta)) && !Derived(ShiftCameraY(s, delta))
  {
  }

  /**
   * `SetViewportSize`: a no-op for the current size, otherwise resize and
   * `Update`. A minimised window reports a zero size; `Update` then divides
   * by zero, so for a zero dimension only the parts of `Update` that stay
   * defined are modelled: the dirty flag is cleared, the scale recomputed,
   * and the view fields keep their old values.
   */
  function SetViewportSize(s: Settings, width: nat, height: nat): (r: Settings)
    requires s.zoom < U16_LIMIT
    ensures r.width == width && r.height == height && r.zoom == s.zoom && r.camera == s.camera
    ensures width == s.width && height == s.height ==> r == s
    ensures (width != s.width || height != s.height) && width > 0 && height > 0 ==>
      Sized(r) && Derived(r) && !r.settingsApplied
    ensures (width != s.width || height != s.height) && (width == 0 || height == 0) ==>
      !Sized(r) && !r.settingsApplied && r.scale == Pow(s.scaleFactor, s.zoom)
      && r.minCoord == s.minCoord && r.maxCoord == s.maxCoord
      && r.coordRange == s.coordRange && r.stepPerPixel == s.stepPerPixel
  {
    if width == s.width && height == s.height then s
    else if width > 0 && height > 0 then Update(s.(width := width, height := height))
    else s.(width := width, height := height, settingsApplied := false, scale := Pow(s.scaleFactor, s.zoom))
  }

  /** Back from a minimised window, the view is derived again from the restored size. */
  lemma RestoreAfterMinimise(s: Settings, width: nat, height: nat)
    requires Sized(s) && s.width == width && s.height == height
    ensures var m := SetViewportSize(s, 0, 0);
      var r := SetViewportSize(m, width, height);
      Sized(r) && Derived(r) && !r.settingsApplied && r.zoom == s.zoom && r.camera == s.camera
  {
  }

  /** `SetZoom`: a no-op for the current zoom, otherwise set and `Update`. */
  function SetZoom(s: Settings, zoom: nat): (r: Settings)
    requires Sized(s) && zoom < U16_LIMIT
    ensures Sized(r) && r.zoom == zoom
    ensures zoom == s.zoom ==> r == s
    ensures zoom != s.zoom ==> Derived(r) && !r.settingsApplied && r.camera == s.camera
  {
    if zoom != s.zoom then Update(s.(zoom := zoom)) else s
  }

  /** `SetCamera`: with `check_not_same`, an equal camera changes nothing. */
  function SetCamera(s: Settings, camera: Vec2, checkNotSame: bool): (r: Settings)
    requires Sized(s)
    ensures Sized(r) && r.camera == camera && r.zoom == s.zoom
    ensures checkNotSame && camera == s.camera ==> r == s
    ensures !(checkNotSame && camera == s.camera) ==> Derived(r) && !r.settingsApplied
  {
    if checkNotSame && camera[0] == s.camera[0] && camera[1] == s.camera[1] then
      assert camera == s.camera;
      s
    else Update(s.(camera := camera))
  }

  /** `GetCoordAtPixel(x, y) = min + step * (x, y)`, for a real pixel position. */
  function CoordAtPoint(s: Settings, x: real, y: real): Vec2
  {
    [s.minCoord[0] + s.stepPerPixel[0] * x, s.minCoord[1] + s.stepPerPixel[1] * y]
  }

  function CoordAtPixel(s: Settings, x: nat, y: nat): Vec2
  {
    CoordAtPoint(s, x as real, y as real)
  }

  /** Pixel (0, 0) is the view's minimum corner and pixel (width, height) its maximum. */
  lemma CoordAtPixelCorners(s: Settings)
    requires Sized(s) && Derived(s)
    ensures CoordAtPixel(s, 0, 0) == s.minCoord
    ensures CoordAtPixel(s, s.width, s.height) == s.maxCoord
  {
    var hi := CoordAtPixel(s, s.width, s.height);
    assert hi[0] == s.maxCoord[0] && hi[1] == s.maxCoord[1];
    var lo := CoordAtPixel(s, 0, 0);
    assert lo[0] == s.minCoord[0] && lo[1] == s.minCoord[1];
  }

  /** Moving one pixel moves the world point by exactly one step. */
  lemma CoordAtPixelStep(s: Settings, x: nat, y: nat)
    ensures CoordAtPixel(s, x + 1, y)[0] - CoordAtPixel(s, x, y)[0] == s.stepPerPixel[0]
    ensures CoordAtPixel(s, x, y + 1)[1] - CoordAtPixel(s, x, y)[1] == s.stepPerPixel[1]
  {
  }

  /**
   * `MoveCameraToPixel`: the point `(x / width, y' / height) * range + min`,
   * with `y' = height - y` when flipping, becomes the camera through
   * `SetCamera` (which skips an unchanged camera).
   */
  function MoveCameraToPixel(s: Settings, x: nat, y: nat, flipY: bool): (r: Settings)
    requires Sized(s)
    ensures Sized(r) && r.zoom == s.zoom && r.width == s.width && r.height == s.height
  {
    var px := x as real / s.width as real;
    var py := (if flipY then s.height as real - y as real else y as real) / s.height as real;
    var p: Vec2 := Add(Mul([px, py], s.coordRange), s.minCoord);
    SetCamera(s, p, true)
  }

  lemma FractionOfRange(v: real, n: nat, range: real, step: real)
    requires n > 0 && step * n as real == range
    ensures (v / n as real) * range == step * v
  {
    assert range / n as real == step;
  }

  /**
   * The camera lands on the world point of the pixel, or of its mirror
   * row `height - y` when flipping; the view is recomputed around it.
   */
  lemma MoveCameraToPixelTargets(s: Settings, x: nat, y: nat, flipY: bool)
    requires Sized(s) && Derived(s)
    ensures var r := MoveCameraToPixel(s, x, y, flipY);
      && Derived(r)
      && r.camera == CoordAtPoint(s, x as real, if flipY then s.height as real - y as real else y as real)
  {
    var yy := if flipY then s.height as real - y as real else y as real;
    PixelFractionPoint(s, x as real, yy);
    var p: Vec2 := Add(Mul([x as real / s.width as real, yy / s.height as real], s.coordRange), s.minCoord);
    assert MoveCameraToPixel(s, x, y, flipY) == SetCamera(s, p, true);
  }

  lemma PixelFractionPoint(s: Settings, x: real, y: real)
    requires Sized(s) && Derived(s)
    ensures Add(Mul([x / s.width as real, y / s.height as real], s.coordRange), s.minCoord)
         == CoordAtPoint(s, x, y)
  {
    FractionOfRange(x, s.width, s.coordRange[0], s.stepPerPixel[0]);
    FractionOfRange(y, s.height, s.coordRange[1], s.stepPerPixel[1]);
    var p := Add(Mul([x / s.width as real, y / s.height as real], s.coordRange), s.minCoord);
    var target := CoordAtPoint(s, x, y);
    assert p[0] == target[0] && p[1] == target[1];
  }

  /** `PanCamera`: the signed movement of one axis, `pan_speed * dt * range`. */
  function PanDelta(dir: int, absDelta: real, range: real): real
  {
    if dir > 0 then absDelta * range else if dir < 0 then -(absDelta * range) else 0.0
  }

  /** The camera moved along each axis by `PanDelta` of `panSpeed * dt`. */
  function PannedCamera(c: Vec2, panSpeed: real, dt: real, range: Vec2, dirX: int, dirY: int): (r: Vec2)
    ensures r[0] == c[0] + PanDelta(dirX, panSpeed * dt, range[0])
    ensures r[1] == c[1] + PanDelta(dirY, panSpeed * dt, range[1])
  {
    [c[0] + PanDelta(dirX, panSpeed * dt, range[0]), c[1] + PanDelta(dirY, panSpeed * dt, range[1])]
  }

  /**
   * `PanCamera`: nothing when both directions are 0; otherwise each axis
   * with a non-zero direction moves by `pan_speed * dt` of its range,
   * forward or backward by the sign, and the view is recomputed.
   */
  function PanCamera(s: Settings, dt: real, dirX: int, dirY: int): (r: Settings)
    requires Sized(s)
    ensures Sized(r) && r.zoom == s.zoom && r.width == s.width && r.height == s.height
    ensures r.scaleFactor == s.scaleFactor && r.panSpeed == s.panSpeed
    ensures dirX == 0 && dirY == 0 ==> r == s
    ensures !(dirX == 0 && dirY == 0) ==>
      && Derived(r) && !r.settingsApplied
      && r.camera == PannedCamera(s.camera, s.panSpeed, dt, s.coordRange, dirX, dirY)
  {
    if dirX == 0 && dirY == 0 then s
    else Update(s.(camera := PannedCamera(s.camera, s.panSpeed, dt, s.coordRange, dirX, dirY)))
  }

  /** Panning one way and then the other returns the camera, as the range is unchanged. */
  lemma PanThereAndBack(s: Settings, dt: real, dirX: int, dirY: int)
    requires Sized(s) && Derived(s) && !(dirX == 0 && dirY == 0)
    ensures PanCamera(PanCamera(s, dt, dirX, dirY), dt, -dirX, -dirY).camera == s.camera
  {
    PanKeepsRange(s, dt, dirX, dirY);
    PanTwice(s, dt, dirX, dirY);
  }

  /** Two opposite pans over an unchanged range return the camera. */
  lemma PanTwice(s: Settings, dt: real, dirX: int, dirY: int)
    requires Sized(s) && !(dirX == 0 && dirY == 0)
    requires PanCamera(s, dt, dirX, dirY).coordRange == s.coordRange
    ensures PanCamera(PanCamera(s, dt, dirX, dirY), dt, -dirX, -dirY).camera == s.camera
  {
    var a := PanCamera(s, dt, dirX, dirY);
    PanCameraMoves(s, dt, dirX, dirY);
    PanCameraMoves(a, dt, -dirX, -dirY);
    PannedBack(s.camera, s.panSpeed, dt, s.coordRange, dirX, dirY);
  }

  /** Moving by some directions and then, by the same step and range, by the opposite ones restores the camera. */
  lemma PannedBack(c: Vec2, panSpeed: real, dt: real, range: Vec2, dirX: int, dirY: int)
    ensures PannedCamera(PannedCamera(c, panSpeed, dt, range, dirX, dirY), panSpeed, dt, range, -dirX, -dirY) == c
  {
    PanDeltaOpposite(dirX, panSpeed * dt, range[0]);
    PanDeltaOpposite(dirY, panSpeed * dt, range[1]);
    var e := PannedCamera(PannedCamera(c, panSpeed, dt, range, dirX, dirY), panSpeed, dt, range, -dirX, -dirY);
    assert e[0] == c[0] && e[1] == c[1];
  }

  /** Panning leaves the visible range as it is. */
  lemma PanKeepsRange(s: Settings, dt: real, dirX: int, dirY: int)
    requires Sized(s) && Derived(s)
    ensures PanCamera(s, dt, dirX, dirY).coordRange == s.coordRange
  {
    RangeDeterminedByZoom(PanCamera(s, dt, dirX, dirY), s);
  }

  /** A pan moves the camera by `PannedCamera` and keeps the pan speed. */
  lemma PanCameraMoves(s: Settings, dt: real, dirX: int, dirY: int)
    requires Sized(s) && !(dirX == 0 && dirY == 0)
    ensures PanCamera(s, dt, dirX, dirY).camera == PannedCamera(s.camera, s.panSpeed, dt, s.coordRange, dirX, dirY)
    ensures PanCamera(s, dt, dirX, dirY).panSpeed == s.panSpeed
  {
  }

  /** Moving one way and then the other by the same amount cancels out. */
  lemma PanDeltaOpposite(dir: int, absDelta: real, range: real)
    ensures PanDelta(dir, absDelta, range) + PanDelta(-dir, absDelta, range) == 0.0
  {
  }
}
