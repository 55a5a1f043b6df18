/**
 * The older CPU rendering backend of the region-based viewer: one worker
 * thread per region of the 10 x 10 grid, each with an atomic state
 * `Pending -> InProgress -> Pending`, or `MustStop` once its destructor
 * runs. The render thread hands out a region with `SetTask`, uploads
 * finished pixels through `ConsumePixels`, and in `PostDraw` redistributes
 * all regions when the settings changed and every worker is idle.
 *
 * The worker's loop `thread_main` becomes the step `WorkerStep`; whether
 * the destructor's store lands between rendering and the compare-exchange
 * is an input of the step.
 */
module RegionWorkers {
  import opened Base
  import opened Arith
  import opened Vectors
  import opened Partition
  import opened Mandelbrot
  import opened Palette
  import opened TileScheduler
  import LS = LegacySettings

  datatype State = Pending | InProgress | MustStop

  /** `CommonSettings`: what every region thread reads while rendering. */
  datatype CommonSettings = CommonSettings(
    camera: Vec2,
    range: Vec2,
    screenWidth: nat,
    screenHeight: nat,
    iterations: nat,
    colors: seq<Rgb>)

  /** `FractalCPURenderingThread`: its state, upload flag, region and pixels. */
  datatype Region = Region(state: State, hasNewData: bool, tile: Tile, pixels: seq<Rgb>)

  /** A freshly constructed region thread. */
  function NewRegion(): (r: Region)
    ensures r.state == Pending && !r.hasNewData && r.pixels == []
  {
    Region(Pending, false, Tile(0, 0, 0, 0), [])
  }

  // ---------------------------------------------------------------------
  // Region thread
  // ---------------------------------------------------------------------

  /**
   * `SetTask`: only a pending region takes a task; it records the region,
   * raises the upload flag and starts rendering.
   */
  function SetTask(r: Region, tile: Tile): (q: Region)
    requires r.state == Pending
    ensures q.state == InProgress && q.hasNewData && q.tile == tile && q.pixels == r.pixels
  {
    r.(hasNewData := true, tile := tile, state := InProgress)
  }

  /** `ConsumePixels`: requires new data, hands out the pixels and clears the flag. */
  function ConsumePixels(r: Region): (q: (Region, seq<Rgb>))
    requires r.hasNewData
    ensures !q.0.hasNewData && q.1 == r.pixels
    ensures q.0 == r.(hasNewData := false)
  {
    (r.(hasNewData := false), r.pixels)
  }

  /** The destructor's `state_ = MustStop`. */
  function Stop(r: Region): (q: Region)
    ensures q.state == MustStop && q == r.(state := MustStop)
  {
    r.(state := MustStop)
  }

  /** `compare_exchange_strong(InProgress, Pending)`: swaps only from `InProgress`. */
  function FinishRender(r: Region): (q: Region)
    ensures r.state == InProgress ==> q == r.(state := Pending)
    ensures r.state != InProgress ==> q == r
  {
    if r.state == InProgress then r.(state := Pending) else r
  }

  /** The settings under which `render` is defined. */
  predicate Renderable(cs: CommonSettings)
  {
    cs.iterations == IterationCap() && BlendSettings(|cs.colors|, cs.iterations)
  }

  /**
   * The region lies inside the screen, as every tile `PostDraw` hands out
   * does. A region without pixels, such as any region of a zero-sized
   * (minimised) window, is on screen whatever the screen's size, and
   * `render` then divides by nothing.
   */
  predicate OnScreen(tile: Tile, cs: CommonSettings)
  {
    tile.x + tile.width <= cs.screenWidth && tile.y + tile.height <= cs.screenHeight
  }

  /** A kernel whose count never exceeds the cap it is given. */
  ghost predicate KernelBounded(ff: FractalFunction)
  {
    forall x: real, y: real :: ff(x, y, IterationCap()) <= IterationCap()
  }

  /** `lib_fractal::MandelbrotLoop` is such a kernel. */
  lemma EscapeCountBounded()
    ensures KernelBounded(EscapeCount)
  {
    forall x: real, y: real
      ensures EscapeCount(x, y, IterationCap()) <= IterationCap()
    {
      EscapeCountCharacterised(x, y, IterationCap(), 0);
    }
  }

  /**
   * The world coordinates of screen column `px` and row `py`:
   * `camera - range / 2 + p * range / screen`, component-wise.
   */
  function PointX(cs: CommonSettings, px: nat): real
    requires cs.screenWidth > 0
  {
    cs.camera[0] - cs.range[0] / 2.0 + (px as real * cs.range[0]) / cs.screenWidth as real
  }

  function PointY(cs: CommonSettings, py: nat): real
    requires cs.screenHeight > 0
  {
    cs.camera[1] - cs.range[1] / 2.0 + (py as real * cs.range[1]) / cs.screenHeight as real
  }

  /** The screen spans the range centred on the camera: its edges map to `camera -/+ range / 2`. */
  lemma PointEdges(cs: CommonSettings)
    requires cs.screenWidth > 0 && cs.screenHeight > 0
    ensures PointX(cs, 0) == cs.camera[0] - cs.range[0] / 2.0
    ensures PointX(cs, cs.screenWidth) == cs.camera[0] + cs.range[0] / 2.0
    ensures PointY(cs, 0) == cs.camera[1] - cs.range[1] / 2.0
    ensures PointY(cs, cs.screenHeight) == cs.camera[1] + cs.range[1] / 2.0
  {
  }

  /** The colour of screen pixel `(px, py)`. */
  function PixelColor(cs: CommonSettings, ff: FractalFunction, px: nat, py: nat): Rgb
    requires Renderable(cs) && KernelBounded(ff) && px < cs.screenWidth && py < cs.screenHeight
  {
    ColorForIteration(cs.colors, cs.iterations, ff(PointX(cs, px), PointY(cs, py), IterationCap()))
  }

  /** The colour of the pixel at `(x, y)` inside `tile`. */
  function TileColor(tile: Tile, cs: CommonSettings, ff: FractalFunction, x: nat, y: nat): Rgb
    requires Renderable(cs) && KernelBounded(ff) && OnScreen(tile, cs) && x < tile.width && y < tile.height
  {
    PixelColor(cs, ff, tile.x + x, tile.y + y)
  }

  /** Region pixel `i`, row-major: the colour of screen pixel `location + (i % width, i / width)`. */
  function RegionPixel(tile: Tile, cs: CommonSettings, ff: FractalFunction, i: nat): Rgb
    requires Renderable(cs) && KernelBounded(ff) && OnScreen(tile, cs)
    requires i < tile.width * tile.height
  {
    ProductPositive(tile.width, tile.height);
    PixelColor(cs, ff, tile.x + i % tile.width, tile.y + i / tile.width)
  }

  /** What `render` leaves in `pixels`: the region's colours, row-major. */
  function RegionPixels(tile: Tile, cs: CommonSettings, ff: FractalFunction): (p: seq<Rgb>)
    requires Renderable(cs) && KernelBounded(ff) && OnScreen(tile, cs)
    ensures |p| == tile.width * tile.height
    ensures forall i :: 0 <= i < |p| ==> p[i] == RegionPixel(tile, cs, ff, i)
  {
    seq(tile.width * tile.height, i requires 0 <= i < tile.width * tile.height => RegionPixel(tile, cs, ff, i))
  }

  /**
   * `render` indexing: region pixel `(x, y)` sits at `y * width + x`, in
   * bounds, and holds the colour of screen pixel `location + (x, y)`.
   */
  lemma RegionPixelAt(tile: Tile, cs: CommonSettings, ff: FractalFunction, x: nat, y: nat)
    requires Renderable(cs) && KernelBounded(ff) && OnScreen(tile, cs)
    requires x < tile.width && y < tile.height
    ensures PixelIndex(tile.width, x, y) < |RegionPixels(tile, cs, ff)|
    ensures RegionPixels(tile, cs, ff)[PixelIndex(tile.width, x, y)] == PixelColor(cs, ff, tile.x + x, tile.y + y)
  {
    PixelIndexInBounds(tile.width, tile.height, x, y);
  }

  /** One row of `render`: row `y` gets its colours, nothing else changes. */
  method RenderRow(tile: Tile, cs: CommonSettings, ff: FractalFunction, pixels: seq<Rgb>, y: nat)
    returns (r: seq<Rgb>)
    requires Renderable(cs) && KernelBounded(ff) && OnScreen(tile, cs)
    requires y < tile.height && |pixels| == tile.width * tile.height
    ensures |r| == |pixels|
    ensures forall x :: 0 <= x < tile.width ==>
      PixelIndex(tile.width, x, y) < |r| && r[PixelIndex(tile.width, x, y)] == PixelColor(cs, ff, tile.x + x, tile.y + y)
    ensures forall i :: 0 <= i < |r| && !(y * tile.width <= i < y * tile.width + tile.width) ==>
      r[i] == pixels[i]
  {
    var w := tile.width;
    var base := PixelIndex(w, 0, y);
    RowInBounds(w, tile.height, y);
    r := pixels;
    var x := 0;
    while x != w
      invariant x <= w && |r| == |pixels|
      invariant forall xx :: 0 <= xx < x ==> r[base + xx] == TileColor(tile, cs, ff, xx, y)
      invariant forall i :: 0 <= i < |r| && !(base <= i < base + x) ==> r[i] == pixels[i]
      decreases w - x
    {
      var iterations := ff(PointX(cs, tile.x + x), PointY(cs, tile.y + y), IterationCap());
      var color := ColorForIteration(cs.colors, cs.iterations, iterations);
      r := r[base + x := color];
      x := x + 1;
    }
    forall x | 0 <= x < w
      ensures PixelIndex(w, x, y) < |r| && r[PixelIndex(w, x, y)] == PixelColor(cs, ff, tile.x + x, tile.y + y)
    {
      assert r[base + x] == TileColor(tile, cs, ff, x, y);
    }
  }

  /** Rows `[0, y)` of the buffer hold the region's colours. */
  predicate RowsColored(tile: Tile, cs: CommonSettings, ff: FractalFunction, pixels: seq<Rgb>, y: nat)
    requires Renderable(cs) && KernelBounded(ff) && OnScreen(tile, cs)
  {
    && |pixels| == tile.width * tile.height && y <= tile.height
    && forall yy, xx :: 0 <= yy < y && 0 <= xx < tile.width ==>
         PixelIndex(tile.width, xx, yy) < |pixels|
         && pixels[PixelIndex(tile.width, xx, yy)] == PixelColor(cs, ff, tile.x + xx, tile.y + yy)
  }

  /** Colouring row `y` over a buffer whose earlier rows are done extends the done rows by one. */
  lemma ColorRowStep(tile: Tile, cs: CommonSettings, ff: FractalFunction, before: seq<Rgb>, after: seq<Rgb>, y: nat)
    requires Renderable(cs) && KernelBounded(ff) && OnScreen(tile, cs)
    requires y < tile.height && RowsColored(tile, cs, ff, before, y) && |after| == |before|
    requires forall x :: 0 <= x < tile.width ==>
      PixelIndex(tile.width, x, y) < |after| && after[PixelIndex(tile.width, x, y)] == PixelColor(cs, ff, tile.x + x, tile.y + y)
    requires forall i :: 0 <= i < |after| && !(y * tile.width <= i < y * tile.width + tile.width) ==>
      after[i] == before[i]
    ensures RowsColored(tile, cs, ff, after, y + 1)
  {
    var w := tile.width;
    var h := tile.height;
    RowStart(y, w, h);
    forall yy, xx | 0 <= yy < y && 0 <= xx < w
      ensures PixelIndex(w, xx, yy) < |after| && after[PixelIndex(w, xx, yy)] == PixelColor(cs, ff, tile.x + xx, tile.y + yy)
    {
      PixelIndexInBounds(w, y, xx, yy);
      MulMonotone(y, h, w);
    }
  }

  /** One pass of `render`'s row loop: rows `[0, y)` done become rows `[0, y]` done. */
  method ColorNextRow(tile: Tile, cs: CommonSettings, ff: FractalFunction, pixels: seq<Rgb>, y: nat)
    returns (r: seq<Rgb>)
    requires Renderable(cs) && KernelBounded(ff) && OnScreen(tile, cs)
    requires y < tile.height && RowsColored(tile, cs, ff, pixels, y)
    ensures RowsColored(tile, cs, ff, r, y + 1)
  {
    r := RenderRow(tile, cs, ff, pixels, y);
    ColorRowStep(tile, cs, ff, pixels, r, y);
  }

  /** A buffer with every row coloured is the region's pixels. */
  lemma ColoredIsRegion(tile: Tile, cs: CommonSettings, ff: FractalFunction, pixels: seq<Rgb>)
    requires Renderable(cs) && KernelBounded(ff) && OnScreen(tile, cs)
    requires RowsColored(tile, cs, ff, pixels, tile.height)
    ensures pixels == RegionPixels(tile, cs, ff)
  {
    var expected := RegionPixels(tile, cs, ff);
    forall i | 0 <= i < |pixels|
      ensures pixels[i] == expected[i]
    {
      ColoredPixel(tile, cs, ff, pixels, i);
    }
  }

  lemma ColoredPixel(tile: Tile, cs: CommonSettings, ff: FractalFunction, pixels: seq<Rgb>, i: nat)
    requires Renderable(cs) && KernelBounded(ff) && OnScreen(tile, cs)
    requires RowsColored(tile, cs, ff, pixels, tile.height) && i < |pixels|
    ensures pixels[i] == RegionPixel(tile, cs, ff, i)
  {
    var w := tile.width;
    RowMajorSplit(i, w, tile.height);
    assert pixels[PixelIndex(w, i % w, i / w)] == PixelColor(cs, ff, tile.x + i % w, tile.y + i / w);
  }

  /** `render`: resizes `pixels` to the region and fills every pixel. */
  method Render(region: Region, cs: CommonSettings, ff: FractalFunction) returns (q: Region)
    requires Renderable(cs) && KernelBounded(ff) && OnScreen(region.tile, cs)
    ensures q == region.(pixels := RegionPixels(region.tile, cs, ff))
  {
    var w := region.tile.width;
    var h := region.tile.height;
    var pixels := seq(w * h, i requires 0 <= i => if i < |region.pixels| then region.pixels[i] else Black);
    var y := 0;
    while y != h
      invariant y <= h
      invariant RowsColored(region.tile, cs, ff, pixels, y)
      decreases h - y
    {
      pixels := ColorNextRow(region.tile, cs, ff, pixels, y);
      y := y + 1;
    }
    ColoredIsRegion(region.tile, cs, ff, pixels);
    q := region.(pixels := pixels);
  }

  /**
   * One pass of `thread_main`: a stopped worker leaves its loop, a pending
   * one spins, one in progress renders and then swaps back to `Pending`
   * by compare-exchange. `stopMeanwhile` says whether the destructor's
   * store lands between the two.
   */
  function WorkerStep(r: Region, cs: CommonSettings, ff: FractalFunction, stopMeanwhile: bool): (q: Region)
    requires Renderable(cs) && KernelBounded(ff) && (r.state == InProgress ==> OnScreen(r.tile, cs))
    ensures r.state != InProgress ==> q == r
    ensures r.state == InProgress && !stopMeanwhile ==>
      q == r.(state := Pending, pixels := RegionPixels(r.tile, cs, ff))
    ensures r.state == InProgress && stopMeanwhile ==> q.state == MustStop
  {
    if r.state != InProgress then r
    else
      var rendered := r.(pixels := RegionPixels(r.tile, cs, ff));
      FinishRender(if stopMeanwhile then Stop(rendered) else rendered)
  }

  /**
   * `MustStop` is final: no worker step undoes it, in particular not the
   * compare-exchange after a render the destructor interrupted; and a
   * finished render does not raise the upload flag.
   */
  lemma MustStopIsFinal(r: Region, cs: CommonSettings, ff: FractalFunction, stopMeanwhile: bool)
    requires Renderable(cs) && KernelBounded(ff) && (r.state == InProgress ==> OnScreen(r.tile, cs))
    ensures r.state == MustStop ==> WorkerStep(r, cs, ff, stopMeanwhile) == r
    ensures FinishRender(Stop(r)).state == MustStop
    ensures WorkerStep(r, cs, ff, stopMeanwhile).hasNewData == r.hasNewData
  {
  }

  // ---------------------------------------------------------------------
  // Render thread
  // ---------------------------------------------------------------------

  /** Every region's worker is idle. */
  predicate AllPending(regions: seq<Region>)
  {
    forall k :: 0 <= k < |regions| ==> regions[k].state == Pending
  }

  /** The `all_pending` scan of `PostDraw`, row by row with an early exit. */
  method ScanAllPending(regions: seq<Region>) returns (allPending: bool)
    requires |regions| == ChunkRows * ChunkCols
    ensures allPending <==> AllPending(regions)
  {
    allPending := true;
    var ry := 0;
    while ry != ChunkRows && allPending
      invariant ry <= ChunkRows
      invariant allPending <==> forall k :: 0 <= k < ry * ChunkCols ==> regions[k].state == Pending
      decreases ChunkRows - ry
    {
      var rx := 0;
      while rx != ChunkCols && allPending
        invariant rx <= ChunkCols
        invariant allPending <==> forall k :: 0 <= k < ry * ChunkCols + rx ==> regions[k].state == Pending
        decreases ChunkCols - rx
      {
        if regions[ry * ChunkCols + rx].state != Pending {
          allPending := false;
        }
        rx := rx + 1;
      }
      if allPending {
        assert rx == ChunkCols;
      }
      ry := ry + 1;
    }
    if allPending {
      assert ry == ChunkRows;
    }
  }

  /** The settings the render thread publishes for a new frame. */
  function FrameSettings(s: LS.LegacySettings, colors: seq<ColorF>, w: nat, h: nat): (cs: CommonSettings)
    requires LS.Valid(s) && ColorsInRange(colors)
    ensures cs.camera == s.camera && cs.range == LS.ViewRange(s) && cs.iterations == IterationCap()
    ensures cs.screenWidth == w && cs.screenHeight == h && cs.colors == ByteColors(colors)
  {
    CommonSettings(s.camera, LS.ViewRange(s), w, h, IterationCap(), ByteColors(colors))
  }

  /** Region `k` of the grid gets tile `(k / 10, k % 10)`. */
  function Dispatch(regions: seq<Region>, w: nat, h: nat): (r: seq<Region>)
    requires |regions| == ChunkRows * ChunkCols && AllPending(regions)
    ensures |r| == |regions|
  {
    seq(|regions|, k requires 0 <= k < |regions| => SetTask(regions[k], TileAt(w, h, k / ChunkCols, k % ChunkCols)))
  }

  /**
   * `PostDraw`: nothing happens while the settings are applied or some
   * worker is busy; otherwise the common settings are republished, region
   * `ry * 10 + rx` gets the tile of row `ry` and column `rx`, and the flag
   * is set.
   */
  function PostDraw(regions: seq<Region>, cs: CommonSettings, s: LS.LegacySettings, colors: seq<ColorF>, w: nat, h: nat)
    : (r: (seq<Region>, CommonSettings, LS.LegacySettings))
    requires |regions| == ChunkRows * ChunkCols
    requires LS.Valid(s) && ColorsInRange(colors)
    ensures s.settingsApplied || !AllPending(regions) ==> r == (regions, cs, s)
    ensures !s.settingsApplied && AllPending(regions) ==>
      && r.2 == s.(settingsApplied := true)
      && r.1 == FrameSettings(s, colors, w, h)
      && |r.0| == |regions|
      && forall ry, rx :: 0 <= ry < ChunkRows && 0 <= rx < ChunkCols ==>
           var k := ry * ChunkCols + rx;
           r.0[k] == regions[k].(state := InProgress, hasNewData := true, tile := TileAt(w, h, ry, rx))
  {
    if s.settingsApplied || !AllPending(regions) then (regions, cs, s)
    else
      DispatchTiles(regions, w, h);
      (Dispatch(regions, w, h), FrameSettings(s, colors, w, h), s.(settingsApplied := true))
  }

  /** Region `ry * 10 + rx` is handed the tile of row `ry` and column `rx`. */
  lemma DispatchTiles(regions: seq<Region>, w: nat, h: nat)
    requires |regions| == ChunkRows * ChunkCols && AllPending(regions)
    ensures forall ry, rx :: 0 <= ry < ChunkRows && 0 <= rx < ChunkCols ==>
      var k := ry * ChunkCols + rx;
      Dispatch(regions, w, h)[k] == regions[k].(state := InProgress, hasNewData := true, tile := TileAt(w, h, ry, rx))
  {
    forall ry, rx | 0 <= ry < ChunkRows && 0 <= rx < ChunkCols
      ensures var k := ry * ChunkCols + rx;
        Dispatch(regions, w, h)[k] == regions[k].(state := InProgress, hasNewData := true, tile := TileAt(w, h, ry, rx))
    {
      TileIndex(ry, rx);
    }
  }

  /** The source's `ry`/`rx` loop over the regions, handing out tiles. */
  method DispatchLoop(regions: seq<Region>, w: nat, h: nat) returns (r: seq<Region>)
    requires |regions| == ChunkRows * ChunkCols && AllPending(regions)
    ensures r == Dispatch(regions, w, h)
  {
    r := regions;
    var ry := 0;
    while ry != ChunkRows
      invariant ry <= ChunkRows && |r| == |regions|
      invariant forall k :: 0 <= k < |r| ==>
        r[k] == if k < ry * ChunkCols then SetTask(regions[k], TileAt(w, h, k / ChunkCols, k % ChunkCols)) else regions[k]
      decreases ChunkRows - ry
    {
      var rx := 0;
      while rx != ChunkCols
        invariant rx <= ChunkCols && |r| == |regions|
        invariant forall k :: 0 <= k < |r| ==>
          r[k] == if k < ry * ChunkCols + rx then SetTask(regions[k], TileAt(w, h, k / ChunkCols, k % ChunkCols)) else regions[k]
        decreases ChunkCols - rx
      {
        TileIndex(ry, rx);
        r := r[ry * ChunkCols + rx := SetTask(regions[ry * ChunkCols + rx], TileAt(w, h, ry, rx))];
        rx := rx + 1;
      }
      ry := ry + 1;
    }
  }

  /** Every tile of the grid lies inside the `w x h` screen, so a dispatched region can render. */
  lemma DispatchOnScreen(cs: CommonSettings, w: nat, h: nat, ry: nat, rx: nat)
    requires cs.screenWidth == w && cs.screenHeight == h && ry < ChunkRows && rx < ChunkCols
    ensures OnScreen(TileAt(w, h, ry, rx), cs)
  {
    assert PartOrigin(w, ChunkCols, rx + 1) == PartOrigin(w, ChunkCols, rx) + GetPart(w, ChunkCols, rx);
    assert PartOrigin(h, ChunkRows, ry + 1) == PartOrigin(h, ChunkRows, ry) + GetPart(h, ChunkRows, ry);
    PartOriginMonotone(w, ChunkCols, rx + 1, ChunkCols);
    PartOriginMonotone(h, ChunkRows, ry + 1, ChunkRows);
    PartsSumToFull(w, ChunkCols);
    PartsSumToFull(h, ChunkRows);
  }

  /**
   * After a dispatch, the regions' tiles cover the texture: every pixel
   * of the `w x h` texture lies in exactly one region.
   */
  lemma DispatchCoversTexture(regions: seq<Region>, w: nat, h: nat, px: nat, py: nat)
    requires |regions| == ChunkRows * ChunkCols && AllPending(regions)
    requires px < w && py < h
    ensures var r := Dispatch(regions, w, h);
      && (exists k :: 0 <= k < |r| && TileContains(r[k].tile, px, py))
      && (forall j, k :: 0 <= j < |r| && 0 <= k < |r| && TileContains(r[j].tile, px, py) && TileContains(r[k].tile, px, py) ==> j == k)
  {
    var r := Dispatch(regions, w, h);
    assert forall k :: 0 <= k < |r| ==> r[k].tile == TileGrid(w, h)[k];
    TilesCoverTexture(w, h, px, py);
  }
}
