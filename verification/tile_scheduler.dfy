/**
 * The tile scheduler of the CPU rendering backend, seen from the render
 * thread. A frame is cut into the 10 x 10 tile grid; one `ThreadTask` per
 * tile goes into `tasks_` and, ordered centre-out, into the shared queue.
 * Worker threads become two explicit steps: `WorkerPop` takes the head of
 * the queue and `WorkerFinish` runs `do_task` on it. Pointers are task ids;
 * the queue holds ids of tasks in `tasks_`.
 */
module TileScheduler {
  import opened Base
  import opened Arith
  import opened Vectors
  import opened Partition
  import opened Sorting
  import opened Mandelbrot
  import opened Palette
  import FS = FractalSettings

  /**
   * `do_task` passes this cap to the kernel, and every task records it as
   * `iterations`. (A function rather than a constant keeps the solver from
   * unrolling the kernel a thousand times on a literal bound.)
   */
  function IterationCap(): nat { 1000 }

  /** `ThreadTask`. `pixels` holds the `uint16_t` iteration counts, row-major. */
  datatype Task = Task(
    id: nat,
    startPoint: Vec2,
    stepPerPixel: Vec2,
    tile: Tile,
    colors: seq<Rgb>,
    iterations: nat,
    useDouble: bool,
    pixels: seq<nat>,
    completed: bool,
    cancelled: bool,
    rowsCompleted: nat,
    duration: real)

  /** `std::make_unique<ThreadTask>()` with the fields the frame fills in. */
  function NewTask(tile: Tile, startPoint: Vec2, stepPerPixel: Vec2, colors: seq<Rgb>, useDouble: bool): (t: Task)
    ensures t.id == 0 && !t.completed && !t.cancelled && t.rowsCompleted == 0
    ensures t.pixels == [] && t.duration == 0.0
    ensures t.tile == tile && t.startPoint == startPoint && t.stepPerPixel == stepPerPixel
    ensures t.colors == colors && t.useDouble == useDouble && t.iterations == IterationCap()
  {
    Task(0, startPoint, stepPerPixel, tile, colors, IterationCap(), useDouble, [], false, false, 0, 0.0)
  }

  // ---------------------------------------------------------------------
  // do_task
  // ---------------------------------------------------------------------

  /** `std::vector::resize`: keeps the prefix, pads with zeros. */
  function Resize(s: seq<nat>, n: nat): (r: seq<nat>)
    ensures |r| == n
    ensures forall i :: 0 <= i < n ==> r[i] == (if i < |s| then s[i] else 0)
  {
    if n <= |s| then s[..n] else s + seq(n - |s|, _ => 0)
  }

  /**
   * `FractalFunction`: the kernel behind the function pointer that
   * `SelectFractalFunction` returns, taking the world point and the cap.
   */
  type FractalFunction = (real, real, nat) -> nat

  /**
   * `SelectFractalFunction`: the `double` kernel and the decimal kernel are
   * the same real-valued escape count (`MandelbrotLoop` computes it).
   */
  function SelectFractalFunction(useDouble: bool): FractalFunction
  {
    if useDouble then (x0: real, y0: real, n: nat) => EscapeCount(x0, y0, n)
    else (x0: real, y0: real, n: nat) => EscapeCount(x0, y0, n)
  }

  /**
   * The `uint16_t` cast of a kernel result is lossless: with the cap of 1000
   * the selected kernel returns its escape count, which is at most 1000.
   */
  lemma KernelResultFits(useDouble: bool, px: real, py: real)
    ensures var n := SelectFractalFunction(useDouble)(px, py, IterationCap());
      n == EscapeCount(px, py, IterationCap()) && n <= IterationCap() && U16Cast(n) == n
  {
    EscapeCountCharacterised(px, py, IterationCap(), 0);
  }

  /** World coordinates of pixel column `x` and row `y` of the tile. */
  function WorldX(t: Task, x: nat): real
  {
    t.startPoint[0] + t.stepPerPixel[0] * x as real
  }

  function WorldY(t: Task, y: nat): real
  {
    t.startPoint[1] + t.stepPerPixel[1] * y as real
  }

  /** The kernel's count for pixel `(x, y)` of the tile, stored through a `uint16_t` cast. */
  function PixelCount(t: Task, ff: FractalFunction, x: nat, y: nat): nat
  {
    U16Cast(ff(WorldX(t, x), WorldY(t, y), IterationCap()))
  }

  /**
   * The first row at which the worker sees `cancelled`: `cancelFrom` is the
   * row from which the render thread's cancellation is visible, `None` when
   * it never is during the task. A flag set before the task started is
   * visible from row 0.
   */
  function StopRow(height: nat, cancelFrom: Option<nat>): (stop: nat)
    ensures stop <= height
    ensures cancelFrom.None? ==> stop == height
    ensures cancelFrom.Some? ==> stop == if cancelFrom.value < height then cancelFrom.value else height
  {
    if cancelFrom.Some? && cancelFrom.value < height then cancelFrom.value else height
  }

  /** Pixel `i` after rendering up to row `stop`: the kernel's count before it, the resized buffer after. */
  function RenderedPixel(t: Task, ff: FractalFunction, stop: nat, i: nat): nat
    requires i < t.tile.width * t.tile.height
  {
    var w := t.tile.width;
    ProductPositive(w, t.tile.height);
    if i < stop * w then PixelCount(t, ff, i % w, i / w)
    else Resize(t.pixels, w * t.tile.height)[i]
  }

  /** The buffer after rendering up to row `stop`. */
  function RenderedPixels(t: Task, ff: FractalFunction, stop: nat): (r: seq<nat>)
    ensures |r| == t.tile.width * t.tile.height
    ensures forall i :: 0 <= i < |r| ==> r[i] == RenderedPixel(t, ff, stop, i)
  {
    seq(t.tile.width * t.tile.height, i requires 0 <= i < t.tile.width * t.tile.height => RenderedPixel(t, ff, stop, i))
  }

  /**
   * The task after `do_task`: the buffer is resized to the tile, rows before
   * the stop row hold the kernel's counts, the rest keep what the resize
   * left; `rows_completed` is the last row index seen (as `uint16_t`); the
   * task ends completed, with the measured duration.
   */
  function RenderTask(t: Task, ff: FractalFunction, cancelFrom: Option<nat>, elapsed: real): (r: Task)
    requires t.cancelled ==> cancelFrom == Some(0)
  {
    var w := t.tile.width;
    var h := t.tile.height;
    var stop := StopRow(h, cancelFrom);
    t.(pixels := RenderedPixels(t, ff, stop),
       rowsCompleted := RowsCompletedAfter(t, cancelFrom),
       completed := true,
       cancelled := t.cancelled || cancelFrom.Some?,
       duration := elapsed)
  }

  /**
   * What a finished task holds: exactly `width * height` counts, pixel
   * `(x, y)` at `y * width + x` equal to the kernel's count (at most 1000)
   * for every row before the stop row and untouched after it, and the
   * flag `completed` set. Without cancellation every row is rendered and
   * `rows_completed` ends at the last row.
   */
  lemma RenderTaskMeaning(t: Task, ff: FractalFunction, cancelFrom: Option<nat>, elapsed: real, x: nat, y: nat)
    requires t.cancelled ==> cancelFrom == Some(0)
    requires x < t.tile.width && y < t.tile.height
    ensures var r := RenderTask(t, ff, cancelFrom, elapsed);
      && |r.pixels| == t.tile.width * t.tile.height
      && r.completed && r.duration == elapsed
      && r.id == t.id && r.tile == t.tile && r.colors == t.colors && r.iterations == t.iterations
      && PixelIndex(t.tile.width, x, y) < |r.pixels|
      && (y < StopRow(t.tile.height, cancelFrom) ==>
            r.pixels[PixelIndex(t.tile.width, x, y)]
              == U16Cast(ff(WorldX(t, x), WorldY(t, y), IterationCap())))
      && (y >= StopRow(t.tile.height, cancelFrom) ==>
            r.pixels[PixelIndex(t.tile.width, x, y)]
              == Resize(t.pixels, t.tile.width * t.tile.height)[PixelIndex(t.tile.width, x, y)])
      && (cancelFrom.None? && t.tile.height <= U16_LIMIT ==> r.rowsCompleted == t.tile.height - 1)
  {
    var w := t.tile.width;
    var h := t.tile.height;
    PixelIndexInBounds(w, h, x, y);
    var i := PixelIndex(w, x, y);
    var stop := StopRow(h, cancelFrom);
    if y < stop {
      assert i < stop * w by {
        MulMonotone(y + 1, stop, w);
      }
    } else {
      assert i >= stop * w by {
        MulMonotone(stop, y, w);
      }
    }
  }

  /** Row `y` fills the index range `[y * w, (y + 1) * w)`. */
  lemma RowStart(y: nat, w: nat, h: nat)
    requires y < h
    ensures y * w + w == (y + 1) * w && (y + 1) * w <= h * w
  {
    MulMonotone(y + 1, h, w);
  }

  /** The inner loop of `do_task`: row `y` gets the kernel's counts, nothing else changes. */
  method RenderRow(t: Task, ff: FractalFunction, pixels: seq<nat>, y: nat) returns (r: seq<nat>)
    requires y < t.tile.height && |pixels| == t.tile.width * t.tile.height
    ensures |r| == |pixels|
    ensures forall x :: 0 <= x < t.tile.width ==>
      PixelIndex(t.tile.width, x, y) < |r| && r[PixelIndex(t.tile.width, x, y)] == PixelCount(t, ff, x, y)
    ensures forall i :: 0 <= i < |r| && !(y * t.tile.width <= i < y * t.tile.width + t.tile.width) ==>
      r[i] == pixels[i]
  {
    var w := t.tile.width;
    var base := PixelIndex(w, 0, y);
    RowInBounds(w, t.tile.height, y);
    var py := WorldY(t, y);
    r := pixels;
    var x := 0;
    while x != w
      invariant x <= w && |r| == |pixels|
      invariant forall xx :: 0 <= xx < x ==> r[base + xx] == PixelCount(t, ff, xx, y)
      invariant forall i :: 0 <= i < |r| && !(base <= i < base + x) ==> r[i] == pixels[i]
      decreases w - x
    {
      var px := WorldX(t, x);
      var count := ff(px, py, IterationCap());
      assert U16Cast(count) == PixelCount(t, ff, x, y);
      r := r[base + x := U16Cast(count)];
      x := x + 1;
    }
  }

  /** Every index below `stop * w` is the pixel of some earlier row. */
  lemma RowMajorSplit(i: nat, w: nat, stop: nat)
    requires i < stop * w
    ensures w > 0 && i / w < stop && i % w < w && i == PixelIndex(w, i % w, i / w)
  {
    DivMod(i, w);
    DivBelow(i, w, stop);
  }

  /** Rows `[0, y)` of the buffer hold the kernel's counts. */
  predicate RowsRendered(t: Task, ff: FractalFunction, pixels: seq<nat>, y: nat)
  {
    && |pixels| == t.tile.width * t.tile.height
    && forall yy, xx :: 0 <= yy < y && 0 <= xx < t.tile.width ==>
         PixelIndex(t.tile.width, xx, yy) < |pixels|
         && pixels[PixelIndex(t.tile.width, xx, yy)] == PixelCount(t, ff, xx, yy)
  }

  /** From index `from` on, the buffer is as it was. */
  predicate TailKept(pixels: seq<nat>, init: seq<nat>, from: nat)
  {
    |pixels| == |init| && forall i :: from <= i < |pixels| ==> pixels[i] == init[i]
  }

  /** Rendering row `y` over a buffer whose earlier rows are done extends the done rows by one. */
  lemma RowStep(t: Task, ff: FractalFunction, before: seq<nat>, after: seq<nat>, init: seq<nat>, y: nat)
    requires y < t.tile.height
    requires RowsRendered(t, ff, before, y) && TailKept(before, init, y * t.tile.width)
    requires |after| == |before|
    requires forall x :: 0 <= x < t.tile.width ==>
      PixelIndex(t.tile.width, x, y) < |after| && after[PixelIndex(t.tile.width, x, y)] == PixelCount(t, ff, x, y)
    requires forall i :: 0 <= i < |after| && !(y * t.tile.width <= i < y * t.tile.width + t.tile.width) ==>
      after[i] == before[i]
    ensures RowsRendered(t, ff, after, y + 1) && TailKept(after, init, (y + 1) * t.tile.width)
  {
    var w := t.tile.width;
    var h := t.tile.height;
    RowStart(y, w, h);
    forall yy, xx | 0 <= yy < y && 0 <= xx < w
      ensures PixelIndex(w, xx, yy) < |after| && after[PixelIndex(w, xx, yy)] == PixelCount(t, ff, xx, yy)
    {
      PixelIndexInBounds(w, y, xx, yy);
      MulMonotone(y, h, w);
    }
  }

  /** Once the loop stops at the stop row, the buffer is the one `RenderTask` describes. */
  lemma StoppedBufferIsRender(t: Task, ff: FractalFunction, cancelFrom: Option<nat>, elapsed: real, pixels: seq<nat>, y: nat)
    requires t.cancelled ==> cancelFrom == Some(0)
    requires y == StopRow(t.tile.height, cancelFrom)
    requires RowsRendered(t, ff, pixels, y)
    requires TailKept(pixels, Resize(t.pixels, t.tile.width * t.tile.height), y * t.tile.width)
    ensures pixels == RenderTask(t, ff, cancelFrom, elapsed).pixels
  {
    var w := t.tile.width;
    var h := t.tile.height;
    var expected := RenderedPixels(t, ff, y);
    forall i | 0 <= i < w * h
      ensures pixels[i] == expected[i]
    {
      StoppedPixel(t, ff, pixels, y, i);
    }
    assert pixels == expected;
  }

  lemma StoppedPixel(t: Task, ff: FractalFunction, pixels: seq<nat>, y: nat, i: nat)
    requires RowsRendered(t, ff, pixels, y)
    requires TailKept(pixels, Resize(t.pixels, t.tile.width * t.tile.height), y * t.tile.width)
    requires i < t.tile.width * t.tile.height
    ensures pixels[i] == RenderedPixel(t, ff, y, i)
  {
    var w := t.tile.width;
    if i < y * w {
      RowMajorSplit(i, w, y);
      assert pixels[PixelIndex(w, i % w, i / w)] == PixelCount(t, ff, i % w, i / w);
    }
  }

  /** What `do_task` leaves in `rows_completed`: the stop row, or the last row when none stops it. */
  function RowsCompletedAfter(t: Task, cancelFrom: Option<nat>): nat
  {
    var h := t.tile.height;
    var stop := StopRow(h, cancelFrom);
    if stop < h then U16Cast(stop) else if h > 0 then U16Cast(h - 1) else t.rowsCompleted
  }

  /** What the row loop of `do_task` leaves: the rows before the stop row rendered, the rest as resized. */
  predicate RowsDone(t: Task, ff: FractalFunction, cancelFrom: Option<nat>, pixels: seq<nat>, rows: nat)
  {
    var stop := StopRow(t.tile.height, cancelFrom);
    && RowsRendered(t, ff, pixels, stop)
    && TailKept(pixels, Resize(t.pixels, t.tile.width * t.tile.height), stop * t.tile.width)
    && rows == RowsCompletedAfter(t, cancelFrom)
  }

  /** The invariant of the row loop at row `y`. */
  predicate RowLoop(t: Task, ff: FractalFunction, cancelFrom: Option<nat>, pixels: seq<nat>, rows: nat, y: nat)
  {
    && y <= StopRow(t.tile.height, cancelFrom)
    && RowsRendered(t, ff, pixels, y)
    && TailKept(pixels, Resize(t.pixels, t.tile.width * t.tile.height), y * t.tile.width)
    && rows == (if y > 0 then U16Cast(y - 1) else t.rowsCompleted)
  }

  /** A row the cancellation does not stop is rendered, and the loop moves on. */
  lemma RowLoopStep(t: Task, ff: FractalFunction, cancelFrom: Option<nat>, before: seq<nat>, after: seq<nat>, rows: nat, y: nat)
    requires y < t.tile.height && RowLoop(t, ff, cancelFrom, before, rows, y)
    requires !(cancelFrom.Some? && cancelFrom.value <= y)
    requires |after| == |before|
    requires forall x :: 0 <= x < t.tile.width ==>
      PixelIndex(t.tile.width, x, y) < |after| && after[PixelIndex(t.tile.width, x, y)] == PixelCount(t, ff, x, y)
    requires forall i :: 0 <= i < |after| && !(y * t.tile.width <= i < y * t.tile.width + t.tile.width) ==>
      after[i] == before[i]
    ensures RowLoop(t, ff, cancelFrom, after, U16Cast(y), y + 1)
  {
    RowStep(t, ff, before, after, Resize(t.pixels, t.tile.width * t.tile.height), y);
  }

  /** The loop leaves at the row where the cancellation becomes visible. */
  lemma RowLoopStops(t: Task, ff: FractalFunction, cancelFrom: Option<nat>, pixels: seq<nat>, rows: nat, y: nat)
    requires y < t.tile.height && RowLoop(t, ff, cancelFrom, pixels, rows, y)
    requires cancelFrom.Some? && cancelFrom.value <= y
    ensures RowsDone(t, ff, cancelFrom, pixels, U16Cast(y))
  {
  }

  /** Or it runs past the last row. */
  lemma RowLoopEnds(t: Task, ff: FractalFunction, cancelFrom: Option<nat>, pixels: seq<nat>, rows: nat)
    requires RowLoop(t, ff, cancelFrom, pixels, rows, t.tile.height)
    ensures RowsDone(t, ff, cancelFrom, pixels, rows)
  {
  }

  /**
   * The row loop of `do_task`: records `rows_completed`, stops at the first
   * row where `cancelled` is visible, and renders each earlier row.
   */
  method RenderRows(t: Task, ff: FractalFunction, cancelFrom: Option<nat>) returns (pixels: seq<nat>, rows: nat)
    ensures RowsDone(t, ff, cancelFrom, pixels, rows)
  {
    var h := t.tile.height;
    pixels := Resize(t.pixels, t.tile.width * h);
    rows := t.rowsCompleted;
    var y := 0;
    while y != h
      invariant y <= h && RowLoop(t, ff, cancelFrom, pixels, rows, y)
      decreases h - y
    {
      if cancelFrom.Some? && cancelFrom.value <= y {
        RowLoopStops(t, ff, cancelFrom, pixels, rows, y);
        rows := U16Cast(y);
        return;
      }
      var next := RenderRow(t, ff, pixels, y);
      RowLoopStep(t, ff, cancelFrom, pixels, next, rows, y);
      rows := U16Cast(y);
      pixels := next;
      y := y + 1;
    }
    RowLoopEnds(t, ff, cancelFrom, pixels, rows);
  }

  /**
   * `do_task`: renders the rows before the stop row with the kernel `ff`
   * selected for the task, then marks the task completed with its duration.
   */
  method DoTask(t: Task, ff: FractalFunction, cancelFrom: Option<nat>, elapsed: real) returns (r: Task)
    requires t.cancelled ==> cancelFrom == Some(0)
    ensures r == RenderTask(t, ff, cancelFrom, elapsed)
  {
    var pixels, rows := RenderRows(t, ff, cancelFrom);
    StoppedBufferIsRender(t, ff, cancelFrom, elapsed, pixels, StopRow(t.tile.height, cancelFrom));
    r := t.(pixels := pixels, rowsCompleted := rows, completed := true,
            cancelled := t.cancelled || cancelFrom.Some?, duration := elapsed);
  }
}
