# Mandelbrot viewers and their support code, modelled in Dafny

The repository holds several Mandelbrot viewers built on a small OpenGL helper library (klgl). This project models the parts of them that are exact integer, rational or bookkeeping logic, and proves properties of that model.

- **Tile scheduler** (`TileScheduler`, `CpuBackend`, `Partition`). The CPU rendering backend of the fractal viewer cuts the texture into a 10 x 10 grid with `get_part`. It creates one `ThreadTask` per tile and sorts the tasks centre-out. Each task pointer goes into the lock-free queue. Worker threads are modelled as two explicit steps: pop the head of the queue, then run `do_task` on the popped task. `CancelAllTasks`, `HandleCompletedTasks`, `HasTasksInProgress`, `StartNewFractalFrame` and `PostDraw` are pure functions on a `Backend` value.
- **Region workers** (`RegionWorkers`). The older per-region CPU backend of the region-based viewer. Each region's thread has the state machine `Pending -> InProgress -> Pending`, and `MustStop` once the destructor runs. `PostDraw` dispatches the grid and `render` fills a region row-major.
- **Viewport** (`FractalSettings`, `LegacySettings`, `Vectors`). The camera, exponential zoom, aspect-corrected extents, step per pixel, pixel-to-world mapping, panning, and the `settings_applied` dirty flag. The settings build on the component-wise `Vector<T, N>`. The 100-digit decimal floats and doubles are `real`.
- **Escape-time kernel and colour tables** (`Mandelbrot`, `Palette`). The kernel is written once over `real`. The magnitude-first and cap-first loops are each proved equal to it. The module also covers the segment blend of `ColorForIteration`, the precomputed `lib_fractal` palette with its unsigned wrap, and the red gradient palette of the raylib driver.
- **Primes** (`Bitset`, `Primes`, `PrimeSieve`, `Factorized`). It models the fixed-size bitset, the segmented sieve of Eratosthenes, trial division with 6k +- 1, `bits_required_for_number`, and `FactorizedNumber` with its merge-style multiplication.
- **klgl support** (`NameCache`, `Names`, `Reflection`, `ShaderUniforms`, `ShaderDefines`, `Shaders`, `GlEnums`). It models string interning, shader define and uniform lookup through cached handles, and the uniform "sent" flag. It also covers define type dispatch and `#define` generation, and the `ConvertEnum` tables of the OpenGL wrapper.

`Base`, `Arith` and `Sorting` hold shared vocabulary:
- `Option`, `Result`, and the `Outcome` of a call that may throw mid-way;
- machine-width casts;
- Euclidean-division facts;
- an insertion sort by integer key, which stands for `std::ranges::sort`.

The following are parameters of the model:
- clocks: a task's `elapsed` time;
- the kernel behind `SelectFractalFunction`'s function pointer: `ff`;
- when a cancellation becomes visible to a worker: `cancelFrom`;
- what OpenGL reports about active uniforms;
- number formatting.

## Model

| member | source | states |
|---|---|---|
| TileScheduler.NewTask | fractal/code/rendering_backend/rendering_backend_cpu.hpp:25-39 | a new task is neither completed nor cancelled, has completed 0 rows and owns no pixels; it carries the tile, start point, step, colours and kernel choice it is given, and the cap of 1000 |
| TileScheduler.Resize | fractal/code/rendering_backend/rendering_backend_cpu.cpp:62 | resizing yields exactly `n` counts: the old prefix where it existed and zeros after it |
| TileScheduler.KernelResultFits | fractal/code/rendering_backend/rendering_backend_cpu.cpp:41-57 | either kernel the task selects returns the escape count, which is at most 1000, so the `uint16_t` cast of line 77 loses nothing |
| TileScheduler.StopRow | fractal/code/rendering_backend/rendering_backend_cpu.cpp:64-71 | the row loop stops at the first row at which the cancellation is visible, or after the last row when none is |
| TileScheduler.RenderedPixels | fractal/code/rendering_backend/rendering_backend_cpu.cpp:62-80 | the buffer `do_task` leaves has `width * height` entries, one per pixel of the tile |
| TileScheduler.RenderTaskMeaning | fractal/code/rendering_backend/rendering_backend_cpu.cpp:59-86 | after `do_task` the buffer has `width * height` counts; pixel `(x, y)` sits at `y * width + x` in bounds and holds the kernel's count when its row is before the stop row, and the resized buffer's entry otherwise; the task is completed with the measured duration, with its identity, tile and colours unchanged; without cancellation `rows_completed` ends at the last row |
| TileScheduler.RowStart | fractal/code/rendering_backend/rendering_backend_cpu.cpp:78 | row `y` of a `w`-wide buffer occupies `[y * w, (y + 1) * w)`, inside the `h * w` buffer |
| TileScheduler.RenderRow | fractal/code/rendering_backend/rendering_backend_cpu.cpp:73-79 | one row writes the kernel's count at `y * width + x` for each column and leaves every index outside the row unchanged |
| TileScheduler.RowMajorSplit | fractal/code/rendering_backend/rendering_backend_cpu.cpp:78 | every index below `stop * w` is `y * w + x` for a row `y < stop` and a column `x < w` |
| TileScheduler.RowStep | fractal/code/rendering_backend/rendering_backend_cpu.cpp:64-80 | rendering one more row extends the rendered prefix by one row and keeps the tail beyond it |
| TileScheduler.StoppedBufferIsRender | fractal/code/rendering_backend/rendering_backend_cpu.cpp:64-80 | a buffer whose rows before the stop row are rendered and whose rest is as resized is exactly the buffer `do_task` describes |
| TileScheduler.StoppedPixel | fractal/code/rendering_backend/rendering_backend_cpu.cpp:64-80 | each entry of such a buffer is the rendered pixel for that stop row |
| TileScheduler.RowLoopStep | fractal/code/rendering_backend/rendering_backend_cpu.cpp:64-80 | a row the cancellation does not stop is recorded in `rows_completed`, rendered, and the loop invariant moves to the next row |
| TileScheduler.RowLoopStops | fractal/code/rendering_backend/rendering_backend_cpu.cpp:66-71 | seeing `cancelled` at row `y` leaves `rows_completed == y` and the rows before `y` rendered |
| TileScheduler.RowLoopEnds | fractal/code/rendering_backend/rendering_backend_cpu.cpp:64-80 | running past the last row leaves every row rendered |
| TileScheduler.RenderRows | fractal/code/rendering_backend/rendering_backend_cpu.cpp:62-80 | the row loop ends with every row before the stop row rendered, the rest as resized, and `rows_completed` at the stop row (or the last row) |
| TileScheduler.DoTask | fractal/code/rendering_backend/rendering_backend_cpu.cpp:59-86 | `do_task` produces the task `RenderTaskMeaning` describes |
| CpuBackend.Empty | fractal/code/rendering_backend/rendering_backend_cpu.hpp:101-106 | a new backend owns, queues and shows nothing, has neither frame duration, and satisfies the invariant |
| CpuBackend.FilterAppend | fractal/code/rendering_backend/rendering_backend_cpu.cpp:200-208 | compacting a list keeps the survivors' relative order: filtering distributes over concatenation |
| CpuBackend.FilterMembership | fractal/code/rendering_backend/rendering_backend_cpu.cpp:200-208 | an element survives compaction exactly when it was in the list and is kept |
| CpuBackend.FilterPrefixStep | fractal/code/rendering_backend/rendering_backend_cpu.cpp:187-198 | one more element of the scan adds itself to the kept prefix exactly when it is kept |
| CpuBackend.Cancel | fractal/code/rendering_backend/rendering_backend_cpu.cpp:177-181 | a consumed task ends cancelled and completed, with no other field changed |
| CpuBackend.CancelAllTasks | fractal/code/rendering_backend/rendering_backend_cpu.cpp:174-182 | the queue ends empty; exactly the owned tasks that were queued become cancelled and completed with nothing else about them changed; tasks not in the queue, the ready list, the ids and the durations are untouched |
| CpuBackend.ConsumeAll | fractal/code/rendering_backend/rendering_backend_cpu.cpp:176-181 | popping the queue one pointer at a time and cancelling each task gives the result `CancelAllTasks` specifies |
| CpuBackend.CancelAllTasksValid | fractal/code/rendering_backend/rendering_backend_cpu.cpp:174-182 | cancelling keeps the backend invariant (distinct owned tasks, queued pointers owned and incomplete, only completed tasks cancelled, a duration open while tasks exist) |
| CpuBackend.HandleCompletedTasks | fractal/code/rendering_backend/rendering_backend_cpu.cpp:184-209 | handling leaves the queue, the id counter and the previous duration alone, and keeps a current duration open exactly when one was |
| CpuBackend.HandleCompletedTasksMeaning | fractal/code/rendering_backend/rendering_backend_cpu.cpp:184-209 | a task stays owned exactly when it was owned and incomplete; the old ready list is a prefix of the new one; a task is newly ready exactly when it was owned, completed and not cancelled |
| CpuBackend.HandleCompletedTasksPartition | fractal/code/rendering_backend/rendering_backend_cpu.cpp:184-209 | every owned task is accounted for exactly once: kept, shown, or freed as completed-and-cancelled |
| CpuBackend.ThreeWaySplit | fractal/code/rendering_backend/rendering_backend_cpu.cpp:189-197 | incomplete, displayable and dropped tasks partition any task list as a multiset |
| CpuBackend.DurationsSnoc | fractal/code/rendering_backend/rendering_backend_cpu.cpp:193 | adding a shown task adds its duration to the frame's total |
| CpuBackend.HandleCompletedTasksLoop | fractal/code/rendering_backend/rendering_backend_cpu.cpp:184-209 | the source's loop (move or drop each completed task, add durations, then erase the nulls) computes `HandleCompletedTasks` |
| CpuBackend.HandleCompletedTasksValid | fractal/code/rendering_backend/rendering_backend_cpu.cpp:184-209 | on a valid backend the dereference of the current duration is defined, and handling keeps the invariant: no queued task is ever freed |
| CpuBackend.FilterKeepsDistinctIds | fractal/code/rendering_backend/rendering_backend_cpu.cpp:200-208 | compacting a list of distinct tasks leaves them distinct |
| CpuBackend.HasTasksInProgress | fractal/code/rendering_backend/rendering_backend_cpu.cpp:211-227 | the answer is true exactly when the queue is non-empty or some owned task has not completed |
| CpuBackend.IdleAfterHandleIsEmpty | fractal/code/rendering_backend/rendering_backend_cpu.cpp:184-227 | after handling, "nothing in progress" holds exactly when nothing is owned and nothing is queued |
| CpuBackend.FrameTemplates | fractal/code/rendering_backend/rendering_backend_cpu.cpp:247-280 | the grid loop creates one task per tile, `10 * 10` of them |
| CpuBackend.Numbered | fractal/code/rendering_backend/rendering_backend_cpu.cpp:293-299 | the `k`-th new task gets the fresh id `first + k` and is otherwise unchanged |
| CpuBackend.FreshIds | fractal/code/rendering_backend/rendering_backend_cpu.cpp:293-299 | the new frame's pointers are `first, first + 1, ...`, one per task |
| CpuBackend.StartNewFractalFrame | fractal/code/rendering_backend/rendering_backend_cpu.cpp:229-300 | on an empty queue, 100 tasks are appended to `tasks_` after the old ones, and the queue holds their pointers in the same order; ready list and durations are untouched |
| CpuBackend.PushFrame | fractal/code/rendering_backend/rendering_backend_cpu.cpp:293-299 | the push loop appends every task to `tasks_` and to the queue, keeping the old tasks as a prefix |
| CpuBackend.PushFrameValid | fractal/code/rendering_backend/rendering_backend_cpu.cpp:293-299 | pushing fresh, incomplete tasks onto an empty queue keeps the invariant |
| CpuBackend.StartNewFractalFrameOrder | fractal/code/rendering_backend/rendering_backend_cpu.cpp:247-299 | the new tasks are a permutation of the tasks the grid loop creates, ordered by non-decreasing squared distance from tile origin to texture centre |
| CpuBackend.SortedTemplatesFresh | fractal/code/rendering_backend/rendering_backend_cpu.cpp:261-291 | every task of the sorted frame is fresh: not yet numbered, not completed, not cancelled |
| CpuBackend.FreshPermutation | fractal/code/rendering_backend/rendering_backend_cpu.cpp:283-291 | a permutation of fresh tasks has only fresh tasks |
| CpuBackend.PushedInOrder | fractal/code/rendering_backend/rendering_backend_cpu.cpp:293-299 | the pushed tasks, ids aside, are the sorted tasks in sorted order |
| CpuBackend.FrameTemplateAt | fractal/code/rendering_backend/rendering_backend_cpu.cpp:249-280 | the task of tile `(ry, rx)` has that tile, starts at the world point of the tile's origin, steps by the settings' step per pixel, has one colour per settings colour whose three bytes truncate `255 * f` (`c <= 255 * f < c + 1`), a cap of 1000, and is fresh |
| CpuBackend.StartNewFractalFrameValid | fractal/code/rendering_backend/rendering_backend_cpu.cpp:229-300 | starting a frame on an idle backend with an open duration keeps the invariant |
| CpuBackend.PostDraw | fractal/code/rendering_backend/rendering_backend_cpu.cpp:302-334 | exactly three outcomes after handling: with the settings applied, the handled backend with the duration closed when idle; with them changed and work in progress, the handled backend with every queued task cancelled and the flag still clear; otherwise nothing is owned or queued, a fresh frame of 100 tasks is started on the closed backend, a duration opens at 0 and the flag is set; an idle frame's duration becomes the previous one |
| CpuBackend.CloseDuration | fractal/code/rendering_backend/rendering_backend_cpu.cpp:306-315 | when idle with a duration open, that duration becomes the previous one and none is open; otherwise nothing changes; tasks, queue, ready list and ids are never touched |
| CpuBackend.ApplySettings | fractal/code/rendering_backend/rendering_backend_cpu.cpp:317-332 | applied settings change nothing; changed settings with work in progress empty the queue by cancelling; otherwise 100 tasks are added and queued, the flag is set and a duration opens at 0 |
| CpuBackend.PostDrawValid | fractal/code/rendering_backend/rendering_backend_cpu.cpp:302-334 | `PostDraw` keeps the invariant |
| CpuBackend.PostDrawBusyValid | fractal/code/rendering_backend/rendering_backend_cpu.cpp:318-325 | with work in progress, handling and cancelling keep the invariant |
| CpuBackend.PostDrawIdleValid | fractal/code/rendering_backend/rendering_backend_cpu.cpp:308-332 | with nothing in progress, closing the duration and starting a frame keep the invariant |
| CpuBackend.ClosingKeepsValid | fractal/code/rendering_backend/rendering_backend_cpu.cpp:310-314 | moving the current duration to the previous one on an empty backend keeps the invariant |
| CpuBackend.WorkerPop | fractal/code/rendering_backend/rendering_backend_cpu.cpp:88-98 | a worker takes the pointer at the head of the queue, which then no longer occurs in it |
| CpuBackend.FinishTask | fractal/code/rendering_backend/rendering_backend_cpu.cpp:59-86 | a finished task is completed, keeps its id and its cancelled flag |
| CpuBackend.WorkerFinish | fractal/code/rendering_backend/rendering_backend_cpu.cpp:93-96 | finishing a popped task changes only that task, and only as `do_task` does |
| CpuBackend.WorkerStepsValid | fractal/code/rendering_backend/rendering_backend_cpu.cpp:88-98 | both worker steps keep the invariant |
| CpuBackend.WorkerPopValid | fractal/code/rendering_backend/rendering_backend_cpu.cpp:93 | popping the head keeps the invariant |
| CpuBackend.WorkerFinishValid | fractal/code/rendering_backend/rendering_backend_cpu.cpp:95 | finishing a task that is no longer queued keeps the invariant |
| CpuBackend.PoppedTaskSurvivesCancel | fractal/code/rendering_backend/rendering_backend_cpu.cpp:174-194 | a task popped before a cancellation is finished uncancelled and shown by the next handling, while no task still queued at the cancellation is shown: tiles of two frames can both reach the screen |
| CpuBackend.PopThenCancel | fractal/code/rendering_backend/rendering_backend_cpu.cpp:174-182 | after pop, cancel and finish, the popped task is completed and uncancelled and every task still queued at the cancellation is cancelled |
| CpuBackend.HeadTask | fractal/code/rendering_backend/rendering_backend_cpu.cpp:93 | the head of a valid queue is an owned task that is neither completed nor cancelled |
| CpuBackend.StillQueuedCancelled | fractal/code/rendering_backend/rendering_backend_cpu.cpp:176-181 | every task queued behind the popped one ends cancelled |
| CpuBackend.FinishedCountsWithinCap | fractal/code/rendering_backend/rendering_backend_cpu.cpp:77 | every count a finished task holds is at most its cap, so `Draw`'s colour lookup is defined on it |
| CpuBackend.PostDrawRacing | fractal/code/rendering_backend/rendering_backend_cpu.cpp:302-316 | `PostDraw` as written, with a worker finishing a popped task between handling (line 304) and the in-progress check (line 306); with no such event it is `PostDraw` |
| CpuBackend.PostDrawRaceClosesEarly | fractal/code/rendering_backend/rendering_backend_cpu.cpp:184-194 | with one popped, unfinished task and the settings applied, the task finishing inside `PostDraw` leaves a completed, shown-to-be task owned while no frame duration is open, so the next handling dereferences the empty duration |
| CpuBackend.PostDrawCheckFirst | fractal/code/rendering_backend/rendering_backend_cpu.cpp:302-316 | the in-progress check made before handling; with no worker event it is `PostDraw` |
| CpuBackend.WorkerEventOpen | fractal/code/rendering_backend/rendering_backend_cpu.cpp:88-98 | a worker finishing a popped task keeps the invariant, and on an idle backend no worker can finish anything |
| CpuBackend.InProgressAcrossHandling | fractal/code/rendering_backend/rendering_backend_cpu.cpp:184-227 | handling removes only completed tasks, so whether work is in progress is the same before and after it |
| CpuBackend.PostDrawCheckFirstValid | fractal/code/rendering_backend/rendering_backend_cpu.cpp:302-334 | with the check first, `PostDraw` keeps the invariant whatever a worker finishes during it |
| CpuBackend.TileColors | fractal/code/rendering_backend/rendering_backend_cpu.cpp:147-152 | `Draw` produces one colour per count: black for every count that reached the cap, and otherwise the blend of the count's two segment colours by the weight as the source computes it |
| CpuBackend.TakePreviousFrameDuration | fractal/code/rendering_backend/rendering_backend_cpu.hpp:74-79 | returns the stored duration and leaves none behind; nothing else changes |
| CpuBackend.ForEachTask | fractal/code/rendering_backend/rendering_backend_cpu.hpp:81-89 | the callback's result for each owned task, once per task, in order |
| FractalSettings.Update | fractal/code/fractal_settings.cpp:5-35 | clears `settings_applied` and recomputes the view from the inputs (camera, zoom, scale factor, size): the half-extent `2 * 0.95^zoom` is stretched along the longer side by the aspect ratio, `min`/`max` lie that far either side of the camera, the range is twice it, and the step per pixel times the size gives back the range |
| FractalSettings.RangeDeterminedByZoom | fractal/code/fractal_settings.cpp:9-34 | the range and the step per pixel depend only on the size, the scale factor and the zoom, not on the camera |
| FractalSettings.DerivedDeterminesView | fractal/code/fractal_settings.cpp:5-35 | two consistent settings with the same inputs and flag are equal: the derived view is a function of the inputs |
| FractalSettings.New | fractal/code/fractal_settings.hpp:10-19 | the default settings: camera at the origin, zoom 0, scale 1, factor 0.95, pan speed 0.1, an 800 x 800 viewport, so the view is `[-2, 2] x [-2, 2]`; seed 1234, double kernel, flag cleared |
| FractalSettings.IncrementScale | fractal/code/fractal_settings.hpp:21-25 | the `uint16_t` zoom goes up by one modulo 65536; the view is recomputed around the same camera and size |
| FractalSettings.DecrementScale | fractal/code/fractal_settings.hpp:27-34 | at zoom 0 nothing changes; otherwise the zoom goes down by one and the view is recomputed around the same camera and size |
| FractalSettings.IncrementDecrementRoundTrip | fractal/code/fractal_settings.hpp:21-34 | below the `uint16_t` limit, zooming in and then out restores the settings except the cleared flag |
| FractalSettings.SameZoomSameView | fractal/code/fractal_settings.cpp:5-35 | a recomputed view with the same inputs as a consistent one differs from it only in the cleared flag |
| FractalSettings.ShiftCameraX | fractal/code/fractal_settings.hpp:36-40 | the camera moves by `delta` along x only and the flag clears; the derived view (min, max, range, step), zoom, scale and size are not recomputed |
| FractalSettings.ShiftCameraY | fractal/code/fractal_settings.hpp:42-46 | the camera moves by `delta` along y only and the flag clears; the derived view is not recomputed |
| FractalSettings.ShiftLeavesViewStale | fractal/code/fractal_settings.hpp:36-46 | after a non-zero shift the view no longer matches the camera until the next recomputation |
| FractalSettings.SetViewportSize | fractal/code/fractal_settings.hpp:53-61 | the same size changes nothing; a new non-zero size is stored and the view recomputed around the same camera and zoom; a new size with a zero side (a minimised window) is stored, the flag cleared and the scale recomputed, and the view is left as it was |
| FractalSettings.RestoreAfterMinimise | fractal/code/fractal_settings.hpp:53-61 | resizing to zero and back to the old size gives a consistent view of that size with the camera and zoom kept |
| FractalSettings.SetZoom | fractal/code/fractal_settings.hpp:63-70 | the same zoom changes nothing; a new zoom is stored and the view recomputed around the same camera |
| FractalSettings.SetCamera | fractal/code/fractal_settings.hpp:96-105 | when the check is on and the camera is unchanged nothing changes; otherwise the camera is stored and the view recomputed |
| FractalSettings.CoordAtPixelCorners | fractal/code/fractal_settings.cpp:86-92 | pixel `(0, 0)` maps to `min` and pixel `(width, height)` to `max` |
| FractalSettings.CoordAtPixelStep | fractal/code/fractal_settings.cpp:86-92 | one pixel to the right or up moves the world point by exactly the step per pixel on that axis |
| FractalSettings.MoveCameraToPixel | fractal/code/fractal_settings.cpp:37-56 | moving the camera keeps the zoom and the viewport size |
| FractalSettings.MoveCameraToPixelTargets | fractal/code/fractal_settings.cpp:37-56 | the camera lands on the world point of the pixel (with y mirrored to `height - y` when flipped), and the view is recomputed around it |
| FractalSettings.PixelFractionPoint | fractal/code/fractal_settings.cpp:39-54 | the source's `p / size * range + min` is the same world point as `GetCoordAtPixel`'s `min + step * p` |
| FractalSettings.PannedCamera | fractal/code/fractal_settings.cpp:65-81 | each axis moves by `pan_speed * dt * range` in the sign of its direction, and not at all for direction 0 |
| FractalSettings.PanCamera | fractal/code/fractal_settings.cpp:58-84 | no direction changes nothing; otherwise the camera is panned by `PannedCamera` and the view recomputed, with zoom, size, factor and pan speed kept |
| FractalSettings.PanThereAndBack | fractal/code/fractal_settings.cpp:58-84 | panning and then panning the opposite way for the same `dt` returns the camera to where it was |
| FractalSettings.PannedBack | fractal/code/fractal_settings.cpp:65-81 | opposite pans over the same range cancel |
| FractalSettings.PanKeepsRange | fractal/code/fractal_settings.cpp:58-84 | a pan does not change the range, so the reverse pan uses the same step |
| FractalSettings.PanCameraMoves | fractal/code/fractal_settings.cpp:58-84 | a pan in some direction moves the camera as `PannedCamera` says and keeps the pan speed |
| FractalSettings.PanDeltaOpposite | fractal/code/fractal_settings.cpp:70-79 | the moves for directions `d` and `-d` sum to zero |
| LegacySettings.New | gpu_fractal/code/fractal_settings.hpp:11-17 | the global rectangle is `[-2, 0.47] x [-1.12, 1.12]` with range `(2.47, 2.24)`, the camera at its centre, zoom step 0, seed 1234 |
| LegacySettings.IncrementScale | gpu_fractal/code/fractal_settings.hpp:19-23 | below `INT_MAX`, the zoom step goes up by one and the flag clears; nothing else changes |
| LegacySettings.DecrementScale | gpu_fractal/code/fractal_settings.hpp:25-32 | at step 0 nothing changes; otherwise the step goes down by one and the flag clears |
| LegacySettings.ShiftCameraX | gpu_fractal/code/fractal_settings.hpp:34-38 | the camera moves by `delta` along x and the flag clears; nothing else changes |
| LegacySettings.ShiftCameraY | gpu_fractal/code/fractal_settings.hpp:39-43 | the camera moves by `delta` along y and the flag clears; nothing else changes |
| LegacySettings.ViewRange | gpu_fractal/code/rendering_backend_cpu.cpp:197-198 | the backend's range is the global range scaled by `0.95^scale_i`, a factor in `(0, 1]` |
| LegacySettings.PowBetween | gpu_fractal/code/rendering_backend_cpu.cpp:197 | a power of a factor in `(0, 1]` stays in `(0, 1]` |
| LegacySettings.IncrementShrinksRange | gpu_fractal/code/fractal_settings.hpp:19-23 | below `INT_MAX`, zooming in multiplies the range by exactly 0.95 on both axes |
| LegacySettings.MutatorsPreserveValid | gpu_fractal/code/fractal_settings.hpp:19-43 | every mutator keeps the zoom step non-negative |
| LegacySettings.IncrementDecrementRoundTrip | gpu_fractal/code/fractal_settings.hpp:19-32 | below `INT_MAX`, zooming in and then out restores the settings except the cleared flag |
| Vectors.Splat | gpu_fractal/code/vector.hpp:26-32 | every component equals the value |
| Vectors.Add | gpu_fractal/code/vector.hpp:44-58 | component `i` is the sum of the components `i` |
| Vectors.Sub | gpu_fractal/code/vector.hpp:73-87 | component `i` is the difference of the components `i` |
| Vectors.Mul | gpu_fractal/code/vector.hpp:131-145 | component `i` is the product of the components `i` |
| Vectors.Div | gpu_fractal/code/vector.hpp:102-116 | component `i` is the quotient of the components `i`, for a divisor with no zero component |
| Vectors.AddScalar | gpu_fractal/code/vector.hpp:60-71 | each component is increased by the scalar |
| Vectors.SubScalar | gpu_fractal/code/vector.hpp:89-100 | each component is decreased by the scalar |
| Vectors.MulScalar | gpu_fractal/code/vector.hpp:147-158 | each component is multiplied by the scalar |
| Vectors.DivScalar | gpu_fractal/code/vector.hpp:118-129 | each component is divided by a non-zero scalar |
| Vectors.Neg | gpu_fractal/code/vector.hpp:160-168 | each component is negated |
| Vectors.NegNeg | gpu_fractal/code/vector.hpp:160-168 | negation is an involution |
| Vectors.AddSubRoundTrip | gpu_fractal/code/vector.hpp:44-87 | subtracting what was added gives back the original vector |
| Vectors.DivMulRoundTrip | gpu_fractal/code/vector.hpp:102-145 | multiplying a quotient by its divisor gives back the dividend |
| Vectors.SubIsAddNeg | gpu_fractal/code/vector.hpp:73-87 | subtraction is addition of the negation |
| Vectors.AddCommutes | gpu_fractal/code/vector.hpp:44-58 | addition is commutative |
| Mandelbrot.EscapeFromMeaning | lib_fractal/code/include/lib_fractal/lib_fractal.hpp:13-18 | continuing the iteration from a step `k` that has not escaped yields an escape count: the first index whose iterate has `x^2 + y^2 > 4`, or the cap when none before it has |
| Mandelbrot.OrbitSucc | lib_fractal/code/include/lib_fractal/lib_fractal.hpp:15-17 | the next iterate is `z^2 + c` of the current one |
| Mandelbrot.StepInCoordinates | lib_fractal/code/include/lib_fractal/lib_fractal.hpp:15-17 | `z^2 + c` in coordinates is `(x^2 - y^2 + x0, 2xy + y0)`, the update the loop performs |
| Mandelbrot.Advance | lib_fractal/code/include/lib_fractal/lib_fractal.hpp:13-18 | a bounded iterate below the cap does not end the loop, and the next one is computed by the coordinate update |
| Mandelbrot.Stop | lib_fractal/code/include/lib_fractal/lib_fractal.hpp:13 | the loop ends at step `k` when the cap is reached or the iterate has escaped, and then `k` is the count |
| Mandelbrot.EscapeCountCharacterised | lib_fractal/code/include/lib_fractal/lib_fractal.hpp:8-22 | the escape count is the unique number that is the first escaping index before the cap, or the cap when no iterate before it escapes |
| Mandelbrot.MandelbrotLoop | lib_fractal/code/include/lib_fractal/lib_fractal.hpp:8-22 | the magnitude-first loop returns the escape count, at most the cap, and 0 for a cap of 0 |
| Mandelbrot.MandelbrotLoopCapFirst | gpu_fractal/code/mandelbrot.hpp:7-32 | the cap-first loop with an explicit `break` returns the same escape count |
| Mandelbrot.OriginOrbitIsZero | lib_fractal/code/include/lib_fractal/lib_fractal.hpp:10-17 | every iterate of `c = 0` is 0 |
| Mandelbrot.OriginNeverEscapes | lib_fractal/code/include/lib_fractal/lib_fractal.hpp:8-22 | the point 0 always runs to the cap |
| Mandelbrot.MinusOneOrbit | lib_fractal/code/include/lib_fractal/lib_fractal.hpp:10-17 | the iterates of `c = -1` alternate between 0 and -1 |
| Mandelbrot.MinusOneNeverEscapes | lib_fractal/code/include/lib_fractal/lib_fractal.hpp:8-22 | the point -1 always runs to the cap |
| Mandelbrot.TwoEscapesAtSecondIterate | lib_fractal/code/include/lib_fractal/lib_fractal.hpp:13 | with the non-strict `<= 4.0` test, `c = 2` has the count 2: its first iterate 2 sits exactly on the circle of radius 2 and does not stop the loop |
| Palette.SegmentIndex | fractal/code/rendering_backend/rendering_backend_cpu.cpp:29-32 | the first colour index is the segment that holds the iteration: `first * iterations <= iteration * segments < (first + 1) * iterations`, and `first + 1` is a valid colour |
| Palette.BlendFractionAsWritten | fractal/code/rendering_backend/rendering_backend_cpu.cpp:29-35 | the blend fraction as written, `(k % (iterations / segments)) / (iterations / segments)`, lies in `[0, 1)` |
| Palette.BlendFractionAsWrittenJumps | fractal/code/rendering_backend/rendering_backend_cpu.cpp:29-35 | with 10 colours and 1000 iterations, iterations 12 and 13 share segment 0 but the fraction drops from 108/111 to 6/111 |
| Palette.BlendFraction | fractal/code/rendering_backend/rendering_backend_cpu.cpp:29-35 | the intended fraction of the iteration inside its segment lies in `[0, 1)` |
| Palette.BlendPosition | fractal/code/rendering_backend/rendering_backend_cpu.cpp:29-35 | segment index plus fraction is exactly the iteration's position `iteration * segments / iterations` along the colour list |
| Palette.BlendFractionMonotone | fractal/code/rendering_backend/rendering_backend_cpu.cpp:29-35 | inside one segment a larger iteration has a strictly larger fraction |
| Palette.Lerp | fractal/code/rendering_backend/rendering_backend_cpu.cpp:36 | the truncated blend of two bytes lies between them and is the first for fraction 0 |
| Palette.Blend | fractal/code/rendering_backend/rendering_backend_cpu.cpp:36 | each channel of the blend lies between the two colours' channels, and weight 0 gives the first colour |
| Palette.ColorForIteration | fractal/code/rendering_backend/rendering_backend_cpu.cpp:25-37 | the cap maps to black; every other iteration maps to the blend, by the weight the source computes, of the two colours of its segment, so its channels lie between theirs |
| Palette.ColorForIterationIntended | fractal/code/rendering_backend/rendering_backend_cpu.cpp:25-37 | the same colour with the weight as the position inside the segment: black at the cap, channels between the segment's colours |
| Palette.ColorForIterationAsWrittenDiffers | fractal/code/rendering_backend/rendering_backend_cpu.cpp:29-36 | with 10 colours, 1000 iterations and a red channel rising from 0 to 111 in the first segment, iteration 12 is drawn with red 108 instead of 11 |
| Palette.ColorForIterationStartsAtFirstColor | fractal/code/rendering_backend/rendering_backend_cpu.cpp:25-37 | iteration 0 has the first colour, both as written and with the intended weight |
| Palette.ChannelCenter | lib_fractal/code/include/lib_fractal/pallete.hpp:23-24 | a channel's centre lies in `[300, 300 + n)` |
| Palette.MaxDist | lib_fractal/code/include/lib_fractal/pallete.hpp:25 | `max_dist` is at least the distance from the centre to both 0 and `n`; when the centre lies beyond `n`, `n - center` wraps around in 64-bit unsigned arithmetic |
| Palette.ChannelFits | lib_fractal/code/include/lib_fractal/pallete.hpp:21-29 | when the centre lies within the table and the iteration within it, the scaled distance fits in a byte |
| Palette.ChannelZeroAtCenter | lib_fractal/code/include/lib_fractal/pallete.hpp:21-29 | a channel is 0 at its own centre |
| Palette.WrappedChannelIsZero | lib_fractal/code/include/lib_fractal/pallete.hpp:25-28 | when the centre lies beyond the table, the wrapped `max_dist` is so large that the channel is 0 for every 32-bit iteration |
| Palette.MakeColorForIteration | lib_fractal/code/include/lib_fractal/pallete.hpp:9-32 | iteration 0 is white and above 999 black; otherwise the colour is defined exactly when all three scaled distances fit in a byte (the `uint8_t` cast of a larger float is undefined), and is then made of them |
| Palette.MakeColorForIterationDefined | lib_fractal/code/include/lib_fractal/pallete.hpp:9-32 | when all three centres lie within the table, every entry up to `n` is defined |
| Palette.MakePallete | lib_fractal/code/include/lib_fractal/pallete.hpp:34-44 | the table is defined exactly when every entry is, and entry `i` is the colour of iteration `i` |
| Palette.Pallete1001Centers | lib_fractal/code/include/lib_fractal/pallete.hpp:23-24 | for the 1001-entry table used with a cap of 1000 the centres are 799, 1132 and 464 |
| Palette.Pallete1001GreenIsZero | lib_fractal/code/include/lib_fractal/pallete.hpp:21-31 | in that table green's centre lies past the end, so green is 0 for every iteration from 1 to 999 |
| Palette.Pallete1001Defined | lib_fractal/code/include/lib_fractal/pallete.hpp:9-44 | every entry of that table is defined |
| Palette.ToRayColor | cpu_fractal/code/main.cpp:25-28 | the conversion is opaque and keeps the three channels |
| Palette.GradientWeight | code/main.cpp:39-55 | the weight is in `[0, 1]`: 0 before iteration 4 and 1 from iteration 100 on |
| Palette.GradientWeightMonotone | code/main.cpp:44-55 | the weight does not decrease with the iteration |
| Palette.GradientColor | code/main.cpp:24-34 | the gradient colour is opaque red with equal green and blue, `255 - floor(255 k)` |
| Palette.GradientGreenNonIncreasing | code/main.cpp:24-57 | later iterations are no lighter: green and blue do not increase |
| Palette.MakeGradientPalette | code/main.cpp:13-60 | the table has `n` entries: white first, black last, and the gradient colour of its weight in between |
| Palette.ByteChannel | fractal/code/rendering_backend/rendering_backend_cpu.cpp:271 | the truncated byte of a channel `c` in `[0, 1]` satisfies `v <= 255 c < v + 1` |
| Palette.ByteColors | fractal/code/rendering_backend/rendering_backend_cpu.cpp:269-272 | one byte colour per float colour, channel by channel |
| Partition.PartOriginClosedForm | fractal/code/rendering_backend/rendering_backend_cpu.cpp:236-245 | the `k`-th part starts at `k * (size / parts)`, shifted by the remainder for every part after the first, which `get_part` makes the larger one |
| Partition.PartsSumToFull | fractal/code/rendering_backend/rendering_backend_cpu.cpp:236-280 | the parts' sizes add up to the full size, so the last tile ends at the texture's edge |
| Partition.PartSizes | fractal/code/rendering_backend/rendering_backend_cpu.cpp:236-245 | the first of several parts gets the quotient plus the remainder, every other part the quotient |
| Partition.PartOriginMonotone | fractal/code/rendering_backend/rendering_backend_cpu.cpp:249-280 | tile origins do not decrease along a row or a column |
| Partition.PartContaining | fractal/code/rendering_backend/rendering_backend_cpu.cpp:236-280 | every coordinate inside the texture lies in some part |
| Partition.PartUnique | fractal/code/rendering_backend/rendering_backend_cpu.cpp:236-280 | no coordinate lies in two parts |
| Partition.TileGrid | fractal/code/rendering_backend/rendering_backend_cpu.cpp:247-280 | the grid has `10 * 10` tiles |
| Partition.MakeTileGrid | fractal/code/rendering_backend/rendering_backend_cpu.cpp:247-280 | the nested loop with its running `location_x`/`location_y` builds the grid; the tile at `ry * 10 + rx` is tile `(ry, rx)` |
| Partition.TileIndex | gpu_fractal/code/rendering_backend_cpu.cpp:170 | the flat index `ry * 10 + rx` decodes back to `(ry, rx)` |
| Partition.TilesCoverTexture | fractal/code/rendering_backend/rendering_backend_cpu.cpp:247-280 | every texture pixel lies in exactly one tile of the grid |
| Partition.RowInBounds | code/main.cpp:145 | a whole row of a `width * height` buffer lies inside it |
| Partition.PixelIndexInBounds | code/main.cpp:145 | `y * width + x` is inside the buffer and decodes back to `(x, y)` |
| Partition.PixelIndexInjective | code/main.cpp:145 | two pixels with the same index are the same pixel |
| Partition.RowBand | code/main.cpp:173-180 | a worker's band of rows starts no later than it ends |
| Partition.RowBandsContiguous | code/main.cpp:173-180 | each worker's band ends where the next one's begins |
| Partition.RowBandsCover | code/main.cpp:173-180 | the bands cover exactly the rows below `height - height % workers`; the last `height % workers` rows belong to no worker and are never drawn |
| Partition.RowBandsDisjoint | code/main.cpp:173-180 | no row is in two bands |
| Partition.WorkerWritesDisjoint | cpu_fractal/code/main.cpp:80-89 | two workers never write the same pixel index, so the unsynchronised writes do not race |
| Partition.WorkerWritesInBounds | cpu_fractal/code/main.cpp:80-89 | every pixel a worker writes lies inside the buffer |
| RegionWorkers.NewRegion | gpu_fractal/code/rendering_backend_cpu.cpp:117-125 | a new region thread is pending, has no new data and no pixels |
| RegionWorkers.SetTask | gpu_fractal/code/rendering_backend_cpu.cpp:34-41 | giving a pending region a tile makes it in progress with new data on that tile, and keeps the old pixels |
| RegionWorkers.ConsumePixels | gpu_fractal/code/rendering_backend_cpu.cpp:27-32 | consuming returns the pixels and clears the new-data flag, nothing else |
| RegionWorkers.Stop | gpu_fractal/code/rendering_backend_cpu.cpp:21-25 | the destructor's store sets `MustStop` and nothing else |
| RegionWorkers.FinishRender | gpu_fractal/code/rendering_backend_cpu.cpp:89-90 | the compare-exchange moves `InProgress` to `Pending` and leaves any other state as it is |
| RegionWorkers.EscapeCountBounded | gpu_fractal/code/rendering_backend_cpu.cpp:70-71 | the kernel never returns more than the cap, so the colour lookup is defined |
| RegionWorkers.PointEdges | gpu_fractal/code/rendering_backend_cpu.cpp:63-69 | screen pixel 0 maps to `camera - range / 2` and pixel `screen` to `camera + range / 2` on each axis |
| RegionWorkers.RegionPixels | gpu_fractal/code/rendering_backend_cpu.cpp:57-75 | a rendered region has one colour per pixel of its tile |
| RegionWorkers.RegionPixelAt | gpu_fractal/code/rendering_backend_cpu.cpp:57-75 | the entry at `y * width + x` is the colour of screen pixel `(location + (x, y))`, blended by the weight as the source computes it |
| RegionWorkers.RenderRow | gpu_fractal/code/rendering_backend_cpu.cpp:66-73 | one row writes each of its pixels' colours and leaves the rest of the buffer alone |
| RegionWorkers.ColorRowStep | gpu_fractal/code/rendering_backend_cpu.cpp:64-74 | one more rendered row extends the coloured prefix |
| RegionWorkers.ColorNextRow | gpu_fractal/code/rendering_backend_cpu.cpp:64-74 | rendering the next row keeps the loop invariant |
| RegionWorkers.ColoredIsRegion | gpu_fractal/code/rendering_backend_cpu.cpp:57-75 | a buffer with every row coloured is the rendered region |
| RegionWorkers.ColoredPixel | gpu_fractal/code/rendering_backend_cpu.cpp:57-75 | each entry of a fully coloured buffer is that pixel's colour |
| RegionWorkers.Render | gpu_fractal/code/rendering_backend_cpu.cpp:57-75 | `render` replaces the pixels with the rendered region and changes nothing else |
| RegionWorkers.WorkerStep | gpu_fractal/code/rendering_backend_cpu.cpp:77-93 | a thread that is not in progress does nothing; one in progress renders and returns to pending, unless the destructor stopped it meanwhile, and then it stays stopped |
| RegionWorkers.MustStopIsFinal | gpu_fractal/code/rendering_backend_cpu.cpp:21-25 | a stopped thread stays stopped and a step never touches the new-data flag, so data consumed during rendering is not flagged again |
| RegionWorkers.ScanAllPending | gpu_fractal/code/rendering_backend_cpu.cpp:165-176 | the early-exit scan answers true exactly when every region is pending |
| RegionWorkers.FrameSettings | gpu_fractal/code/rendering_backend_cpu.cpp:197-207 | the published settings carry the camera, the scaled range, a cap of 1000, the texture size and the truncated byte colours |
| RegionWorkers.Dispatch | gpu_fractal/code/rendering_backend_cpu.cpp:209-224 | dispatching touches every region once |
| RegionWorkers.PostDraw | gpu_fractal/code/rendering_backend_cpu.cpp:158-227 | with the settings applied or some region busy nothing changes; otherwise the settings are published, region `ry * 10 + rx` is set to tile `(ry, rx)`, and the flag is set |
| RegionWorkers.DispatchTiles | gpu_fractal/code/rendering_backend_cpu.cpp:209-224 | region `ry * 10 + rx` gets tile `(ry, rx)` and becomes in progress with new data |
| RegionWorkers.DispatchLoop | gpu_fractal/code/rendering_backend_cpu.cpp:209-224 | the nested loop with running locations performs that dispatch |
| RegionWorkers.DispatchCoversTexture | gpu_fractal/code/rendering_backend_cpu.cpp:209-224 | after dispatch every texture pixel belongs to exactly one region |
| RegionWorkers.DispatchOnScreen | gpu_fractal/code/rendering_backend_cpu.cpp:209-224 | every tile of the grid lies inside the screen, so each dispatched region can be rendered; a zero-sized screen gives empty tiles |
| Bitset.WordsCount | code/primes.hpp:26-28 | the word count is the least number of 64-bit words holding `Size` bits |
| Bitset.Position | code/primes.hpp:45 | a bit's position inside its word is below 64 |
| Bitset.SetAt | code/primes.hpp:51-64 | setting a bit keeps the number of words |
| Bitset.Reset | code/primes.hpp:33-40 | `reset(true)` fills each word with `~1`, so every bit except bit 0 of each word reads true; `reset(false)` clears all |
| Bitset.InRangeBelowSize | code/primes.hpp:26-28 | every index below `Size` falls inside the words |
| Bitset.MaskOfWord | code/primes.hpp:35 | in a word filled with `~1` exactly the positions other than 0 are set |
| Bitset.WordGetSet | code/primes.hpp:42-64 | reading a position of a word after writing it gives the written value, and other positions are unchanged |
| Bitset.SplitInjective | code/primes.hpp:44-45 | two indices in the same word with the same position are equal |
| Bitset.GetAfterSet | code/primes.hpp:42-64 | `get_at(k)` after `set_at(idx, v)` is `v` when `k == idx` and the old bit otherwise |
| Bitset.ClearAt | code/primes.hpp:51-64 | clearing a bit clears exactly that bit |
| Primes.PrimeBySquareBound | code/primes.hpp:183-195 | a number with no divisor in `[2, i)` and `i * i > n` is prime, the stopping rule of trial division |
| Primes.IsPrimeTrial | code/primes.hpp:183-195 | trial division by 2, 3 and `6k +- 1` answers exactly whether the number is prime |
| Primes.SkipNonCandidates | code/primes.hpp:191-192 | after testing `i` and `i + 2` for `i = 5 (mod 6)`, no divisor below `i + 6` remains, given none below `i` and neither 2 nor 3 |
| Primes.CandidateGaps | code/primes.hpp:191 | the numbers skipped between candidates are multiples of 2 or 3 |
| Primes.PrimesBelowFacts | code/primes.hpp:76-181 | the reference list holds every prime below `x`, in strictly increasing order, and nothing else |
| Primes.PrimesBelowStep | code/primes.hpp:117-123 | extending the bound by one appends that number exactly when it is prime |
| Primes.PrimesBelowPrefix | code/primes.hpp:164-170 | the primes below a smaller bound are a prefix of those below a larger one |
| Primes.PrimesBelowIndex | code/primes.hpp:87-96 | the primes below the `k`-th stored prime are exactly the `k` before it |
| Primes.NthPrimeUnique | code/primes.hpp:87-96 | at most one prime has exactly `k` primes below it |
| Primes.NthOfPrimesBelow | code/primes.hpp:87-96 | the `k`-th entry of the reference list is the `k`-th prime |
| Primes.FirstPrimeIsTwo | code/primes.hpp:215-233 | 2 is the prime of index 0 |
| Primes.LeastDivisorFrom | code/primes.hpp:262-327 | the least divisor of `m` from a point below which it has none divides `m` and has no smaller divisor |
| Primes.LeastDivisorIsPrime | code/primes.hpp:262-327 | the least divisor above 1 is prime |
| Primes.LeastPrimeFactor | code/primes.hpp:143-148 | a composite number has a prime factor whose square does not exceed it, which is why sieving by primes up to the square root suffices |
| Primes.LeastDivisorSquare | code/primes.hpp:143-148 | a composite number's least divisor squared is at most the number |
| Primes.PrimeAbove | code/primes.hpp:128-134 | there is a prime above every number, so `make_segments` always finds the index it wants |
| Primes.EnoughPrimesBelow | code/primes.hpp:128-134 | for every index there is a bound with more primes below it |
| Primes.BitsRequiredForNumber | code/primes.hpp:241-252 | the shift loop returns the least bit count that holds the number: `2^(bits - 1) <= number < 2^bits`, and 0 for 0 |
| Primes.ShiftStep | code/primes.hpp:245-249 | one shift keeps the relation between the bits counted, the rest and the number |
| Primes.BitsRequiredUnique | code/primes.hpp:241-252 | that bit count is unique |
| Primes.Pow2Monotone | code/primes.hpp:241-252 | powers of two grow with the exponent |
| PrimeSieve.SegmentInRange | code/primes.hpp:177-178 | every index of the 512-bit segment is a valid bitset index |
| PrimeSieve.SurvivorStep | code/primes.hpp:106-115 | sieving with `i` removes exactly the multiples of `i` above it |
| PrimeSieve.NonSurvivorStep | code/primes.hpp:108 | skipping a non-surviving `i` changes nothing, since its multiples were already removed |
| PrimeSieve.WordStartNotPrime | code/primes.hpp:35 | the bits `reset(true)` leaves clear, at multiples of 64, are never primes other than below 3 |
| PrimeSieve.FirstSieveComplete | code/primes.hpp:106 | sieving by every `i` up to `512 / 2` leaves exactly the primes below 512 |
| PrimeSieve.StrikeMultiples | code/primes.hpp:110-113 | the inner loop clears exactly the multiples of `i` above `i` and keeps every other bit |
| PrimeSieve.CollectFirst | code/primes.hpp:117-123 | collecting the marked bits of a sieved first segment gives the primes below 512 in order |
| PrimeSieve.SieveWith | code/primes.hpp:106-115 | one outer iteration moves the segment from the survivors of `i` to those of `i + 1` |
| PrimeSieve.StartFirst | code/primes.hpp:102-104 | after `reset(true)` and clearing 0 and 1 the segment holds the survivors of no sieving |
| PrimeSieve.FirstSegment | code/primes.hpp:100-126 | the first segment yields a valid storage with one segment |
| PrimeSieve.FirstMultiple | code/primes.hpp:151-153 | the start position is the least multiple of the prime at or above the segment's beginning |
| PrimeSieve.FirstMultipleFacts | code/primes.hpp:151-153 | the source's `(begin / p + (begin % p ? 1 : 0)) * p` is that least multiple |
| PrimeSieve.NextSieveComplete | code/primes.hpp:136-170 | with `msq^2` reaching the segment's last value and the stored primes up to `msq` used, a bit stays set exactly when its number is prime |
| PrimeSieve.PrimeUnmarked | code/primes.hpp:148-159 | no stored prime strikes a prime of the segment |
| PrimeSieve.CompositeMarked | code/primes.hpp:148-159 | every composite of the segment is struck by some stored prime up to `msq` |
| PrimeSieve.NextSegment | code/primes.hpp:136-174 | the next segment keeps the storage valid, adds one segment, and keeps the stored primes as a prefix |
| PrimeSieve.AppendSegmentValid | code/primes.hpp:164-173 | appending the segment's primes and count keeps the storage valid |
| PrimeSieve.SieveSegment | code/primes.hpp:145-162 | the prime loop stops at the first stored prime above `msq` (or the end) and leaves unmarked exactly the numbers no earlier prime divides |
| PrimeSieve.StoredPrime | code/primes.hpp:87-91 | every stored entry is prime |
| PrimeSieve.UnmarkedStep | code/primes.hpp:148-161 | one more prime strikes exactly the numbers it divides |
| PrimeSieve.StrikeSegment | code/primes.hpp:150-159 | striking a prime clears exactly the segment numbers it divides |
| PrimeSieve.CollectSegment | code/primes.hpp:164-170 | appending the marked numbers extends the stored primes to every prime below the segment's end |
| PrimeSieve.SquareRootAbove | code/primes.hpp:143 | the bound used in place of `my_sqrt(m) + 1` has a square of at least `m` |
| PrimeSieve.BoundAhead | code/primes.hpp:128-134 | a storage without the index lies below any bound that has it |
| PrimeSieve.NewStorage | code/primes.hpp:79-82 | a new storage holds the primes below 512 in one segment |
| PrimeSieve.GetPrime | code/primes.hpp:87-96 | `get_at(i)` returns the `i`-th prime, leaves a storage that already held it unchanged, and otherwise only appends segments |
| PrimeSieve.SelfCheck | code/primes.hpp:215-233 | the compile-time self-test returns true |
| Factorized.NthPrimeIsNth | code/primes.hpp:303 | the reference prime of index `k` has exactly `k` primes below it, as `storage.get_at(k)` returns |
| Factorized.NthPrimeOf | code/primes.hpp:303 | the prime that `get_at(k)` returns is the reference prime of index `k` |
| Factorized.NatPowAdd | code/primes.hpp:397-400 | `b^(e + f) = b^e * b^f` |
| Factorized.ValueAppend | code/primes.hpp:392-404 | the value of a concatenated factor list is the product of the parts' values |
| Factorized.ValuePermutation | code/primes.hpp:378-386 | reordering the factor list does not change its value, so the final sort is harmless |
| Factorized.ValueRemoveAt | code/primes.hpp:392-404 | a list's value is one factor's weight times the value of the rest |
| Factorized.ValuePositive | code/primes.hpp:392-404 | a factor list's value is at least 1 |
| Factorized.ZeroAndOne | code/primes.hpp:329-337 | the empty list reads as 0 and the single zero-power pair as 1, which `is_one` recognises and `is_zero` does not |
| Factorized.TrialIndexBound | code/primes.hpp:301 | the trial loop reaches a prime dividing the remainder before the index passes it, so the loop ends |
| Factorized.PrimesBelowLength | code/primes.hpp:301-303 | fewer than `x` primes lie below `x` |
| Factorized.DivideOut | code/primes.hpp:305-309 | dividing out one more factor `p` keeps `v * p^count` equal to the value and makes `v` smaller |
| Factorized.Factorize | code/primes.hpp:270-327 | the constructor gives a well-formed number that reads back as the value: zero exactly for 0, the one pair exactly for 1, and otherwise increasing prime indices with positive powers |
| Factorized.TrialStep | code/primes.hpp:301-318 | one pass of the outer loop keeps the trial invariant: the remainder times the found factors is the value, and no prime tried so far divides the remainder |
| Factorized.TrialDone | code/primes.hpp:301-318 | when the remainder reaches 1 the found factors are a well-formed list for the value |
| Factorized.DivideAll | code/primes.hpp:305-309 | the inner loop divides out every factor `p` and counts them |
| Factorized.ExtendFactors | code/primes.hpp:311-317 | recording a positive count keeps the list ordered with positive powers and keeps the product invariant |
| Factorized.ExtendOrdered | code/primes.hpp:311-317 | recording the pair for index `i` after smaller indices keeps the list ordered |
| Factorized.ExtendCoprime | code/primes.hpp:305-309 | after dividing out `p`, no prime tried so far divides the remainder |
| Factorized.ExtendValue | code/primes.hpp:305-317 | the product invariant survives one prime's division |
| Factorized.ValueAtLeastTwo | code/primes.hpp:299-318 | a value of at least 2 yields a non-empty list that is not the one pair |
| Factorized.Defactorize | code/primes.hpp:392-404 | `defactorize` computes the product of `prime^power` over the list and keeps the storage valid |
| Factorized.ToNumber | code/primes.hpp:280-289 | `to_number` reads the number back: 0 for zero and the product otherwise |
| Factorized.RemoveZeroPowers | code/primes.hpp:378-379 | removing zero powers keeps exactly the pairs with a positive power |
| Factorized.RemoveZeroKeeps | code/primes.hpp:378-379 | removing zero powers keeps the value and the exponent of every prime |
| Factorized.RemoveZeroDistinct | code/primes.hpp:378-379 | removing keeps prime indices distinct |
| Factorized.ValueUpdate | code/primes.hpp:369 | adding `e` to a pair's power multiplies the value by `prime^e` |
| Factorized.AppendOne | code/primes.hpp:362 | appending a pair multiplies the value by its weight and adds its power to its prime's exponent |
| Factorized.MergeStart | code/primes.hpp:354-356 | the merge invariant holds before the loop |
| Factorized.PushShape | code/primes.hpp:359-364 | appending a `b` factor with a smaller index keeps the merge's shape invariant |
| Factorized.PushValue | code/primes.hpp:359-364 | appending a `b` factor keeps the merge's value invariant |
| Factorized.CombineShape | code/primes.hpp:366-371 | adding an equal-index `b` power into `a` keeps the shape invariant |
| Factorized.CombineValue | code/primes.hpp:366-371 | adding an equal-index `b` power into `a` keeps the value invariant |
| Factorized.SkipShape | code/primes.hpp:373 | moving past an `a` factor that `b` does not match keeps the shape invariant |
| Factorized.TailDistinct | code/primes.hpp:376 | appending the rest of `b` leaves prime indices distinct |
| Factorized.TailValue | code/primes.hpp:376 | after the rest of `b` is appended, the list's value is the product of the inputs' values and each prime's exponent is the sum of its exponents |
| Factorized.FinishMerge | code/primes.hpp:378-386 | removing zero powers and sorting by index gives an ordered list of positive powers with the same value and exponents |
| Factorized.ValueAboveOne | code/primes.hpp:378-386 | a non-empty list of positive powers has a value of at least 2 |
| Factorized.MulAsWritten | code/primes.hpp:339-390 | as written: zero times anything is zero; two non-zero numbers give an ordered list whose value is the product and whose exponents add; but one times one gives the empty list, which reads as zero |
| Factorized.Merge | code/primes.hpp:354-376 | the merge of two ordered lists has distinct indices, the product's value, and summed exponents |
| Factorized.PushLesser | code/primes.hpp:359-364 | the inner loop appends every `b` factor with a smaller index and keeps the invariant |
| Factorized.OneIsOne | code/primes.hpp:334-337 | a well-formed number that `is_one` recognises is the one pair, with value 1 |
| Factorized.Mul | code/primes.hpp:339-390 | corrected: the product is well-formed, reads as the product of the two numbers, and sums the exponents; an empty result of two non-zero numbers becomes the one pair |
| Factorized.EmptyProductIsOne | code/primes.hpp:378-386 | when the merged list of two non-zero numbers is empty, the product is 1 |
| Factorized.ProductNumber | code/primes.hpp:339-390 | a merged result with the product's value and no zero powers reads as the product |
| NameCache.GetId | klgl/klgl/name_cache/name_cache.cpp:7-22 | afterwards the string maps to the returned id; a known string changes nothing; a new one takes `next_id_`, which advances by one modulo `2^32` |
| NameCache.InitialValid | klgl/klgl/name_cache/name_cache.hpp:23-25 | the empty cache is consistent |
| NameCache.GetIdValid | klgl/klgl/name_cache/name_cache.cpp:7-22 | while the counter has not reached the invalid id, interning keeps the two maps inverse to each other and every id below the counter |
| NameCache.GetIdIdempotent | klgl/klgl/name_cache/name_cache.cpp:7-22 | interning the same string twice returns the same id and leaves the cache as after the first time |
| NameCache.GetIdInjective | klgl/klgl/name_cache/name_cache.cpp:7-22 | two strings get the same id exactly when they are equal |
| NameCache.FindViewOfGetId | klgl/klgl/name_cache/name_cache.cpp:7-33 | `FindView` of an interned string's id returns that string |
| NameCache.FindViewUnissued | klgl/klgl/name_cache/name_cache.cpp:24-33 | an id never issued has no string |
| NameCache.GetIdExhausted | klgl/klgl/name_cache/name_cache.cpp:12 | once `next_id_` has reached `0xFFFFFFFF`, a new string gets the invalid id and the counter wraps to 0 |
| Names.FromString | klgl/klgl/name_cache/name.cpp:10-18 | the three constructors intern the string, and a known string keeps its id without changing the cache |
| Names.GetView | klgl/klgl/name_cache/name.cpp:25-38 | an invalid name reads as ""; a valid one reads as its string when the cache knows the id, and throws `logic_error` otherwise |
| Names.ViewRoundTrip | klgl/klgl/name_cache/name.cpp:10-38 | a name built from a string reads back as that string |
| Names.ExhaustedNameReadsEmpty | klgl/klgl/name_cache/name.cpp:10-31 | a new string interned after the ids are exhausted gives an invalid name that reads as "" |
| Names.EqualIffSameString | klgl/klgl/name_cache/name.hpp:22-25 | two names compare equal exactly when they were built from the same string |
| Names.LessIsStrictOrder | klgl/klgl/name_cache/name.hpp:27-30 | `operator<` is irreflexive, transitive and total on names |
| Sorting.Insert | fractal/code/rendering_backend/rendering_backend_cpu.cpp:283-291 | inserting into a sorted list keeps it sorted and adds exactly that element |
| Sorting.HeadBelow | fractal/code/rendering_backend/rendering_backend_cpu.cpp:283-291 | the head of a sorted list has the least key |
| Sorting.SortBy | fractal/code/rendering_backend/rendering_backend_cpu.cpp:283-291 | the sort returns a permutation of its input ordered by non-decreasing key |
| Sorting.SumByAppend | fractal/code/rendering_backend/rendering_backend_cpu.cpp:193 | a sum over a concatenation is the sum of the sums |
| Sorting.SumByPermutation | fractal/code/rendering_backend/rendering_backend_cpu.cpp:283-291 | a permutation has the same sum |
| Sorting.SumByUpdate | code/primes.hpp:369 | replacing one element changes the sum by the difference |
| Sorting.InsertStrict | code/primes.hpp:381-386 | inserting a new key into a strictly sorted list keeps it strictly sorted |
| Sorting.SortStrict | code/primes.hpp:381-386 | sorting elements with distinct keys gives strictly increasing keys |
| Base.SizeSub | lib_fractal/code/include/lib_fractal/pallete.hpp:25 | `size_t` subtraction: the difference when it is non-negative, and otherwise the value wrapped modulo `2^64` |
| Base.U16Cast | fractal/code/rendering_backend/rendering_backend_cpu.cpp:77 | a `uint16_t` cast gives a value below 65536 and keeps every value that fits |
| Base.IndexOf | klgl/klgl/shader/shader.cpp:315-332 | a linear search finds the first occurrence when there is one, and `None` exactly when there is none |
| Base.IndexOfAfter | klgl/klgl/shader/shader.cpp:315-332 | an element not in the prefix is found just after it |
| Base.Pow2 | code/primes.hpp:241-252 | `2^n` exceeds `n` |
| Base.Pow2Add | code/primes.hpp:241-252 | `2^(a + b) = 2^a * 2^b`: shifting by `a + b` bits is shifting by `a` and then by `b` |
| GlEnums.ConvertPolygonMode | klgl/klgl/opengl/gl_api.hpp:180-197 | a polygon mode maps to `GL_POINT`, `GL_LINE` or `GL_FILL` |
| GlEnums.PolygonModeRoundTrip | klgl/klgl/opengl/gl_api.hpp:180-197 | on the three valid modes the mapping is a bijection onto its three constants |
| GlEnums.ConvertWrapAsWritten | klgl/klgl/opengl/gl_api.hpp:199-211 | as written, every wrap axis maps to `GL_TEXTURE_WRAP_S` or `GL_TEXTURE_WRAP_T` |
| GlEnums.WrapRIsT | klgl/klgl/opengl/gl_api.hpp:199-211 | as written, `R` maps to `GL_TEXTURE_WRAP_T` like `T`, and no axis maps to `GL_TEXTURE_WRAP_R` |
| GlEnums.ConvertWrap | klgl/klgl/opengl/gl_api.hpp:199-211 | corrected: the `R` axis maps to `GL_TEXTURE_WRAP_R`, every other axis as written |
| GlEnums.WrapRoundTrip | klgl/klgl/opengl/gl_api.hpp:199-211 | the corrected mapping is a bijection from the three axes onto the three wrap constants |
| GlEnums.ConvertWrapMode | klgl/klgl/opengl/gl_api.hpp:213-234 | a wrap mode maps to one of the five GL wrap modes |
| GlEnums.WrapModeRoundTrip | klgl/klgl/opengl/gl_api.hpp:213-234 | on the five valid modes the mapping is a bijection onto its constants |
| GlEnums.ConvertFilter | klgl/klgl/opengl/gl_api.hpp:236-260 | a filter maps to one of the six GL filters |
| GlEnums.FilterRoundTrip | klgl/klgl/opengl/gl_api.hpp:236-260 | on the six valid filters the mapping is a bijection onto its constants |
| ShaderUniforms.Clear | klgl/klgl/shader/shader_uniform.cpp:149-158 | clearing empties the value and leaves the uniform well-formed, with name, location and type kept; a non-empty uniform becomes unsent, an empty one keeps its sent flag |
| ShaderUniforms.ClearIdempotent | klgl/klgl/shader/shader_uniform.cpp:149-158 | clearing twice is clearing once |
| ShaderUniforms.SetType | klgl/klgl/shader/shader_uniform.cpp:106-119 | an unregistered type throws `runtime_error` after the value was cleared; a registered one is stored with a default-constructed value of its size; it is unsent unless the uniform was already empty and sent; the name and location are kept |
| ShaderUniforms.MovedFromRetypedStaysSent | klgl/klgl/shader/shader_uniform.cpp:106-158 | a moved-from uniform that was sent, given a type, holds a value yet is still marked sent, so `SendValue` does not upload it |
| ShaderUniforms.EnsureTypeMatch | klgl/klgl/shader/shader_uniform.cpp:121-127 | it throws `runtime_error` exactly when the stored type differs |
| ShaderUniforms.SetValue | klgl/klgl/shader/shader_uniform.cpp:134-141 | an empty uniform throws `logic_error` unchanged; otherwise the value becomes the bytes and the uniform is marked unsent |
| ShaderUniforms.SendValue | klgl/klgl/shader/shader_uniform.cpp:80-104 | an empty uniform throws `logic_error`; otherwise it is marked sent, and it uploads exactly when it was unsent and its type is one GL can take; an unsent uniform of another type throws `runtime_error` after the mark |
| ShaderUniforms.MoveFrom | klgl/klgl/shader/shader_uniform.cpp:70-78 | the destination becomes the source, and the source is left empty with its name and type |
| ShaderUniforms.SendIdempotent | klgl/klgl/shader/shader_uniform.cpp:84-89 | sending a second time uploads nothing and changes nothing |
| ShaderUniforms.RetryAfterUnsupportedIsSilent | klgl/klgl/shader/shader_uniform.cpp:89-103 | an unsupported type throws once; because the sent mark was set before the throw, a retry is silent |
| ShaderUniforms.SetValueThenSend | klgl/klgl/shader/shader_uniform.cpp:134-141 | after a new value the next send uploads it |
| ShaderUniforms.EmptyUniformThrows | klgl/klgl/shader/shader_uniform.cpp:160-166 | both setting and sending on an empty uniform throw `logic_error` and change nothing |
| ShaderUniforms.MovePreservesSending | klgl/klgl/shader/shader_uniform.cpp:70-78 | a moved-to uniform sends exactly as its source would have |
| ShaderDefines.SetValue | klgl/klgl/shader/shader_define.cpp:54-64 | an unregistered type throws `runtime_error` with the define unchanged; otherwise the value becomes a copy of the bytes |
| ShaderDefines.MoveFrom | klgl/klgl/shader/shader_define.cpp:47-52 | the destination becomes the source; the source keeps its name and type with an empty value |
| ShaderDefines.TypeNamesInverse | klgl/klgl/shader/shader_define.cpp:79-107 | the JSON type names `float`, `int`, `vec3` and `vec2` and the four types correspond one to one |
| ShaderDefines.ReadFromJson | klgl/klgl/shader/shader_define.cpp:72-114 | the name is interned; an unknown type name or unregistered type throws `runtime_error`; otherwise the define holds the interned name, the named type and the default's bytes |
| ShaderDefines.ReadFromJsonSized | klgl/klgl/shader/shader_define.cpp:79-107 | a define read from JSON has a value of its type's size |
| ShaderDefines.ReadFromJsonName | klgl/klgl/shader/shader_define.cpp:75 | the define's name reads back as the JSON name |
| ShaderDefines.DefineLine | klgl/klgl/shader/shader_define.cpp:44 | the line starts with `#define ` and ends with a newline, and fails exactly when the name cannot be read |
| ShaderDefines.GenDefine | klgl/klgl/shader/shader_define.cpp:27-45 | corrected: every type other than `vec2` is rendered as written |
| ShaderDefines.DefineLineParses | klgl/klgl/shader/shader_define.cpp:44 | the line splits back into the name and the value text |
| ShaderDefines.Vec2DefineIsEmpty | klgl/klgl/shader/shader_define.cpp:27-45 | as written, a `vec2` define yields `#define NAME ` with no value |
| ShaderDefines.DefineHasValue | klgl/klgl/shader/shader_define.cpp:27-45 | corrected: every type `ReadFromJson` accepts, `vec2` included, yields a line with a non-empty value |
| ShaderDefines.MovePreservesLine | klgl/klgl/shader/shader_define.cpp:47-52 | a moved-to define generates the same line as its source |
| Shaders.ReportError | klgl/klgl/shader/shader.cpp:341 | building the "not found" message throws `logic_error` exactly when the name itself cannot be read, and otherwise the lookup throws `runtime_error` |
| Shaders.FindDefine | klgl/klgl/shader/shader.cpp:315-332 | the lookup finds nothing exactly when no define has the name, and otherwise returns the first index with that name |
| Shaders.GetDefine | klgl/klgl/shader/shader.cpp:334-342 | the handle `FindDefine` found, or the "not found" error |
| Shaders.UpdateDefineHandle | klgl/klgl/shader/shader.cpp:400-406 | a handle that still resolves is kept; a stale one is looked up again by name and then resolves; it fails exactly when no define has the name |
| Shaders.GetDefineValue | klgl/klgl/shader/shader.cpp:286-302 | after refreshing the handle, the bytes are returned exactly when the type matches, and the refreshed handle is handed back |
| Shaders.SetDefineValue | klgl/klgl/shader/shader.cpp:304-313 | after refreshing the handle, a successful write stores the bytes in the define under that type |
| Shaders.SetThenGetDefine | klgl/klgl/shader/shader.cpp:286-313 | writing a define with its own type marks the shader for recompilation, changes no other define, and reading it back returns the bytes |
| Shaders.SetDefineWrongTypeStillWrites | klgl/klgl/shader/shader.cpp:304-313 | a write with the wrong type throws `runtime_error` only after it stored the bytes and marked the shader for recompilation |
| Shaders.FindUniform | klgl/klgl/shader/shader.cpp:344-361 | the lookup finds nothing exactly when no uniform has the name, and otherwise returns the first index with that name |
| Shaders.GetUniform | klgl/klgl/shader/shader.cpp:363-371 | the handle `FindUniform` found, or the "not found" error |
| Shaders.UpdateUniformHandle | klgl/klgl/shader/shader.cpp:392-398 | a handle that still resolves is kept; a stale one is looked up again by name; it fails exactly when no uniform has the name |
| Shaders.GetUniformValue | klgl/klgl/shader/shader.cpp:385-390 | after refreshing the handle, the bytes are returned exactly when the type matches, and `runtime_error` is thrown otherwise |
| Shaders.SetUniform | klgl/klgl/shader/shader.cpp:408-413 | the write succeeds exactly when the uniform has that type and a value, and then stores the bytes unsent; a failed write leaves the shader unchanged |
| Shaders.SetThenGetUniform | klgl/klgl/shader/shader.cpp:385-435 | writing a uniform with its own type changes no other uniform, reading it back returns the bytes, and the next send uploads it when GL can take its type |
| Shaders.SendUniform | klgl/klgl/shader/shader.cpp:431-435 | an upload happens only through a resolving handle, and exactly when the uniform's own send would upload |
| Shaders.SendFrom | klgl/klgl/shader/shader.cpp:423-429 | sending from index `i` keeps the uniforms before `i` and the length |
| Shaders.SendFromUploadsPending | klgl/klgl/shader/shader.cpp:423-429 | when every remaining uniform can be uploaded, the loop marks them all sent and uploads exactly the ones that were unsent |
| Shaders.PendingFromFrame | klgl/klgl/shader/shader.cpp:423-429 | the count of pending uploads depends only on the uniforms not yet visited |
| Shaders.SendUniformsTwice | klgl/klgl/shader/shader.cpp:423-429 | a second `SendUniforms` uploads nothing and changes nothing |
| Shaders.SendFromFixed | klgl/klgl/shader/shader.cpp:423-429 | uniforms that are all sent are left alone and nothing is uploaded |
| Shaders.ConvertGlType | klgl/klgl/shader/shader.cpp:454-488 | every GL type the table maps goes to a type `SendValue` can upload |
| Shaders.ConvertGlTypeInverse | klgl/klgl/shader/shader.cpp:454-488 | the table is a bijection between the seven GL codes and the uploadable types |
| Shaders.Supported | klgl/klgl/shader/shader.cpp:545-550 | the uniforms kept are active ones of a supported GL type |
| Shaders.SupportedKeeps | klgl/klgl/shader/shader.cpp:545-550 | every active uniform of a supported type is kept |
| Shaders.SupportedUnique | klgl/klgl/shader/shader.cpp:545-550 | skipping keeps active names distinct |
| Shaders.EntryAsWritten | klgl/klgl/shader/shader.cpp:552-579 | the new entry has the active uniform's name, converted type and location, with a value of its type's size |
| Shaders.RebuildAsWritten | klgl/klgl/shader/shader.cpp:526-580 | the rebuilt list has one entry per supported active uniform, each sized for its type |
| Shaders.SamplerAssigned | klgl/klgl/shader/shader.cpp:584-595 | a sampler at position `i` gets sampler index `i` truncated to a byte and becomes unsent; any other uniform is unchanged |
| Shaders.AssignSamplersFacts | klgl/klgl/shader/shader.cpp:584-595 | the sampler pass over non-empty uniforms succeeds, keeps the entries before its start, and assigns each later sampler its position |
| Shaders.UpdateUniformsAsWrittenShape | klgl/klgl/shader/shader.cpp:490-596 | as written, with at least one active uniform, the new list has one entry per supported active uniform, distinct names, and each entry fits its active uniform |
| Shaders.EntryFits | klgl/klgl/shader/shader.cpp:552-595 | each new entry has its active uniform's name, type and location, with a value of its type's size |
| Shaders.KeptUniformStaysSent | klgl/klgl/shader/shader.cpp:561-569 | as written, a uniform that survives recompilation with the same non-sampler type keeps its value and its sent flag |
| Shaders.FirstNamed | klgl/klgl/shader/shader.cpp:553-559 | `find_if` finds the first uniform of a name |
| Shaders.EntryKeeps | klgl/klgl/shader/shader.cpp:561-569 | a surviving uniform of the same type is moved over with only its location replaced |
| Shaders.StaleUniformNotResent | klgl/klgl/shader/shader.cpp:561-582 | as written, a sent float uniform that survives recompilation stays marked sent, so the next `SendUniforms` does not upload it to the new program |
| Shaders.UpdateUniformsResends | klgl/klgl/shader/shader.cpp:490-596 | corrected: every rebuilt uniform is marked unsent, so the next `SendUniforms` uploads all of them to the new program |
| Shaders.NonePendingSent | klgl/klgl/shader/shader.cpp:423-429 | when no remaining uniform is sent, all of them are pending |
| Shaders.NoActiveUniformsKeepsOld | klgl/klgl/shader/shader.cpp:497-500 | with no active uniforms the old list is kept, as written and corrected |

## Left out

- Threads, atomics, the lock-free queue, spin loops and thread joining are not modelled. A worker of the tile scheduler is the pair of steps `CpuBackend.WorkerPop` and `CpuBackend.WorkerFinish`. A region thread is one `RegionWorkers.WorkerStep`, whose `stopMeanwhile` input says whether the destructor ran while the region rendered. A worker finishing inside the tile scheduler's `PostDraw` is modelled by `CpuBackend.PostDrawRacing`. Other interleavings inside a render-thread call are not explored.
- Floating point is not modelled. Doubles and the 100-digit decimal `Float` are `real`, with exact arithmetic and no rounding. The same goes for the float blend value `p` of `ColorForIteration` and the float division in `MakeColorForIteration`. The choice between the double and the decimal kernel is the parameter `ff`.
- `my_sqrt` (code/primes.hpp:10-16) reinterprets the bits of a float. The sieve instead uses `PrimeSieve.SquareRootAbove`, an exact bound whose square covers the segment end.
- OpenGL, GLFW, ImGui and raylib calls are not modelled: texture creation and upload in both `Draw` functions, `CreateTexture`, shader compilation and linking, and the GL uniform upload. `SendValue`'s upload is reduced to setting the sent flag. What `glGetActiveUniform` reports is an input to `Shaders.UpdateUniforms`.
- JSON parsing is not modelled: `ShaderDefine::ReadFromJson` receives the already-read type name and value. `fmt` formatting of define values is the `Formatter` parameter. File and console I/O are not modelled, and neither are clocks: a task's elapsed time is an input.
- The type-registry internals of the reflection layer are not modelled. The model only keeps each registered type's GUID and instance size.
- Factorized.Defactorize and Factorized.ToNumber: the results are unbounded naturals and integers. The `ui64` product and the `i64` cast of the source would wrap for values beyond 2^63, and that wrap is not modelled.
- Factorized.MulAsWritten: `auto& factor_a` at code/primes.hpp:358 is a reference into the result vector, and it can dangle when a later `push_back` reallocates. The model reads the factor by index, as if no reallocation happened. Aliasing in `x.mul(x)` is not modelled either.
- The uniform location that `ShaderUniform` leaves uninitialised until the first upload is modelled as a plain number.
- The raylib drivers' keyboard handling and zoom clamp (code/main.cpp:156-163) are left out: they only read input devices. Their worker thread loops are modelled only as the row-band split and the per-pixel palette lookup.
- `runtime_test_correctness` (code/primes.hpp:197-213) is left out: it only prints mismatches. It runs the same comparison as `compiletime_test_correctness`, which `PrimeSieve.SelfCheck` models.
- `bits_required_for_enum` is left out: it is compile-time template code over enum reflection.
- The random colour generator (`RandomizeColors`) is left out; settings colours are an input.
- The region backend sets `has_new_data_` in `SetTask`, before rendering, and never after. So pixels rendered after a consume are not flagged for upload. The model keeps this behaviour and records it in `RegionWorkers.MustStopIsFinal` rather than correcting it, because it is a display-timing matter and not a wrong result.
- The raylib drivers split rows into `height / workers`-high bands. The bottom `height % workers` rows are never drawn. The model keeps this behaviour and records it in `Partition.RowBandsCover`.
- Palette.MakeColorForIteration: a channel value above 255 is an out-of-range float-to-`uint8_t` conversion in the source, which C++ leaves undefined. The model returns `None` for it rather than picking a value.
- Mandelbrot.TwoEscapesAtSecondIterate: the kernel's test `x^2 + y^2 <= 4` is not strict, so for `c = 2` the first iterate, which lies exactly on the circle, does not stop the loop, and the count is 2.
- Primes.IsPrimeTrial: the source's loop variable is an `int`, so `i * i` overflows, which C++ leaves undefined, once the loop reaches `i = 46343`. That happens for `n >= 46337^2` without a smaller divisor. The model uses unbounded integers and gives the mathematical answer there.
- LegacySettings.IncrementScale: the zoom step is an `int`, and `++scale_i` at `INT_MAX` (2^31 - 1) is signed overflow, which C++ leaves undefined. The key handler at gpu_fractal/code/main.cpp:78 does not stop at that bound. No value models undefined behaviour, so the model requires the step to be below `INT_MAX`. `LegacySettings.IncrementShrinksRange` and `LegacySettings.IncrementDecrementRoundTrip` carry the same bound.
- Shaders.EntryAsWritten: the source moves surviving entries out of `uniforms_` while it still searches that list (klgl/klgl/shader/shader.cpp:561-563). The model reads the old list as if nothing had been moved out of it. This gives the same result only while no two active uniforms share a name, which OpenGL guarantees for `glGetActiveUniform`.
- FractalSettings.SetViewportSize: for a size with a zero side the source's `Update` divides by zero, and the view fields become whatever the decimal type yields. The model keeps the old view fields there and promises nothing about them.
- RegionWorkers.Renderable: rendering is modelled for regions inside the screen (`RegionWorkers.OnScreen`), which every dispatched tile is (`RegionWorkers.DispatchOnScreen`); an empty region renders nothing whatever the screen size. A region reaching past the screen, and so a non-empty region of a zero-sized screen where the source's double division by 0 yields infinities, is not modelled, because `PostDraw` never hands one out.

## Findings

| source | as written | input that shows it | evidently intended | confidence | as-written member | corrected member |
|---|---|---|---|---|---|---|
| fractal/code/rendering_backend/rendering_backend_cpu.cpp:35 | the blend weight is `k % iterations_per_segment` over `iterations_per_segment`, with `k = iteration * segments_count`. The colour segment, however, is chosen by `k / iterations`. The weight therefore wraps several times inside one colour segment | 10 colours and 1000 iterations: iteration 12 gives 108/111 of the way and iteration 13 gives 6/111; with red rising from 0 to 111 in the first segment, iteration 12 is drawn with red 108 instead of 11 | the weight `k % iterations` over `iterations`, the fractional part of the segment position, which rises steadily within each colour segment | not executed | Palette.ColorForIterationAsWrittenDiffers | Palette.ColorForIterationIntended |
| code/primes.hpp:339-390 | `mul` of two numbers whose factor lists are both `[{0, 0}]` (the number one) drops every zero power and returns the empty list | `1 * 1` | the product 1, i.e. the list `[{0, 0}]` | not executed | Factorized.MulAsWritten | Factorized.Mul |
| klgl/klgl/opengl/gl_api.hpp:199-211 | `GlTextureWrap::R` has no case and falls to the default, `GL_TEXTURE_WRAP_T` | `R` | `GL_TEXTURE_WRAP_R` | not executed | GlEnums.WrapRIsT | GlEnums.WrapRoundTrip |
| klgl/klgl/shader/shader.cpp:561-569 | after a recompile, a uniform that is still active keeps its `sent` flag, so its value is not uploaded to the new program | a uniform that was sent before the recompile | every uniform of the new program is pending until it is uploaded | not executed | Shaders.StaleUniformNotResent | Shaders.UpdateUniformsResends |
| klgl/klgl/shader/shader_define.cpp:27-45 | `GenDefine` has no `vec2` branch, although `ReadFromJson` accepts `vec2` (lines 100-107), so the define's value text is empty | a define of type `vec2` | `#define NAME vec2(x, y)` with the value spelled out | not executed | ShaderDefines.Vec2DefineIsEmpty | ShaderDefines.DefineHasValue |
| fractal/code/rendering_backend/rendering_backend_cpu.cpp:302-316 | `PostDraw` handles completed tasks (line 304) before asking `HasTasksInProgress` (line 306). A worker that completes the last task in between makes line 313 close the frame duration while `tasks_` still owns that completed task. The next `HandleCompletedTasks` then adds its duration through the empty `current_frame_duration_` (line 193) | one popped, unfinished task, an empty queue and the settings applied; the task finishes between lines 304 and 306 | ask whether work is in progress before handling, so a task finishing in between is still counted as running | not executed | CpuBackend.PostDrawRaceClosesEarly | CpuBackend.PostDrawCheckFirstValid |
