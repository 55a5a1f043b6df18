/**
 * The render-thread side of the CPU rendering backend: the task list
 * `tasks_`, the list `ready_for_display_`, the lock-free queue of pending
 * tasks and the frame-duration bookkeeping. A `ThreadTask*` is modelled as
 * the task's `id`; ids come from a counter, so distinct tasks have distinct
 * ids as distinct allocations have distinct addresses.
 *
 * Worker threads are two explicit steps: `WorkerPop` takes the head of the
 * queue and `WorkerFinish` runs `do_task` on the popped task. Between two
 * render-thread calls these steps are calls on `Backend` like any other.
 * `PostDraw` itself is modelled as one step; `PostDrawRacing` lets a worker
 * finish a task in the middle of it, which the source does not prevent.
 */
module CpuBackend {
  import opened Base
  import opened Vectors
  import opened Partition
  import opened Sorting
  import opened Palette
  import opened TileScheduler
  import FS = FractalSettings

  datatype Backend = Backend(
    tasks: seq<Task>,
    ready: seq<Task>,
    queue: seq<nat>,
    prevDuration: Option<real>,
    currentDuration: Option<real>,
    nextId: nat)

  /** Some task in `tasks` carries `id`. */
  predicate HasTask(tasks: seq<Task>, id: nat)
  {
    exists i :: 0 <= i < |tasks| && tasks[i].id == id
  }

  /**
   * The backend's invariant: owned tasks are distinct objects allocated
   * from the counter; the queue holds each pointer once, every queued
   * pointer refers to a task that `tasks_` still owns and that no worker
   * has completed; only completed tasks are cancelled; and a frame
   * duration is being accumulated whenever tasks exist.
   */
  predicate Valid(b: Backend)
  {
    && (forall i, j :: 0 <= i < j < |b.tasks| ==> b.tasks[i].id != b.tasks[j].id)
    && (forall i :: 0 <= i < |b.tasks| ==> b.tasks[i].id < b.nextId)
    && (forall i, j :: 0 <= i < j < |b.queue| ==> b.queue[i] != b.queue[j])
    && (forall k :: 0 <= k < |b.queue| ==> HasTask(b.tasks, b.queue[k]))
    && (forall i :: 0 <= i < |b.tasks| && b.tasks[i].id in b.queue ==> !b.tasks[i].completed)
    && (forall i :: 0 <= i < |b.tasks| && b.tasks[i].cancelled ==> b.tasks[i].completed)
    && (b.currentDuration.None? ==> b.tasks == [])
  }

  /** The backend right after construction: nothing owned, nothing queued. */
  function Empty(): (b: Backend)
    ensures Valid(b) && b.tasks == [] && b.queue == [] && b.ready == []
    ensures b.prevDuration.None? && b.currentDuration.None?
  {
    Backend([], [], [], None, None, 0)
  }

  // ---------------------------------------------------------------------
  // Order-preserving filter
  // ---------------------------------------------------------------------

  /** The elements of `s` satisfying `p`, in their original order. */
  function Filter<T>(s: seq<T>, p: T -> bool): (r: seq<T>)
    ensures |r| <= |s|
  {
    if s == [] then [] else Filter(s[..|s| - 1], p) + (if p(s[|s| - 1]) then [s[|s| - 1]] else [])
  }

  /** Filtering distributes over concatenation, so relative order is kept. */
  lemma {:induction false} FilterAppend<T>(a: seq<T>, c: seq<T>, p: T -> bool)
    ensures Filter(a + c, p) == Filter(a, p) + Filter(c, p)
    decreases |c|
  {
    if c == [] {
      assert a + c == a;
    } else {
      var c' := c[..|c| - 1];
      assert (a + c)[..|a + c| - 1] == a + c';
      assert (a + c)[|a + c| - 1] == c[|c| - 1];
      FilterAppend(a, c', p);
    }
  }

  /** An element is kept exactly when it occurs in `s` and satisfies `p`. */
  lemma {:induction false} FilterMembership<T>(s: seq<T>, p: T -> bool, x: T)
    ensures x in Filter(s, p) <==> x in s && p(x)
    decreases |s|
  {
    if s != [] {
      var s' := s[..|s| - 1];
      assert s == s' + [s[|s| - 1]];
      FilterMembership(s', p, x);
    }
  }

  /** Stepping the prefix of a filter by one element. */
  lemma FilterPrefixStep<T>(s: seq<T>, p: T -> bool, i: nat)
    requires i < |s|
    ensures Filter(s[..i + 1], p) == Filter(s[..i], p) + (if p(s[i]) then [s[i]] else [])
  {
    assert s[..i + 1][..i] == s[..i];
  }

  // ---------------------------------------------------------------------
  // CancelAllTasks
  // ---------------------------------------------------------------------

  /** What `consume_all` does to one popped task. */
  function Cancel(t: Task): (r: Task)
    ensures r.cancelled && r.completed
    ensures r.(cancelled := t.cancelled, completed := t.completed) == t
  {
    t.(cancelled := true, completed := true)
  }

  /** Cancels the task `id` points to; every other task is left alone. */
  function CancelId(tasks: seq<Task>, id: nat): (r: seq<Task>)
    ensures |r| == |tasks|
  {
    seq(|tasks|, i requires 0 <= i < |tasks| => if tasks[i].id == id then Cancel(tasks[i]) else tasks[i])
  }

  /**
   * `CancelAllTasks`: the queue ends empty; exactly the tasks whose
   * pointers were in it are marked cancelled and completed with nothing
   * else about them changed, and a task not in the queue (one a worker has
   * already popped, say) is untouched.
   */
  function CancelAllTasks(b: Backend): (r: Backend)
    ensures r.queue == [] && |r.tasks| == |b.tasks|
    ensures forall i :: 0 <= i < |b.tasks| ==>
      && r.tasks[i].(cancelled := b.tasks[i].cancelled, completed := b.tasks[i].completed) == b.tasks[i]
      && (b.tasks[i].id in b.queue ==> r.tasks[i].cancelled && r.tasks[i].completed)
      && (b.tasks[i].id !in b.queue ==> r.tasks[i] == b.tasks[i])
    ensures r.ready == b.ready && r.nextId == b.nextId
    ensures r.prevDuration == b.prevDuration && r.currentDuration == b.currentDuration
  {
    b.(tasks := seq(|b.tasks|, i requires 0 <= i < |b.tasks| =>
                      if b.tasks[i].id in b.queue then Cancel(b.tasks[i]) else b.tasks[i]),
       queue := [])
  }

  /**
   * `task_queue_.consume_all(...)`: pops the queue one pointer at a time
   * and cancels the task behind it.
   */
  method ConsumeAll(b: Backend) returns (r: Backend)
    ensures r == CancelAllTasks(b)
  {
    var tasks := b.tasks;
    var k := 0;
    while k != |b.queue|
      invariant k <= |b.queue|
      invariant |tasks| == |b.tasks|
      invariant forall i :: 0 <= i < |tasks| ==>
        tasks[i] == if b.tasks[i].id in b.queue[..k] then Cancel(b.tasks[i]) else b.tasks[i]
      decreases |b.queue| - k
    {
      assert b.queue[..k + 1] == b.queue[..k] + [b.queue[k]];
      tasks := CancelId(tasks, b.queue[k]);
      k := k + 1;
    }
    assert b.queue[..k] == b.queue;
    r := b.(tasks := tasks, queue := []);
  }

  /** Cancelling keeps the backend's invariant. */
  lemma CancelAllTasksValid(b: Backend)
    requires Valid(b)
    ensures Valid(CancelAllTasks(b))
  {
    var r := CancelAllTasks(b);
    assert forall i :: 0 <= i < |b.tasks| ==> r.tasks[i].id == b.tasks[i].id;
  }

  // ---------------------------------------------------------------------
  // HandleCompletedTasks
  // ---------------------------------------------------------------------

  /** A task `HandleCompletedTasks` keeps in `tasks_`. */
  predicate Incomplete(t: Task) { !t.completed }

  /** A task `HandleCompletedTasks` moves to `ready_for_display_`. */
  predicate Displayable(t: Task) { t.completed && !t.cancelled }

  /** Sum of the tasks' durations, first to last. */
  function Durations(s: seq<Task>): real
  {
    if s == [] then 0.0 else Durations(s[..|s| - 1]) + s[|s| - 1].duration
  }

  /**
   * `*current_frame_duration_ += ...` dereferences the optional, so some
   * frame duration must be open whenever a task is ready to be shown.
   */
  predicate DurationOpenForShown(b: Backend)
  {
    b.currentDuration.None? ==> forall i :: 0 <= i < |b.tasks| ==> !Displayable(b.tasks[i])
  }

  /**
   * `HandleCompletedTasks`: incomplete tasks stay in `tasks_` in their
   * order; the completed, uncancelled ones are appended to
   * `ready_for_display_` in their order and their durations are added to
   * the current frame; completed cancelled tasks are dropped.
   */
  function HandleCompletedTasks(b: Backend): (r: Backend)
    requires DurationOpenForShown(b)
    ensures r.queue == b.queue && r.nextId == b.nextId && r.prevDuration == b.prevDuration
    ensures r.currentDuration.Some? <==> b.currentDuration.Some?
  {
    var shown := Filter(b.tasks, Displayable);
    b.(tasks := Filter(b.tasks, Incomplete),
       ready := b.ready + shown,
       currentDuration := if b.currentDuration.Some? then Some(b.currentDuration.value + Durations(shown)) else None)
  }

  /**
   * What the handled lists hold: a task remains owned exactly when it was
   * owned and incomplete; the old ready list is a prefix of the new one;
   * and the newly ready tasks are exactly the completed, uncancelled ones.
   */
  lemma HandleCompletedTasksMeaning(b: Backend, t: Task)
    requires DurationOpenForShown(b)
    ensures var r := HandleCompletedTasks(b);
      && (t in r.tasks <==> t in b.tasks && !t.completed)
      && r.ready[..|b.ready|] == b.ready
      && (t in r.ready[|b.ready|..] <==> t in b.tasks && t.completed && !t.cancelled)
  {
    var r := HandleCompletedTasks(b);
    FilterMembership(b.tasks, Incomplete, t);
    FilterMembership(b.tasks, Displayable, t);
    assert r.ready[|b.ready|..] == Filter(b.tasks, Displayable);
  }

  /** A completed task that was cancelled: `HandleCompletedTasks` frees it. */
  predicate Dropped(t: Task) { t.completed && t.cancelled }

  /**
   * Every owned task is accounted for exactly once by `HandleCompletedTasks`:
   * kept, shown or freed.
   */
  lemma HandleCompletedTasksPartition(b: Backend)
    requires DurationOpenForShown(b)
    ensures var r := HandleCompletedTasks(b);
      multiset(r.tasks) + multiset(r.ready[|b.ready|..]) + multiset(Filter(b.tasks, Dropped)) == multiset(b.tasks)
  {
    var r := HandleCompletedTasks(b);
    assert r.ready[|b.ready|..] == Filter(b.tasks, Displayable);
    ThreeWaySplit(b.tasks);
  }

  lemma {:induction false} ThreeWaySplit(s: seq<Task>)
    ensures multiset(Filter(s, Incomplete)) + multiset(Filter(s, Displayable)) + multiset(Filter(s, Dropped)) == multiset(s)
    decreases |s|
  {
    if s != [] {
      var s' := s[..|s| - 1];
      assert s == s' + [s[|s| - 1]];
      ThreeWaySplit(s');
    }
  }

  lemma DurationsSnoc(s: seq<Task>, t: Task)
    ensures Durations(s + [t]) == Durations(s) + t.duration
  {
    assert (s + [t])[..|s|] == s;
  }

  /** The source's loop: move or drop each completed task, then compact `tasks_`. */
  method HandleCompletedTasksLoop(b: Backend) returns (r: Backend)
    requires DurationOpenForShown(b)
    ensures r == HandleCompletedTasks(b)
  {
    var kept: seq<Task> := [];
    var shown: seq<Task> := [];
    var current := b.currentDuration;
    for i := 0 to |b.tasks|
      invariant kept == Filter(b.tasks[..i], Incomplete)
      invariant shown == Filter(b.tasks[..i], Displayable)
      invariant current.Some? <==> b.currentDuration.Some?
      invariant current.Some? ==> current.value == b.currentDuration.value + Durations(shown)
    {
      var t := b.tasks[i];
      FilterPrefixStep(b.tasks, Incomplete, i);
      FilterPrefixStep(b.tasks, Displayable, i);
      if t.completed {
        if !t.cancelled {
          assert Displayable(b.tasks[i]);
          DurationsSnoc(shown, t);
          current := Some(current.value + t.duration);
          shown := shown + [t];
        }
      } else {
        kept := kept + [t];
      }
    }
    assert b.tasks[..|b.tasks|] == b.tasks;
    r := b.(tasks := kept, ready := b.ready + shown, currentDuration := current);
  }

  /** Handling keeps the invariant: no queued task is ever freed. */
  lemma HandleCompletedTasksValid(b: Backend)
    requires Valid(b)
    ensures DurationOpenForShown(b) && Valid(HandleCompletedTasks(b))
  {
    var r := HandleCompletedTasks(b);
    FilterKeepsDistinctIds(b.tasks, Incomplete);
    forall i | 0 <= i < |r.tasks|
      ensures r.tasks[i].id < r.nextId && (r.tasks[i].id in r.queue ==> !r.tasks[i].completed)
      ensures r.tasks[i].cancelled ==> r.tasks[i].completed
    {
      FilterMembership(b.tasks, Incomplete, r.tasks[i]);
    }
    forall k | 0 <= k < |r.queue|
      ensures HasTask(r.tasks, r.queue[k])
    {
      var i :| 0 <= i < |b.tasks| && b.tasks[i].id == b.queue[k];
      FilterMembership(b.tasks, Incomplete, b.tasks[i]);
      var j :| 0 <= j < |r.tasks| && r.tasks[j] == b.tasks[i];
    }
  }

  /** Ids that were distinct before filtering stay distinct. */
  lemma {:induction false} FilterKeepsDistinctIds(s: seq<Task>, p: Task -> bool)
    requires forall i, j :: 0 <= i < j < |s| ==> s[i].id != s[j].id
    ensures var r := Filter(s, p); forall i, j :: 0 <= i < j < |r| ==> r[i].id != r[j].id
    decreases |s|
  {
    if s != [] {
      var s' := s[..|s| - 1];
      FilterKeepsDistinctIds(s', p);
      var r' := Filter(s', p);
      forall k | 0 <= k < |r'|
        ensures r'[k].id != s[|s| - 1].id
      {
        FilterMembership(s', p, r'[k]);
      }
    }
  }

  // ---------------------------------------------------------------------
  // HasTasksInProgress
  // ---------------------------------------------------------------------

  /** Something is queued or some owned task has not completed. */
  predicate InProgress(b: Backend)
  {
    |b.queue| > 0 || exists i :: 0 <= i < |b.tasks| && !b.tasks[i].completed
  }

  /** `HasTasksInProgress`: checks the queue, then scans `tasks_`. */
  method HasTasksInProgress(b: Backend) returns (r: bool)
    ensures r <==> InProgress(b)
  {
    if |b.queue| > 0 {
      return true;
    }
    for i := 0 to |b.tasks|
      invariant forall k :: 0 <= k < i ==> b.tasks[k].completed
    {
      if !b.tasks[i].completed {
        return true;
      }
    }
    return false;
  }

  /** After handling, "nothing in progress" means nothing is owned or queued at all. */
  lemma IdleAfterHandleIsEmpty(b: Backend)
    requires DurationOpenForShown(b)
    ensures var r := HandleCompletedTasks(b);
      !InProgress(r) <==> r.tasks == [] && r.queue == []
  {
    var r := HandleCompletedTasks(b);
    if r.tasks != [] {
      FilterMembership(b.tasks, Incomplete, r.tasks[0]);
    }
  }

  // ---------------------------------------------------------------------
  // StartNewFractalFrame
  // ---------------------------------------------------------------------

  /** The task the frame loop creates for `tile`, before it is numbered. */
  function TileTask(s: FS.Settings, tile: Tile): (t: Task)
    requires ColorsInRange(s.colors)
  {
    NewTask(tile, FS.CoordAtPixel(s, tile.x, tile.y), s.stepPerPixel, ByteColors(s.colors), s.useDouble)
  }

  /** The tasks of the frame loop, in grid order. */
  function FrameTemplates(s: FS.Settings, w: nat, h: nat): (ts: seq<Task>)
    requires ColorsInRange(s.colors)
    ensures |ts| == ChunkRows * ChunkCols
  {
    var tiles := TileGrid(w, h);
    seq(|tiles|, i requires 0 <= i < |tiles| => TileTask(s, tiles[i]))
  }

  /** Squared distance from a tile's origin to the texture centre, `screen / 2` in integers. */
  function CenterDistance(w: nat, h: nat, tile: Tile): nat
  {
    var dx := tile.x as int - (w / 2) as int;
    var dy := tile.y as int - (h / 2) as int;
    dx * dx + dy * dy
  }

  /** The sort key: tasks closer to the centre come first. */
  function CenterKey(w: nat, h: nat): Task -> int
  {
    (t: Task) => CenterDistance(w, h, t.tile)
  }

  /** Gives the k-th task the fresh id `first + k`, as its allocation would give it an address. */
  function Numbered(s: seq<Task>, first: nat): (r: seq<Task>)
    ensures |r| == |s|
    ensures forall k :: 0 <= k < |s| ==> r[k] == s[k].(id := first + k)
  {
    seq(|s|, k requires 0 <= k < |s| => s[k].(id := first + k))
  }

  /** The ids of the new frame's tasks, in queue order. */
  function FreshIds(first: nat, n: nat): (ids: seq<nat>)
    ensures |ids| == n
    ensures forall k :: 0 <= k < n ==> ids[k] == first + k
  {
    seq(n, k requires 0 <= k < n => first + k)
  }

  /**
   * `StartNewFractalFrame`: one task per tile of the 10 x 10 grid, sorted
   * centre-out, appended to `tasks_` and pushed to the queue in that order.
   * The queue must be empty.
   */
  function StartNewFractalFrame(b: Backend, s: FS.Settings, w: nat, h: nat): (r: Backend)
    requires b.queue == [] && ColorsInRange(s.colors)
    ensures |r.tasks| == |b.tasks| + ChunkRows * ChunkCols && r.tasks[..|b.tasks|] == b.tasks
    ensures |r.queue| == ChunkRows * ChunkCols
    ensures forall k :: 0 <= k < |r.queue| ==> r.queue[k] == r.tasks[|b.tasks| + k].id
    ensures r.ready == b.ready && r.prevDuration == b.prevDuration && r.currentDuration == b.currentDuration
  {
    PushFrame(b, SortBy(FrameTemplates(s, w, h), CenterKey(w, h)))
  }

  /** The push loop: each task gets a fresh pointer, is appended to `tasks_` and queued. */
  function PushFrame(b: Backend, order: seq<Task>): (r: Backend)
    ensures |r.tasks| == |b.tasks| + |order| && r.tasks[..|b.tasks|] == b.tasks
    ensures |r.queue| == |b.queue| + |order|
  {
    var numbered := Numbered(order, b.nextId);
    b.(tasks := b.tasks + numbered, queue := b.queue + FreshIds(b.nextId, |numbered|), nextId := b.nextId + |numbered|)
  }

  /** Pushing fresh, incomplete tasks keeps the invariant. */
  lemma PushFrameValid(b: Backend, order: seq<Task>)
    requires Valid(b) && b.queue == [] && b.currentDuration.Some?
    requires forall k :: 0 <= k < |order| ==> !order[k].completed && !order[k].cancelled
    ensures Valid(PushFrame(b, order))
  {
    var r := PushFrame(b, order);
    var n := |b.tasks|;
    forall i | 0 <= i < |r.tasks|
      ensures i < n ==> r.tasks[i] == b.tasks[i]
      ensures n <= i ==> r.tasks[i] == order[i - n].(id := b.nextId + (i - n))
      ensures r.tasks[i].id < r.nextId && (r.tasks[i].cancelled ==> r.tasks[i].completed)
    {
      if i < n {
        assert r.tasks[i] == r.tasks[..n][i];
      }
    }
    forall k | 0 <= k < |r.queue|
      ensures HasTask(r.tasks, r.queue[k])
    {
      assert r.tasks[n + k].id == r.queue[k];
    }
    forall i | 0 <= i < n
      ensures r.tasks[i].id !in r.queue
    {
      assert forall k :: 0 <= k < |r.queue| ==> r.queue[k] >= b.nextId;
    }
  }

  /** The new frame's tasks with their ids cleared, in queue order. */
  function NewFrameTasks(b: Backend, r: Backend): (ts: seq<Task>)
    requires |b.tasks| <= |r.tasks|
  {
    seq(|r.tasks| - |b.tasks|, k requires 0 <= k < |r.tasks| - |b.tasks| => r.tasks[|b.tasks| + k].(id := 0))
  }

  /**
   * The new tasks are a permutation of the tasks the grid loop creates
   * (one per tile, with the tile's start point, the step per pixel, the
   * byte colours and a cap of 1000), ordered by non-decreasing distance
   * from the texture centre.
   */
  lemma StartNewFractalFrameOrder(b: Backend, s: FS.Settings, w: nat, h: nat)
    requires b.queue == [] && ColorsInRange(s.colors)
    ensures var r := StartNewFractalFrame(b, s, w, h);
      && multiset(NewFrameTasks(b, r)) == multiset(FrameTemplates(s, w, h))
      && SortedBy(NewFrameTasks(b, r), CenterKey(w, h))
  {
    var order := SortBy(FrameTemplates(s, w, h), CenterKey(w, h));
    SortedTemplatesFresh(s, w, h, order);
    PushedInOrder(b, order);
  }

  /** Every task of the sorted frame is fresh: id 0, neither completed nor cancelled. */
  lemma SortedTemplatesFresh(s: FS.Settings, w: nat, h: nat, order: seq<Task>)
    requires ColorsInRange(s.colors) && order == SortBy(FrameTemplates(s, w, h), CenterKey(w, h))
    ensures forall k :: 0 <= k < |order| ==> Fresh(order[k])
  {
    var templates := FrameTemplates(s, w, h);
    assert forall j :: 0 <= j < |templates| ==> Fresh(templates[j]);
    FreshPermutation(templates, order);
  }

  /** A task as the frame loop creates it, before it is numbered. */
  predicate Fresh(t: Task)
  {
    t.id == 0 && !t.completed && !t.cancelled
  }

  lemma FreshPermutation(a: seq<Task>, b: seq<Task>)
    requires multiset(a) == multiset(b) && forall j :: 0 <= j < |a| ==> Fresh(a[j])
    ensures forall k :: 0 <= k < |b| ==> Fresh(b[k])
  {
    forall k | 0 <= k < |b|
      ensures Fresh(b[k])
    {
      assert b[k] in multiset(a);
    }
  }

  /** The pushed tasks, ids cleared, are the given ones in the given order. */
  lemma PushedInOrder(b: Backend, order: seq<Task>)
    requires forall k :: 0 <= k < |order| ==> order[k].id == 0
    ensures NewFrameTasks(b, PushFrame(b, order)) == order
  {
    var ts := NewFrameTasks(b, PushFrame(b, order));
    assert |ts| == |order|;
    forall k | 0 <= k < |order|
      ensures ts[k] == order[k]
    {
    }
  }

  /**
   * Each grid tile's task: the tile of row `ry` and column `rx`, starting at
   * the world point of the tile's origin, stepping by the settings' step
   * per pixel, with one truncated byte colour per settings colour and a
   * cap of 1000, fresh.
   */
  lemma FrameTemplateAt(s: FS.Settings, w: nat, h: nat, ry: nat, rx: nat)
    requires ColorsInRange(s.colors) && ry < ChunkRows && rx < ChunkCols
    ensures var t := FrameTemplates(s, w, h)[ry * ChunkCols + rx];
      && t.tile == TileAt(w, h, ry, rx)
      && t.startPoint == FS.CoordAtPixel(s, PartOrigin(w, ChunkCols, rx), PartOrigin(h, ChunkRows, ry))
      && t.stepPerPixel == s.stepPerPixel && t.useDouble == s.useDouble
      && |t.colors| == |s.colors|
      && (forall i :: 0 <= i < |s.colors| ==> t.colors[i].r as real <= 255.0 * s.colors[i].r < t.colors[i].r as real + 1.0)
      && (forall i :: 0 <= i < |s.colors| ==> t.colors[i].g as real <= 255.0 * s.colors[i].g < t.colors[i].g as real + 1.0)
      && (forall i :: 0 <= i < |s.colors| ==> t.colors[i].b as real <= 255.0 * s.colors[i].b < t.colors[i].b as real + 1.0)
      && t.iterations == 1000 && !t.completed && !t.cancelled && t.rowsCompleted == 0
  {
    TileIndex(ry, rx);
  }

  /** Starting a frame on an idle backend keeps the invariant. */
  lemma StartNewFractalFrameValid(b: Backend, s: FS.Settings, w: nat, h: nat)
    requires Valid(b) && b.queue == [] && ColorsInRange(s.colors) && b.currentDuration.Some?
    ensures Valid(StartNewFractalFrame(b, s, w, h))
  {
    var order := SortBy(FrameTemplates(s, w, h), CenterKey(w, h));
    SortedTemplatesFresh(s, w, h, order);
    PushFrameValid(b, order);
    assert StartNewFractalFrame(b, s, w, h) == PushFrame(b, order);
  }

  // ---------------------------------------------------------------------
  // PostDraw
  // ---------------------------------------------------------------------

  /**
   * Lines 308-315 of `PostDraw`: when nothing is in progress, an open frame
   * duration becomes the previous one and the current one is emptied.
   */
  function CloseDuration(b: Backend, inProgress: bool): (r: Backend)
    ensures r.tasks == b.tasks && r.queue == b.queue && r.ready == b.ready && r.nextId == b.nextId
    ensures inProgress || b.currentDuration.None? ==> r == b
    ensures !inProgress && b.currentDuration.Some? ==> r.currentDuration.None? && r.prevDuration == b.currentDuration
  {
    if !inProgress && b.currentDuration.Some? then b.(prevDuration := b.currentDuration, currentDuration := None) else b
  }

  /**
   * Lines 317-332 of `PostDraw`, once `inProgress` is known: nothing when
   * the settings are applied; cancel when work is in progress; otherwise
   * start a new frame, mark the settings applied and open a duration at 0.
   */
  function ApplySettings(closed: Backend, inProgress: bool, s: FS.Settings, w: nat, h: nat): (r: (Backend, FS.Settings))
    requires !s.settingsApplied && !inProgress ==> closed.queue == [] && ColorsInRange(s.colors)
    ensures s.settingsApplied ==> r == (closed, s)
    ensures !s.settingsApplied && inProgress ==> r.1 == s && r.0.queue == [] && r.0.tasks == CancelAllTasks(closed).tasks
    ensures !s.settingsApplied && !inProgress ==>
      && r.1 == s.(settingsApplied := true) && r.0.currentDuration == Some(0.0)
      && |r.0.tasks| == |closed.tasks| + ChunkRows * ChunkCols && |r.0.queue| == ChunkRows * ChunkCols
  {
    if s.settingsApplied then (closed, s)
    else if inProgress then (CancelAllTasks(closed), s)
    else (StartNewFractalFrame(closed, s, w, h).(currentDuration := Some(0.0)), s.(settingsApplied := true))
  }

  /**
   * `PostDraw`, once per frame on the render thread: handle completed
   * tasks; when nothing is in progress, close the open frame duration;
   * then, when the settings changed, cancel the running frame if one is in
   * progress or else start a new frame, mark the settings applied and open
   * a new duration at zero. Returns the backend and the settings object
   * (whose `settings_applied` flag it may set). Worker threads are assumed
   * not to finish a task while it runs; `PostDrawRacing` drops that.
   */
  function PostDraw(b: Backend, s: FS.Settings, w: nat, h: nat): (r: (Backend, FS.Settings))
    requires DurationOpenForShown(b)
    requires !s.settingsApplied ==> ColorsInRange(s.colors)
    ensures var handled := HandleCompletedTasks(b);
      var closed := CloseDuration(handled, InProgress(handled));
      && (s.settingsApplied ==> r == (closed, s))
      && (!s.settingsApplied && InProgress(handled) ==> r == (CancelAllTasks(handled), s))
      && (!s.settingsApplied && !InProgress(handled) ==>
            && handled.tasks == [] && handled.queue == []
            && r == (StartNewFractalFrame(closed, s, w, h).(currentDuration := Some(0.0)), s.(settingsApplied := true)))
    ensures var handled := HandleCompletedTasks(b);
      && (!s.settingsApplied && !InProgress(handled) ==>
            |r.0.tasks| == |r.0.queue| == ChunkRows * ChunkCols && r.0.currentDuration == Some(0.0))
      && (!InProgress(handled) && b.currentDuration.Some? ==> r.0.prevDuration == handled.currentDuration)
      && (InProgress(handled) || b.currentDuration.None? ==> r.0.prevDuration == b.prevDuration)
      && r.0.ready == handled.ready
  {
    var handled := HandleCompletedTasks(b);
    var inProgress := InProgress(handled);
    IdleAfterHandleIsEmpty(b);
    ApplySettings(CloseDuration(handled, inProgress), inProgress, s, w, h)
  }

  /** `PostDraw` keeps the backend's invariant. */
  lemma PostDrawValid(b: Backend, s: FS.Settings, w: nat, h: nat)
    requires Valid(b)
    requires !s.settingsApplied ==> ColorsInRange(s.colors)
    ensures DurationOpenForShown(b) && Valid(PostDraw(b, s, w, h).0)
  {
    HandleCompletedTasksValid(b);
    if InProgress(HandleCompletedTasks(b)) {
      PostDrawBusyValid(b, s, w, h);
    } else {
      PostDrawIdleValid(b, s, w, h);
    }
  }

  /** With work in progress, `PostDraw` keeps or cancels the handled tasks. */
  lemma PostDrawBusyValid(b: Backend, s: FS.Settings, w: nat, h: nat)
    requires DurationOpenForShown(b) && Valid(HandleCompletedTasks(b)) && InProgress(HandleCompletedTasks(b))
    requires !s.settingsApplied ==> ColorsInRange(s.colors)
    ensures Valid(PostDraw(b, s, w, h).0)
  {
    var handled := HandleCompletedTasks(b);
    if !s.settingsApplied {
      CancelAllTasksValid(handled);
      assert PostDraw(b, s, w, h).0 == CancelAllTasks(handled);
    } else {
      assert PostDraw(b, s, w, h).0 == handled;
    }
  }

  /** With nothing in progress, `PostDraw` closes the duration and may start a new frame. */
  lemma PostDrawIdleValid(b: Backend, s: FS.Settings, w: nat, h: nat)
    requires DurationOpenForShown(b) && Valid(HandleCompletedTasks(b)) && !InProgress(HandleCompletedTasks(b))
    requires !s.settingsApplied ==> ColorsInRange(s.colors)
    ensures Valid(PostDraw(b, s, w, h).0)
  {
    var handled := HandleCompletedTasks(b);
    IdleAfterHandleIsEmpty(b);
    if !s.settingsApplied {
      var reopened := handled.(prevDuration := if handled.currentDuration.Some? then handled.currentDuration else handled.prevDuration,
                             currentDuration := Some(0.0));
      StartNewFractalFrameValid(reopened, s, w, h);
      assert PostDraw(b, s, w, h).0 == StartNewFractalFrame(reopened, s, w, h);
    } else {
      ClosingKeepsValid(handled);
    }
  }

  /** Closing the frame duration of an idle, empty backend keeps the invariant. */
  lemma ClosingKeepsValid(b: Backend)
    requires Valid(b) && b.tasks == [] && b.queue == []
    ensures b.currentDuration.Some? ==> Valid(b.(prevDuration := b.currentDuration, currentDuration := None))
  {
  }

  // ---------------------------------------------------------------------
  // Worker steps
  // ---------------------------------------------------------------------

  /** A worker's `task_queue_.pop(task)`: it takes the pointer at the head. */
  function WorkerPop(b: Backend): (r: (Backend, nat))
    requires |b.queue| > 0
    ensures r.1 == b.queue[0] && r.1 !in r.0.queue <== Valid(b)
    ensures r.0 == b.(queue := b.queue[1..])
  {
    (b.(queue := b.queue[1..]), b.queue[0])
  }

  /**
   * `do_task` on the task a worker popped, with the kernel `ff` the
   * worker selected for it. The cancellation flag can only have been set
   * before the task started, so it is seen at row 0.
   */
  function FinishTask(t: Task, ff: FractalFunction, elapsed: real): (r: Task)
    ensures r.completed && r.id == t.id && r.cancelled == t.cancelled
  {
    RenderTask(t, ff, if t.cancelled then Some(0) else None, elapsed)
  }

  /**
   * The worker finishes the popped task `id` with kernel `ff`; no other
   * task changes. (The worker's kernel is `SelectFractalFunction` of the
   * task's flag; nothing about scheduling depends on which it is.)
   */
  function WorkerFinish(b: Backend, id: nat, ff: FractalFunction, elapsed: real): (r: Backend)
    requires id !in b.queue
    ensures |r.tasks| == |b.tasks| && r == b.(tasks := r.tasks)
    ensures forall i :: 0 <= i < |b.tasks| ==>
      (b.tasks[i].id == id ==> r.tasks[i] == FinishTask(b.tasks[i], ff, elapsed)) &&
      (b.tasks[i].id != id ==> r.tasks[i] == b.tasks[i])
  {
    b.(tasks := seq(|b.tasks|, i requires 0 <= i < |b.tasks| =>
                      if b.tasks[i].id == id then FinishTask(b.tasks[i], ff, elapsed) else b.tasks[i]))
  }

  /** Both worker steps keep the invariant. */
  lemma WorkerStepsValid(b: Backend, id: nat, ff: FractalFunction, elapsed: real)
    requires Valid(b)
    ensures |b.queue| > 0 ==> Valid(WorkerPop(b).0)
    ensures id !in b.queue ==> Valid(WorkerFinish(b, id, ff, elapsed))
  {
    if |b.queue| > 0 {
      WorkerPopValid(b);
    }
    if id !in b.queue {
      WorkerFinishValid(b, id, ff, elapsed);
    }
  }

  /** Popping the head keeps the invariant. */
  lemma WorkerPopValid(b: Backend)
    requires Valid(b) && |b.queue| > 0
    ensures Valid(WorkerPop(b).0)
  {
    var r := WorkerPop(b).0;
    forall i | 0 <= i < |r.tasks| && r.tasks[i].id in r.queue
      ensures !r.tasks[i].completed
    {
      assert r.tasks[i].id in b.queue;
    }
    forall k | 0 <= k < |r.queue|
      ensures HasTask(r.tasks, r.queue[k])
    {
      assert r.queue[k] == b.queue[k + 1];
    }
  }

  /** Finishing a task that is not queued keeps the invariant. */
  lemma WorkerFinishValid(b: Backend, id: nat, ff: FractalFunction, elapsed: real)
    requires Valid(b) && id !in b.queue
    ensures Valid(WorkerFinish(b, id, ff, elapsed))
  {
    var r := WorkerFinish(b, id, ff, elapsed);
    assert forall i :: 0 <= i < |b.tasks| ==> r.tasks[i].id == b.tasks[i].id;
  }

  /**
   * The race the source does not exclude: a task a worker has already
   * popped is not in the queue when the settings change, so
   * `CancelAllTasks` does not mark it; the worker finishes it and the
   * next `HandleCompletedTasks` shows the stale tile, while every task
   * still queued at the cancellation is dropped.
   */
  lemma PoppedTaskSurvivesCancel(b: Backend, ff: FractalFunction, elapsed: real)
    requires Valid(b) && |b.queue| > 0
    ensures var (b1, id) := WorkerPop(b);
      var b3 := WorkerFinish(CancelAllTasks(b1), id, ff, elapsed);
      && DurationOpenForShown(b3)
      && (exists t :: t in HandleCompletedTasks(b3).ready[|b.ready|..] && t.id == id && !t.cancelled)
      && (forall t, k :: t in HandleCompletedTasks(b3).ready[|b.ready|..] && 0 < k < |b.queue| ==> t.id != b.queue[k])
  {
    var (b1, id) := WorkerPop(b);
    var b3 := WorkerFinish(CancelAllTasks(b1), id, ff, elapsed);
    var i := PopThenCancel(b, ff, elapsed);
    HandleCompletedTasksMeaning(b3, b3.tasks[i]);
    forall u, k | u in HandleCompletedTasks(b3).ready[|b.ready|..] && 0 < k < |b.queue|
      ensures u.id != b.queue[k]
    {
      HandleCompletedTasksMeaning(b3, u);
    }
  }

  /**
   * The state after pop, cancel and finish: the popped task (at index `i`)
   * is completed and uncancelled, every task still queued at the
   * cancellation is cancelled.
   */
  lemma PopThenCancel(b: Backend, ff: FractalFunction, elapsed: real) returns (i: nat)
    requires Valid(b) && |b.queue| > 0
    ensures var (b1, id) := WorkerPop(b);
      var b3 := WorkerFinish(CancelAllTasks(b1), id, ff, elapsed);
      && i < |b3.tasks| && b3.tasks[i].id == id && b3.tasks[i].completed && !b3.tasks[i].cancelled
      && b3.currentDuration.Some?
      && (forall j, k :: 0 <= j < |b3.tasks| && 0 < k < |b.queue| && b3.tasks[j].id == b.queue[k] ==> b3.tasks[j].cancelled)
  {
    var (b1, id) := WorkerPop(b);
    var b2 := CancelAllTasks(b1);
    var b3 := WorkerFinish(b2, id, ff, elapsed);
    i := HeadTask(b);
    assert b2.tasks[i] == b.tasks[i];
    assert b3.tasks[i] == FinishTask(b2.tasks[i], ff, elapsed);
    StillQueuedCancelled(b, b2, b3, ff, elapsed);
  }

  /** The task at the head of a valid queue exists, has not completed and so is not cancelled. */
  lemma HeadTask(b: Backend) returns (i: nat)
    requires Valid(b) && |b.queue| > 0
    ensures i < |b.tasks| && b.tasks[i].id == b.queue[0]
    ensures !b.tasks[i].completed && !b.tasks[i].cancelled
  {
    assert HasTask(b.tasks, b.queue[0]);
    i :| 0 <= i < |b.tasks| && b.tasks[i].id == b.queue[0];
  }

  /** After pop, cancel and finish, every task queued behind the popped one is cancelled. */
  lemma StillQueuedCancelled(b: Backend, b2: Backend, b3: Backend, ff: FractalFunction, elapsed: real)
    requires Valid(b) && |b.queue| > 0
    requires b2 == CancelAllTasks(WorkerPop(b).0) && b2.queue == []
    requires b3 == WorkerFinish(b2, b.queue[0], ff, elapsed)
    ensures forall j, k :: 0 <= j < |b3.tasks| && 0 < k < |b.queue| && b3.tasks[j].id == b.queue[k] ==> b3.tasks[j].cancelled
  {
    var b1 := WorkerPop(b).0;
    forall j, k | 0 <= j < |b3.tasks| && 0 < k < |b.queue| && b3.tasks[j].id == b.queue[k]
      ensures b3.tasks[j].cancelled
    {
      assert b.queue[k] == b1.queue[k - 1];
      assert b.queue[k] != b.queue[0];
    }
  }

  // ---------------------------------------------------------------------
  // A worker finishing inside PostDraw
  // ---------------------------------------------------------------------

  /** What a worker thread does while the render thread is inside `PostDraw`. */
  datatype WorkerEvent = NoEvent | Finishes(id: nat, ff: FractalFunction, elapsed: real)

  /** The event can happen: the worker finishes a task it popped and has not completed. */
  predicate CanHappen(b: Backend, e: WorkerEvent)
  {
    e.Finishes? ==> e.id !in b.queue && exists i :: 0 <= i < |b.tasks| && b.tasks[i].id == e.id && !b.tasks[i].completed
  }

  function Happen(b: Backend, e: WorkerEvent): (r: Backend)
    requires e.Finishes? ==> e.id !in b.queue
    ensures e.NoEvent? ==> r == b
  {
    if e.NoEvent? then b else WorkerFinish(b, e.id, e.ff, e.elapsed)
  }

  /**
   * `PostDraw` as written, with a worker event between `HandleCompletedTasks`
   * (line 304) and `HasTasksInProgress` (line 306). Without the event it is
   * `PostDraw`.
   */
  function PostDrawRacing(b: Backend, s: FS.Settings, w: nat, h: nat, e: WorkerEvent): (r: (Backend, FS.Settings))
    requires DurationOpenForShown(b) && CanHappen(HandleCompletedTasks(b), e)
    requires !s.settingsApplied ==> ColorsInRange(s.colors)
    ensures e.NoEvent? ==> r == PostDraw(b, s, w, h)
  {
    var seen := Happen(HandleCompletedTasks(b), e);
    var inProgress := InProgress(seen);
    ApplySettings(CloseDuration(seen, inProgress), inProgress, s, w, h)
  }

  /**
   * The race: the last running task completes between handling and the
   * in-progress check, so the duration is closed while `tasks_` still owns
   * the finished, uncancelled task. The next `HandleCompletedTasks` then
   * adds its duration through the empty `current_frame_duration_`.
   */
  lemma PostDrawRaceClosesEarly(b: Backend, t: Task, s: FS.Settings, w: nat, h: nat, ff: FractalFunction, elapsed: real)
    requires Valid(b) && b.queue == [] && b.tasks == [t] && !t.completed && b.currentDuration.Some?
    requires s.settingsApplied
    ensures var handled := HandleCompletedTasks(b);
      && InProgress(handled)
      && CanHappen(handled, Finishes(t.id, ff, elapsed))
      && !DurationOpenForShown(PostDrawRacing(b, s, w, h, Finishes(t.id, ff, elapsed)).0)
  {
    var handled := HandleCompletedTasks(b);
    assert [t][..0] == [];
    assert Filter([t], Incomplete) == [t];
    assert Filter([t], Displayable) == [];
    assert handled.tasks == [t];
    var seen := WorkerFinish(handled, t.id, ff, elapsed);
    assert Displayable(seen.tasks[0]);
    assert !InProgress(seen);
  }

  /**
   * `PostDraw` with the in-progress check moved before `HandleCompletedTasks`:
   * handling removes only completed tasks, so the answer is the same, and a
   * worker can only finish a task that made it true.
   */
  function PostDrawCheckFirst(b: Backend, s: FS.Settings, w: nat, h: nat, e: WorkerEvent): (r: (Backend, FS.Settings))
    requires Valid(b) && CanHappen(b, e)
    requires !s.settingsApplied ==> ColorsInRange(s.colors)
    ensures e.NoEvent? ==> r == PostDraw(b, s, w, h)
  {
    var inProgress := InProgress(b);
    var seen := Happen(b, e);
    WorkerEventOpen(b, e);
    var handled := HandleCompletedTasks(seen);
    InProgressAcrossHandling(b);
    ApplySettings(CloseDuration(handled, inProgress), inProgress, s, w, h)
  }

  /** A worker event keeps the frame duration open for whatever it completes. */
  lemma WorkerEventOpen(b: Backend, e: WorkerEvent)
    requires Valid(b) && CanHappen(b, e)
    ensures Valid(Happen(b, e)) && DurationOpenForShown(Happen(b, e))
    ensures !InProgress(b) ==> e.NoEvent?
  {
    if e.Finishes? {
      WorkerFinishValid(b, e.id, e.ff, e.elapsed);
    }
  }

  /** Handling completed tasks does not change whether work is in progress. */
  lemma InProgressAcrossHandling(b: Backend)
    requires DurationOpenForShown(b)
    ensures InProgress(HandleCompletedTasks(b)) == InProgress(b)
  {
    var r := HandleCompletedTasks(b);
    if exists i :: 0 <= i < |b.tasks| && !b.tasks[i].completed {
      var i :| 0 <= i < |b.tasks| && !b.tasks[i].completed;
      FilterMembership(b.tasks, Incomplete, b.tasks[i]);
    }
    if exists i :: 0 <= i < |r.tasks| && !r.tasks[i].completed {
      var i :| 0 <= i < |r.tasks| && !r.tasks[i].completed;
      FilterMembership(b.tasks, Incomplete, r.tasks[i]);
    }
  }

  /** With the check first, the invariant survives any worker event inside `PostDraw`. */
  lemma PostDrawCheckFirstValid(b: Backend, s: FS.Settings, w: nat, h: nat, e: WorkerEvent)
    requires Valid(b) && CanHappen(b, e)
    requires !s.settingsApplied ==> ColorsInRange(s.colors)
    ensures Valid(PostDrawCheckFirst(b, s, w, h, e).0)
  {
    WorkerEventOpen(b, e);
    if !InProgress(b) {
      PostDrawValid(b, s, w, h);
    } else {
      var handled := HandleCompletedTasks(Happen(b, e));
      HandleCompletedTasksValid(Happen(b, e));
      if !s.settingsApplied {
        CancelAllTasksValid(handled);
      }
    }
  }

  /**
   * Every count a finished task holds is at most its cap, so the colour
   * lookup `ColorForIteration` in `Draw` is defined on it.
   */
  lemma FinishedCountsWithinCap(t: Task, elapsed: real, i: nat)
    requires t.iterations == IterationCap()
    requires forall j :: 0 <= j < |t.pixels| ==> t.pixels[j] <= IterationCap()
    requires i < |FinishTask(t, SelectFractalFunction(t.useDouble), elapsed).pixels|
    ensures var r := FinishTask(t, SelectFractalFunction(t.useDouble), elapsed); r.pixels[i] <= r.iterations
  {
    var w := t.tile.width;
    var stop := StopRow(t.tile.height, if t.cancelled then Some(0) else None);
    if i < stop * w {
      RowMajorSplit(i, w, stop);
      KernelResultFits(t.useDouble, WorldX(t, i % w), WorldY(t, i / w));
    }
  }

  /** The colours `Draw` uploads for a finished tile, pixel by pixel. */
  function TileColors(t: Task): (c: seq<Rgb>)
    requires BlendSettings(|t.colors|, t.iterations)
    requires forall j :: 0 <= j < |t.pixels| ==> t.pixels[j] <= t.iterations
    ensures |c| == |t.pixels|
    ensures forall j :: 0 <= j < |t.pixels| ==> (t.pixels[j] == t.iterations ==> c[j] == Black)
    ensures forall j :: 0 <= j < |t.pixels| ==> (t.pixels[j] < t.iterations ==>
      var first := SegmentIndex(|t.colors|, t.iterations, t.pixels[j]);
      c[j] == Blend(t.colors[first], t.colors[first + 1], BlendFractionAsWritten(|t.colors|, t.iterations, t.pixels[j])))
  {
    seq(|t.pixels|, j requires 0 <= j < |t.pixels| => ColorForIteration(t.colors, t.iterations, t.pixels[j]))
  }

  // ---------------------------------------------------------------------
  // Accessors
  // ---------------------------------------------------------------------

  /** `TakePreviousFrameDuration`: hands out the stored duration and leaves none behind. */
  function TakePreviousFrameDuration(b: Backend): (r: (Backend, Option<real>))
    ensures r.1 == b.prevDuration
    ensures r.0.prevDuration.None? && r.0.(prevDuration := b.prevDuration) == b
  {
    (b.(prevDuration := None), b.prevDuration)
  }

  /** `ForEachTask`: the callback's results, one per owned task, in order. */
  method ForEachTask<A>(b: Backend, f: Task -> A) returns (results: seq<A>)
    ensures |results| == |b.tasks|
    ensures forall i :: 0 <= i < |b.tasks| ==> results[i] == f(b.tasks[i])
  {
    results := [];
    for i := 0 to |b.tasks|
      invariant |results| == i
      invariant forall k :: 0 <= k < i ==> results[k] == f(b.tasks[k])
    {
      results := results + [f(b.tasks[i])];
    }
  }
}
