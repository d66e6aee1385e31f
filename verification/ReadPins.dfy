/** What reading costs: a page that was read stays pinned until the database is reopened, and only that and uncommitted writes fill the pool. */
module ReadPins {
  import opened Common
  import opened PageCodec
  import opened PoolModel
  import opened PoolProofs
  import opened PoolHistory
  import opened CrashModel
  import opened CrashProofs
  import opened CommitProgress

  // ---------------------------------------------------------------- one step

  /** A write leaves every block pinned as often as before, whether it succeeds or not. */
  lemma WriteKeepsPins(e: Engine, b: nat, data: seq<byte>, c: nat)
    requires Inv(e.pool) && !e.pool.steal && c < |e.pool.disk|
    ensures PinsOf(WritePage(e, b, data).0.pool, c) == PinsOf(e.pool, c)
  {
    if |data| == PAGE_SIZE && b < |e.pool.disk| {
      ReserveOK(e.pool, b);
      var (p, r) := Reserve(e.pool, b);
      if Find(e.pool.frames, b).None? {
        AcquireHolds(e.pool, c);
      }
      if r.Ok? {
        StageKeepsPins(p, b, data, c);
      }
    }
  }

  lemma StageKeepsPins(p: Pool, b: nat, page: Page, c: nat)
    requires Inv(p) && !p.steal && c < |p.disk| && b < |p.disk|
    ensures var (q, r) := FetchAndSet(p, b, page); PinsOf(if r.Ok? then Unpin(q, b) else q, c) == PinsOf(p, c)
  {
    FetchAndSetOK(p, b, page);
    SetHolds(p, b, page, c);
    UnpinHolds(FetchAndSet(p, b, page).0, b, c);
  }

  lemma FlushKeepsPins(p: Pool, i: nat, c: nat)
    requires Inv(p) && i < |p.frames| && c < |p.disk| && FlushFrame(p, i).Ok?
    ensures PinsOf(FlushFrame(p, i).value, c) == PinsOf(p, c)
  {
    FlushFrameOK(p, i);
    FlushFrameSettles(p, i);
    var q := FlushFrame(p, i).value;
    FrameOf(p, c);
    FrameOf(q, c);
    if j :| 0 <= j < |p.frames| && p.frames[j].blockId == c {
      assert q.frames[j].blockId == c && PinsIn(q.frames[j]) == PinsIn(p.frames[j]);
    } else {
      assert forall j :: 0 <= j < |q.frames| ==> q.frames[j].blockId == p.frames[j].blockId;
    }
  }

  // ---------------------------------------------------------------- every run

  ghost predicate ReadOf(s: State, step: Step, b: nat) {
    step == Read(b) && s.Up? && LruInRange(s.engine.pool) && Fetch(s.engine.pool, b).1.Ok?
  }

  ghost predicate Restarts(step: Step) {
    step.Crash? || step.Reopen? || step.RecoverOne? || step.RecoverSync? || step.TruncateLog?
  }

  /** How often block `b` was read since the database was last opened. */
  ghost function ReadsSince(states: seq<State>, steps: seq<Step>, n: nat, b: nat): nat
    requires |states| == |steps| + 1 && n <= |steps|
  {
    if n == 0 || Restarts(steps[n - 1]) then 0
    else ReadsSince(states, steps, n - 1, b) + if ReadOf(states[n - 1], steps[n - 1], b) then 1 else 0
  }

  ghost predicate PinnedIn(p: Pool, b: nat, count: nat) {
    b < |p.disk| ==> PinsOf(p, b) == count
  }

  ghost predicate PinnedTimes(s: State, b: nat, count: nat) {
    match s
    case Up(e, _, _) => PinnedIn(e.pool, b, count)
    case Flushing(e, _, _, _) => PinnedIn(e.pool, b, count)
    case _ => true
  }

  lemma WritePins(e: Engine, c: nat, data: seq<byte>, b: nat, count: nat)
    requires Inv(e.pool) && !e.pool.steal && PinnedIn(e.pool, b, count)
    ensures PinnedIn(WritePage(e, c, data).0.pool, b, count)
  {
    WritePageOK(e, c, data);
    if b < |e.pool.disk| {
      WriteKeepsPins(e, c, data, b);
    }
  }

  lemma FetchPins(p: Pool, c: nat, b: nat, count: nat)
    requires Inv(p) && PinnedIn(p, b, count)
    ensures PinnedIn(Fetch(p, c).0, b, count + if b == c && Fetch(p, c).1.Ok? then 1 else 0)
  {
    FetchOK(p, c);
    if b < |p.disk| {
      PinHolds(p, c, b);
    }
  }

  lemma FlushPins(p: Pool, i: nat, b: nat, count: nat)
    requires Inv(p) && i < |p.frames| && FlushFrame(p, i).Ok? && PinnedIn(p, b, count)
    ensures PinnedIn(FlushFrame(p, i).value, b, count)
  {
    FlushFrameSettles(p, i);
    if b < |p.disk| {
      FlushKeepsPins(p, i, b);
    }
  }

  lemma NothingPinned(disk: seq<Image>, capacity: nat, b: nat)
    ensures PinnedIn(EmptyPool(disk, capacity), b, 0)
  {
  }

  lemma RestartPins(s: State, step: Step, s': State, b: nat)
    requires Next(s, step, s') && Restarts(step)
    ensures PinnedTimes(s', b, 0)
  {
    match step
    case Reopen(capacity) => NothingPinned(s.disk, capacity, b);
    case TruncateLog(capacity, _) => NothingPinned(s.disk, capacity, b);
    case _ =>
  }

  lemma CreatedPins(s: State, b: nat)
    requires Created(s)
    ensures PinnedTimes(s, b, 0)
  {
  }

  lemma StepPins(a: Store, s: State, step: Step, s': State, b: nat, count: nat)
    requires Implements(a, s) && Next(s, step, s') && PinnedTimes(s, b, count)
    ensures PinnedTimes(s', b, if Restarts(step) then 0 else count + if ReadOf(s, step, b) then 1 else 0)
  {
    if Restarts(step) {
      RestartPins(s, step, s', b);
      return;
    }
    match step
    case Write(c, data) => WritePins(s.engine, c, data, b, count);
    case Read(c) => FetchPins(s.engine.pool, c, b, count);
    case FlushOne => FlushPins(s.engine.pool, s.next, b, count);
    case _ =>
  }

  lemma {:induction false} RunPins(states: seq<State>, steps: seq<Step>, n: nat, b: nat)
    requires CrashProofs.IsRun(states, steps) && Created(states[0]) && n <= |steps|
    ensures PinnedTimes(states[n], b, ReadsSince(states, steps, n, b))
  {
    if n > 0 {
      RunPins(states, steps, n - 1, b);
      RunImplements(states, steps, n - 1);
      NextInRun(states, steps, n - 1);
      StepPins(StoreAfter(states, steps, n - 1), states[n - 1], steps[n - 1], states[n], b, ReadsSince(states, steps, n - 1, b));
    } else {
      CreatedPins(states[0], b);
    }
  }

  /** In every run, with the engine up, a block is pinned once for every time it was read since the database was opened. */
  lemma ReadsStayPinned(states: seq<State>, steps: seq<Step>, n: nat, b: nat)
    requires CrashProofs.IsRun(states, steps) && Created(states[0]) && n <= |steps| && states[n].Up? && b < |states[n].engine.pool.disk|
    ensures PinsOf(states[n].engine.pool, b) == ReadsSince(states, steps, n, b)
  {
    RunPins(states, steps, n, b);
  }

  // ---------------------------------------------------------------- running out of room

  /** A frame in use: it holds an uncommitted write, or a page that was read, if only under the number of an unused frame. */
  ghost predicate InUse(f: Frame, blocks: nat, times: nat -> nat) {
    f.state == Dirty || (if f.blockId < blocks then times(f.blockId) > 0 else f.state.Pinned?)
  }

  lemma PinnedIsRead(p: Pool, times: nat -> nat, i: nat)
    requires Inv(p) && i < |p.frames| && forall b :: 0 <= b < |p.disk| ==> PinsOf(p, b) == times(b)
    ensures InUse(p.frames[i], |p.disk|, times) <==> p.frames[i].state == Dirty || p.frames[i].state.Pinned?
  {
    var b := p.frames[i].blockId;
    if b < |p.disk| {
      FrameOf(p, b);
      assert PinsOf(p, b) == times(b);
    }
  }

  lemma NoRoomExactly(p: Pool, times: nat -> nat)
    requires Inv(p) && forall b :: 0 <= b < |p.disk| ==> PinsOf(p, b) == times(b)
    ensures !CanMakeRoom(p) <==> |p.frames| == p.capacity && forall i :: 0 <= i < |p.frames| ==> InUse(p.frames[i], |p.disk|, times)
  {
    forall i | 0 <= i < |p.frames| ensures InUse(p.frames[i], |p.disk|, times) <==> p.frames[i].state == Dirty || p.frames[i].state.Pinned? {
      PinnedIsRead(p, times, i);
    }
  }

  /**
    In every run, a page not in the pool cannot be brought in exactly when the pool is at capacity
    and each frame holds an uncommitted write or a page read since the database was opened.
  */
  lemma RoomRunsOutExactly(states: seq<State>, steps: seq<Step>, n: nat)
    requires CrashProofs.IsRun(states, steps) && Created(states[0]) && n <= |steps| && states[n].Up?
    ensures var p := states[n].engine.pool; var times := b => ReadsSince(states, steps, n, b);
      !CanMakeRoom(p) <==> |p.frames| == p.capacity && forall i :: 0 <= i < |p.frames| ==> InUse(p.frames[i], |p.disk|, times)
  {
    var p := states[n].engine.pool;
    RunImplements(states, steps, n);
    forall b | 0 <= b < |p.disk| ensures PinsOf(p, b) == ReadsSince(states, steps, n, b) {
      ReadsStayPinned(states, steps, n, b);
    }
    NoRoomExactly(p, b => ReadsSince(states, steps, n, b));
  }

  /** Reading alone can fill the pool: with room for one page, a second page can never be read. */
  lemma ReadsExhaust(disk: seq<Image>)
    requires 1 < |disk| <= NO_BLOCK && disk[0].Ok? && disk[1].Ok?
    ensures var p := EmptyPool(disk, 1);
      Fetch(p, 0).1.Ok? && LruInRange(Fetch(p, 0).0) && Fetch(Fetch(p, 0).0, 1).1 == Err(AllFramesPinned)
  {
    var p := EmptyPool(disk, 1);
    var q := Acquire(p).0;
    assert q.frames == [Frame(NO_BLOCK, ZERO_PAGE, Free, false)];
    var r := Fetch(p, 0).0;
    assert r.frames == [Frame(0, disk[0].value, Pinned(1), false)] && r.lru == [0];
    assert r.frames[1..] == [] && r.lru[1..] == [];
    assert Find(r.frames, 1).None? && FindFree(r.frames).None? && Victim(r.lru, r.frames, r.steal).None?;
  }
}
