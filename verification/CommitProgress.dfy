/** A commit whose log was persisted always completes: in every run, every flush it needs succeeds. */
module CommitProgress {
  import opened Common
  import opened PageCodec
  import opened PoolModel
  import opened PoolProofs
  import opened CrashModel
  import opened CrashProofs

  function UpTo(n: nat): (s: set<nat>)
    ensures forall b: nat :: b in s <==> b < n
  {
    if n == 0 then {} else UpTo(n - 1) + {n - 1}
  }

  function BlocksOf(disk: seq<Image>): set<nat> {
    UpTo(|disk|)
  }

  /** Every frame to be written back names a block of the device. */
  ghost predicate Flushable(s: State) {
    match s
    case Up(e, _, _) => DirtyWithin(e.pool, BlocksOf(e.pool.disk))
    case Flushing(e, _, _, _) => DirtyWithin(e.pool, BlocksOf(e.pool.disk))
    case _ => true
  }

  lemma WriteFlushable(e: Engine, b: nat, data: seq<byte>)
    requires Inv(e.pool) && !e.pool.steal && DirtyWithin(e.pool, BlocksOf(e.pool.disk))
    ensures DirtyWithin(WritePage(e, b, data).0.pool, BlocksOf(WritePage(e, b, data).0.pool.disk))
  {
    WritePageOK(e, b, data);
    WritePageDirty(e, b, data, BlocksOf(e.pool.disk));
    if WritePage(e, b, data).1.Ok? {
      assert BlocksOf(e.pool.disk) + {b} == BlocksOf(e.pool.disk);
    }
  }

  lemma StepFlushable(a: Store, s: State, step: Step, s': State)
    requires Implements(a, s) && Next(s, step, s') && Flushable(s)
    ensures Flushable(s')
  {
    match step
    case Write(b, data) => WriteFlushable(s.engine, b, data);
    case Read(b) =>
      PinDirty(s.engine.pool, b, BlocksOf(s.engine.pool.disk));
      FetchOK(s.engine.pool, b);
    case FlushOne => FlushDirty(s.engine.pool, s.next, BlocksOf(s.engine.pool.disk));
    case _ =>
  }

  lemma {:induction false} RunFlushable(states: seq<State>, steps: seq<Step>, n: nat)
    requires CrashProofs.IsRun(states, steps) && Created(states[0]) && n <= |steps|
    ensures Flushable(states[n])
  {
    if n > 0 {
      RunFlushable(states, steps, n - 1);
      RunImplements(states, steps, n - 1);
      NextInRun(states, steps, n - 1);
      StepFlushable(StoreAfter(states, steps, n - 1), states[n - 1], steps[n - 1], states[n]);
    } else {
      CreatedFlushable(states[0]);
    }
  }

  lemma NextInRun(states: seq<State>, steps: seq<Step>, k: nat)
    requires CrashProofs.IsRun(states, steps) && k < |steps|
    ensures Next(states[k], steps[k], states[k + 1])
  {
  }

  lemma CreatedFlushable(s: State)
    requires Created(s)
    ensures Flushable(s)
  {
  }

  lemma DirtyAreFlushable(p: Pool)
    requires Inv(p) && DirtyWithin(p, BlocksOf(p.disk))
    ensures AllFlushable(p)
  {
    forall i | 0 <= i < |p.frames| && NeedsFlush(p.frames[i]) ensures p.frames[i].blockId < |p.disk| {
      assert FrameOK(p.frames[i], p.disk);
    }
  }

  lemma CurrentIs(a: Store)
    ensures |CurrentImages(a)| == |a.original|
    ensures forall b :: 0 <= b < |a.original| ==> CurrentImages(a)[b] == Expected(a.original, a.persisted + a.batch, b)
  {
    ApplyAppend(a.original, a.persisted, a.batch);
    forall b | 0 <= b < |a.original| ensures CurrentImages(a)[b] == Expected(a.original, a.persisted + a.batch, b) {
      ApplyAt(a.original, a.persisted + a.batch, b);
    }
  }

  /** The flush succeeds, and the device then holds every page as last written, with nothing left to flush. */
  ghost predicate FlushCompletes(p: Pool, a: Store) {
    var (q, r) := FlushAll(p);
    && r.Ok? && NothingToFlush(q) && |q.disk| == |a.original|
    && forall b :: 0 <= b < |q.disk| ==> q.disk[b] == Expected(a.original, a.persisted + a.batch, b)
  }

  lemma EngineFlushes(a: Store, e: Engine)
    requires EngineOK(a, e) && DirtyWithin(e.pool, BlocksOf(e.pool.disk))
    ensures FlushCompletes(e.pool, a)
  {
    DirtyAreFlushable(e.pool);
    FlushSucceedsExactly(e.pool);
    CurrentIs(a);
  }

  /**
    In every state of every run in which the engine is up, the flush of a commit succeeds; then the
    device holds every page as last written, by this batch or a committed one, and nothing is left
    to flush.
  */
  lemma CommitSucceeds(states: seq<State>, steps: seq<Step>, n: nat)
    requires CrashProofs.IsRun(states, steps) && Created(states[0]) && n <= |steps| && states[n].Up?
    ensures FlushCompletes(states[n].engine.pool, StoreAfter(states, steps, n))
  {
    RunImplements(states, steps, n);
    RunFlushable(states, steps, n);
    EngineFlushes(StoreAfter(states, steps, n), states[n].engine);
  }
}
