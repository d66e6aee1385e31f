/** The storage engine over its pool and log; each operation is the one the crash machine steps by. */
module StorageEngine {
  import opened Common
  import opened PageCodec
  import opened WalCodec
  import opened CrashModel
  import opened CrashProofs
  import PoolModel
  import PoolProofs
  import PoolHistory
  import BufferPool
  import Wal

  /** How many of `ws` name a block the device has. */
  function InRange(ws: seq<PageSet>, blocks: nat): nat {
    if ws == [] then 0
    else InRange(ws[..|ws| - 1], blocks) + if ws[|ws| - 1].block < blocks then 1 else 0
  }

  lemma {:induction false} InRangeAppend(ws: seq<PageSet>, vs: seq<PageSet>, blocks: nat)
    ensures InRange(ws + vs, blocks) == InRange(ws, blocks) + InRange(vs, blocks)
  {
    if vs == [] {
      assert ws + vs == ws;
    } else {
      assert (ws + vs)[..|ws + vs| - 1] == ws + vs[..|vs| - 1];
      InRangeAppend(ws, vs[..|vs| - 1], blocks);
    }
  }

  lemma NothingCached(p: PoolModel.Pool)
    requires PoolProofs.Inv(p) && p.frames == []
    ensures p.lru == [] && PoolModel.FlushAll(p) == (p, Ok(()))
  {
    PoolHistory.NothingQueued(p);
  }

  /** A frame that is written back by nobody already shows what redoing `ws` gives its block. */
  ghost predicate FrameAgrees(f: PoolModel.Frame, ws: seq<PageSet>, blocks: nat) {
    f.dirtyIntent || f.blockId >= blocks || f.blockId !in Blocks(ws) || LastWrite(ws, f.blockId) == Some(f.page)
  }

  ghost predicate CacheAgrees(p: PoolModel.Pool, ws: seq<PageSet>) {
    forall i :: 0 <= i < |p.frames| ==> FrameAgrees(p.frames[i], ws, |p.disk|)
  }

  lemma RedoneFrame(p: PoolModel.Pool, ws: seq<PageSet>, f: PoolModel.Frame)
    requires PoolProofs.FrameOK(f, p.disk)
    ensures PoolProofs.FrameOK(f, Apply(p.disk, ws)) <==> FrameAgrees(f, ws, |p.disk|)
  {
    if f.blockId < |p.disk| {
      ApplyAt(p.disk, ws, f.blockId);
    }
  }

  /** Redoing writes under a pool keeps it sound if and only if its unmodified frames already show them. */
  lemma RedoneUnderCacheExactly(p: PoolModel.Pool, ws: seq<PageSet>)
    requires PoolProofs.Inv(p)
    ensures PoolProofs.Inv(p.(disk := Apply(p.disk, ws))) <==> CacheAgrees(p, ws)
  {
    forall i | 0 <= i < |p.frames|
      ensures PoolProofs.FrameOK(p.frames[i], Apply(p.disk, ws)) <==> FrameAgrees(p.frames[i], ws, |p.disk|)
    {
      RedoneFrame(p, ws, p.frames[i]);
    }
  }

  /**
    A concrete stale read: block 0 is read and unpinned, a write to it is redone on the device, and
    the next read still returns the old page.
  */
  lemma RedoneCanBeStale(was: Page, page: Page)
    requires was != page
    ensures var read := PoolModel.Unpin(PoolModel.Fetch(EmptyPool([Ok(was)], 1), 0).0, 0);
      var redone := read.(disk := Apply(read.disk, [PageSet(0, page)]));
      && PoolProofs.Inv(read) && !CacheAgrees(read, [PageSet(0, page)])
      && redone.disk == [Ok(page)] && PoolModel.LruInRange(redone) && PoolModel.Fetch(redone, 0).1 == Ok(was)
  {
    var read := PoolModel.Unpin(PoolModel.Fetch(EmptyPool([Ok(was)], 1), 0).0, 0);
    assert read == PoolModel.Pool([Ok(was)], 1, [PoolModel.Frame(0, was, PoolModel.Clean, false)], [0], false);
    assert [PageSet(0, page)][..0] == [];
    assert Apply(read.disk, [PageSet(0, page)]) == [Ok(page)];
    assert 0 in Blocks([PageSet(0, page)]) && LastWrite([PageSet(0, page)], 0) == Some(page);
    assert !FrameAgrees(read.frames[0], [PageSet(0, page)], 1);
  }

  class StorageEngine {
    var pool: BufferPool.Pool
    var wal: Wal.Log

    ghost function State(): Engine
      reads this, pool, wal
    {
      Engine(pool.State(), wal.records)
    }

    ghost predicate Valid()
      reads this, pool, wal
    {
      pool.Valid() && !pool.steal && wal.Valid()
    }

    constructor (device: seq<BufferPool.Block>, capacity: nat)
      requires capacity > 0 && |device| <= PoolModel.NO_BLOCK
      ensures Valid() && fresh(pool) && fresh(wal)
      ensures State() == Engine(EmptyPool(BufferPool.Images(device), capacity), [])
    {
      pool := new BufferPool.Pool(device, capacity, false);
      wal := new Wal.Log();
    }

    method WritePage(b: nat, data: seq<byte>) returns (r: Result<(), StorageError>)
      requires Valid()
      modifies pool, wal
      ensures Valid() && (State(), r) == CrashModel.WritePage(old(State()), b, data)
    {
      WritePageOK(State(), b, data);
      if |data| != PAGE_SIZE {
        return Err(ShortWrite(|data|, PAGE_SIZE));
      }
      if b >= |pool.device| {
        return Err(OutOfBounds(b, |pool.device|));
      }
      r := pool.Reserve(b);
      if r.Ok? {
        PoolProofs.ReserveOK(old(pool.State()), b);
        r := LogAndStage(b, data);
      }
    }

    /** Logs the image, then stages it; a page that cannot be staged leaves no record. */
    method LogAndStage(b: nat, page: Page) returns (r: Result<(), StorageError>)
      requires pool.Valid() && wal.Valid()
      modifies pool, wal
      ensures wal.Valid() && r == PoolModel.FetchAndSet(old(pool.State()), b, page).1
      ensures r.Ok? ==> wal.records == old(wal.records) + [PageRecord(old(wal.records), b, page)]
      ensures r.Ok? ==> pool.State() == PoolModel.Unpin(PoolModel.FetchAndSet(old(pool.State()), b, page).0, b)
      ensures r.Err? ==> wal.records == old(wal.records)
      ensures r.Err? ==> pool.State() == PoolModel.FetchAndSet(old(pool.State()), b, page).0
    {
      ghost var records := wal.records;
      var byteLen, lsn := |wal.bytes|, wal.nextLsn;
      var _ := wal.Append(PageWrite, b, page);
      r := pool.FetchAndSet(b, page);
      if r.Ok? {
        pool.Unpin(b);
      } else {
        assert wal.records[..lsn] == records;
        wal.Truncate(byteLen, lsn, lsn);
      }
    }

    method ReadPage(b: nat) returns (r: Result<Page, StorageError>)
      requires Valid()
      modifies pool
      ensures Valid() && State().log == old(State().log)
      ensures (State().pool, r) == PoolModel.Fetch(old(State().pool), b)
      ensures b < |pool.device| && r.Ok? ==> PoolProofs.Logical(old(State().pool), b) == Ok(r.value)
    {
      PoolProofs.FetchOK(pool.State(), b);
      r := pool.Fetch(b);
    }

    /** `persist` is the outcome of handing `persisted` to the caller's closure. */
    method CommitDurable(persist: Result<(), StorageError>) returns (r: Result<(), StorageError>, persisted: seq<byte>)
      requires Valid()
      modifies pool, wal
      ensures Valid() && persisted == Wal.LogBytes(LogWithCommit(old(State().log)))
      ensures persist.Err? ==> r == persist && State() == old(State())
      ensures persist.Ok? ==> State().log == LogWithCommit(old(State().log))
      ensures persist.Ok? ==> (State().pool, r) == PoolModel.FlushAll(old(State().pool))
      ensures persist.Ok? ==> (r.Ok? <==> PoolProofs.AllFlushable(old(State().pool)))
      ensures r.Ok? ==> PoolProofs.View(State().pool) == PoolProofs.View(old(State().pool)) == State().pool.disk
      ensures r.Ok? ==> PoolProofs.NothingToFlush(State().pool)
    {
      ghost var records := wal.records;
      var byteLen, lsn := |wal.bytes|, wal.nextLsn;
      var _ := wal.Append(Commit, 0, []);
      persisted := wal.bytes;
      if persist.Err? {
        assert wal.records[..lsn] == records;
        wal.Truncate(byteLen, lsn, lsn);
        return persist, persisted;
      }
      PoolProofs.FlushAllOK(pool.State());
      PoolProofs.FlushSucceedsExactly(pool.State());
      r := pool.FlushAll();
    }

    method ResetWal()
      modifies this`wal
      ensures fresh(wal) && wal.Valid() && wal.records == []
    {
      wal := new Wal.Log();
    }

    /** Applies buffered writes to the device in order, passing over those it refuses. */
    method ApplyPending(pending: seq<PageSet>) returns (applied: nat)
      modifies pool`device
      ensures BufferPool.Images(pool.device) == Apply(old(BufferPool.Images(pool.device)), pending)
      ensures applied == InRange(pending, |pool.device|)
    {
      applied := 0;
      ghost var images := BufferPool.Images(pool.device);
      for i := 0 to |pending|
        invariant BufferPool.Images(pool.device) == Apply(images, pending[..i])
        invariant applied == InRange(pending[..i], |images|)
      {
        assert pending[..i + 1][..i] == pending[..i];
        var w := pool.WriteBlock(pending[i].block, pending[i].page);
        if w.Ok? {
          applied := applied + 1;
        }
      }
      assert pending[..|pending|] == pending;
    }

    /** Buffers page writes and applies the buffer at every commit. */
    method ApplyCommitted(seen: seq<WalRecord>) returns (applied: nat)
      modifies pool`device
      ensures BufferPool.Images(pool.device) == Apply(old(BufferPool.Images(pool.device)), Committed(seen))
      ensures applied == InRange(Committed(seen), |pool.device|)
    {
      applied := 0;
      var pending := [];
      ghost var images := BufferPool.Images(pool.device);
      ghost var done: seq<PageSet> := [];
      for i := 0 to |seen|
        invariant Replayed(seen[..i]) == Replay(done, pending)
        invariant BufferPool.Images(pool.device) == Apply(images, done)
        invariant applied == InRange(done, |images|)
      {
        assert seen[..i + 1] == seen[..i] + [seen[i]];
        ReplayedAppend(seen[..i], seen[i]);
        if seen[i].kind == PageWrite {
          var w := WriteOf(seen[i]);
          if w.Some? {
            pending := pending + [w.value];
          }
        } else {
          ApplyAppend(images, done, pending);
          InRangeAppend(done, pending, |images|);
          var n := ApplyPending(pending);
          applied := applied + n;
          done := done + pending;
          pending := [];
        }
      }
      assert seen[..|seen|] == seen;
    }

    /**
      Redoes the committed part of a stored log on the device. Pages cached before the call are
      not refreshed, so the pool stays sound exactly when they already show what was redone.
    */
    method Recover(logBytes: seq<byte>) returns (applied: nat)
      modifies this`wal, pool`device
      ensures fresh(wal) && wal.bytes == logBytes[..Wal.IntactLen(logBytes)]
      ensures wal.nextLsn == Wal.NextLsn(Wal.Intact(logBytes))
      ensures BufferPool.Images(pool.device) == Apply(old(BufferPool.Images(pool.device)), Redo(logBytes))
      ensures applied == InRange(Redo(logBytes), |pool.device|)
      ensures old(pool.Valid()) ==> (pool.Valid() <==> CacheAgrees(old(pool.State()), Redo(logBytes)))
    {
      ghost var before := pool.State();
      var log := new Wal.Log.FromBytes(logBytes);
      Wal.ReloadedLog(logBytes);
      var seen := log.Replay();
      applied := ApplyCommitted(seen);
      wal := log;
      assert pool.State() == before.(disk := Apply(before.disk, Redo(logBytes)));
      if PoolProofs.Inv(before) {
        RedoneUnderCacheExactly(before, Redo(logBytes));
      }
    }

    /** The rest of `open` once the stored log is read: redo it, flush, start a fresh log. */
    method Reopen(logBytes: seq<byte>) returns (r: Result<(), StorageError>)
      requires Valid() && pool.frames == []
      modifies this, pool
      ensures r.Ok? && Valid()
      ensures State() == Engine(EmptyPool(Apply(old(State().pool.disk), Redo(logBytes)), pool.capacity), [])
    {
      assert pool.lru == [] by {
        NothingCached(pool.State());
      }
      var _ := Recover(logBytes);
      r := pool.FlushAll();
      ResetWal();
    }
  }

  // ---------------------------------------------------------------- commits as steps of the machine

  /** The states a flush passes through from `s`, one frame a step, until a write fails or all are done. */
  function FlushTrace(s: State): (t: seq<State>)
    requires s.Flushing? && s.next <= |s.engine.pool.frames|
    ensures |t| > 0 && t[0] == s
    decreases |s.engine.pool.frames| - s.next
  {
    if s.next == |s.engine.pool.frames| || PoolModel.FlushFrame(s.engine.pool, s.next).Err? then [s]
    else [s] + FlushTrace(FlushedOne(s))
  }

  /** The flush loop of a commit is a run of single flush steps ending in the same pool. */
  lemma {:induction false} FlushIsSteps(s: State)
    requires s.Flushing? && s.next <= |s.engine.pool.frames|
    ensures var t := FlushTrace(s); var last := t[|t| - 1]; var (pool, r) := PoolModel.FlushFrom(s.engine.pool, s.next);
      && CrashProofs.IsRun(t, seq(|t| - 1, _ => FlushOne))
      && last.Flushing? && last.engine == s.engine.(pool := pool) && last.durable == s.durable
      && (r.Ok? ==> last.next == |last.engine.pool.frames|)
    decreases |s.engine.pool.frames| - s.next
  {
    if s.next < |s.engine.pool.frames| && PoolModel.FlushFrame(s.engine.pool, s.next).Ok? {
      FlushIsSteps(FlushedOne(s));
    }
  }
}
