/** Whatever the run and wherever it crashes, the engine implements a store of atomic batches. */
module CrashProofs {
  import opened Common
  import opened PageCodec
  import opened PoolModel
  import opened PoolProofs
  import opened LittleEndian
  import opened WalCodec
  import opened CrashModel
  import Wal
  import Framing

  // ---------------------------------------------------------------- applying writes

  function Blocks(ws: seq<PageSet>): set<nat> {
    set i | 0 <= i < |ws| :: ws[i].block
  }

  /** The page of the last write to block `b`. */
  function LastWrite(ws: seq<PageSet>, b: nat): (r: Option<Page>)
    ensures r.Some? <==> b in Blocks(ws)
  {
    if ws == [] then None
    else if ws[|ws| - 1].block == b then Some(ws[|ws| - 1].page)
    else
      assert Blocks(ws) == Blocks(ws[..|ws| - 1]) + {ws[|ws| - 1].block};
      LastWrite(ws[..|ws| - 1], b)
  }

  /** Each block ends with its last write, else it is as it was. */
  lemma {:induction false} ApplyAt(d: seq<Image>, ws: seq<PageSet>, b: nat)
    requires b < |d|
    ensures Apply(d, ws)[b] == match LastWrite(ws, b) { case Some(page) => Ok(page) case None => d[b] }
  {
    if ws != [] {
      ApplyAt(d, ws[..|ws| - 1], b);
    }
  }

  lemma {:induction false} ApplyAppend(d: seq<Image>, ws: seq<PageSet>, vs: seq<PageSet>)
    ensures Apply(d, ws + vs) == Apply(Apply(d, ws), vs)
  {
    if vs == [] {
      assert ws + vs == ws;
    } else {
      ApplyAppend(d, ws, vs[..|vs| - 1]);
      assert (ws + vs)[..|ws + vs| - 1] == ws + vs[..|vs| - 1];
    }
  }

  lemma ApplyOne(d: seq<Image>, w: PageSet)
    ensures Apply(d, [w]) == if w.block < |d| then d[w.block := Ok(w.page)] else d
  {
    assert [w][..0] == [];
    assert Apply(d, []) == d;
  }

  /** Blocks that the writes will overwrite may hold anything beforehand. */
  lemma ApplyOver(d: seq<Image>, e: seq<Image>, ws: seq<PageSet>)
    requires |d| == |e| && forall b :: 0 <= b < |d| ==> b in Blocks(ws) || d[b] == e[b]
    ensures Apply(d, ws) == Apply(e, ws)
  {
    forall b | 0 <= b < |d| ensures Apply(d, ws)[b] == Apply(e, ws)[b] {
      ApplyAt(d, ws, b);
      ApplyAt(e, ws, b);
    }
  }

  // ---------------------------------------------------------------- replaying records

  lemma ReplayedAppend(log: seq<WalRecord>, rec: WalRecord)
    ensures Replayed(log + [rec]) == ReplayOne(Replayed(log), rec)
  {
    assert (log + [rec])[..|log|] == log;
  }

  /** Records after the last commit add nothing to what recovery redoes. */
  lemma {:induction false} TailIsUncommitted(log: seq<WalRecord>, j: nat)
    requires CommitEnd(log) <= j <= |log|
    ensures Committed(log[..j]) == Committed(log)
  {
    if j == |log| {
      assert log[..j] == log;
    } else {
      var init := log[..|log| - 1];
      TailIsUncommitted(init, j);
      assert init[..j] == log[..j];
    }
  }

  // ---------------------------------------------------------------- which blocks can be flushed

  /** Every frame that a flush could write belongs to a block of `s`. */
  ghost predicate DirtyWithin(p: Pool, s: set<nat>) {
    forall i :: 0 <= i < |p.frames| && p.frames[i].dirtyIntent ==> p.frames[i].blockId in s
  }

  lemma AcquireDirty(p: Pool, s: set<nat>)
    requires Inv(p) && DirtyWithin(p, s)
    ensures DirtyWithin(Acquire(p).0, s)
  {
  }

  lemma PinDirty(p: Pool, b: nat, s: set<nat>)
    requires Inv(p) && DirtyWithin(p, s)
    ensures DirtyWithin(PinFrame(p, b).0, s)
  {
    AcquireDirty(p, s);
  }

  lemma FetchAndSetDirty(p: Pool, b: nat, page: Page, s: set<nat>)
    requires Inv(p) && DirtyWithin(p, s) && b in s
    ensures DirtyWithin(FetchAndSet(p, b, page).0, s)
  {
    PinDirty(p, b, s);
    PinFrameOK(p, b);
  }

  lemma UnpinDirty(p: Pool, b: nat, s: set<nat>)
    requires DirtyWithin(p, s)
    ensures DirtyWithin(Unpin(p, b), s)
  {
  }

  lemma FlushDirty(p: Pool, i: nat, s: set<nat>)
    requires DirtyWithin(p, s) && i < |p.frames| && FlushFrame(p, i).Ok?
    ensures DirtyWithin(FlushFrame(p, i).value, s)
  {
  }

  // ---------------------------------------------------------------- write_page

  /** A successful write shows its page and logs it; a failed one shows and logs nothing. Neither writes the disk. */
  lemma WritePageOK(e: Engine, b: nat, data: seq<byte>)
    requires Inv(e.pool) && !e.pool.steal
    ensures var (f, r) := WritePage(e, b, data);
      && Inv(f.pool) && !f.pool.steal && f.pool.disk == e.pool.disk
      && (r.Ok? ==> |data| == PAGE_SIZE && b < |e.pool.disk| && f.log == e.log + [PageRecord(e.log, b, data)])
      && (r.Ok? ==> ViewUpdated(e.pool, f.pool, b, data))
      && (r.Err? ==> f.log == e.log && SameView(e.pool, f.pool))
  {
    if |data| == PAGE_SIZE && b < |e.pool.disk| {
      ReserveOK(e.pool, b);
      var (p, r) := Reserve(e.pool, b);
      if r.Ok? {
        FetchAndSetOK(p, b, data);
        UnpinOK(FetchAndSet(p, b, data).0, b);
      }
    }
  }

  /** A frame is free or clean, or there is capacity for another. */
  ghost predicate CanMakeRoom(p: Pool) {
    |p.frames| < p.capacity || exists i :: 0 <= i < |p.frames| && (p.frames[i].state == Free || p.frames[i].state == Clean)
  }

  ghost predicate Resident(p: Pool, b: nat) {
    exists i :: 0 <= i < |p.frames| && p.frames[i].blockId == b
  }

  lemma AcquireSucceedsExactly(p: Pool)
    requires Inv(p) && !p.steal
    ensures Acquire(p).1.Ok? <==> CanMakeRoom(p)
    ensures !CanMakeRoom(p) ==>
      Acquire(p) == (p, Err(if exists i :: 0 <= i < |p.frames| && p.frames[i].state == Dirty then UncommittedPagesPinned else AllFramesPinned))
  {
    if FindFree(p.frames).None? && |p.frames| >= p.capacity {
      match Victim(p.lru, p.frames, p.steal)
      case None =>
        forall i | 0 <= i < |p.frames| ensures p.frames[i].state != Clean {
          assert i in p.lru;
        }
      case Some(i) =>
        assert i < |p.frames| by {
          var k :| 0 <= k < |p.lru| && p.lru[k] == i;
        }
        assert p.frames[i].state == Clean;
    }
  }

  lemma ReservedThenStaged(p: Pool, b: nat, page: Page)
    requires Inv(p) && !p.steal && b < |p.disk| && Find(p.frames, b).None? && Acquire(p).1.Ok?
    ensures FetchAndSet(Acquire(p).0, b, page).1.Ok? <==> p.disk[b].Ok?
  {
    AcquireOK(p);
    AcquireFindsNothing(p, b);
    var q := Acquire(p).0;
    assert q.frames[Acquire(p).1.value].state == Free;
  }

  /** A write succeeds exactly when its block is cached, or can be read and room can be made without evicting an uncommitted page. */
  lemma WritePageSucceedsExactly(e: Engine, b: nat, data: seq<byte>)
    requires Inv(e.pool) && !e.pool.steal
    ensures WritePage(e, b, data).1.Ok? <==>
      && |data| == PAGE_SIZE && b < |e.pool.disk|
      && (Resident(e.pool, b) || (CanMakeRoom(e.pool) && e.pool.disk[b].Ok?))
  {
    if |data| == PAGE_SIZE && b < |e.pool.disk| {
      if Find(e.pool.frames, b).None? {
        AcquireSucceedsExactly(e.pool);
        if Acquire(e.pool).1.Ok? {
          ReservedThenStaged(e.pool, b, data);
        }
      }
    }
  }

  /** A read succeeds exactly when its block is cached, or exists, decodes, and room can be made for it. */
  lemma ReadSucceedsExactly(p: Pool, b: nat)
    requires Inv(p) && !p.steal
    ensures Fetch(p, b).1.Ok? <==> Resident(p, b) || (CanMakeRoom(p) && b < |p.disk| && p.disk[b].Ok?)
  {
    if Find(p.frames, b).None? {
      AcquireSucceedsExactly(p);
      AcquireOK(p);
    }
  }

  lemma WritePageDirty(e: Engine, b: nat, data: seq<byte>, s: set<nat>)
    requires Inv(e.pool) && DirtyWithin(e.pool, s)
    ensures DirtyWithin(WritePage(e, b, data).0.pool, s + {b})
    ensures WritePage(e, b, data).1.Err? ==> DirtyWithin(WritePage(e, b, data).0.pool, s)
  {
    if |data| == PAGE_SIZE && b < |e.pool.disk| {
      ReserveOK(e.pool, b);
      AcquireDirty(e.pool, s);
      var (p, r) := Reserve(e.pool, b);
      if r.Ok? {
        FetchAndSetDirty(p, b, data, s + {b});
        PinDirty(p, b, s);
        UnpinDirty(FetchAndSet(p, b, data).0, b, s + {b});
      }
    }
  }

  // ---------------------------------------------------------------- what every reachable state keeps

  /** Redoing `ws` over `disk` gives `images`, even if the blocks not yet synced lose what they hold. */
  ghost predicate Recoverable(images: seq<Image>, disk: seq<Image>, unsynced: set<nat>, ws: seq<PageSet>) {
    Apply(disk, ws) == images && unsynced <= Blocks(ws)
  }

  ghost predicate EngineOK(a: Store, e: Engine) {
    && Inv(e.pool) && !e.pool.steal && Wal.AllFit(e.log)
    && Uncommitted(e.log) == a.batch
    && View(e.pool) == CurrentImages(a)
    && DirtyWithin(e.pool, Blocks(Committed(e.log) + a.batch))
  }

  /** How the machine's state stands for the store's. */
  ghost predicate Implements(a: Store, s: State) {
    match s
    case Up(e, durable, unsynced) =>
      && EngineOK(a, e)
      && Recoverable(CommittedImages(a), e.pool.disk, unsynced, Redo(durable))
      && Recoverable(CommittedImages(a), e.pool.disk, unsynced, Committed(e.log))
    case Flushing(e, durable, unsynced, next) =>
      && EngineOK(a, e) && a.batch == [] && Redo(durable) == Committed(e.log)
      && Recoverable(CommittedImages(a), e.pool.disk, unsynced, Redo(durable))
    case Down(disk, durable) =>
      && |disk| <= NO_BLOCK && a.batch == []
      && Recoverable(CommittedImages(a), disk, {}, Redo(durable))
    case Reopening(disk, durable, unsynced, done, synced) =>
      && |disk| <= NO_BLOCK && a.batch == [] && done <= |Redo(durable)|
      && Recoverable(CommittedImages(a), disk, unsynced, Redo(durable))
      && Apply(disk, Redo(durable)[done..]) == CommittedImages(a)
      && (synced ==> unsynced == {})
  }

  /** A change confined to blocks that the redo overwrites, such as a flush or a crash makes. */
  lemma RecoverableOver(images: seq<Image>, disk: seq<Image>, unsynced: set<nat>, ws: seq<PageSet>,
                        disk': seq<Image>, unsynced': set<nat>)
    requires Recoverable(images, disk, unsynced, ws) && unsynced' <= Blocks(ws) && |disk'| == |disk|
    requires forall b :: 0 <= b < |disk| ==> b in Blocks(ws) || disk'[b] == disk[b]
    ensures Recoverable(images, disk', unsynced', ws)
  {
    ApplyOver(disk', disk, ws);
  }

  // ---------------------------------------------------------------- the steps

  lemma ViewAfterWrite(a: Store, p: Pool, q: Pool, b: nat, page: Page)
    requires View(p) == CurrentImages(a) && ViewUpdated(p, q, b, page)
    ensures View(q) == CurrentImages(a.(batch := a.batch + [PageSet(b, page)]))
  {
    var w := PageSet(b, page);
    ApplyAppend(CommittedImages(a), a.batch, [w]);
    ApplyOne(CurrentImages(a), w);
    assert |View(p)| == |p.disk|;
    forall c | 0 <= c < |p.disk| ensures View(q)[c] == Apply(CurrentImages(a), [w])[c] {
      assert View(p)[c] == Logical(p, c);
    }
  }

  lemma SameViewIsEqual(p: Pool, q: Pool)
    requires SameView(p, q)
    ensures View(p) == View(q)
  {
  }

  /** What a successful write adds to the log and to the blocks that may be flushed. */
  lemma LoggedWrite(log: seq<WalRecord>, batch: seq<PageSet>, b: nat, page: Page)
    requires Wal.AllFit(log) && HasRoom(log) && b <= NO_BLOCK && Uncommitted(log) == batch
    ensures var log' := log + [PageRecord(log, b, page)]; var batch' := batch + [PageSet(b, page)];
      && Wal.AllFit(log') && Committed(log') == Committed(log) && Uncommitted(log') == batch'
      && Blocks(Committed(log') + batch') == Blocks(Committed(log) + batch) + {b}
  {
    ReplayedAppend(log, PageRecord(log, b, page));
    BlocksGrow(Committed(log) + batch, PageSet(b, page));
    assert Committed(log) + (batch + [PageSet(b, page)]) == Committed(log) + batch + [PageSet(b, page)];
  }

  lemma WriteOkKeeps(a: Store, e: Engine, b: nat, data: seq<byte>)
    requires EngineOK(a, e) && HasRoom(e.log) && WritePage(e, b, data).1.Ok?
    ensures |data| == PAGE_SIZE && EngineOK(a.(batch := a.batch + [PageSet(b, data)]), WritePage(e, b, data).0)
    ensures Committed(WritePage(e, b, data).0.log) == Committed(e.log)
  {
    WritePageOK(e, b, data);
    WritePageDirty(e, b, data, Blocks(Committed(e.log) + a.batch));
    LoggedWrite(e.log, a.batch, b, data);
    ViewAfterWrite(a, e.pool, WritePage(e, b, data).0.pool, b, data);
  }

  lemma WriteErrKeeps(a: Store, e: Engine, b: nat, data: seq<byte>)
    requires EngineOK(a, e) && WritePage(e, b, data).1.Err?
    ensures EngineOK(a, WritePage(e, b, data).0) && WritePage(e, b, data).0.log == e.log
  {
    WritePageOK(e, b, data);
    WritePageDirty(e, b, data, Blocks(Committed(e.log) + a.batch));
    SameViewIsEqual(e.pool, WritePage(e, b, data).0.pool);
  }

  lemma WriteKeeps(a: Store, e: Engine, b: nat, data: seq<byte>)
    requires EngineOK(a, e) && HasRoom(e.log)
    ensures WritePage(e, b, data).1.Err? ==> EngineOK(a, WritePage(e, b, data).0)
    ensures WritePage(e, b, data).1.Ok? ==>
      |data| == PAGE_SIZE && EngineOK(a.(batch := a.batch + [PageSet(b, data)]), WritePage(e, b, data).0)
    ensures Committed(WritePage(e, b, data).0.log) == Committed(e.log) && WritePage(e, b, data).0.pool.disk == e.pool.disk
  {
    if WritePage(e, b, data).1.Ok? {
      WriteOkKeeps(a, e, b, data);
    } else {
      WriteErrKeeps(a, e, b, data);
    }
    WritePageOK(e, b, data);
  }

  lemma BlocksGrow(ws: seq<PageSet>, w: PageSet)
    ensures Blocks(ws + [w]) == Blocks(ws) + {w.block}
  {
    var all := ws + [w];
    assert all[|ws|] == w;
    assert forall i :: 0 <= i < |ws| ==> all[i] == ws[i];
  }

  lemma ReadKeeps(a: Store, e: Engine, b: nat)
    requires EngineOK(a, e)
    ensures EngineOK(a, e.(pool := Fetch(e.pool, b).0)) && Fetch(e.pool, b).0.disk == e.pool.disk
  {
    FetchOK(e.pool, b);
    PinDirty(e.pool, b, Blocks(Committed(e.log) + a.batch));
    SameViewIsEqual(e.pool, Fetch(e.pool, b).0);
  }

  /** What the log means once its commit record is written. */
  lemma CommitMeaning(log: seq<WalRecord>)
    requires Wal.AllFit(log) && HasRoom(log)
    ensures Wal.AllFit(LogWithCommit(log))
    ensures Committed(LogWithCommit(log)) == Committed(log) + Uncommitted(log) && Uncommitted(LogWithCommit(log)) == []
    ensures Redo(Wal.LogBytes(LogWithCommit(log))) == Committed(LogWithCommit(log))
  {
    ReplayedAppend(log, CommitRecord(log));
    Wal.IntactLog(LogWithCommit(log));
  }

  /** A commit adds 29 bytes to the log: the number of records before it, kind 2, block 0 and no payload. */
  lemma CommitBytes(log: seq<WalRecord>, added: seq<byte>)
    requires Wal.LogBytes(LogWithCommit(log)) == Wal.LogBytes(log) + added
    ensures |added| == 29 && HoldsNumber(added, 4, 8, |log|) && added[12] == 2 && HoldsNumber(added, 13, 8, 0) && HoldsNumber(added, 21, 4, 0)
  {
    Framing.ConcatAppend(Encoded, log, [CommitRecord(log)]);
    Framing.ConcatSingle(Encoded, CommitRecord(log));
    var bytes := Wal.LogBytes(log);
    assert added == (bytes + added)[|bytes|..] == (bytes + Encoded(CommitRecord(log)))[|bytes|..] == Encoded(CommitRecord(log));
    RecordLayout(CommitRecord(log));
  }

  lemma {:induction false} BlocksOfPrefix(ws: seq<PageSet>, vs: seq<PageSet>)
    ensures Blocks(ws) <= Blocks(ws + vs)
  {
    assert forall i :: 0 <= i < |ws| ==> (ws + vs)[i] == ws[i];
  }

  lemma PersistKeeps(a: Store, s: State)
    requires s.Up? && Implements(a, s) && HasRoom(s.engine.log)
    ensures var log := LogWithCommit(s.engine.log);
      Implements(Store(a.original, a.persisted + a.batch, []), Flushing(s.engine.(log := log), Wal.LogBytes(log), s.unsynced, 0))
  {
    var e := s.engine;
    var ws := Committed(e.log);
    CommitMeaning(e.log);
    ApplyAppend(a.original, a.persisted, a.batch);
    ApplyAppend(e.pool.disk, ws, a.batch);
    BlocksOfPrefix(ws, a.batch);
    assert ws + a.batch + [] == ws + a.batch;
  }

  /** A commit that could not be persisted leaves the log file redoing what it did before. */
  lemma CutMeaning(log: seq<WalRecord>, k: nat)
    requires Wal.AllFit(log) && HasRoom(log)
    requires |Wal.LogBytes(log[..CommitEnd(log)])| <= k < |Wal.LogBytes(LogWithCommit(log))|
    ensures Redo(Wal.LogBytes(LogWithCommit(log))[..k]) == Committed(log)
  {
    var recs, n := LogWithCommit(log), CommitEnd(log);
    assert Wal.AllFit(recs);
    Wal.TornLog(recs, k);
    var j := Wal.WhollyBefore(recs, k);
    Wal.WhollyBeforeMeaning(recs, k, n);
    Wal.WhollyBeforeMeaning(recs, k, |recs|);
    assert recs[..n] == log[..n] && recs[..|recs|] == recs;
    assert recs[..j] == log[..j];
    TailIsUncommitted(log, j);
  }

  lemma {:induction false} ReplayedConcat(a: seq<WalRecord>, b: seq<WalRecord>)
    ensures Replayed(a + b) ==
      if CommitEnd(b) == 0 then Replay(Committed(a), Uncommitted(a) + Uncommitted(b))
      else Replay(Committed(a) + Uncommitted(a) + Committed(b), Uncommitted(b))
    ensures CommitEnd(b) == 0 ==> Committed(b) == []
  {
    if b == [] {
      assert a + b == a;
    } else {
      var init, rec := b[..|b| - 1], b[|b| - 1];
      ReplayedConcat(a, init);
      assert a + b == (a + init) + [rec];
      ReplayedAppend(a + init, rec);
    }
  }

  /** What is read from a file overwritten up to byte `k`: the new records before it, then whatever can be read of the rest. */
  lemma OverwrittenFile(log: seq<WalRecord>, old_: seq<byte>, k: nat, kept: nat)
    requires Wal.AllFit(log) && HasRoom(log) && kept <= |log|
    requires var bytes := Wal.LogBytes(LogWithCommit(log)); |Wal.LogBytes(log[..kept])| <= k <= |bytes| && k <= |old_|
    ensures var file, start := Overwritten(Wal.LogBytes(LogWithCommit(log)), old_, k), |Wal.LogBytes(log[..kept])|;
      Wal.Intact(file) == log[..kept] + Wal.Intact(file[start..])
  {
    var recs := LogWithCommit(log);
    var file, head := Overwritten(Wal.LogBytes(recs), old_, k), Wal.LogBytes(log[..kept]);
    assert recs[..kept] == log[..kept];
    Wal.PrefixBytes(recs, kept);
    assert file == head + file[|head|..];
    Wal.IntactThen(log[..kept], file[|head|..]);
  }

  /**
    A log file overwritten up to any byte over an old one redoes what it did before if and only if
    what is read of the rest is harmless; otherwise an old commit record makes part of the open
    batch durable.
  */
  lemma TornOverOldExactly(log: seq<WalRecord>, old_: seq<byte>, k: nat, kept: nat)
    requires Wal.AllFit(log) && HasRoom(log) && CommitEnd(log) <= kept <= |log|
    requires var bytes := Wal.LogBytes(LogWithCommit(log)); |Wal.LogBytes(log[..kept])| <= k <= |bytes| && k <= |old_|
    ensures var file := Overwritten(Wal.LogBytes(LogWithCommit(log)), old_, k);
      var tail := Wal.Intact(file[|Wal.LogBytes(log[..kept])|..]);
      && (Redo(file) == Committed(log) <==> TailIsHarmless(log, kept, tail))
      && (!TailIsHarmless(log, kept, tail) ==> Redo(file) == Committed(log) + Uncommitted(log[..kept]) + Committed(tail))
  {
    OverwrittenFile(log, old_, k, kept);
    var file := Overwritten(Wal.LogBytes(LogWithCommit(log)), old_, k);
    TailExactly(log, kept, Wal.Intact(file[|Wal.LogBytes(log[..kept])|..]));
  }

  lemma TailExactly(log: seq<WalRecord>, kept: nat, tail: seq<WalRecord>)
    requires CommitEnd(log) <= kept <= |log|
    ensures Committed(log[..kept] + tail) == Committed(log) <==> TailIsHarmless(log, kept, tail)
    ensures !TailIsHarmless(log, kept, tail) ==> Committed(log[..kept] + tail) == Committed(log) + Uncommitted(log[..kept]) + Committed(tail)
  {
    TailIsUncommitted(log, kept);
    ReplayedConcat(log[..kept], tail);
    var c, u, o := Committed(log), Uncommitted(log[..kept]), Committed(tail);
    assert |c + u + o| == |c| + |u| + |o|;
  }

  /**
    A concrete such file: a batch of two pages was being written over an old batch of one, and its
    second record did not make it. The old commit record takes effect: half of the batch is durable.
  */
  lemma OldCommitTakesNewPage(page: Page, more: Page, other: Page)
    ensures var first := PageRecord([], 7, page); var log := [first, PageRecord([first], 8, more)];
      var was := PageRecord([], 7, other); var olds := [was, CommitRecord([was])];
      var k, bytes := |Wal.LogBytes([first])|, Wal.LogBytes(LogWithCommit(log));
      && Committed(log) == [] && k <= |bytes| && k <= |Wal.LogBytes(olds)|
      && Redo(Overwritten(bytes, Wal.LogBytes(olds), k)) == [PageSet(7, page)]
  {
    var first := PageRecord([], 7, page);
    var log := [first, PageRecord([first], 8, more)];
    var was := PageRecord([], 7, other);
    var olds := [was, CommitRecord([was])];
    var file := [first, olds[1]];
    Wal.PrefixBytes(LogWithCommit(log), 1);
    assert LogWithCommit(log)[..1] == [first];
    Framing.ConcatAppend(Encoded, [was], [olds[1]]);
    Framing.ConcatAppend(Encoded, [first], [olds[1]]);
    assert olds == [was] + [olds[1]] && file == [first] + [olds[1]];
    Framing.ConcatSingle(Encoded, was);
    Framing.ConcatSingle(Encoded, first);
    assert Overwritten(Wal.LogBytes(LogWithCommit(log)), Wal.LogBytes(olds), |Wal.LogBytes([first])|) == Wal.LogBytes(file);
    Wal.IntactLog(file);
    assert file[..1] == [first] && [first][..0] == [] && log[..1] == [first];
    assert Replayed([first]).pending == [PageSet(7, page)];
  }

  lemma FlushOneKeeps(a: Store, s: State)
    requires s.Flushing? && Implements(a, s) && s.next < |s.engine.pool.frames| && FlushFrame(s.engine.pool, s.next).Ok?
    ensures Implements(a, FlushedOne(s))
  {
    var p, f := s.engine.pool, s.engine.pool.frames[s.next];
    var ws, q := Redo(s.durable), FlushFrame(p, s.next).value;
    assert ws + [] == ws;
    FlushFrameOK(p, s.next);
    FlushDirty(p, s.next, Blocks(ws));
    SameViewIsEqual(p, q);
    if NeedsFlush(f) {
      assert FrameOK(f, p.disk);
      RecoverableOver(CommittedImages(a), p.disk, s.unsynced, ws, q.disk, s.unsynced + {f.blockId});
    }
  }

  lemma CrashKeeps(a: Store, s: State, garbage: map<nat, Image>)
    requires Implements(a, s)
    ensures Implements(a.(batch := []), Down(Damaged(DiskOf(s), UnsyncedOf(s), garbage), s.durable))
  {
    var u := UnsyncedOf(s);
    assert Recoverable(CommittedImages(a), DiskOf(s), u, Redo(s.durable));
    RecoverableOver(CommittedImages(a), DiskOf(s), u, Redo(s.durable), Damaged(DiskOf(s), u, garbage), {});
  }

  lemma NothingToRedo()
    ensures Redo([]) == []
  {
    Wal.IntactLog([]);
  }

  /** An engine that has just been opened shows exactly what is committed. */
  lemma FreshEngine(a: Store, disk: seq<Image>, capacity: nat)
    requires a.batch == [] && disk == CommittedImages(a) && |disk| <= NO_BLOCK && capacity > 0
    ensures EngineOK(a, Engine(EmptyPool(disk, capacity), []))
    ensures Recoverable(disk, disk, {}, Committed([]))
  {
    assert View(EmptyPool(disk, capacity)) == disk;
  }

  /** Redoing one write leaves the rest to redo. */
  lemma RedoOne(disk: seq<Image>, ws: seq<PageSet>, done: nat)
    requires done < |ws|
    ensures var w := ws[done]; var disk' := if w.block < |disk| then disk[w.block := Ok(w.page)] else disk;
      Apply(disk', ws[done + 1..]) == Apply(disk, ws[done..])
  {
    assert ws[done..] == [ws[done]] + ws[done + 1..];
    ApplyAppend(disk, [ws[done]], ws[done + 1..]);
    ApplyOne(disk, ws[done]);
  }

  lemma RecoverOneKeeps(a: Store, s: State)
    requires s.Reopening? && Implements(a, s) && s.done < |Redo(s.durable)|
    ensures Implements(a, RecoveredOne(s, Redo(s.durable)[s.done]))
  {
    var ws := Redo(s.durable);
    var w := ws[s.done];
    RedoOne(s.disk, ws, s.done);
    if w.block < |s.disk| {
      RecoverableOver(CommittedImages(a), s.disk, s.unsynced, ws, s.disk[w.block := Ok(w.page)], s.unsynced + {w.block});
    }
  }

  lemma OpenedKeeps(a: Store, s: State, capacity: nat, lost: bool)
    requires s.Reopening? && Implements(a, s) && s.done == |Redo(s.durable)| && s.synced && capacity > 0
    ensures Implements(a, Up(Engine(EmptyPool(s.disk, capacity), []), if lost then s.durable else [], {}))
  {
    assert Redo(s.durable)[s.done..] == [];
    FreshEngine(a, s.disk, capacity);
    NothingToRedo();
  }

  lemma ReopenKeeps(a: Store, s: State, capacity: nat)
    requires s.Down? && Implements(a, s) && capacity > 0
    ensures s.durable == [] ==> Implements(a, Up(Engine(EmptyPool(s.disk, capacity), []), [], {}))
    ensures Implements(a, Reopening(s.disk, s.durable, {}, 0, false))
  {
    var ws := Redo(s.durable);
    assert ws[0..] == ws;
    if s.durable == [] {
      NothingToRedo();
      FreshEngine(a, s.disk, capacity);
    }
  }

  /** Every step of the engine, crashes included, is a step of the store. */
  lemma StepImplements(a: Store, s: State, step: Step, s': State)
    requires Implements(a, s) && Next(s, step, s')
    ensures Implements(Meaning(a, s, step), s')
  {
    match step
    case Write(b, data) => WriteKeeps(a, s.engine, b, data);
    case Read(b) => ReadKeeps(a, s.engine, b);
    case Persist => PersistKeeps(a, s);
    case PersistFails(cut) =>
      if cut.Some? {
        CutMeaning(s.engine.log, cut.value);
      }
    case PersistTorn(k, kept) =>
      TornOverOldExactly(s.engine.log, s.durable, k, kept);
    case FlushOne => FlushOneKeeps(a, s);
    case FlushFails =>
    case FlushDone =>
    case Crash(garbage) => CrashKeeps(a, s, garbage);
    case Reopen(capacity) => ReopenKeeps(a, s, capacity);
    case RecoverOne => RecoverOneKeeps(a, s);
    case RecoverSync =>
    case TruncateLog(capacity, lost) => OpenedKeeps(a, s, capacity, lost);
  }

  // ---------------------------------------------------------------- every run

  ghost predicate IsRun(states: seq<State>, steps: seq<Step>) {
    && |states| == |steps| + 1
    && forall k :: 0 <= k < |steps| ==> Next(states[k], steps[k], states[k + 1])
  }

  /** A new database: nothing cached, nothing logged. */
  ghost predicate Created(s: State) {
    && s.Up? && s.durable == [] && s.unsynced == {} && s.engine.log == []
    && |s.engine.pool.disk| <= NO_BLOCK
    && exists capacity: nat :: capacity > 0 && s.engine.pool == EmptyPool(s.engine.pool.disk, capacity)
  }

  /** The store after the first `n` steps. */
  ghost function StoreAfter(states: seq<State>, steps: seq<Step>, n: nat): (a: Store)
    requires |states| == |steps| + 1 && n <= |steps|
    ensures a.original == DiskOf(states[0])
  {
    if n == 0 then Store(DiskOf(states[0]), [], [])
    else Meaning(StoreAfter(states, steps, n - 1), states[n - 1], steps[n - 1])
  }

  lemma {:induction false} RunImplements(states: seq<State>, steps: seq<Step>, n: nat)
    requires IsRun(states, steps) && Created(states[0]) && n <= |steps|
    ensures Implements(StoreAfter(states, steps, n), states[n])
  {
    if n == 0 {
      var s := states[0];
      NothingToRedo();
      FreshEngine(Store(s.engine.pool.disk, [], []), s.engine.pool.disk, s.engine.pool.capacity);
    } else {
      RunImplements(states, steps, n - 1);
      StepImplements(StoreAfter(states, steps, n - 1), states[n - 1], steps[n - 1], states[n]);
    }
  }

  /** What a block must hold: its last page from a committed batch, else what it held at the start. */
  ghost function Expected(original: seq<Image>, persisted: seq<PageSet>, b: nat): Image
    requires b < |original|
  {
    match LastWrite(persisted, b) case Some(page) => Ok(page) case None => original[b]
  }

  lemma OpenedEngine(a: Store, s: State, step: Step, s': State)
    requires Implements(a, s) && Next(s, step, s') && (step.Reopen? || step.TruncateLog?) && s'.Up?
    ensures EngineOK(a, s'.engine) && a.batch == [] && s'.engine.pool.frames == []
  {
    StepImplements(a, s, step, s');
  }

  lemma OpenedShows(a: Store, p: Pool, b: nat)
    requires View(p) == CurrentImages(a) && a.batch == [] && p.frames == [] && b < |a.original|
    ensures |p.disk| == |a.original| && Logical(p, b) == p.disk[b] == Expected(a.original, a.persisted, b)
  {
    assert |View(p)| == |p.disk|;
    assert View(p)[b] == Logical(p, b);
    ApplyAt(a.original, a.persisted, b);
  }

  /**
    After any run, crashed any number of times and anywhere, an engine that has just been
    reopened shows in every block its last page from a persisted batch, else its original
    content; no page of an unpersisted batch survives.
  */
  lemma ReopenedShowsCommitted(states: seq<State>, steps: seq<Step>, n: nat, b: nat)
    requires IsRun(states, steps) && Created(states[0]) && n < |steps|
    requires (steps[n].Reopen? || steps[n].TruncateLog?) && states[n + 1].Up? && b < |DiskOf(states[0])|
    ensures var p := states[n + 1].engine.pool; var persisted := StoreAfter(states, steps, n).persisted;
      && |p.disk| == |DiskOf(states[0])|
      && Logical(p, b) == p.disk[b] == Expected(DiskOf(states[0]), persisted, b)
  {
    RunImplements(states, steps, n);
    var a := StoreAfter(states, steps, n);
    OpenedEngine(a, states[n], steps[n], states[n + 1]);
    OpenedShows(a, states[n + 1].engine.pool, b);
  }

  /** Between crashes a successful read returns the last write to the block, of this batch or a committed one. */
  lemma ReadsAreCurrent(states: seq<State>, steps: seq<Step>, n: nat, b: nat)
    requires IsRun(states, steps) && Created(states[0]) && n <= |steps| && states[n].Up? && b < |DiskOf(states[0])|
    requires LruInRange(states[n].engine.pool) && Fetch(states[n].engine.pool, b).1.Ok?
    ensures var a := StoreAfter(states, steps, n);
      Ok(Fetch(states[n].engine.pool, b).1.value) == Expected(DiskOf(states[0]), a.persisted + a.batch, b)
  {
    RunImplements(states, steps, n);
    var a, p := StoreAfter(states, steps, n), states[n].engine.pool;
    FetchOK(p, b);
    assert |View(p)| == |p.disk|;
    assert View(p)[b] == Logical(p, b);
    ApplyAppend(a.original, a.persisted, a.batch);
    ApplyAt(a.original, a.persisted + a.batch, b);
  }

  lemma DiskKept(a: Store, s: State, step: Step, s': State)
    requires Implements(a, s) && Next(s, step, s') && !step.FlushOne? && !step.RecoverOne? && !step.Crash?
    ensures DiskOf(s') == DiskOf(s)
  {
    match step
    case Write(b, data) => WriteKeeps(a, s.engine, b, data);
    case Read(b) => ReadKeeps(a, s.engine, b);
    case _ =>
  }

  /** Outside a commit's flush and recovery the device is never written, so it never holds an uncommitted page. */
  lemma OnlyCommitsWrite(states: seq<State>, steps: seq<Step>, n: nat)
    requires IsRun(states, steps) && Created(states[0]) && n < |steps|
    requires !steps[n].FlushOne? && !steps[n].RecoverOne? && !steps[n].Crash?
    ensures DiskOf(states[n + 1]) == DiskOf(states[n])
  {
    RunImplements(states, steps, n);
    DiskKept(StoreAfter(states, steps, n), states[n], steps[n], states[n + 1]);
  }
}
