/**
  The storage engine and its crashes as a state machine. Every device write is a step of its
  own, so a crash can fall between any two of them; at a crash each block written since the
  last sync may hold anything at all. Beside it stands the store it must implement: batches
  that take effect all at once.
*/
module CrashModel {
  import opened Common
  import opened PageCodec
  import opened PoolModel
  import opened WalCodec
  import Wal

  // ---------------------------------------------------------------- page writes and the log

  datatype PageSet = PageSet(block: nat, page: Page)

  /** The page write a record carries; recovery passes over payloads that are not a page. */
  function WriteOf(rec: WalRecord): Option<PageSet> {
    if rec.kind == PageWrite && |rec.payload| == PAGE_SIZE then Some(PageSet(rec.blockId, rec.payload)) else None
  }

  datatype Replay = Replay(applied: seq<PageSet>, pending: seq<PageSet>)

  /** What recovery has done with one more record: buffer a page write, or apply the buffer at a commit. */
  function ReplayOne(r: Replay, rec: WalRecord): Replay {
    if rec.kind == PageWrite then
      match WriteOf(rec) case Some(w) => r.(pending := r.pending + [w]) case None => r
    else Replay(r.applied + r.pending, [])
  }

  function Replayed(recs: seq<WalRecord>): Replay {
    if recs == [] then Replay([], [])
    else ReplayOne(Replayed(recs[..|recs| - 1]), recs[|recs| - 1])
  }

  /** The page writes that a commit record follows. */
  function Committed(recs: seq<WalRecord>): seq<PageSet> {
    Replayed(recs).applied
  }

  function Uncommitted(recs: seq<WalRecord>): seq<PageSet> {
    Replayed(recs).pending
  }

  function Apply(disk: seq<Image>, ws: seq<PageSet>): (r: seq<Image>)
    ensures |r| == |disk|
  {
    if ws == [] then disk
    else
      var r := Apply(disk, ws[..|ws| - 1]);
      var w := ws[|ws| - 1];
      if w.block < |r| then r[w.block := Ok(w.page)] else r
  }

  /** How many records end with the last commit. */
  function CommitEnd(recs: seq<WalRecord>): (k: nat)
    ensures k <= |recs|
  {
    if recs == [] then 0
    else if recs[|recs| - 1].kind != PageWrite then |recs|
    else CommitEnd(recs[..|recs| - 1])
  }

  // ---------------------------------------------------------------- the engine's own steps

  datatype Engine = Engine(pool: Pool, log: seq<WalRecord>)

  function PageRecord(log: seq<WalRecord>, b: nat, page: Page): WalRecord {
    WalRecord(|log|, PageWrite, b, page)
  }

  function CommitRecord(log: seq<WalRecord>): WalRecord {
    WalRecord(|log|, Commit, 0, [])
  }

  /** `write_page`: make room, log the image, then stage it; a failed write leaves no record. */
  function WritePage(e: Engine, b: nat, data: seq<byte>): (Engine, Result<(), StorageError>)
    requires LruInRange(e.pool)
  {
    if |data| != PAGE_SIZE then (e, Err(ShortWrite(|data|, PAGE_SIZE)))
    else if b >= |e.pool.disk| then (e, Err(OutOfBounds(b, |e.pool.disk|)))
    else
      match Reserve(e.pool, b)
      case (pool, Err(err)) => (e.(pool := pool), Err(err))
      case (pool, Ok(_)) =>
        match FetchAndSet(pool, b, data)
        case (pool', Ok(_)) => (Engine(Unpin(pool', b), e.log + [PageRecord(e.log, b, data)]), Ok(()))
        case (pool', Err(err)) => (e.(pool := pool'), Err(err))
  }

  // ---------------------------------------------------------------- the machine

  datatype State =
    /** Running between operations. */
    | Up(engine: Engine, durable: seq<byte>, unsynced: set<nat>)
    /** Inside `commit_durable`, after the log was persisted, about to flush frame `next`. */
    | Flushing(engine: Engine, durable: seq<byte>, unsynced: set<nat>, next: nat)
    /** Crashed: only the device and the log file are left. */
    | Down(disk: seq<Image>, durable: seq<byte>)
    /** Inside `open`: the first `done` committed writes are back on the device. */
    | Reopening(disk: seq<Image>, durable: seq<byte>, unsynced: set<nat>, done: nat, synced: bool)

  datatype Step =
    | Write(b: nat, data: seq<byte>)
    | Read(b: nat)
    /** `persist` succeeded: the log with its commit record is durable. */
    | Persist
    /** `persist` failed; the log file is unchanged, or cut inside what the commit would have added. */
    | PersistFails(cut: Option<nat>)
    /**
      `persist` failed or power went while it was overwriting a longer log file whose truncation was
      lost: the first `k` bytes, which hold the first `kept` records, are new and the rest is old.
    */
    | PersistTorn(k: nat, kept: nat)
    | FlushOne
    | FlushFails
    | FlushDone
    /** Power loss; `garbage` says what the blocks not yet synced hold. */
    | Crash(garbage: map<nat, Image>)
    | Reopen(capacity: nat)
    | RecoverOne
    | RecoverSync
    /** Nothing syncs the truncation: when it is `lost`, a crash before the next persist finds the old log again. */
    | TruncateLog(capacity: nat, lost: bool)

  /** The disk after a crash: blocks written since the last sync hold anything. */
  function Damaged(disk: seq<Image>, unsynced: set<nat>, garbage: map<nat, Image>): (r: seq<Image>)
    ensures |r| == |disk|
    ensures forall b :: 0 <= b < |disk| ==> r[b] == if b in unsynced && b in garbage then garbage[b] else disk[b]
  {
    seq(|disk|, b requires 0 <= b < |disk| => if b in unsynced && b in garbage then garbage[b] else disk[b])
  }

  function DiskOf(s: State): seq<Image> {
    match s
    case Up(e, _, _) => e.pool.disk
    case Flushing(e, _, _, _) => e.pool.disk
    case Down(disk, _) => disk
    case Reopening(disk, _, _, _, _) => disk
  }

  function UnsyncedOf(s: State): set<nat> {
    match s
    case Up(_, _, u) => u
    case Flushing(_, _, u, _) => u
    case Down(_, _) => {}
    case Reopening(_, _, u, _, _) => u
  }

  function EmptyPool(disk: seq<Image>, capacity: nat): Pool {
    Pool(disk, capacity, [], [], false)
  }

  /** The log as `commit_durable` hands it to `persist`. */
  function LogWithCommit(log: seq<WalRecord>): seq<WalRecord> {
    log + [CommitRecord(log)]
  }

  /** Log sequence numbers are 64 bits wide. */
  predicate HasRoom(log: seq<WalRecord>) {
    |log| < 0x1_0000_0000_0000_0000
  }

  /** The writes recovery will put back, read off the log file. */
  ghost function Redo(durable: seq<byte>): seq<PageSet> {
    Committed(Wal.Intact(durable))
  }

  /** `s'` follows from `s` by `step`. */
  ghost predicate Next(s: State, step: Step, s': State) {
    match step
    case Write(b, data) =>
      && s.Up? && HasRoom(s.engine.log) && LruInRange(s.engine.pool)
      && s' == Up(WritePage(s.engine, b, data).0, s.durable, s.unsynced)
    case Read(b) =>
      && s.Up? && LruInRange(s.engine.pool)
      && s' == Up(s.engine.(pool := Fetch(s.engine.pool, b).0), s.durable, s.unsynced)
    case Persist =>
      && s.Up? && HasRoom(s.engine.log)
      && var log := LogWithCommit(s.engine.log);
      s' == Flushing(s.engine.(log := log), Wal.LogBytes(log), s.unsynced, 0)
    case PersistFails(cut) =>
      && s.Up? && HasRoom(s.engine.log)
      && PersistFailed(s, cut, s')
    case PersistTorn(k, kept) =>
      && s.Up? && HasRoom(s.engine.log)
      && PersistTornOver(s, k, kept, s')
    case FlushOne =>
      && s.Flushing? && s.next < |s.engine.pool.frames| && FlushFrame(s.engine.pool, s.next).Ok?
      && s' == FlushedOne(s)
    case FlushFails =>
      s.Flushing? && s' == Up(s.engine, s.durable, s.unsynced)
    case FlushDone =>
      s.Flushing? && s.next == |s.engine.pool.frames| && s' == Up(s.engine, s.durable, {})
    case Crash(garbage) =>
      !s.Down? && s' == Down(Damaged(DiskOf(s), UnsyncedOf(s), garbage), s.durable)
    case Reopen(capacity) =>
      && s.Down? && capacity > 0
      && s' == (if s.durable == [] then Up(Engine(EmptyPool(s.disk, capacity), []), [], {})
                else Reopening(s.disk, s.durable, {}, 0, false))
    case RecoverOne =>
      && s.Reopening? && s.done < |Redo(s.durable)| && s' == RecoveredOne(s, Redo(s.durable)[s.done])
    case RecoverSync =>
      s.Reopening? && s.done == |Redo(s.durable)| && s' == Reopening(s.disk, s.durable, {}, s.done, true)
    case TruncateLog(capacity, lost) =>
      && s.Reopening? && s.done == |Redo(s.durable)| && s.synced && capacity > 0
      && s' == Up(Engine(EmptyPool(s.disk, capacity), []), if lost then s.durable else [], {})
  }

  /** The commit record is withdrawn; the log file is as before, or cut somewhere in what this commit would have added. */
  ghost predicate PersistFailed(s: State, cut: Option<nat>, s': State)
    requires s.Up?
  {
    match cut
    case None => s' == s
    case Some(k) =>
      var bytes := Wal.LogBytes(LogWithCommit(s.engine.log));
      && |Wal.LogBytes(s.engine.log[..CommitEnd(s.engine.log)])| <= k < |bytes|
      && s' == Up(s.engine, bytes[..k], s.unsynced)
  }

  /**
    What is read after the first `kept` records adds nothing: no commit record is among it, or
    nothing is pending for one and it brings nothing of its own.
  */
  predicate TailIsHarmless(log: seq<WalRecord>, kept: nat, tail: seq<WalRecord>)
    requires kept <= |log|
  {
    CommitEnd(tail) == 0 || (Uncommitted(log[..kept]) == [] && Committed(tail) == [])
  }

  /** A file whose first `k` bytes were overwritten with new ones. */
  function Overwritten(new_: seq<byte>, old_: seq<byte>, k: nat): seq<byte>
    requires k <= |new_| && k <= |old_|
  {
    new_[..k] + old_[k..]
  }

  ghost predicate PersistTornOver(s: State, k: nat, kept: nat, s': State)
    requires s.Up?
  {
    var log, bytes := s.engine.log, Wal.LogBytes(LogWithCommit(s.engine.log));
    && CommitEnd(log) <= kept <= |log| && |Wal.LogBytes(log[..kept])| <= k <= |bytes| && k <= |s.durable|
    && var file := Overwritten(bytes, s.durable, k);
    && TailIsHarmless(log, kept, Wal.Intact(file[|Wal.LogBytes(log[..kept])|..]))
    && s' == Up(s.engine, file, s.unsynced)
  }

  function FlushedOne(s: State): State
    requires s.Flushing? && s.next < |s.engine.pool.frames| && FlushFrame(s.engine.pool, s.next).Ok?
  {
    var f := s.engine.pool.frames[s.next];
    Flushing(s.engine.(pool := FlushFrame(s.engine.pool, s.next).value), s.durable,
             if NeedsFlush(f) then s.unsynced + {f.blockId} else s.unsynced, s.next + 1)
  }

  /** A committed write goes straight to the device; a write the device refuses is passed over. */
  function RecoveredOne(s: State, w: PageSet): State
    requires s.Reopening?
  {
    match WriteBlock(s.disk, w.block, w.page)
    case Ok(disk) => Reopening(disk, s.durable, s.unsynced + {w.block}, s.done + 1, false)
    case Err(_) => Reopening(s.disk, s.durable, s.unsynced, s.done + 1, false)
  }

  // ---------------------------------------------------------------- the store it implements

  /** A store of atomic batches: what it started from, the writes of every committed batch, the open batch. */
  datatype Store = Store(original: seq<Image>, persisted: seq<PageSet>, batch: seq<PageSet>)

  function CommittedImages(a: Store): seq<Image> {
    Apply(a.original, a.persisted)
  }

  /** What the open batch would read. */
  function CurrentImages(a: Store): seq<Image> {
    Apply(CommittedImages(a), a.batch)
  }

  /** What each step means for that store. */
  ghost function Meaning(a: Store, s: State, step: Step): Store {
    match step
    case Write(b, data) =>
      if s.Up? && LruInRange(s.engine.pool) && |data| == PAGE_SIZE && WritePage(s.engine, b, data).1.Ok?
      then a.(batch := a.batch + [PageSet(b, data)]) else a
    case Persist => Store(a.original, a.persisted + a.batch, [])
    case Crash(_) => a.(batch := [])
    case _ => a
  }
}
