/** What the pool remembers of a run: pins are counted, writes are marked, and the oldest frame goes first. */
module PoolHistory {
  import opened Common
  import opened PageCodec
  import opened PoolModel
  import opened PoolProofs

  // ---------------------------------------------------------------- pins and marks of a block

  function PinsIn(f: Frame): nat {
    if f.state.Pinned? then f.state.pins else 0
  }

  /** How often block `b` is pinned. */
  ghost function PinsOf(p: Pool, b: nat): nat {
    match Find(p.frames, b) case Some(i) => PinsIn(p.frames[i]) case None => 0
  }

  /** Block `b` is marked to be written back. */
  ghost predicate Marked(p: Pool, b: nat) {
    match Find(p.frames, b) case Some(i) => p.frames[i].dirtyIntent case None => false
  }

  lemma FrameOf(p: Pool, b: nat)
    requires Inv(p) && b < |p.disk|
    ensures forall i :: 0 <= i < |p.frames| && p.frames[i].blockId == b ==>
      Find(p.frames, b) == Some(i) && PinsOf(p, b) == PinsIn(p.frames[i]) && (Marked(p, b) <==> p.frames[i].dirtyIntent)
    ensures (forall i :: 0 <= i < |p.frames| ==> p.frames[i].blockId != b) ==> PinsOf(p, b) == 0 && !Marked(p, b)
  {
    forall i | 0 <= i < |p.frames| && p.frames[i].blockId == b ensures Find(p.frames, b) == Some(i) {
      FindIs(p.frames, |p.disk|, i);
    }
  }

  /** The same pins and marks in both pools. */
  ghost predicate SameHold(p: Pool, q: Pool, b: nat) {
    PinsOf(q, b) == PinsOf(p, b) && (Marked(q, b) <==> Marked(p, b))
  }

  lemma EvictHolds(p: Pool, b: nat)
    requires Inv(p) && b < |p.disk|
    ensures PinsOf(Evict(p).0, b) == PinsOf(p, b) && (!p.steal ==> SameHold(p, Evict(p).0, b))
  {
    EvictOK(p);
    var q := Evict(p).0;
    FrameOf(p, b);
    FrameOf(q, b);
    assert |q.frames| == |p.frames| && forall i :: 0 <= i < |p.frames| ==> q.frames[i].blockId == p.frames[i].blockId;
    if i :| 0 <= i < |p.frames| && p.frames[i].blockId == b {
      assert FrameOK(p.frames[i], p.disk);
      assert q.frames[i] == p.frames[i] || !p.frames[i].state.Pinned?;
    }
  }

  lemma AcquireHolds(p: Pool, b: nat)
    requires Inv(p) && b < |p.disk|
    ensures PinsOf(Acquire(p).0, b) == PinsOf(p, b) && (!p.steal ==> SameHold(p, Acquire(p).0, b))
  {
    AcquireOK(p);
    if FindFree(p.frames).None? {
      if |p.frames| < p.capacity {
        var q := Acquire(p).0;
        FrameOf(p, b);
        FrameOf(q, b);
        assert forall i :: 0 <= i < |p.frames| ==> q.frames[i] == p.frames[i];
        assert q.frames[|p.frames|].blockId == NO_BLOCK;
      } else {
        EvictHolds(p, b);
      }
    }
  }

  lemma RepinHolds(p: Pool, c: nat, i: nat, b: nat)
    requires Inv(p) && b < |p.disk| && Find(p.frames, c) == Some(i)
    ensures var q := PinFrame(p, c).0; PinsOf(q, b) == (PinsOf(p, b) + if b == c then 1 else 0) && (Marked(q, b) <==> Marked(p, b))
  {
    PinFrameOK(p, c);
    var q := PinFrame(p, c).0;
    FrameOf(p, b);
    FrameOf(q, b);
    assert forall j :: 0 <= j < |p.frames| && j != i ==> q.frames[j] == p.frames[j];
    if j :| 0 <= j < |p.frames| && p.frames[j].blockId == b {
      assert q.frames[j].blockId == b;
    }
  }

  /** Pinning adds one pin to its own block and none to another. */
  lemma PinHolds(p: Pool, c: nat, b: nat)
    requires Inv(p) && b < |p.disk|
    ensures var (q, r) := PinFrame(p, c); PinsOf(q, b) == PinsOf(p, b) + if r.Ok? && b == c then 1 else 0
    ensures var (q, r) := PinFrame(p, c); !p.steal ==> (Marked(q, b) <==> Marked(p, b))
  {
    match Find(p.frames, c)
    case Some(i) => RepinHolds(p, c, i, b);
    case None =>
      PinFrameOK(p, c);
      AcquireHolds(p, b);
      AcquireOK(p);
      var (p', a) := Acquire(p);
      if a.Ok? && ReadBlock(p'.disk, c).Ok? {
        LoadedHolds(p, p', c, b, a.value, PinFrame(p, c).0);
      }
  }

  lemma LoadedHolds(p: Pool, p': Pool, c: nat, b: nat, i: nat, q: Pool)
    requires Inv(p') && Inv(q) && b < |p'.disk| == |q.disk| && i < |p'.frames| && p'.frames[i].state == Free && Find(p.frames, c).None?
    requires PinsOf(p', b) == PinsOf(p, b) && |q.frames| == |p'.frames| && q.frames == p'.frames[i := q.frames[i]]
    requires q.frames[i].blockId == c && q.frames[i].state == Pinned(1) && !q.frames[i].dirtyIntent
    ensures PinsOf(q, b) == PinsOf(p, b) + if b == c then 1 else 0
    ensures (Marked(p', b) <==> Marked(p, b)) ==> (Marked(q, b) <==> Marked(p, b))
  {
    FrameOf(p', b);
    FrameOf(q, b);
    assert FrameOK(p'.frames[i], p'.disk);
    if b == c {
      assert q.frames[i].blockId == b;
    } else if j :| 0 <= j < |p'.frames| && j != i && p'.frames[j].blockId == b {
      assert q.frames[j] == p'.frames[j];
    } else {
      assert forall j :: 0 <= j < |q.frames| ==> q.frames[j].blockId != b;
    }
  }

  lemma StoreHolds(p: Pool, i: nat, page: Page, q: Pool, b: nat)
    requires Inv(p) && Inv(q) && b < |p.disk| == |q.disk| && i < |p.frames|
    requires q == p.(frames := p.frames[i := p.frames[i].(dirtyIntent := true, page := page)])
    ensures PinsOf(q, b) == PinsOf(p, b) && (Marked(q, b) <==> Marked(p, b) || p.frames[i].blockId == b)
  {
    FrameOf(p, b);
    FrameOf(q, b);
    assert forall j :: 0 <= j < |p.frames| ==> q.frames[j].blockId == p.frames[j].blockId && q.frames[j].state == p.frames[j].state;
    if j :| 0 <= j < |p.frames| && p.frames[j].blockId == b {
      assert j != i ==> q.frames[j] == p.frames[j];
    }
  }

  lemma SetHolds(p: Pool, c: nat, page: Page, b: nat)
    requires Inv(p) && b < |p.disk|
    ensures var (q, r) := FetchAndSet(p, c, page); PinsOf(q, b) == PinsOf(p, b) + if r.Ok? && b == c then 1 else 0
    ensures var (q, r) := FetchAndSet(p, c, page); !p.steal ==> (Marked(q, b) <==> Marked(p, b) || (r.Ok? && b == c))
  {
    PinHolds(p, c, b);
    PinFrameOK(p, c);
    var (p', r) := PinFrame(p, c);
    if r.Ok? {
      SetPageOK(p', r.value, page);
      StoreHolds(p', r.value, page, FetchAndSet(p, c, page).0, b);
    }
  }

  /** Unpinning takes one pin from its own block, if it has one, and marks nothing. */
  lemma UnpinHolds(p: Pool, c: nat, b: nat)
    requires Inv(p) && b < |p.disk|
    ensures PinsOf(Unpin(p, c), b) == if b == c && PinsOf(p, b) > 0 then PinsOf(p, b) - 1 else PinsOf(p, b)
    ensures Marked(Unpin(p, c), b) <==> Marked(p, b)
  {
    UnpinOK(p, c);
    var q := Unpin(p, c);
    FrameOf(p, b);
    FrameOf(q, b);
    assert |q.frames| == |p.frames| && forall j :: 0 <= j < |p.frames| ==> q.frames[j].blockId == p.frames[j].blockId && q.frames[j].dirtyIntent == p.frames[j].dirtyIntent;
    if j :| 0 <= j < |p.frames| && p.frames[j].blockId == b {
      assert q.frames[j].blockId == b;
    }
  }

  /** The same frames but for whether they are dirty. */
  ghost predicate SamePins(p: Pool, q: Pool) {
    |q.frames| == |p.frames| && |q.disk| == |p.disk| && q.lru == p.lru &&
    forall i :: 0 <= i < |p.frames| ==> q.frames[i].blockId == p.frames[i].blockId && PinsIn(q.frames[i]) == PinsIn(p.frames[i])
  }

  lemma {:induction false} FlushFromPins(p: Pool, i: nat)
    requires Inv(p) && i <= |p.frames|
    ensures SamePins(p, FlushFrom(p, i).0)
    decreases |p.frames| - i
  {
    if i < |p.frames| && FlushFrame(p, i).Ok? {
      FlushFrameSettles(p, i);
      FlushFrameOK(p, i);
      FlushFromPins(FlushFrame(p, i).value, i + 1);
    }
  }

  /** A flush keeps the pins, and one that succeeds clears every mark. */
  lemma FlushHolds(p: Pool, b: nat)
    requires Inv(p) && b < |p.disk|
    ensures PinsOf(FlushAll(p).0, b) == PinsOf(p, b) && (FlushAll(p).1.Ok? ==> !Marked(FlushAll(p).0, b))
  {
    FlushAllOK(p);
    FlushSucceedsExactly(p);
    FlushFromPins(p, 0);
    var q := FlushAll(p).0;
    FrameOf(p, b);
    FrameOf(q, b);
    if j :| 0 <= j < |p.frames| && p.frames[j].blockId == b {
      assert q.frames[j].blockId == b;
      assert FlushAll(p).1.Ok? ==> Settled(p.frames[j], q.frames[j]);
    }
  }

  // ---------------------------------------------------------------- every run

  ghost predicate Pinning(op: Op, ok: bool, b: nat) {
    ok && (op == DoFetch(b) || (op.DoSet? && op.b == b))
  }

  /** Successful fetches of the block less the unpins that found it pinned. */
  ghost function PinCount(ops: seq<Op>, oks: seq<bool>, b: nat): nat
    requires |ops| == |oks|
  {
    if ops == [] then 0
    else
      var n := |ops| - 1;
      var before := PinCount(ops[..n], oks[..n], b);
      if Pinning(ops[n], oks[n], b) then before + 1
      else if ops[n] == DoUnpin(b) && before > 0 then before - 1
      else before
  }

  /** The block was stored to since the last flush. */
  ghost predicate WrittenSince(ops: seq<Op>, oks: seq<bool>, b: nat)
    requires |ops| == |oks|
  {
    ops != [] &&
    var n := |ops| - 1;
    if ops[n].DoFlush? then false
    else (ops[n].DoSet? && ops[n].b == b && oks[n]) || WrittenSince(ops[..n], oks[..n], b)
  }

  lemma StepHolds(p: Pool, op: Op, b: nat)
    requires Inv(p) && b < |p.disk|
    ensures var (q, ok) := Step(p, op);
      PinsOf(q, b) == if Pinning(op, ok, b) then PinsOf(p, b) + 1 else if op == DoUnpin(b) && PinsOf(p, b) > 0 then PinsOf(p, b) - 1 else PinsOf(p, b)
    ensures var (q, ok) := Step(p, op); !p.steal && (op.DoFlush? ==> ok) ==>
      (Marked(q, b) <==> !op.DoFlush? && (Marked(p, b) || (op.DoSet? && op.b == b && ok)))
  {
    match op
    case DoFetch(c) => PinHolds(p, c, b);
    case DoSet(c, page) => SetHolds(p, c, page, b);
    case DoUnpin(c) => UnpinHolds(p, c, b);
    case DoReserve(c) => AcquireHolds(p, b);
    case DoFlush => FlushHolds(p, b);
  }

  lemma RunPrefix(pools: seq<Pool>, ops: seq<Op>, oks: seq<bool>)
    requires IsRun(pools, ops, oks) && ops != []
    ensures var n := |ops| - 1;
      && IsRun(pools[..n + 1], ops[..n], oks[..n]) && pools[..n + 1][0] == pools[0] && pools[..n + 1][n] == pools[n]
      && LruInRange(pools[n]) && Step(pools[n], ops[n]) == (pools[n + 1], oks[n])
  {
  }

  /** In every run a block is pinned as often as it was fetched and not yet unpinned. */
  lemma {:induction false} PinsAreCounted(pools: seq<Pool>, ops: seq<Op>, oks: seq<bool>, b: nat)
    requires IsRun(pools, ops, oks) && Inv(pools[0]) && pools[0].frames == [] && b < |pools[0].disk|
    ensures PinsOf(pools[|ops|], b) == PinCount(ops, oks, b)
    decreases |ops|
  {
    if ops != [] {
      var n := |ops| - 1;
      RunPrefix(pools, ops, oks);
      PinsAreCounted(pools[..n + 1], ops[..n], oks[..n], b);
      RunIsTransparent(pools[..n + 1], ops[..n], oks[..n]);
      SameDisk(pools[..n + 1], ops[..n], oks[..n]);
      StepHolds(pools[n], ops[n], b);
    }
  }

  lemma {:induction false} SameDisk(pools: seq<Pool>, ops: seq<Op>, oks: seq<bool>)
    requires IsRun(pools, ops, oks) && Inv(pools[0])
    ensures |pools[|ops|].disk| == |pools[0].disk| && pools[|ops|].steal == pools[0].steal
    decreases |ops|
  {
    if ops != [] {
      var n := |ops| - 1;
      RunPrefix(pools, ops, oks);
      SameDisk(pools[..n + 1], ops[..n], oks[..n]);
      RunIsTransparent(pools[..n + 1], ops[..n], oks[..n]);
      StepShape(pools[n], ops[n]);
    }
  }

  lemma StepShape(p: Pool, op: Op)
    requires Inv(p)
    ensures |Step(p, op).0.disk| == |p.disk| && Step(p, op).0.steal == p.steal
  {
    match op
    case DoFetch(c) => FetchOK(p, c);
    case DoSet(c, page) => FetchAndSetOK(p, c, page);
    case DoUnpin(c) => UnpinOK(p, c);
    case DoReserve(c) => ReserveOK(p, c);
    case DoFlush => FlushFromPins(p, 0); FlushSteal(p, 0);
  }

  lemma {:induction false} FlushSteal(p: Pool, i: nat)
    requires i <= |p.frames|
    ensures FlushFrom(p, i).0.steal == p.steal
    decreases |p.frames| - i
  {
    if i < |p.frames| && FlushFrame(p, i).Ok? {
      FlushSteal(FlushFrame(p, i).value, i + 1);
    }
  }

  /**
    Without stealing and with every flush successful, a block is marked exactly when it was stored
    to since the last flush; so once unpinned its frame is dirty exactly then.
  */
  lemma {:induction false} MarksAreExact(pools: seq<Pool>, ops: seq<Op>, oks: seq<bool>, b: nat)
    requires IsRun(pools, ops, oks) && Inv(pools[0]) && pools[0].frames == [] && !pools[0].steal && b < |pools[0].disk|
    requires forall k :: 0 <= k < |ops| && ops[k].DoFlush? ==> oks[k]
    ensures Marked(pools[|ops|], b) <==> WrittenSince(ops, oks, b)
    decreases |ops|
  {
    if ops != [] {
      var n := |ops| - 1;
      RunPrefix(pools, ops, oks);
      MarksAreExact(pools[..n + 1], ops[..n], oks[..n], b);
      RunIsTransparent(pools[..n + 1], ops[..n], oks[..n]);
      SameDisk(pools[..n + 1], ops[..n], oks[..n]);
      StepHolds(pools[n], ops[n], b);
    }
  }

  lemma DirtyExactly(p: Pool, b: nat)
    requires Inv(p) && b < |p.disk|
    ensures (exists i :: 0 <= i < |p.frames| && p.frames[i].blockId == b && p.frames[i].state == Dirty) <==>
            Marked(p, b) && !(exists i :: 0 <= i < |p.frames| && p.frames[i].blockId == b && p.frames[i].state.Pinned?)
  {
    FrameOf(p, b);
    forall i | 0 <= i < |p.frames| ensures FrameOK(p.frames[i], p.disk) {
    }
  }

  // ---------------------------------------------------------------- the least recently used frame

  /** The frame an operation pins, if it pins one. */
  ghost function PinnedBy(p: Pool, op: Op): Option<nat>
    requires LruInRange(p)
  {
    if op.DoFetch? || op.DoSet? then match PinFrame(p, op.b).1 case Ok(i) => Some(i) case Err(_) => None else None
  }

  /** The last of the first `n` operations that pinned frame `i`, or -1. */
  ghost function LastPin(pools: seq<Pool>, ops: seq<Op>, n: nat, i: nat): int
    requires n <= |ops| < |pools| && forall k :: 0 <= k < |ops| ==> LruInRange(pools[k])
  {
    if n == 0 then -1 else if PinnedBy(pools[n - 1], ops[n - 1]) == Some(i) then n - 1 else LastPin(pools, ops, n - 1, i)
  }

  /** The queue is in the order of the given times. */
  ghost predicate InTimeOrder(lru: seq<nat>, time: nat -> int) {
    forall x, y :: 0 <= x < y < |lru| ==> time(lru[x]) < time(lru[y])
  }

  lemma {:induction false} WithoutInOrder(lru: seq<nat>, idx: nat, time: nat -> int)
    requires InTimeOrder(lru, time)
    ensures InTimeOrder(Without(lru, idx), time)
    decreases |lru|
  {
    if lru != [] {
      var rest := lru[1..];
      WithoutInOrder(rest, idx, time);
      if lru[0] != idx {
        var w := Without(rest, idx);
        forall k | 0 <= k < |w| ensures time(lru[0]) < time(w[k]) {
          assert w[k] in rest;
          var j :| 0 <= j < |rest| && rest[j] == w[k];
          assert lru[j + 1] == w[k];
        }
      }
    }
  }

  /** Moving the frame used now to the end keeps the order of last use. */
  lemma TouchInOrder(lru: seq<nat>, i: nat, time: nat -> int, time': nat -> int)
    requires NoDuplicates(lru) && InTimeOrder(lru, time)
    requires forall j: nat :: j != i ==> time'(j) == time(j) < time'(i)
    ensures InTimeOrder(Touch(lru, i), time')
  {
    WithoutInOrder(lru, i, time);
    WithoutElements(lru, i);
    var w := Without(lru, i);
    forall k | 0 <= k < |w| ensures w[k] != i {
      assert w[k] in w;
    }
  }

  /** Finding room keeps the order of the queue. */
  lemma AcquireInOrder(p: Pool, time: nat -> int)
    requires Inv(p) && InTimeOrder(p.lru, time)
    ensures InTimeOrder(Acquire(p).0.lru, time)
  {
    if FindFree(p.frames).None? && |p.frames| >= p.capacity && Victim(p.lru, p.frames, p.steal).Some? {
      WithoutInOrder(p.lru, Victim(p.lru, p.frames, p.steal).value, time);
    }
  }

  lemma PinInOrder(p: Pool, c: nat, time: nat -> int, time': nat -> int)
    requires Inv(p) && InTimeOrder(p.lru, time)
    requires Advances(time, time', match PinFrame(p, c).1 { case Ok(i) => Some(i) case Err(_) => None })
    ensures InTimeOrder(PinFrame(p, c).0.lru, time')
  {
    match Find(p.frames, c)
    case Some(i) => TouchInOrder(p.lru, i, time, time');
    case None =>
      AcquireOK(p);
      AcquireInOrder(p, time);
      var (p', a) := Acquire(p);
      if a.Ok? && ReadBlock(p'.disk, c).Ok? {
        TouchInOrder(p'.lru, a.value, time, time');
      }
  }

  lemma StepInOrder(p: Pool, op: Op, time: nat -> int, time': nat -> int)
    requires Inv(p) && InTimeOrder(p.lru, time)
    requires Advances(time, time', PinnedBy(p, op))
    ensures InTimeOrder(Step(p, op).0.lru, time')
  {
    match op
    case DoFetch(c) => PinInOrder(p, c, time, time');
    case DoSet(c, page) => PinInOrder(p, c, time, time');
    case DoUnpin(c) =>
    case DoReserve(c) => AcquireInOrder(p, time);
    case DoFlush => FlushFromPins(p, 0);
  }

  lemma {:induction false} LastPinBefore(pools: seq<Pool>, ops: seq<Op>, n: nat, i: nat)
    requires n <= |ops| < |pools| && forall k :: 0 <= k < |ops| ==> LruInRange(pools[k])
    ensures LastPin(pools, ops, n, i) < n
  {
    if n > 0 {
      LastPinBefore(pools, ops, n - 1, i);
    }
  }

  /** When each frame was last pinned. */
  ghost function PinTimes(pools: seq<Pool>, ops: seq<Op>, n: nat): nat -> int
    requires n <= |ops| < |pools| && forall k :: 0 <= k < |ops| ==> LruInRange(pools[k])
  {
    (i: nat) => LastPin(pools, ops, n, i)
  }

  /** One operation advances the time of the frame it pins and of no other. */
  ghost predicate Advances(time: nat -> int, time': nat -> int, pinned: Option<nat>) {
    match pinned
    case Some(i) => forall j: nat :: j != i ==> time'(j) == time(j) < time'(i)
    case None => forall j: nat :: time'(j) == time(j)
  }

  lemma TimesAdvance(pools: seq<Pool>, ops: seq<Op>, n: nat)
    requires 0 < n <= |ops| < |pools| && forall k :: 0 <= k < |ops| ==> LruInRange(pools[k])
    ensures Advances(PinTimes(pools, ops, n - 1), PinTimes(pools, ops, n), PinnedBy(pools[n - 1], ops[n - 1]))
  {
    var m := n - 1;
    forall j: nat ensures LastPin(pools, ops, m, j) < m {
      LastPinBefore(pools, ops, m, j);
    }
  }

  /** In every run the queue lists the frames in use in the order in which they were last pinned. */
  lemma {:induction false} QueueIsByUse(pools: seq<Pool>, ops: seq<Op>, oks: seq<bool>, n: nat)
    requires IsRun(pools, ops, oks) && Inv(pools[0]) && pools[0].frames == [] && n <= |ops|
    ensures Inv(pools[n]) && InTimeOrder(pools[n].lru, PinTimes(pools, ops, n))
  {
    if n == 0 {
      NothingQueued(pools[0]);
    } else {
      QueueIsByUse(pools, ops, oks, n - 1);
      StepInRun(pools, ops, oks, n - 1);
      StepIsPlain(pools[n - 1], ops[n - 1]);
      TimesAdvance(pools, ops, n);
      StepInOrder(pools[n - 1], ops[n - 1], PinTimes(pools, ops, n - 1), PinTimes(pools, ops, n));
    }
  }

  lemma StepInRun(pools: seq<Pool>, ops: seq<Op>, oks: seq<bool>, k: nat)
    requires IsRun(pools, ops, oks) && k < |ops|
    ensures LruInRange(pools[k]) && Step(pools[k], ops[k]) == (pools[k + 1], oks[k])
  {
  }

  lemma NothingQueued(p: Pool)
    requires Inv(p) && p.frames == []
    ensures p.lru == []
  {
    if p.lru != [] {
      QueuedFrame(p);
    }
  }

  lemma QueuedFrame(p: Pool)
    requires LruInRange(p) && p.lru != []
    ensures p.frames != []
  {
    assert p.lru[0] < |p.frames|;
  }

  lemma {:induction false} VictimIsFirst(lru: seq<nat>, frames: seq<Frame>, steal: bool, time: nat -> int, x: nat)
    requires (forall k :: 0 <= k < |lru| ==> lru[k] < |frames|) && InTimeOrder(lru, time)
    requires x in lru && Evictable(frames[x].state, steal)
    ensures Victim(lru, frames, steal).Some? && time(Victim(lru, frames, steal).value) <= time(x)
    decreases |lru|
  {
    if !Evictable(frames[lru[0]].state, steal) {
      assert x in lru[1..];
      VictimIsFirst(lru[1..], frames, steal, time, x);
    } else {
      var k :| 0 <= k < |lru| && lru[k] == x;
    }
  }

  /** In every run the frame to be evicted is, of those that may be, the one last pinned longest ago. */
  lemma VictimIsOldest(pools: seq<Pool>, ops: seq<Op>, oks: seq<bool>, x: nat)
    requires IsRun(pools, ops, oks) && Inv(pools[0]) && pools[0].frames == []
    requires var p := pools[|ops|]; x < |p.frames| && p.frames[x].state != Free && Evictable(p.frames[x].state, p.steal)
    ensures var p := pools[|ops|]; LruInRange(p) && Victim(p.lru, p.frames, p.steal).Some?
    ensures var p := pools[|ops|];
      LastPin(pools, ops, |ops|, Victim(p.lru, p.frames, p.steal).value) <= LastPin(pools, ops, |ops|, x)
  {
    QueueIsByUse(pools, ops, oks, |ops|);
    var p := pools[|ops|];
    VictimIsFirst(p.lru, p.frames, p.steal, PinTimes(pools, ops, |ops|), x);
  }

  /** Nothing is evicted while a frame is free or there is capacity for another, and no frame is added while one is free. */
  lemma EvictsOnlyWhenFull(p: Pool)
    requires Inv(p) && ((exists i :: 0 <= i < |p.frames| && p.frames[i].state == Free) || |p.frames| < p.capacity)
    ensures var (q, r) := Acquire(p); r.Ok? && q.disk == p.disk && q.lru == p.lru && |p.frames| <= |q.frames| && q.frames[..|p.frames|] == p.frames
    ensures (exists i :: 0 <= i < |p.frames| && p.frames[i].state == Free) ==> Acquire(p).0 == p && p.frames[Acquire(p).1.value].state == Free
  {
  }
}
