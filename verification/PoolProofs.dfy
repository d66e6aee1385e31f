/** The buffer pool is transparent: what a reader sees changes only through the holder of `fetch_mut`. */
module PoolProofs {
  import opened Common
  import opened PageCodec
  import opened PoolModel

  // ---------------------------------------------------------------- the invariant

  ghost predicate FrameOK(f: Frame, disk: seq<Image>) {
    && (f.blockId < |disk| || f.blockId == NO_BLOCK)
    && (f.state == Free || f.state == Clean ==> !f.dirtyIntent)
    && (f.state == Dirty ==> f.dirtyIntent)
    && (f.blockId < |disk| && !f.dirtyIntent ==> disk[f.blockId] == Ok(f.page))
  }

  /** A block of the device has at most one frame. */
  ghost predicate OneFrameEach(frames: seq<Frame>, blocks: nat) {
    forall i, j :: 0 <= i < j < |frames| && frames[i].blockId < blocks ==> frames[i].blockId != frames[j].blockId
  }

  ghost predicate NoDuplicates(s: seq<nat>) {
    forall i, j :: 0 <= i < j < |s| ==> s[i] != s[j]
  }

  /** The recency queue holds exactly the frames in use. */
  ghost predicate LruOK(lru: seq<nat>, frames: seq<Frame>) {
    && NoDuplicates(lru)
    && (forall k :: 0 <= k < |lru| ==> lru[k] < |frames|)
    && (forall i :: 0 <= i < |frames| ==> (i in lru <==> frames[i].state != Free))
  }

  ghost predicate Inv(p: Pool) {
    && 0 < p.capacity && |p.frames| <= p.capacity && |p.disk| <= NO_BLOCK
    && (forall i :: 0 <= i < |p.frames| ==> FrameOK(p.frames[i], p.disk))
    && OneFrameEach(p.frames, |p.disk|)
    && LruOK(p.lru, p.frames)
  }

  /** What a reader of block `b` is entitled to see. */
  function Logical(p: Pool, b: nat): Image
    requires b < |p.disk|
  {
    match Find(p.frames, b) case Some(i) => Ok(p.frames[i].page) case None => p.disk[b]
  }

  ghost predicate SameView(p: Pool, q: Pool) {
    |p.disk| == |q.disk| && forall b :: 0 <= b < |p.disk| ==> Logical(q, b) == Logical(p, b)
  }

  /** `q` shows what `p` shows, except that block `b` shows `page`. */
  ghost predicate ViewUpdated(p: Pool, q: Pool, b: nat, page: Page) {
    |p.disk| == |q.disk| && forall c :: 0 <= c < |p.disk| ==> Logical(q, c) == if c == b then Ok(page) else Logical(p, c)
  }

  ghost predicate PinsKept(p: Pool, q: Pool) {
    |p.frames| <= |q.frames| && forall i :: 0 <= i < |p.frames| && p.frames[i].state.Pinned? ==>
      q.frames[i].state.Pinned? && q.frames[i].blockId == p.frames[i].blockId && q.frames[i].page == p.frames[i].page
  }

  // ---------------------------------------------------------------- looking up frames

  lemma FindIs(frames: seq<Frame>, blocks: nat, i: nat)
    requires OneFrameEach(frames, blocks) && i < |frames| && frames[i].blockId < blocks
    ensures Find(frames, frames[i].blockId) == Some(i)
  {
    var r := Find(frames, frames[i].blockId);
    assert r.Some? && frames[r.value].blockId == frames[i].blockId;
  }

  /** The view of one block, read off the frames. */
  lemma LogicalIs(p: Pool, b: nat)
    requires OneFrameEach(p.frames, |p.disk|) && b < |p.disk|
    ensures forall i :: 0 <= i < |p.frames| && p.frames[i].blockId == b ==> Logical(p, b) == Ok(p.frames[i].page)
    ensures (forall i :: 0 <= i < |p.frames| ==> p.frames[i].blockId != b) ==> Logical(p, b) == p.disk[b]
  {
    forall i | 0 <= i < |p.frames| && p.frames[i].blockId == b ensures Logical(p, b) == Ok(p.frames[i].page) {
      FindIs(p.frames, |p.disk|, i);
    }
  }

  /** Changing a frame without renaming it or touching its page leaves the view alone. */
  lemma RestateFrame(p: Pool, i: nat, f: Frame, lru: seq<nat>)
    requires Inv(p) && i < |p.frames| && f.blockId == p.frames[i].blockId && f.page == p.frames[i].page
    requires FrameOK(f, p.disk) && LruOK(lru, p.frames[i := f])
    ensures var q := p.(frames := p.frames[i := f], lru := lru); Inv(q) && SameView(p, q)
  {
    var q := p.(frames := p.frames[i := f], lru := lru);
    assert forall j :: 0 <= j < |q.frames| ==> q.frames[j].blockId == p.frames[j].blockId;
    forall b | 0 <= b < |p.disk| ensures Logical(q, b) == Logical(p, b) {
      LogicalIs(p, b);
      LogicalIs(q, b);
      if j :| 0 <= j < |p.frames| && p.frames[j].blockId == b {
        assert q.frames[j].page == p.frames[j].page;
      }
    }
  }

  // ---------------------------------------------------------------- the recency queue

  lemma {:induction false} WithoutElements(lru: seq<nat>, idx: nat)
    requires NoDuplicates(lru)
    ensures NoDuplicates(Without(lru, idx))
    ensures forall x :: x in Without(lru, idx) <==> x in lru && x != idx
  {
    if lru != [] {
      var rest := lru[1..];
      assert lru == [lru[0]] + rest;
      if lru[0] == idx {
        assert idx !in rest;
      } else {
        WithoutElements(rest, idx);
        assert lru[0] !in rest;
      }
    }
  }

  lemma TouchOK(lru: seq<nat>, frames: seq<Frame>, i: nat, f: Frame)
    requires LruOK(lru, frames) && i < |frames| && f.state != Free
    ensures LruOK(Touch(lru, i), frames[i := f])
  {
    WithoutElements(lru, i);
    var w, lru' := Without(lru, i), Touch(lru, i);
    forall k | 0 <= k < |w| ensures w[k] != i {
      assert w[k] in w;
    }
    assert forall x :: x in lru' <==> x in lru || x == i;
    forall k | 0 <= k < |lru'| ensures lru'[k] < |frames| {
      assert lru'[k] in lru';
    }
  }

  lemma FreedLruOK(lru: seq<nat>, frames: seq<Frame>, i: nat, f: Frame)
    requires LruOK(lru, frames) && i < |frames| && f.state == Free
    ensures LruOK(Without(lru, i), frames[i := f])
  {
    WithoutElements(lru, i);
    var lru' := Without(lru, i);
    forall k | 0 <= k < |lru'| ensures lru'[k] < |frames| {
      assert lru'[k] in lru';
    }
  }

  // ---------------------------------------------------------------- writing a frame back

  /** Writing a frame's page to its own block shows no reader anything new, and marks nothing else stale. */
  lemma WriteBack(p: Pool, i: nat)
    requires Inv(p) && i < |p.frames| && p.frames[i].blockId < |p.disk|
    ensures var f := p.frames[i]; var disk := p.disk[f.blockId := Ok(f.page)];
      && (forall j :: 0 <= j < |p.frames| ==> FrameOK(p.frames[j], disk))
      && FrameOK(f.(dirtyIntent := false, state := Clean), disk)
      && Inv(p.(disk := disk)) && SameView(p, p.(disk := disk))
  {
    var f := p.frames[i];
    var q := p.(disk := p.disk[f.blockId := Ok(f.page)]);
    forall j | 0 <= j < |p.frames| ensures FrameOK(p.frames[j], q.disk) {
      assert FrameOK(p.frames[j], p.disk);
      assert j != i ==> p.frames[j].blockId != f.blockId;
    }
    forall b | 0 <= b < |p.disk| ensures Logical(q, b) == Logical(p, b) {
      FindIs(p.frames, |p.disk|, i);
    }
  }

  // ---------------------------------------------------------------- operations

  /** What finding room may do: nothing a reader can see, nothing to a pinned frame, and without stealing no write. */
  ghost predicate Quiet(p: Pool, q: Pool) {
    && Inv(q) && SameView(p, q) && PinsKept(p, q)
    && q.capacity == p.capacity && q.steal == p.steal
    && (!p.steal ==> q.disk == p.disk)
  }

  lemma QuietSelf(p: Pool)
    requires Inv(p)
    ensures Quiet(p, p)
  {
  }

  lemma FreeFrame(p: Pool, i: nat)
    requires Inv(p) && i < |p.frames| && !p.frames[i].state.Pinned?
    requires FrameOK(p.frames[i].(state := Free, dirtyIntent := false), p.disk)
    ensures Quiet(p, Freed(p, i)) && Freed(p, i).frames[i].state == Free
  {
    var f := p.frames[i].(state := Free, dirtyIntent := false);
    FreedLruOK(p.lru, p.frames, i, f);
    RestateFrame(p, i, f, Without(p.lru, i));
  }

  /** Only an unpinned frame is evicted, and without stealing only one whose page is already on disk. */
  lemma EvictOK(p: Pool)
    requires Inv(p)
    ensures Quiet(p, Evict(p).0)
    ensures var r := Evict(p).1; r.Ok? && r.value.Some? ==>
      r.value.value < |Evict(p).0.frames| && Evict(p).0.frames[r.value.value].state == Free
  {
    QuietSelf(p);
    match Victim(p.lru, p.frames, p.steal)
    case None =>
    case Some(i) =>
      var f := p.frames[i];
      assert i < |p.frames| by {
        var k :| 0 <= k < |p.lru| && p.lru[k] == i;
      }
      if f.state == Dirty {
        if f.blockId < |p.disk| {
          var q := p.(disk := p.disk[f.blockId := Ok(f.page)]);
          WriteBack(p, i);
          FreeFrame(q, i);
          SameViewTransitive(p, q, Freed(q, i));
        }
      } else {
        assert FrameOK(f, p.disk);
        FreeFrame(p, i);
      }
  }

  lemma SameViewTransitive(p: Pool, q: Pool, r: Pool)
    requires SameView(p, q) && SameView(q, r)
    ensures SameView(p, r)
  {
  }

  lemma GrownView(p: Pool, q: Pool, b: nat)
    requires Inv(p) && b < |p.disk|
    requires q.disk == p.disk && q.frames == p.frames + [Frame(NO_BLOCK, ZERO_PAGE, Free, false)]
    ensures Logical(q, b) == Logical(p, b)
  {
    LogicalIs(p, b);
    LogicalIs(q, b);
    if j :| 0 <= j < |p.frames| && p.frames[j].blockId == b {
      assert q.frames[j] == p.frames[j];
    }
  }

  lemma GrowOK(p: Pool)
    requires Inv(p) && |p.frames| < p.capacity
    ensures Quiet(p, p.(frames := p.frames + [Frame(NO_BLOCK, ZERO_PAGE, Free, false)]))
  {
    var q := p.(frames := p.frames + [Frame(NO_BLOCK, ZERO_PAGE, Free, false)]);
    assert |p.frames| !in p.lru;
    forall b | 0 <= b < |p.disk| ensures Logical(q, b) == Logical(p, b) {
      GrownView(p, q, b);
    }
  }

  lemma AcquireOK(p: Pool)
    requires Inv(p)
    ensures Quiet(p, Acquire(p).0)
    ensures var r := Acquire(p).1; r.Ok? ==> Acquire(p).0.frames[r.value].state == Free
  {
    QuietSelf(p);
    if FindFree(p.frames).None? {
      if |p.frames| < p.capacity {
        GrowOK(p);
      } else {
        EvictOK(p);
      }
    }
  }

  /** Installing a block in a frame that was free. */
  lemma LoadOK(p: Pool, i: nat, b: nat, page: Page)
    requires Inv(p) && i < |p.frames| && p.frames[i].state == Free
    requires b < |p.disk| && p.disk[b] == Ok(page) && Find(p.frames, b).None?
    ensures var q := p.(frames := p.frames[i := Frame(b, page, Pinned(1), false)], lru := Touch(p.lru, i));
      Inv(q) && SameView(p, q) && PinsKept(p, q)
  {
    var f := Frame(b, page, Pinned(1), false);
    var q := p.(frames := p.frames[i := f], lru := Touch(p.lru, i));
    TouchOK(p.lru, p.frames, i, f);
    forall c | 0 <= c < |p.disk| ensures Logical(q, c) == Logical(p, c) {
      LoadedView(p, i, b, page, c);
    }
  }

  lemma LoadedView(p: Pool, i: nat, b: nat, page: Page, c: nat)
    requires OneFrameEach(p.frames, |p.disk|) && i < |p.frames| && FrameOK(p.frames[i], p.disk) && p.frames[i].state == Free
    requires b < |p.disk| && p.disk[b] == Ok(page) && Find(p.frames, b).None? && c < |p.disk|
    ensures var q := p.(frames := p.frames[i := Frame(b, page, Pinned(1), false)], lru := Touch(p.lru, i));
      OneFrameEach(q.frames, |q.disk|) && Logical(q, c) == Logical(p, c)
  {
    var q := p.(frames := p.frames[i := Frame(b, page, Pinned(1), false)], lru := Touch(p.lru, i));
    LogicalIs(p, c);
    LogicalIs(q, c);
    if j :| 0 <= j < |p.frames| && j != i && p.frames[j].blockId == c {
      assert q.frames[j] == p.frames[j];
    } else {
      assert q.frames[i].blockId == b;
    }
  }

  lemma RepinOK(p: Pool, i: nat)
    requires Inv(p) && i < |p.frames|
    ensures var q := p.(frames := p.frames[i := p.frames[i].(state := PinOnce(p.frames[i].state))], lru := Touch(p.lru, i));
      Inv(q) && SameView(p, q) && PinsKept(p, q)
  {
    var f := p.frames[i].(state := PinOnce(p.frames[i].state));
    assert FrameOK(p.frames[i], p.disk);
    TouchOK(p.lru, p.frames, i, f);
    RestateFrame(p, i, f, Touch(p.lru, i));
  }

  /** A pinned frame shows the logical page of its block. */
  lemma PinFrameOK(p: Pool, b: nat)
    requires Inv(p)
    ensures Quiet(p, PinFrame(p, b).0)
    ensures var (q, r) := PinFrame(p, b); r.Ok? ==>
      q.frames[r.value].blockId == b && q.frames[r.value].state.Pinned? &&
      (b < |p.disk| ==> Logical(p, b) == Ok(q.frames[r.value].page))
  {
    var (q, r) := PinFrame(p, b);
    match Find(p.frames, b)
    case Some(i) =>
      RepinOK(p, i);
    case None =>
      AcquireOK(p);
      var (p', a) := Acquire(p);
      if a.Ok? {
        if ReadBlock(p'.disk, b).Ok? {
          AcquireFindsNothing(p, b);
          LoadOK(p', a.value, b, p'.disk[b].value);
          SameViewTransitive(p, p', q);
          PinsKeptTransitive(p, p', q);
          assert Logical(p', b) == Logical(p, b);
        }
      }
  }

  lemma PinsKeptTransitive(p: Pool, q: Pool, r: Pool)
    requires PinsKept(p, q) && PinsKept(q, r)
    ensures PinsKept(p, r)
  {
  }

  /** Finding room gives no frame to a block that had none. */
  lemma AcquireFindsNothing(p: Pool, b: nat)
    requires Inv(p) && Find(p.frames, b).None? && Acquire(p).1.Ok? && b != NO_BLOCK
    ensures Find(Acquire(p).0.frames, b).None?
  {
  }

  lemma FetchOK(p: Pool, b: nat)
    requires Inv(p)
    ensures Quiet(p, Fetch(p, b).0)
    ensures b < |p.disk| && Fetch(p, b).1.Ok? ==> Logical(p, b) == Ok(Fetch(p, b).1.value)
  {
    PinFrameOK(p, b);
  }

  lemma ReserveOK(p: Pool, b: nat)
    requires Inv(p)
    ensures Quiet(p, Reserve(p, b).0)
  {
    QuietSelf(p);
    AcquireOK(p);
  }

  lemma SetPageOK(p: Pool, i: nat, page: Page)
    requires Inv(p) && i < |p.frames| && p.frames[i].state.Pinned?
    ensures var q := p.(frames := p.frames[i := p.frames[i].(dirtyIntent := true, page := page)]);
      Inv(q) && if p.frames[i].blockId < |p.disk| then ViewUpdated(p, q, p.frames[i].blockId, page) else SameView(p, q)
  {
    var q := p.(frames := p.frames[i := p.frames[i].(dirtyIntent := true, page := page)]);
    assert forall j :: 0 <= j < |q.frames| ==> q.frames[j].blockId == p.frames[j].blockId;
    assert FrameOK(p.frames[i], p.disk);
    forall c | 0 <= c < |p.disk| ensures Logical(q, c) == if c == p.frames[i].blockId then Ok(page) else Logical(p, c) {
      LogicalIs(p, c);
      LogicalIs(q, c);
      if j :| 0 <= j < |p.frames| && p.frames[j].blockId == c {
        assert j != i ==> q.frames[j] == p.frames[j];
      }
    }
  }

  /** The one way a logical page changes. */
  lemma FetchAndSetOK(p: Pool, b: nat, page: Page)
    requires Inv(p)
    ensures var (q, r) := FetchAndSet(p, b, page);
      && Inv(q) && q.capacity == p.capacity && q.steal == p.steal && (!p.steal ==> q.disk == p.disk)
      && (if r.Ok? && b < |p.disk| then ViewUpdated(p, q, b, page) else SameView(p, q))
  {
    PinFrameOK(p, b);
    var (p', r) := PinFrame(p, b);
    if r.Ok? {
      SetPageOK(p', r.value, page);
    }
  }

  lemma UnpinOK(p: Pool, b: nat)
    requires Inv(p)
    ensures Inv(Unpin(p, b)) && SameView(p, Unpin(p, b)) && Unpin(p, b).disk == p.disk
  {
    match Find(p.frames, b)
    case None =>
    case Some(i) =>
      var f := p.frames[i];
      assert FrameOK(f, p.disk);
      if f.state.Pinned? {
        var s := if f.state.pins > 1 then Pinned(f.state.pins - 1) else if f.dirtyIntent then Dirty else Clean;
        RestateFrame(p, i, f.(state := s), p.lru);
      }
  }

  // ---------------------------------------------------------------- flushing

  lemma FlushFrameOK(p: Pool, i: nat)
    requires Inv(p) && i < |p.frames|
    ensures var r := FlushFrame(p, i); r.Ok? ==>
      && Inv(r.value) && SameView(p, r.value) && PinsKept(p, r.value) && |r.value.frames| == |p.frames|
      && !NeedsFlush(r.value.frames[i]) && (forall j :: 0 <= j < |p.frames| && j != i ==> r.value.frames[j] == p.frames[j])
  {
    var f := p.frames[i];
    assert FrameOK(f, p.disk);
    if NeedsFlush(f) && f.blockId < |p.disk| {
      var q := p.(disk := p.disk[f.blockId := Ok(f.page)]);
      WriteBack(p, i);
      var f' := f.(dirtyIntent := false, state := if f.state == Dirty then Clean else f.state);
      RestateFrame(q, i, f', q.lru);
    }
  }

  lemma {:induction false} FlushFromOK(p: Pool, i: nat)
    requires Inv(p) && i <= |p.frames| && forall j :: 0 <= j < i ==> !NeedsFlush(p.frames[j])
    ensures var (q, r) := FlushFrom(p, i);
      && Inv(q) && SameView(p, q) && PinsKept(p, q) && |q.frames| == |p.frames|
      && (r.Ok? ==> forall j :: 0 <= j < |q.frames| ==> !NeedsFlush(q.frames[j]))
    decreases |p.frames| - i
  {
    if i < |p.frames| {
      FlushFrameOK(p, i);
      var r := FlushFrame(p, i);
      if r.Ok? {
        FlushFromOK(r.value, i + 1);
        SameViewTransitive(p, r.value, FlushFrom(r.value, i + 1).0);
        PinsKeptTransitive(p, r.value, FlushFrom(r.value, i + 1).0);
      }
    }
  }

  /** With nothing left to flush the disk holds every logical page. */
  lemma FlushedDisk(p: Pool, b: nat)
    requires Inv(p) && b < |p.disk| && forall j :: 0 <= j < |p.frames| ==> !NeedsFlush(p.frames[j])
    ensures p.disk[b] == Logical(p, b)
  {
    LogicalIs(p, b);
    if j :| 0 <= j < |p.frames| && p.frames[j].blockId == b {
      assert FrameOK(p.frames[j], p.disk);
    }
  }

  /** Flushing shows no reader anything new; once it succeeds the disk alone shows it all. */
  lemma FlushAllOK(p: Pool)
    requires Inv(p)
    ensures var (q, r) := FlushAll(p);
      && Inv(q) && SameView(p, q) && PinsKept(p, q)
      && (r.Ok? ==> forall b :: 0 <= b < |p.disk| ==> q.disk[b] == Logical(p, b))
  {
    FlushFromOK(p, 0);
    var (q, r) := FlushAll(p);
    if r.Ok? {
      forall b | 0 <= b < |p.disk| ensures q.disk[b] == Logical(p, b) {
        FlushedDisk(q, b);
      }
    }
  }

  /** Every frame that needs a flush names a block of the device. */
  ghost predicate AllFlushable(p: Pool) {
    FlushableFrom(p, 0)
  }

  ghost predicate NothingToFlush(p: Pool) {
    forall i :: 0 <= i < |p.frames| ==> !NeedsFlush(p.frames[i])
  }

  /** The same frame, clean if it was dirty and no longer asking to be written. */
  ghost predicate Settled(f: Frame, g: Frame) {
    && g.blockId == f.blockId && g.page == f.page && g.dirtyIntent == false
    && (f.state == Dirty ==> g.state == Clean) && (f.state != Dirty ==> g.state == f.state)
  }

  ghost predicate AllSettled(p: Pool, q: Pool, from_: nat) {
    && |q.frames| == |p.frames| && |q.disk| == |p.disk| && q.lru == p.lru && q.capacity == p.capacity && q.steal == p.steal
    && forall i :: 0 <= i < |p.frames| ==> if i < from_ then q.frames[i] == p.frames[i] else Settled(p.frames[i], q.frames[i])
  }

  /** Only frame `i` differs, and it is settled. */
  ghost predicate OneSettled(p: Pool, q: Pool, i: nat)
    requires i < |p.frames|
  {
    && |q.frames| == |p.frames| && |q.disk| == |p.disk| && q.lru == p.lru && q.capacity == p.capacity && q.steal == p.steal
    && q.frames == p.frames[i := q.frames[i]] && Settled(p.frames[i], q.frames[i])
  }

  lemma FlushFrameSettles(p: Pool, i: nat)
    requires Inv(p) && i < |p.frames|
    ensures FlushFrame(p, i).Ok? <==> (NeedsFlush(p.frames[i]) ==> p.frames[i].blockId < |p.disk|)
    ensures FlushFrame(p, i).Err? ==> FlushFrame(p, i).error == OutOfBounds(NO_BLOCK, |p.disk|)
    ensures FlushFrame(p, i).Ok? ==> OneSettled(p, FlushFrame(p, i).value, i)
  {
    assert FrameOK(p.frames[i], p.disk);
  }

  lemma SettledOnward(p: Pool, mid: Pool, q: Pool, i: nat)
    requires i < |p.frames| && OneSettled(p, mid, i) && AllSettled(mid, q, i + 1)
    ensures AllSettled(p, q, i)
  {
    forall j | 0 <= j < |p.frames| ensures if j < i then q.frames[j] == p.frames[j] else Settled(p.frames[j], q.frames[j]) {
      assert j != i ==> mid.frames[j] == p.frames[j];
      assert if j < i + 1 then q.frames[j] == mid.frames[j] else Settled(mid.frames[j], q.frames[j]);
    }
  }

  ghost predicate FlushableFrom(p: Pool, i: nat) {
    forall j :: i <= j < |p.frames| && NeedsFlush(p.frames[j]) ==> p.frames[j].blockId < |p.disk|
  }

  lemma FlushableOnward(p: Pool, mid: Pool, i: nat)
    requires i < |p.frames| && OneSettled(p, mid, i) && (NeedsFlush(p.frames[i]) ==> p.frames[i].blockId < |p.disk|)
    ensures FlushableFrom(p, i) <==> FlushableFrom(mid, i + 1)
  {
    assert forall j :: i < j < |p.frames| ==> mid.frames[j] == p.frames[j];
  }

  /** What a flush from frame `i` on leads to. */
  ghost predicate FlushedExactly(p: Pool, i: nat, q: Pool, r: Result<(), StorageError>) {
    && (r.Ok? <==> FlushableFrom(p, i)) && (r.Ok? ==> AllSettled(p, q, i))
    && (r.Err? ==> r.error == OutOfBounds(NO_BLOCK, |p.disk|))
  }

  lemma FlushedOnward(p: Pool, mid: Pool, i: nat, q: Pool, r: Result<(), StorageError>)
    requires i < |p.frames| && OneSettled(p, mid, i) && (NeedsFlush(p.frames[i]) ==> p.frames[i].blockId < |p.disk|)
    requires |mid.disk| == |p.disk| && FlushedExactly(mid, i + 1, q, r)
    ensures FlushedExactly(p, i, q, r)
  {
    FlushableOnward(p, mid, i);
    if r.Ok? {
      SettledOnward(p, mid, q, i);
    }
  }

  lemma FlushStep(p: Pool, i: nat)
    requires Inv(p) && i < |p.frames|
    ensures FlushFrame(p, i).Ok? <==> (NeedsFlush(p.frames[i]) ==> p.frames[i].blockId < |p.disk|)
    ensures FlushFrame(p, i).Err? ==> FlushFrame(p, i).error == OutOfBounds(NO_BLOCK, |p.disk|)
    ensures var r := FlushFrame(p, i);
      r.Ok? ==> OneSettled(p, r.value, i) && Inv(r.value) && |r.value.disk| == |p.disk| && |r.value.frames| == |p.frames|
  {
    FlushFrameSettles(p, i);
    FlushFrameOK(p, i);
  }

  lemma {:induction false} FlushFromExactly(p: Pool, i: nat)
    requires Inv(p) && i <= |p.frames|
    ensures FlushedExactly(p, i, FlushFrom(p, i).0, FlushFrom(p, i).1)
    decreases |p.frames| - i
  {
    if i < |p.frames| {
      FlushStep(p, i);
      var r := FlushFrame(p, i);
      if r.Ok? {
        FlushFromExactly(r.value, i + 1);
        FlushedOnward(p, r.value, i, FlushFrom(r.value, i + 1).0, FlushFrom(r.value, i + 1).1);
      }
    }
  }

  /**
    A flush succeeds if and only if every frame it has to write names a block of the device; then
    dirty frames are clean, pins and pages are as they were, and nothing is left to flush.
  */
  lemma FlushSucceedsExactly(p: Pool)
    requires Inv(p)
    ensures var (q, r) := FlushAll(p);
      && (r.Ok? <==> AllFlushable(p)) && (r.Err? ==> r.error == OutOfBounds(NO_BLOCK, |p.disk|))
      && (r.Ok? ==> AllSettled(p, q, 0) && NothingToFlush(q) && q.disk == View(p))
  {
    FlushFromExactly(p, 0);
    FlushAllOK(p);
    var (q, r) := FlushAll(p);
    if r.Ok? {
      assert forall i :: 0 <= i < |p.frames| ==> Settled(p.frames[i], q.frames[i]);
      forall i | 0 <= i < |q.frames| ensures !NeedsFlush(q.frames[i]) {
        assert Settled(p.frames[i], q.frames[i]);
      }
    }
  }

  // ---------------------------------------------------------------- every run

  datatype Op = DoFetch(b: nat) | DoSet(b: nat, page: Page) | DoUnpin(b: nat) | DoReserve(b: nat) | DoFlush

  ghost function Step(p: Pool, op: Op): (Pool, bool)
    requires LruInRange(p)
  {
    match op
    case DoFetch(b) => (Fetch(p, b).0, Fetch(p, b).1.Ok?)
    case DoSet(b, page) => (FetchAndSet(p, b, page).0, FetchAndSet(p, b, page).1.Ok?)
    case DoUnpin(b) => (Unpin(p, b), true)
    case DoReserve(b) => (Reserve(p, b).0, Reserve(p, b).1.Ok?)
    case DoFlush => (FlushAll(p).0, FlushAll(p).1.Ok?)
  }

  /** A store without any cache: only successful sets change it. */
  ghost function PlainStep(view: seq<Image>, op: Op, ok: bool): seq<Image> {
    if op.DoSet? && ok && op.b < |view| then view[op.b := Ok(op.page)] else view
  }

  ghost function View(p: Pool): seq<Image> {
    seq(|p.disk|, b requires 0 <= b < |p.disk| => Logical(p, b))
  }

  /** Each operation does to the view what it does to the plain store. */
  lemma StepIsPlain(p: Pool, op: Op)
    requires Inv(p)
    ensures Inv(Step(p, op).0)
    ensures View(Step(p, op).0) == PlainStep(View(p), op, Step(p, op).1)
  {
    match op
    case DoFetch(b) => FetchOK(p, b);
    case DoSet(b, page) => FetchAndSetOK(p, b, page);
    case DoUnpin(b) => UnpinOK(p, b);
    case DoReserve(b) => ReserveOK(p, b);
    case DoFlush => FlushAllOK(p);
  }

  /** `pools` are the states of one run of `ops`, `oks` says which operations succeeded. */
  ghost predicate IsRun(pools: seq<Pool>, ops: seq<Op>, oks: seq<bool>) {
    && |pools| == |ops| + 1 && |oks| == |ops|
    && forall k :: 0 <= k < |ops| ==> LruInRange(pools[k]) && Step(pools[k], ops[k]) == (pools[k + 1], oks[k])
  }

  /** The plain store after the same operations. */
  ghost function PlainRun(view: seq<Image>, ops: seq<Op>, oks: seq<bool>): seq<Image>
    requires |ops| == |oks|
  {
    if ops == [] then view
    else
      var n := |ops| - 1;
      PlainStep(PlainRun(view, ops[..n], oks[..n]), ops[n], oks[n])
  }

  lemma EarlierRun(pools: seq<Pool>, ops: seq<Op>, oks: seq<bool>, n: nat)
    requires IsRun(pools, ops, oks) && n < |ops|
    ensures IsRun(pools[..n + 1], ops[..n], oks[..n]) && pools[..n + 1][n] == pools[n] && pools[..n + 1][0] == pools[0]
    ensures LruInRange(pools[n]) && Step(pools[n], ops[n]) == (pools[n + 1], oks[n])
  {
    forall k | 0 <= k < n
      ensures LruInRange(pools[..n + 1][k]) && Step(pools[..n + 1][k], ops[..n][k]) == (pools[..n + 1][k + 1], oks[..n][k])
    {
      assert Step(pools[k], ops[k]) == (pools[k + 1], oks[k]);
    }
  }

  /** Over any run, with or without stealing, the pool shows what a store without a cache would hold. */
  lemma {:induction false} RunIsTransparent(pools: seq<Pool>, ops: seq<Op>, oks: seq<bool>)
    requires IsRun(pools, ops, oks) && Inv(pools[0])
    ensures Inv(pools[|ops|])
    ensures View(pools[|ops|]) == PlainRun(View(pools[0]), ops, oks)
    decreases |ops|
  {
    if ops != [] {
      var n := |ops| - 1;
      EarlierRun(pools, ops, oks, n);
      RunIsTransparent(pools[..n + 1], ops[..n], oks[..n]);
      StepIsPlain(pools[n], ops[n]);
    }
  }

  /** A read in any state of any run returns the plain store's page, if it returns one. */
  lemma ReadsArePlain(pools: seq<Pool>, ops: seq<Op>, oks: seq<bool>, b: nat)
    requires IsRun(pools, ops, oks) && Inv(pools[0]) && b < |pools[0].disk|
    ensures LruInRange(pools[|ops|])
    ensures var view := PlainRun(View(pools[0]), ops, oks);
      && b < |view|
      && (Fetch(pools[|ops|], b).1.Ok? ==> view[b] == Ok(Fetch(pools[|ops|], b).1.value))
  {
    RunIsTransparent(pools, ops, oks);
    PlainRunLength(View(pools[0]), ops, oks);
    FetchOK(pools[|ops|], b);
  }

  lemma {:induction false} PlainRunLength(view: seq<Image>, ops: seq<Op>, oks: seq<bool>)
    requires |ops| == |oks|
    ensures |PlainRun(view, ops, oks)| == |view|
  {
    if ops != [] {
      var n := |ops| - 1;
      PlainRunLength(view, ops[..n], oks[..n]);
    }
  }
}
