/**
  The buffer pool as a value: what each operation does to the frames, the recency queue and
  the disk. The disk is given by what each block decodes to.
*/
module PoolModel {
  import opened Common
  import opened PageCodec

  /** What a block decodes to when it is read. */
  type Image = Result<Page, StorageError>

  type Pins = n: nat | n > 0 witness 1

  datatype PageState = Free | Clean | Dirty | Pinned(pins: Pins)

  datatype Frame = Frame(blockId: nat, page: Page, state: PageState, dirtyIntent: bool)

  /** The id of a frame that never held a block: the largest u64, beyond every device. */
  const NO_BLOCK: nat := 0xFFFF_FFFF_FFFF_FFFF

  datatype Pool = Pool(disk: seq<Image>, capacity: nat, frames: seq<Frame>, lru: seq<nat>, steal: bool)

  // ---------------------------------------------------------------- small searches

  /** The first frame that names `b`, in whatever state. */
  function Find(frames: seq<Frame>, b: nat): (r: Option<nat>)
    ensures r.Some? ==> r.value < |frames| && frames[r.value].blockId == b
    ensures r.None? ==> forall i :: 0 <= i < |frames| ==> frames[i].blockId != b
  {
    if frames == [] then None
    else if frames[0].blockId == b then Some(0)
    else match Find(frames[1..], b) case Some(i) => Some(i + 1) case None => None
  }

  function FindFree(frames: seq<Frame>): (r: Option<nat>)
    ensures r.Some? ==> r.value < |frames| && frames[r.value].state == Free
    ensures r.None? ==> forall i :: 0 <= i < |frames| ==> frames[i].state != Free
  {
    if frames == [] then None
    else if frames[0].state == Free then Some(0)
    else match FindFree(frames[1..]) case Some(i) => Some(i + 1) case None => None
  }

  function Without(lru: seq<nat>, idx: nat): (r: seq<nat>)
    ensures forall x :: x in r ==> x in lru
  {
    if lru == [] then [] else if lru[0] == idx then lru[1..] else [lru[0]] + Without(lru[1..], idx)
  }

  lemma WithoutInRange(lru: seq<nat>, idx: nat, bound: nat)
    requires forall k :: 0 <= k < |lru| ==> lru[k] < bound
    ensures forall k :: 0 <= k < |Without(lru, idx)| ==> Without(lru, idx)[k] < bound
  {
    forall k | 0 <= k < |Without(lru, idx)| ensures Without(lru, idx)[k] < bound {
      assert Without(lru, idx)[k] in lru;
    }
  }

  /** Moves a frame to the most recently used end. */
  function Touch(lru: seq<nat>, idx: nat): seq<nat> {
    Without(lru, idx) + [idx]
  }

  predicate Evictable(s: PageState, steal: bool) {
    !s.Pinned? && (steal || s != Dirty)
  }

  /** The least recently used frame that may be evicted. */
  function Victim(lru: seq<nat>, frames: seq<Frame>, steal: bool): (r: Option<nat>)
    requires forall k :: 0 <= k < |lru| ==> lru[k] < |frames|
    ensures r.Some? ==> r.value in lru && Evictable(frames[r.value].state, steal)
    ensures r.None? ==> forall x :: x in lru ==> !Evictable(frames[x].state, steal)
  {
    if lru == [] then None
    else if Evictable(frames[lru[0]].state, steal) then Some(lru[0])
    else Victim(lru[1..], frames, steal)
  }

  predicate LruInRange(p: Pool) {
    forall k :: 0 <= k < |p.lru| ==> p.lru[k] < |p.frames|
  }

  // ---------------------------------------------------------------- the device

  function ReadBlock(disk: seq<Image>, b: nat): Result<Page, StorageError> {
    if b >= |disk| then Err(OutOfBounds(b, |disk|)) else disk[b]
  }

  function WriteBlock(disk: seq<Image>, b: nat, page: Page): Result<seq<Image>, StorageError> {
    if b >= |disk| then Err(OutOfBounds(b, |disk|)) else Ok(disk[b := Ok(page)])
  }

  // ---------------------------------------------------------------- operations

  /** Writes the victim back if it is dirty and frees it; `None` when nothing may be evicted. */
  function Evict(p: Pool): (r: (Pool, Result<Option<nat>, StorageError>))
    requires LruInRange(p)
    ensures LruInRange(r.0)
  {
    match Victim(p.lru, p.frames, p.steal)
    case None => (p, Ok(None))
    case Some(i) =>
      var f := p.frames[i];
      if f.state == Dirty then
        match WriteBlock(p.disk, f.blockId, f.page)
        case Err(e) => (p, Err(e))
        case Ok(disk) => (Freed(p.(disk := disk), i), Ok(Some(i)))
      else (Freed(p, i), Ok(Some(i)))
  }

  function Freed(p: Pool, i: nat): (r: Pool)
    requires i < |p.frames| && LruInRange(p)
    ensures LruInRange(r)
  {
    WithoutInRange(p.lru, i, |p.frames|);
    p.(lru := Without(p.lru, i), frames := p.frames[i := p.frames[i].(state := Free, dirtyIntent := false)])
  }

  /** A free frame: an existing one, a new one under capacity, or an evicted one. */
  function Acquire(p: Pool): (r: (Pool, Result<nat, StorageError>))
    requires LruInRange(p)
    ensures LruInRange(r.0)
    ensures r.1.Ok? ==> r.1.value < |r.0.frames|
  {
    match FindFree(p.frames)
    case Some(i) => (p, Ok(i))
    case None =>
      if |p.frames| < p.capacity then
        (p.(frames := p.frames + [Frame(NO_BLOCK, ZERO_PAGE, Free, false)]), Ok(|p.frames|))
      else
        match Evict(p)
        case (p', Err(e)) => (p', Err(e))
        case (p', Ok(Some(i))) => (p', Ok(i))
        case (p', Ok(None)) =>
          (p', if exists i :: 0 <= i < |p'.frames| && p'.frames[i].state == Dirty then Err(UncommittedPagesPinned)
               else Err(AllFramesPinned))
  }

  function Reserve(p: Pool, b: nat): (r: (Pool, Result<(), StorageError>))
    requires LruInRange(p)
    ensures LruInRange(r.0)
  {
    if Find(p.frames, b).Some? then (p, Ok(()))
    else match Acquire(p)
      case (p', Ok(_)) => (p', Ok(()))
      case (p', Err(e)) => (p', Err(e))
  }

  function PinOnce(s: PageState): PageState {
    match s case Pinned(n) => Pinned(n + 1) case _ => Pinned(1)
  }

  /** Finds or loads the frame of `b` and pins it. */
  function PinFrame(p: Pool, b: nat): (r: (Pool, Result<nat, StorageError>))
    requires LruInRange(p)
    ensures r.1.Ok? ==> r.1.value < |r.0.frames|
  {
    match Find(p.frames, b)
    case Some(i) =>
      (p.(frames := p.frames[i := p.frames[i].(state := PinOnce(p.frames[i].state))], lru := Touch(p.lru, i)), Ok(i))
    case None =>
      match Acquire(p)
      case (p', Err(e)) => (p', Err(e))
      case (p', Ok(i)) =>
        match ReadBlock(p'.disk, b)
        case Err(e) => (p', Err(e))
        case Ok(page) =>
          (p'.(frames := p'.frames[i := Frame(b, page, Pinned(1), false)], lru := Touch(p'.lru, i)), Ok(i))
  }

  function Fetch(p: Pool, b: nat): (Pool, Result<Page, StorageError>)
    requires LruInRange(p)
  {
    match PinFrame(p, b)
    case (p', Ok(i)) => (p', Ok(p'.frames[i].page))
    case (p', Err(e)) => (p', Err(e))
  }

  /** `fetch_mut` followed by its holder storing `page`, the only thing the borrow allows in between. */
  function FetchAndSet(p: Pool, b: nat, page: Page): (Pool, Result<(), StorageError>)
    requires LruInRange(p)
  {
    match PinFrame(p, b)
    case (p', Ok(i)) => (p'.(frames := p'.frames[i := p'.frames[i].(dirtyIntent := true, page := page)]), Ok(()))
    case (p', Err(e)) => (p', Err(e))
  }

  function Unpin(p: Pool, b: nat): Pool {
    match Find(p.frames, b)
    case None => p
    case Some(i) =>
      var f := p.frames[i];
      if !f.state.Pinned? then p
      else
        var s := if f.state.pins > 1 then Pinned(f.state.pins - 1) else if f.dirtyIntent then Dirty else Clean;
        p.(frames := p.frames[i := f.(state := s)])
  }

  predicate NeedsFlush(f: Frame) {
    f.state == Dirty || (f.dirtyIntent && f.state.Pinned?)
  }

  /** One turn of the flush loop. */
  function FlushFrame(p: Pool, i: nat): Result<Pool, StorageError>
    requires i < |p.frames|
  {
    var f := p.frames[i];
    if !NeedsFlush(f) then Ok(p)
    else
      match WriteBlock(p.disk, f.blockId, f.page)
      case Err(e) => Err(e)
      case Ok(disk) =>
        Ok(p.(disk := disk, frames := p.frames[i := f.(dirtyIntent := false, state := if f.state == Dirty then Clean else f.state)]))
  }

  /** The flush loop over frames `i` and up: the pool it leaves, and whether every write succeeded. */
  function FlushFrom(p: Pool, i: nat): (Pool, Result<(), StorageError>)
    requires i <= |p.frames|
    decreases |p.frames| - i
  {
    if i == |p.frames| then (p, Ok(()))
    else match FlushFrame(p, i)
      case Err(e) => (p, Err(e))
      case Ok(p') => FlushFrom(p', i + 1)
  }

  function FlushAll(p: Pool): (Pool, Result<(), StorageError>) {
    FlushFrom(p, 0)
  }
}
