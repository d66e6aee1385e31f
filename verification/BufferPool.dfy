/** The buffer pool over a device of raw blocks; each method is an operation of `PoolModel` on its state. */
module BufferPool {
  import opened Common
  import opened PageCodec
  import PoolModel
  import PoolProofs

  type Block = seq<byte>

  /** What each block of the device decodes to. */
  function Images(device: seq<Block>): (r: seq<PoolModel.Image>)
    ensures |r| == |device| && forall b :: 0 <= b < |device| ==> r[b] == DecodeBlock(device[b])
  {
    if device == [] then [] else [DecodeBlock(device[0])] + Images(device[1..])
  }

  /** Writing an encoded page makes exactly that block decode to the page. */
  lemma ImagesAfterWrite(device: seq<Block>, b: nat, page: Page)
    requires b < |device|
    ensures Images(device[b := EncodePage(page)]) == Images(device)[b := Ok(page)]
  {
    DecodeEncodedPage(page);
  }

  class Pool {
    var device: seq<Block>
    var capacity: nat
    var frames: seq<PoolModel.Frame>
    var lru: seq<nat>
    var steal: bool

    ghost function State(): PoolModel.Pool
      reads this
    {
      PoolModel.Pool(Images(device), capacity, frames, lru, steal)
    }

    ghost predicate Valid()
      reads this
    {
      PoolProofs.Inv(State())
    }

    constructor (device: seq<Block>, capacity: nat, steal: bool)
      requires capacity > 0 && |device| <= PoolModel.NO_BLOCK
      ensures Valid() && State() == PoolModel.Pool(Images(device), capacity, [], [], steal)
    {
      this.device := device;
      this.capacity := capacity;
      this.frames := [];
      this.lru := [];
      this.steal := steal;
    }

    method WriteBlock(b: nat, page: Page) returns (r: Result<(), StorageError>)
      modifies this`device
      ensures b < old(|device|) ==> r == Ok(()) && Images(device) == old(Images(device))[b := Ok(page)]
      ensures b >= old(|device|) ==> r == Err(OutOfBounds(b, |device|)) && device == old(device)
    {
      if b >= |device| {
        return Err(OutOfBounds(b, |device|));
      }
      ImagesAfterWrite(device, b, page);
      device := device[b := EncodePage(page)];
      r := Ok(());
    }

    method Evict() returns (r: Result<Option<nat>, StorageError>)
      requires PoolModel.LruInRange(State())
      modifies this`device, this`frames, this`lru
      ensures (State(), r) == PoolModel.Evict(old(State()))
    {
      var victim := PoolModel.Victim(lru, frames, steal);
      if victim.None? {
        return Ok(None);
      }
      var i := victim.value;
      if frames[i].state == PoolModel.Dirty {
        var w := WriteBlock(frames[i].blockId, frames[i].page);
        if w.Err? {
          return Err(w.error);
        }
      }
      lru := PoolModel.Without(lru, i);
      frames := frames[i := frames[i].(state := PoolModel.Free, dirtyIntent := false)];
      r := Ok(Some(i));
    }

    method Acquire() returns (r: Result<nat, StorageError>)
      requires PoolModel.LruInRange(State())
      modifies this`device, this`frames, this`lru
      ensures (State(), r) == PoolModel.Acquire(old(State()))
    {
      var free := PoolModel.FindFree(frames);
      if free.Some? {
        return Ok(free.value);
      }
      if |frames| < capacity {
        frames := frames + [PoolModel.Frame(PoolModel.NO_BLOCK, ZERO_PAGE, PoolModel.Free, false)];
        return Ok(|frames| - 1);
      }
      var e := Evict();
      match e {
        case Err(err) => return Err(err);
        case Ok(Some(i)) => return Ok(i);
        case Ok(None) =>
          return if exists i :: 0 <= i < |frames| && frames[i].state == PoolModel.Dirty then Err(UncommittedPagesPinned)
                 else Err(AllFramesPinned);
      }
    }

    method Reserve(b: nat) returns (r: Result<(), StorageError>)
      requires PoolModel.LruInRange(State())
      modifies this`device, this`frames, this`lru
      ensures (State(), r) == PoolModel.Reserve(old(State()), b)
    {
      if PoolModel.Find(frames, b).Some? {
        return Ok(());
      }
      var a := Acquire();
      r := if a.Ok? then Ok(()) else Err(a.error);
    }

    method PinFrame(b: nat) returns (r: Result<nat, StorageError>)
      requires PoolModel.LruInRange(State())
      modifies this`device, this`frames, this`lru
      ensures (State(), r) == PoolModel.PinFrame(old(State()), b)
    {
      var found := PoolModel.Find(frames, b);
      if found.Some? {
        var i := found.value;
        frames := frames[i := frames[i].(state := PoolModel.PinOnce(frames[i].state))];
        lru := PoolModel.Touch(lru, i);
        return Ok(i);
      }
      var a := Acquire();
      if a.Err? {
        return Err(a.error);
      }
      if b >= |device| {
        return Err(OutOfBounds(b, |device|));
      }
      var page := DecodeBlock(device[b]);
      if page.Err? {
        return Err(page.error);
      }
      frames := frames[a.value := PoolModel.Frame(b, page.value, PoolModel.Pinned(1), false)];
      lru := PoolModel.Touch(lru, a.value);
      r := Ok(a.value);
    }

    method Fetch(b: nat) returns (r: Result<Page, StorageError>)
      requires Valid()
      modifies this`device, this`frames, this`lru
      ensures (State(), r) == PoolModel.Fetch(old(State()), b)
      ensures Valid()
    {
      PoolProofs.FetchOK(State(), b);
      var i := PinFrame(b);
      r := if i.Ok? then Ok(frames[i.value].page) else Err(i.error);
    }

    method FetchAndSet(b: nat, page: Page) returns (r: Result<(), StorageError>)
      requires Valid()
      modifies this`device, this`frames, this`lru
      ensures (State(), r) == PoolModel.FetchAndSet(old(State()), b, page)
      ensures Valid()
    {
      PoolProofs.FetchAndSetOK(State(), b, page);
      var i := PinFrame(b);
      if i.Err? {
        return Err(i.error);
      }
      frames := frames[i.value := frames[i.value].(dirtyIntent := true, page := page)];
      r := Ok(());
    }

    method Unpin(b: nat)
      requires Valid()
      modifies this`frames
      ensures State() == PoolModel.Unpin(old(State()), b)
      ensures Valid()
    {
      PoolProofs.UnpinOK(State(), b);
      var found := PoolModel.Find(frames, b);
      if found.Some? && frames[found.value].state.Pinned? {
        var f := frames[found.value];
        var s := if f.state.pins > 1 then PoolModel.Pinned(f.state.pins - 1)
                 else if f.dirtyIntent then PoolModel.Dirty else PoolModel.Clean;
        frames := frames[found.value := f.(state := s)];
      }
    }

    method FlushAll() returns (r: Result<(), StorageError>)
      requires Valid()
      modifies this`device, this`frames
      ensures (State(), r) == PoolModel.FlushAll(old(State()))
      ensures Valid()
    {
      PoolProofs.FlushAllOK(State());
      for i := 0 to |frames|
        invariant |frames| == old(|frames|)
        invariant PoolModel.FlushFrom(State(), i) == PoolModel.FlushAll(old(State()))
      {
        var f := frames[i];
        if PoolModel.NeedsFlush(f) {
          var w := WriteBlock(f.blockId, f.page);
          if w.Err? {
            return Err(w.error);
          }
          frames := frames[i := f.(dirtyIntent := false, state := if f.state == PoolModel.Dirty then PoolModel.Clean else f.state)];
        }
      }
      r := Ok(());
    }
  }
}
