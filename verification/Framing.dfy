/** Reading a run of self-delimiting frames with any decoder: the loop shared by log replay and log reload. */
module Framing {
  import opened Common

  /** A decoder reads one frame off the front of its input and says how many bytes it took. */
  type Decoder<!R, !E> = seq<byte> -> Result<(R, nat), E>

  /** Every successful decoding consumes something, and no more than there is. */
  ghost predicate Advances<R, E>(dec: Decoder<R, E>) {
    forall d :: dec(d).Ok? ==> 0 < dec(d).value.1 <= |d|
  }

  /** The loop at `offset` with `seen` behind it: all it will have read, and where it stops. */
  ghost function Scan<R, E>(dec: Decoder<R, E>, data: seq<byte>, offset: nat, seen: seq<R>): (r: (seq<R>, nat))
    requires Advances(dec) && offset <= |data|
    ensures r.1 <= |data|
    decreases |data| - offset
  {
    match dec(data[offset..])
    case Err(_) => (seen, offset)
    case Ok((rec, n)) => Scan(dec, data, offset + n, seen + [rec])
  }

  lemma ScanEnd<R, E>(dec: Decoder<R, E>, data: seq<byte>, seen: seq<R>)
    requires Advances(dec)
    ensures Scan(dec, data, |data|, seen) == (seen, |data|)
  {
    assert data[|data|..] == [];
  }

  /** Reads frames until one fails or the input ends. */
  method ReadFrames<R, E>(dec: Decoder<R, E>, data: seq<byte>) returns (seen: seq<R>, offset: nat)
    requires Advances(dec)
    ensures (seen, offset) == Scan(dec, data, 0, [])
  {
    seen, offset := [], 0;
    while offset < |data|
      invariant offset <= |data| && Scan(dec, data, offset, seen) == Scan(dec, data, 0, [])
    {
      match dec(data[offset..]) {
        case Ok((rec, n)) =>
          seen, offset := seen + [rec], offset + n;
        case Err(_) =>
          return;
      }
    }
    ScanEnd(dec, data, seen);
  }

  function Concat<R>(enc: R -> seq<byte>, recs: seq<R>): seq<byte> {
    if recs == [] then [] else enc(recs[0]) + Concat(enc, recs[1..])
  }

  lemma {:induction false} ConcatAppend<R>(enc: R -> seq<byte>, a: seq<R>, b: seq<R>)
    ensures Concat(enc, a + b) == Concat(enc, a) + Concat(enc, b)
  {
    if a == [] {
      assert a + b == b;
    } else {
      assert (a + b)[0] == a[0] && (a + b)[1..] == a[1..] + b;
      ConcatAppend(enc, a[1..], b);
    }
  }

  lemma ConcatSingle<R>(enc: R -> seq<byte>, rec: R)
    ensures Concat(enc, [rec]) == enc(rec)
  {
    assert [rec][1..] == [];
  }

  /** `dec` gives `rec` back from its encoding, whatever follows. */
  ghost predicate Reads<R, E>(enc: R -> seq<byte>, dec: Decoder<R, E>, rec: R) {
    forall rest :: dec(enc(rec) + rest) == Ok((rec, |enc(rec)|))
  }

  lemma ScanOne<R, E>(enc: R -> seq<byte>, dec: Decoder<R, E>, data: seq<byte>, offset: nat, seen: seq<R>, rec: R, rest: seq<byte>)
    requires Advances(dec) && offset <= |data| && Reads(enc, dec, rec) && data[offset..] == enc(rec) + rest
    ensures offset + |enc(rec)| <= |data| && data[offset + |enc(rec)|..] == rest
    ensures Scan(dec, data, offset, seen) == Scan(dec, data, offset + |enc(rec)|, seen + [rec])
  {
    assert data[offset..][|enc(rec)|..] == data[offset + |enc(rec)|..];
  }

  /** The loop reads the frames and goes on with what follows them. */
  lemma {:induction false} ScanOver<R, E>(enc: R -> seq<byte>, dec: Decoder<R, E>, data: seq<byte>, offset: nat, seen: seq<R>,
                                          recs: seq<R>, tail: seq<byte>)
    requires Advances(dec) && offset <= |data| && data[offset..] == Concat(enc, recs) + tail
    requires forall i :: 0 <= i < |recs| ==> Reads(enc, dec, recs[i])
    ensures offset + |Concat(enc, recs)| <= |data| && data[offset + |Concat(enc, recs)|..] == tail
    ensures Scan(dec, data, offset, seen) == Scan(dec, data, offset + |Concat(enc, recs)|, seen + recs)
    decreases |recs|
  {
    if recs == [] {
      assert data[offset..] == tail && seen + [] == seen;
    } else {
      var rest := Concat(enc, recs[1..]) + tail;
      assert data[offset..] == enc(recs[0]) + rest;
      ScanOne(enc, dec, data, offset, seen, recs[0], rest);
      ScanOver(enc, dec, data, offset + |enc(recs[0])|, seen + [recs[0]], recs[1..], tail);
      assert seen + [recs[0]] + recs[1..] == seen + recs;
    }
  }

  lemma ScanStops<R, E>(dec: Decoder<R, E>, data: seq<byte>, offset: nat, seen: seq<R>)
    requires Advances(dec) && offset <= |data| && dec(data[offset..]).Err?
    ensures Scan(dec, data, offset, seen) == (seen, offset)
  {
  }

  /** Frames followed by anything that does not decode are read back exactly. */
  lemma ScanPrefix<R, E>(enc: R -> seq<byte>, dec: Decoder<R, E>, recs: seq<R>, tail: seq<byte>)
    requires Advances(dec) && dec(tail).Err? && forall i :: 0 <= i < |recs| ==> Reads(enc, dec, recs[i])
    ensures Scan(dec, Concat(enc, recs) + tail, 0, []) == (recs, |Concat(enc, recs)|)
  {
    ScanWhole(enc, dec, recs, tail, Concat(enc, recs), Concat(enc, recs) + tail);
  }

  lemma ScanWhole<R, E>(enc: R -> seq<byte>, dec: Decoder<R, E>, recs: seq<R>, tail: seq<byte>, head: seq<byte>, data: seq<byte>)
    requires Advances(dec) && dec(tail).Err? && forall i :: 0 <= i < |recs| ==> Reads(enc, dec, recs[i])
    requires head == Concat(enc, recs) && data == head + tail
    ensures Scan(dec, data, 0, []) == (recs, |head|)
  {
    assert data[0..] == data && data[|head|..] == tail && [] + recs == recs;
    ScanOver(enc, dec, data, 0, [], recs, tail);
    ScanStops(dec, data, |head|, recs);
  }

  /** Where the input starts does not matter. */
  lemma {:induction false} ScanRebased<R, E>(dec: Decoder<R, E>, data: seq<byte>, base: nat, offset: nat, before: seq<R>, seen: seq<R>)
    requires Advances(dec) && base + offset <= |data|
    ensures Scan(dec, data, base + offset, before + seen).0 == before + Scan(dec, data[base..], offset, seen).0
    decreases |data| - offset
  {
    assert data[base..][offset..] == data[base + offset..];
    match dec(data[base + offset..])
    case Err(_) =>
    case Ok((rec, n)) =>
      ScanRebased(dec, data, base, offset + n, before, seen + [rec]);
      assert before + seen + [rec] == before + (seen + [rec]);
  }

  /** Frames followed by anything: first the frames are read, then whatever can be read of the rest. */
  lemma ScanContinues<R, E>(enc: R -> seq<byte>, dec: Decoder<R, E>, recs: seq<R>, tail: seq<byte>)
    requires Advances(dec) && forall i :: 0 <= i < |recs| ==> Reads(enc, dec, recs[i])
    ensures Scan(dec, Concat(enc, recs) + tail, 0, []).0 == recs + Scan(dec, tail, 0, []).0
  {
    var data := Concat(enc, recs) + tail;
    assert data[0..] == data && [] + recs == recs && recs + [] == recs;
    ScanOver(enc, dec, data, 0, [], recs, tail);
    ScanRebased(dec, data, |Concat(enc, recs)|, 0, recs, []);
  }

  // ---------------------------------------------------------------- which frame a byte falls into

  /** How many leading frames lie wholly before byte `p`. */
  function WhollyBefore<R>(enc: R -> seq<byte>, recs: seq<R>, p: nat): (k: nat)
    ensures k <= |recs|
  {
    if recs == [] || |enc(recs[0])| > p then 0 else 1 + WhollyBefore(enc, recs[1..], p - |enc(recs[0])|)
  }

  /** `WhollyBefore` is the largest number of frames that end at or before byte `p`. */
  lemma {:induction false} WhollyBeforeMeaning<R>(enc: R -> seq<byte>, recs: seq<R>, p: nat, k: nat)
    requires k <= |recs|
    ensures k <= WhollyBefore(enc, recs, p) <==> |Concat(enc, recs[..k])| <= p
  {
    if k > 0 {
      assert recs[..k][0] == recs[0] && recs[..k][1..] == recs[1..][..k - 1];
      if |enc(recs[0])| <= p {
        WhollyBeforeMeaning(enc, recs[1..], p - |enc(recs[0])|, k - 1);
      }
    }
  }

  /** The run of frames cut at its `k`-th. */
  lemma ConcatAt<R>(enc: R -> seq<byte>, recs: seq<R>, k: nat)
    requires k < |recs|
    ensures Concat(enc, recs) == Concat(enc, recs[..k]) + (enc(recs[k]) + Concat(enc, recs[k + 1..]))
  {
    assert recs == recs[..k] + recs[k..] && recs[k..] == [recs[k]] + recs[k + 1..];
    ConcatAppend(enc, recs[..k], recs[k..]);
    ConcatAppend(enc, [recs[k]], recs[k + 1..]);
    ConcatSingle(enc, recs[k]);
  }

  /** Byte `p` falls into the frame after those wholly before it. */
  lemma FrameOf<R>(enc: R -> seq<byte>, recs: seq<R>, p: nat)
    requires p < |Concat(enc, recs)|
    ensures var k := WhollyBefore(enc, recs, p);
      k < |recs| && |Concat(enc, recs[..k])| <= p < |Concat(enc, recs[..k])| + |enc(recs[k])|
  {
    var k := WhollyBefore(enc, recs, p);
    WhollyBeforeMeaning(enc, recs, p, k);
    assert recs[..|recs|] == recs;
    if k < |recs| {
      WhollyBeforeMeaning(enc, recs, p, k + 1);
      assert recs[..k + 1] == recs[..k] + [recs[k]];
      ConcatAppend(enc, recs[..k], [recs[k]]);
      ConcatSingle(enc, recs[k]);
    }
  }

  /** Cutting at byte `p`: the decoder sees the frames before it, then part of one frame. */
  lemma ScanTorn<R, E>(enc: R -> seq<byte>, dec: Decoder<R, E>, recs: seq<R>, p: nat)
    requires Advances(dec) && p < |Concat(enc, recs)|
    requires forall i :: 0 <= i < |recs| ==> Reads(enc, dec, recs[i])
    requires forall i, c :: 0 <= i < |recs| && 0 <= c < |enc(recs[i])| ==> dec(enc(recs[i])[..c]).Err?
    ensures var k := WhollyBefore(enc, recs, p);
      Scan(dec, Concat(enc, recs)[..p], 0, []) == (recs[..k], |Concat(enc, recs[..k])|)
  {
    var k := WhollyBefore(enc, recs, p);
    FrameOf(enc, recs, p);
    ConcatAt(enc, recs, k);
    var before := Concat(enc, recs[..k]);
    var tail := enc(recs[k])[..p - |before|];
    assert Concat(enc, recs)[..p] == before + tail;
    ScanPrefix(enc, dec, recs[..k], tail);
  }

  /** Damaging byte `p`: the decoder sees the frames before it, then a frame it rejects. */
  lemma ScanDamaged<R, E>(enc: R -> seq<byte>, dec: Decoder<R, E>, recs: seq<R>, p: nat, b: byte)
    requires Advances(dec) && p < |Concat(enc, recs)| && Concat(enc, recs)[p] != b
    requires forall i :: 0 <= i < |recs| ==> Reads(enc, dec, recs[i])
    requires forall i, q, rest :: 0 <= i < |recs| && 0 <= q < |enc(recs[i])| && enc(recs[i])[q] != b ==>
      dec((enc(recs[i]) + rest)[q := b]).Err?
    ensures var k := WhollyBefore(enc, recs, p);
      Scan(dec, Concat(enc, recs)[p := b], 0, []) == (recs[..k], |Concat(enc, recs[..k])|)
  {
    var k := WhollyBefore(enc, recs, p);
    FrameOf(enc, recs, p);
    ConcatAt(enc, recs, k);
    var before, after := Concat(enc, recs[..k]), Concat(enc, recs[k + 1..]);
    var q := p - |before|;
    var tail := (enc(recs[k]) + after)[q := b];
    assert Concat(enc, recs)[p] == enc(recs[k])[q];
    assert Concat(enc, recs)[p := b] == before + tail;
    ScanPrefix(enc, dec, recs[..k], tail);
  }

  // ---------------------------------------------------------------- dropping what was not read

  /** A frame is read from its own bytes alone. */
  ghost predicate Local<R, E>(dec: Decoder<R, E>) {
    forall d, m :: dec(d).Ok? && dec(d).value.1 <= m <= |d| ==> dec(d[..m]) == dec(d)
  }

  /** Trimming the input to where the loop stopped changes nothing. */
  lemma {:induction false} ScanTrimmed<R, E>(dec: Decoder<R, E>, data: seq<byte>, offset: nat, seen: seq<R>)
    requires Advances(dec) && Local(dec) && offset <= |data|
    ensures var r := Scan(dec, data, offset, seen); offset <= r.1 && Scan(dec, data[..r.1], offset, seen) == r
    decreases |data| - offset
  {
    var r := Scan(dec, data, offset, seen);
    match dec(data[offset..])
    case Err(_) =>
      ScanEnd(dec, data[..r.1], seen);
    case Ok((rec, n)) =>
      ScanTrimmed(dec, data, offset + n, seen + [rec]);
      assert data[..r.1][offset..] == data[offset..][..r.1 - offset];
  }

  // ---------------------------------------------------------------- a known number of frames

  /** Reads `n` frames from `pos` on, after those in `seen`; any failure fails the whole. */
  function ReadCount<R, E>(dec: Decoder<R, E>, data: seq<byte>, pos: nat, n: nat, seen: seq<R>): Result<seq<R>, E>
    requires Advances(dec) && pos <= |data|
    decreases n
  {
    if n == 0 then Ok(seen)
    else
      match dec(data[pos..])
      case Err(e) => Err(e)
      case Ok((rec, k)) => ReadCount(dec, data, pos + k, n - 1, seen + [rec])
  }

  lemma {:induction false} ReadCountRecords<R, E>(enc: R -> seq<byte>, dec: Decoder<R, E>, data: seq<byte>, pos: nat, seen: seq<R>,
                                                  recs: seq<R>)
    requires Advances(dec) && pos <= |data| && data[pos..] == Concat(enc, recs)
    requires forall i :: 0 <= i < |recs| ==> Reads(enc, dec, recs[i])
    ensures ReadCount(dec, data, pos, |recs|, seen) == Ok(seen + recs)
    decreases |recs|
  {
    if recs == [] {
      assert seen + recs == seen;
    } else {
      var k, rest := |enc(recs[0])|, Concat(enc, recs[1..]);
      assert dec(enc(recs[0]) + rest) == Ok((recs[0], k));
      assert data[pos..][k..] == data[pos + k..];
      ReadCountRecords(enc, dec, data, pos + k, seen + [recs[0]], recs[1..]);
      assert seen + [recs[0]] + recs[1..] == seen + recs;
    }
  }

  lemma {:induction false} ReadCountLength<R, E>(dec: Decoder<R, E>, data: seq<byte>, pos: nat, n: nat, seen: seq<R>)
    requires Advances(dec) && pos <= |data| && ReadCount(dec, data, pos, n, seen).Ok?
    ensures |ReadCount(dec, data, pos, n, seen).value| == |seen| + n
    decreases n
  {
    if n > 0 {
      var (rec, k) := dec(data[pos..]).value;
      ReadCountLength(dec, data, pos + k, n - 1, seen + [rec]);
    }
  }

  method ReadExactly<R, E>(dec: Decoder<R, E>, data: seq<byte>, start: nat, n: nat) returns (r: Result<seq<R>, E>)
    requires Advances(dec) && start <= |data|
    ensures r == ReadCount(dec, data, start, n, [])
  {
    var pos: nat, seen: seq<R> := start, [];
    for i := 0 to n
      invariant pos <= |data| && ReadCount(dec, data, pos, n - i, seen) == ReadCount(dec, data, start, n, [])
    {
      match dec(data[pos..]) {
        case Err(e) =>
          return Err(e);
        case Ok((rec, k)) =>
          seen, pos := seen + [rec], pos + k;
      }
    }
    r := Ok(seen);
  }

  /** Frames behind a header are read back exactly, if the right number is asked for. */
  lemma CountedFrames<R, E>(enc: R -> seq<byte>, dec: Decoder<R, E>, head: seq<byte>, recs: seq<R>)
    requires Advances(dec) && forall i :: 0 <= i < |recs| ==> Reads(enc, dec, recs[i])
    ensures ReadCount(dec, head + Concat(enc, recs), |head|, |recs|, []) == Ok(recs)
  {
    var data := head + Concat(enc, recs);
    assert data[|head|..] == Concat(enc, recs) && [] + recs == recs;
    ReadCountRecords(enc, dec, data, |head|, [], recs);
  }

  /** Asking for another number of frames gives something else, if anything. */
  lemma MiscountedFrames<R, E>(dec: Decoder<R, E>, data: seq<byte>, pos: nat, n: nat, recs: seq<R>)
    requires Advances(dec) && pos <= |data| && n != |recs|
    ensures ReadCount(dec, data, pos, n, []) != Ok(recs)
  {
    if ReadCount(dec, data, pos, n, []).Ok? {
      ReadCountLength(dec, data, pos, n, []);
    }
  }
}
