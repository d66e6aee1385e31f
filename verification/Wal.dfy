/** The write-ahead log: append, replay, reload, truncate; and what survives a torn or damaged log. */
module Wal {
  import opened Common
  import opened WalCodec
  import Framing

  /** The bytes of a run of records. */
  function LogBytes(recs: seq<WalRecord>): seq<byte> {
    Framing.Concat(Encoded, recs)
  }

  predicate AllFit(recs: seq<WalRecord>) {
    forall i :: 0 <= i < |recs| ==> Fits(recs[i])
  }

  lemma DecoderAdvances()
    ensures Framing.Advances(Decoded)
  {
  }

  /** The intact records at the front of `data`: reading stops at the first record that fails. */
  ghost function Intact(data: seq<byte>): seq<WalRecord> {
    DecoderAdvances();
    Framing.Scan(Decoded, data, 0, []).0
  }

  /** How many bytes those records take. */
  ghost function IntactLen(data: seq<byte>): (n: nat)
    ensures n <= |data|
  {
    DecoderAdvances();
    Framing.Scan(Decoded, data, 0, []).1
  }

  lemma RecordReads(rec: WalRecord)
    requires Fits(rec)
    ensures Framing.Reads(Encoded, Decoded, rec)
  {
    forall rest ensures Decoded(Encoded(rec) + rest) == Ok((rec, |Encoded(rec)|)) {
      assert (Encoded(rec) + rest)[..EncodedLen(rec)] == Encoded(rec);
      DecodeEncoded(rec, Encoded(rec) + rest);
    }
  }

  lemma RecordsRead(recs: seq<WalRecord>)
    requires AllFit(recs)
    ensures forall i :: 0 <= i < |recs| ==> Framing.Reads(Encoded, Decoded, recs[i])
  {
    forall i | 0 <= i < |recs| ensures Framing.Reads(Encoded, Decoded, recs[i]) {
      RecordReads(recs[i]);
    }
  }

  // ---------------------------------------------------------------- numbering

  /** Records numbered consecutively from zero, as `append` numbers them. */
  predicate Numbered(recs: seq<WalRecord>) {
    forall i :: 0 <= i < |recs| ==> recs[i].lsn == i
  }

  /** One past the last record, zero for an empty log. */
  function NextLsn(recs: seq<WalRecord>): nat {
    if recs == [] then 0 else recs[|recs| - 1].lsn + 1
  }

  // ---------------------------------------------------------------- what is read back

  /** Records followed by anything that does not decode: exactly the records are intact. */
  lemma IntactPrefix(recs: seq<WalRecord>, tail: seq<byte>)
    requires AllFit(recs) && Decoded(tail).Err?
    ensures Intact(LogBytes(recs) + tail) == recs && IntactLen(LogBytes(recs) + tail) == |LogBytes(recs)|
  {
    DecoderAdvances();
    RecordsRead(recs);
    Framing.ScanPrefix(Encoded, Decoded, recs, tail);
  }

  /** Records followed by anything: they are intact, and so is what is intact of the rest. */
  lemma IntactThen(recs: seq<WalRecord>, tail: seq<byte>)
    requires AllFit(recs)
    ensures Intact(LogBytes(recs) + tail) == recs + Intact(tail)
  {
    DecoderAdvances();
    RecordsRead(recs);
    Framing.ScanContinues(Encoded, Decoded, recs, tail);
  }

  /** Reading back an undamaged log. */
  lemma IntactLog(recs: seq<WalRecord>)
    requires AllFit(recs)
    ensures Intact(LogBytes(recs)) == recs && IntactLen(LogBytes(recs)) == |LogBytes(recs)|
  {
    IntactPrefix(recs, []);
    assert LogBytes(recs) + [] == LogBytes(recs);
  }

  /** How many leading records of a log lie wholly before byte `p`. */
  function WhollyBefore(recs: seq<WalRecord>, p: nat): (k: nat)
    ensures k <= |recs|
  {
    Framing.WhollyBefore(Encoded, recs, p)
  }

  /** `k` records lie wholly before byte `p` exactly when their bytes end there or earlier. */
  lemma WhollyBeforeMeaning(recs: seq<WalRecord>, p: nat, k: nat)
    requires k <= |recs|
    ensures k <= WhollyBefore(recs, p) <==> |LogBytes(recs[..k])| <= p
  {
    Framing.WhollyBeforeMeaning(Encoded, recs, p, k);
  }

  /** A log cut at any byte keeps exactly the records that end before the cut. */
  lemma TornLog(recs: seq<WalRecord>, p: nat)
    requires AllFit(recs) && p < |LogBytes(recs)|
    ensures var k := WhollyBefore(recs, p); var data := LogBytes(recs)[..p];
      && Intact(data) == recs[..k] && IntactLen(data) == |LogBytes(recs[..k])|
      && (Numbered(recs) ==> NextLsn(Intact(data)) == k)
  {
    DecoderAdvances();
    RecordsRead(recs);
    forall i, c | 0 <= i < |recs| && 0 <= c < |Encoded(recs[i])| ensures Decoded(Encoded(recs[i])[..c]).Err? {
      TornRecord(recs[i], c);
    }
    Framing.ScanTorn(Encoded, Decoded, recs, p);
  }

  /** A log with any one byte changed keeps exactly the records that end before that byte. */
  lemma DamagedLog(recs: seq<WalRecord>, p: nat, b: byte)
    requires AllFit(recs) && p < |LogBytes(recs)| && LogBytes(recs)[p] != b
    ensures var k := WhollyBefore(recs, p); var data := LogBytes(recs)[p := b];
      && Intact(data) == recs[..k] && IntactLen(data) == |LogBytes(recs[..k])|
      && (Numbered(recs) ==> NextLsn(Intact(data)) == k)
  {
    DecoderAdvances();
    RecordsRead(recs);
    forall i, q, rest | 0 <= i < |recs| && 0 <= q < |Encoded(recs[i])| && Encoded(recs[i])[q] != b
      ensures Decoded((Encoded(recs[i]) + rest)[q := b]).Err?
    {
      var e := Encoded(recs[i]);
      assert (e + rest)[..|e|] == e;
      DamagedRecord(recs[i], e + rest, q, b);
    }
    Framing.ScanDamaged(Encoded, Decoded, recs, p, b);
  }

  lemma PrefixBytes(recs: seq<WalRecord>, k: nat)
    requires k <= |recs|
    ensures |LogBytes(recs[..k])| <= |LogBytes(recs)|
    ensures LogBytes(recs)[..|LogBytes(recs[..k])|] == LogBytes(recs[..k])
  {
    Framing.ConcatAppend(Encoded, recs[..k], recs[k..]);
    assert recs == recs[..k] + recs[k..];
  }

  /** A log reloaded from damaged bytes replays the same records again. */
  lemma ReloadedLog(data: seq<byte>)
    ensures Intact(data[..IntactLen(data)]) == Intact(data) && IntactLen(data[..IntactLen(data)]) == IntactLen(data)
  {
    DecoderAdvances();
    forall d, m | Decoded(d).Ok? && Decoded(d).value.1 <= m <= |d| ensures Decoded(d[..m]) == Decoded(d) {
      DecodedLocal(d, m);
    }
    Framing.ScanTrimmed(Decoded, data, 0, []);
  }

  // ---------------------------------------------------------------- the log object

  class Log {
    var bytes: seq<byte>
    var nextLsn: nat

    /** The records this log holds. */
    ghost var records: seq<WalRecord>

    ghost predicate Valid()
      reads this
    {
      bytes == LogBytes(records) && Numbered(records) && nextLsn == |records|
    }

    constructor ()
      ensures Valid() && records == []
    {
      bytes := [];
      nextLsn := 0;
      records := [];
    }

    /** Reloads a log from stored bytes, dropping whatever does not decode. */
    constructor FromBytes(data: seq<byte>)
      ensures bytes == data[..IntactLen(data)] && nextLsn == NextLsn(Intact(data))
    {
      var kept, next := Reload(data);
      bytes, nextLsn := kept, next;
      records := Intact(data);
    }

    method Append(kind: RecordKind, blockId: nat, payload: seq<byte>) returns (lsn: nat)
      requires Valid()
      modifies this
      ensures Valid()
      ensures lsn == old(nextLsn) && records == old(records) + [WalRecord(lsn, kind, blockId, payload)]
      ensures bytes == old(bytes) + Encoded(WalRecord(lsn, kind, blockId, payload))
    {
      lsn := nextLsn;
      var rec := WalRecord(lsn, kind, blockId, payload);
      var frame := new byte[EncodedLen(rec)](_ => 0);
      var n := Encode(rec, frame);
      Framing.ConcatAppend(Encoded, records, [rec]);
      Framing.ConcatSingle(Encoded, rec);
      bytes := bytes + frame[..n.value];
      nextLsn := nextLsn + 1;
      records := records + [rec];
    }

    /** Withdraws every record from the `k`-th on, given the byte length and number the log had then. */
    method Truncate(byteLen: nat, lsn: nat, ghost k: nat)
      requires Valid() && k <= |records| && byteLen == |LogBytes(records[..k])| && lsn == k
      modifies this
      ensures Valid() && records == old(records)[..k]
    {
      PrefixBytes(records, k);
      bytes := bytes[..byteLen];
      nextLsn := lsn;
      records := records[..k];
    }

    /** The records handed to the replay callback, in order. */
    method Replay() returns (seen: seq<WalRecord>)
      ensures seen == Intact(bytes)
    {
      DecoderAdvances();
      var offset;
      seen, offset := Framing.ReadFrames(Decoded, bytes);
    }
  }

  /** The bytes and the next number of a log reloaded from `data`. */
  method Reload(data: seq<byte>) returns (bytes: seq<byte>, nextLsn: nat)
    ensures bytes == data[..IntactLen(data)] && nextLsn == NextLsn(Intact(data))
  {
    DecoderAdvances();
    var seen, offset := Framing.ReadFrames(Decoded, data);
    bytes := data[..offset];
    nextLsn := NextLsn(seen);
  }
}
