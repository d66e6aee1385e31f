/** Log record framing: what `encode` writes, what `decode` accepts, and that damage is noticed. */
module WalCodec {
  import opened Common
  import opened Checksum
  import opened LittleEndian

  datatype RecordKind = PageWrite | Commit | Checkpoint

  datatype WalRecord = WalRecord(lsn: nat, kind: RecordKind, blockId: nat, payload: seq<byte>)

  datatype WalError = NoSpace | Malformed | BadChecksum | UnknownKind(tag: byte)

  function Tag(kind: RecordKind): byte {
    match kind
    case PageWrite => 1
    case Commit => 2
    case Checkpoint => 3
  }

  function KindOf(tag: byte): Option<RecordKind> {
    if tag == 1 then Some(PageWrite)
    else if tag == 2 then Some(Commit)
    else if tag == 3 then Some(Checkpoint)
    else None
  }

  /** lsn + kind + block id + payload length. */
  const HEADER_LEN: nat := 21

  /** The fields fit their widths: u64 lsn and block id, u32 body length. */
  predicate Fits(rec: WalRecord) {
    && rec.lsn < 0x1_0000_0000_0000_0000 && rec.blockId < 0x1_0000_0000_0000_0000
    && HEADER_LEN + |rec.payload| + 4 < 0x1_0000_0000
  }

  function EncodedLen(rec: WalRecord): nat {
    4 + HEADER_LEN + |rec.payload| + 4
  }

  /** The checksummed part of a record. */
  function Body(rec: WalRecord): (s: seq<byte>)
    ensures |s| == HEADER_LEN + |rec.payload|
  {
    LE(rec.lsn, 8) + [Tag(rec.kind)] + LE(rec.blockId, 8) + LE(|rec.payload|, 4) + rec.payload
  }

  function Encoded(rec: WalRecord): (s: seq<byte>)
    ensures |s| == EncodedLen(rec)
  {
    LE(HEADER_LEN + |rec.payload| + 4, 4) + Body(rec) + LE(Crc32(Body(rec)), 4)
  }

  /** What decoding makes of `data`: the checks of the implementation in its order. */
  function Decoded(data: seq<byte>): Result<(WalRecord, nat), WalError> {
    if |data| < 4 then Err(Malformed)
    else
      var bodyLen := FromLE(data[..4]);
      if |data| - 4 < bodyLen || |data| < 13 then Err(Malformed)
      else
        var kind := KindOf(data[12]);
        if kind.None? then Err(UnknownKind(data[12]))
        else if |data| < 25 then Err(Malformed)
        else
          var payloadLen := FromLE(data[21..25]);
          if |data| - 25 < payloadLen + 4 || HEADER_LEN + payloadLen + 4 != bodyLen then Err(Malformed)
          else if Crc32(data[4..25 + payloadLen]) != FromLE(data[25 + payloadLen..29 + payloadLen]) then Err(BadChecksum)
          else
            Ok((WalRecord(FromLE(data[4..12]), kind.value, FromLE(data[13..21]), data[25..25 + payloadLen]), 4 + bodyLen))
  }

  // ---------------------------------------------------------------- the fields of an encoded record

  lemma BodyFields(rec: WalRecord)
    ensures var body, n := Body(rec), |rec.payload|;
      && body[..8] == LE(rec.lsn, 8) && body[8] == Tag(rec.kind) && body[9..17] == LE(rec.blockId, 8)
      && body[17..21] == LE(n, 4) && body[21..] == rec.payload
  {
  }

  lemma Slices<T>(s: seq<T>, a: seq<T>, b: seq<T>, c: seq<T>)
    requires |a| + |b| + |c| <= |s| && s[..|a| + |b| + |c|] == a + b + c
    ensures s[..|a|] == a && s[|a|..|a| + |b|] == b && s[|a| + |b|..|a| + |b| + |c|] == c
  {
    var t := s[..|a| + |b| + |c|];
    assert t[..|a|] == a && t[|a|..|a| + |b|] == b && t[|a| + |b|..] == c;
  }

  lemma SubSlice(s: seq<byte>, lo: nat, hi: nat, x: nat, y: nat)
    requires lo <= hi <= |s| && x <= y <= hi - lo
    ensures s[lo..hi][x..y] == s[lo + x..lo + y]
  {
    var a, b := s[lo..hi][x..y], s[lo + x..lo + y];
    assert |a| == |b|;
    forall k | 0 <= k < |a| ensures a[k] == b[k] {
      assert a[k] == s[lo..hi][x + k] == s[lo + x + k];
    }
  }

  /** A record is read from its own bytes alone. */
  lemma DecodedLocal(data: seq<byte>, m: nat)
    requires Decoded(data).Ok? && Decoded(data).value.1 <= m <= |data|
    ensures Decoded(data[..m]) == Decoded(data)
  {
    var n := FromLE(data[21..25]);
    assert data[..m][..4] == data[..4];
    SubSlice(data, 0, m, 4, 12);
    SubSlice(data, 0, m, 13, 21);
    SubSlice(data, 0, m, 21, 25);
    SubSlice(data, 0, m, 25, 25 + n);
    SubSlice(data, 0, m, 4, 25 + n);
    SubSlice(data, 0, m, 25 + n, 29 + n);
  }

  /** Where each field of an encoded record sits. */
  lemma Fields(rec: WalRecord, data: seq<byte>)
    requires EncodedLen(rec) <= |data| && data[..EncodedLen(rec)] == Encoded(rec)
    ensures var n := |rec.payload|;
      && data[..4] == LE(HEADER_LEN + n + 4, 4) && data[4..12] == LE(rec.lsn, 8) && data[12] == Tag(rec.kind)
      && data[13..21] == LE(rec.blockId, 8) && data[21..25] == LE(n, 4) && data[25..25 + n] == rec.payload
      && data[4..25 + n] == Body(rec) && data[25 + n..29 + n] == LE(Crc32(Body(rec)), 4)
  {
    var n := |rec.payload|;
    BodyFields(rec);
    Slices(data, LE(HEADER_LEN + n + 4, 4), Body(rec), LE(Crc32(Body(rec)), 4));
    SubSlice(data, 4, 25 + n, 0, 8);
    SubSlice(data, 4, 25 + n, 9, 17);
    SubSlice(data, 4, 25 + n, 17, 21);
    SubSlice(data, 4, 25 + n, 21, 21 + n);
  }

  /** What the numeric fields of an encoded record read as. */
  lemma FieldValues(rec: WalRecord, data: seq<byte>)
    requires Fits(rec) && EncodedLen(rec) <= |data| && data[..EncodedLen(rec)] == Encoded(rec)
    ensures var n := |rec.payload|;
      && FromLE(data[..4]) == HEADER_LEN + n + 4 && FromLE(data[4..12]) == rec.lsn && data[12] == Tag(rec.kind)
      && FromLE(data[13..21]) == rec.blockId && FromLE(data[21..25]) == n && data[25..25 + n] == rec.payload
      && FromLE(data[25 + n..29 + n]) == Crc32(data[4..25 + n])
  {
    Fields(rec, data);
    Widths();
    RoundTrip(HEADER_LEN + |rec.payload| + 4, 4);
    RoundTrip(rec.lsn, 8);
    RoundTrip(rec.blockId, 8);
    RoundTrip(|rec.payload|, 4);
    CrcBound(Body(rec));
    RoundTrip(Crc32(Body(rec)), 4);
  }

  /** Decoding what was encoded gives the record back, whatever follows it. */
  lemma DecodeEncoded(rec: WalRecord, data: seq<byte>)
    requires Fits(rec) && EncodedLen(rec) <= |data| && data[..EncodedLen(rec)] == Encoded(rec)
    ensures Decoded(data) == Ok((rec, EncodedLen(rec)))
  {
    FieldValues(rec, data);
    assert KindOf(data[12]) == Some(rec.kind);
  }

  /** A proper prefix of an encoded record is never accepted. */
  lemma TornRecord(rec: WalRecord, c: nat)
    requires Fits(rec) && c < EncodedLen(rec)
    ensures Decoded(Encoded(rec)[..c]) == Err(Malformed)
  {
    var data := Encoded(rec)[..c];
    if c >= 4 {
      assert data[..4] == Encoded(rec)[..4] == LE(HEADER_LEN + |rec.payload| + 4, 4);
      Widths();
      RoundTrip(HEADER_LEN + |rec.payload| + 4, 4);
    }
  }

  // ---------------------------------------------------------------- nothing else decodes

  /** Bytes are the encoding of the number they read as. */
  lemma Rewritten(s: seq<byte>, k: nat)
    requires |s| == k
    ensures LE(FromLE(s), k) == s && FromLE(s) < Pow256(k)
  {
    FromLEBound(s);
    RoundTrip(FromLE(s), k);
    FromLEInjective(LE(FromLE(s), k), s);
  }

  lemma Adjacent(s: seq<byte>, a: nat, b: nat, c: nat)
    requires a <= b <= c <= |s|
    ensures s[a..b] + s[b..c] == s[a..c]
  {
  }

  /** The parts of a record, put together again. */
  lemma Joined(data: seq<byte>, n: nat, rec: WalRecord)
    requires 29 + n <= |data| && |rec.payload| == n
    requires data[..4] == LE(25 + n, 4) && data[4..12] == LE(rec.lsn, 8) && data[12] == Tag(rec.kind) && data[13..21] == LE(rec.blockId, 8)
    requires data[21..25] == LE(n, 4) && data[25..25 + n] == rec.payload && data[25 + n..29 + n] == LE(Crc32(data[4..25 + n]), 4)
    ensures data[..29 + n] == Encoded(rec)
  {
    assert [data[12]] == data[12..13];
    Adjacent(data, 4, 12, 13);
    Adjacent(data, 4, 13, 21);
    Adjacent(data, 4, 21, 25);
    Adjacent(data, 4, 25, 25 + n);
    assert data[..4] == data[0..4] && data[..29 + n] == data[0..29 + n];
    Adjacent(data, 0, 4, 25 + n);
    Adjacent(data, 0, 25 + n, 29 + n);
  }

  lemma DecodedIsEncoded(data: seq<byte>)
    requires Decoded(data).Ok?
    ensures var (rec, n) := Decoded(data).value; Fits(rec) && n == EncodedLen(rec) <= |data| && data[..n] == Encoded(rec)
  {
    var (rec, _) := Decoded(data).value;
    var n := FromLE(data[21..25]);
    Widths();
    Rewritten(data[..4], 4);
    Rewritten(data[4..12], 8);
    Rewritten(data[13..21], 8);
    Rewritten(data[21..25], 4);
    Rewritten(data[25 + n..29 + n], 4);
    Joined(data, n, rec);
  }

  /** Decoding accepts the encodings of records, whatever follows them, and nothing else. */
  lemma DecodedExactly(data: seq<byte>, rec: WalRecord, n: nat)
    ensures Decoded(data) == Ok((rec, n)) <==> Fits(rec) && n == EncodedLen(rec) <= |data| && data[..n] == Encoded(rec)
  {
    if Decoded(data).Ok? {
      DecodedIsEncoded(data);
    }
    if Fits(rec) && n == EncodedLen(rec) <= |data| && data[..n] == Encoded(rec) {
      DecodeEncoded(rec, data);
    }
  }

  // ---------------------------------------------------------------- one damaged byte

  lemma ChangedFieldDiffers(a: seq<byte>, i: nat, b: byte)
    requires i < |a| && a[i] != b
    ensures FromLE(a[i := b]) != FromLE(a)
  {
    assert a[i := b][i] == b;
    if FromLE(a[i := b]) == FromLE(a) {
      FromLEInjective(a[i := b], a);
    }
  }

  /** Damage to the record-length field contradicts the payload length. */
  lemma DamagedLength(rec: WalRecord, data: seq<byte>, p: nat, b: byte)
    requires Fits(rec) && EncodedLen(rec) <= |data| && data[..EncodedLen(rec)] == Encoded(rec)
    requires p < 4 && data[p] != b
    ensures Decoded(data[p := b]) == Err(Malformed)
  {
    var data' := data[p := b];
    FieldValues(rec, data);
    assert data'[..4] == data[..4][p := b] && data'[21..25] == data[21..25];
    ChangedFieldDiffers(data[..4], p, b);
  }

  /** Damage to the payload-length field contradicts the record length. */
  lemma DamagedPayloadLength(rec: WalRecord, data: seq<byte>, p: nat, b: byte)
    requires Fits(rec) && EncodedLen(rec) <= |data| && data[..EncodedLen(rec)] == Encoded(rec)
    requires 21 <= p < 25 && data[p] != b
    ensures Decoded(data[p := b]) == Err(Malformed)
  {
    var data' := data[p := b];
    FieldValues(rec, data);
    assert data'[..4] == data[..4] && data'[21..25] == data[21..25][p - 21 := b];
    ChangedFieldDiffers(data[21..25], p - 21, b);
  }

  /** Any other damage is caught by the kind check or the checksum. */
  lemma DamagedBody(rec: WalRecord, data: seq<byte>, p: nat, b: byte)
    requires Fits(rec) && EncodedLen(rec) <= |data| && data[..EncodedLen(rec)] == Encoded(rec)
    requires (4 <= p < 21 || 25 <= p < EncodedLen(rec)) && data[p] != b
    ensures Decoded(data[p := b]) == Err(if p == 12 && !(1 <= b <= 3) then UnknownKind(b) else BadChecksum)
  {
    FieldValues(rec, data);
    DamagedSlices(data, |rec.payload|, p, b);
    assert data[p := b][..4] == data[..4] && data[p := b][21..25] == data[21..25];
    WrongChecksum(data[p := b], |rec.payload|);
    assert data[12] == Tag(rec.kind) && data[p := b][12] == if p == 12 then b else data[12];
  }

  lemma WrongChecksum(data: seq<byte>, n: nat)
    requires 29 + n <= |data| && FromLE(data[..4]) == 25 + n && FromLE(data[21..25]) == n
    requires Crc32(data[4..25 + n]) != FromLE(data[25 + n..29 + n])
    ensures Decoded(data) == Err(if KindOf(data[12]).None? then UnknownKind(data[12]) else BadChecksum)
  {
  }

  lemma DamagedSlices(data: seq<byte>, n: nat, p: nat, b: byte)
    requires 29 + n <= |data| && 4 <= p < 29 + n && data[p] != b && Crc32(data[4..25 + n]) == FromLE(data[25 + n..29 + n])
    ensures var data' := data[p := b]; Crc32(data'[4..25 + n]) != FromLE(data'[25 + n..29 + n])
  {
    var data' := data[p := b];
    DamagedChecksum(data[4..25 + n], data[25 + n..29 + n], p - 4, b);
    if p < 25 + n {
      assert data'[4..25 + n] == data[4..25 + n][p - 4 := b] && data'[25 + n..29 + n] == data[25 + n..29 + n];
    } else {
      assert data'[4..25 + n] == data[4..25 + n];
      assert data'[25 + n..29 + n] == data[25 + n..29 + n][p - 25 - n := b];
    }
  }

  /** A body and its stored checksum stop matching when one byte of either changes. */
  lemma DamagedChecksum(body: seq<byte>, stored: seq<byte>, i: nat, b: byte)
    requires Crc32(body) == FromLE(stored) && i < |body| + |stored| && (body + stored)[i] != b
    ensures i < |body| ==> Crc32(body[i := b]) != FromLE(stored)
    ensures i >= |body| ==> Crc32(body) != FromLE(stored[i - |body| := b])
  {
    if i < |body| {
      OneByteChangesCrc(body, i, b);
    } else {
      ChangedFieldDiffers(stored, i - |body|, b);
    }
  }

  /** Changing any one byte of a record makes it undecodable, whatever follows it; the byte's place says with which error. */
  lemma DamagedRecord(rec: WalRecord, data: seq<byte>, p: nat, b: byte)
    requires Fits(rec) && EncodedLen(rec) <= |data| && data[..EncodedLen(rec)] == Encoded(rec)
    requires p < EncodedLen(rec) && data[p] != b
    ensures Decoded(data[p := b]) ==
            Err(if p < 4 || 21 <= p < 25 then Malformed else if p == 12 && !(1 <= b <= 3) then UnknownKind(b) else BadChecksum)
  {
    if p < 4 {
      DamagedLength(rec, data, p, b);
    } else if 21 <= p < 25 {
      DamagedPayloadLength(rec, data, p, b);
    } else {
      DamagedBody(rec, data, p, b);
    }
  }

  // ---------------------------------------------------------------- the implementation's methods

  lemma BodySplit(rec: WalRecord)
    ensures Body(rec) == Body(rec)[..HEADER_LEN] + rec.payload
  {
    BodyFields(rec);
    assert Body(rec) == Body(rec)[..HEADER_LEN] + Body(rec)[HEADER_LEN..];
  }

  /** Writes the length, header and payload fields of `rec`. */
  method PutFields(rec: WalRecord, c: Cursor) returns (r: Result<(), OutOfSpace>)
    requires c.Valid() && c.pos == 0
    modifies c, c.buf
    ensures c.Valid()
    ensures EncodedLen(rec) - 4 <= c.buf.Length <==> r.Ok?
    ensures r.Ok? ==> c.pos == EncodedLen(rec) - 4
    ensures r.Ok? ==> c.buf[..c.pos] == LE(HEADER_LEN + |rec.payload| + 4, 4) + Body(rec)
    ensures r.Ok? ==> forall j :: c.pos <= j < c.buf.Length ==> c.buf[j] == old(c.buf[j])
  {
    r := c.PutU32(HEADER_LEN + |rec.payload| + 4);
    if r.Err? { return; }
    assert c.buf[..4] == LE(HEADER_LEN + |rec.payload| + 4, 4);
    r := PutBody(rec, c);
  }

  method PutBody(rec: WalRecord, c: Cursor) returns (r: Result<(), OutOfSpace>)
    requires c.Valid()
    modifies c, c.buf
    ensures c.Valid()
    ensures old(c.pos) + |Body(rec)| <= c.buf.Length <==> r.Ok?
    ensures r.Ok? ==> c.pos == old(c.pos) + |Body(rec)|
    ensures r.Ok? ==> c.buf[..c.pos] == old(c.buf[..c.pos]) + Body(rec)
    ensures r.Ok? ==> forall j :: c.pos <= j < c.buf.Length ==> c.buf[j] == old(c.buf[j])
  {
    ghost var before := c.buf[..c.pos];
    r := PutHeader(rec, c);
    if r.Err? { return; }
    r := c.PutBytes(rec.payload);
    if r.Err? { return; }
    BodySplit(rec);
    assert c.buf[..c.pos] == before + Body(rec)[..HEADER_LEN] + rec.payload;
    assert before + Body(rec)[..HEADER_LEN] + rec.payload == before + (Body(rec)[..HEADER_LEN] + rec.payload);
  }

  method PutHeader(rec: WalRecord, c: Cursor) returns (r: Result<(), OutOfSpace>)
    requires c.Valid()
    modifies c, c.buf
    ensures c.Valid()
    ensures old(c.pos) + HEADER_LEN <= c.buf.Length <==> r.Ok?
    ensures r.Ok? ==> c.pos == old(c.pos) + HEADER_LEN
    ensures r.Ok? ==> c.buf[..c.pos] == old(c.buf[..c.pos]) + Body(rec)[..HEADER_LEN]
    ensures r.Ok? ==> forall j :: c.pos <= j < c.buf.Length ==> c.buf[j] == old(c.buf[j])
  {
    ghost var before, start := c.buf[..], c.pos;
    r := c.PutU64(rec.lsn);
    if r.Err? { return; }
    r := c.PutU8(Tag(rec.kind) as nat);
    if r.Err? { return; }
    assert LE(Tag(rec.kind) as nat, 1) == [Tag(rec.kind)];
    r := c.PutU64(rec.blockId);
    if r.Err? { return; }
    r := c.PutU32(|rec.payload|);
    if r.Err? { return; }
    assert c.buf[..c.pos] == before[..start] + Body(rec)[..HEADER_LEN];
  }

  /** Encodes into `out` through cursors: all fields, then the checksum of what was written. */
  method Encode(rec: WalRecord, out: array<byte>) returns (r: Result<nat, WalError>)
    modifies out
    ensures EncodedLen(rec) <= out.Length ==> r == Ok(EncodedLen(rec)) && out[..EncodedLen(rec)] == Encoded(rec)
    ensures forall j :: EncodedLen(rec) <= j < out.Length ==> out[j] == old(out[j])
    ensures EncodedLen(rec) > out.Length ==> r == Err(NoSpace)
  {
    var c := new Cursor(out, 0);
    var ok := PutFields(rec, c);
    if ok.Err? { return Err(NoSpace); }
    var end := c.pos;
    assert out[..end][4..] == Body(rec) == out[4..end];
    var crc := ComputeCrc32(out[4..end]);
    c := new Cursor(out, end);
    ok := c.PutU32(crc);
    if ok.Err? { return Err(NoSpace); }
    r := Ok(end + 4);
  }

  /** Decodes the record at the front of `data`. */
  method Decode(data: seq<byte>) returns (r: Result<(WalRecord, nat), WalError>)
    ensures r == Decoded(data)
  {
    var rd := new Reader(data);
    var bodyLen := rd.ReadUint(4);
    if bodyLen.Err? || |data| - rd.pos < bodyLen.value { return Err(Malformed); }
    var bodyStart := rd.pos;
    var lsn := rd.ReadUint(8);
    if lsn.Err? { return Err(Malformed); }
    var tag := rd.Take(1);
    if tag.Err? { return Err(Malformed); }
    var kind := KindOf(tag.value[0]);
    if kind.None? { return Err(UnknownKind(tag.value[0])); }
    var blockId := rd.ReadUint(8);
    if blockId.Err? { return Err(Malformed); }
    var payloadLen := rd.ReadUint(4);
    if payloadLen.Err? { return Err(Malformed); }
    var payload := rd.Take(payloadLen.value);
    if payload.Err? { return Err(Malformed); }
    var stored := rd.ReadUint(4);
    if stored.Err? { return Err(Malformed); }
    var bodyEnd := rd.pos;
    if bodyEnd - bodyStart != bodyLen.value { return Err(Malformed); }
    var computed := ComputeCrc32(data[bodyStart..bodyEnd - 4]);
    if computed != stored.value { return Err(BadChecksum); }
    r := Ok((WalRecord(lsn.value, kind.value, blockId.value, payload.value), 4 + bodyLen.value));
  }

  // ---------------------------------------------------------------- the bytes of a record

  /**
    A record byte by byte: the length of what follows it, the number, the kind (1 page write, 2
    commit, 3 checkpoint), the block, the length of the payload, the payload, and the CRC of all but
    the first four bytes and the CRC itself.
  */
  lemma RecordLayout(rec: WalRecord)
    ensures var s, n := Encoded(rec), |rec.payload|;
      && |s| == 29 + n && HoldsNumber(s, 0, 4, 25 + n) && HoldsNumber(s, 4, 8, rec.lsn)
      && s[12] == (if rec.kind == PageWrite then 1 else if rec.kind == Commit then 2 else 3)
      && HoldsNumber(s, 13, 8, rec.blockId) && HoldsNumber(s, 21, 4, n) && s[25..25 + n] == rec.payload
      && HoldsNumber(s, 25 + n, 4, Crc32(s[4..25 + n]))
  {
    var s, n := Encoded(rec), |rec.payload|;
    assert s[..|s|] == s;
    Fields(rec, s);
    assert s[0..4] == s[..4];
    NumberAt(s, 0, 4, 25 + n);
    NumberAt(s, 4, 8, rec.lsn);
    NumberAt(s, 13, 8, rec.blockId);
    NumberAt(s, 21, 4, n);
    NumberAt(s, 25 + n, 4, Crc32(s[4..25 + n]));
  }
}
