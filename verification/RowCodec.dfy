/** The tag-length-value encoding of rows, and that decoding inverts it. */
module RowCodec {
  import opened Common
  import opened Values
  import opened LittleEndian
  import Framing

  datatype CodecError = CorruptRow(id: nat)

  const TWO_64: int := 0x1_0000_0000_0000_0000
  const TWO_63: int := 0x8000_0000_0000_0000

  // ---------------------------------------------------------------- encoding

  function FloatBytes(floats: seq<nat>): (r: seq<byte>)
    ensures |r| == 4 * |floats|
  {
    if floats == [] then [] else LE(floats[0], 4) + FloatBytes(floats[1..])
  }

  function EncodeValue(v: Value): seq<byte> {
    match v
    case Int(i) => [0] + LE(i % TWO_64, 8)
    case Text(t) => [1] + LE(|t|, 4) + t
    case Vector(fs) => [2] + LE(|fs|, 4) + FloatBytes(fs)
    case Float(f) => [4] + LE(f, 4)
    case Bool(b) => [6, if b then 1 else 0]
    case Null => [3]
  }

  /** The column count in two bytes, then the values. */
  function EncodeRow(row: Row): seq<byte> {
    LE(|row|, 2) + Framing.Concat(EncodeValue, row)
  }

  // ---------------------------------------------------------------- decoding

  function Signed(u: nat): int {
    if u >= TWO_63 then u - TWO_64 else u
  }

  function Floats(bytes: seq<byte>): seq<nat>
    requires |bytes| % 4 == 0
  {
    if bytes == [] then [] else [FromLE(bytes[..4])] + Floats(bytes[4..])
  }

  type Decoded = Result<(Value, nat), CodecError>

  function DecodeInt(data: seq<byte>): (r: Decoded)
    ensures r.Ok? ==> 0 < r.value.1 <= |data|
  {
    if |data| < 9 then Err(CorruptRow(0)) else Ok((Int(Signed(FromLE(data[1..9]))), 9))
  }

  function DecodeText(data: seq<byte>): (r: Decoded)
    ensures r.Ok? ==> 0 < r.value.1 <= |data|
  {
    if |data| < 5 then Err(CorruptRow(0))
    else
      var n := FromLE(data[1..5]);
      if |data| < 5 + n then Err(CorruptRow(0)) else Ok((Text(data[5..5 + n]), 5 + n))
  }

  function DecodeVector(data: seq<byte>): (r: Decoded)
    ensures r.Ok? ==> 0 < r.value.1 <= |data|
  {
    if |data| < 5 then Err(CorruptRow(0))
    else
      var n := FromLE(data[1..5]);
      if |data| < 5 + 4 * n then Err(CorruptRow(0)) else Ok((Vector(Floats(data[5..5 + 4 * n])), 5 + 4 * n))
  }

  /** Reads one value off the front and says how many bytes it took; an unknown tag reads as the integer zero. */
  function DecodeValue(data: seq<byte>): (r: Decoded)
    ensures r.Ok? ==> 0 < r.value.1 <= |data|
  {
    if data == [] then Err(CorruptRow(0))
    else if data[0] == 0 then DecodeInt(data)
    else if data[0] == 1 then DecodeText(data)
    else if data[0] == 2 then DecodeVector(data)
    else if data[0] == 3 || data[0] == 5 then Ok((Null, 1))
    else if data[0] == 4 then
      if |data| < 5 then Err(CorruptRow(0)) else Ok((Float(FromLE(data[1..5])), 5))
    else if data[0] == 6 then
      if |data| < 2 then Err(CorruptRow(0)) else Ok((Bool(data[1] != 0), 2))
    else Ok((Int(0), 1))
  }

  lemma DecoderAdvances()
    ensures Framing.Advances(DecodeValue)
  {
  }

  function TryDecodeRow(bytes: seq<byte>): Result<Row, CodecError> {
    if |bytes| < 2 then Err(CorruptRow(0))
    else
      DecoderAdvances();
      Framing.ReadCount(DecodeValue, bytes, 2, FromLE(bytes[..2]), [])
  }

  function DecodeRowValidated(id: nat, bytes: seq<byte>, columns: nat): Result<Row, CodecError> {
    match TryDecodeRow(bytes)
    case Err(e) => Err(e)
    case Ok(row) => if |row| == columns then Ok(row) else Err(CorruptRow(id))
  }

  // ---------------------------------------------------------------- round trip

  /** The value fits its fields: a 64-bit integer, 32-bit lengths and float patterns. */
  predicate Fits(v: Value) {
    match v
    case Int(i) => -TWO_63 <= i < TWO_63
    case Text(t) => |t| < 0x1_0000_0000
    case Vector(fs) => |fs| < 0x1_0000_0000 && forall i :: 0 <= i < |fs| ==> fs[i] < 0x1_0000_0000
    case Float(f) => f < 0x1_0000_0000
    case _ => true
  }

  lemma RoundTrip4(n: nat)
    requires n < 0x1_0000_0000
    ensures FromLE(LE(n, 4)) == n
  {
    Widths();
    RoundTrip(n, 4);
  }

  lemma {:induction false} FloatsRoundTrip(fs: seq<nat>)
    requires forall i :: 0 <= i < |fs| ==> fs[i] < 0x1_0000_0000
    ensures Floats(FloatBytes(fs)) == fs
  {
    if fs != [] {
      var b := FloatBytes(fs);
      assert b[..4] == LE(fs[0], 4) && b[4..] == FloatBytes(fs[1..]);
      RoundTrip4(fs[0]);
      FloatsRoundTrip(fs[1..]);
    }
  }

  lemma IntRoundTrip(i: int, rest: seq<byte>)
    requires -TWO_63 <= i < TWO_63
    ensures DecodeValue(EncodeValue(Int(i)) + rest) == Ok((Int(i), 9))
  {
    var data := EncodeValue(Int(i)) + rest;
    Widths();
    RoundTrip(i % TWO_64, 8);
    assert data[1..9] == LE(i % TWO_64, 8);
  }

  lemma TextRoundTrip(t: seq<byte>, rest: seq<byte>)
    requires |t| < 0x1_0000_0000
    ensures DecodeValue(EncodeValue(Text(t)) + rest) == Ok((Text(t), 5 + |t|))
  {
    var data := EncodeValue(Text(t)) + rest;
    RoundTrip4(|t|);
    assert data[1..5] == LE(|t|, 4);
    assert data[5..5 + |t|] == t;
  }

  lemma VectorRoundTrip(fs: seq<nat>, rest: seq<byte>)
    requires Fits(Vector(fs))
    ensures DecodeValue(EncodeValue(Vector(fs)) + rest) == Ok((Vector(fs), 5 + 4 * |fs|))
  {
    var data := EncodeValue(Vector(fs)) + rest;
    RoundTrip4(|fs|);
    FloatsRoundTrip(fs);
    assert data[1..5] == LE(|fs|, 4);
    assert data[5..5 + 4 * |fs|] == FloatBytes(fs);
  }

  /** A value is read back from its encoding, whatever follows. */
  lemma ValueRoundTrip(v: Value, rest: seq<byte>)
    requires Fits(v)
    ensures DecodeValue(EncodeValue(v) + rest) == Ok((v, |EncodeValue(v)|))
  {
    match v
    case Int(i) => IntRoundTrip(i, rest);
    case Text(t) => TextRoundTrip(t, rest);
    case Vector(fs) => VectorRoundTrip(fs, rest);
    case Float(f) =>
      RoundTrip4(f);
      assert (EncodeValue(v) + rest)[1..5] == LE(f, 4);
    case _ =>
  }

  predicate AllFit(row: Row) {
    forall i :: 0 <= i < |row| ==> Fits(row[i])
  }

  lemma ValuesRead(row: Row)
    requires AllFit(row)
    ensures forall i :: 0 <= i < |row| ==> Framing.Reads(EncodeValue, DecodeValue, row[i])
  {
    forall i, rest | 0 <= i < |row| ensures DecodeValue(EncodeValue(row[i]) + rest) == Ok((row[i], |EncodeValue(row[i])|)) {
      ValueRoundTrip(row[i], rest);
    }
  }

  lemma CountTruncates(n: nat)
    ensures FromLE(LE(n, 2)) == n % 65_536
  {
    assert LE(n, 2) == [(n % 256) as byte, (n / 256 % 256) as byte];
    assert LE(n, 2)[1..] == [(n / 256 % 256) as byte];
    assert FromLE(LE(n, 2)[1..]) == n / 256 % 256;
  }

  /** What decoding an encoded row makes of its values, given what its two count bytes say. */
  ghost function Reading(row: Row, n: nat): Result<Row, CodecError> {
    DecoderAdvances();
    Framing.ReadCount(DecodeValue, LE(|row|, 2) + Framing.Concat(EncodeValue, row), |LE(|row|, 2)|, n, [])
  }

  lemma RowDecodes(row: Row)
    ensures TryDecodeRow(EncodeRow(row)) == Reading(row, |row| % 65_536)
  {
    CountTruncates(|row|);
    assert EncodeRow(row)[..2] == LE(|row|, 2);
  }

  lemma FullReading(row: Row)
    requires AllFit(row)
    ensures Reading(row, |row|) == Ok(row)
  {
    DecoderAdvances();
    ValuesRead(row);
    Framing.CountedFrames(EncodeValue, DecodeValue, LE(|row|, 2), row);
  }

  lemma OtherReading(row: Row, n: nat)
    requires n != |row|
    ensures Reading(row, n) != Ok(row)
  {
    DecoderAdvances();
    Framing.MiscountedFrames(DecodeValue, LE(|row|, 2) + Framing.Concat(EncodeValue, row), |LE(|row|, 2)|, n, row);
  }

  /** A row whose values fit is restored by decoding if and only if its column count fits two bytes. */
  lemma RowRoundTrip(row: Row)
    requires AllFit(row)
    ensures TryDecodeRow(EncodeRow(row)) == Ok(row) <==> |row| < 65_536
  {
    RowDecodes(row);
    if |row| < 65_536 {
      FullReading(row);
    } else {
      OtherReading(row, |row| % 65_536);
    }
  }

  /** A stored row is accepted with its own column count and no other. */
  lemma ValidatedExactly(row: Row, id: nat, columns: nat)
    requires AllFit(row) && |row| < 65_536
    ensures DecodeRowValidated(id, EncodeRow(row), columns) == if columns == |row| then Ok(row) else Err(CorruptRow(id))
  {
    RowRoundTrip(row);
  }

  /** No decoded row is wider than its two count bytes can say. */
  lemma DecodedWidth(bytes: seq<byte>)
    requires TryDecodeRow(bytes).Ok?
    ensures |TryDecodeRow(bytes).value| < 65_536
  {
    DecoderAdvances();
    Widths();
    FromLEBound(bytes[..2]);
    Framing.ReadCountLength(DecodeValue, bytes, 2, FromLE(bytes[..2]), []);
  }

  // ---------------------------------------------------------------- the loops

  method PushRow(row: Row) returns (out: seq<byte>)
    ensures out == EncodeRow(row)
  {
    out := LE(|row|, 2);
    for i := 0 to |row|
      invariant out == LE(|row|, 2) + Framing.Concat(EncodeValue, row[..i])
    {
      assert row[..i + 1] == row[..i] + [row[i]];
      Framing.ConcatAppend(EncodeValue, row[..i], [row[i]]);
      Framing.ConcatSingle(EncodeValue, row[i]);
      out := out + EncodeValue(row[i]);
    }
    assert row[..|row|] == row;
  }

  method ReadRow(bytes: seq<byte>) returns (r: Result<Row, CodecError>)
    ensures r == TryDecodeRow(bytes)
  {
    if |bytes| < 2 {
      return Err(CorruptRow(0));
    }
    DecoderAdvances();
    r := Framing.ReadExactly(DecodeValue, bytes, 2, FromLE(bytes[..2]));
  }

  // ---------------------------------------------------------------- the bytes of a value

  lemma Shifted(head: seq<byte>, tail: seq<byte>, at: nat, width: nat, n: nat, there: nat)
    requires HoldsNumber(tail, at, width, n) && there == |head| + at
    ensures HoldsNumber(head + tail, there, width, n)
  {
    forall i | 0 <= i < width ensures (head + tail)[there + i] as nat == n / Pow256(i) % 256 {
      assert (head + tail)[there + i] == tail[at + i];
    }
  }

  lemma Extended(s: seq<byte>, more: seq<byte>, at: nat, width: nat, n: nat)
    requires HoldsNumber(s, at, width, n)
    ensures HoldsNumber(s + more, at, width, n)
  {
    forall i | 0 <= i < width ensures (s + more)[at + i] as nat == n / Pow256(i) % 256 {
      assert (s + more)[at + i] == s[at + i];
    }
  }

  lemma {:induction false} FloatAt(fs: seq<nat>, i: nat)
    requires i < |fs|
    ensures HoldsNumber(FloatBytes(fs), 4 * i, 4, fs[i])
  {
    if i == 0 {
      assert LE(fs[0], 4)[0..4] == LE(fs[0], 4);
      NumberAt(LE(fs[0], 4), 0, 4, fs[0]);
      Extended(LE(fs[0], 4), FloatBytes(fs[1..]), 0, 4, fs[0]);
    } else {
      FloatAt(fs[1..], i - 1);
      Shifted(LE(fs[0], 4), FloatBytes(fs[1..]), 4 * (i - 1), 4, fs[i], 4 * i);
    }
  }

  /**
    A value byte by byte. The tag: 0 integer, 1 text, 2 vector, 3 NULL, 4 float, 6 boolean. Then an
    integer in two's complement, the length and bytes of a text, the length and floats of a vector,
    a float's pattern, or 1 for true.
  */
  lemma ValueLayout(v: Value)
    ensures var s := EncodeValue(v);
      match v
      case Int(i) => |s| == 9 && s[0] == 0 && HoldsNumber(s, 1, 8, i % TWO_64)
      case Text(t) => |s| == 5 + |t| && s[0] == 1 && HoldsNumber(s, 1, 4, |t|) && s[5..] == t
      case Vector(fs) => |s| == 5 + 4 * |fs| && s[0] == 2 && HoldsNumber(s, 1, 4, |fs|) && forall i :: 0 <= i < |fs| ==> HoldsNumber(s, 5 + 4 * i, 4, fs[i])
      case Float(f) => |s| == 5 && s[0] == 4 && HoldsNumber(s, 1, 4, f)
      case Bool(b) => |s| == 2 && s[0] == 6 && s[1] == if b then 1 else 0
      case Null => s == [3]
  {
    var s := EncodeValue(v);
    match v
    case Int(i) =>
      assert s[1..9] == LE(i % TWO_64, 8);
      NumberAt(s, 1, 8, i % TWO_64);
    case Text(t) =>
      assert s[1..5] == LE(|t|, 4);
      NumberAt(s, 1, 4, |t|);
    case Vector(fs) =>
      assert s[1..5] == LE(|fs|, 4);
      NumberAt(s, 1, 4, |fs|);
      forall i | 0 <= i < |fs| ensures HoldsNumber(s, 5 + 4 * i, 4, fs[i]) {
        FloatAt(fs, i);
        Shifted([2] + LE(|fs|, 4), FloatBytes(fs), 4 * i, 4, fs[i], 5 + 4 * i);
      }
    case Float(f) =>
      assert s[1..5] == LE(f, 4);
      NumberAt(s, 1, 4, f);
    case Bool(_) =>
    case Null =>
  }
}
