/** Little-endian integers, and the bounds-checked cursors that write and read them. */
module LittleEndian {
  import opened Common

  /** The `k` low-order bytes of `n`, least significant first; higher bytes are cut off as an `as` cast does. */
  function LE(n: nat, k: nat): (s: seq<byte>)
    ensures |s| == k
  {
    if k == 0 then [] else [(n % 256) as byte] + LE(n / 256, k - 1)
  }

  function FromLE(s: seq<byte>): nat {
    if s == [] then 0 else s[0] as nat + 256 * FromLE(s[1..])
  }

  function Pow256(k: nat): (r: nat)
    ensures r >= 1
  {
    if k == 0 then 1 else 256 * Pow256(k - 1)
  }

  lemma {:induction false} RoundTrip(n: nat, k: nat)
    requires n < Pow256(k)
    ensures FromLE(LE(n, k)) == n
  {
    if k > 0 {
      RoundTrip(n / 256, k - 1);
      assert LE(n, k)[1..] == LE(n / 256, k - 1);
    }
  }

  /** The byte at offset `i`, least significant first. */
  lemma {:induction false} LEByte(n: nat, k: nat, i: nat)
    requires i < k
    ensures LE(n, k)[i] as nat == n / Pow256(i) % 256
  {
    if i > 0 {
      LEByte(n / 256, k - 1, i - 1);
      DivTwice(n, Pow256(i - 1));
    }
  }

  lemma Grows(d: nat, x: nat, y: nat)
    requires x < y
    ensures d * x + d <= d * y
  {
    assert d * y == d * x + d * (y - x);
    assert d * (y - x) == d + d * (y - x - 1);
  }

  /** A quotient is what leaves a remainder below the divisor. */
  lemma QuotientIs(n: nat, d: nat, q: nat, r: nat)
    requires n == d * q + r && r < d
    ensures n / d == q
  {
    if n / d < q {
      Grows(d, n / d, q);
    } else if q < n / d {
      Grows(d, q, n / d);
    }
  }

  lemma DivTwice(n: nat, p: nat)
    requires p > 0
    ensures n / 256 / p == n / (256 * p)
  {
    var a, t := n / 256, n % 256;
    var q, s := a / p, a % p;
    assert n == 256 * (p * q + s) + t;
    assert 256 * (p * q) == (256 * p) * q;
    QuotientIs(n, 256 * p, q, 256 * s + t);
  }

  /** The bytes of `s` from `at` on are those of `n`, least significant first. */
  ghost predicate HoldsNumber(s: seq<byte>, at: nat, width: nat, n: nat) {
    at + width <= |s| && forall i :: 0 <= i < width ==> s[at + i] as nat == n / Pow256(i) % 256
  }

  lemma NumberAt(s: seq<byte>, at: nat, width: nat, n: nat)
    requires at + width <= |s| && s[at..at + width] == LE(n, width)
    ensures HoldsNumber(s, at, width, n)
  {
    forall i | 0 <= i < width ensures s[at + i] as nat == n / Pow256(i) % 256 {
      assert s[at + i] == s[at..at + width][i];
      LEByte(n, width, i);
    }
  }

  lemma {:induction false} FromLEInjective(a: seq<byte>, b: seq<byte>)
    requires |a| == |b| && FromLE(a) == FromLE(b)
    ensures a == b
  {
    if a != [] {
      FromLEInjective(a[1..], b[1..]);
      assert a == [a[0]] + a[1..] && b == [b[0]] + b[1..];
    }
  }

  lemma {:induction false} FromLEBound(s: seq<byte>)
    ensures FromLE(s) < Pow256(|s|)
  {
    if s != [] {
      FromLEBound(s[1..]);
    }
  }

  lemma Widths()
    ensures Pow256(1) == 256 && Pow256(2) == 65536 && Pow256(4) == 0x1_0000_0000
    ensures Pow256(8) == 0x1_0000_0000_0000_0000
  {
    assert Pow256(2) == 65536;
    assert Pow256(4) == 0x1_0000_0000;
    assert Pow256(6) == 0x1_0000_0000_0000;
  }

  datatype OutOfSpace = OutOfSpace(needed: nat, available: nat)

  /** A writer over a byte buffer. */
  class Cursor {
    const buf: array<byte>
    var pos: nat

    ghost predicate Valid()
      reads this
    {
      pos <= buf.Length
    }

    constructor (buf: array<byte>, start: nat)
      requires start <= buf.Length
      ensures this.buf == buf && pos == start && Valid()
    {
      this.buf := buf;
      pos := start;
    }

    /** Writes `data` at the position and advances, or changes nothing when it does not fit. */
    method PutBytes(data: seq<byte>) returns (r: Result<(), OutOfSpace>)
      requires Valid()
      modifies this, buf
      ensures Valid()
      ensures old(pos) + |data| <= buf.Length ==> r == Ok(()) && pos == old(pos) + |data|
      ensures old(pos) + |data| <= buf.Length ==>
        buf[..pos] == old(buf[..pos]) + data
      ensures forall j :: pos <= j < buf.Length ==> buf[j] == old(buf[j])
      ensures old(pos) + |data| > buf.Length ==>
        r == Err(OutOfSpace(|data|, buf.Length - pos)) && pos == old(pos) && buf[..] == old(buf[..])
    {
      if |data| > buf.Length - pos {
        return Err(OutOfSpace(|data|, buf.Length - pos));
      }
      for i := 0 to |data|
        invariant pos == old(pos)
        invariant forall j :: 0 <= j < i ==> buf[pos + j] == data[j]
        invariant forall j :: 0 <= j < pos || pos + i <= j < buf.Length ==> buf[j] == old(buf[j])
      {
        buf[pos + i] := data[i];
      }
      pos := pos + |data|;
      assert buf[..pos] == old(buf[..pos]) + data;
      r := Ok(());
    }

    method PutU8(v: nat) returns (r: Result<(), OutOfSpace>)
      requires Valid()
      modifies this, buf
      ensures Valid()
      ensures old(pos) + 1 <= buf.Length ==> r == Ok(()) && pos == old(pos) + 1
      ensures old(pos) + 1 <= buf.Length ==> buf[..pos] == old(buf[..pos]) + LE(v, 1)
      ensures forall j :: pos <= j < buf.Length ==> buf[j] == old(buf[j])
      ensures old(pos) + 1 > buf.Length ==> r.Err? && pos == old(pos) && buf[..] == old(buf[..])
    {
      r := PutBytes(LE(v, 1));
    }

    method PutU32(v: nat) returns (r: Result<(), OutOfSpace>)
      requires Valid()
      modifies this, buf
      ensures Valid()
      ensures old(pos) + 4 <= buf.Length ==> r == Ok(()) && pos == old(pos) + 4
      ensures old(pos) + 4 <= buf.Length ==> buf[..pos] == old(buf[..pos]) + LE(v, 4)
      ensures forall j :: pos <= j < buf.Length ==> buf[j] == old(buf[j])
      ensures old(pos) + 4 > buf.Length ==> r.Err? && pos == old(pos) && buf[..] == old(buf[..])
    {
      r := PutBytes(LE(v, 4));
    }

    method PutU64(v: nat) returns (r: Result<(), OutOfSpace>)
      requires Valid()
      modifies this, buf
      ensures Valid()
      ensures old(pos) + 8 <= buf.Length ==> r == Ok(()) && pos == old(pos) + 8
      ensures old(pos) + 8 <= buf.Length ==> buf[..pos] == old(buf[..pos]) + LE(v, 8)
      ensures forall j :: pos <= j < buf.Length ==> buf[j] == old(buf[j])
      ensures old(pos) + 8 > buf.Length ==> r.Err? && pos == old(pos) && buf[..] == old(buf[..])
    {
      r := PutBytes(LE(v, 8));
    }
  }

  /** A reader over immutable bytes. */
  class Reader {
    const buf: seq<byte>
    var pos: nat

    ghost predicate Valid()
      reads this
    {
      pos <= |buf|
    }

    constructor (buf: seq<byte>)
      ensures this.buf == buf && pos == 0 && Valid()
    {
      this.buf := buf;
      pos := 0;
    }

    /** The next `n` bytes, or nothing consumed when fewer remain. */
    method Take(n: nat) returns (r: Result<seq<byte>, OutOfSpace>)
      requires Valid()
      modifies this
      ensures Valid()
      ensures old(pos) + n <= |buf| ==> r == Ok(buf[old(pos)..old(pos) + n]) && pos == old(pos) + n
      ensures old(pos) + n > |buf| ==> r == Err(OutOfSpace(n, |buf| - pos)) && pos == old(pos)
    {
      if n > |buf| - pos {
        return Err(OutOfSpace(n, |buf| - pos));
      }
      r := Ok(buf[pos..pos + n]);
      pos := pos + n;
    }

    /** Reads a little-endian unsigned integer of `n` bytes. */
    method ReadUint(n: nat) returns (r: Result<nat, OutOfSpace>)
      requires Valid()
      modifies this
      ensures Valid()
      ensures old(pos) + n <= |buf| ==> r == Ok(FromLE(buf[old(pos)..old(pos) + n])) && pos == old(pos) + n
      ensures old(pos) + n > |buf| ==> r.Err? && pos == old(pos)
    {
      var b := Take(n);
      r := match b case Ok(s) => Ok(FromLE(s)) case Err(e) => Err(e);
    }
  }
}
