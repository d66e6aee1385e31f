/**
  The CRC-32 used by log records and pages (the frame check sequence of IEEE 802.3 section
  3.2.9, least significant bit first), over natural numbers below 2^32.
*/
module Checksum {
  import opened Common

  const REFLECTED_POLY: nat := 0xEDB8_8320
  const ALL_ONES: nat := 0xFFFF_FFFF
  const WORD: nat := 0x1_0000_0000

  /** Bytes reserved at the end of a block for its checksum. */
  const PAGE_CRC: nat := 4

  // ---------------------------------------------------------------- bitwise operators on naturals

  function Xor(a: nat, b: nat): nat
    decreases a + b
  {
    if a == 0 && b == 0 then 0 else 2 * Xor(a / 2, b / 2) + (a + b) % 2
  }

  function And(a: nat, b: nat): nat {
    if a == 0 then 0 else 2 * And(a / 2, b / 2) + (if a % 2 == 1 && b % 2 == 1 then 1 else 0)
  }

  function Pow2(k: nat): (r: nat)
    ensures r >= 1
  {
    if k == 0 then 1 else 2 * Pow2(k - 1)
  }

  lemma {:induction false} XorBound(a: nat, b: nat, k: nat)
    requires a < Pow2(k) && b < Pow2(k)
    ensures Xor(a, b) < Pow2(k)
  {
    if k > 0 && !(a == 0 && b == 0) {
      XorBound(a / 2, b / 2, k - 1);
    }
  }

  /** Xor with a value whose top bit is set keeps that bit. */
  lemma {:induction false} XorTopBit(a: nat, b: nat, k: nat)
    requires a < Pow2(k) <= b < Pow2(k + 1)
    ensures Pow2(k) <= Xor(a, b) < Pow2(k + 1)
  {
    if k > 0 {
      XorTopBit(a / 2, b / 2, k - 1);
    }
  }

  lemma {:induction false} XorCommutes(a: nat, b: nat)
    ensures Xor(a, b) == Xor(b, a)
    decreases a + b
  {
    if !(a == 0 && b == 0) {
      XorCommutes(a / 2, b / 2);
    }
  }

  lemma SameLastBit(x: nat, y: nat, a: nat, b: nat, c: nat)
    requires 2 * x + (a + c) % 2 == 2 * y + (b + c) % 2
    ensures x == y && a % 2 == b % 2
  {
  }

  lemma {:induction false} XorCancels(a: nat, b: nat, c: nat)
    requires Xor(a, c) == Xor(b, c)
    ensures a == b
    decreases a + b + c
  {
    if !(a == 0 && b == 0 && c == 0) {
      assert Xor(a, c) == 2 * Xor(a / 2, c / 2) + (a + c) % 2;
      assert Xor(b, c) == 2 * Xor(b / 2, c / 2) + (b + c) % 2;
      SameLastBit(Xor(a / 2, c / 2), Xor(b / 2, c / 2), a, b, c);
      XorCancels(a / 2, b / 2, c / 2);
    }
  }

  lemma {:induction false} AndAllOnes(a: nat, k: nat)
    requires a < Pow2(k)
    ensures And(a, Pow2(k) - 1) == a
  {
    if a > 0 {
      AndAllOnes(a / 2, k - 1);
    }
  }

  lemma {:induction false} AndZero(a: nat)
    ensures And(a, 0) == 0
  {
    if a > 0 {
      AndZero(a / 2);
    }
  }

  // ---------------------------------------------------------------- the register

  function BitStep(c: nat): nat {
    if c % 2 == 1 then Xor(c / 2, REFLECTED_POLY) else c / 2
  }

  function BitSteps(c: nat, n: nat): nat {
    if n == 0 then c else BitStep(BitSteps(c, n - 1))
  }

  const BITS_PER_BYTE: nat := 8

  function ByteStep(c: nat, b: byte): nat {
    BitSteps(Xor(c, b as nat), BITS_PER_BYTE)
  }

  /** The register after `data`, started at `c`. */
  function Register(c: nat, data: seq<byte>): nat {
    if data == [] then c
    else ByteStep(Register(c, data[..|data| - 1]), data[|data| - 1])
  }

  function Crc32(data: seq<byte>): nat {
    Xor(Register(ALL_ONES, data), ALL_ONES)
  }

  lemma PowersUsed()
    ensures Pow2(8) == 256 && Pow2(31) == 0x8000_0000 && Pow2(32) == WORD
  {
    assert Pow2(2) == 4 && Pow2(4) == 16 && Pow2(6) == 64 && Pow2(8) == 256;
    assert Pow2(10) == 1024 && Pow2(12) == 4096 && Pow2(14) == 16384 && Pow2(16) == 65536;
    assert Pow2(18) == 0x4_0000 && Pow2(20) == 0x10_0000 && Pow2(22) == 0x40_0000 && Pow2(24) == 0x100_0000;
    assert Pow2(26) == 0x400_0000 && Pow2(28) == 0x1000_0000 && Pow2(30) == 0x4000_0000;
  }

  lemma BitStepBound(c: nat)
    requires c < WORD
    ensures BitStep(c) < WORD
    ensures c % 2 == 1 <==> BitStep(c) >= 0x8000_0000
  {
    PowersUsed();
    XorTopBit(c / 2, REFLECTED_POLY, 31);
  }

  lemma {:induction false} BitStepsBound(c: nat, n: nat)
    requires c < WORD
    ensures BitSteps(c, n) < WORD
  {
    if n > 0 {
      BitStepsBound(c, n - 1);
      BitStepBound(BitSteps(c, n - 1));
    }
  }

  lemma ByteStepBound(c: nat, b: byte)
    requires c < WORD
    ensures Xor(c, b as nat) < WORD && ByteStep(c, b) < WORD
  {
    PowersUsed();
    XorBound(c, b as nat, 32);
    BitStepsBound(Xor(c, b as nat), BITS_PER_BYTE);
  }

  lemma {:induction false} RegisterBound(c: nat, data: seq<byte>)
    requires c < WORD
    ensures Register(c, data) < WORD
  {
    if data != [] {
      RegisterBound(c, data[..|data| - 1]);
      ByteStepBound(Register(c, data[..|data| - 1]), data[|data| - 1]);
    }
  }

  lemma CrcBound(data: seq<byte>)
    ensures Crc32(data) < WORD
  {
    PowersUsed();
    RegisterBound(ALL_ONES, data);
    XorBound(Register(ALL_ONES, data), ALL_ONES, 32);
  }

  // ---------------------------------------------------------------- the implementation's loops

  /** Two's-complement negation of a 32-bit word. */
  function WrappingNeg(x: nat): nat
    requires x < WORD
  {
    (WORD - x) % WORD
  }

  lemma MaskIs(bit: nat)
    requires bit < 2
    ensures And(REFLECTED_POLY, WrappingNeg(bit)) == if bit == 1 then REFLECTED_POLY else 0
  {
    if bit == 1 {
      PowersUsed();
      AndAllOnes(REFLECTED_POLY, 32);
    } else {
      AndZero(REFLECTED_POLY);
    }
  }

  lemma MaskStep(c: nat)
    ensures Xor(c / 2, And(REFLECTED_POLY, WrappingNeg(c % 2))) == BitStep(c)
  {
    MaskIs(c % 2);
    XorZero(c / 2);
  }

  lemma {:induction false} XorZero(a: nat)
    ensures Xor(a, 0) == a
  {
    if a > 0 {
      XorZero(a / 2);
    }
  }

  method ComputeCrc32(data: seq<byte>) returns (r: nat)
    ensures r == Crc32(data)
  {
    var crc := ALL_ONES;
    for i := 0 to |data|
      invariant crc == Register(ALL_ONES, data[..i])
    {
      crc := Xor(crc, data[i] as nat);
      ghost var start := crc;
      for k := 0 to BITS_PER_BYTE
        invariant crc == BitSteps(start, k)
      {
        var mask := WrappingNeg(crc % 2);
        MaskStep(crc);
        crc := Xor(crc / 2, And(REFLECTED_POLY, mask));
      }
      assert data[..i + 1][..i] == data[..i];
    }
    assert data[..|data|] == data;
    r := Xor(crc, ALL_ONES);
  }

  // ---------------------------------------------------------------- injectivity

  lemma BitStepInjective(a: nat, b: nat)
    requires a < WORD && b < WORD && BitStep(a) == BitStep(b)
    ensures a == b
  {
    BitStepBound(a);
    BitStepBound(b);
    if a % 2 == 1 {
      XorCancels(a / 2, b / 2, REFLECTED_POLY);
    }
  }

  lemma {:induction false} BitStepsInjective(a: nat, b: nat, n: nat)
    requires a < WORD && b < WORD && BitSteps(a, n) == BitSteps(b, n)
    ensures a == b
  {
    if n > 0 {
      BitStepsBound(a, n - 1);
      BitStepsBound(b, n - 1);
      BitStepInjective(BitSteps(a, n - 1), BitSteps(b, n - 1));
      BitStepsInjective(a, b, n - 1);
    }
  }

  /** For a fixed byte the register loses nothing; from one register, different bytes part. */
  lemma ByteStepInjective(c: nat, c': nat, b: byte, b': byte)
    requires c < WORD && c' < WORD && ByteStep(c, b) == ByteStep(c', b')
    ensures b == b' ==> c == c'
    ensures c == c' ==> b == b'
  {
    ByteStepBound(c, b);
    ByteStepBound(c', b');
    BitStepsInjective(Xor(c, b as nat), Xor(c', b' as nat), BITS_PER_BYTE);
    if b == b' {
      XorCancels(c, c', b as nat);
    }
    if c == c' {
      XorCommutes(c, b as nat);
      XorCommutes(c, b' as nat);
      XorCancels(b as nat, b' as nat, c);
    }
  }

  /** Two inputs of one length that differ in exactly one byte leave different registers. */
  lemma {:induction false} OneByteChangesRegister(c: nat, data: seq<byte>, p: nat, b: byte)
    requires c < WORD && p < |data| && data[p] != b
    ensures Register(c, data) != Register(c, data[p := b])
  {
    var n := |data| - 1;
    var data' := data[p := b];
    RegisterBound(c, data[..n]);
    RegisterBound(c, data'[..n]);
    if p == n {
      assert data'[..n] == data[..n];
    } else {
      assert data'[..n] == data[..n][p := b];
      OneByteChangesRegister(c, data[..n], p, b);
    }
    if Register(c, data) == Register(c, data') {
      ByteStepInjective(Register(c, data[..n]), Register(c, data'[..n]), data[n], data'[n]);
    }
  }

  /** A change of any single byte changes the checksum. */
  lemma OneByteChangesCrc(data: seq<byte>, p: nat, b: byte)
    requires p < |data| && data[p] != b
    ensures Crc32(data) != Crc32(data[p := b])
  {
    PowersUsed();
    OneByteChangesRegister(ALL_ONES, data, p, b);
    if Crc32(data) == Crc32(data[p := b]) {
      XorCancels(Register(ALL_ONES, data), Register(ALL_ONES, data[p := b]), ALL_ONES);
    }
  }
}
