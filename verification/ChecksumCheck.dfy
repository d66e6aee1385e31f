/** The published check value: the CRC of the nine digits 1 to 9, computed with bit-vectors. */
module ChecksumCheck {
  import opened Common
  import opened Checksum

  // ---------------------------------------------------------------- bit-vectors as numbers

  function Bit(w: bv32): nat {
    if w & 1 == 1 then 1 else 0
  }

  /** The number a word stands for. */
  function Val(w: bv32): nat
    decreases w
  {
    if w == 0 then 0 else 2 * Val(w >> 1) + Bit(w)
  }

  lemma ValUnfolds(w: bv32)
    ensures Val(w) == 2 * Val(w >> 1) + Bit(w)
    ensures Val(w) / 2 == Val(w >> 1) && Val(w) % 2 == Bit(w)
  {
    if w == 0 {
      assert w >> 1 == 0;
    }
  }

  lemma {:induction false} Positive(a: bv32)
    requires a != 0
    ensures Val(a) > 0
    decreases a
  {
    ValUnfolds(a);
    if a >> 1 == 0 {
      assert a == 1;
    } else {
      Positive(a >> 1);
    }
  }

  lemma Halves(a: bv32)
    ensures Val(a >> 1) <= Val(a) && (a != 0 ==> Val(a >> 1) < Val(a))
  {
    ValUnfolds(a);
    if a != 0 {
      Positive(a);
    }
  }

  lemma ShiftXor(a: bv32, b: bv32)
    ensures (a ^ b) >> 1 == (a >> 1) ^ (b >> 1) && Bit(a ^ b) == (Bit(a) + Bit(b)) % 2
  {
    assert (a ^ b) & 1 == (a & 1) ^ (b & 1);
  }

  lemma XorJoins(a: bv32, b: bv32)
    ensures Val(a ^ b) == 2 * Val((a >> 1) ^ (b >> 1)) + (Bit(a) + Bit(b)) % 2
  {
    ShiftXor(a, b);
    ValUnfolds(a ^ b);
  }

  lemma XorUnfolds(x: nat, y: nat, hx: nat, hy: nat, i: nat, j: nat)
    requires x == 2 * hx + i && y == 2 * hy + j && i < 2 && j < 2
    ensures Xor(x, y) == 2 * Xor(hx, hy) + (i + j) % 2
  {
    assert x / 2 == hx && y / 2 == hy;
    assert (x + y) % 2 == (i + j) % 2;
  }

  lemma BitIsSmall(a: bv32)
    ensures Bit(a) < 2
  {
  }

  /** `x`, `y` and `z` by their halves and low bits. */
  lemma XorStep(x: nat, y: nat, z: nat, hx: nat, hy: nat, hz: nat, i: nat, j: nat)
    requires x == 2 * hx + i && y == 2 * hy + j && z == 2 * hz + (i + j) % 2 && i < 2 && j < 2 && Xor(hx, hy) == hz
    ensures Xor(x, y) == z
  {
    XorUnfolds(x, y, hx, hy, i, j);
  }

  /** The parts of a word, as numbers. */
  lemma Parts(a: bv32) returns (x: nat, h: nat, i: nat)
    ensures x == Val(a) && h == Val(a >> 1) && i == Bit(a) && x == 2 * h + i && i < 2
  {
    ValUnfolds(a);
    BitIsSmall(a);
    x, h, i := Val(a), Val(a >> 1), Bit(a);
  }

  lemma PartsOfXor(a: bv32, b: bv32, i: nat, j: nat) returns (z: nat, h: nat)
    requires i == Bit(a) && j == Bit(b)
    ensures z == Val(a ^ b) && h == Val((a >> 1) ^ (b >> 1)) && z == 2 * h + (i + j) % 2
  {
    XorJoins(a, b);
    z, h := Val(a ^ b), Val((a >> 1) ^ (b >> 1));
  }

  lemma XorValStep(a: bv32, b: bv32)
    requires Xor(Val(a >> 1), Val(b >> 1)) == Val((a >> 1) ^ (b >> 1))
    ensures Xor(Val(a), Val(b)) == Val(a ^ b)
  {
    var x, hx, i := Parts(a);
    var y, hy, j := Parts(b);
    var z, hz := PartsOfXor(a, b, i, j);
    XorStep(x, y, z, hx, hy, hz, i, j);
  }

  /** Exclusive or on numbers is exclusive or on words. */
  lemma {:induction false} XorVal(a: bv32, b: bv32)
    ensures Xor(Val(a), Val(b)) == Val(a ^ b)
    decreases Val(a) + Val(b)
  {
    if a == 0 && b == 0 {
      assert a ^ b == 0;
    } else {
      Halves(a);
      Halves(b);
      XorVal(a >> 1, b >> 1);
      XorValStep(a, b);
    }
  }

  // ---------------------------------------------------------------- literals

  /** One more bit at the low end. */
  lemma Doubled(w: bv32, n: nat, v: nat)
    requires Val(w >> 1) == n && v == 2 * n + Bit(w)
    ensures Val(w) == v
  {
    ValUnfolds(w);
  }

  lemma PolyValTop8()
    ensures Val(0xED) == 0xED
  {
    Doubled(0x1, 0x0, 0x1);
    Doubled(0x3, 0x1, 0x3);
    Doubled(0x7, 0x3, 0x7);
    Doubled(0xE, 0x7, 0xE);
    Doubled(0x1D, 0xE, 0x1D);
    Doubled(0x3B, 0x1D, 0x3B);
    Doubled(0x76, 0x3B, 0x76);
    Doubled(0xED, 0x76, 0xED);
  }

  lemma PolyValTop16()
    ensures Val(0xEDB8) == 0xEDB8
  {
    PolyValTop8();
    Doubled(0x1DB, 0xED, 0x1DB);
    Doubled(0x3B6, 0x1DB, 0x3B6);
    Doubled(0x76D, 0x3B6, 0x76D);
    Doubled(0xEDB, 0x76D, 0xEDB);
    Doubled(0x1DB7, 0xEDB, 0x1DB7);
    Doubled(0x3B6E, 0x1DB7, 0x3B6E);
    Doubled(0x76DC, 0x3B6E, 0x76DC);
    Doubled(0xEDB8, 0x76DC, 0xEDB8);
  }

  lemma PolyValTop24()
    ensures Val(0xED_B883) == 0xED_B883
  {
    PolyValTop16();
    Doubled(0x1_DB71, 0xEDB8, 0x1_DB71);
    Doubled(0x3_B6E2, 0x1_DB71, 0x3_B6E2);
    Doubled(0x7_6DC4, 0x3_B6E2, 0x7_6DC4);
    Doubled(0xE_DB88, 0x7_6DC4, 0xE_DB88);
    Doubled(0x1D_B710, 0xE_DB88, 0x1D_B710);
    Doubled(0x3B_6E20, 0x1D_B710, 0x3B_6E20);
    Doubled(0x76_DC41, 0x3B_6E20, 0x76_DC41);
    Doubled(0xED_B883, 0x76_DC41, 0xED_B883);
  }

  lemma PolyVal()
    ensures Val(0xEDB8_8320) == REFLECTED_POLY
  {
    PolyValTop24();
    Doubled(0x1DB_7106, 0xED_B883, 0x1DB_7106);
    Doubled(0x3B6_E20C, 0x1DB_7106, 0x3B6_E20C);
    Doubled(0x76D_C419, 0x3B6_E20C, 0x76D_C419);
    Doubled(0xEDB_8832, 0x76D_C419, 0xEDB_8832);
    Doubled(0x1DB7_1064, 0xEDB_8832, 0x1DB7_1064);
    Doubled(0x3B6E_20C8, 0x1DB7_1064, 0x3B6E_20C8);
    Doubled(0x76DC_4190, 0x3B6E_20C8, 0x76DC_4190);
    Doubled(0xEDB8_8320, 0x76DC_4190, 0xEDB8_8320);
  }

  lemma OnesValTop8()
    ensures Val(0xFF) == 0xFF
  {
    Doubled(0x1, 0x0, 0x1);
    Doubled(0x3, 0x1, 0x3);
    Doubled(0x7, 0x3, 0x7);
    Doubled(0xF, 0x7, 0xF);
    Doubled(0x1F, 0xF, 0x1F);
    Doubled(0x3F, 0x1F, 0x3F);
    Doubled(0x7F, 0x3F, 0x7F);
    Doubled(0xFF, 0x7F, 0xFF);
  }

  lemma OnesValTop16()
    ensures Val(0xFFFF) == 0xFFFF
  {
    OnesValTop8();
    Doubled(0x1FF, 0xFF, 0x1FF);
    Doubled(0x3FF, 0x1FF, 0x3FF);
    Doubled(0x7FF, 0x3FF, 0x7FF);
    Doubled(0xFFF, 0x7FF, 0xFFF);
    Doubled(0x1FFF, 0xFFF, 0x1FFF);
    Doubled(0x3FFF, 0x1FFF, 0x3FFF);
    Doubled(0x7FFF, 0x3FFF, 0x7FFF);
    Doubled(0xFFFF, 0x7FFF, 0xFFFF);
  }

  lemma OnesValTop24()
    ensures Val(0xFF_FFFF) == 0xFF_FFFF
  {
    OnesValTop16();
    Doubled(0x1_FFFF, 0xFFFF, 0x1_FFFF);
    Doubled(0x3_FFFF, 0x1_FFFF, 0x3_FFFF);
    Doubled(0x7_FFFF, 0x3_FFFF, 0x7_FFFF);
    Doubled(0xF_FFFF, 0x7_FFFF, 0xF_FFFF);
    Doubled(0x1F_FFFF, 0xF_FFFF, 0x1F_FFFF);
    Doubled(0x3F_FFFF, 0x1F_FFFF, 0x3F_FFFF);
    Doubled(0x7F_FFFF, 0x3F_FFFF, 0x7F_FFFF);
    Doubled(0xFF_FFFF, 0x7F_FFFF, 0xFF_FFFF);
  }

  lemma OnesVal()
    ensures Val(0xFFFF_FFFF) == ALL_ONES
  {
    OnesValTop24();
    Doubled(0x1FF_FFFF, 0xFF_FFFF, 0x1FF_FFFF);
    Doubled(0x3FF_FFFF, 0x1FF_FFFF, 0x3FF_FFFF);
    Doubled(0x7FF_FFFF, 0x3FF_FFFF, 0x7FF_FFFF);
    Doubled(0xFFF_FFFF, 0x7FF_FFFF, 0xFFF_FFFF);
    Doubled(0x1FFF_FFFF, 0xFFF_FFFF, 0x1FFF_FFFF);
    Doubled(0x3FFF_FFFF, 0x1FFF_FFFF, 0x3FFF_FFFF);
    Doubled(0x7FFF_FFFF, 0x3FFF_FFFF, 0x7FFF_FFFF);
    Doubled(0xFFFF_FFFF, 0x7FFF_FFFF, 0xFFFF_FFFF);
  }

  lemma CheckValTop8()
    ensures Val(0xCB) == 0xCB
  {
    Doubled(0x1, 0x0, 0x1);
    Doubled(0x3, 0x1, 0x3);
    Doubled(0x6, 0x3, 0x6);
    Doubled(0xC, 0x6, 0xC);
    Doubled(0x19, 0xC, 0x19);
    Doubled(0x32, 0x19, 0x32);
    Doubled(0x65, 0x32, 0x65);
    Doubled(0xCB, 0x65, 0xCB);
  }

  lemma CheckValTop16()
    ensures Val(0xCBF4) == 0xCBF4
  {
    CheckValTop8();
    Doubled(0x197, 0xCB, 0x197);
    Doubled(0x32F, 0x197, 0x32F);
    Doubled(0x65F, 0x32F, 0x65F);
    Doubled(0xCBF, 0x65F, 0xCBF);
    Doubled(0x197E, 0xCBF, 0x197E);
    Doubled(0x32FD, 0x197E, 0x32FD);
    Doubled(0x65FA, 0x32FD, 0x65FA);
    Doubled(0xCBF4, 0x65FA, 0xCBF4);
  }

  lemma CheckValTop24()
    ensures Val(0xCB_F439) == 0xCB_F439
  {
    CheckValTop16();
    Doubled(0x1_97E8, 0xCBF4, 0x1_97E8);
    Doubled(0x3_2FD0, 0x1_97E8, 0x3_2FD0);
    Doubled(0x6_5FA1, 0x3_2FD0, 0x6_5FA1);
    Doubled(0xC_BF43, 0x6_5FA1, 0xC_BF43);
    Doubled(0x19_7E87, 0xC_BF43, 0x19_7E87);
    Doubled(0x32_FD0E, 0x19_7E87, 0x32_FD0E);
    Doubled(0x65_FA1C, 0x32_FD0E, 0x65_FA1C);
    Doubled(0xCB_F439, 0x65_FA1C, 0xCB_F439);
  }

  lemma CheckVal()
    ensures Val(0xCBF4_3926) == 0xCBF4_3926
  {
    CheckValTop24();
    Doubled(0x197_E872, 0xCB_F439, 0x197_E872);
    Doubled(0x32F_D0E4, 0x197_E872, 0x32F_D0E4);
    Doubled(0x65F_A1C9, 0x32F_D0E4, 0x65F_A1C9);
    Doubled(0xCBF_4392, 0x65F_A1C9, 0xCBF_4392);
    Doubled(0x197E_8724, 0xCBF_4392, 0x197E_8724);
    Doubled(0x32FD_0E49, 0x197E_8724, 0x32FD_0E49);
    Doubled(0x65FA_1C93, 0x32FD_0E49, 0x65FA_1C93);
    Doubled(0xCBF4_3926, 0x65FA_1C93, 0xCBF4_3926);
  }

  lemma ByteVal(w: bv32)
    requires w < 256
    ensures Val(w) == w as nat
  {
  }

  // ---------------------------------------------------------------- the register on words

  function BitStepWord(c: bv32): bv32 {
    if c & 1 == 1 then (c >> 1) ^ 0xEDB8_8320 else c >> 1
  }

  function ByteStepWord(c: bv32): bv32 {
    BitStepWord(BitStepWord(BitStepWord(BitStepWord(BitStepWord(BitStepWord(BitStepWord(BitStepWord(c))))))))
  }

  lemma BitStepVal(c: bv32)
    ensures BitStep(Val(c)) == Val(BitStepWord(c))
  {
    PolyVal();
    ValUnfolds(c);
    XorVal(c >> 1, 0xEDB8_8320);
  }

  lemma BitStepsVal(c: bv32, n: nat, d: bv32)
    requires BitSteps(Val(c), n) == Val(d)
    ensures BitSteps(Val(c), n + 1) == Val(BitStepWord(d))
  {
    BitStepVal(d);
  }

  lemma EightBits(c: bv32)
    ensures BitSteps(Val(c), BITS_PER_BYTE) == Val(ByteStepWord(c))
  {
    var c1 := BitStepWord(c);
    var c2 := BitStepWord(c1);
    var c3 := BitStepWord(c2);
    var c4 := BitStepWord(c3);
    var c5 := BitStepWord(c4);
    var c6 := BitStepWord(c5);
    var c7 := BitStepWord(c6);
    BitStepsVal(c, 0, c);
    BitStepsVal(c, 1, c1);
    BitStepsVal(c, 2, c2);
    BitStepsVal(c, 3, c3);
    BitStepsVal(c, 4, c4);
    BitStepsVal(c, 5, c5);
    BitStepsVal(c, 6, c6);
    BitStepsVal(c, 7, c7);
  }

  /** One more byte of input, on words. */
  lemma OneMoreByte(data: seq<byte>, b: byte, c: bv32, d: bv32, c': bv32, data': seq<byte>)
    requires Register(ALL_ONES, data) == Val(c) && Val(d) == b as nat && ByteStepWord(c ^ d) == c'
    requires data' == data + [b]
    ensures Register(ALL_ONES, data') == Val(c')
  {
    assert data'[..|data|] == data;
    XorVal(c, d);
    EightBits(c ^ d);
  }

  /** The nine bytes of the text 123456789. */
  const DIGITS: seq<byte> := [0x31, 0x32, 0x33, 0x34, 0x35, 0x36, 0x37, 0x38, 0x39]

  lemma NextDigit(i: nat, c: bv32, d: bv32, c': bv32)
    requires i < |DIGITS| && Register(ALL_ONES, DIGITS[..i]) == Val(c) && Val(d) == DIGITS[i] as nat && ByteStepWord(c ^ d) == c'
    ensures Register(ALL_ONES, DIGITS[..i + 1]) == Val(c')
  {
    OneMoreByte(DIGITS[..i], DIGITS[i], c, d, c', DIGITS[..i + 1]);
  }

  lemma After0()
    ensures Register(ALL_ONES, DIGITS[..0]) == Val(0xFFFF_FFFF)
  {
    OnesVal();
  }

  lemma Step1()
    ensures ByteStepWord(0xFFFF_FFFF ^ 0x31) == 0x7C23_1048 && Val(0x31) == 0x31
  {
    ByteVal(0x31);
  }

  lemma After1()
    ensures Register(ALL_ONES, DIGITS[..1]) == Val(0x7C23_1048)
  {
    After0();
    Step1();
    NextDigit(0, 0xFFFF_FFFF, 0x31, 0x7C23_1048);
  }

  lemma Step2()
    ensures ByteStepWord(0x7C23_1048 ^ 0x32) == 0xB0AC_BB32 && Val(0x32) == 0x32
  {
    ByteVal(0x32);
  }

  lemma After2()
    ensures Register(ALL_ONES, DIGITS[..2]) == Val(0xB0AC_BB32)
  {
    After1();
    Step2();
    NextDigit(1, 0x7C23_1048, 0x32, 0xB0AC_BB32);
  }

  lemma Step3()
    ensures ByteStepWord(0xB0AC_BB32 ^ 0x33) == 0x77B7_9C2D && Val(0x33) == 0x33
  {
    ByteVal(0x33);
  }

  lemma After3()
    ensures Register(ALL_ONES, DIGITS[..3]) == Val(0x77B7_9C2D)
  {
    After2();
    Step3();
    NextDigit(2, 0xB0AC_BB32, 0x33, 0x77B7_9C2D);
  }

  lemma Step4()
    ensures ByteStepWord(0x77B7_9C2D ^ 0x34) == 0x641C_1F5C && Val(0x34) == 0x34
  {
    ByteVal(0x34);
  }

  lemma After4()
    ensures Register(ALL_ONES, DIGITS[..4]) == Val(0x641C_1F5C)
  {
    After3();
    Step4();
    NextDigit(3, 0x77B7_9C2D, 0x34, 0x641C_1F5C);
  }

  lemma Step5()
    ensures ByteStepWord(0x641C_1F5C ^ 0x35) == 0x340A_C5E3 && Val(0x35) == 0x35
  {
    ByteVal(0x35);
  }

  lemma After5()
    ensures Register(ALL_ONES, DIGITS[..5]) == Val(0x340A_C5E3)
  {
    After4();
    Step5();
    NextDigit(4, 0x641C_1F5C, 0x35, 0x340A_C5E3);
  }

  lemma Step6()
    ensures ByteStepWord(0x340A_C5E3 ^ 0x36) == 0xF68D_2C9E && Val(0x36) == 0x36
  {
    ByteVal(0x36);
  }

  lemma After6()
    ensures Register(ALL_ONES, DIGITS[..6]) == Val(0xF68D_2C9E)
  {
    After5();
    Step6();
    NextDigit(5, 0x340A_C5E3, 0x36, 0xF68D_2C9E);
  }

  lemma Step7()
    ensures ByteStepWord(0xF68D_2C9E ^ 0x37) == 0xAFFC_9660 && Val(0x37) == 0x37
  {
    ByteVal(0x37);
  }

  lemma After7()
    ensures Register(ALL_ONES, DIGITS[..7]) == Val(0xAFFC_9660)
  {
    After6();
    Step7();
    NextDigit(6, 0xF68D_2C9E, 0x37, 0xAFFC_9660);
  }

  lemma Step8()
    ensures ByteStepWord(0xAFFC_9660 ^ 0x38) == 0x651F_2550 && Val(0x38) == 0x38
  {
    ByteVal(0x38);
  }

  lemma After8()
    ensures Register(ALL_ONES, DIGITS[..8]) == Val(0x651F_2550)
  {
    After7();
    Step8();
    NextDigit(7, 0xAFFC_9660, 0x38, 0x651F_2550);
  }

  lemma Step9()
    ensures ByteStepWord(0x651F_2550 ^ 0x39) == 0x340B_C6D9 && Val(0x39) == 0x39
  {
    ByteVal(0x39);
  }

  lemma After9()
    ensures Register(ALL_ONES, DIGITS[..9]) == Val(0x340B_C6D9)
  {
    After8();
    Step9();
    NextDigit(8, 0x651F_2550, 0x39, 0x340B_C6D9);
  }

  /** The CRC of the text 123456789 is 0xCBF43926, the check value of CRC-32. */
  lemma CheckValue()
    ensures Crc32(DIGITS) == 0xCBF4_3926
  {
    After9();
    assert DIGITS[..9] == DIGITS;
    OnesVal();
    XorVal(0x340B_C6D9, 0xFFFF_FFFF);
    CheckVal();
  }
}
