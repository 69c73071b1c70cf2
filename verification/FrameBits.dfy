/** The bit arithmetic of the display codec in util/cat/ev3_lcd.c (lines 47-76 and 235-311):
    three pixels to a device byte, eight device bytes to three picture bytes. */
module FrameBits {
  import opened Pixels

  // ----- three pixels in a byte -----

  function PixelTab(v: bv32): bv8 {
    if v == 0 then 0x00
    else if v == 1 then 0xE0
    else if v == 2 then 0x1C
    else if v == 3 then 0xFC
    else if v == 4 then 0x03
    else if v == 5 then 0xE3
    else if v == 6 then 0x1F
    else 0xFF
  }

  /** The 256-entry table: zero except at the eight values of PixelTab. */
  function UnPixelTab(b: bv8): bv32 {
    if b == 0x03 then 4
    else if b == 0x1C then 2
    else if b == 0x1F then 6
    else if b == 0xE0 then 1
    else if b == 0xE3 then 5
    else if b == 0xFC then 3
    else if b == 0xFF then 7
    else 0
  }

  /** What the table means: each of three pixels lights its own bits of the device byte. */
  function Spread(p: bool, q: bool, r: bool): bv8 {
    (if p then 0xE0 else 0) | (if q then 0x1C else 0) | (if r then 0x03 else 0)
  }

  predicate IsCode(b: bv8) { exists p, q, r :: b == Spread(p, q, r) }

  /** Bit k of a three-pixel value. */
  predicate LowBit(u: bv32, k: nat)
    requires k < 3
  {
    u & (if k == 0 then 1 else if k == 1 then 2 else 4) != 0
  }

  /** Pixel k of a device byte. */
  predicate CodeBit(b: bv8, k: nat)
    requires k < 3
  {
    LowBit(UnPixelTab(b), k)
  }

  lemma CodeOfSpread(p: bool, q: bool, r: bool)
    ensures CodeBit(Spread(p, q, r), 0) == p && CodeBit(Spread(p, q, r), 1) == q && CodeBit(Spread(p, q, r), 2) == r
  {}

  lemma SpreadOfCode(b: bv8)
    requires IsCode(b)
    ensures Spread(CodeBit(b, 0), CodeBit(b, 1), CodeBit(b, 2)) == b
  {
    hide Spread, CodeBit;
    var p, q, r :| b == Spread(p, q, r);
    CodeOfSpread(p, q, r);
  }

  /** A byte that is none of the eight codes shows no pixel. */
  lemma OtherBytesDark(b: bv8, k: nat)
    requires !IsCode(b) && k < 3
    ensures !CodeBit(b, k)
  {
    CodesListed();
  }

  lemma CodesListed()
    ensures IsCode(0x03) && IsCode(0x1C) && IsCode(0x1F) && IsCode(0xE0) && IsCode(0xE3) && IsCode(0xFC) && IsCode(0xFF)
  {
    assert 0x03 == Spread(false, false, true) && 0x1C == Spread(false, true, false);
    assert 0x1F == Spread(false, true, true) && 0xE0 == Spread(true, false, false);
    assert 0xE3 == Spread(true, false, true) && 0xFC == Spread(true, true, false) && 0xFF == Spread(true, true, true);
  }

  /** The three bits that the first pixel lights are the upper ones. */
  lemma SpreadBits(p: bool, q: bool, r: bool, k: nat)
    requires k < 8
    ensures TestBit(Spread(p, q, r), k) == if k >= 5 then p else if k >= 2 then q else r
  {
    BitValues();
  }

  // ----- eight codes from three bytes -----

  function Join3(b0: bv8, b1: bv8, b2: bv8): bv32 {
    (b0 as bv32) | ((b1 as bv32) << 8) | ((b2 as bv32) << 16)
  }

  function Shr3(w: bv32): bv32 { w >> 3 }

  /** The shift register of the encoder after k codes. */
  function Popped(w: bv32, k: nat): bv32 {
    if k == 0 then w else Shr3(Popped(w, k - 1))
  }

  /** The device code of the low three bits. */
  function LowCode(w: bv32): bv8 { PixelTab(w & 7) }

  /** Bit i of three bytes in a row. */
  predicate GroupBit(b0: bv8, b1: bv8, b2: bv8, i: nat)
    requires i < 24
  {
    TestBit(if i < 8 then b0 else if i < 16 then b1 else b2, i % 8)
  }

  lemma TabSpreads(w: bv32)
    requires w < 8
    ensures PixelTab(w) == Spread(w & 1 != 0, w & 2 != 0, w & 4 != 0)
  {}

  lemma LowThree(w: bv32)
    ensures w & 7 < 8
    ensures (w & 7) & 1 == w & 1 && (w & 7) & 2 == w & 2 && (w & 7) & 4 == w & 4
  {}

  /** The code of the low three bits shows these bits. */
  lemma LowCodeSpreads(w: bv32)
    ensures LowCode(w) == Spread(w & 1 != 0, w & 2 != 0, w & 4 != 0)
  {
    hide Spread, PixelTab;
    LowThree(w);
    TabSpreads(w & 7);
  }

  lemma PoppedUnfolds(w: bv32)
    ensures Popped(w, 0) == w && Popped(w, 1) == Shr3(w) && Popped(w, 2) == Shr3(Shr3(w))
    ensures Popped(w, 3) == Shr3(Shr3(Shr3(w))) && Popped(w, 4) == Shr3(Shr3(Shr3(Shr3(w))))
    ensures Popped(w, 5) == Shr3(Shr3(Shr3(Shr3(Shr3(w)))))
    ensures Popped(w, 6) == Shr3(Shr3(Shr3(Shr3(Shr3(Shr3(w))))))
    ensures Popped(w, 7) == Shr3(Shr3(Shr3(Shr3(Shr3(Shr3(Shr3(w)))))))
  {
    hide Shr3;
    assert Popped(w, 2) == Shr3(Popped(w, 1)) && Popped(w, 3) == Shr3(Popped(w, 2));
    assert Popped(w, 4) == Shr3(Popped(w, 3)) && Popped(w, 5) == Shr3(Popped(w, 4));
    assert Popped(w, 6) == Shr3(Popped(w, 5)) && Popped(w, 7) == Shr3(Popped(w, 6));
  }

  lemma TestBitValues(b: bv8)
    ensures TestBit(b, 0) == (b & 1 != 0) && TestBit(b, 1) == (b & 2 != 0)
    ensures TestBit(b, 2) == (b & 4 != 0) && TestBit(b, 3) == (b & 8 != 0)
    ensures TestBit(b, 4) == (b & 16 != 0) && TestBit(b, 5) == (b & 32 != 0)
    ensures TestBit(b, 6) == (b & 64 != 0) && TestBit(b, 7) == (b & 128 != 0)
  {
    hide Bit;
    BitValues();
  }

  // one lemma for each of the eight positions

  lemma RawCode0(b0: bv8, b1: bv8, b2: bv8, w: bv32)
    requires w == (b0 as bv32) | ((b1 as bv32) << 8) | ((b2 as bv32) << 16)
    ensures (w & 1 != 0) == (b0 & 1 != 0)
    ensures (w & 2 != 0) == (b0 & 2 != 0)
    ensures (w & 4 != 0) == (b0 & 4 != 0)
  {}

  lemma GroupCode0(b0: bv8, b1: bv8, b2: bv8)
    ensures LowCode(Popped(Join3(b0, b1, b2), 0)) ==
      Spread(GroupBit(b0, b1, b2, 0), GroupBit(b0, b1, b2, 1), GroupBit(b0, b1, b2, 2))
  {
    hide LowCode, Spread, TestBit, Popped;
    var w := Join3(b0, b1, b2);
    PoppedUnfolds(w);
    RawCode0(b0, b1, b2, w);
    LowCodeSpreads(Popped(w, 0));
    TestBitValues(b0);
  }

  lemma RawCode1(b0: bv8, b1: bv8, b2: bv8, w: bv32)
    requires w == (b0 as bv32) | ((b1 as bv32) << 8) | ((b2 as bv32) << 16)
    ensures ((w >> 3) & 1 != 0) == (b0 & 8 != 0)
    ensures ((w >> 3) & 2 != 0) == (b0 & 16 != 0)
    ensures ((w >> 3) & 4 != 0) == (b0 & 32 != 0)
  {}

  lemma GroupCode1(b0: bv8, b1: bv8, b2: bv8)
    ensures LowCode(Popped(Join3(b0, b1, b2), 1)) ==
      Spread(GroupBit(b0, b1, b2, 3), GroupBit(b0, b1, b2, 4), GroupBit(b0, b1, b2, 5))
  {
    hide LowCode, Spread, TestBit, Popped;
    var w := Join3(b0, b1, b2);
    PoppedUnfolds(w);
    RawCode1(b0, b1, b2, w);
    LowCodeSpreads(Popped(w, 1));
    TestBitValues(b0);
  }

  lemma RawCode2(b0: bv8, b1: bv8, b2: bv8, w: bv32)
    requires w == (b0 as bv32) | ((b1 as bv32) << 8) | ((b2 as bv32) << 16)
    ensures (((w >> 3) >> 3) & 1 != 0) == (b0 & 64 != 0)
    ensures (((w >> 3) >> 3) & 2 != 0) == (b0 & 128 != 0)
    ensures (((w >> 3) >> 3) & 4 != 0) == (b1 & 1 != 0)
  {}

  lemma GroupCode2(b0: bv8, b1: bv8, b2: bv8)
    ensures LowCode(Popped(Join3(b0, b1, b2), 2)) ==
      Spread(GroupBit(b0, b1, b2, 6), GroupBit(b0, b1, b2, 7), GroupBit(b0, b1, b2, 8))
  {
    hide LowCode, Spread, TestBit, Popped;
    var w := Join3(b0, b1, b2);
    PoppedUnfolds(w);
    RawCode2(b0, b1, b2, w);
    LowCodeSpreads(Popped(w, 2));
    TestBitValues(b0);
    TestBitValues(b1);
  }

  lemma RawCode3(b0: bv8, b1: bv8, b2: bv8, w: bv32)
    requires w == (b0 as bv32) | ((b1 as bv32) << 8) | ((b2 as bv32) << 16)
    ensures ((((w >> 3) >> 3) >> 3) & 1 != 0) == (b1 & 2 != 0)
    ensures ((((w >> 3) >> 3) >> 3) & 2 != 0) == (b1 & 4 != 0)
    ensures ((((w >> 3) >> 3) >> 3) & 4 != 0) == (b1 & 8 != 0)
  {}

  lemma GroupCode3(b0: bv8, b1: bv8, b2: bv8)
    ensures LowCode(Popped(Join3(b0, b1, b2), 3)) ==
      Spread(GroupBit(b0, b1, b2, 9), GroupBit(b0, b1, b2, 10), GroupBit(b0, b1, b2, 11))
  {
    hide LowCode, Spread, TestBit, Popped;
    var w := Join3(b0, b1, b2);
    PoppedUnfolds(w);
    RawCode3(b0, b1, b2, w);
    LowCodeSpreads(Popped(w, 3));
    TestBitValues(b1);
  }

  lemma RawCode4(b0: bv8, b1: bv8, b2: bv8, w: bv32)
    requires w == (b0 as bv32) | ((b1 as bv32) << 8) | ((b2 as bv32) << 16)
    ensures (((((w >> 3) >> 3) >> 3) >> 3) & 1 != 0) == (b1 & 16 != 0)
    ensures (((((w >> 3) >> 3) >> 3) >> 3) & 2 != 0) == (b1 & 32 != 0)
    ensures (((((w >> 3) >> 3) >> 3) >> 3) & 4 != 0) == (b1 & 64 != 0)
  {}

  lemma GroupCode4(b0: bv8, b1: bv8, b2: bv8)
    ensures LowCode(Popped(Join3(b0, b1, b2), 4)) ==
      Spread(GroupBit(b0, b1, b2, 12), GroupBit(b0, b1, b2, 13), GroupBit(b0, b1, b2, 14))
  {
    hide LowCode, Spread, TestBit, Popped;
    var w := Join3(b0, b1, b2);
    PoppedUnfolds(w);
    RawCode4(b0, b1, b2, w);
    LowCodeSpreads(Popped(w, 4));
    TestBitValues(b1);
  }

  lemma RawCode5(b0: bv8, b1: bv8, b2: bv8, w: bv32)
    requires w == (b0 as bv32) | ((b1 as bv32) << 8) | ((b2 as bv32) << 16)
    ensures ((((((w >> 3) >> 3) >> 3) >> 3) >> 3) & 1 != 0) == (b1 & 128 != 0)
    ensures ((((((w >> 3) >> 3) >> 3) >> 3) >> 3) & 2 != 0) == (b2 & 1 != 0)
    ensures ((((((w >> 3) >> 3) >> 3) >> 3) >> 3) & 4 != 0) == (b2 & 2 != 0)
  {}

  lemma GroupCode5(b0: bv8, b1: bv8, b2: bv8)
    ensures LowCode(Popped(Join3(b0, b1, b2), 5)) ==
      Spread(GroupBit(b0, b1, b2, 15), GroupBit(b0, b1, b2, 16), GroupBit(b0, b1, b2, 17))
  {
    hide LowCode, Spread, TestBit, Popped;
    var w := Join3(b0, b1, b2);
    PoppedUnfolds(w);
    RawCode5(b0, b1, b2, w);
    LowCodeSpreads(Popped(w, 5));
    TestBitValues(b1);
    TestBitValues(b2);
  }

  lemma RawCode6(b0: bv8, b1: bv8, b2: bv8, w: bv32)
    requires w == (b0 as bv32) | ((b1 as bv32) << 8) | ((b2 as bv32) << 16)
    ensures (((((((w >> 3) >> 3) >> 3) >> 3) >> 3) >> 3) & 1 != 0) == (b2 & 4 != 0)
    ensures (((((((w >> 3) >> 3) >> 3) >> 3) >> 3) >> 3) & 2 != 0) == (b2 & 8 != 0)
    ensures (((((((w >> 3) >> 3) >> 3) >> 3) >> 3) >> 3) & 4 != 0) == (b2 & 16 != 0)
  {}

  lemma GroupCode6(b0: bv8, b1: bv8, b2: bv8)
    ensures LowCode(Popped(Join3(b0, b1, b2), 6)) ==
      Spread(GroupBit(b0, b1, b2, 18), GroupBit(b0, b1, b2, 19), GroupBit(b0, b1, b2, 20))
  {
    hide LowCode, Spread, TestBit, Popped;
    var w := Join3(b0, b1, b2);
    PoppedUnfolds(w);
    RawCode6(b0, b1, b2, w);
    LowCodeSpreads(Popped(w, 6));
    TestBitValues(b2);
  }

  lemma RawCode7(b0: bv8, b1: bv8, b2: bv8, w: bv32)
    requires w == (b0 as bv32) | ((b1 as bv32) << 8) | ((b2 as bv32) << 16)
    ensures ((((((((w >> 3) >> 3) >> 3) >> 3) >> 3) >> 3) >> 3) & 1 != 0) == (b2 & 32 != 0)
    ensures ((((((((w >> 3) >> 3) >> 3) >> 3) >> 3) >> 3) >> 3) & 2 != 0) == (b2 & 64 != 0)
    ensures ((((((((w >> 3) >> 3) >> 3) >> 3) >> 3) >> 3) >> 3) & 4 != 0) == (b2 & 128 != 0)
  {}

  lemma GroupCode7(b0: bv8, b1: bv8, b2: bv8)
    ensures LowCode(Popped(Join3(b0, b1, b2), 7)) ==
      Spread(GroupBit(b0, b1, b2, 21), GroupBit(b0, b1, b2, 22), GroupBit(b0, b1, b2, 23))
  {
    hide LowCode, Spread, TestBit, Popped;
    var w := Join3(b0, b1, b2);
    PoppedUnfolds(w);
    RawCode7(b0, b1, b2, w);
    LowCodeSpreads(Popped(w, 7));
    TestBitValues(b2);
  }

  lemma CodeOfGroup(b0: bv8, b1: bv8, b2: bv8, k: nat)
    requires k < 8
    ensures LowCode(Popped(Join3(b0, b1, b2), k)) ==
      Spread(GroupBit(b0, b1, b2, 3 * k), GroupBit(b0, b1, b2, 3 * k + 1), GroupBit(b0, b1, b2, 3 * k + 2))
  {
    hide LowCode, Spread, Join3, GroupBit, Popped;
    match k {
      case 0 => GroupCode0(b0, b1, b2);
      case 1 => GroupCode1(b0, b1, b2);
      case 2 => GroupCode2(b0, b1, b2);
      case 3 => GroupCode3(b0, b1, b2);
      case 4 => GroupCode4(b0, b1, b2);
      case 5 => GroupCode5(b0, b1, b2);
      case 6 => GroupCode6(b0, b1, b2);
      case _ => GroupCode7(b0, b1, b2);
    }
  }

  // ----- three bytes from eight codes -----

  /** The word frameBufferToLcd builds from eight three-pixel values. */
  function GatherWord(u0: bv32, u1: bv32, u2: bv32, u3: bv32, u4: bv32, u5: bv32, u6: bv32, u7: bv32): bv32 {
    u0 | (u1 << 3) | (u2 << 6) | (u3 << 9) | (u4 << 12) | (u5 << 15) | (u6 << 18) | (u7 << 21)
  }

  function Gather(c0: bv8, c1: bv8, c2: bv8, c3: bv8, c4: bv8, c5: bv8, c6: bv8, c7: bv8): bv32 {
    GatherWord(UnPixelTab(c0), UnPixelTab(c1), UnPixelTab(c2), UnPixelTab(c3),
      UnPixelTab(c4), UnPixelTab(c5), UnPixelTab(c6), UnPixelTab(c7))
  }

  function Byte0(w: bv32): bv8 { (w & 0xFF) as bv8 }

  function Byte1(w: bv32): bv8 { ((w >> 8) & 0xFF) as bv8 }

  function Byte2(w: bv32): bv8 { ((w >> 16) & 0xFF) as bv8 }

  /** The eight bits of a byte. */
  predicate BitsAre(b: bv8, p0: bool, p1: bool, p2: bool, p3: bool, p4: bool, p5: bool, p6: bool, p7: bool) {
    && (b & 1 != 0) == p0 && (b & 2 != 0) == p1 && (b & 4 != 0) == p2 && (b & 8 != 0) == p3
    && (b & 16 != 0) == p4 && (b & 32 != 0) == p5 && (b & 64 != 0) == p6 && (b & 128 != 0) == p7
  }

  lemma BitsTest(b: bv8, p0: bool, p1: bool, p2: bool, p3: bool, p4: bool, p5: bool, p6: bool, p7: bool)
    requires BitsAre(b, p0, p1, p2, p3, p4, p5, p6, p7)
    ensures TestBit(b, 0) == p0 && TestBit(b, 1) == p1 && TestBit(b, 2) == p2 && TestBit(b, 3) == p3
    ensures TestBit(b, 4) == p4 && TestBit(b, 5) == p5 && TestBit(b, 6) == p6 && TestBit(b, 7) == p7
  {
    hide TestBit;
    TestBitValues(b);
  }

  lemma UnPixelSmall(b: bv8)
    ensures UnPixelTab(b) <= 7
  {}

  lemma WordByte0(u0: bv32, u1: bv32, u2: bv32, u3: bv32, u4: bv32, u5: bv32, u6: bv32, u7: bv32)
    requires u0 <= 7 && u1 <= 7 && u2 <= 7 && u3 <= 7 && u4 <= 7 && u5 <= 7 && u6 <= 7 && u7 <= 7
    ensures BitsAre(Byte0(GatherWord(u0, u1, u2, u3, u4, u5, u6, u7)),
      LowBit(u0, 0), LowBit(u0, 1), LowBit(u0, 2), LowBit(u1, 0),
      LowBit(u1, 1), LowBit(u1, 2), LowBit(u2, 0), LowBit(u2, 1))
  {}

  lemma WordByte1(u0: bv32, u1: bv32, u2: bv32, u3: bv32, u4: bv32, u5: bv32, u6: bv32, u7: bv32)
    requires u0 <= 7 && u1 <= 7 && u2 <= 7 && u3 <= 7 && u4 <= 7 && u5 <= 7 && u6 <= 7 && u7 <= 7
    ensures BitsAre(Byte1(GatherWord(u0, u1, u2, u3, u4, u5, u6, u7)),
      LowBit(u2, 2), LowBit(u3, 0), LowBit(u3, 1), LowBit(u3, 2),
      LowBit(u4, 0), LowBit(u4, 1), LowBit(u4, 2), LowBit(u5, 0))
  {}

  lemma WordByte2(u0: bv32, u1: bv32, u2: bv32, u3: bv32, u4: bv32, u5: bv32, u6: bv32, u7: bv32)
    requires u0 <= 7 && u1 <= 7 && u2 <= 7 && u3 <= 7 && u4 <= 7 && u5 <= 7 && u6 <= 7 && u7 <= 7
    ensures BitsAre(Byte2(GatherWord(u0, u1, u2, u3, u4, u5, u6, u7)),
      LowBit(u5, 1), LowBit(u5, 2), LowBit(u6, 0), LowBit(u6, 1),
      LowBit(u6, 2), LowBit(u7, 0), LowBit(u7, 1), LowBit(u7, 2))
  {}

  lemma Gathered0(c0: bv8, c1: bv8, c2: bv8, c3: bv8, c4: bv8, c5: bv8, c6: bv8, c7: bv8)
    ensures var b := Byte0(Gather(c0, c1, c2, c3, c4, c5, c6, c7));
      && TestBit(b, 0) == CodeBit(c0, 0) && TestBit(b, 1) == CodeBit(c0, 1)
      && TestBit(b, 2) == CodeBit(c0, 2) && TestBit(b, 3) == CodeBit(c1, 0)
      && TestBit(b, 4) == CodeBit(c1, 1) && TestBit(b, 5) == CodeBit(c1, 2)
      && TestBit(b, 6) == CodeBit(c2, 0) && TestBit(b, 7) == CodeBit(c2, 1)
  {
    hide TestBit, UnPixelTab, BitsAre, Byte0, GatherWord, LowBit;
    UnPixelSmall(c0);
    UnPixelSmall(c1);
    UnPixelSmall(c2);
    UnPixelSmall(c3);
    UnPixelSmall(c4);
    UnPixelSmall(c5);
    UnPixelSmall(c6);
    UnPixelSmall(c7);
    WordByte0(UnPixelTab(c0), UnPixelTab(c1), UnPixelTab(c2), UnPixelTab(c3),
      UnPixelTab(c4), UnPixelTab(c5), UnPixelTab(c6), UnPixelTab(c7));
    BitsTest(Byte0(Gather(c0, c1, c2, c3, c4, c5, c6, c7)),
      CodeBit(c0, 0), CodeBit(c0, 1), CodeBit(c0, 2), CodeBit(c1, 0),
      CodeBit(c1, 1), CodeBit(c1, 2), CodeBit(c2, 0), CodeBit(c2, 1));
  }

  lemma Gathered1(c0: bv8, c1: bv8, c2: bv8, c3: bv8, c4: bv8, c5: bv8, c6: bv8, c7: bv8)
    ensures var b := Byte1(Gather(c0, c1, c2, c3, c4, c5, c6, c7));
      && TestBit(b, 0) == CodeBit(c2, 2) && TestBit(b, 1) == CodeBit(c3, 0)
      && TestBit(b, 2) == CodeBit(c3, 1) && TestBit(b, 3) == CodeBit(c3, 2)
      && TestBit(b, 4) == CodeBit(c4, 0) && TestBit(b, 5) == CodeBit(c4, 1)
      && TestBit(b, 6) == CodeBit(c4, 2) && TestBit(b, 7) == CodeBit(c5, 0)
  {
    hide TestBit, UnPixelTab, BitsAre, Byte1, GatherWord, LowBit;
    UnPixelSmall(c0);
    UnPixelSmall(c1);
    UnPixelSmall(c2);
    UnPixelSmall(c3);
    UnPixelSmall(c4);
    UnPixelSmall(c5);
    UnPixelSmall(c6);
    UnPixelSmall(c7);
    WordByte1(UnPixelTab(c0), UnPixelTab(c1), UnPixelTab(c2), UnPixelTab(c3),
      UnPixelTab(c4), UnPixelTab(c5), UnPixelTab(c6), UnPixelTab(c7));
    BitsTest(Byte1(Gather(c0, c1, c2, c3, c4, c5, c6, c7)),
      CodeBit(c2, 2), CodeBit(c3, 0), CodeBit(c3, 1), CodeBit(c3, 2),
      CodeBit(c4, 0), CodeBit(c4, 1), CodeBit(c4, 2), CodeBit(c5, 0));
  }

  lemma Gathered2(c0: bv8, c1: bv8, c2: bv8, c3: bv8, c4: bv8, c5: bv8, c6: bv8, c7: bv8)
    ensures var b := Byte2(Gather(c0, c1, c2, c3, c4, c5, c6, c7));
      && TestBit(b, 0) == CodeBit(c5, 1) && TestBit(b, 1) == CodeBit(c5, 2)
      && TestBit(b, 2) == CodeBit(c6, 0) && TestBit(b, 3) == CodeBit(c6, 1)
      && TestBit(b, 4) == CodeBit(c6, 2) && TestBit(b, 5) == CodeBit(c7, 0)
      && TestBit(b, 6) == CodeBit(c7, 1) && TestBit(b, 7) == CodeBit(c7, 2)
  {
    hide TestBit, UnPixelTab, BitsAre, Byte2, GatherWord, LowBit;
    UnPixelSmall(c0);
    UnPixelSmall(c1);
    UnPixelSmall(c2);
    UnPixelSmall(c3);
    UnPixelSmall(c4);
    UnPixelSmall(c5);
    UnPixelSmall(c6);
    UnPixelSmall(c7);
    WordByte2(UnPixelTab(c0), UnPixelTab(c1), UnPixelTab(c2), UnPixelTab(c3),
      UnPixelTab(c4), UnPixelTab(c5), UnPixelTab(c6), UnPixelTab(c7));
    BitsTest(Byte2(Gather(c0, c1, c2, c3, c4, c5, c6, c7)),
      CodeBit(c5, 1), CodeBit(c5, 2), CodeBit(c6, 0), CodeBit(c6, 1),
      CodeBit(c6, 2), CodeBit(c7, 0), CodeBit(c7, 1), CodeBit(c7, 2));
  }

  /** The picture bytes for eight codes. */
  function GatheredByte(codes: seq<bv8>, c: nat): bv8
    requires |codes| == 8 && c < 3
  {
    var w := Gather(codes[0], codes[1], codes[2], codes[3], codes[4], codes[5], codes[6], codes[7]);
    if c == 0 then Byte0(w) else if c == 1 then Byte1(w) else Byte2(w)
  }

  lemma GatheredBits0(codes: seq<bv8>, i: nat)
    requires |codes| == 8 && i < 8
    ensures TestBit(GatheredByte(codes, 0), i) == CodeBit(codes[0 / 3 + (0 + i) / 3], (0 + i) % 3)
  {
    hide TestBit, CodeBit, Gather, Byte0;
    Gathered0(codes[0], codes[1], codes[2], codes[3], codes[4], codes[5], codes[6], codes[7]);
    if i == 0 {} else if i == 1 {} else if i == 2 {} else if i == 3 {}
    else if i == 4 {} else if i == 5 {} else if i == 6 {}
  }

  lemma GatheredBits1(codes: seq<bv8>, i: nat)
    requires |codes| == 8 && i < 8
    ensures TestBit(GatheredByte(codes, 1), i) == CodeBit(codes[8 / 3 + (2 + i) / 3], (2 + i) % 3)
  {
    hide TestBit, CodeBit, Gather, Byte1;
    Gathered1(codes[0], codes[1], codes[2], codes[3], codes[4], codes[5], codes[6], codes[7]);
    if i == 0 {} else if i == 1 {} else if i == 2 {} else if i == 3 {}
    else if i == 4 {} else if i == 5 {} else if i == 6 {}
  }

  lemma GatheredBits2(codes: seq<bv8>, i: nat)
    requires |codes| == 8 && i < 8
    ensures TestBit(GatheredByte(codes, 2), i) == CodeBit(codes[16 / 3 + (1 + i) / 3], (1 + i) % 3)
  {
    hide TestBit, CodeBit, Gather, Byte2;
    Gathered2(codes[0], codes[1], codes[2], codes[3], codes[4], codes[5], codes[6], codes[7]);
    if i == 0 {} else if i == 1 {} else if i == 2 {} else if i == 3 {}
    else if i == 4 {} else if i == 5 {} else if i == 6 {}
  }

  lemma GatheredBit(codes: seq<bv8>, n: nat)
    requires |codes| == 8 && n < 24
    ensures TestBit(GatheredByte(codes, n / 8), n % 8) == CodeBit(codes[n / 3], n % 3)
  {
    hide TestBit, CodeBit, GatheredByte;
    if n < 8 {
      GatheredBits0(codes, n);
    } else if n < 16 {
      GatheredBits1(codes, n - 8);
    } else {
      GatheredBits2(codes, n - 16);
    }
  }

  lemma NoCode(k: nat)
    requires k < 3
    ensures !CodeBit(0, k)
  {}
}
