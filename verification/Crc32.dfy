/** src/crc32.c: the table-driven CRC-32, proved against the bit-serial definition, and
    the algebra that makes it detect errors. */
module Crc32 {
  import opened Words
  import opened Crc32Table

  // ----- the bit-serial reference -----

  /** Shifts one message bit into the register. */
  function FeedBit(c: bv32, bit: bool): bv32 {
    BitStep(Xor(c, BitWord(bit)))
  }

  function FeedBits(c: bv32, bits: seq<bool>): bv32
    decreases |bits|
  {
    if bits == [] then c else FeedBits(FeedBit(c, bits[0]), bits[1..])
  }

  /** The n low bits of a word, least significant (first transmitted) first. */
  function LowBits(n: nat, w: bv32): (bits: seq<bool>)
    ensures |bits| == n
  {
    if n == 0 then [] else [Odd(w)] + LowBits(n - 1, Half(w))
  }

  function ByteBits(b: bv8): (bits: seq<bool>)
    ensures |bits| == 8
  {
    LowBits(8, b as bv32)
  }

  function Bits(message: seq<bv8>): (bits: seq<bool>)
    ensures |bits| == 8 * |message|
  {
    if message == [] then [] else ByteBits(message[0]) + Bits(message[1..])
  }

  /** CRC-32 of a message, continued from an earlier CRC value (0 for a fresh one). */
  function Crc(crc: bv32, message: seq<bv8>): bv32 {
    Xor(FeedBits(Xor(crc, ONES), Bits(message)), ONES)
  }

  // ----- one step of the register is linear and a bijection -----

  lemma BitStepLinear(a: bv32, b: bv32)
    ensures BitStep(Xor(a, b)) == Xor(BitStep(a), BitStep(b))
  {
    hide Odd, Half, Xor;
    OddOfXor(a, b);
    HalfOfXor(a, b);
    XorRegroup(Half(a), POLY, Half(b));
    XorAssociative(Half(a), Half(b), POLY);
    XorCommutes(POLY, Half(b));
    XorAssociative(Half(a), POLY, Xor(Half(b), POLY));
    XorCommutes(POLY, Xor(Half(b), POLY));
    XorTwice(Half(b), POLY);
  }

  function BitUnstep(c: bv32): bv32 {
    if TopClear(c) then Join(false, c) else Join(true, Xor(c, POLY))
  }

  /** Nothing is lost: the top bit of the result tells which case the step took. */
  lemma BitStepBijective(c: bv32)
    ensures BitUnstep(BitStep(c)) == c && BitStep(BitUnstep(c)) == c
  {
    hide Odd, Half, Xor, TopClear, Join;
    UnstepThenStep(c);
    TopClearOfHalf(c);
    TopSetByPoly(Half(c));
    XorTwice(Half(c), POLY);
    var back := BitUnstep(BitStep(c));
    assert back == Join(Odd(c), Half(c));
    JoinParts(c);
  }

  lemma TopSetByPoly(c: bv32)
    requires TopClear(c)
    ensures !TopClear(Xor(c, POLY))
  {}

  lemma TopClearedByPoly(c: bv32)
    requires !TopClear(c)
    ensures TopClear(Xor(c, POLY))
  {}

  lemma UnstepThenStep(c: bv32)
    ensures BitStep(BitUnstep(c)) == c
  {
    hide Odd, Half, Xor, TopClear, Join;
    var x := Xor(c, POLY);
    XorTwice(c, POLY);
    if TopClear(c) {
      OddOfJoin(false, c);
      HalfOfJoin(false, c);
    } else {
      TopClearedByPoly(c);
      OddOfJoin(true, x);
      HalfOfJoin(true, x);
    }
  }

  lemma FeedBitInjective(c: bv32, d: bv32, bit: bool)
    requires FeedBit(c, bit) == FeedBit(d, bit)
    ensures c == d
  {
    hide BitStep, BitUnstep, Xor, BitWord;
    BitStepBijective(Xor(c, BitWord(bit)));
    BitStepBijective(Xor(d, BitWord(bit)));
    XorCancels(c, d, BitWord(bit));
  }

  lemma {:induction false} FeedBitsInjective(c: bv32, d: bv32, bits: seq<bool>)
    requires FeedBits(c, bits) == FeedBits(d, bits)
    ensures c == d
    decreases |bits|
  {
    hide FeedBit;
    if bits != [] {
      FeedBitsInjective(FeedBit(c, bits[0]), FeedBit(d, bits[0]), bits[1..]);
      FeedBitInjective(c, d, bits[0]);
    }
  }

  lemma {:induction false} FeedBitsConcat(c: bv32, a: seq<bool>, b: seq<bool>)
    ensures FeedBits(c, a + b) == FeedBits(FeedBits(c, a), b)
    decreases |a|
  {
    hide FeedBit;
    if a == [] {
      assert a + b == b;
    } else {
      assert (a + b)[1..] == a[1..] + b;
      FeedBitsConcat(FeedBit(c, a[0]), a[1..], b);
    }
  }

  // ----- up to 32 bits enter the register as one xor with the word they spell -----

  function Steps(n: nat, c: bv32): bv32 {
    if n == 0 then c else Steps(n - 1, BitStep(c))
  }

  function Word(bits: seq<bool>): bv32 {
    if bits == [] then 0 else Join(bits[0], Word(bits[1..]))
  }

  /** All bits from position n up. */
  function HighMask(n: nat): bv32 {
    if n == 0 then ONES else Join(false, HighMask(n - 1))
  }

  lemma {:induction false} WordAvoidsHighMask(bits: seq<bool>)
    ensures Disjoint(Word(bits), HighMask(|bits|))
  {
    hide Join, Disjoint;
    if bits == [] {
      ZeroDisjoint(ONES);
    } else {
      WordAvoidsHighMask(bits[1..]);
      JoinDisjoint(bits[0], Word(bits[1..]), HighMask(|bits| - 1));
    }
  }

  lemma HighMask31()
    ensures HighMask(31) == 0x80000000
  {
    assert HighMask(8) == 0xFFFFFF00;
    assert HighMask(16) == 0xFFFF0000;
    assert HighMask(24) == 0xFF000000;
  }

  /** A mask without its top bit would stay without it up to position 31. */
  lemma {:induction false} HighMaskTop(n: nat)
    requires n <= 31
    ensures !TopClear(HighMask(n))
    decreases 31 - n
  {
    hide Join, TopClear;
    if n == 31 {
      HighMask31();
      assert !TopClear(0x80000000) by { TopBitSet(); }
    } else {
      HighMaskTop(n + 1);
      HighMaskUpwardClosed(n);
      UpwardClosedTop(HighMask(n));
    }
  }

  lemma TopBitSet()
    ensures !TopClear(0x80000000)
  {}

  predicate UpwardClosed(mask: bv32) { Join(false, mask) & !mask == 0 }

  lemma UpwardClosedTop(mask: bv32)
    requires UpwardClosed(mask) && !TopClear(Join(false, mask))
    ensures !TopClear(mask)
  {}

  lemma RawUpwardClosedStep(mask: bv32)
    requires (0 | (mask << 1)) & !mask == 0
    ensures (0 | ((0 | (mask << 1)) << 1)) & !(0 | (mask << 1)) == 0
  {}

  lemma UpwardClosedStep(mask: bv32)
    requires UpwardClosed(mask)
    ensures UpwardClosed(Join(false, mask))
  {
    RawUpwardClosedStep(mask);
  }

  lemma {:induction false} HighMaskUpwardClosed(n: nat)
    ensures UpwardClosed(HighMask(n))
  {
    if n > 0 {
      hide Join, UpwardClosed;
      HighMaskUpwardClosed(n - 1);
      UpwardClosedStep(HighMask(n - 1));
    }
  }

  /** A word of at most 31 bits leaves the top bit clear. */
  lemma WordTopClear(bits: seq<bool>)
    requires |bits| <= 31
    ensures TopClear(Word(bits))
  {
    hide TopClear, Disjoint, Word, HighMask;
    WordAvoidsHighMask(bits);
    HighMaskTop(|bits|);
    TopFromMask(Word(bits), HighMask(|bits|));
  }

  lemma StepAbsorbsJoin(c: bv32, bit: bool, w: bv32)
    requires TopClear(w)
    ensures BitStep(Xor(c, Join(bit, w))) == Xor(FeedBit(c, bit), w)
  {
    hide Odd, Half, Xor, TopClear, Join, BitWord;
    var shifted := Join(false, w);
    JoinIsXor(bit, w);
    XorAssociative(c, BitWord(bit), shifted);
    BitStepLinear(Xor(c, BitWord(bit)), shifted);
    OddOfJoin(false, w);
    HalfOfJoin(false, w);
  }

  lemma {:induction false} FeedIsXorThenSteps(c: bv32, bits: seq<bool>)
    requires |bits| <= 32
    ensures FeedBits(c, bits) == Steps(|bits|, Xor(c, Word(bits)))
    decreases |bits|
  {
    hide BitStep, Xor, Join, TopClear, FeedBit;
    if bits == [] {
      XorZero(c);
    } else {
      WordTopClear(bits[1..]);
      FeedIsXorThenSteps(FeedBit(c, bits[0]), bits[1..]);
      StepAbsorbsJoin(c, bits[0], Word(bits[1..]));
    }
  }

  lemma {:induction false} WordInjective(a: seq<bool>, b: seq<bool>)
    requires |a| == |b| <= 32 && Word(a) == Word(b)
    ensures a == b
  {
    hide Odd, Half, Join, TopClear;
    if a != [] {
      WordTopClear(a[1..]);
      WordTopClear(b[1..]);
      OddOfJoin(a[0], Word(a[1..]));
      OddOfJoin(b[0], Word(b[1..]));
      HalfOfJoin(a[0], Word(a[1..]));
      HalfOfJoin(b[0], Word(b[1..]));
      WordInjective(a[1..], b[1..]);
      assert a == [a[0]] + a[1..] && b == [b[0]] + b[1..];
    }
  }

  lemma {:induction false} StepsInjective(n: nat, c: bv32, d: bv32)
    requires Steps(n, c) == Steps(n, d)
    ensures c == d
  {
    hide BitStep, BitUnstep;
    if n > 0 {
      StepsInjective(n - 1, BitStep(c), BitStep(d));
      BitStepBijective(c);
      BitStepBijective(d);
    }
  }

  // ----- bytes -----

  function Halves(n: nat, w: bv32): bv32 {
    if n == 0 then w else Halves(n - 1, Half(w))
  }

  lemma {:induction false} WordOfLowBits(n: nat, w: bv32)
    requires Halves(n, w) == 0
    ensures Word(LowBits(n, w)) == w
  {
    hide Odd, Half, Join;
    if n > 0 {
      WordOfLowBits(n - 1, Half(w));
      JoinParts(w);
      assert LowBits(n, w)[1..] == LowBits(n - 1, Half(w));
    }
  }

  lemma ByteHalvesAway(b: bv8)
    ensures Halves(8, b as bv32) == 0
  {
    var w := b as bv32;
    HalvesUnfold(w);
  }

  lemma HalvesUnfold(w: bv32)
    ensures Halves(8, w) == Half(Half(Half(Half(Half(Half(Half(Half(w))))))))
  {
    hide Half;
    var w2 := Half(Half(w));
    var w4 := Half(Half(w2));
    var w6 := Half(Half(w4));
    assert Halves(8, w) == Halves(7, Half(w)) == Halves(6, w2);
    assert Halves(6, w2) == Halves(5, Half(w2)) == Halves(4, w4);
    assert Halves(4, w4) == Halves(3, Half(w4)) == Halves(2, w6);
    assert Halves(2, w6) == Halves(1, Half(w6)) == Half(Half(w6));
  }

  lemma WordOfByteBits(b: bv8)
    ensures Word(ByteBits(b)) == b as bv32
  {
    ByteHalvesAway(b);
    WordOfLowBits(8, b as bv32);
  }

  lemma EightSteps(c: bv32)
    ensures Steps(8, c) == ByteStep(c)
  {
    hide BitStep;
    var c2 := BitStep(BitStep(c));
    var c4 := BitStep(BitStep(c2));
    var c6 := BitStep(BitStep(c4));
    assert Steps(8, c) == Steps(7, BitStep(c)) == Steps(6, c2);
    assert Steps(6, c2) == Steps(5, BitStep(c2)) == Steps(4, c4);
    assert Steps(4, c4) == Steps(3, BitStep(c4)) == Steps(2, c6);
    assert Steps(2, c6) == Steps(1, BitStep(c6)) == BitStep(BitStep(c6));
  }

  /** A byte enters the register as one xor followed by eight steps. */
  lemma FeedByte(c: bv32, b: bv8)
    ensures FeedBits(c, ByteBits(b)) == ByteStep(Xor(c, b as bv32))
  {
    hide ByteStep, Xor, FeedBits, ByteBits, Steps;
    FeedIsXorThenSteps(c, ByteBits(b));
    WordOfByteBits(b);
    EightSteps(Xor(c, b as bv32));
  }

  lemma ByteStepLinear(a: bv32, b: bv32)
    ensures ByteStep(Xor(a, b)) == Xor(ByteStep(a), ByteStep(b))
  {
    hide BitStep, Xor;
    BitStepLinear(a, b);
    var a1, b1 := BitStep(a), BitStep(b);
    BitStepLinear(a1, b1);
    var a2, b2 := BitStep(a1), BitStep(b1);
    BitStepLinear(a2, b2);
    var a3, b3 := BitStep(a2), BitStep(b2);
    BitStepLinear(a3, b3);
    var a4, b4 := BitStep(a3), BitStep(b3);
    BitStepLinear(a4, b4);
    var a5, b5 := BitStep(a4), BitStep(b4);
    BitStepLinear(a5, b5);
    var a6, b6 := BitStep(a5), BitStep(b5);
    BitStepLinear(a6, b6);
    BitStepLinear(BitStep(a6), BitStep(b6));
  }

  lemma HighBytesShiftThrough(c: bv32)
    ensures ByteStep(c & 0xFFFFFF00) == c >> 8
  {}

  lemma SplitWord(c: bv32)
    ensures c == Xor(c & 0xFF, c & 0xFFFFFF00)
  {}

  /** The upper 24 bits only shift through, so the table needs the low byte alone. */
  lemma ByteStepSplits(c: bv32)
    ensures ByteStep(c) == Xor(ByteStep(c & 0xFF), c >> 8)
  {
    hide ByteStep, Xor;
    SplitWord(c);
    ByteStepLinear(c & 0xFF, c & 0xFFFFFF00);
    HighBytesShiftThrough(c);
  }

  lemma {:induction false} BitsConcat(a: seq<bv8>, b: seq<bv8>)
    ensures Bits(a + b) == Bits(a) + Bits(b)
  {
    hide ByteBits;
    if a == [] {
      assert a + b == b;
    } else {
      assert (a + b)[1..] == a[1..] + b;
      BitsConcat(a[1..], b);
    }
  }

  lemma ByteBitsInjective(a: bv8, b: bv8)
    requires ByteBits(a) == ByteBits(b)
    ensures a == b
  {
    hide ByteBits;
    WordOfByteBits(a);
    WordOfByteBits(b);
  }

  lemma {:induction false} BitsInjective(a: seq<bv8>, b: seq<bv8>)
    requires |a| == |b| && Bits(a) == Bits(b)
    ensures a == b
  {
    hide ByteBits;
    if a != [] {
      assert ByteBits(a[0]) == Bits(a)[..8] == Bits(b)[..8] == ByteBits(b[0]);
      ByteBitsInjective(a[0], b[0]);
      assert Bits(a[1..]) == Bits(a)[8..] == Bits(b)[8..] == Bits(b[1..]);
      BitsInjective(a[1..], b[1..]);
      assert a == [a[0]] + a[1..] && b == [b[0]] + b[1..];
    }
  }

  // ----- main results -----

  function LowByte(c: bv32): bv8 { (c & 0xFF) as bv8 }

  /** crc32: one table look-up a byte computes the bit-serial CRC. */
  method ComputeCrc32(crc: bv32, buf: seq<bv8>) returns (result: bv32)
    ensures result == Crc(crc, buf)
  {
    hide Xor, FeedBits, Bits, LowByte;
    var c := Xor(crc, ONES);
    var p := 0;
    while p < |buf|
      invariant 0 <= p <= |buf|
      invariant FeedBits(c, Bits(buf[p..])) == FeedBits(Xor(crc, ONES), Bits(buf))
    {
      var index := LowByte(Xor(c, buf[p] as bv32));
      LookupFeedsByte(c, buf[p..], index);
      assert buf[p..][1..] == buf[p + 1..];
      c := Xor(CRC32_TAB[index as int], c >> 8);
      p := p + 1;
    }
    NoBitsLeft(c, buf[p..]);
    result := Xor(c, ONES);
  }

  lemma NoBitsLeft(c: bv32, rest: seq<bv8>)
    requires rest == []
    ensures FeedBits(c, Bits(rest)) == c
  {}

  /** One table look-up feeds the bits of one byte. */
  lemma LookupFeedsByte(c: bv32, rest: seq<bv8>, index: bv8)
    requires rest != [] && index == LowByte(Xor(c, rest[0] as bv32))
    ensures FeedBits(Xor(CRC32_TAB[index as int], c >> 8), Bits(rest[1..])) == FeedBits(c, Bits(rest))
  {
    hide Xor, FeedBits, ByteBits, LowByte, ByteStep;
    TableEntry(index);
    LookupIsFeedByte(c, rest[0], index);
    FeedBitsConcat(c, ByteBits(rest[0]), Bits(rest[1..]));
  }

  lemma LookupIsFeedByte(c: bv32, b: bv8, index: bv8)
    requires index == LowByte(Xor(c, b as bv32))
    ensures Xor(ByteStep(index as bv32), c >> 8) == FeedBits(c, ByteBits(b))
  {
    hide ByteStep, Xor, FeedBits, ByteBits, LowByte;
    FeedByte(c, b);
    ByteStepSplits(Xor(c, b as bv32));
    NarrowByte(Xor(c, b as bv32), index);
    XorByteAbove(c, b);
  }

  lemma NarrowByte(c: bv32, index: bv8)
    requires index == LowByte(c)
    ensures index as bv32 == c & 0xFF
  {}

  lemma XorByteAbove(c: bv32, b: bv8)
    ensures Xor(c, b as bv32) >> 8 == c >> 8
  {}

  /** A CRC can be continued: chaining over any split is the CRC of the whole. */
  lemma Chaining(crc: bv32, a: seq<bv8>, b: seq<bv8>)
    ensures Crc(Crc(crc, a), b) == Crc(crc, a + b)
  {
    hide Xor, FeedBits;
    XorTwice(FeedBits(Xor(crc, ONES), Bits(a)), ONES);
    BitsConcat(a, b);
    FeedBitsConcat(Xor(crc, ONES), Bits(a), Bits(b));
  }

  /** Different starting values stay different over any message. */
  lemma CrcInjectiveInStart(c: bv32, d: bv32, message: seq<bv8>)
    ensures Crc(c, message) == Crc(d, message) <==> c == d
  {
    hide Xor, FeedBits, Bits;
    var p, q := Xor(c, ONES), Xor(d, ONES);
    XorCancels(FeedBits(p, Bits(message)), FeedBits(q, Bits(message)), ONES);
    XorCancels(c, d, ONES);
    if Crc(c, message) == Crc(d, message) {
      FeedBitsInjective(p, q, Bits(message));
    }
  }

  // ----- the residue -----

  function UpperBytes(w: bv32): bv32 { w >> 8 }

  /** The four bytes of a word, low byte first: a CRC as it is appended to its message. */
  function LeBytes(w: bv32): seq<bv8> {
    var u := UpperBytes(w);
    var v := UpperBytes(u);
    [LowByte(w), LowByte(u), LowByte(v), LowByte(UpperBytes(v))]
  }

  lemma OwnByteCancels(s: bv32, w: bv32)
    ensures Xor(Xor(s, w), w & 0xFF) == Xor(s, w & 0xFFFFFF00)
  {
    hide Xor;
    var (low, high) := (w & 0xFF, w & 0xFFFFFF00);
    SplitWord(w);
    XorCommutes(low, high);
    XorAssociative(s, high, low);
    XorTwice(Xor(s, high), low);
  }

  /** Feeding the low byte of w cancels it in the register; the upper bytes only shift down. */
  lemma FeedOwnByte(s: bv32, w: bv32, rest: seq<bv8>)
    ensures FeedBits(Xor(s, w), Bits([LowByte(w)] + rest)) == FeedBits(Xor(ByteStep(s), UpperBytes(w)), Bits(rest))
  {
    hide ByteStep, Xor, FeedBits, ByteBits, LowByte;
    FeedByte(Xor(s, w), LowByte(w));
    NarrowByte(w, LowByte(w));
    OwnByteCancels(s, w);
    ByteStepLinear(s, w & 0xFFFFFF00);
    HighBytesShiftThrough(w);
    assert ([LowByte(w)] + rest)[1..] == rest;
    FeedBitsConcat(Xor(s, w), ByteBits(LowByte(w)), Bits(rest));
  }

  lemma NothingLeft(w: bv32)
    ensures UpperBytes(UpperBytes(UpperBytes(UpperBytes(w)))) == 0
  {}

  lemma FeedOwnBytes(s: bv32, w: bv32)
    ensures FeedBits(Xor(s, w), Bits(LeBytes(w))) == ByteStep(ByteStep(ByteStep(ByteStep(s))))
  {
    hide ByteStep, Xor, FeedBits, Bits, LowByte, UpperBytes;
    var (s1, u) := (ByteStep(s), UpperBytes(w));
    var (s2, v) := (ByteStep(s1), UpperBytes(u));
    var (s3, t) := (ByteStep(s2), UpperBytes(v));
    var (b0, b1, b2, b3) := (LowByte(w), LowByte(u), LowByte(v), LowByte(t));
    assert LeBytes(w) == [b0] + [b1, b2, b3] && [b1, b2, b3] == [b1] + [b2, b3];
    assert [b2, b3] == [b2] + [b3] && [b3] == [b3] + [];
    NothingLeft(w);
    FeedOwnByte(s, w, [b1, b2, b3]);
    FeedOwnByte(s1, u, [b2, b3]);
    FeedOwnByte(s2, v, [b3]);
    FeedOwnByte(s3, t, []);
    NoBitsLeft(Xor(ByteStep(s3), 0), []);
    XorZero(ByteStep(s3));
  }

  lemma OnesAfterFourBytes()
    ensures ByteStep(0xFFFFFFFF) == 0x2DFD1072 && ByteStep(0x2DFD1072) == 0xBE26ED00
    ensures ByteStep(0xBE26ED00) == 0x00BE26ED && ByteStep(0x00BE26ED) == 0xDEBB20E3
  {}

  /** A message followed by its own CRC has the same CRC whatever the message and the start. */
  lemma Residue(crc: bv32, message: seq<bv8>)
    ensures Crc(crc, message + LeBytes(Crc(crc, message))) == 0x2144DF1C
  {
    hide Xor, FeedBits, Bits, ByteStep, LowByte, LeBytes;
    var w := Crc(crc, message);
    Chaining(crc, message, LeBytes(w));
    XorCommutes(w, ONES);
    FeedOwnBytes(ONES, w);
    OnesAfterFourBytes();
    assert Crc(w, LeBytes(w)) == Xor(0xDEBB20E3, ONES);
    FinalInversion();
  }

  lemma FinalInversion()
    ensures Xor(0xDEBB20E3, ONES) == 0x2144DF1C
  {}

  /** Two bit streams that differ only inside a window of 32 bits leave the register different. */
  lemma BurstOfBits(c: bv32, pre: seq<bool>, a: seq<bool>, b: seq<bool>, post: seq<bool>)
    requires |a| == |b| <= 32 && a != b
    ensures FeedBits(c, pre + a + post) != FeedBits(c, pre + b + post)
  {
    hide Xor, FeedBits, Steps, Word;
    var r := FeedBits(c, pre);
    FeedBitsConcat(c, pre + a, post);
    FeedBitsConcat(c, pre, a);
    FeedBitsConcat(c, pre + b, post);
    FeedBitsConcat(c, pre, b);
    if FeedBits(c, pre + a + post) == FeedBits(c, pre + b + post) {
      FeedBitsInjective(FeedBits(r, a), FeedBits(r, b), post);
      FeedIsXorThenSteps(r, a);
      FeedIsXorThenSteps(r, b);
      StepsInjective(|a|, Xor(r, Word(a)), Xor(r, Word(b)));
      XorCommutes(r, Word(a));
      XorCommutes(r, Word(b));
      XorCancels(Word(a), Word(b), r);
      WordInjective(a, b);
      assert false;
    }
  }

  lemma DifferInside(p: seq<bool>, q: seq<bool>, from: nat, to: nat)
    requires |p| == |q| && p != q && from <= to <= |p|
    requires forall k :: 0 <= k < |p| && !(from <= k < to) ==> p[k] == q[k]
    ensures p == p[..from] + p[from..to] + p[to..] && q == p[..from] + q[from..to] + p[to..]
    ensures p[from..to] != q[from..to]
  {
    assert q == p[..from] + q[from..to] + p[to..];
  }

  /** Burst detection: messages of equal length that differ, but only inside some window of
      32 consecutive bits, have different CRCs whatever the starting value. */
  lemma BurstDetected(crc: bv32, a: seq<bv8>, b: seq<bv8>, from: nat, width: nat)
    requires |a| == |b| && a != b
    requires width <= 32 && from + width <= 8 * |a|
    requires forall k :: 0 <= k < 8 * |a| && !(from <= k < from + width) ==> Bits(a)[k] == Bits(b)[k]
    ensures Crc(crc, a) != Crc(crc, b)
  {
    hide Xor, FeedBits, Bits;
    var p, q, to := Bits(a), Bits(b), from + width;
    if p == q {
      BitsInjective(a, b);
    }
    DifferInside(p, q, from, to);
    BurstOfBits(Xor(crc, ONES), p[..from], p[from..to], q[from..to], p[to..]);
    XorCancels(FeedBits(Xor(crc, ONES), p), FeedBits(Xor(crc, ONES), q), ONES);
  }

  lemma {:induction false} BitsAt(message: seq<bv8>, k: nat)
    requires k < 8 * |message|
    ensures Bits(message)[k] == ByteBits(message[k / 8])[k % 8]
  {
    hide ByteBits;
    if k >= 8 {
      BitsAt(message[1..], k - 8);
      assert (k - 8) / 8 == k / 8 - 1 && (k - 8) % 8 == k % 8;
    }
  }

  /** The same for whole bytes: any change confined to four consecutive bytes is caught. */
  lemma ByteBurstDetected(crc: bv32, a: seq<bv8>, b: seq<bv8>, from: nat, width: nat)
    requires |a| == |b| && a != b
    requires width <= 4 && from + width <= |a|
    requires forall k :: 0 <= k < |a| && !(from <= k < from + width) ==> a[k] == b[k]
    ensures Crc(crc, a) != Crc(crc, b)
  {
    hide Bits, ByteBits, Crc;
    forall k | 0 <= k < 8 * |a| && !(8 * from <= k < 8 * from + 8 * width)
      ensures Bits(a)[k] == Bits(b)[k]
    {
      BitsAt(a, k);
      BitsAt(b, k);
    }
    BurstDetected(crc, a, b, 8 * from, 8 * width);
  }
}
