/** 32-bit register words. Each lemma is one fact about their bits, so that the proofs
    about the CRC register can work with named operations only. */
module Words {
  const ONES: bv32 := 0xFFFFFFFF

  predicate Odd(c: bv32) { c & 1 == 1 }

  function Half(c: bv32): bv32 { c >> 1 }

  function Xor(c: bv32, d: bv32): bv32 { c ^ d }

  predicate TopClear(w: bv32) { w & 0x80000000 == 0 }

  predicate Disjoint(w: bv32, mask: bv32) { w & mask == 0 }

  function BitWord(bit: bool): bv32 { if bit then 1 else 0 }

  /** Puts one bit below a word. */
  function Join(bit: bool, w: bv32): bv32 { BitWord(bit) | (w << 1) }

  lemma XorZero(c: bv32)
    ensures Xor(c, 0) == c
  {}

  lemma XorTwice(c: bv32, d: bv32)
    ensures Xor(Xor(c, d), d) == c
  {
    assert (c ^ d) ^ d == c;
  }

  lemma RawAssociative(a: bv32, b: bv32, c: bv32)
    ensures (a ^ b) ^ c == a ^ (b ^ c)
  {}

  lemma XorAssociative(a: bv32, b: bv32, c: bv32)
    ensures Xor(Xor(a, b), c) == Xor(a, Xor(b, c))
  {
    RawAssociative(a, b, c);
  }

  lemma XorCommutes(a: bv32, b: bv32)
    ensures Xor(a, b) == Xor(b, a)
  {}

  lemma XorRegroup(a: bv32, b: bv32, c: bv32)
    ensures Xor(Xor(a, b), c) == Xor(Xor(a, c), b)
  {
    hide Xor;
    XorAssociative(a, b, c);
    XorCommutes(b, c);
    XorAssociative(a, c, b);
  }

  lemma XorCancels(c: bv32, d: bv32, x: bv32)
    ensures Xor(c, x) == Xor(d, x) <==> c == d
  {}

  lemma OddOfXor(a: bv32, b: bv32)
    ensures Odd(Xor(a, b)) <==> Odd(a) != Odd(b)
  {}

  lemma RawHalfOfXor(a: bv32, b: bv32)
    ensures (a ^ b) >> 1 == (a >> 1) ^ (b >> 1)
  {}

  lemma HalfOfXor(a: bv32, b: bv32)
    ensures Half(Xor(a, b)) == Xor(Half(a), Half(b))
  {
    RawHalfOfXor(a, b);
  }

  lemma OddOfJoin(bit: bool, w: bv32)
    ensures Odd(Join(bit, w)) == bit
  {}

  lemma RawHalfOfJoin(b: bv32, w: bv32)
    requires b <= 1 && w & 0x80000000 == 0
    ensures (b | (w << 1)) >> 1 == w
  {}

  lemma HalfOfJoin(bit: bool, w: bv32)
    requires TopClear(w)
    ensures Half(Join(bit, w)) == w
  {
    RawHalfOfJoin(BitWord(bit), w);
  }

  lemma RawJoinIsXor(b: bv32, w: bv32)
    requires b <= 1
    ensures b | (w << 1) == b ^ (0 | (w << 1))
  {}

  lemma JoinIsXor(bit: bool, w: bv32)
    ensures Join(bit, w) == Xor(BitWord(bit), Join(false, w))
  {
    RawJoinIsXor(BitWord(bit), w);
  }

  lemma RawJoinParts(c: bv32)
    ensures (c & 1) | ((c >> 1) << 1) == c
  {}

  lemma JoinParts(c: bv32)
    ensures Join(Odd(c), Half(c)) == c
  {
    RawJoinParts(c);
    RawLowBit(c);
  }

  lemma RawLowBit(c: bv32)
    ensures c & 1 == if c & 1 == 1 then 1 else 0
  {}

  lemma RawJoinDisjoint(b: bv32, w: bv32, mask: bv32)
    requires b <= 1 && w & mask == 0
    ensures (b | (w << 1)) & (0 | (mask << 1)) == 0
  {}

  lemma JoinDisjoint(bit: bool, w: bv32, mask: bv32)
    requires Disjoint(w, mask)
    ensures Disjoint(Join(bit, w), Join(false, mask))
  {
    RawJoinDisjoint(BitWord(bit), w, mask);
  }

  lemma ZeroDisjoint(mask: bv32)
    ensures Disjoint(0, mask)
  {}

  lemma TopFromMask(w: bv32, mask: bv32)
    requires Disjoint(w, mask) && !TopClear(mask)
    ensures TopClear(w)
  {}

  lemma TopClearOfHalf(c: bv32)
    ensures TopClear(Half(c))
  {}
}
