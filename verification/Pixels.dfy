/** The 178x128 one-bit picture of util/cat/ev3_lcd.c, seen pixel by pixel: what one masked
    byte write does, and how the effects of several drawing operations add up. */
module Pixels {
  import opened Bytes

  const LCD_WIDTH := 178
  const LCD_HEIGHT := 128
  const LCD_BYTE_WIDTH := 23
  const LCD_BUFFER_SIZE := 2944

  // pixel columns held by the buffer, including the padding bits 178..183 of each row
  const BIT_WIDTH := 184

  const DRAW_PIXELS_CLEAR := 1
  const DRAW_PIXELS_INVERT := 2

  datatype Point = Point(x: int, y: int)

  // ----- bits of a byte -----

  function Bit(k: nat): bv8
    requires k < 8
  {
    1 << k
  }

  predicate TestBit(b: bv8, k: nat)
    requires k < 8
  {
    b & Bit(k) != 0
  }

  /** How a pixel mode merges a mask into a byte. */
  function Combine(mode: Byte, b: bv8, mask: bv8): bv8 {
    if mode == DRAW_PIXELS_INVERT then b ^ mask
    else if mode == DRAW_PIXELS_CLEAR then b & !mask
    else b | mask
  }

  /** The value of a pixel after n touches in a pixel mode. */
  function Effect(mode: Byte, old_: bool, n: nat): bool {
    if mode == DRAW_PIXELS_INVERT then old_ != (n % 2 == 1)
    else if mode == DRAW_PIXELS_CLEAR then old_ && n == 0
    else old_ || n > 0
  }

  lemma BitValues()
    ensures Bit(0) == 1 && Bit(1) == 2 && Bit(2) == 4 && Bit(3) == 8
    ensures Bit(4) == 16 && Bit(5) == 32 && Bit(6) == 64 && Bit(7) == 128
  {}

  lemma RawMerge(b: bv8, mask: bv8, bit: bv8)
    requires bit == 1 || bit == 2 || bit == 4 || bit == 8 || bit == 16 || bit == 32 || bit == 64 || bit == 128
    ensures (b ^ mask) & bit != 0 <==> (b & bit != 0) != (mask & bit != 0)
    ensures (b & !mask) & bit != 0 <==> b & bit != 0 && !(mask & bit != 0)
    ensures (b | mask) & bit != 0 <==> b & bit != 0 || mask & bit != 0
  {}

  lemma BitIsPowerOfTwo(k: nat)
    requires k < 8
    ensures var bit := Bit(k);
      bit == 1 || bit == 2 || bit == 4 || bit == 8 || bit == 16 || bit == 32 || bit == 64 || bit == 128
  {
    hide Bit;
    BitValues();
  }

  lemma CombineBit(mode: Byte, b: bv8, mask: bv8, k: nat)
    requires k < 8
    ensures TestBit(Combine(mode, b, mask), k) == Effect(mode, TestBit(b, k), if TestBit(mask, k) then 1 else 0)
  {
    hide Bit;
    BitIsPowerOfTwo(k);
    RawMerge(b, mask, Bit(k));
  }

  lemma RawByteExtensional(a: bv8, b: bv8)
    requires a & 1 != 0 <==> b & 1 != 0
    requires a & 2 != 0 <==> b & 2 != 0
    requires a & 4 != 0 <==> b & 4 != 0
    requires a & 8 != 0 <==> b & 8 != 0
    requires a & 16 != 0 <==> b & 16 != 0
    requires a & 32 != 0 <==> b & 32 != 0
    requires a & 64 != 0 <==> b & 64 != 0
    requires a & 128 != 0 <==> b & 128 != 0
    ensures a == b
  {}

  lemma ByteExtensional(a: bv8, b: bv8)
    requires forall k :: 0 <= k < 8 ==> TestBit(a, k) == TestBit(b, k)
    ensures a == b
  {
    hide Bit;
    BitValues();
    assert TestBit(a, 0) == TestBit(b, 0) && TestBit(a, 1) == TestBit(b, 1) && TestBit(a, 2) == TestBit(b, 2);
    assert TestBit(a, 3) == TestBit(b, 3) && TestBit(a, 4) == TestBit(b, 4) && TestBit(a, 5) == TestBit(b, 5);
    assert TestBit(a, 6) == TestBit(b, 6) && TestBit(a, 7) == TestBit(b, 7);
    RawByteExtensional(a, b);
  }

  // ----- pictures -----

  predicate InBuffer(x: int, y: int) { 0 <= x < BIT_WIDTH && 0 <= y < LCD_HEIGHT }

  predicate OnScreen(x: int, y: int) { 0 <= x < LCD_WIDTH && 0 <= y < LCD_HEIGHT }

  predicate Pixel(picture: seq<bv8>, x: int, y: int)
    requires |picture| == LCD_BUFFER_SIZE && InBuffer(x, y)
  {
    TestBit(picture[x / 8 + LCD_BYTE_WIDTH * y], x % 8)
  }

  /** Two pictures with the same pixels are the same bytes. */
  lemma PictureExtensional(a: seq<bv8>, b: seq<bv8>)
    requires |a| == |b| == LCD_BUFFER_SIZE
    requires forall x, y :: InBuffer(x, y) ==> Pixel(a, x, y) == Pixel(b, x, y)
    ensures a == b
  {
    hide TestBit;
    forall i | 0 <= i < LCD_BUFFER_SIZE
      ensures a[i] == b[i]
    {
      var column, row := i % LCD_BYTE_WIDTH, i / LCD_BYTE_WIDTH;
      forall k | 0 <= k < 8
        ensures TestBit(a[i], k) == TestBit(b[i], k)
      {
        var x := 8 * column + k;
        assert x / 8 == column && x % 8 == k;
        assert InBuffer(x, row) && Pixel(a, x, row) == Pixel(b, x, row);
      }
      ByteExtensional(a[i], b[i]);
    }
  }

  // ----- touches: how often a drawing operation visits each pixel -----

  type Touches = Point -> nat

  /** In every pixel, `after` is what the touches make of `before`; nothing else changed. */
  ghost predicate Touched(before: seq<bv8>, after: seq<bv8>, mode: Byte, touches: Touches) {
    && |before| == |after| == LCD_BUFFER_SIZE
    && forall x, y :: InBuffer(x, y) ==>
         Pixel(after, x, y) == Effect(mode, Pixel(before, x, y), touches(Point(x, y)))
  }

  function Nowhere(): Touches { p => 0 }

  function At(x: int, y: int): Touches { p => if p == Point(x, y) then 1 else 0 }

  function Both(s: Touches, t: Touches): Touches { p => s(p) + t(p) }

  ghost predicate SameTouches(s: Touches, t: Touches) {
    forall x, y :: InBuffer(x, y) ==> s(Point(x, y)) == t(Point(x, y))
  }

  lemma TouchedNowhere(picture: seq<bv8>, mode: Byte)
    requires |picture| == LCD_BUFFER_SIZE
    ensures Touched(picture, picture, mode, Nowhere())
  {
    hide Pixel;
  }

  lemma TouchedSame(before: seq<bv8>, after: seq<bv8>, mode: Byte, s: Touches, t: Touches)
    requires Touched(before, after, mode, s) && SameTouches(s, t)
    ensures Touched(before, after, mode, t)
  {
    hide Pixel, Effect;
  }

  lemma EffectAdds(mode: Byte, o: bool, m: nat, n: nat)
    ensures Effect(mode, Effect(mode, o, m), n) == Effect(mode, o, m + n)
  {}

  /** Drawing after drawing: the visits of each pixel add up, whatever the mode. */
  lemma TouchedCompose(a: seq<bv8>, b: seq<bv8>, c: seq<bv8>, mode: Byte, s: Touches, t: Touches)
    requires Touched(a, b, mode, s) && Touched(b, c, mode, t)
    ensures Touched(a, c, mode, Both(s, t))
  {
    hide Pixel, Effect;
    forall x, y | InBuffer(x, y)
      ensures Pixel(c, x, y) == Effect(mode, Pixel(a, x, y), Both(s, t)(Point(x, y)))
    {
      EffectAdds(mode, Pixel(a, x, y), s(Point(x, y)), t(Point(x, y)));
    }
  }

  /** The touches determine the picture. */
  lemma TouchedUnique(a: seq<bv8>, b: seq<bv8>, c: seq<bv8>, mode: Byte, t: Touches)
    requires Touched(a, b, mode, t) && Touched(a, c, mode, t)
    ensures b == c
  {
    hide Pixel, Effect;
    PictureExtensional(b, c);
  }

  lemma EffectTwice(o: bool, n: nat)
    ensures Effect(DRAW_PIXELS_INVERT, Effect(DRAW_PIXELS_INVERT, o, n), n) == o
  {}

  /** Drawing the same touches twice in INVERT mode restores every byte. */
  lemma InvertTwiceRestores(a: seq<bv8>, b: seq<bv8>, c: seq<bv8>, t: Touches)
    requires Touched(a, b, DRAW_PIXELS_INVERT, t) && Touched(b, c, DRAW_PIXELS_INVERT, t)
    ensures a == c
  {
    hide Pixel, Effect;
    forall x, y | InBuffer(x, y)
      ensures Pixel(a, x, y) == Pixel(c, x, y)
    {
      EffectTwice(Pixel(a, x, y), t(Point(x, y)));
    }
    PictureExtensional(a, c);
  }

  // ----- one masked byte write -----

  function MaskAt(column: int, row: int, mask: bv8): Touches {
    (p: Point) => if p.y == row && 8 * column <= p.x < 8 * column + 8 && TestBit(mask, p.x - 8 * column) then 1 else 0
  }

  lemma MaskWrite(before: seq<bv8>, mode: Byte, column: nat, row: nat, mask: bv8)
    requires |before| == LCD_BUFFER_SIZE && column < LCD_BYTE_WIDTH && row < LCD_HEIGHT
    ensures var i := column + LCD_BYTE_WIDTH * row;
      Touched(before, before[i := Combine(mode, before[i], mask)], mode, MaskAt(column, row, mask))
  {
    hide TestBit, Combine, Effect;
    var i := column + LCD_BYTE_WIDTH * row;
    var after := before[i := Combine(mode, before[i], mask)];
    forall x, y | InBuffer(x, y)
      ensures Pixel(after, x, y) == Effect(mode, Pixel(before, x, y), MaskAt(column, row, mask)(Point(x, y)))
    {
      if y == row && x / 8 == column {
        CombineBit(mode, before[i], mask, x % 8);
        assert x - 8 * column == x % 8;
      } else {
        assert x / 8 + LCD_BYTE_WIDTH * y != i;
        EffectOfNothing(mode, Pixel(before, x, y));
      }
    }
  }

  lemma EffectOfNothing(mode: Byte, o: bool)
    ensures Effect(mode, o, 0) == o
  {}

  lemma BitOfBit(k: nat, j: nat)
    requires k < 8 && j < 8
    ensures TestBit(Bit(k), j) <==> j == k
  {
    BitValues();
  }

  /** A one-bit mask touches one pixel. */
  lemma PixelWrite(before: seq<bv8>, mode: Byte, x: int, y: int)
    requires |before| == LCD_BUFFER_SIZE && InBuffer(x, y)
    ensures var i := x / 8 + LCD_BYTE_WIDTH * y;
      Touched(before, before[i := Combine(mode, before[i], Bit(x % 8))], mode, At(x, y))
  {
    hide Bit, TestBit, Combine, Effect, Pixel;
    var i, m := x / 8 + LCD_BYTE_WIDTH * y, Bit(x % 8);
    MaskWrite(before, mode, x / 8, y, m);
    forall u, v | InBuffer(u, v)
      ensures MaskAt(x / 8, y, m)(Point(u, v)) == At(x, y)(Point(u, v))
    {
      if v == y && u / 8 == x / 8 {
        BitOfBit(x % 8, u % 8);
      }
    }
    TouchedSame(before, before[i := Combine(mode, before[i], m)], mode, MaskAt(x / 8, y, m), At(x, y));
  }

  // ----- byte masks of a column range -----

  const MASKS: seq<bv8> := [0x00, 0x01, 0x03, 0x07, 0x0f, 0x1f, 0x3f, 0x7f, 0xff]

  lemma MasksBits(n: nat, k: nat)
    requires n <= 8 && k < 8
    ensures TestBit(MASKS[n], k) <==> k < n
  {
    BitValues();
  }

  lemma RawMaskMeet(a: bv8, b: bv8, bit: bv8)
    requires bit == 1 || bit == 2 || bit == 4 || bit == 8 || bit == 16 || bit == 32 || bit == 64 || bit == 128
    ensures (a & b) & bit != 0 <==> a & bit != 0 && b & bit != 0
  {}

  lemma MaskMeet(a: bv8, b: bv8, k: nat)
    requires k < 8
    ensures TestBit(a & b, k) <==> TestBit(a, k) && TestBit(b, k)
  {
    hide Bit;
    BitIsPowerOfTwo(k);
    RawMaskMeet(a, b, Bit(k));
  }

  lemma RawMaskWithout(a: bv8, b: bv8, bit: bv8)
    requires bit == 1 || bit == 2 || bit == 4 || bit == 8 || bit == 16 || bit == 32 || bit == 64 || bit == 128
    ensures (a & !b) & bit != 0 <==> a & bit != 0 && !(b & bit != 0)
  {}

  lemma MaskWithout(a: bv8, b: bv8, k: nat)
    requires k < 8
    ensures TestBit(a & !b, k) <==> TestBit(a, k) && !TestBit(b, k)
  {
    hide Bit;
    BitIsPowerOfTwo(k);
    RawMaskWithout(a, b, Bit(k));
  }

  lemma FullMask(k: nat)
    requires k < 8
    ensures TestBit(0xFF, k)
  {
    BitValues();
  }
}
