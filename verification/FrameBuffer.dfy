/** The display codec of util/cat/ev3_lcd.c (lines 235-311): lcdToFrameBuffer spreads the
    one-bit rows over bytes of three pixels each, frameBufferToLcd reads them back. */
module FrameBuffer {
  import opened Pixels
  import opened FrameBits

  const LCD_MEM_WIDTH := 60
  const LCD_BUFFER_LENGTH := 7680

  // pixels of a row that fit into LCD_MEM_WIDTH bytes
  const FRAME_PIXELS := 180

  // ----- whole pictures -----

  /** The frame buffer shows the picture. */
  ghost predicate Encoded(lcd: seq<bv8>, frame: seq<bv8>) {
    && |lcd| == LCD_BUFFER_SIZE && |frame| == LCD_BUFFER_LENGTH
    && forall y, j :: 0 <= y < LCD_HEIGHT && 0 <= j < LCD_MEM_WIDTH ==> EncodedAt(lcd, frame, y, j)
  }

  ghost predicate EncodedAt(lcd: seq<bv8>, frame: seq<bv8>, y: int, j: int)
    requires |lcd| == LCD_BUFFER_SIZE && |frame| == LCD_BUFFER_LENGTH && 0 <= y < LCD_HEIGHT && 0 <= j < LCD_MEM_WIDTH
  {
    frame[LCD_MEM_WIDTH * y + j] == Spread(Pixel(lcd, 3 * j, y), Pixel(lcd, 3 * j + 1, y), Pixel(lcd, 3 * j + 2, y))
  }

  predicate FramePixel(frame: seq<bv8>, x: int, y: int)
    requires |frame| == LCD_BUFFER_LENGTH && 0 <= x < FRAME_PIXELS && 0 <= y < LCD_HEIGHT
  {
    CodeBit(frame[LCD_MEM_WIDTH * y + x / 3], x % 3)
  }

  /** The picture holds what the frame buffer shows; the bits beyond it are clear. */
  ghost predicate Decoded(frame: seq<bv8>, lcd: seq<bv8>) {
    && |frame| == LCD_BUFFER_LENGTH && |lcd| == LCD_BUFFER_SIZE
    && forall x, y :: InBuffer(x, y) ==> Pixel(lcd, x, y) == (x < FRAME_PIXELS && FramePixel(frame, x, y))
  }

  /** Bit by bit: pixel x of row y, which is bit x % 8 of picture byte x / 8, is in every one of its
      bits of device byte x / 3. */
  lemma EncodedBits(lcd: seq<bv8>, frame: seq<bv8>, x: nat, y: nat, k: nat)
    requires Encoded(lcd, frame) && x < 180 && y < 128 && k < 8
    requires x % 3 == if k >= 5 then 0 else if k >= 2 then 1 else 2
    ensures TestBit(frame[60 * y + x / 3], k) == TestBit(lcd[23 * y + x / 8], x % 8)
  {
    hide TestBit, Spread;
    var j := x / 3;
    assert EncodedAt(lcd, frame, y, j);
    SpreadBits(Pixel(lcd, 3 * j, y), Pixel(lcd, 3 * j + 1, y), Pixel(lcd, 3 * j + 2, y), k);
    assert x == 3 * j + x % 3;
  }

  /** Decoding an encoded picture gives back every pixel except the four padding bits
      180..183 of each row, which are cleared. */
  lemma DecodeEncode(lcd: seq<bv8>, frame: seq<bv8>, back: seq<bv8>)
    requires Encoded(lcd, frame) && Decoded(frame, back)
    ensures forall x, y :: InBuffer(x, y) ==> Pixel(back, x, y) == (x < FRAME_PIXELS && Pixel(lcd, x, y))
  {
    hide Pixel, Spread, CodeBit;
    forall x, y | InBuffer(x, y) && x < FRAME_PIXELS
      ensures Pixel(back, x, y) == Pixel(lcd, x, y)
    {
      var j := x / 3;
      assert EncodedAt(lcd, frame, y, j);
      CodeOfSpread(Pixel(lcd, 3 * j, y), Pixel(lcd, 3 * j + 1, y), Pixel(lcd, 3 * j + 2, y));
      assert x == 3 * j + x % 3;
    }
  }

  /** Encoding a decoded frame buffer is the identity, byte for byte, when every byte is one
      of the eight device codes. */
  lemma EncodeDecode(frame: seq<bv8>, lcd: seq<bv8>, again: seq<bv8>)
    requires Decoded(frame, lcd) && Encoded(lcd, again)
    requires forall i :: 0 <= i < |frame| ==> IsCode(frame[i])
    ensures again == frame
  {
    hide Pixel, Spread, CodeBit, IsCode;
    forall i | 0 <= i < LCD_BUFFER_LENGTH
      ensures again[i] == frame[i]
    {
      var y, j := i / LCD_MEM_WIDTH, i % LCD_MEM_WIDTH;
      assert EncodedAt(lcd, again, y, j);
      assert (3 * j) / 3 == j && (3 * j + 1) / 3 == j && (3 * j + 2) / 3 == j;
      assert InBuffer(3 * j, y) && InBuffer(3 * j + 1, y) && InBuffer(3 * j + 2, y);
      SpreadOfCode(frame[i]);
    }
  }

  // ----- lcdToFrameBuffer -----

  /** The first n bytes of the frame buffer are done. */
  ghost predicate EncodedUpTo(lcd: seq<bv8>, frame: seq<bv8>, n: int) {
    && |lcd| == LCD_BUFFER_SIZE && |frame| == LCD_BUFFER_LENGTH
    && forall y, j :: 0 <= y < LCD_HEIGHT && 0 <= j < LCD_MEM_WIDTH && LCD_MEM_WIDTH * y + j < n ==>
      EncodedAt(lcd, frame, y, j)
  }

  lemma GroupPixel(lcd: seq<bv8>, y: int, g: int, b2: bv8, i: nat)
    requires |lcd| == LCD_BUFFER_SIZE && 0 <= y < LCD_HEIGHT && 0 <= g < 8 && i < 24 && 24 * g + i < BIT_WIDTH
    requires g < 7 ==> b2 == lcd[LCD_BYTE_WIDTH * y + 3 * g + 2]
    requires g == 7 ==> i < 16
    ensures var s := LCD_BYTE_WIDTH * y + 3 * g;
      GroupBit(lcd[s], lcd[s + 1], b2, i) == Pixel(lcd, 24 * g + i, y)
  {
    hide TestBit;
    assert (24 * g + i) % 8 == i % 8;
  }

  /** Writes the device bytes of one group: eight from three picture bytes, or four from two. */
  method EncodeGroup(src: array<bv8>, dst: array<bv8>, y: nat, g: nat)
    requires src != dst && src.Length == LCD_BUFFER_SIZE && dst.Length == LCD_BUFFER_LENGTH && y < LCD_HEIGHT && g < 8
    requires EncodedUpTo(src[..], dst[..], LCD_MEM_WIDTH * y + 8 * g)
    modifies dst
    ensures EncodedUpTo(src[..], dst[..], LCD_MEM_WIDTH * y + 8 * g + (if g < 7 then 8 else 4))
  {
    hide LowCode, Spread, Popped, Shr3, Join3, GroupBit, Pixel;
    var pSrc, pDst := LCD_BYTE_WIDTH * y + 3 * g, LCD_MEM_WIDTH * y + 8 * g;
    var b0, b1 := src[pSrc], src[pSrc + 1];
    var b2: bv8 := if g < 7 then src[pSrc + 2] else 0;
    var pixels := Join3(b0, b1, b2);
    var codes := if g < 7 then 8 else 4;
    ghost var w := pixels;
    NothingPopped(w);
    for k := 0 to codes
      invariant pixels == Popped(w, k)
      invariant EncodedUpTo(src[..], dst[..], pDst + k)
    {
      ghost var before := dst[..];
      dst[pDst + k] := LowCode(pixels);
      assert dst[..] == before[pDst + k := LowCode(pixels)];
      CodeOfGroup(b0, b1, b2, k);
      GroupPixel(src[..], y, g, b2, 3 * k);
      GroupPixel(src[..], y, g, b2, 3 * k + 1);
      GroupPixel(src[..], y, g, b2, 3 * k + 2);
      EncodeOneMore(src[..], before, y, 8 * g + k, LowCode(pixels));
      PopOnce(w, k);
      pixels := Shr3(pixels);
    }
  }

  lemma NothingPopped(w: bv32)
    ensures Popped(w, 0) == w
  {}

  lemma PopOnce(w: bv32, k: nat)
    ensures Popped(w, k + 1) == Shr3(Popped(w, k))
  {
    hide Shr3;
  }

  lemma EncodeOneMore(lcd: seq<bv8>, frame: seq<bv8>, y: int, j: int, code: bv8)
    requires 0 <= y < LCD_HEIGHT && 0 <= j < LCD_MEM_WIDTH && EncodedUpTo(lcd, frame, LCD_MEM_WIDTH * y + j)
    requires code == Spread(Pixel(lcd, 3 * j, y), Pixel(lcd, 3 * j + 1, y), Pixel(lcd, 3 * j + 2, y))
    ensures EncodedUpTo(lcd, frame[LCD_MEM_WIDTH * y + j := code], LCD_MEM_WIDTH * y + j + 1)
  {
    hide Spread, Pixel;
    var n := LCD_MEM_WIDTH * y + j;
    var frame' := frame[n := code];
    forall v, i | 0 <= v < LCD_HEIGHT && 0 <= i < LCD_MEM_WIDTH && LCD_MEM_WIDTH * v + i < n + 1
      ensures EncodedAt(lcd, frame', v, i)
    {
      if LCD_MEM_WIDTH * v + i == n {
        assert v == y && i == j;
      } else {
        assert EncodedAt(lcd, frame, v, i);
      }
    }
  }

  method lcdToFrameBuffer(pSrc: array<bv8>, pDst: array<bv8>)
    requires pSrc != pDst && pSrc.Length == LCD_BUFFER_SIZE && pDst.Length == LCD_BUFFER_LENGTH
    modifies pDst
    ensures Encoded(pSrc[..], pDst[..])
  {
    hide EncodedAt;
    for y := 0 to LCD_HEIGHT
      invariant EncodedUpTo(pSrc[..], pDst[..], LCD_MEM_WIDTH * y)
    {
      for x := 0 to 7
        invariant EncodedUpTo(pSrc[..], pDst[..], LCD_MEM_WIDTH * y + 8 * x)
      {
        EncodeGroup(pSrc, pDst, y, x);
      }
      EncodeGroup(pSrc, pDst, y, 7);
    }
  }

  // ----- frameBufferToLcd -----

  predicate ShownPixel(frame: seq<bv8>, x: int, y: int)
    requires |frame| == LCD_BUFFER_LENGTH && InBuffer(x, y)
  {
    x < FRAME_PIXELS && FramePixel(frame, x, y)
  }

  /** The first n bytes of the picture are done. */
  ghost predicate DecodedUpTo(frame: seq<bv8>, lcd: seq<bv8>, n: int) {
    && |frame| == LCD_BUFFER_LENGTH && |lcd| == LCD_BUFFER_SIZE
    && forall x, y :: InBuffer(x, y) && x / 8 + LCD_BYTE_WIDTH * y < n ==> Pixel(lcd, x, y) == ShownPixel(frame, x, y)
  }

  /** The codes of a group; the last group of a row has only four. */
  function GroupCodes(frame: seq<bv8>, y: int, g: int): (codes: seq<bv8>)
    requires |frame| == LCD_BUFFER_LENGTH && 0 <= y < LCD_HEIGHT && 0 <= g < 8
    ensures |codes| == 8
  {
    var s := LCD_MEM_WIDTH * y + 8 * g;
    if g < 7 then frame[s..s + 8] else frame[s..s + 4] + [0, 0, 0, 0]
  }

  lemma CodeAt(frame: seq<bv8>, y: int, g: int, j: nat)
    requires |frame| == LCD_BUFFER_LENGTH && 0 <= y < LCD_HEIGHT && 0 <= g < 8 && j < 8
    ensures GroupCodes(frame, y, g)[j] ==
      if 8 * g + j < LCD_MEM_WIDTH then frame[LCD_MEM_WIDTH * y + (8 * g + j)] else 0
  {}

  lemma GroupShows(frame: seq<bv8>, y: int, g: int, i: nat)
    requires |frame| == LCD_BUFFER_LENGTH && 0 <= y < LCD_HEIGHT && 0 <= g < 8 && i < 24 && 24 * g + i < BIT_WIDTH
    ensures CodeBit(GroupCodes(frame, y, g)[i / 3], i % 3) == ShownPixel(frame, 24 * g + i, y)
  {
    hide CodeBit, GroupCodes;
    var x := 24 * g + i;
    SplitByThree(g, i);
    CodeAt(frame, y, g, i / 3);
    if x >= FRAME_PIXELS {
      NoCode(i % 3);
    }
  }

  lemma SplitByThree(g: int, i: nat)
    ensures (24 * g + i) / 3 == 8 * g + i / 3 && (24 * g + i) % 3 == i % 3
  {}

  lemma DecodeOneMore(frame: seq<bv8>, lcd: seq<bv8>, y: int, g: int, c: nat)
    requires 0 <= y < LCD_HEIGHT && 0 <= g < 8 && c < 3 && 3 * g + c < LCD_BYTE_WIDTH
    requires DecodedUpTo(frame, lcd, LCD_BYTE_WIDTH * y + 3 * g + c)
    ensures var n := LCD_BYTE_WIDTH * y + 3 * g + c;
      DecodedUpTo(frame, lcd[n := GatheredByte(GroupCodes(frame, y, g), c)], n + 1)
  {
    hide TestBit, GatheredByte, ShownPixel, CodeBit, GroupCodes;
    var n := LCD_BYTE_WIDTH * y + 3 * g + c;
    var codes := GroupCodes(frame, y, g);
    var lcd' := lcd[n := GatheredByte(codes, c)];
    forall u, v | InBuffer(u, v) && u / 8 + LCD_BYTE_WIDTH * v < n + 1
      ensures Pixel(lcd', u, v) == ShownPixel(frame, u, v)
    {
      if u / 8 + LCD_BYTE_WIDTH * v == n {
        assert v == y && u / 8 == 3 * g + c;
        var i := u - 24 * g;
        assert i / 8 == c && i % 8 == u % 8;
        GatheredBit(codes, i);
        GroupShows(frame, y, g, i);
      } else {
        assert Pixel(lcd, u, v) == ShownPixel(frame, u, v);
      }
    }
  }

  method DecodeGroup(src: array<bv8>, dst: array<bv8>, y: nat, g: nat)
    requires src != dst && src.Length == LCD_BUFFER_LENGTH && dst.Length == LCD_BUFFER_SIZE && y < LCD_HEIGHT && g < 8
    requires DecodedUpTo(src[..], dst[..], LCD_BYTE_WIDTH * y + 3 * g)
    modifies dst
    ensures DecodedUpTo(src[..], dst[..], LCD_BYTE_WIDTH * y + 3 * g + (if g < 7 then 3 else 2))
  {
    hide GatheredByte, DecodedUpTo;
    var pDst := LCD_BYTE_WIDTH * y + 3 * g;
    var pixels := GroupCodes(src[..], y, g);
    for c := 0 to if g < 7 then 3 else 2
      invariant DecodedUpTo(src[..], dst[..], pDst + c)
    {
      ghost var before := dst[..];
      dst[pDst + c] := GatheredByte(pixels, c);
      assert dst[..] == before[pDst + c := GatheredByte(pixels, c)];
      DecodeOneMore(src[..], before, y, g, c);
    }
  }

  method frameBufferToLcd(pSrc: array<bv8>, pDst: array<bv8>)
    requires pSrc != pDst && pSrc.Length == LCD_BUFFER_LENGTH && pDst.Length == LCD_BUFFER_SIZE
    modifies pDst
    ensures Decoded(pSrc[..], pDst[..])
  {
    hide Pixel, FramePixel;
    for y := 0 to LCD_HEIGHT
      invariant DecodedUpTo(pSrc[..], pDst[..], LCD_BYTE_WIDTH * y)
    {
      for x := 0 to 7
        invariant DecodedUpTo(pSrc[..], pDst[..], LCD_BYTE_WIDTH * y + 3 * x)
      {
        DecodeGroup(pSrc, pDst, y, x);
      }
      DecodeGroup(pSrc, pDst, y, 7);
    }
  }
}
