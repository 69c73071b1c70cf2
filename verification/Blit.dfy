/** The bit-image routines of util/cat/ev3_lcd.c: dLcdDrawPixel, dLcdDrawBitmap (lines 601-685)
    and dLcdDrawChar (lines 441-526), each with a byte-aligned fast path and a pixel path. */
module Blit {
  import opened Pixels

  /** A bit image inside a byte sequence: row j starts at byte base + j * step. */
  datatype Image = Image(data: seq<bv8>, base: nat, step: nat, width: nat, height: nat) {
    predicate Valid() {
      && (width + 7) / 8 <= step
      && (height > 0 && width > 0 ==> base + (height - 1) * step + (width + 7) / 8 <= |data|)
    }
  }

  lemma ByteInRange(m: Image, j: nat, c: nat)
    requires m.Valid() && j < m.height && c < (m.width + 7) / 8
    ensures 0 <= m.base + j * m.step + c < |m.data|
  {
    assert j * m.step <= (m.height - 1) * m.step;
  }

  function ImageByte(m: Image, j: nat, c: nat): bv8
    requires m.Valid() && j < m.height && c < (m.width + 7) / 8
  {
    ByteInRange(m, j, c);
    m.data[m.base + j * m.step + c]
  }

  predicate ImageBit(m: Image, i: nat, j: nat)
    requires m.Valid() && i < m.width && j < m.height
  {
    TestBit(ImageByte(m, j, i / 8), i % 8)
  }

  /** The first `rows` rows of the image and `columns` pixels of the next one stand at (x0, y0)
      in the given colour; every other visible pixel is as before. */
  ghost predicate Drawn(before: seq<bv8>, after: seq<bv8>, m: Image, x0: int, y0: int, color: bool,
                        rows: int, columns: int)
  {
    && |before| == |after| == LCD_BUFFER_SIZE && m.Valid()
    && forall x, y :: OnScreen(x, y) ==>
         Pixel(after, x, y) ==
           if 0 <= x - x0 < m.width && 0 <= y - y0 < m.height && (y - y0 < rows || (y - y0 == rows && x - x0 < columns))
           then ImageBit(m, x - x0, y - y0) == color
           else Pixel(before, x, y)
  }

  ghost predicate Shown(before: seq<bv8>, after: seq<bv8>, m: Image, x0: int, y0: int, color: bool) {
    Drawn(before, after, m, x0, y0, color, m.height, 0)
  }

  lemma DrawnNothing(s: seq<bv8>, m: Image, x0: int, y0: int, color: bool)
    requires |s| == LCD_BUFFER_SIZE && m.Valid()
    ensures Drawn(s, s, m, x0, y0, color, 0, 0)
  {
    hide Pixel, ImageBit;
  }

  lemma DrawnRow(before: seq<bv8>, after: seq<bv8>, m: Image, x0: int, y0: int, color: bool, rows: int, columns: int)
    requires Drawn(before, after, m, x0, y0, color, rows, columns) && columns >= m.width
    ensures Drawn(before, after, m, x0, y0, color, rows + 1, 0)
  {
    hide Pixel, ImageBit;
  }

  // ----- dLcdDrawPixel -----

  lemma OtherPixels(s: seq<bv8>, x: int, y: int, v: bv8)
    requires |s| == LCD_BUFFER_SIZE && InBuffer(x, y)
    ensures var t := s[x / 8 + LCD_BYTE_WIDTH * y := v];
      forall p, q :: InBuffer(p, q) ==>
        Pixel(t, p, q) == if p / 8 == x / 8 && q == y then TestBit(v, p % 8) else Pixel(s, p, q)
  {
    hide TestBit;
    var i := x / 8 + LCD_BYTE_WIDTH * y;
    forall p, q | InBuffer(p, q) && !(p / 8 == x / 8 && q == y)
      ensures p / 8 + LCD_BYTE_WIDTH * q != i
    {}
  }

  function WithBit(b: bv8, k: nat, color: bool): bv8
    requires k < 8
  {
    if color then b | Bit(k) else b & !Bit(k)
  }

  lemma WithBitTests(b: bv8, k: nat, color: bool, j: nat)
    requires k < 8 && j < 8
    ensures TestBit(WithBit(b, k, color), j) == if j == k then color else TestBit(b, j)
  {
    hide TestBit, Bit;
    CombineBit(0, b, Bit(k), j);
    CombineBit(DRAW_PIXELS_CLEAR, b, Bit(k), j);
    BitOfBit(k, j);
  }

  lemma PixelSetTo(s: seq<bv8>, x0: int, y0: int, color: bool)
    requires |s| == LCD_BUFFER_SIZE && InBuffer(x0, y0)
    ensures var i := x0 / 8 + LCD_BYTE_WIDTH * y0;
      var t := s[i := WithBit(s[i], x0 % 8, color)];
      forall x, y :: InBuffer(x, y) ==> Pixel(t, x, y) == if x == x0 && y == y0 then color else Pixel(s, x, y)
  {
    hide WithBit, TestBit;
    var i := x0 / 8 + LCD_BYTE_WIDTH * y0;
    var v := WithBit(s[i], x0 % 8, color);
    OtherPixels(s, x0, y0, v);
    forall x, y | InBuffer(x, y)
      ensures Pixel(s[i := v], x, y) == if x == x0 && y == y0 then color else Pixel(s, x, y)
    {
      WithBitTests(s[i], x0 % 8, color, x % 8);
    }
  }

  method dLcdDrawPixel(image: array<bv8>, color: bool, x0: int, y0: int)
    requires image.Length == LCD_BUFFER_SIZE
    modifies image
    ensures forall x, y :: InBuffer(x, y) ==>
      Pixel(image[..], x, y) == if x == x0 && y == y0 && OnScreen(x, y) then color else old(Pixel(image[..], x, y))
  {
    hide WithBit, Pixel;
    if 0 <= x0 < LCD_WIDTH && 0 <= y0 < LCD_HEIGHT {
      ghost var s := image[..];
      var i := x0 / 8 + LCD_BYTE_WIDTH * y0;
      image[i] := WithBit(image[i], x0 % 8, color);
      assert image[..] == s[i := WithBit(s[i], x0 % 8, color)];
      PixelSetTo(s, x0, y0, color);
    }
  }

  // ----- the pixel path -----

  function Shifted(b: bv8, k: nat): bv8
    requires k <= 8
  {
    b >> k
  }

  lemma ShiftedTests(b: bv8, k: nat)
    requires k < 8
    ensures Shifted(b, k) & 1 != 0 <==> TestBit(b, k)
    ensures Shifted(b, k) >> 1 == Shifted(b, k + 1)
  {
    BitValues();
    ShiftValues(b, k);
  }

  lemma ShiftValues(b: bv8, k: nat)
    requires k < 8
    ensures Shifted(b, k) >> 1 == Shifted(b, k + 1)
  {}

  lemma NoShift(b: bv8)
    ensures Shifted(b, 0) == b
  {}

  /** The unaligned branch of both routines: three nested loops, one pixel at a time. */
  method DrawPixelwise(image: array<bv8>, color: bool, x0: int, y0: int, m: Image)
    requires image.Length == LCD_BUFFER_SIZE && m.Valid()
    modifies image
    ensures Shown(old(image[..]), image[..], m, x0, y0, color)
  {
    hide Drawn;
    ghost var before := image[..];
    DrawnNothing(before, m, x0, y0, color);
    for y := 0 to m.height
      invariant Drawn(before, image[..], m, x0, y0, color, y, 0)
    {
      var tmpX := x0;
      var maxX := x0 + m.width;
      for c := 0 to (m.width + 7) / 8
        invariant tmpX == if 8 * c < m.width then x0 + 8 * c else maxX
        invariant Drawn(before, image[..], m, x0, y0, color, y, tmpX - x0)
      {
        tmpX := DrawByte(image, color, x0, y0, m, y, c, before);
      }
      DrawnRow(before, image[..], m, x0, y0, color, y, tmpX - x0);
    }
  }

  /** The innermost loop: the bits of one byte, low bit first, up to the right edge. */
  method DrawByte(image: array<bv8>, color: bool, x0: int, y0: int, m: Image, y: nat, c: nat, ghost before: seq<bv8>)
      returns (tmpX: int)
    requires image.Length == LCD_BUFFER_SIZE && m.Valid() && y < m.height && c < (m.width + 7) / 8
    requires Drawn(before, image[..], m, x0, y0, color, y, 8 * c)
    modifies image
    ensures tmpX == if 8 * (c + 1) < m.width then x0 + 8 * (c + 1) else x0 + m.width
    ensures Drawn(before, image[..], m, x0, y0, color, y, tmpX - x0)
  {
    hide Drawn, Pixel, TestBit, Shifted, ImageByte;
    tmpX := x0 + 8 * c;
    var maxX := x0 + m.width;
    var bits := ImageByte(m, y, c);
    ghost var whole := bits;
    NoShift(whole);
    var tmp := 0;
    while tmp < 8 && tmpX < maxX
      invariant 0 <= tmp <= 8 && tmpX == x0 + 8 * c + tmp <= maxX
      invariant bits == Shifted(whole, tmp)
      invariant Drawn(before, image[..], m, x0, y0, color, y, tmpX - x0)
    {
      ghost var s := image[..];
      ShiftedTests(whole, tmp);
      if bits & 1 != 0 {
        dLcdDrawPixel(image, color, tmpX, y0 + y);
      } else {
        dLcdDrawPixel(image, !color, tmpX, y0 + y);
      }
      assert (8 * c + tmp) / 8 == c && (8 * c + tmp) % 8 == tmp;
      DrawnPixel(before, s, image[..], m, x0, y0, color, y, tmpX - x0);
      bits := bits >> 1;
      tmpX := tmpX + 1;
      tmp := tmp + 1;
    }
  }

  lemma DrawnPixel(before: seq<bv8>, s: seq<bv8>, t: seq<bv8>, m: Image, x0: int, y0: int, color: bool, rows: nat,
      columns: nat)
    requires Drawn(before, s, m, x0, y0, color, rows, columns) && rows < m.height && columns < m.width
    requires |t| == LCD_BUFFER_SIZE
    requires forall x, y :: InBuffer(x, y) ==>
      Pixel(t, x, y) == if x == x0 + columns && y == y0 + rows && OnScreen(x, y)
        then ImageBit(m, columns, rows) == color else Pixel(s, x, y)
    ensures Drawn(before, t, m, x0, y0, color, rows, columns + 1)
  {
    hide Pixel, ImageBit;
  }

  // ----- the byte-aligned path of dLcdDrawBitmap -----

  /** A byte of the image in the requested colour. */
  function Colored(b: bv8, color: bool): bv8 { if color then b else !b }

  lemma ColoredTests(b: bv8, color: bool, k: nat)
    requires k < 8
    ensures TestBit(Colored(b, color), k) <==> TestBit(b, k) == color
  {
    hide TestBit;
    Inverted(b, k);
  }

  /** Conversion of an int to a 16-bit short. */
  function ToShort(n: int): int { (n + 0x8000) % 0x10000 - 0x8000 }

  lemma ImageBitOfByte(m: Image, i: nat, j: nat, c: nat)
    requires m.Valid() && i < m.width && j < m.height && i / 8 == c
    ensures ImageBit(m, i, j) == TestBit(ImageByte(m, j, c), i % 8)
  {}

  lemma DrawnByte(before: seq<bv8>, s: seq<bv8>, m: Image, x0: int, y0: int, color: bool, rows: nat, c: nat,
      column: nat)
    requires Drawn(before, s, m, x0, y0, color, rows, 8 * c) && rows < m.height && 8 * c + 8 <= m.width
    requires column < LCD_BYTE_WIDTH && x0 + 8 * c == 8 * column && 0 <= y0 + rows < LCD_HEIGHT
    ensures var i := column + LCD_BYTE_WIDTH * (y0 + rows);
      Drawn(before, s[i := Colored(ImageByte(m, rows, c), color)], m, x0, y0, color, rows, 8 * c + 8)
  {
    hide Pixel, TestBit, ImageByte, ImageBit, Colored, Image.Valid;
    var i := column + LCD_BYTE_WIDTH * (y0 + rows);
    var v := Colored(ImageByte(m, rows, c), color);
    var t := s[i := v];
    OtherPixels(s, 8 * column, y0 + rows, v);
    forall x, y | OnScreen(x, y)
      ensures Pixel(t, x, y) ==
        if 0 <= x - x0 < m.width && 0 <= y - y0 < m.height && (y - y0 < rows || (y - y0 == rows && x - x0 < 8 * c + 8))
        then ImageBit(m, x - x0, y - y0) == color
        else Pixel(before, x, y)
    {
      PixelOfColumn(x, column);
      if y == y0 + rows && x / 8 == column {
        PixelOfColumn(x - x0, c);
        ImageBitOfByte(m, x - x0, rows, c);
        ColoredTests(ImageByte(m, rows, c), color, x % 8);
      }
    }
  }

  lemma PixelOfColumn(x: int, column: int)
    ensures x / 8 == column <==> 0 <= x - 8 * column < 8
    ensures x / 8 == column ==> x % 8 == x - 8 * column
  {}

  lemma RawInverted(b: bv8, bit: bv8)
    requires bit == 1 || bit == 2 || bit == 4 || bit == 8 || bit == 16 || bit == 32 || bit == 64 || bit == 128
    ensures !b & bit != 0 <==> !(b & bit != 0)
  {}

  lemma Inverted(b: bv8, k: nat)
    requires k < 8
    ensures TestBit(!b, k) <==> !TestBit(b, k)
  {
    hide Bit;
    BitIsPowerOfTwo(k);
    RawInverted(b, Bit(k));
  }

  lemma DrawnOffScreen(before: seq<bv8>, s: seq<bv8>, m: Image, x0: int, y0: int, color: bool, rows: nat, c: nat)
    requires Drawn(before, s, m, x0, y0, color, rows, 8 * c) && x0 % 8 == 0
    requires !(0 <= x0 + 8 * c < LCD_WIDTH && 0 <= y0 + rows < LCD_HEIGHT)
    ensures Drawn(before, s, m, x0, y0, color, rows, 8 * c + 8)
  {
    hide Pixel, ImageBit;
  }

  lemma ByteColumn(x0: int, c: int)
    requires x0 % 8 == 0
    ensures (x0 + 8 * c) / 8 == x0 / 8 + c
    ensures 0 <= x0 + 8 * c < LCD_WIDTH <==> 0 <= x0 / 8 + c < LCD_BYTE_WIDTH
  {}

  /** One whole byte of the image, stored at an index of the buffer when it is visible. */
  method DrawWholeByte(image: array<bv8>, color: bool, x0: int, y0: int, m: Image, row: nat, c: nat,
                       dataIndex: nat, lcdIndex: int, visible: bool, ghost before: seq<bv8>)
    requires image.Length == LCD_BUFFER_SIZE && Drawn(before, image[..], m, x0, y0, color, row, 8 * c)
    requires m.Valid() && row < m.height && 8 * c + 8 <= m.width && x0 % 8 == 0
    requires dataIndex == m.base + row * m.step + c
    requires visible <==> 0 <= x0 + 8 * c < LCD_WIDTH && 0 <= y0 + row < LCD_HEIGHT
    requires visible ==> lcdIndex == x0 / 8 + c + LCD_BYTE_WIDTH * (y0 + row)
    modifies image
    ensures Drawn(before, image[..], m, x0, y0, color, row, 8 * c + 8)
  {
    hide Drawn, ImageByte, Colored, Image.Valid;
    ghost var s := image[..];
    if visible {
      ByteColumn(x0, c);
      ImageByteIs(m, row, c);
      DrawnByte(before, s, m, x0, y0, color, row, c, x0 / 8 + c);
      var b := m.data[dataIndex];
      image[lcdIndex] := Colored(b, color);
      assert image[..] == s[lcdIndex := Colored(b, color)];
    } else {
      DrawnOffScreen(before, s, m, x0, y0, color, row, c);
    }
  }

  /** The aligned branch of dLcdDrawBitmap. The running index is a 16-bit short. */
  method DrawAligned(image: array<bv8>, color: bool, x0: int, y0: int, m: Image)
    requires image.Length == LCD_BUFFER_SIZE && m.Valid() && m.base == 0 && m.step == m.width / 8
    requires x0 % 8 == 0 && m.width % 8 == 0
    requires 0 <= y0 && -0x8000 <= x0 / 8 && x0 / 8 + LCD_BYTE_WIDTH * (y0 + m.height) <= 0x7FFF
    modifies image
    ensures Shown(old(image[..]), image[..], m, x0, y0, color)
  {
    hide Drawn, Image.Valid;
    ghost var before := image[..];
    DrawnNothing(before, m, x0, y0, color);
    var widthBytes := m.width / 8;
    var bitmapByteIndex, lcdByteIndex := 0, ToShort(x0 / 8 + LCD_BYTE_WIDTH * y0);
    var rest := m.height;
    ghost var row := 0;
    while rest > 0
      invariant 0 <= rest && row + rest == m.height
      invariant bitmapByteIndex == row * m.step
      invariant lcdByteIndex == x0 / 8 + LCD_BYTE_WIDTH * (y0 + row)
      invariant Drawn(before, image[..], m, x0, y0, color, row, 0)
    {
      var x := x0;
      for tmp := 0 to widthBytes
        invariant x == x0 + 8 * tmp
        invariant Drawn(before, image[..], m, x0, y0, color, row, 8 * tmp)
      {
        ByteColumn(x0, tmp);
        var visible := lcdByteIndex + tmp < LCD_BUFFER_SIZE && x < LCD_WIDTH && x >= 0;
        DrawWholeByte(image, color, x0, y0, m, m.height - rest, tmp, bitmapByteIndex + tmp, lcdByteIndex + tmp,
          visible, before);
        x := x + 8;
      }
      DrawnRow(before, image[..], m, x0, y0, color, row, 8 * widthBytes);
      NextRow(row, m.step);
      bitmapByteIndex := bitmapByteIndex + widthBytes;
      lcdByteIndex := ToShort(lcdByteIndex + LCD_BYTE_WIDTH);
      rest, row := rest - 1, row + 1;
    }
  }

  lemma ImageByteIs(m: Image, j: nat, c: nat)
    requires m.Valid() && j < m.height && c < (m.width + 7) / 8
    ensures 0 <= m.base + j * m.step + c < |m.data| && ImageByte(m, j, c) == m.data[m.base + j * m.step + c]
  {
    ByteInRange(m, j, c);
  }

  lemma NextRow(j: nat, step: nat)
    ensures (j + 1) * step == j * step + step
  {}

  // ----- dLcdDrawBitmap -----

  /** A sheet of pixels, `pitch` to a row, stored eight to a byte, low bit first. */
  datatype Sheet = Sheet(bits: seq<bv8>, pitch: nat) {
    predicate PixelAt(x: nat, y: nat) {
      var n := y * pitch + x;
      n / 8 < |bits| && TestBit(bits[n / 8], n % 8)
    }
  }

  /** The part of a sheet with its corner at (left, top) stands at (x0, y0) in the given colour;
      every other visible pixel is as before. */
  ghost predicate ShowsPart(before: seq<bv8>, after: seq<bv8>, x0: int, y0: int, color: bool, s: Sheet, left: nat,
      top: nat, width: nat, height: nat)
  {
    && |before| == |after| == LCD_BUFFER_SIZE
    && forall x, y :: OnScreen(x, y) ==>
         Pixel(after, x, y) ==
           if 0 <= x - x0 < width && 0 <= y - y0 < height then s.PixelAt(left + (x - x0), top + (y - y0)) == color
           else Pixel(before, x, y)
  }

  lemma PixelOfImage(m: Image, s: Sheet, left: nat, top: nat, i: nat, j: nat)
    requires m.Valid() && i < m.width && j < m.height
    requires s == Sheet(m.data, 8 * m.step) && 8 * m.base == top * s.pitch + left
    ensures ImageBit(m, i, j) == s.PixelAt(left + i, top + j)
  {
    hide TestBit;
    ImageByteIs(m, j, i / 8);
    assert (top + j) * s.pitch == top * s.pitch + 8 * (j * m.step);
    var n := 8 * (m.base + j * m.step) + i;
    assert n / 8 == m.base + j * m.step + i / 8 && n % 8 == i % 8;
  }

  /** An image is a part of the sheet its bytes belong to. */
  lemma ShownPart(before: seq<bv8>, after: seq<bv8>, m: Image, x0: int, y0: int, color: bool, s: Sheet, left: nat,
      top: nat)
    requires Shown(before, after, m, x0, y0, color)
    requires s == Sheet(m.data, 8 * m.step) && 8 * m.base == top * s.pitch + left
    ensures ShowsPart(before, after, x0, y0, color, s, left, top, m.width, m.height)
  {
    hide Pixel, ImageBit, Sheet.PixelAt, Image.Valid;
    forall x, y | OnScreen(x, y) && 0 <= x - x0 < m.width && 0 <= y - y0 < m.height
      ensures Pixel(after, x, y) == (s.PixelAt(left + (x - x0), top + (y - y0)) == color)
    {
      PixelOfImage(m, s, left, top, x - x0, y - y0);
    }
  }

  /** A bitmap: width byte, height byte, then the rows. */
  function BitmapImage(bitmap: seq<bv8>, width: nat, height: nat): Image
    requires |bitmap| >= 2
  {
    Image(bitmap[2..], 0, (width + 7) / 8, width, height)
  }

  method dLcdDrawBitmap(image: array<bv8>, color: bool, x0: int, y0: int, bitmap: seq<bv8>)
    requires image.Length == LCD_BUFFER_SIZE && |bitmap| >= 2
    requires BitmapImage(bitmap, bitmap[0] as int, bitmap[1] as int).Valid()
    requires x0 % 8 == 0 && bitmap[0] as int % 8 == 0 ==>
      0 <= y0 && -0x8000 <= x0 / 8 && x0 / 8 + LCD_BYTE_WIDTH * (y0 + bitmap[1] as int) <= 0x7FFF
    modifies image
    ensures Shown(old(image[..]), image[..], BitmapImage(bitmap, bitmap[0] as int, bitmap[1] as int), x0, y0, color)
    ensures var width, height := bitmap[0] as int, bitmap[1] as int;
      var sheet := Sheet(bitmap[2..], 8 * ((width + 7) / 8));
      ShowsPart(old(image[..]), image[..], x0, y0, color, sheet, 0, 0, width, height)
  {
    hide Shown, ShowsPart, Image.Valid;
    var width, height := bitmap[0] as int, bitmap[1] as int;
    ghost var before := image[..];
    if x0 % 8 != 0 || width % 8 != 0 {
      DrawPixelwise(image, color, x0, y0, BitmapImage(bitmap, width, height));
    } else {
      DrawAligned(image, color, x0, y0, BitmapImage(bitmap, width, height));
    }
    BitmapPart(before, image[..], x0, y0, color, bitmap, width, height);
  }

  lemma BitmapPart(before: seq<bv8>, after: seq<bv8>, x0: int, y0: int, color: bool, bitmap: seq<bv8>, width: nat,
      height: nat)
    requires |bitmap| >= 2 && Shown(before, after, BitmapImage(bitmap, width, height), x0, y0, color)
    ensures ShowsPart(before, after, x0, y0, color, Sheet(bitmap[2..], 8 * ((width + 7) / 8)), 0, 0, width, height)
  {
    hide Shown, ShowsPart;
    ShownPart(before, after, BitmapImage(bitmap, width, height), x0, y0, color,
      Sheet(bitmap[2..], 8 * ((width + 7) / 8)), 0, 0);
  }

  /** What is shown determines every visible pixel: on aligned input the fast path and the
      pixel path leave the same picture. */
  lemma FastPathRefines(before: seq<bv8>, fast: seq<bv8>, slow: seq<bv8>, m: Image, x0: int, y0: int, color: bool)
    requires Shown(before, fast, m, x0, y0, color) && Shown(before, slow, m, x0, y0, color)
    ensures forall x, y :: OnScreen(x, y) ==> Pixel(fast, x, y) == Pixel(slow, x, y)
  {
    hide Pixel, ImageBit;
  }

  // ----- dLcdDrawChar -----

  datatype Font = Font(bits: seq<bv8>, height: nat, width: nat, horz: nat, first: nat, last: nat) {
    /** The pixel columns a character takes: whole bytes. */
    function Cell(): (n: nat)
      ensures width <= n
    {
      8 * ((width + 7) / 8)
    }

    /** The whole sheet: `horz` characters stand side by side. */
    function Characters(): Sheet { Sheet(bits, Cell() * horz) }

    /** The corner of the n-th character. */
    function Left(n: nat): nat
      requires horz > 0
    {
      Cell() * (n % horz)
    }

    function Top(n: nat): nat
      requires horz > 0
    {
      height * (n / horz)
    }
  }

  /** The glyph of a character, by its first byte. */
  function Glyph(f: Font, char_: nat): (m: Image)
    requires f.first <= char_ && f.horz > 0
    ensures m.width == f.width && m.height == f.height
  {
    var n: nat, bytes: nat := char_ - f.first, (f.width + 7) / 8;
    var column: nat, line: nat := n % f.horz, n / f.horz;
    var inLine: nat, lineBytes: nat := column * bytes, line * bytes;
    var rows: nat := lineBytes * f.height;
    var above: nat := rows * f.horz;
    Image(f.bits, inLine + above, bytes * f.horz, f.width, f.height)
  }

  /** Where a glyph lies in the sheet. */
  lemma GlyphInSheet(f: Font, char_: nat)
    requires f.first <= char_ && f.horz > 0
    ensures var (m, n) := (Glyph(f, char_), char_ - f.first);
      && f.Characters() == Sheet(m.data, 8 * m.step)
      && 8 * m.base == f.Top(n) * f.Characters().pitch + f.Left(n)
  {
    var (bytes, column, line) := ((f.width + 7) / 8, (char_ - f.first) % f.horz, (char_ - f.first) / f.horz);
    PlaceInSheet(bytes, column, line, f.height, f.horz);
  }

  lemma PlaceInSheet(bytes: nat, column: nat, line: nat, height: nat, horz: nat)
    ensures 8 * (column * bytes + line * bytes * height * horz) ==
      height * line * (8 * bytes * horz) + 8 * bytes * column
    ensures 8 * (bytes * horz) == 8 * bytes * horz
  {
    assert line * bytes * height * horz == height * line * (bytes * horz);
    assert height * line * (8 * bytes * horz) == 8 * (height * line * (bytes * horz));
  }

  /** Different characters have no pixel of the sheet in common, and none wraps into the next row. */
  lemma GlyphsDisjoint(f: Font, n: nat, k: nat, i: nat, j: nat, p: nat, q: nat)
    requires f.horz > 0 && n != k && i < f.width && p < f.width && j < f.height && q < f.height
    ensures (f.Left(n) + i, f.Top(n) + j) != (f.Left(k) + p, f.Top(k) + q)
    ensures f.Left(n) + i < f.Characters().pitch
  {
    hide Font.Cell;
    CellsDiffer(f.Cell(), f.height, f.horz, n, k, i, j, p, q);
    InsideRow(f.Cell(), n % f.horz, f.horz);
  }

  lemma CellsDiffer(cell: nat, height: nat, horz: nat, n: nat, k: nat, i: nat, j: nat, p: nat, q: nat)
    requires horz > 0 && n != k && i < cell && p < cell && j < height && q < height
    ensures cell * (n % horz) + i != cell * (k % horz) + p || height * (n / horz) + j != height * (k / horz) + q
  {
    Divided(n, horz);
    Divided(k, horz);
    if cell * (n % horz) + i == cell * (k % horz) + p {
      SameMultiple(cell, n % horz, i, k % horz, p);
      if height * (n / horz) + j == height * (k / horz) + q {
        SameMultiple(height, n / horz, j, k / horz, q);
        assert false;
      }
    }
  }

  lemma InsideRow(cell: nat, column: nat, horz: nat)
    requires column < horz
    ensures cell * column + cell <= cell * horz
  {
    OneMoreRow(cell, column);
    MoreRows(cell, column + 1, horz);
  }

  lemma MoreRows(d: nat, a: int, b: int)
    requires a <= b
    ensures d * a <= d * b
  {}

  lemma OneMoreRow(d: nat, a: int)
    ensures d * (a + 1) == d * a + d
  {}

  lemma SameMultiple(d: nat, a: int, i: nat, b: int, j: nat)
    requires i < d && j < d && d * a + i == d * b + j
    ensures a == b
  {
    OneMoreRow(d, a);
    OneMoreRow(d, b);
    if a < b {
      MoreRows(d, a + 1, b);
      assert false;
    } else if b < a {
      MoreRows(d, b + 1, a);
      assert false;
    }
  }

  lemma Divided(n: nat, d: nat)
    requires d > 0
    ensures n == d * (n / d) + n % d
  {}

  /** The n-th character is the part of the sheet n % horz cells to the right and n / horz
      heights down. */
  lemma GlyphPart(before: seq<bv8>, after: seq<bv8>, x0: int, y0: int, color: bool, f: Font, char_: nat)
    requires f.first <= char_ && f.horz > 0 && Shown(before, after, Glyph(f, char_), x0, y0, color)
    ensures var n: nat := char_ - f.first;
      && f.Characters() == Sheet(f.bits, 8 * ((f.width + 7) / 8) * f.horz)
      && f.Left(n) == 8 * ((f.width + 7) / 8) * (n % f.horz) && f.Top(n) == f.height * (n / f.horz)
      && ShowsPart(before, after, x0, y0, color, f.Characters(), f.Left(n), f.Top(n), f.width, f.height)
  {
    hide Shown, ShowsPart;
    var n: nat := char_ - f.first;
    GlyphInSheet(f, char_);
    ShownPart(before, after, Glyph(f, char_), x0, y0, color, f.Characters(), f.Left(n), f.Top(n));
  }

  method dLcdDrawChar(image: array<bv8>, color: bool, x0: int, y0: int, f: Font, char_: nat)
    requires image.Length == LCD_BUFFER_SIZE && f.horz > 0
    requires f.first <= char_ <= f.last ==> Glyph(f, char_).Valid()
    requires f.width % 8 == 0 && x0 % 8 == 0 ==>
      f.width > 0 && 0 <= x0 && x0 + f.width <= LCD_WIDTH && 0 <= y0
        && x0 / 8 + LCD_BYTE_WIDTH * (y0 + f.height) <= 0x7FFF
    modifies image
    ensures f.first <= char_ <= f.last ==>
      var n: nat := char_ - f.first;
      && Shown(old(image[..]), image[..], Glyph(f, char_), x0, y0, color)
      && ShowsPart(old(image[..]), image[..], x0, y0, color, f.Characters(), f.Left(n), f.Top(n), f.width, f.height)
    ensures !(f.first <= char_ <= f.last) ==> image[..] == old(image[..])
  {
    hide Shown, ShowsPart, Image.Valid, Glyph, Font.Characters, Font.Left, Font.Top;
    ghost var before := image[..];
    if f.first <= char_ <= f.last {
      if f.width % 8 == 0 && x0 % 8 == 0 {
        DrawGlyphAligned(image, color, x0, y0, Glyph(f, char_));
      } else {
        DrawPixelwise(image, color, x0, y0, Glyph(f, char_));
      }
      GlyphPart(before, image[..], x0, y0, color, f, char_);
    }
  }

  /** The aligned branch of dLcdDrawChar: only the first byte of a row is checked. */
  method DrawGlyphAligned(image: array<bv8>, color: bool, x0: int, y0: int, m: Image)
    requires image.Length == LCD_BUFFER_SIZE && m.Valid() && m.width % 8 == 0 && x0 % 8 == 0
    requires m.width > 0 && 0 <= x0 && x0 + m.width <= LCD_WIDTH && 0 <= y0
    requires x0 / 8 + LCD_BYTE_WIDTH * (y0 + m.height) <= 0x7FFF
    modifies image
    ensures Shown(old(image[..]), image[..], m, x0, y0, color)
  {
    hide Drawn, Image.Valid;
    ghost var before := image[..];
    DrawnNothing(before, m, x0, y0, color);
    var widthBytes := m.width / 8;
    var charByteIndex, lcdByteIndex := m.base, ToShort(x0 / 8 + LCD_BYTE_WIDTH * y0);
    var rest := m.height;
    ghost var row := 0;
    while rest > 0
      invariant 0 <= rest && row + rest == m.height
      invariant charByteIndex == m.base + row * m.step
      invariant lcdByteIndex == x0 / 8 + LCD_BYTE_WIDTH * (y0 + row)
      invariant Drawn(before, image[..], m, x0, y0, color, row, 0)
    {
      var tmp := 0;
      while true
        invariant 0 <= tmp < widthBytes
        invariant Drawn(before, image[..], m, x0, y0, color, row, 8 * tmp)
        decreases widthBytes - tmp
      {
        ByteColumn(x0, tmp);
        var visible := lcdByteIndex < LCD_BUFFER_SIZE;
        DrawWholeByte(image, color, x0, y0, m, m.height - rest, tmp, charByteIndex + tmp, lcdByteIndex + tmp, visible,
          before);
        tmp := tmp + 1;
        if tmp >= widthBytes { break; }
      }
      DrawnRow(before, image[..], m, x0, y0, color, row, 8 * tmp);
      NextRow(row, m.step);
      charByteIndex := charByteIndex + m.step;
      lcdByteIndex := ToShort(lcdByteIndex + LCD_BYTE_WIDTH);
      rest, row := rest - 1, row + 1;
    }
  }
}
