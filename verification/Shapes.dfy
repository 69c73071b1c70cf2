/** Fills and rectangles of util/cat/ev3_lcd.c as sets of pixels: the masks of
    DisplayFillScreen and the edges of CmdDrawRect. */
module Shapes {
  import opened Bytes
  import opened Numbers
  import opened Pixels
  import opened LineGeometry
  import opened Strokes

  // ----- column masks -----

  function LeftMask(x: int, x1: Byte): bv8 {
    if x < x1 then 0xFF & !MASKS[x1 % 8] else 0xFF
  }

  /** The mask for the byte that starts at column x, of a fill from x1 to x2. */
  function ColumnMask(x: int, x1: Byte, x2: int): bv8
    requires 0 <= x <= x2
  {
    if x2 - x < 8 then LeftMask(x, x1) & MASKS[(x2 % 8) + 1] else LeftMask(x, x1)
  }

  lemma LeftMaskBits(x: int, x1: Byte, k: nat)
    requires x % 8 == 0 && x1 / 8 * 8 <= x && k < 8
    ensures TestBit(LeftMask(x, x1), k) <==> x1 <= x + k
  {
    hide TestBit, Bit;
    FullMask(k);
    if x < x1 {
      PartOfColumn(x, x1);
      MasksBits(x1 - x, k);
      MaskWithout(0xFF, MASKS[x1 - x], k);
    }
  }

  lemma RightMaskBits(left: bv8, x: int, x2: int, k: nat)
    requires x % 8 == 0 && x <= x2 < x + 8 && k < 8
    ensures TestBit(left & MASKS[(x2 % 8) + 1], k) <==> TestBit(left, k) && x + k <= x2
  {
    hide TestBit, Bit;
    PartOfColumn(x, x2);
    MasksBits(x2 - x + 1, k);
    MaskMeet(left, MASKS[x2 - x + 1], k);
  }

  /** The mask keeps exactly the pixels of the byte that lie in the fill. */
  lemma ColumnMaskBits(x: int, x1: Byte, x2: int, k: nat)
    requires 0 <= x <= x2 && x % 8 == 0 && x1 / 8 * 8 <= x && k < 8
    ensures TestBit(ColumnMask(x, x1, x2), k) <==> x1 <= x + k <= x2
  {
    hide TestBit, Bit, LeftMask;
    LeftMaskBits(x, x1, k);
    if x2 - x < 8 {
      RightMaskBits(LeftMask(x, x1), x, x2, k);
    }
  }

  lemma PartOfColumn(x: int, n: int)
    requires x % 8 == 0 && (x <= n < x + 8 || n / 8 * 8 <= x <= n)
    ensures n % 8 == n - x && n < x + 8
  {}

  /** A mask applied to the rows y1..y2 of one byte column. */
  function StripTouches(column: int, y1: int, y2: int, mask: bv8): Touches {
    (p: Point) =>
      if y1 <= p.y <= y2 && 8 * column <= p.x < 8 * column + 8 && TestBit(mask, p.x - 8 * column) then 1 else 0
  }

  lemma StripGrows(column: int, y1: int, y: int, mask: bv8)
    requires y1 <= y
    ensures SameTouches(Both(StripTouches(column, y1, y - 1, mask), MaskAt(column, y, mask)),
      StripTouches(column, y1, y, mask))
  {
    hide TestBit;
  }

  lemma RegionGrowsByStrip(x1: Byte, y1: int, x2: int, y2: int, x: int)
    requires 0 <= x <= x2 && x % 8 == 0 && x1 / 8 * 8 <= x
    ensures SameTouches(
      Both(Region(x1, y1, Min(x - 1, x2), y2), StripTouches(x / 8, y1, y2, ColumnMask(x, x1, x2))),
      Region(x1, y1, Min(x + 7, x2), y2))
  {
    hide TestBit, ColumnMask;
    forall u, v | InBuffer(u, v)
      ensures Both(Region(x1, y1, Min(x - 1, x2), y2), StripTouches(x / 8, y1, y2, ColumnMask(x, x1, x2)))(Point(u, v))
           == Region(x1, y1, Min(x + 7, x2), y2)(Point(u, v))
    {
      if x <= u < x + 8 {
        ColumnMaskBits(x, x1, x2, u - x);
      }
    }
  }

  /** DisplayFillScreen: the last column and row are computed as bytes, then cut off. */
  function FillTouches(startX: Byte, startY: Byte, pixelsX: Byte, pixelsY: Byte): Touches {
    Region(startX, startY, Min(ToByte(startX + pixelsX - 1), LCD_WIDTH - 1),
      Min(ToByte(startY + pixelsY - 1), LCD_HEIGHT - 1))
  }

  // ----- rectangles -----

  datatype Box = Box(x1: int, y1: int, x2: int, y2: int) {
    predicate Contains(x: int, y: int) { x1 <= x <= x2 && y1 <= y <= y2 }

    predicate OnEdge(x: int, y: int) { Contains(x, y) && (x == x1 || x == x2 || y == y1 || y == y2) }
  }

  /** The closed rectangle between two corners, width and height of either sign. */
  function BoxOf(left: int, bottom: int, width: int, height: int): Box {
    Box(Min(left, left + width), Min(bottom, bottom + height), Max(left, left + width), Max(bottom, bottom + height))
  }

  /** The visible pixels of a rectangle, filled or outlined, each once. */
  function BoxTouches(b: Box, filled: bool): Touches {
    (p: Point) =>
      if OnScreen(p.x, p.y) && (if filled then b.Contains(p.x, Row(p.y)) else b.OnEdge(p.x, Row(p.y))) then 1 else 0
  }

  /** In the caller's terms: the pixels between the corner and the corner width and height away,
      all of them or those on the border. */
  lemma BoxPixels(left: int, bottom: int, width: int, height: int, filled: bool, p: Point)
    ensures var touched := BoxTouches(BoxOf(left, bottom, width, height), filled)(p);
      touched ==
        if OnScreen(p.x, p.y) && Between(left, p.x, left + width) && Between(bottom, 127 - p.y, bottom + height)
          && (filled || p.x == left || p.x == left + width || 127 - p.y == bottom || 127 - p.y == bottom + height)
        then 1 else 0
  {}

  /** A rectangle without width or height is a line. */
  lemma FlatBox(b: Box, filled: bool)
    requires b.x1 <= b.x2 && b.y1 <= b.y2 && (b.x1 == b.x2 || b.y1 == b.y2)
    ensures SameTouches(LineTouches(Ends(b.x1, b.y1, b.x2, b.y2)), BoxTouches(b, filled))
  {
    hide LineTouches;
    AxisLineTouches(Ends(b.x1, b.y1, b.x2, b.y2));
  }

  /** Filling the clipped rectangle is filling its visible part. */
  lemma ClippedFill(b: Box)
    requires 0 <= b.x2 && 0 <= b.y2 && b.x1 <= b.x2 && b.y1 <= b.y2 && b.x1 < LCD_WIDTH && b.y1 < LCD_HEIGHT
    ensures var (x1, y1) := (Max(b.x1, 0), Max(b.y1, 0));
      var (x2, y2) := (Min(b.x2, LCD_WIDTH - 1), Min(b.y2, LCD_HEIGHT - 1));
      SameTouches(FillTouches(x1, ToByte(Row(y2)), x2 - x1 + 1, y2 - y1 + 1), BoxTouches(b, true))
  {
    hide ToByte;
    var (x1, y1) := (Max(b.x1, 0), Max(b.y1, 0));
    var (x2, y2) := (Min(b.x2, LCD_WIDTH - 1), Min(b.y2, LCD_HEIGHT - 1));
    SmallToByte(Row(y2));
    SmallToByte(x1 + (x2 - x1 + 1) - 1);
    SmallToByte(Row(y2) + (y2 - y1 + 1) - 1);
  }

  function Edge(b: Box, n: nat): Touches {
    if n == 0 then SegmentTouches(Ends(b.x1, b.y1, b.x2, b.y1))
    else if n == 1 then SegmentTouches(Ends(b.x1, b.y2, b.x2, b.y2))
    else if n == 2 then SegmentTouches(Ends(b.x2, b.y1 + 1, b.x2, b.y2 - 1))
    else SegmentTouches(Ends(b.x1, b.y1 + 1, b.x1, b.y2 - 1))
  }

  /** The edges CmdDrawRect draws do not overlap and leave nothing out. */
  lemma EdgesMakeOutline(b: Box)
    requires b.x1 < b.x2 && b.y1 < b.y2
    ensures b.y2 > b.y1 + 1 ==>
      SameTouches(Both(Both(Both(Edge(b, 0), Edge(b, 1)), Edge(b, 2)), Edge(b, 3)), BoxTouches(b, false))
    ensures b.y2 == b.y1 + 1 ==> SameTouches(Both(Edge(b, 0), Edge(b, 1)), BoxTouches(b, false))
  {}
}
