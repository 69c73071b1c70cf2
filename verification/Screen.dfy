/** The display buffer of util/cat/ev3_lcd.c and the routines that draw into it in place. */
module Screen {
  import opened Bytes
  import opened Numbers
  import opened Pixels
  import opened LineGeometry
  import opened Strokes
  import opened Shapes

  datatype Command = PixelCommand | HorizontalLine | VerticalLine | FillRegion

  /** What DisplayDraw touches for a command and its byte arguments. */
  function DrawTouches(cmd: Command, x1: Byte, y1: Byte, x2: Byte, y2: Byte): Touches {
    match cmd
    case PixelCommand => Dot(x1, y1)
    case HorizontalLine => RowTouches(x1, x2, y1)
    case VerticalLine => ColumnTouches(x1, y1, y2)
    case FillRegion => FillTouches(x1, y1, x2, y2)
  }

  class Display {
    const pLcd: array<bv8>
    var dirty: bool

    ghost predicate Valid() { pLcd.Length == LCD_BUFFER_SIZE }

    constructor ()
      ensures Valid() && fresh(pLcd) && !dirty
      ensures forall x, y :: InBuffer(x, y) ==> !Pixel(pLcd[..], x, y)
    {
      pLcd := new bv8[LCD_BUFFER_SIZE](_ => 0);
      dirty := false;
      new;
      forall x, y | InBuffer(x, y)
        ensures !Pixel(pLcd[..], x, y)
      {
        EmptyByte(x % 8);
      }
    }

    static lemma EmptyByte(k: nat)
      requires k < 8
      ensures !TestBit(0, k)
    {
      BitValues();
    }

    // ----- one pixel -----

    method DisplaySetPixel(x: Byte, y: Byte)
      requires Valid()
      modifies this`dirty, pLcd
      ensures Touched(old(pLcd[..]), pLcd[..], 0, Dot(x, y)) && dirty == (old(dirty) || OnScreen(x, y))
    {
      hide Pixel, Effect, Bit;
      ghost var before := pLcd[..];
      TouchedNowhere(before, 0);
      if x < LCD_WIDTH && y < LCD_HEIGHT {
        PixelWrite(before, 0, x, y);
        var i := x / 8 + LCD_BYTE_WIDTH * y;
        pLcd[i] := pLcd[i] | Bit(x % 8);
        assert pLcd[..] == before[i := Combine(0, before[i], Bit(x % 8))];
        dirty := true;
      }
      TouchedSame(before, pLcd[..], 0, if OnScreen(x, y) then At(x, y) else Nowhere(), Dot(x, y));
    }

    method DisplayClrPixel(x: Byte, y: Byte)
      requires Valid()
      modifies this`dirty, pLcd
      ensures Touched(old(pLcd[..]), pLcd[..], DRAW_PIXELS_CLEAR, Dot(x, y)) && dirty == (old(dirty) || OnScreen(x, y))
    {
      hide Pixel, Effect, Bit;
      ghost var before := pLcd[..];
      TouchedNowhere(before, DRAW_PIXELS_CLEAR);
      if x < LCD_WIDTH && y < LCD_HEIGHT {
        PixelWrite(before, DRAW_PIXELS_CLEAR, x, y);
        var i := x / 8 + LCD_BYTE_WIDTH * y;
        pLcd[i] := pLcd[i] & !Bit(x % 8);
        assert pLcd[..] == before[i := Combine(DRAW_PIXELS_CLEAR, before[i], Bit(x % 8))];
        dirty := true;
      }
      TouchedSame(before, pLcd[..], DRAW_PIXELS_CLEAR, if OnScreen(x, y) then At(x, y) else Nowhere(), Dot(x, y));
    }

    method DisplayXorPixel(x: Byte, y: Byte)
      requires Valid()
      modifies this`dirty, pLcd
      ensures Touched(old(pLcd[..]), pLcd[..], DRAW_PIXELS_INVERT, Dot(x, y)) && dirty == (old(dirty) || OnScreen(x, y))
    {
      hide Pixel, Effect, Bit;
      ghost var before := pLcd[..];
      TouchedNowhere(before, DRAW_PIXELS_INVERT);
      if x < LCD_WIDTH && y < LCD_HEIGHT {
        PixelWrite(before, DRAW_PIXELS_INVERT, x, y);
        var i := x / 8 + LCD_BYTE_WIDTH * y;
        pLcd[i] := pLcd[i] ^ Bit(x % 8);
        assert pLcd[..] == before[i := Combine(DRAW_PIXELS_INVERT, before[i], Bit(x % 8))];
        dirty := true;
      }
      TouchedSame(before, pLcd[..], DRAW_PIXELS_INVERT, if OnScreen(x, y) then At(x, y) else Nowhere(), Dot(x, y));
    }

    // ----- masked fills -----

    /** The row loop shared by the fills: one mask down one byte column. */
    method MaskRows(column: nat, y1: Byte, y2: int, mask: bv8, mode: Byte)
      requires Valid() && column < LCD_BYTE_WIDTH && y2 < LCD_HEIGHT
      modifies pLcd
      ensures Touched(old(pLcd[..]), pLcd[..], mode, StripTouches(column, y1, y2, mask))
    {
      hide Touched, Combine, StripTouches;
      ghost var before := pLcd[..];
      var y: int := y1;
      var pDst := column + LCD_BYTE_WIDTH * y1;
      EmptyStrip(before, column, y1, y2, mask, mode);
      while y <= y2
        invariant y1 <= y && (y1 <= y2 ==> y <= y2 + 1) && (y1 > y2 ==> y == y1)
        invariant pDst == column + LCD_BYTE_WIDTH * y
        invariant Touched(before, pLcd[..], mode, StripTouches(column, y1, if y1 <= y2 then y - 1 else y2, mask))
      {
        ghost var s := pLcd[..];
        MaskWrite(s, mode, column, y, mask);
        pLcd[pDst] := Combine(mode, pLcd[pDst], mask);
        assert pLcd[..] == s[pDst := Combine(mode, s[pDst], mask)];
        TouchedCompose(before, s, pLcd[..], mode, StripTouches(column, y1, y - 1, mask), MaskAt(column, y, mask));
        StripGrows(column, y1, y, mask);
        TouchedSame(before, pLcd[..], mode,
          Both(StripTouches(column, y1, y - 1, mask), MaskAt(column, y, mask)), StripTouches(column, y1, y, mask));
        pDst := pDst + LCD_BYTE_WIDTH;
        y := y + 1;
      }
    }

    static lemma EmptyStrip(s: seq<bv8>, column: int, y1: int, y2: int, mask: bv8, mode: Byte)
      requires |s| == LCD_BUFFER_SIZE
      ensures Touched(s, s, mode, StripTouches(column, y1, y1 - 1, mask))
      ensures y1 > y2 ==> Touched(s, s, mode, StripTouches(column, y1, y2, mask))
    {
      hide Touched, TestBit;
      TouchedNowhere(s, mode);
      TouchedSame(s, s, mode, Nowhere(), StripTouches(column, y1, y1 - 1, mask));
      if y1 > y2 {
        TouchedSame(s, s, mode, Nowhere(), StripTouches(column, y1, y2, mask));
      }
    }

    static lemma EmptyRegion(s: seq<bv8>, x1: int, y1: int, x2: int, y2: int, mode: Byte)
      requires |s| == LCD_BUFFER_SIZE && x1 > x2
      ensures Touched(s, s, mode, Region(x1, y1, x2, y2))
    {
      hide Touched;
      TouchedNowhere(s, mode);
      TouchedSame(s, s, mode, Nowhere(), Region(x1, y1, x2, y2));
    }

    method DisplayFillScreen(startX: Byte, startY: Byte, pixelsX: Byte, pixelsY: Byte, mode: Byte)
      requires Valid()
      modifies this`dirty, pLcd
      ensures Touched(old(pLcd[..]), pLcd[..], mode, FillTouches(startX, startY, pixelsX, pixelsY)) && dirty
    {
      hide Touched, ColumnMask, StripTouches, Region;
      var x1, y1 := startX, startY;
      var x2 := Min(ToByte(startX + pixelsX - 1), LCD_WIDTH - 1);
      var y2 := Min(ToByte(startY + pixelsY - 1), LCD_HEIGHT - 1);
      FillColumns(x1, y1, x2, y2, mode);
      dirty := true;
    }

    /** The column loop of DisplayFillScreen. */
    method FillColumns(x1: Byte, y1: Byte, x2: int, y2: int, mode: Byte)
      requires Valid() && 0 <= x2 < LCD_WIDTH && y2 < LCD_HEIGHT
      modifies pLcd
      ensures Touched(old(pLcd[..]), pLcd[..], mode, Region(x1, y1, x2, y2))
    {
      hide Touched, ColumnMask, StripTouches, Region;
      ghost var before := pLcd[..];
      var x := (x1 / 8) * 8;
      EmptyRegion(before, x1, y1, Min(x - 1, x2), y2, mode);
      while x <= x2
        invariant x1 / 8 * 8 <= x && x % 8 == 0
        invariant Touched(before, pLcd[..], mode, Region(x1, y1, Min(x - 1, x2), y2))
      {
        ghost var s := pLcd[..];
        var m := ColumnMask(x, x1, x2);
        MaskRows(x / 8, y1, y2, m, mode);
        TouchedCompose(before, s, pLcd[..], mode, Region(x1, y1, Min(x - 1, x2), y2), StripTouches(x / 8, y1, y2, m));
        RegionGrowsByStrip(x1, y1, x2, y2, x);
        TouchedSame(before, pLcd[..], mode,
          Both(Region(x1, y1, Min(x - 1, x2), y2), StripTouches(x / 8, y1, y2, m)), Region(x1, y1, Min(x + 7, x2), y2));
        x := x + 8;
      }
    }

    method DisplayLineX(x1: Byte, x2: Byte, y: Byte, mode: Byte)
      requires Valid() && y != LCD_HEIGHT
      modifies this`dirty, pLcd
      ensures Touched(old(pLcd[..]), pLcd[..], mode, RowTouches(x1, x2, y))
      ensures dirty == (old(dirty) || y < LCD_HEIGHT)
    {
      hide Touched, ColumnMask, StripTouches, Region;
      ghost var before := pLcd[..];
      TouchedNowhere(before, mode);
      if y > LCD_HEIGHT { return; }
      var left, right := Min(x1, x2), Min(Max(x1, x2), LCD_WIDTH - 1);
      var x := (left / 8) * 8;
      EmptyRegion(before, left, y, Min(x - 1, right), y, mode);
      while x <= right
        invariant left / 8 * 8 <= x && x % 8 == 0
        invariant Touched(before, pLcd[..], mode, Region(left, y, Min(x - 1, right), y))
      {
        ghost var s := pLcd[..];
        var m := ColumnMask(x, left, right);
        var pDst := x / 8 + LCD_BYTE_WIDTH * y;
        OneRow(s, mode, x / 8, y, m);
        pLcd[pDst] := Combine(mode, pLcd[pDst], m);
        assert pLcd[..] == s[pDst := Combine(mode, s[pDst], m)];
        TouchedCompose(before, s, pLcd[..], mode, Region(left, y, Min(x - 1, right), y), StripTouches(x / 8, y, y, m));
        RegionGrowsByStrip(left, y, right, y, x);
        TouchedSame(before, pLcd[..], mode,
          Both(Region(left, y, Min(x - 1, right), y), StripTouches(x / 8, y, y, m)),
            Region(left, y, Min(x + 7, right), y));
        x := x + 8;
      }
      dirty := true;
    }

    static lemma OneRow(s: seq<bv8>, mode: Byte, column: nat, row: nat, mask: bv8)
      requires |s| == LCD_BUFFER_SIZE && column < LCD_BYTE_WIDTH && row < LCD_HEIGHT
      ensures var i := column + LCD_BYTE_WIDTH * row;
        Touched(s, s[i := Combine(mode, s[i], mask)], mode, StripTouches(column, row, row, mask))
    {
      hide Touched, TestBit, Combine;
      var i := column + LCD_BYTE_WIDTH * row;
      MaskWrite(s, mode, column, row, mask);
      TouchedSame(s, s[i := Combine(mode, s[i], mask)], mode, MaskAt(column, row, mask),
        StripTouches(column, row, row, mask));
    }

    method DisplayLineY(x: Byte, y1: Byte, y2: Byte, mode: Byte)
      requires Valid()
      modifies this`dirty, pLcd
      ensures Touched(old(pLcd[..]), pLcd[..], mode, ColumnTouches(x, y1, y2))
      ensures dirty == (old(dirty) || x <= LCD_WIDTH)
    {
      hide Touched, StripTouches, Bit;
      TouchedNowhere(pLcd[..], mode);
      if x > LCD_WIDTH { return; }
      var top, bottom := Min(y1, y2), Min(Max(y1, y2), LCD_HEIGHT - 1);
      var m := Bit(x % 8);
      ghost var before := pLcd[..];
      MaskRows(x / 8, top, bottom, m, mode);
      SingleColumn(x, top, bottom);
      TouchedSame(before, pLcd[..], mode, StripTouches(x / 8, top, bottom, m), Region(x, top, x, bottom));
      dirty := true;
    }

    static lemma SingleColumn(x: Byte, y1: int, y2: int)
      ensures SameTouches(StripTouches(x / 8, y1, y2, Bit(x % 8)), Region(x, y1, x, y2))
    {
      hide TestBit, Bit;
      forall u, v | InBuffer(u, v)
        ensures StripTouches(x / 8, y1, y2, Bit(x % 8))(Point(u, v)) == Region(x, y1, x, y2)(Point(u, v))
      {
        if u / 8 == x / 8 {
          BitOfBit(x % 8, u % 8);
        }
      }
    }

    method DisplayDraw(cmd: Command, mode: Byte, x1: Byte, y1: Byte, x2: Byte, y2: Byte)
      requires Valid() && (cmd.HorizontalLine? ==> y1 != LCD_HEIGHT)
      modifies this`dirty, pLcd
      ensures Touched(old(pLcd[..]), pLcd[..], mode, DrawTouches(cmd, x1, y1, x2, y2))
    {
      hide Pixel;
      match cmd {
        case PixelCommand =>
          if mode == DRAW_PIXELS_INVERT {
            DisplayXorPixel(x1, y1);
          } else if mode == DRAW_PIXELS_CLEAR {
            DisplayClrPixel(x1, y1);
          } else {
            DisplaySetPixel(x1, y1);
          }
        case HorizontalLine => DisplayLineX(x1, x2, y1, mode);
        case VerticalLine => DisplayLineY(x1, y1, y2, mode);
        case FillRegion => DisplayFillScreen(x1, y1, x2, y2, mode);
      }
    }

    // ----- drawing in user coordinates -----

    method CmdSetPixel(x: int, y: int, mode: Byte)
      requires Valid()
      modifies this`dirty, pLcd
      ensures Touched(old(pLcd[..]), pLcd[..], mode, Dot(x, Row(y)))
    {
      hide Pixel, Effect;
      var row := Row(y);
      ghost var before := pLcd[..];
      TouchedNowhere(before, mode);
      if 0 <= x < LCD_WIDTH && 0 <= row < LCD_HEIGHT {
        DisplayDraw(PixelCommand, mode, x, row, 0, 0);
      } else {
        TouchedSame(before, pLcd[..], mode, Nowhere(), Dot(x, row));
      }
    }

    /** The first half of CmdDrawLine: cut the ends off at the upper and lower border. */
    static method ClipVertically(e: Ends) returns (visible: bool, x1: int, y1: int, x2: int, y2: int)
      ensures ClipY(e) == if visible then Kept(Ends(x1, y1, x2, y2)) else OffScreen
    {
      hide Shift;
      x1, y1, x2, y2 := e.x1, e.y1, e.x2, e.y2;
      var dx, dy := x2 - x1, y2 - y1;
      if y1 > y2 {
        x1, x2 := x2, x1;
        y1, y2 := y2, y1;
      }
      if y2 < 0 || y1 >= LCD_HEIGHT {
        visible := false;
        return;
      }
      if y1 < 0 {
        x1 := x1 + Shift(0 - y1, dy, dx);
        y1 := 0;
      }
      if y2 > LCD_HEIGHT - 1 {
        x2 := x2 - Shift(y2 - (LCD_HEIGHT - 1), dy, dx);
        y2 := LCD_HEIGHT - 1;
      }
      visible := true;
    }

    /** The second half: cut the ends off at the left and right border. */
    static method ClipHorizontally(e: Ends, dx: int, dy: int)
        returns (visible: bool, x1: int, y1: int, x2: int, y2: int)
      ensures ClipX(e, dx, dy) == if visible then Kept(Ends(x1, y1, x2, y2)) else OffScreen
    {
      hide Shift;
      x1, y1, x2, y2 := e.x1, e.y1, e.x2, e.y2;
      if x1 > x2 {
        x1, x2 := x2, x1;
        y1, y2 := y2, y1;
      }
      if x2 < 0 || x1 >= LCD_WIDTH {
        visible := false;
        return;
      }
      if x1 < 0 {
        y1 := y1 + Shift(0 - x1, dx, dy);
        x1 := 0;
      }
      if x2 > LCD_WIDTH - 1 {
        y2 := y2 - Shift(x2 - (LCD_WIDTH - 1), dx, dy);
        x2 := LCD_WIDTH - 1;
      }
      visible := true;
    }

    method CmdDrawLine(fromX: int, fromY: int, toX: int, toY: int, mode: Byte)
      requires Valid()
      modifies this`dirty, pLcd
      ensures Touched(old(pLcd[..]), pLcd[..], mode, LineTouches(Ends(fromX, fromY, toX, toY)))
    {
      hide Touched, ClipX, ClipY, StrokeTouches;
      TouchedNowhere(pLcd[..], mode);
      var e := Ends(fromX, fromY, toX, toY);
      var visible, x1, y1, x2, y2 := ClipVertically(e);
      if !visible { return; }
      visible, x1, y1, x2, y2 := ClipHorizontally(Ends(x1, y1, x2, y2), toX - fromX, toY - fromY);
      if !visible { return; }
      ClippedColumns(e);
      DrawClipped(x1, y1, x2, y2, mode);
    }

    /** The part of CmdDrawLine after clipping. */
    method DrawClipped(x1: int, y1: int, x2: int, y2: int, mode: Byte)
      requires Valid() && 0 <= x1 <= x2 < LCD_WIDTH && (y1 == y2 ==> 0 <= y1 < LCD_HEIGHT)
      modifies this`dirty, pLcd
      ensures Touched(old(pLcd[..]), pLcd[..], mode, StrokeTouches(Ends(x1, y1, x2, y2)))
    {
      hide Touched, RowTouches, ColumnTouches, Dot, VisitCount;
      if x1 == x2 {
        if y1 == y2 {
          DisplayDraw(PixelCommand, mode, x1, ToByte(Row(y1)), 0, 0);
        } else {
          DisplayDraw(VerticalLine, mode, x1, ToByte(Row(y1)), 0, ToByte(Row(y2)));
        }
      } else if y1 == y2 {
        DisplayDraw(HorizontalLine, mode, x1, ToByte(Row(y1)), x2, 0);
      } else {
        Bresenham(x1, y1, x2, y2, mode);
      }
    }

    static lemma FirstSpot(c: Ends)
      requires c.x1 <= c.x2 && Major(c) > 0
      ensures HalfPixel(Minor(c), Major(c), 0, 0)
    {}

    static lemma SpotFromSteps(c: Ends, k: nat, j: int)
      requires c.x1 <= c.x2 && Major(c) > 0 && HalfPixel(Minor(c), Major(c), k, j)
      ensures Spot(c, k) ==
        if XDominant(c) then Point(c.x1 + k, c.y1 + Sign(c.y2 - c.y1) * j)
        else Point(c.x1 + j, c.y1 + Sign(c.y2 - c.y1) * k)
    {
      hide Rounded, HalfPixel;
      HalfPixelIsRounded(Minor(c), Major(c), k, j);
    }

    /** The general case of CmdDrawLine: neither horizontal nor vertical. */
    method Bresenham(x1: int, y1: int, x2: int, y2: int, mode: Byte)
      requires Valid() && 0 <= x1 < x2 < LCD_WIDTH && y1 != y2
      modifies this`dirty, pLcd
      ensures Touched(old(pLcd[..]), pLcd[..], mode, Visits(Ends(x1, y1, x2, y2), Major(Ends(x1, y1, x2, y2)) + 1))
    {
      hide Touched, HalfPixel, Spot, VisitCount;
      ghost var c := Ends(x1, y1, x2, y2);
      ghost var before := pLcd[..];
      var dx, dy := x2 - x1, y2 - y1;
      var ax, sx := 2 * Abs(dx), Sign(dx);
      var ay, sy := 2 * Abs(dy), Sign(dy);
      var x, y := x1, y1;
      var d;
      ghost var k: nat, j := 0, 0;
      FirstSpot(c);
      NoVisits(before, c, mode);
      if ax > ay {
        d := ay - ax / 2;
        while true
          invariant 0 <= k <= dx && HalfPixel(Minor(c), Major(c), k, j)
          invariant x == x1 + k && y == y1 + sy * j
          invariant d == 2 * (Minor(c) * (k + 1)) - 2 * (Major(c) * j) - Major(c)
          invariant Touched(before, pLcd[..], mode, Visits(c, k))
          decreases dx - k
        {
          SpotFromSteps(c, k, j);
          DrawSpot(c, k, x, y, before, mode);
          if x == x2 { return; }
          DecisionStep(Minor(c), Major(c), k, j, d);
          if d >= 0 {
            SignedStep(sy, j);
            y := y + sy;
            d := d - ax;
            j := j + 1;
          }
          x := x + sx;
          d := d + ay;
          k := k + 1;
        }
      } else {
        d := ax - ay / 2;
        while true
          invariant 0 <= k <= Abs(dy) && HalfPixel(Minor(c), Major(c), k, j)
          invariant x == x1 + j && y == y1 + sy * k
          invariant d == 2 * (Minor(c) * (k + 1)) - 2 * (Major(c) * j) - Major(c)
          invariant Touched(before, pLcd[..], mode, Visits(c, k))
          decreases Abs(dy) - k
        {
          SpotFromSteps(c, k, j);
          DrawSpot(c, k, x, y, before, mode);
          if y == y2 { return; }
          DecisionStep(Minor(c), Major(c), k, j, d);
          if d >= 0 {
            x := x + sx;
            d := d - ay;
            j := j + 1;
          }
          SignedStep(sy, k);
          y := y + sy;
          d := d + ax;
          k := k + 1;
        }
      }
    }

    static lemma SignedStep(s: int, j: int)
      ensures s * (j + 1) == s * j + s
    {}

    static lemma NoVisits(s: seq<bv8>, c: Ends, mode: Byte)
      requires |s| == LCD_BUFFER_SIZE && c.x1 <= c.x2 && Major(c) > 0
      ensures Touched(s, s, mode, Visits(c, 0))
    {
      hide Touched;
      TouchedNowhere(s, mode);
      TouchedSame(s, s, mode, Nowhere(), Visits(c, 0));
    }

    method DrawSpot(ghost c: Ends, ghost k: nat, x: int, y: int, ghost before: seq<bv8>, mode: Byte)
      requires Valid() && c.x1 <= c.x2 && Major(c) > 0 && Spot(c, k) == Point(x, y)
      requires Touched(before, pLcd[..], mode, Visits(c, k))
      modifies this`dirty, pLcd
      ensures Touched(before, pLcd[..], mode, Visits(c, k + 1))
    {
      hide Touched, Spot, Dot;
      ghost var s := pLcd[..];
      DisplayDraw(PixelCommand, mode, ToByte(x), ToByte(Row(y)), 0, 0);
      TouchedCompose(before, s, pLcd[..], mode, Visits(c, k), ScreenDot(Point(x, y)));
      TouchedSame(before, pLcd[..], mode, Both(Visits(c, k), ScreenDot(Point(x, y))), Visits(c, k + 1));
    }

    // ----- rectangles -----

    /** A line that is one edge of a rectangle, added to what was drawn before. */
    method DrawEdge(x1: int, y1: int, x2: int, y2: int, mode: Byte, ghost before: seq<bv8>, ghost t: Touches)
      requires Valid() && (x1 == x2 || y1 == y2) && Touched(before, pLcd[..], mode, t)
      modifies this`dirty, pLcd
      ensures Touched(before, pLcd[..], mode, Both(t, SegmentTouches(Ends(x1, y1, x2, y2))))
    {
      hide Touched, LineTouches;
      ghost var s, e := pLcd[..], Ends(x1, y1, x2, y2);
      CmdDrawLine(x1, y1, x2, y2, mode);
      AxisLineTouches(e);
      TouchedSame(s, pLcd[..], mode, LineTouches(e), SegmentTouches(e));
      TouchedCompose(before, s, pLcd[..], mode, t, SegmentTouches(e));
    }

    method CmdDrawRect(left: int, bottom: int, width: int, height: int, mode: Byte, filled: bool)
      requires Valid()
      modifies this`dirty, pLcd
      ensures Touched(old(pLcd[..]), pLcd[..], mode, BoxTouches(BoxOf(left, bottom, width, height), filled))
    {
      hide Touched, LineTouches, SameTouches, FillTouches;
      ghost var before := pLcd[..];
      var x1, x2, y1, y2 := left, left + width, bottom, bottom + height;
      if x1 > x2 {
        x1, x2 := x2, x1;
      }
      if y1 > y2 {
        y1, y2 := y2, y1;
      }
      ghost var b := Box(x1, y1, x2, y2);
      if y2 == y1 || x2 == x1 {
        CmdDrawLine(x1, y1, x2, y2, mode);
        FlatBox(b, filled);
        TouchedSame(before, pLcd[..], mode, LineTouches(Ends(x1, y1, x2, y2)), BoxTouches(b, filled));
      } else if filled {
        FillRect(x1, y1, x2, y2, mode);
      } else {
        OutlineRect(x1, y1, x2, y2, mode);
      }
    }

    method FillRect(left: int, bottom: int, right: int, top: int, mode: Byte)
      requires Valid() && left < right && bottom < top
      modifies this`dirty, pLcd
      ensures Touched(old(pLcd[..]), pLcd[..], mode, BoxTouches(Box(left, bottom, right, top), true))
    {
      hide Touched, FillTouches;
      ghost var before, b := pLcd[..], Box(left, bottom, right, top);
      var x1, y1, x2, y2 := left, bottom, right, top;
      if x2 < 0 || y2 < 0 || x1 > LCD_WIDTH - 1 || y1 > LCD_HEIGHT - 1 {
        TouchedNowhere(before, mode);
        TouchedSame(before, before, mode, Nowhere(), BoxTouches(b, true));
        return;
      }
      x1, y1 := Max(x1, 0), Max(y1, 0);
      x2, y2 := Min(x2, LCD_WIDTH - 1), Min(y2, LCD_HEIGHT - 1);
      DisplayDraw(FillRegion, mode, x1, ToByte(Row(y2)), x2 - x1 + 1, y2 - y1 + 1);
      ClippedFill(b);
      TouchedSame(before, pLcd[..], mode, FillTouches(x1, ToByte(Row(y2)), x2 - x1 + 1, y2 - y1 + 1),
        BoxTouches(b, true));
    }

    method OutlineRect(x1: int, y1: int, x2: int, y2: int, mode: Byte)
      requires Valid() && x1 < x2 && y1 < y2
      modifies this`dirty, pLcd
      ensures Touched(old(pLcd[..]), pLcd[..], mode, BoxTouches(Box(x1, y1, x2, y2), false))
    {
      hide Touched, SegmentTouches, BoxTouches, SameTouches;
      ghost var before, b := pLcd[..], Box(x1, y1, x2, y2);
      TouchedNowhere(before, mode);
      DrawEdge(x1, y1, x2, y1, mode, before, Nowhere());
      DropNowhere(before, pLcd[..], mode, Edge(b, 0));
      DrawEdge(x1, y2, x2, y2, mode, before, Edge(b, 0));
      EdgesMakeOutline(b);
      if y2 > y1 + 1 {
        DrawEdge(x2, y1 + 1, x2, y2 - 1, mode, before, Both(Edge(b, 0), Edge(b, 1)));
        if x2 > x1 {
          DrawEdge(x1, y1 + 1, x1, y2 - 1, mode, before, Both(Both(Edge(b, 0), Edge(b, 1)), Edge(b, 2)));
        }
        TouchedSame(before, pLcd[..], mode, Both(Both(Both(Edge(b, 0), Edge(b, 1)), Edge(b, 2)), Edge(b, 3)),
          BoxTouches(b, false));
      } else {
        TouchedSame(before, pLcd[..], mode, Both(Edge(b, 0), Edge(b, 1)), BoxTouches(b, false));
      }
    }

    static lemma DropNowhere(before: seq<bv8>, after: seq<bv8>, mode: Byte, t: Touches)
      requires Touched(before, after, mode, Both(Nowhere(), t))
      ensures Touched(before, after, mode, t)
    {
      hide Touched;
      TouchedSame(before, after, mode, Both(Nowhere(), t), t);
    }
  }
}
