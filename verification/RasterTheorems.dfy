/** What the drawing routines of util/cat/ev3_lcd.c guarantee about the picture, from the
    pixels each of them touches. */
module RasterTheorems {
  import opened Bytes
  import opened Pixels
  import opened LineCoverage
  import opened LineDistance
  import opened LineGeometry
  import opened Strokes
  import opened Shapes
  import opened Screen
  import opened EllipseGeometry
  import opened Ellipse

  // ----- lines -----

  /** A line and the same line from its other end change the buffer identically, for all
      endpoints and modes, whatever was there before. */
  lemma LineDirectionIndependent(before: seq<bv8>, forth: seq<bv8>, back: seq<bv8>, e: Ends, mode: Byte)
    requires Touched(before, forth, mode, LineTouches(e)) && Touched(before, back, mode, LineTouches(Reverse(e)))
    ensures forth == back
  {
    hide Touched, ClipLine, StrokeTouches;
    ClipDirectionIndependent(e);
    TouchedSame(before, back, mode, LineTouches(Reverse(e)), LineTouches(e));
    TouchedUnique(before, forth, back, mode, LineTouches(e));
  }

  /** Every pixel a line touches is at most two and a half pixels from the original line, unless
      rows wrap around. If in addition no end is trimmed twice, it lies in the box of the
      original ends and at most one and a half pixels from the line. */
  lemma LineNearOriginal(e: Ends, p: Point)
    requires ClipLine(e).Kept? ==> Unwrapped(ClipLine(e).ends)
    requires InBuffer(p.x, p.y) && LineTouches(e)(p) > 0
    ensures 2 * Abs(Cross(e, p.x, Row(p.y))) <= 5 * Longer(e)
    ensures NoEndTrimmedTwice(e) ==>
      && Between(e.x1, p.x, e.x2) && Between(e.y1, Row(p.y), e.y2)
      && 2 * Abs(Cross(e, p.x, Row(p.y))) <= 3 * Longer(e)
  {
    hide ClipLine, StrokeTouches, OnIdealLine, NearLine, Cross, Unwrapped, NoEndTrimmedTwice;
    var c := ClipLine(e).ends;
    LineIsIdealAt(e, p);
    ClippedEndsNear(e);
    IdealNearOriginal(e, c, p.x, Row(p.y), 2 * Longer(e));
    if NoEndTrimmedTwice(e) {
      ClippedInBox(e);
      IdealWithinBox(c, p.x, Row(p.y));
      NearLineCross(e, c.x1, c.y1);
      NearLineCross(e, c.x2, c.y2);
      IdealNearOriginal(e, c, p.x, Row(p.y), Longer(e));
    }
  }

  /** A line that has a visible point, and no end that is trimmed twice, touches exactly the
      ideal line between its clipped ends, each pixel once, all within the box of the original
      ends and not more than one and a half pixels from the original line. */
  lemma VisibleLine(e: Ends, p: Point)
    requires NoEndTrimmedTwice(e) && MeetsScreen(e) && InBuffer(p.x, p.y)
    ensures ClipLine(e).Kept? && ClipLine(e).ends.x1 <= ClipLine(e).ends.x2
    ensures LineTouches(e)(p) == if OnIdealLine(ClipLine(e).ends, p.x, Row(p.y)) then 1 else 0
    ensures LineTouches(e)(p) > 0 ==>
      && OnScreen(p.x, p.y) && Between(e.x1, p.x, e.x2) && Between(e.y1, Row(p.y), e.y2)
      && 2 * Abs(Cross(e, p.x, Row(p.y))) <= 3 * Longer(e)
  {
    hide ClipLine, LineTouches, OnIdealLine, Cross, Unwrapped, NoEndTrimmedTwice, MeetsScreen;
    NothingVisibleDropped(e);
    OnScreenLine(e, p);
  }

  /** The same for a line that needs clipping in one axis at most, which draws nothing if it is
      dropped. */
  lemma SingleAxisLine(e: Ends, p: Point)
    requires (0 <= e.x1 < LCD_WIDTH && 0 <= e.x2 < LCD_WIDTH) || (0 <= e.y1 < LCD_HEIGHT && 0 <= e.y2 < LCD_HEIGHT)
    requires InBuffer(p.x, p.y)
    ensures LineTouches(e)(p) == if ClipLine(e).Kept? && OnIdealLine(ClipLine(e).ends, p.x, Row(p.y)) then 1 else 0
    ensures LineTouches(e)(p) > 0 ==>
      && OnScreen(p.x, p.y) && Between(e.x1, p.x, e.x2) && Between(e.y1, Row(p.y), e.y2)
      && 2 * Abs(Cross(e, p.x, Row(p.y))) <= 3 * Longer(e)
  {
    hide ClipLine, StrokeTouches, OnIdealLine, Cross, Unwrapped, NoEndTrimmedTwice;
    ClipSingleAxis(e);
    if ClipLine(e).Kept? {
      OnScreenLine(e, p);
    }
  }

  lemma OnScreenLine(e: Ends, p: Point)
    requires ClipLine(e).Kept? && EndsOnScreen(ClipLine(e).ends) && ClipLine(e).ends.x1 <= ClipLine(e).ends.x2
    requires NoEndTrimmedTwice(e) && InBuffer(p.x, p.y)
    ensures LineTouches(e)(p) == if OnIdealLine(ClipLine(e).ends, p.x, Row(p.y)) then 1 else 0
    ensures LineTouches(e)(p) > 0 ==>
      && OnScreen(p.x, p.y) && Between(e.x1, p.x, e.x2) && Between(e.y1, Row(p.y), e.y2)
      && 2 * Abs(Cross(e, p.x, Row(p.y))) <= 3 * Longer(e)
  {
    hide ClipLine, LineTouches, OnIdealLine, Cross, Unwrapped, NoEndTrimmedTwice;
    var c := ClipLine(e).ends;
    VisibleEndsUnwrapped(c);
    LineIsIdealAt(e, p);
    if OnIdealLine(c, p.x, Row(p.y)) {
      IdealWithinBox(c, p.x, Row(p.y));
      LineNearOriginal(e, p);
    }
  }

  // ----- lines with an end that is trimmed twice, and lines beside the screen -----

  /** A line whose one end is trimmed twice: the lower border truncates half a column to nothing,
      then the left border moves that end 20 rows up. The clipped ends are on screen, the line
      runs visibly through rows 1 to 19, and none of them has a pixel. */
  lemma TrimmedTwiceDropsRows(y: int)
    requires 1 <= y <= 19
    ensures var e := Ends(-1, -19, 1, 21);
      && ClipLine(e) == Kept(Ends(0, 20, 1, 21)) && !NoEndTrimmedTwice(e)
      && MeetsRow(e, y) && !RowDrawn(e, y)
  {
    var e := Ends(-1, -19, 1, 21);
    assert Shift(19, 40, 2) == 0 && Shift(1, 2, 40) == 20;
    assert Visible(e, y + 19, 40) && AlongY(e, y + 19, 40) == y * 40;
    VisibleEndsUnwrapped(Ends(0, 20, 1, 21));
    DrawnRows(e, y);
  }

  /** Here the left border moves the lower end far above the screen, and a pixel almost exactly
      on the line is not drawn. */
  lemma TrimmedTwiceDropsPixel()
    ensures var (e, p) := (Ends(-1, -100, 1, 300), Point(0, Row(110)));
      && ClipLine(e) == Kept(Ends(0, 200, 1, 127)) && !NoEndTrimmedTwice(e)
      && 2 * Abs(Cross(e, 0, 110)) < Longer(e) / 8
      && OnScreen(p.x, p.y) && LineTouches(e)(p) == 0
  {
    var (e, c) := (Ends(-1, -100, 1, 300), Ends(0, 200, 1, 127));
    assert Shift(100, 400, 2) == 0 && Shift(1, 2, 400) == 200;
    UnwrappedRange(c);
    LineIsIdealAt(e, Point(0, Row(110)));
    if OnIdealLine(c, 0, 110) {
      IdealWithinBox(c, 0, 110);
    }
  }

  /** Pixels far from the line are drawn: here the left border moves the lower end above the
      screen, both clipped ends are in one column, and its row wraps around as a byte, so that
      the whole column is drawn, with a pixel more than five pixels from the line. */
  lemma TrimmedTwicePaintsAstray()
    ensures var (e, p) := (Ends(-6, -10, 5, 290), Point(0, Row(0)));
      && ClipLine(e) == Kept(Ends(0, 163, 0, 127)) && !NoEndTrimmedTwice(e)
      && Abs(Cross(e, p.x, Row(p.y))) > 5 * Longer(e)
      && LineTouches(e)(p) == 1
  {
    assert Shift(10, 300, 11) == 0 && Shift(163, 300, 11) == 5 && Shift(6, 11, 300) == 163;
  }

  /** No end is trimmed twice here, but the line has no visible point: one end is moved far above
      the screen, the other one into the same column, and this column is drawn from top to
      bottom. */
  lemma InvisibleLineDrawsColumn(y: int)
    requires 0 <= y < LCD_HEIGHT
    ensures var e := Ends(-1, 0, 1, 1000);
      && ClipLine(e) == Kept(Ends(0, 500, 0, 127)) && NoEndTrimmedTwice(e) && !MeetsScreen(e)
      && LineTouches(e)(Point(0, y)) == 1
  {
    var e := Ends(-1, 0, 1, 1000);
    assert Shift(1, 2, 1000) == 500 && Shift(873, 1000, 2) == 1;
    forall s: nat, w: nat
      ensures !Visible(e, s, w)
    {
      assert AlongX(e, s, w) == 2 * s - w && AlongY(e, s, w) == 1000 * s;
    }
  }

  // ----- outlines and fills -----

  datatype Shape =
    | Rectangle(left: int, bottom: int, width: int, height: int, filled: bool)
    | Oval(xc: int, yc: int, a: int, b: int, filled: bool)
  {
    predicate Drawable() { Oval? ==> RadiiFit(a, b) }
  }

  function ShapeTouches(s: Shape): Touches {
    match s
    case Rectangle(left, bottom, width, height, filled) => BoxTouches(BoxOf(left, bottom, width, height), filled)
    case Oval(xc, yc, a, b, filled) => EllipseTouches(xc, yc, a, b, filled)
  }

  method DrawShape(d: Display, s: Shape, mode: Byte)
    requires d.Valid() && s.Drawable()
    modifies d`dirty, d.pLcd
    ensures Touched(old(d.pLcd[..]), d.pLcd[..], mode, ShapeTouches(s))
  {
    hide Touched, BoxTouches, EllipseTouches, RadiiFit;
    match s {
      case Rectangle(left, bottom, width, height, filled) => d.CmdDrawRect(left, bottom, width, height, mode, filled);
      case Oval(xc, yc, a, b, filled) => CmdDrawEllipse(d, xc, yc, a, b, mode, filled);
    }
  }

  /** No shape, filled or hollow, touches a pixel twice or a pixel off the screen. */
  lemma TouchedAtMostOnce(s: Shape, p: Point)
    ensures ShapeTouches(s)(p) <= 1 && (ShapeTouches(s)(p) == 1 ==> OnScreen(p.x, p.y))
  {
    hide OnPath, InSpan;
  }

  /** Drawn once in INVERT mode, a shape flips its own pixels and no others. */
  lemma InvertFlipsShape(before: seq<bv8>, after: seq<bv8>, s: Shape, x: int, y: int)
    requires Touched(before, after, DRAW_PIXELS_INVERT, ShapeTouches(s)) && InBuffer(x, y)
    ensures Pixel(after, x, y) == (Pixel(before, x, y) != (ShapeTouches(s)(Point(x, y)) == 1))
  {
    hide Pixel, ShapeTouches;
    TouchedAtMostOnce(s, Point(x, y));
  }

  /** Drawn twice in INVERT mode, a shape leaves the whole buffer as it was. */
  method InvertTwice(d: Display, s: Shape)
    requires d.Valid() && s.Drawable()
    modifies d`dirty, d.pLcd
    ensures d.pLcd[..] == old(d.pLcd[..])
  {
    hide Touched, ShapeTouches;
    ghost var before := d.pLcd[..];
    DrawShape(d, s, DRAW_PIXELS_INVERT);
    ghost var once := d.pLcd[..];
    DrawShape(d, s, DRAW_PIXELS_INVERT);
    InvertTwiceRestores(before, once, d.pLcd[..], ShapeTouches(s));
  }

  // ----- ellipses -----

  /** The ellipse runs through every pixel of the drawn outline, which stays in the box of the
      radii and contains the four tips that are on screen. */
  lemma OutlineFollowsEllipse(xc: int, yc: int, a: int, b: int, p: Point)
    requires a > 0 && b > 0
    ensures OutlineTouches(xc, yc, a, b)(p) > 0 ==>
      Abs(p.x - xc) <= a && Abs(Row(p.y) - yc) <= b && Straddles(a, b, Abs(p.x - xc), Abs(Row(p.y) - yc))
    ensures OnScreen(p.x, p.y) && (Abs(p.x - xc), Abs(Row(p.y) - yc)) in {(0, b), (a, 0)} ==>
      OutlineTouches(xc, yc, a, b)(p) == 1
  {
    hide Straddles;
    var u, v := Abs(p.x - xc), Abs(Row(p.y) - yc);
    StartStraddles(a, b);
    PathReachesTip(a, b, 0, b);
    if OnPath(a, b, 0, b, u, v) {
      PathStraddles(a, b, 0, b, u, v);
    }
  }

  /** Row v of the outline has a pixel at column u or further out. */
  ghost predicate OutlineBeyond(a: int, b: int, u: int, v: int) { exists w :: u <= w && OnPath(a, b, 0, b, w, v) }

  /** A filled ellipse is, row by row, everything between the pixels of its outline. */
  lemma DiscIsFilledOutline(xc: int, yc: int, a: int, b: int, p: Point)
    requires OnScreen(p.x, p.y)
    ensures DiscTouches(xc, yc, a, b)(p) == 1 <==> OutlineBeyond(a, b, Abs(p.x - xc), Abs(Row(p.y) - yc))
  {
    hide OnPath, InSpan;
    var u, v := Abs(p.x - xc), Abs(Row(p.y) - yc);
    if InSpan(a, b, 0, b, u, v) {
      var w := EndOfSpan(a, b, 0, b, u, v);
    }
    forall w | w >= u && OnPath(a, b, 0, b, w, v)
      ensures InSpan(a, b, 0, b, u, v)
    {
      SpanUpTo(a, b, 0, b, u, v, w);
    }
  }

  lemma {:induction false} EndOfSpan(a: int, b: int, x: int, y: int, u: int, v: int) returns (w: int)
    requires InSpan(a, b, x, y, u, v)
    ensures w >= u && OnPath(a, b, x, y, w, v)
    decreases a - x + y + 2
  {
    if u <= x && y == v {
      w := x;
    } else {
      w := EndOfSpan(a, b, NextX(a * a, b * b, x, y), NextY(a * a, b * b, x, y), u, v);
    }
  }

  lemma {:induction false} SpanUpTo(a: int, b: int, x: int, y: int, u: int, v: int, w: int)
    requires OnPath(a, b, x, y, w, v) && u <= w
    ensures InSpan(a, b, x, y, u, v)
    decreases a - x + y + 2
  {
    if !(x == w && y == v) {
      SpanUpTo(a, b, NextX(a * a, b * b, x, y), NextY(a * a, b * b, x, y), u, v, w);
    }
  }

  /** A filled ellipse paints every pixel whose centre is inside the ellipse, and none whose
      square is outside it altogether. */
  lemma DiscFollowsEllipse(xc: int, yc: int, a: int, b: int, p: Point)
    requires a > 0 && b > 0 && OnScreen(p.x, p.y)
    ensures var (u, v) := (Abs(p.x - xc), Abs(Row(p.y) - yc));
      && (Inside(a * a, b * b, 2 * u, 2 * v) ==> DiscTouches(xc, yc, a, b)(p) == 1)
      && (DiscTouches(xc, yc, a, b)(p) == 1 ==> u <= a && v <= b && Inside(a * a, b * b, Inner(u), Inner(v)))
  {
    hide Straddles, Inside, Inner;
    var u, v := Abs(p.x - xc), Abs(Row(p.y) - yc);
    StartStraddles(a, b);
    if Inside(a * a, b * b, 2 * u, 2 * v) {
      InsideBelowTip(a, b, u, v);
      CentreInsideIsSpanned(a, b, 0, b, u, v);
    }
    if InSpan(a, b, 0, b, u, v) {
      SpannedIsNearlyInside(a, b, 0, b, u, v);
    }
  }

  /** Nothing above the upper tip is inside. */
  lemma InsideBelowTip(a: int, b: int, u: nat, v: nat)
    requires a > 0 && b > 0 && Inside(a * a, b * b, 2 * u, 2 * v)
    ensures v <= b
  {
    hide Level;
    LevelMonotone(a * a, b * b, 0, 2 * v, 2 * u, 2 * v);
    AxesSwapped(a * a, b * b, 2 * v);
    InsideOnAxis(b, a, 2 * v);
  }

  lemma AxesSwapped(A: int, B: int, Y: int)
    ensures Level(A, B, 0, Y) == Level(B, A, Y, 0)
  {}
}
