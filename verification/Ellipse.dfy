/** CmdDrawEllipse of util/cat/ev3_lcd.c (lines 1516-1635), hollow and filled, for all radii with
    which its 32-bit arithmetic does not overflow. */
module Ellipse {
  import opened Bytes
  import opened Pixels
  import opened Strokes
  import opened LineGeometry
  import opened Shapes
  import opened Screen
  import opened EllipseGeometry

  // ----- the pixels of an ellipse -----

  /** Mirrored in both axes: the outline, each pixel once. */
  function OutlineTouches(xc: int, yc: int, a: int, b: int): Touches {
    (p: Point) => if OnScreen(p.x, p.y) && OnPath(a, b, 0, b, Abs(p.x - xc), Abs(Row(p.y) - yc)) then 1 else 0
  }

  /** The outline and everything between its left and right half, each pixel once. */
  function DiscTouches(xc: int, yc: int, a: int, b: int): Touches {
    (p: Point) => if OnScreen(p.x, p.y) && InSpan(a, b, 0, b, Abs(p.x - xc), Abs(Row(p.y) - yc)) then 1 else 0
  }

  /** What is left of a filled ellipse when a radius is negative and the loop is not entered. */
  function PoleTouches(xc: int, yc: int, b: int): Touches {
    (p: Point) =>
      var v := Abs(Row(p.y) - yc);
      if OnScreen(p.x, p.y) && p.x == xc && (if b > 1 then v == b else v <= Abs(b)) then 1 else 0
  }

  function EllipseTouches(xc: int, yc: int, a: int, b: int, filled: bool): Touches {
    if b == 0 then BoxTouches(BoxOf(xc - a, yc, 2 * a, 0), filled)
    else if a == 0 then BoxTouches(BoxOf(xc, yc - b, 0, 2 * b), filled)
    else if a < 0 || b < 0 then if filled then PoleTouches(xc, yc, b) else Nowhere()
    else if filled then DiscTouches(xc, yc, a, b)
    else OutlineTouches(xc, yc, a, b)
  }

  /** Without height the ellipse is the visible part of the row between its tips, without width
      that of the column; with a negative radius, a hollow one is nothing, and a filled one the
      two tips of the column, or the whole column if b is 1 or negative. */
  lemma DegenerateEllipse(xc: int, yc: int, a: int, b: int, filled: bool, p: Point)
    ensures b == 0 ==> (EllipseTouches(xc, yc, a, b, filled)(p) > 0 <==>
      OnScreen(p.x, p.y) && Row(p.y) == yc && Between(xc - a, p.x, xc + a))
    ensures a == 0 && b != 0 ==> (EllipseTouches(xc, yc, a, b, filled)(p) > 0 <==>
      OnScreen(p.x, p.y) && p.x == xc && Between(yc - b, Row(p.y), yc + b))
    ensures a != 0 && b != 0 && (a < 0 || b < 0) && !filled ==> EllipseTouches(xc, yc, a, b, filled)(p) == 0
    ensures a < 0 && b > 1 && filled ==> (EllipseTouches(xc, yc, a, b, filled)(p) > 0 <==>
      OnScreen(p.x, p.y) && p.x == xc && (Row(p.y) == yc - b || Row(p.y) == yc + b))
    ensures a != 0 && b != 0 && (b < 0 || (b == 1 && a < 0)) && filled ==>
      (EllipseTouches(xc, yc, a, b, filled)(p) > 0 <==>
        OnScreen(p.x, p.y) && p.x == xc && Between(yc - b, Row(p.y), yc + b))
    ensures EllipseTouches(xc, yc, a, b, filled)(p) <= 1
  {}

  // ----- parts drawn by one iteration -----

  /** The mirror images of one staircase pixel. */
  function Quad(xc: int, yc: int, x: int, y: int): Touches {
    (p: Point) => if OnScreen(p.x, p.y) && Abs(p.x - xc) == x && Abs(Row(p.y) - yc) == y then 1 else 0
  }

  /** The rows at distance low..high from the centre, out to column x. */
  function Band(xc: int, yc: int, x: int, low: int, high: int): Touches {
    (p: Point) => if OnScreen(p.x, p.y) && Abs(p.x - xc) <= x && low <= Abs(Row(p.y) - yc) <= high then 1 else 0
  }

  /** The outline without what is still to come from (x, y). */
  function OutlineSoFar(xc: int, yc: int, a: int, b: int, x: int, y: int): Touches {
    (p: Point) =>
      var (u, v) := (Abs(p.x - xc), Abs(Row(p.y) - yc));
      if OnScreen(p.x, p.y) && OnPath(a, b, 0, b, u, v) && !OnPath(a, b, x, y, u, v) then 1 else 0
  }

  /** The disc outside the rows at distance at most ry from the centre. */
  function DiscSoFar(xc: int, yc: int, a: int, b: int, ry: int): Touches {
    (p: Point) =>
      var (u, v) := (Abs(p.x - xc), Abs(Row(p.y) - yc));
      if OnScreen(p.x, p.y) && InSpan(a, b, 0, b, u, v) && v > ry then 1 else 0
  }

  function SoFar(xc: int, yc: int, a: int, b: int, x: int, y: int, ry: int, filled: bool): Touches {
    if filled then DiscSoFar(xc, yc, a, b, ry) else OutlineSoFar(xc, yc, a, b, x, y)
  }

  // ----- invariants of the loop -----

  ghost predicate Reached(a: int, b: int, x: int, y: int) {
    forall u, v :: OnPath(a, b, x, y, u, v) ==> OnPath(a, b, 0, b, u, v)
  }

  /** In the rows not yet painted the disc is the current column's run and what comes later. */
  ghost predicate SpanSplit(a: int, b: int, x: int, y: int, ry: int) {
    forall u, v :: 0 <= v <= ry ==> (InSpan(a, b, 0, b, u, v) <==> (y < v && u <= x) || InSpan(a, b, x, y, u, v))
  }

  /** Where the loop stands: on the staircase, or past its last pixel. */
  predicate OnTrack(a: int, b: int, x: int, y: int) {
    if y >= 0 then 0 <= x <= a && y <= b && Straddles(a, b, x, y) else x == a && y == -1
  }

  lemma TrackStep(a: int, b: int, x: int, y: int)
    requires a > 0 && b > 0 && y >= 0 && OnTrack(a, b, x, y)
    ensures OnTrack(a, b, NextX(a * a, b * b, x, y), NextY(a * a, b * b, x, y))
    ensures MoveAt(a * a, b * b, x, y).SouthEast? ==> y >= 1
  {
    hide Straddles, MoveAt;
    StepStraddles(a, b, x, y);
  }

  lemma OutlineStep(xc: int, yc: int, a: int, b: int, x: int, y: int)
    requires 0 <= y && x <= a && Reached(a, b, x, y)
    ensures var (x', y') := (NextX(a * a, b * b, x, y), NextY(a * a, b * b, x, y));
      && Reached(a, b, x', y')
      && SameTouches(Both(OutlineSoFar(xc, yc, a, b, x, y), Quad(xc, yc, x, y)), OutlineSoFar(xc, yc, a, b, x', y'))
  {
    hide MoveAt;
    var x', y' := NextX(a * a, b * b, x, y), NextY(a * a, b * b, x, y);
    forall u, v
      ensures OnPath(a, b, x, y, u, v) <==> (x == u && y == v) || OnPath(a, b, x', y', u, v)
    {}
    if OnPath(a, b, x', y', x, y) {
      PathMovesOn(a, b, x', y', x, y);
      assert false;
    }
    assert OnPath(a, b, x, y, x, y);
  }

  lemma SpanEast(a: int, b: int, x: int, y: int)
    requires 0 <= y && x + 1 <= a && SpanSplit(a, b, x, y, y) && MoveAt(a * a, b * b, x, y).East?
    ensures SpanSplit(a, b, x + 1, y, y)
  {
    hide InSpan, MoveAt;
    forall u, v | 0 <= v <= y
      ensures InSpan(a, b, 0, b, u, v) <==> InSpan(a, b, x + 1, y, u, v)
    {
      EastSpan(a, b, x, y, u, v);
    }
  }

  lemma SpanSouth(a: int, b: int, x: int, y: int, ry: int)
    requires 0 <= y && x <= a && SpanSplit(a, b, x, y, ry) && MoveAt(a * a, b * b, x, y).South?
    ensures SpanSplit(a, b, x, y - 1, ry)
  {
    hide InSpan, MoveAt;
    forall u, v | 0 <= v <= ry
      ensures InSpan(a, b, 0, b, u, v) <==> (y - 1 < v && u <= x) || InSpan(a, b, x, y - 1, u, v)
    {
      SpanUnfold(a, b, x, y, u, v);
    }
  }

  lemma SpanSouthEast(a: int, b: int, x: int, y: int, ry: int)
    requires 0 <= y <= ry && x <= a && SpanSplit(a, b, x, y, ry) && MoveAt(a * a, b * b, x, y).SouthEast?
    ensures SpanSplit(a, b, x + 1, y - 1, y - 1)
  {
    hide InSpan, MoveAt;
    forall u, v | 0 <= v <= y - 1
      ensures InSpan(a, b, 0, b, u, v) <==> InSpan(a, b, x + 1, y - 1, u, v)
    {
      SpanUnfold(a, b, x, y, u, v);
    }
  }

  /** The rows from the current one up to where the column was entered end at the column. */
  lemma SpanOfColumn(a: int, b: int, x: int, y: int, ry: int, u: int, v: int)
    requires 0 <= y <= v <= ry && x <= a && SpanSplit(a, b, x, y, ry) && !MoveAt(a * a, b * b, x, y).East?
    ensures InSpan(a, b, 0, b, u, v) <==> u <= x
  {
    hide InSpan, MoveAt;
    SpanUnfold(a, b, x, y, u, v);
    var x', y' := NextX(a * a, b * b, x, y), NextY(a * a, b * b, x, y);
    if InSpan(a, b, x', y', u, v) {
      SpanBelow(a, b, x', y', u, v);
    }
  }

  lemma SpanUnfold(a: int, b: int, x: int, y: int, u: int, v: int)
    requires Running(a, x, y)
    ensures InSpan(a, b, x, y, u, v) <==>
      (u <= x && y == v) || InSpan(a, b, NextX(a * a, b * b, x, y), NextY(a * a, b * b, x, y), u, v)
  {
    hide MoveAt;
  }

  lemma EastSpan(a: int, b: int, x: int, y: int, u: int, v: int)
    requires Running(a, x, y) && MoveAt(a * a, b * b, x, y).East? && x + 1 <= a
    ensures InSpan(a, b, x, y, u, v) <==> InSpan(a, b, x + 1, y, u, v)
  {
    hide Level;
  }

  // ----- 32-bit arithmetic -----

  predicate Int32(n: int) { -0x8000_0000 <= n <= 0x7FFF_FFFF }

  /** Every int expression an iteration at (x, y) may compute. */
  predicate Fits(A: int, B: int, x: int, y: int) {
    var t := Term(A, B, x, y);
    && Int32(t) && Int32(B * x) && Int32(A * y) && Int32(t + B * x) && Int32(t + A * y) && Int32(t - A * y)
    && Int32(2 * B * (x + 1)) && Int32(t + 2 * B * (x + 1))
    && Int32(-2 * A * y) && Int32(-2 * A * (y - 1)) && Int32(t - 2 * A * (y - 1))
    && Int32(t + 2 * B * (x + 1) - 2 * A * (y - 1))
  }

  /** The int expressions before the loop, which are computed for radii of any sign. */
  predicate StartFits(a: int, b: int) {
    var (A, B) := (a * a, b * b);
    && Int32(2 * A) && Int32(2 * B) && Int32(A / 4 + 1 + B) && Int32(B / 4 + 1 + A)
    && Int32(A * b) && Int32(-2 * (A * b))
  }

  /** Positive radii for which 32 bits are enough for the loop: all bytes, and any two radii up
      to 644. */
  predicate LoopFits(a: int, b: int) {
    var (A, B) := (a * a, b * b);
    4 * (A * b) + 4 * (B * a) + 4 * A + 4 * B <= 0x7FFF_FFFF
  }

  /** The loop is not entered unless both radii are positive. */
  predicate RadiiFit(a: int, b: int) { StartFits(a, b) && (a > 0 && b > 0 ==> LoopFits(a, b)) }

  lemma ByteRadiiFit(a: Byte, b: Byte)
    ensures RadiiFit(a, b)
  {
    SquareMonotone(a, 255);
    SquareMonotone(b, 255);
    SmallProduct(a * a, b);
    SmallProduct(b * b, a);
  }

  lemma SmallProduct(A: int, n: int)
    requires 0 <= A <= 65025 && 0 <= n <= 255
    ensures 0 <= A * n <= 65025 * 255
  {
    ScaledMonotone(A, n, 255);
  }

  /** With such radii no int expression of the loop overflows. */
  lemma NoOverflow(a: int, b: int, x: int, y: int)
    requires a > 0 && b > 0 && LoopFits(a, b) && 0 <= x <= a && 0 <= y <= b && Straddles(a, b, x, y)
    ensures Fits(a * a, b * b, x, y)
  {
    hide Term, Straddles;
    var A, B := a * a, b * b;
    TermBounds(a, b, x, y);
    ScaledMonotone(B, 0, x);
    ScaledMonotone(B, x, a);
    ScaledMonotone(A, 0, y);
    ScaledMonotone(A, y, b);
    ProductGrouping(B, x);
    ProductGrouping(A, y);
  }

  lemma ProductGrouping(A: int, n: int)
    ensures 2 * A * (n + 1) == 2 * (A * n) + 2 * A
    ensures 2 * A * (n - 1) == 2 * (A * n) - 2 * A
    ensures -2 * A * n == -2 * (A * n)
  {}

  // ----- drawing -----

  lemma QuadFromDots(xc: int, yc: int, x: int, y: int)
    requires x >= 0 && y >= 0
    ensures var first := Dot(xc + x, Row(yc + y));
      var two := Both(first, Dot(xc - x, Row(yc - y)));
      var four := Both(Both(two, Dot(xc + x, Row(yc - y))), Dot(xc - x, Row(yc + y)));
      SameTouches(if x == 0 && y == 0 then first else if x == 0 || y == 0 then two else four, Quad(xc, yc, x, y))
  {}

  /** Sets the four mirror images of a pixel, or fewer where they coincide. */
  method PlotQuad(d: Display, xc: int, yc: int, x: int, y: int, mode: Byte)
    requires d.Valid() && x >= 0 && y >= 0
    modifies d`dirty, d.pLcd
    ensures Touched(old(d.pLcd[..]), d.pLcd[..], mode, Quad(xc, yc, x, y))
  {
    hide Touched, Dot, Quad, SameTouches;
    ghost var before := d.pLcd[..];
    ghost var first := Dot(xc + x, Row(yc + y));
    QuadFromDots(xc, yc, x, y);
    d.CmdSetPixel(xc + x, yc + y, mode);
    ghost var drawn := first;
    if x != 0 || y != 0 {
      drawn := PlotMore(d, xc - x, yc - y, mode, before, drawn);
    }
    if x != 0 && y != 0 {
      drawn := PlotMore(d, xc + x, yc - y, mode, before, drawn);
      drawn := PlotMore(d, xc - x, yc + y, mode, before, drawn);
    }
    TouchedSame(before, d.pLcd[..], mode, drawn, Quad(xc, yc, x, y));
  }

  method PlotMore(d: Display, x: int, y: int, mode: Byte, ghost before: seq<bv8>, ghost t: Touches)
      returns (ghost t': Touches)
    requires d.Valid() && Touched(before, d.pLcd[..], mode, t)
    modifies d`dirty, d.pLcd
    ensures t' == Both(t, Dot(x, Row(y))) && Touched(before, d.pLcd[..], mode, t')
  {
    hide Touched, Dot;
    ghost var s := d.pLcd[..];
    d.CmdSetPixel(x, y, mode);
    t' := Both(t, Dot(x, Row(y)));
    TouchedCompose(before, s, d.pLcd[..], mode, t, Dot(x, Row(y)));
  }

  lemma BandFromBoxes(xc: int, yc: int, x: int, low: int, high: int)
    requires x >= 0 && 1 <= low <= high
    ensures SameTouches(
      Both(BoxTouches(BoxOf(xc - x, yc - high, 2 * x, high - low), true),
           BoxTouches(BoxOf(xc - x, yc + high, 2 * x, -(high - low)), true)),
      Band(xc, yc, x, low, high))
  {}

  lemma MiddleBandFromBox(xc: int, yc: int, x: int, high: int)
    requires x >= 0 && 0 <= high
    ensures SameTouches(BoxTouches(BoxOf(xc - x, yc - high, 2 * x, high * 2), true), Band(xc, yc, x, 0, high))
  {}

  /** The two rectangles that fill a run of rows below and above the centre. */
  method PaintBands(d: Display, xc: int, yc: int, rx: int, ry: int, width: int, height: int, mode: Byte)
    requires d.Valid() && rx >= 0 && width == 2 * rx + 1 && 1 <= height <= ry
    modifies d`dirty, d.pLcd
    ensures Touched(old(d.pLcd[..]), d.pLcd[..], mode, Band(xc, yc, rx, ry - height + 1, ry))
  {
    hide Touched, BoxTouches, BoxOf, Band, SameTouches;
    ghost var before := d.pLcd[..];
    d.CmdDrawRect(xc - rx, yc - ry, width - 1, height - 1, mode, true);
    ghost var s := d.pLcd[..];
    d.CmdDrawRect(xc - rx, yc + ry, width - 1, -(height - 1), mode, true);
    ghost var lower, upper := BoxTouches(BoxOf(xc - rx, yc - ry, width - 1, height - 1), true),
      BoxTouches(BoxOf(xc - rx, yc + ry, width - 1, -(height - 1)), true);
    TouchedCompose(before, s, d.pLcd[..], mode, lower, upper);
    BandFromBoxes(xc, yc, rx, ry - height + 1, ry);
    TouchedSame(before, d.pLcd[..], mode, Both(lower, upper), Band(xc, yc, rx, ry - height + 1, ry));
  }

  lemma DiscStep(xc: int, yc: int, a: int, b: int, x: int, y: int, ry: int)
    requires 0 <= y <= ry && x <= a && SpanSplit(a, b, x, y, ry) && !MoveAt(a * a, b * b, x, y).East?
    ensures SameTouches(Both(DiscSoFar(xc, yc, a, b, ry), Band(xc, yc, x, y, ry)), DiscSoFar(xc, yc, a, b, y - 1))
  {
    hide InSpan, MoveAt, SpanSplit;
    forall px, py | InBuffer(px, py)
      ensures Both(DiscSoFar(xc, yc, a, b, ry), Band(xc, yc, x, y, ry))(Point(px, py)) ==
        DiscSoFar(xc, yc, a, b, y - 1)(Point(px, py))
    {
      var u, v := Abs(px - xc), Abs(Row(py) - yc);
      if y <= v <= ry {
        SpanOfColumn(a, b, x, y, ry, u, v);
      }
    }
  }

  lemma DiscEnd(xc: int, yc: int, a: int, b: int, ry: int)
    requires a >= 0 && SpanSplit(a, b, a, -1, ry)
    ensures SameTouches(Both(DiscSoFar(xc, yc, a, b, ry), Band(xc, yc, a, 0, ry)), DiscTouches(xc, yc, a, b))
  {
    hide InSpan;
    forall px, py | InBuffer(px, py)
      ensures Both(DiscSoFar(xc, yc, a, b, ry), Band(xc, yc, a, 0, ry))(Point(px, py)) ==
        DiscTouches(xc, yc, a, b)(Point(px, py))
    {
      var u, v := Abs(px - xc), Abs(Row(py) - yc);
      PastEnd(a, b, a, u, v);
    }
  }

  lemma PastEnd(a: int, b: int, x: int, u: int, v: int)
    ensures !InSpan(a, b, x, -1, u, v) && !OnPath(a, b, x, -1, u, v)
  {}

  lemma NothingSoFar(xc: int, yc: int, a: int, b: int, s: seq<bv8>, mode: Byte, filled: bool)
    requires |s| == LCD_BUFFER_SIZE
    ensures Touched(s, s, mode, SoFar(xc, yc, a, b, 0, b, b, filled))
  {
    hide Touched, InSpan, OnPath;
    forall u, v | InSpan(a, b, 0, b, u, v)
      ensures v <= b
    {
      SpanBelow(a, b, 0, b, u, v);
    }
    TouchedNowhere(s, mode);
    TouchedSame(s, s, mode, Nowhere(), SoFar(xc, yc, a, b, 0, b, b, filled));
  }

  /** What an iteration of the filled loop knows about the run of rows it collects. */
  ghost predicate Run(a: int, b: int, x: int, y: int, rx: int, ry: int, width: int, height: int) {
    && rx == x && width == 2 * x + 1 && height == ry - y + 1 && y <= ry <= b && 0 <= ry
    && Entered(a * a, b * b, x, ry)
    && (height > 1 ==> !Inside(a * a, b * b, 2 * x + 1, 2 * y))
    && SpanSplit(a, b, x, y, ry)
  }

  lemma RunStart(a: int, b: int)
    requires a > 0 && b > 0
    ensures Run(a, b, 0, b, 0, b, 1, 1)
  {
    hide Entered, InSpan;
    StartEntered(a, b);
  }

  /** A step to the right never ends a run of several rows, so that branch has nothing to draw. */
  lemma RunEast(a: int, b: int, x: int, y: int, rx: int, ry: int, width: int, height: int)
    requires a > 0 && b > 0 && 0 <= x && x + 1 <= a && 0 <= y
    requires Run(a, b, x, y, rx, ry, width, height) && MoveAt(a * a, b * b, x, y).East?
    ensures height == 1 && Run(a, b, x + 1, y, rx + 1, ry, width + 2, 1)
  {
    hide MoveAt, Entered, Inside, SpanSplit;
    if height != 1 {
      NoEastAfterSouth(a * a, b * b, x, y, ry);
    }
    StepEntered(a * a, b * b, x, y, ry);
    SpanEast(a, b, x, y);
  }

  lemma RunSouth(a: int, b: int, x: int, y: int, rx: int, ry: int, width: int, height: int)
    requires 0 <= y && x <= a && Run(a, b, x, y, rx, ry, width, height) && MoveAt(a * a, b * b, x, y).South?
    ensures Run(a, b, x, y - 1, rx, ry, width, height + 1)
  {
    hide MoveAt, Entered, Inside, SpanSplit;
    StepEntered(a * a, b * b, x, y, ry);
    SpanSouth(a, b, x, y, ry);
  }

  lemma RunSouthEast(a: int, b: int, x: int, y: int, rx: int, ry: int, width: int, height: int)
    requires 1 <= y && x <= a && Run(a, b, x, y, rx, ry, width, height) && MoveAt(a * a, b * b, x, y).SouthEast?
    ensures Run(a, b, x + 1, y - 1, rx + 1, ry - height, width + 2, 1)
  {
    hide MoveAt, Entered, Inside, SpanSplit;
    StepEntered(a * a, b * b, x, y, ry);
    SpanSouthEast(a, b, x, y, ry);
  }

  // ----- the error term and its increments -----

  predicate Terms(a2: int, b2: int, x: int, y: int, t: int, dxt: int, dyt: int) {
    t == Term(a2, b2, x, y) && dxt == 2 * b2 * x && dyt == -2 * a2 * y
  }

  lemma TermsStart(a2: int, b2: int, y: int)
    requires b2 == y * y
    ensures Terms(a2, b2, 0, y, -a2 * y, 2 * b2 * 0, -2 * a2 * y)
  {
    assert a2 * (y * (y - 1)) == a2 * b2 - a2 * y;
  }

  lemma TermsEast(a2: int, b2: int, x: int, y: int, t: int, dxt: int, dyt: int)
    requires Terms(a2, b2, x, y, t, dxt, dyt)
    ensures Terms(a2, b2, x + 1, y, t + (dxt + 2 * b2), dxt + 2 * b2, dyt)
  {
    hide Term;
    TermEast(a2, b2, x, y);
    ProductGrouping(b2, x);
  }

  lemma TermsSouth(a2: int, b2: int, x: int, y: int, t: int, dxt: int, dyt: int)
    requires Terms(a2, b2, x, y, t, dxt, dyt)
    ensures Terms(a2, b2, x, y - 1, t + (dyt + 2 * a2), dxt, dyt + 2 * a2)
  {
    hide Term;
    TermSouth(a2, b2, x, y);
    ProductGrouping(a2, y);
    ProductGrouping(a2, y - 1);
  }

  lemma TermsDecide(a: int, b: int, x: int, y: int, t: int, dxt: int, dyt: int)
    requires Terms(a * a, b * b, x, y, t, dxt, dyt)
    ensures MoveAt(a * a, b * b, x, y) ==
      if t + b * b * x <= Crit1(a, b) || t + a * a * y <= Crit3(b) then East
      else if t - a * a * y > Crit2(a, b) then South else SouthEast
  {
    hide Term, MoveAt, Crit1, Crit2, Crit3;
    CriteriaDecideMove(a, b, x, y);
  }

  /** Draws the run that a step down and to the right ends. */
  method PaintRun(d: Display, xc: int, yc: int, ghost a: int, ghost b: int, ghost y: int, rx: int, ry: int,
      width: int, height: int, mode: Byte, ghost before: seq<bv8>)
    requires d.Valid() && 1 <= y && 0 <= rx <= a && Run(a, b, rx, y, rx, ry, width, height)
      && !MoveAt(a * a, b * b, rx, y).East?
    requires Touched(before, d.pLcd[..], mode, DiscSoFar(xc, yc, a, b, ry))
    modifies d`dirty, d.pLcd
    ensures Touched(before, d.pLcd[..], mode, DiscSoFar(xc, yc, a, b, ry - height))
  {
    hide Touched, MoveAt, Run, DiscSoFar, Band, SameTouches, SpanSplit;
    RunFacts(a, b, rx, y, rx, ry, width, height);
    ghost var s := d.pLcd[..];
    if ry * 2 + 1 > height * 2 {
      PaintBands(d, xc, yc, rx, ry, width, height, mode);
    } else {
      assert false;  // the source has a single rectangle here, for runs that reach the centre row
    }
    TouchedCompose(before, s, d.pLcd[..], mode, DiscSoFar(xc, yc, a, b, ry), Band(xc, yc, rx, y, ry));
    DiscStep(xc, yc, a, b, rx, y, ry);
    TouchedSame(before, d.pLcd[..], mode,
      Both(DiscSoFar(xc, yc, a, b, ry), Band(xc, yc, rx, y, ry)), DiscSoFar(xc, yc, a, b, ry - height));
  }

  /** Draws the rows around the centre, after the loop. */
  method PaintMiddle(d: Display, xc: int, yc: int, ghost a: int, ghost b: int, rx: int, ry: int,
      width: int, height: int, mode: Byte, ghost before: seq<bv8>)
    requires d.Valid() && a > 0 && Run(a, b, a, -1, rx, ry, width, height)
    requires Touched(before, d.pLcd[..], mode, DiscSoFar(xc, yc, a, b, ry))
    modifies d`dirty, d.pLcd
    ensures Touched(before, d.pLcd[..], mode, DiscTouches(xc, yc, a, b))
  {
    hide Touched, Run, DiscSoFar, Band, DiscTouches, SameTouches, BoxTouches, BoxOf, SpanSplit;
    RunFacts(a, b, a, -1, rx, ry, width, height);
    ghost var s := d.pLcd[..];
    if ry > height {
      assert false;  // the source has two rectangles here
    } else {
      d.CmdDrawRect(xc - rx, yc - ry, width - 1, ry * 2, mode, true);
    }
    MiddleBandFromBox(xc, yc, rx, ry);
    TouchedSame(s, d.pLcd[..], mode, BoxTouches(BoxOf(xc - rx, yc - ry, width - 1, ry * 2), true),
      Band(xc, yc, rx, 0, ry));
    TouchedCompose(before, s, d.pLcd[..], mode, DiscSoFar(xc, yc, a, b, ry), Band(xc, yc, rx, 0, ry));
    DiscEnd(xc, yc, a, b, ry);
    TouchedSame(before, d.pLcd[..], mode, Both(DiscSoFar(xc, yc, a, b, ry), Band(xc, yc, rx, 0, ry)),
      DiscTouches(xc, yc, a, b));
  }

  /** Plots the outline pixels of one iteration. */
  method PlotStep(d: Display, xc: int, yc: int, ghost a: int, ghost b: int, x: int, y: int, mode: Byte,
      ghost before: seq<bv8>)
    requires d.Valid() && 0 <= x <= a && 0 <= y && Reached(a, b, x, y)
    requires Touched(before, d.pLcd[..], mode, OutlineSoFar(xc, yc, a, b, x, y))
    modifies d`dirty, d.pLcd
    ensures var (x', y') := (NextX(a * a, b * b, x, y), NextY(a * a, b * b, x, y));
      Reached(a, b, x', y') && Touched(before, d.pLcd[..], mode, OutlineSoFar(xc, yc, a, b, x', y'))
  {
    hide Touched, Reached, Quad, OutlineSoFar, SameTouches, MoveAt;
    ghost var s := d.pLcd[..];
    PlotQuad(d, xc, yc, x, y, mode);
    OutlineStep(xc, yc, a, b, x, y);
    TouchedCompose(before, s, d.pLcd[..], mode, OutlineSoFar(xc, yc, a, b, x, y), Quad(xc, yc, x, y));
    TouchedSame(before, d.pLcd[..], mode, Both(OutlineSoFar(xc, yc, a, b, x, y), Quad(xc, yc, x, y)),
      OutlineSoFar(xc, yc, a, b, NextX(a * a, b * b, x, y), NextY(a * a, b * b, x, y)));
  }

  /** The loop of CmdDrawEllipse. */
  method EllipseLoop(d: Display, xc: int, yc: int, a: int, b: int, mode: Byte, filled: bool)
      returns (ghost steps: nat)
    requires d.Valid() && a > 0 && b > 0 && LoopFits(a, b)
    modifies d`dirty, d.pLcd
    ensures a + 1 <= steps <= a + b + 1 && b + 1 <= steps
    ensures Touched(old(d.pLcd[..]), d.pLcd[..], mode, EllipseTouches(xc, yc, a, b, filled))
  {
    hide Touched, OnTrack, Run, MoveAt, Reached, DiscSoFar, OutlineSoFar, DiscTouches, OutlineTouches, SameTouches,
      Terms, Fits, Crit1, Crit2, Crit3, Straddles, PathLength, LoopFits;
    steps := 0;
    ghost var before := d.pLcd[..];
    var x, y := 0, b;
    var rx, ry := x, y;
    var width, height := 1, 1;
    var a2, b2 := a * a, b * b;
    var crit1, crit2, crit3 := Crit1(a, b), Crit2(a, b), Crit3(b);
    var t := -a2 * y;
    var dxt, dyt := 2 * b2 * x, -2 * a2 * y;
    var d2xt, d2yt := 2 * b2, 2 * a2;
    LoopStart(a, b);
    TermsStart(a2, b2, y);
    NothingSoFar(xc, yc, a, b, before, mode, filled);
    while y >= 0 && x <= a
      invariant OnTrack(a, b, x, y) && Terms(a2, b2, x, y, t, dxt, dyt)
      invariant !filled ==> Reached(a, b, x, y)
      invariant filled ==> Run(a, b, x, y, rx, ry, width, height)
      invariant Touched(before, d.pLcd[..], mode, SoFar(xc, yc, a, b, x, y, ry, filled))
      invariant steps + PathLength(a, b, x, y) == PathLength(a, b, 0, b)
      decreases a - x + y + 2
    {
      OneStep(a, b, x, y);
      steps := steps + 1;
      TrackFacts(a, b, x, y);
      NoOverflow(a, b, x, y);
      assert Fits(a2, b2, x, y);
      TermsDecide(a, b, x, y, t, dxt, dyt);
      TrackStep(a, b, x, y);
      if !filled {
        PlotStep(d, xc, yc, a, b, x, y, mode, before);
      }
      if t + b2 * x <= crit1 || t + a2 * y <= crit3 {
        TermsEast(a2, b2, x, y, t, dxt, dyt);
        if filled {
          TrackFacts(a, b, x + 1, y);
          RunEast(a, b, x, y, rx, ry, width, height);
          if height == 1 {
            // draw nothing
          } else {
            assert false;  // the source would draw rectangles here
          }
          rx := rx + 1;
          width := width + 2;
        }
        x := x + 1;
        dxt := dxt + d2xt;
        t := t + dxt;
      } else if t - a2 * y > crit2 {
        TermsSouth(a2, b2, x, y, t, dxt, dyt);
        if filled {
          RunSouth(a, b, x, y, rx, ry, width, height);
        }
        y := y - 1;
        dyt := dyt + d2yt;
        t := t + dyt;
        if filled {
          height := height + 1;
        }
      } else {
        TermsEast(a2, b2, x, y, t, dxt, dyt);
        TermsSouth(a2, b2, x + 1, y, t + (dxt + 2 * b2), dxt + 2 * b2, dyt);
        if filled {
          RunSouthEast(a, b, x, y, rx, ry, width, height);
          RunFacts(a, b, x, y, rx, ry, width, height);
          PaintRun(d, xc, yc, a, b, y, rx, ry, width, height, mode, before);
          width := width + 2;
          ry := ry - height;
          height := 1;
          rx := rx + 1;
        }
        x := x + 1;
        dxt := dxt + d2xt;
        t := t + dxt;
        y := y - 1;
        dyt := dyt + d2yt;
        t := t + dyt;
      }
    }
    TrackEnd(a, b, x, y);
    AllSteps(a, b, x);
    if filled {
      PaintMiddle(d, xc, yc, a, b, rx, ry, width, height, mode, before);
    } else {
      OutlineEnd(xc, yc, a, b, x);
      TouchedSame(before, d.pLcd[..], mode, OutlineSoFar(xc, yc, a, b, x, y), OutlineTouches(xc, yc, a, b));
    }
  }

  lemma OneStep(a: int, b: int, x: int, y: int)
    requires Running(a, x, y)
    ensures PathLength(a, b, x, y) == 1 + PathLength(a, b, NextX(a * a, b * b, x, y), NextY(a * a, b * b, x, y))
  {
    hide MoveAt;
  }

  lemma AllSteps(a: int, b: int, x: int)
    requires a > 0 && b > 0
    ensures PathLength(a, b, x, -1) == 0
    ensures a + 1 <= PathLength(a, b, 0, b) <= a + b + 1 && b + 1 <= PathLength(a, b, 0, b)
  {
    hide Straddles, MoveAt;
    StartStraddles(a, b);
    PathLengthBounds(a, b, 0, b);
  }

  lemma LoopStart(a: int, b: int)
    requires a > 0 && b > 0
    ensures OnTrack(a, b, 0, b) && Reached(a, b, 0, b) && Run(a, b, 0, b, 0, b, 1, 1)
  {
    hide Straddles, Run, OnPath;
    StartStraddles(a, b);
    RunStart(a, b);
  }

  lemma TrackFacts(a: int, b: int, x: int, y: int)
    requires OnTrack(a, b, x, y) && y >= 0
    ensures 0 <= x <= a && y <= b && Straddles(a, b, x, y)
  {}

  lemma TrackEnd(a: int, b: int, x: int, y: int)
    requires OnTrack(a, b, x, y) && !(y >= 0 && x <= a)
    ensures x == a && y == -1
  {}

  lemma RunFacts(a: int, b: int, x: int, y: int, rx: int, ry: int, width: int, height: int)
    requires Run(a, b, x, y, rx, ry, width, height)
    ensures rx == x && width == 2 * x + 1 && height == ry - y + 1 && y <= ry && 0 <= ry && SpanSplit(a, b, x, y, ry)
  {}

  lemma OutlineEnd(xc: int, yc: int, a: int, b: int, x: int)
    ensures SameTouches(OutlineSoFar(xc, yc, a, b, x, -1), OutlineTouches(xc, yc, a, b))
  {
    forall u, v
      ensures !OnPath(a, b, x, -1, u, v)
    {
      PastEnd(a, b, x, u, v);
    }
  }

  /** The rectangles drawn after a loop that is not entered. */
  method DrawPoles(d: Display, xc: int, yc: int, b: int, mode: Byte)
    requires d.Valid() && b != 0
    modifies d`dirty, d.pLcd
    ensures Touched(old(d.pLcd[..]), d.pLcd[..], mode, PoleTouches(xc, yc, b))
  {
    hide Touched, BoxTouches, BoxOf;
    ghost var before := d.pLcd[..];
    PolesFromBoxes(xc, yc, b);
    if b > 1 {
      d.CmdDrawRect(xc, yc - b, 0, 0, mode, true);
      ghost var s, lower := d.pLcd[..], BoxTouches(BoxOf(xc, yc - b, 0, 0), true);
      d.CmdDrawRect(xc, yc + b, 0, 0, mode, true);
      ghost var upper := BoxTouches(BoxOf(xc, yc + b, 0, 0), true);
      TouchedCompose(before, s, d.pLcd[..], mode, lower, upper);
      TouchedSame(before, d.pLcd[..], mode, Both(lower, upper), PoleTouches(xc, yc, b));
    } else {
      d.CmdDrawRect(xc, yc - b, 0, b * 2, mode, true);
      TouchedSame(before, d.pLcd[..], mode, BoxTouches(BoxOf(xc, yc - b, 0, b * 2), true), PoleTouches(xc, yc, b));
    }
  }

  lemma PolesFromBoxes(xc: int, yc: int, b: int)
    requires b != 0
    ensures b > 1 ==> SameTouches(
      Both(BoxTouches(BoxOf(xc, yc - b, 0, 0), true), BoxTouches(BoxOf(xc, yc + b, 0, 0), true)),
        PoleTouches(xc, yc, b))
    ensures b <= 1 ==> SameTouches(BoxTouches(BoxOf(xc, yc - b, 0, b * 2), true), PoleTouches(xc, yc, b))
  {}

  method CmdDrawEllipse(d: Display, xc: int, yc: int, a: int, b: int, mode: Byte, filled: bool)
    requires d.Valid() && RadiiFit(a, b)
    modifies d`dirty, d.pLcd
    ensures Touched(old(d.pLcd[..]), d.pLcd[..], mode, EllipseTouches(xc, yc, a, b, filled))
  {
    hide Touched, StartFits, LoopFits;
    TouchedNowhere(d.pLcd[..], mode);
    if b == 0 {
      d.CmdDrawRect(xc - a, yc, 2 * a, 0, mode, filled);
    } else if a == 0 {
      d.CmdDrawRect(xc, yc - b, 0, 2 * b, mode, filled);
    } else if a < 0 || b < 0 {
      // the loop is not entered: rx == 0, ry == b, width == height == 1
      if filled {
        DrawPoles(d, xc, yc, b, mode);
      }
    } else {
      ghost var steps := EllipseLoop(d, xc, yc, a, b, mode, filled);
    }
  }
}
