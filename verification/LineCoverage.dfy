/** What the clipping of CmdDrawLine (util/cat/ev3_lcd.c:1343-1391) keeps of a line: unless an end
    is trimmed twice, every row and every column in which the line is visible. */
module LineCoverage {
  import opened LineGeometry
  import opened Numbers
  import opened Pixels
  import opened Strokes

  // ----- points of the original line -----

  /** The coordinates, times w, of the point that lies s steps of w along the line. */
  function AlongX(e: Ends, s: nat, w: nat): int { e.x1 * w + (e.x2 - e.x1) * s }

  function AlongY(e: Ends, s: nat, w: nat): int { e.y1 * w + (e.y2 - e.y1) * s }

  predicate InRange(v: int, limit: int, w: nat) { 0 <= v <= limit * w }

  /** That point is on the screen. */
  predicate Visible(e: Ends, s: nat, w: nat) {
    && s <= w && 0 < w
    && InRange(AlongX(e, s, w), LCD_WIDTH - 1, w) && InRange(AlongY(e, s, w), LCD_HEIGHT - 1, w)
  }

  ghost predicate MeetsScreen(e: Ends) { exists s: nat, w: nat :: Visible(e, s, w) }

  /** A visible point of the line lies exactly in row y. */
  ghost predicate MeetsRow(e: Ends, y: int) { exists s: nat, w: nat :: Visible(e, s, w) && AlongY(e, s, w) == y * w }

  ghost predicate MeetsColumn(e: Ends, x: int) { exists s: nat, w: nat :: Visible(e, s, w) && AlongX(e, s, w) == x * w }

  ghost predicate RowDrawn(e: Ends, y: int) {
    exists x :: OnScreen(x, Row(y)) && LineTouches(e)(Point(x, Row(y))) == 1
  }

  ghost predicate ColumnDrawn(e: Ends, x: int) {
    exists y :: OnScreen(x, Row(y)) && LineTouches(e)(Point(x, Row(y))) == 1
  }

  lemma AlongOneAxis(a: int, b: int, s: nat, w: nat)
    requires s <= w
    ensures Between(a * w, a * w + (b - a) * s, b * w)
    ensures b * w + (a - b) * (w - s) == a * w + (b - a) * s
  {
    assert (b - a) * w == b * w - a * w && (a - b) * (w - s) == -((b - a) * w) + (b - a) * s;
    if a <= b {
      ProductMonotone(b - a, 0, s);
      ProductMonotone(b - a, s, w);
    } else {
      ProductMonotone(a - b, 0, s);
      ProductMonotone(a - b, s, w);
      assert (a - b) * s == -((b - a) * s) && (a - b) * w == -((b - a) * w);
    }
  }

  lemma VisibleReversed(e: Ends, s: nat, w: nat)
    requires s <= w
    ensures AlongX(Reverse(e), w - s, w) == AlongX(e, s, w) && AlongY(Reverse(e), w - s, w) == AlongY(e, s, w)
  {
    AlongOneAxis(e.x1, e.x2, s, w);
    AlongOneAxis(e.y1, e.y2, s, w);
  }

  // ----- a trimmed end does not pass a visible point -----

  lemma QuotientReached(q: int, l: int, c: int, cut: int, s: int, w: int)
    requires 0 < l && 0 <= c && 0 <= w && q * l <= cut * c && cut * w <= l * s
    ensures q * w <= c * s
  {
    ProductMonotone(w, q * l, cut * c);
    ProductMonotone(c, cut * w, l * s);
    Regroup(w, q, l);
    Regroup(w, cut, c);
    Regroup(c, s, l);
    CancelFactor(l, q * w, c * s);
  }

  lemma Regroup(a: int, b: int, c: int)
    ensures a * (b * c) == b * a * c == c * (b * a) && a * (c * b) == a * b * c
  {}

  /** A shift is not longer than the way to a point behind the border. */
  lemma ShiftReached(cut: nat, along: int, across: int, s: nat, w: nat)
    requires along != 0 && cut * w <= Abs(along) * s
    ensures Abs(Shift(cut, along, across)) * w <= Abs(across) * s
  {
    hide Shift, ShiftSize;
    ShiftValue(cut, along, across);
    ShiftSizeBounds(cut, along, across);
    QuotientReached(ShiftSize(cut, along, across), Abs(along), Abs(across), cut, s, w);
  }

  /** The end v1 is cut back to the border at 0 or at limit, where v1 * w + dv * s is between
      them: the other coordinate moves by a share of du * s. */
  lemma CutReached(v1: int, limit: int, dv: int, du: int, s: nat, w: nat)
    requires 0 < w && InRange(v1 * w + dv * s, limit, w)
    ensures v1 < 0 ==> Between(0, Shift(0 - v1, dv, du) * w, du * s)
    ensures v1 > limit ==> Between(0, -Shift(v1 - limit, dv, du) * w, du * s)
  {
    hide Shift;
    if v1 < 0 || v1 > limit {
      var cut := if v1 < 0 then 0 - v1 else v1 - limit;
      ProductMonotone(w, 1, cut);
      assert (0 - v1) * w == -(v1 * w) && (v1 - limit) * w == v1 * w - limit * w;
      SignOfProduct(dv, s);
      ShiftReached(cut, dv, du, s, w);
      SignedShare(cut, dv, du, s, w);
    }
  }

  lemma SignOfProduct(dv: int, s: nat)
    ensures dv * s > 0 ==> dv > 0 && Abs(dv) * s == dv * s
    ensures dv * s < 0 ==> dv < 0 && Abs(dv) * s == -(dv * s)
  {}

  lemma SignedShare(cut: nat, dv: int, du: int, s: nat, w: nat)
    requires dv != 0 && Abs(Shift(cut, dv, du)) * w <= Abs(du) * s
    ensures dv > 0 ==> Between(0, Shift(cut, dv, du) * w, du * s)
    ensures dv < 0 ==> Between(0, -Shift(cut, dv, du) * w, du * s)
  {
    hide Shift, ShiftSize;
    ShiftValue(cut, dv, du);
    ShiftSizeBounds(cut, dv, du);
    var q := ShiftSize(cut, dv, du);
    assert -q * w == -(q * w) && -du * s == -(du * s);
    ProductMonotone(w, 0, q);
  }

  lemma Distribute(a: int, b: int, w: nat)
    ensures (a + b) * w == a * w + b * w
  {}

  lemma Scaled(w: nat, a: int, b: int)
    requires 0 < w
    ensures a <= b <==> a * w <= b * w
  {
    if a <= b {
      ProductMonotone(w, a, b);
    } else if a * w <= b * w {
      CancelFactor(w, a, b);
    }
  }

  /** Cutting back one coordinate leaves both between where they were and the visible point. */
  lemma TrimReached(v1: int, limit: nat, dv: int, u1: int, du: int, s: nat, w: nat, v: int, u: int)
    requires 0 < w && InRange(v1 * w + dv * s, limit, w)
    requires v == if v1 < 0 then 0 else if v1 > limit then limit else v1
    requires u ==
      if v1 < 0 then u1 + Shift(0 - v1, dv, du) else if v1 > limit then u1 - Shift(v1 - limit, dv, du) else u1
    ensures Between(v1 * w, v * w, v1 * w + dv * s) && Between(u1 * w, u * w, u1 * w + du * s)
  {
    hide Shift;
    CutReached(v1, limit, dv, du, s, w);
    Scaled(w, v1, 0);
    Scaled(w, limit, v1);
    Distribute(u1, Shift(0 - v1, dv, du), w);
    Distribute(u1, -Shift(v1 - limit, dv, du), w);
  }

  lemma RowReached(e: Ends, s: nat, w: nat)
    requires Visible(e, s, w)
    ensures var q := TrimRow(e, First(e));
      Between(e.x1 * w, q.x * w, AlongX(e, s, w)) && Between(e.y1 * w, q.y * w, AlongY(e, s, w))
  {
    hide Shift, Between;
    var q := TrimRow(e, First(e));
    TrimReached(e.y1, LCD_HEIGHT - 1, e.y2 - e.y1, e.x1, e.x2 - e.x1, s, w, q.y, q.x);
  }

  /** On-screen rows stay between the ends of what is on screen. */
  lemma BetweenOnScreen(a: int, v: int, limit: int, along: int, w: nat)
    requires 0 < w && 0 <= a <= limit && InRange(along, limit, w) && Between(a * w, v * w, along)
    ensures 0 <= v <= limit
  {
    Scaled(w, 0, a);
    Scaled(w, a, limit);
    Scaled(w, 0, v);
    Scaled(w, v, limit);
  }

  lemma ColumnReached(e: Ends, s: nat, w: nat)
    requires Visible(e, s, w)
    ensures var q := TrimColumn(e, First(e));
      Between(e.x1 * w, q.x * w, AlongX(e, s, w)) && Between(e.y1 * w, q.y * w, AlongY(e, s, w))
  {
    hide Shift, Between;
    var q := TrimColumn(e, First(e));
    TrimReached(e.x1, LCD_WIDTH - 1, e.x2 - e.x1, e.y1, e.y2 - e.y1, s, w, q.x, q.y);
  }

  lemma FirstReached(e: Ends, s: nat, w: nat)
    requires Visible(e, s, w) && !TrimmedTwice(e, First(e))
    ensures var q := TrimEnd(e, First(e));
      && Between(e.x1 * w, q.x * w, AlongX(e, s, w)) && Between(e.y1 * w, q.y * w, AlongY(e, s, w))
      && OnScreen(q.x, q.y)
  {
    hide Shift, AlongX, AlongY, Between, InRange;
    if 0 <= e.y1 < LCD_HEIGHT {
      ColumnReached(e, s, w);
      BetweenOnScreen(e.y1, TrimColumn(e, First(e)).y, LCD_HEIGHT - 1, AlongY(e, s, w), w);
    } else {
      RowReached(e, s, w);
    }
  }

  // ----- visible lines are kept -----

  lemma RangesMeet(a: int, b: int, limit: int, along: int, w: nat)
    requires 0 < w && InRange(along, limit, w) && Between(a * w, along, b * w)
    ensures Max(a, b) >= 0 && Min(a, b) <= limit
  {
    Scaled(w, 0, Max(a, b));
    Scaled(w, Min(a, b), limit);
  }

  lemma VisibleIsKept(e: Ends, s: nat, w: nat)
    requires Visible(e, s, w)
    ensures ClipLine(e).Kept?
  {
    hide Shift, TrimRow, TrimEnd, ClipLine, AlongX, AlongY;
    VisibleReversed(e, s, w);
    RowReached(e, s, w);
    RowReached(Reverse(e), w - s, w);
    KeptReversed(e);
    AlongIsBetween(e, s, w);
    RangesMeet(e.y1, e.y2, LCD_HEIGHT - 1, AlongY(e, s, w), w);
    RangesMeet(TrimRow(e, First(e)).x, TrimRow(e, Second(e)).x, LCD_WIDTH - 1, AlongX(e, s, w), w);
    ClipIsTrims(e);
  }

  lemma AlongIsBetween(e: Ends, s: nat, w: nat)
    requires s <= w
    ensures Between(e.x1 * w, AlongX(e, s, w), e.x2 * w) && Between(e.y1 * w, AlongY(e, s, w), e.y2 * w)
  {
    AlongOneAxis(e.x1, e.x2, s, w);
    AlongOneAxis(e.y1, e.y2, s, w);
  }

  /** If no end is trimmed twice, a line with a visible point keeps it between its clipped ends,
      which are on screen. */
  lemma VisiblePointKept(e: Ends, s: nat, w: nat)
    requires Visible(e, s, w) && NoEndTrimmedTwice(e)
    ensures ClipLine(e).Kept?
    ensures var c := ClipLine(e).ends;
      && EndsOnScreen(c) && c.x1 <= c.x2
      && Between(c.x1 * w, AlongX(e, s, w), c.x2 * w) && Between(c.y1 * w, AlongY(e, s, w), c.y2 * w)
  {
    hide Shift, TrimEnd, TrimRow, TrimmedTwice, ClipLine, AlongX, AlongY;
    VisibleIsKept(e, s, w);
    ClipIsTrims(e);
    ClippedColumns(e);
    KeptReversed(e);
    VisibleReversed(e, s, w);
    FirstReached(e, s, w);
    FirstReached(Reverse(e), w - s, w);
    AlongIsBetween(e, s, w);
  }

  // ----- every row and column between the clipped ends is drawn -----

  lemma IdealInRow(c: Ends, y: int) returns (x: int)
    requires c.x1 <= c.x2 && Between(c.y1, y, c.y2)
    ensures c.x1 <= x <= c.x2 && OnIdealLine(c, x, y)
  {
    hide Spot, StepOf;
    x := c.x1;
    if Major(c) > 0 {
      hide OnIdealLine;
      var k := RowHit(c, y);
      x := Spot(c, k).x;
      SpotBetween(c, k);
      SpotIffIdeal(c, Point(x, Row(y)));
    }
  }

  lemma IdealInColumn(c: Ends, x: int) returns (y: int)
    requires c.x1 <= x <= c.x2
    ensures Between(c.y1, y, c.y2) && OnIdealLine(c, x, y)
  {
    hide Spot, StepOf;
    y := c.y1;
    if Major(c) > 0 {
      hide OnIdealLine;
      var k := ColumnHit(c, x);
      y := Spot(c, k).y;
      SpotBetween(c, k);
      SpotIffIdeal(c, Point(x, Row(y)));
    }
  }

  /** Unless rows wrap around, the rows with pixels are the visible ones between the clipped
      ends. */
  lemma DrawnRows(e: Ends, y: int)
    requires ClipLine(e).Kept? && Unwrapped(ClipLine(e).ends) && 0 <= y < LCD_HEIGHT
    ensures RowDrawn(e, y) <==> Between(ClipLine(e).ends.y1, y, ClipLine(e).ends.y2)
  {
    hide ClipLine, LineTouches, OnIdealLine, Unwrapped;
    var c := ClipLine(e).ends;
    forall x | OnScreen(x, Row(y))
      ensures ColumnsOnScreen(c)
      ensures LineTouches(e)(Point(x, Row(y))) == if OnIdealLine(c, x, y) then 1 else 0
      ensures OnIdealLine(c, x, y) ==> Between(c.y1, y, c.y2)
    {
      LineIsIdealAt(e, Point(x, Row(y)));
      if OnIdealLine(c, x, y) {
        IdealWithinBox(c, x, y);
      }
    }
    if Between(c.y1, y, c.y2) {
      LineIsIdeal(e);
      var x := IdealInRow(c, y);
      assert OnScreen(x, Row(y));
    }
  }

  lemma DrawnColumns(e: Ends, x: int)
    requires ClipLine(e).Kept? && EndsOnScreen(ClipLine(e).ends)
    ensures ColumnDrawn(e, x) <==> ClipLine(e).ends.x1 <= x <= ClipLine(e).ends.x2
  {
    hide ClipLine, LineTouches, OnIdealLine, Unwrapped;
    var c := ClipLine(e).ends;
    VisibleEndsUnwrapped(c);
    LineIsIdeal(e);
    forall y | OnScreen(x, Row(y))
      ensures LineTouches(e)(Point(x, Row(y))) == if OnIdealLine(c, x, y) then 1 else 0
      ensures OnIdealLine(c, x, y) ==> c.x1 <= x <= c.x2
    {
      LineIsIdealAt(e, Point(x, Row(y)));
      if OnIdealLine(c, x, y) {
        IdealWithinBox(c, x, y);
      }
    }
    if c.x1 <= x <= c.x2 {
      var y := IdealInColumn(c, x);
      assert OnScreen(x, Row(y));
    }
  }

  lemma ScaledBetween(a: int, v: int, b: int, w: nat)
    requires 0 < w && Between(a * w, v * w, b * w)
    ensures Between(a, v, b)
  {
    Scaled(w, a, v);
    Scaled(w, v, b);
    Scaled(w, b, v);
    Scaled(w, v, a);
  }

  lemma InRangeScaled(v: int, limit: int, w: nat)
    requires 0 < w && InRange(v * w, limit, w)
    ensures 0 <= v <= limit
  {
    Scaled(w, 0, v);
    Scaled(w, v, limit);
  }

  /** Unless an end is trimmed twice, a line with a visible point is kept, with both ends on
      screen, and every row and every column in which it is visible has a pixel. */
  lemma NothingVisibleDropped(e: Ends)
    requires NoEndTrimmedTwice(e)
    ensures MeetsScreen(e) ==> ClipLine(e).Kept? && EndsOnScreen(ClipLine(e).ends) && ColumnsOnScreen(ClipLine(e).ends)
    ensures forall y :: MeetsRow(e, y) ==> RowDrawn(e, y)
    ensures forall x :: MeetsColumn(e, x) ==> ColumnDrawn(e, x)
  {
    hide ClipLine, NoEndTrimmedTwice, Visible, RowDrawn, ColumnDrawn;
    if MeetsScreen(e) {
      var s: nat, w: nat :| Visible(e, s, w);
      VisiblePointKept(e, s, w);
    }
    forall y | MeetsRow(e, y)
      ensures RowDrawn(e, y)
    {
      var s: nat, w: nat :| Visible(e, s, w) && AlongY(e, s, w) == y * w;
      VisibleRowDrawn(e, s, w, y);
    }
    forall x | MeetsColumn(e, x)
      ensures ColumnDrawn(e, x)
    {
      var s: nat, w: nat :| Visible(e, s, w) && AlongX(e, s, w) == x * w;
      VisibleColumnDrawn(e, s, w, x);
    }
  }

  lemma VisibleRowDrawn(e: Ends, s: nat, w: nat, y: int)
    requires Visible(e, s, w) && NoEndTrimmedTwice(e) && AlongY(e, s, w) == y * w
    ensures RowDrawn(e, y)
  {
    hide ClipLine, NoEndTrimmedTwice, RowDrawn, AlongX, AlongY, Unwrapped;
    VisiblePointKept(e, s, w);
    var c := ClipLine(e).ends;
    ScaledBetween(c.y1, y, c.y2, w);
    InRangeScaled(y, LCD_HEIGHT - 1, w);
    VisibleEndsUnwrapped(c);
    DrawnRows(e, y);
  }

  lemma VisibleColumnDrawn(e: Ends, s: nat, w: nat, x: int)
    requires Visible(e, s, w) && NoEndTrimmedTwice(e) && AlongX(e, s, w) == x * w
    ensures ColumnDrawn(e, x)
  {
    hide ClipLine, NoEndTrimmedTwice, ColumnDrawn, AlongX, AlongY;
    VisiblePointKept(e, s, w);
    var c := ClipLine(e).ends;
    ScaledBetween(c.x1, x, c.x2, w);
    DrawnColumns(e, x);
  }
}
