/** CmdDrawLine of util/cat/ev3_lcd.c (lines 1335-1454) as geometry: clipping in user
    coordinates, and the spots Bresenham's loop visits, against the ideal line. */
module LineGeometry {
  import opened Numbers
  import opened Pixels

  // ----- clipping -----

  datatype Ends = Ends(x1: int, y1: int, x2: int, y2: int)

  datatype Clipped = OffScreen | Kept(ends: Ends)

  /** C's integer division: the quotient is truncated towards zero. */
  function TruncDiv(a: int, b: int): int
    requires b != 0
  {
    if a >= 0 then (if b > 0 then a / b else -(a / -b))
    else (if b > 0 then -(-a / b) else -a / -b)
  }

  function Reverse(e: Ends): Ends { Ends(e.x2, e.y2, e.x1, e.y1) }

  function SortByY(e: Ends): Ends { if e.y1 > e.y2 then Reverse(e) else e }

  function SortByX(e: Ends): Ends { if e.x1 > e.x2 then Reverse(e) else e }

  /** How far the other coordinate moves when an end is cut back by `cut`. */
  function Shift(cut: int, along: int, across: int): int {
    if along != 0 && across != 0 then TruncDiv(cut * across, along) else 0
  }

  function TrimY(e: Ends, dx: int, dy: int): Ends {
    Ends(if e.y1 < 0 then e.x1 + Shift(0 - e.y1, dy, dx) else e.x1,
         if e.y1 < 0 then 0 else e.y1,
         if e.y2 > LCD_HEIGHT - 1 then e.x2 - Shift(e.y2 - (LCD_HEIGHT - 1), dy, dx) else e.x2,
         if e.y2 > LCD_HEIGHT - 1 then LCD_HEIGHT - 1 else e.y2)
  }

  function TrimX(e: Ends, dx: int, dy: int): Ends {
    Ends(if e.x1 < 0 then 0 else e.x1,
         if e.x1 < 0 then e.y1 + Shift(0 - e.x1, dx, dy) else e.y1,
         if e.x2 > LCD_WIDTH - 1 then LCD_WIDTH - 1 else e.x2,
         if e.x2 > LCD_WIDTH - 1 then e.y2 - Shift(e.x2 - (LCD_WIDTH - 1), dx, dy) else e.y2)
  }

  function ClipY(e: Ends): Clipped {
    var s := SortByY(e);
    if s.y2 < 0 || s.y1 >= LCD_HEIGHT then OffScreen else Kept(TrimY(s, e.x2 - e.x1, e.y2 - e.y1))
  }

  function ClipX(e: Ends, dx: int, dy: int): Clipped {
    var s := SortByX(e);
    if s.x2 < 0 || s.x1 >= LCD_WIDTH then OffScreen else Kept(TrimX(s, dx, dy))
  }

  function ClipLine(e: Ends): Clipped {
    var v := ClipY(e);
    if v.OffScreen? then OffScreen else ClipX(v.ends, e.x2 - e.x1, e.y2 - e.y1)
  }

  lemma ShiftReversed(cut: int, along: int, across: int)
    ensures Shift(cut, -along, -across) == Shift(cut, along, across)
  {
    assert cut * -across == -(cut * across);
  }

  /** The direction in which a line is given does not matter. */
  lemma ClipDirectionIndependent(e: Ends)
    ensures ClipLine(Reverse(e)) == ClipLine(e)
  {
    hide Shift;
    var s, dx, dy := SortByY(e), e.x2 - e.x1, e.y2 - e.y1;
    ShiftReversed(0 - s.y1, dy, dx);
    ShiftReversed(s.y2 - (LCD_HEIGHT - 1), dy, dx);
    if ClipY(e).Kept? {
      var h := SortByX(ClipY(e).ends);
      ShiftReversed(0 - h.x1, dx, dy);
      ShiftReversed(h.x2 - (LCD_WIDTH - 1), dx, dy);
    }
  }

  predicate Between(a: int, v: int, b: int) { a <= v <= b || b <= v <= a }

  function Abs(a: int): nat { if a < 0 then -a else a }

  predicate EndsOnScreen(e: Ends) { OnScreen(e.x1, e.y1) && OnScreen(e.x2, e.y2) }

  // ----- truncated shifts -----

  lemma DivisionRemainder(n: int, d: int)
    requires d > 0
    ensures 0 <= n - n / d * d < d
  {
    assert n == d * (n / d) + n % d;
  }

  lemma ProductMonotone(d: int, a: int, b: int)
    requires d >= 0 && a <= b
    ensures d * a <= d * b
  {}

  /** The size of a shift is a quotient rounded down. */
  function ShiftSize(cut: nat, along: int, across: int): (q: int)
    requires along != 0
  {
    cut * Abs(across) / Abs(along)
  }

  lemma ShiftValue(cut: nat, along: int, across: int)
    requires along != 0
    ensures Shift(cut, along, across) ==
      if (along >= 0) == (across >= 0) then ShiftSize(cut, along, across) else -ShiftSize(cut, along, across)
  {
    if across < 0 {
      assert cut * -across == -(cut * across);
    } else if across == 0 {
      assert cut * 0 == 0;
    }
  }

  lemma ShiftSizeBounds(cut: nat, along: int, across: int)
    requires along != 0
    ensures 0 <= cut * Abs(across) - ShiftSize(cut, along, across) * Abs(along) < Abs(along)
    ensures 0 <= ShiftSize(cut, along, across)
  {
    DivisionRemainder(cut * Abs(across), Abs(along));
    ProductMonotone(cut, 0, Abs(across));
  }

  /** A shift is less than one unit from the true line. */
  lemma ShiftRemainder(cut: nat, along: int, across: int)
    requires along != 0
    ensures Abs(Shift(cut, along, across) * along - cut * across) < Abs(along)
  {
    hide Shift, ShiftSize;
    ShiftValue(cut, along, across);
    ShiftSizeBounds(cut, along, across);
    SignedProducts(ShiftSize(cut, along, across), cut, along, across);
  }

  lemma SignedProducts(q: int, cut: nat, along: int, across: int)
    ensures along >= 0 && across >= 0 ==> q * along - cut * across == q * Abs(along) - cut * Abs(across)
    ensures along < 0 && across < 0 ==> q * along - cut * across == -(q * Abs(along) - cut * Abs(across))
    ensures along >= 0 && across < 0 ==> -q * along - cut * across == -(q * Abs(along) - cut * Abs(across))
    ensures along < 0 && across >= 0 ==> -q * along - cut * across == q * Abs(along) - cut * Abs(across)
  {
    assert q * -along == -(q * along) && cut * -across == -(cut * across) && -q * along == -(q * along);
  }

  /** A shift does not reach beyond what the true line does within t steps. */
  lemma ShiftAtMost(cut: nat, along: int, across: int, t: int, room: int)
    requires along != 0 && cut <= t && t * Abs(across) <= room * Abs(along)
    ensures Abs(Shift(cut, along, across)) <= room
  {
    hide Shift, ShiftSize;
    ShiftValue(cut, along, across);
    ShiftSizeBounds(cut, along, across);
    ProductMonotone(Abs(across), cut, t);
    CancelFactor(Abs(along), ShiftSize(cut, along, across), room);
  }

  lemma NextMultiple(d: int, m: int)
    ensures d * (m + 1) == m * d + d
  {}

  lemma CancelFactor(d: int, a: int, b: int)
    requires d > 0 && a * d <= b * d
    ensures a <= b
  {
    if a > b {
      ProductMonotone(d, b + 1, a);
      NextMultiple(d, b);
      assert false;
    }
  }

  /** Cutting an end back by no more than the whole difference moves the other coordinate by a
      share of its whole difference. */
  lemma ShiftIsShare(cut: nat, along: int, across: int)
    requires along != 0 && cut <= Abs(along)
    ensures Between(0, Shift(cut, along, across), if along > 0 then across else -across)
  {
    hide Shift, ShiftSize;
    ShiftAtMost(cut, along, across, Abs(along), Abs(across));
    ShiftValue(cut, along, across);
    ShiftSizeBounds(cut, along, across);
  }

  // ----- clipping, one end at a time -----

  function First(e: Ends): Point { Point(e.x1, e.y1) }

  function Second(e: Ends): Point { Point(e.x2, e.y2) }

  /** Where the vertical trim leaves an end. */
  function TrimRow(e: Ends, p: Point): Point {
    var (dx, dy) := (e.x2 - e.x1, e.y2 - e.y1);
    if p.y < 0 then Point(p.x + Shift(0 - p.y, dy, dx), 0)
    else if p.y > LCD_HEIGHT - 1 then Point(p.x - Shift(p.y - (LCD_HEIGHT - 1), dy, dx), LCD_HEIGHT - 1)
    else p
  }

  /** Where the horizontal trim leaves it. */
  function TrimColumn(e: Ends, p: Point): Point {
    var (dx, dy) := (e.x2 - e.x1, e.y2 - e.y1);
    if p.x < 0 then Point(0, p.y + Shift(0 - p.x, dx, dy))
    else if p.x > LCD_WIDTH - 1 then Point(LCD_WIDTH - 1, p.y - Shift(p.x - (LCD_WIDTH - 1), dx, dy))
    else p
  }

  function TrimEnd(e: Ends, p: Point): Point { TrimColumn(e, TrimRow(e, p)) }

  lemma TrimReversed(e: Ends, p: Point)
    ensures TrimRow(Reverse(e), p) == TrimRow(e, p) && TrimEnd(Reverse(e), p) == TrimEnd(e, p)
  {
    hide Shift;
    var (dx, dy, q) := (e.x2 - e.x1, e.y2 - e.y1, TrimRow(e, p));
    ShiftReversed(0 - p.y, dy, dx);
    ShiftReversed(p.y - (LCD_HEIGHT - 1), dy, dx);
    ShiftReversed(0 - q.x, dx, dy);
    ShiftReversed(q.x - (LCD_WIDTH - 1), dx, dy);
  }

  predicate RowsMeet(e: Ends) { Max(e.y1, e.y2) >= 0 && Min(e.y1, e.y2) < LCD_HEIGHT }

  predicate ColumnsMeet(e: Ends) {
    var (a, b) := (TrimRow(e, First(e)).x, TrimRow(e, Second(e)).x);
    Max(a, b) >= 0 && Min(a, b) < LCD_WIDTH
  }

  predicate SameEnds(c: Ends, a: Point, b: Point) {
    c == Ends(a.x, a.y, b.x, b.y) || c == Ends(b.x, b.y, a.x, a.y)
  }

  lemma ClipYIsTrims(e: Ends)
    ensures ClipY(e).Kept? <==> RowsMeet(e)
    ensures ClipY(e).Kept? ==> SameEnds(ClipY(e).ends, TrimRow(e, First(e)), TrimRow(e, Second(e)))
  {
    hide Shift;
  }

  lemma ClipXIsTrims(e: Ends, v: Ends, a: Point, b: Point)
    requires SameEnds(v, a, b)
    ensures var h := ClipX(v, e.x2 - e.x1, e.y2 - e.y1);
      && (h.Kept? <==> Max(a.x, b.x) >= 0 && Min(a.x, b.x) < LCD_WIDTH)
      && (h.Kept? ==> SameEnds(h.ends, TrimColumn(e, a), TrimColumn(e, b)))
  {
    hide Shift;
  }

  /** Clipping is trimming each end for itself. */
  lemma ClipIsTrims(e: Ends)
    ensures ClipLine(e).Kept? <==> RowsMeet(e) && ColumnsMeet(e)
    ensures ClipLine(e).Kept? ==> SameEnds(ClipLine(e).ends, TrimEnd(e, First(e)), TrimEnd(e, Second(e)))
  {
    hide Shift, ClipY, ClipX, RowsMeet, TrimRow, TrimColumn, SameEnds;
    ClipYIsTrims(e);
    if RowsMeet(e) {
      ClipXIsTrims(e, ClipY(e).ends, TrimRow(e, First(e)), TrimRow(e, Second(e)));
    }
  }

  // ----- distance from the original line -----

  /** Zero on the line through the ends; divided by the longer difference it is the distance in
      pixels, measured along the other axis. */
  function Cross(e: Ends, x: int, y: int): int {
    (y - e.y1) * (e.x2 - e.x1) - (x - e.x1) * (e.y2 - e.y1)
  }

  function Longer(e: Ends): nat { Max(Abs(e.x2 - e.x1), Abs(e.y2 - e.y1)) }

  lemma CrossMoves(e: Ends, x: int, y: int, p: int, q: int)
    ensures Cross(e, x + p, y + q) == Cross(e, x, y) + q * (e.x2 - e.x1) - p * (e.y2 - e.y1)
  {
    CrossDistributes(y - e.y1, x - e.x1, p, q, e.x2 - e.x1, e.y2 - e.y1);
  }

  lemma CrossDistributes(v: int, u: int, p: int, q: int, dx: int, dy: int)
    ensures (v + q) * dx - (u + p) * dy == v * dx - u * dy + q * dx - p * dy
  {}

  lemma CrossReversed(e: Ends, x: int, y: int)
    ensures Cross(Reverse(e), x, y) == -Cross(e, x, y)
  {
    var (dx, dy) := (e.x2 - e.x1, e.y2 - e.y1);
    CrossDistributes(y - e.y1, x - e.x1, -dx, -dy, dx, dy);
    assert ((y - e.y1) - dy) * -dx == -(((y - e.y1) - dy) * dx);
    assert ((x - e.x1) - dx) * -dy == -(((x - e.x1) - dx) * dy);
    assert -dy * dx - -dx * dy == 0;
  }

  /** An end of the clipped line is less than one pixel, in the coordinate that was
      computed, away from the line through the original ends. */
  predicate NearLine(x: int, y: int, e: Ends) {
    var cross := Abs(Cross(e, x, y));
    cross == 0 || cross < Abs(e.x2 - e.x1) || cross < Abs(e.y2 - e.y1)
  }

  lemma RowTrimCross(e: Ends, p: Point)
    requires TrimRow(e, p) == p || e.y1 != e.y2
    ensures var q := TrimRow(e, p);
      q == p || Abs(Cross(e, q.x, q.y) - Cross(e, p.x, p.y)) < Abs(e.y2 - e.y1)
  {
    hide Shift, Cross;
    var (dx, dy, q) := (e.x2 - e.x1, e.y2 - e.y1, TrimRow(e, p));
    if p.y < 0 {
      ShiftRemainder(0 - p.y, dy, dx);
    } else if p.y > LCD_HEIGHT - 1 {
      ShiftRemainder(p.y - (LCD_HEIGHT - 1), dy, dx);
      assert (q.x - p.x) * dy == -((p.x - q.x) * dy) && (q.y - p.y) * dx == -((p.y - q.y) * dx);
    }
    CrossMoves(e, p.x, p.y, q.x - p.x, q.y - p.y);
  }

  lemma ColumnTrimCross(e: Ends, p: Point)
    requires TrimColumn(e, p) == p || e.x1 != e.x2
    ensures var q := TrimColumn(e, p);
      q == p || Abs(Cross(e, q.x, q.y) - Cross(e, p.x, p.y)) < Abs(e.x2 - e.x1)
  {
    hide Shift, Cross;
    var (dx, dy, q) := (e.x2 - e.x1, e.y2 - e.y1, TrimColumn(e, p));
    if p.x < 0 {
      ShiftRemainder(0 - p.x, dx, dy);
    } else if p.x > LCD_WIDTH - 1 {
      ShiftRemainder(p.x - (LCD_WIDTH - 1), dx, dy);
      assert (q.x - p.x) * dy == -((p.x - q.x) * dy) && (q.y - p.y) * dx == -((p.y - q.y) * dx);
    }
    CrossMoves(e, p.x, p.y, q.x - p.x, q.y - p.y);
  }

  /** The code computes an end twice: it is cut off at a horizontal and at a vertical border. */
  predicate TrimmedTwice(e: Ends, p: Point) {
    !(0 <= p.y < LCD_HEIGHT) && !(0 <= TrimRow(e, p).x < LCD_WIDTH)
  }

  predicate NoEndTrimmedTwice(e: Ends) { !TrimmedTwice(e, First(e)) && !TrimmedTwice(e, Second(e)) }

  lemma TrimNeedsDifference(e: Ends)
    requires RowsMeet(e) && ColumnsMeet(e)
    ensures TrimRow(e, First(e)) == First(e) || e.y1 != e.y2
    ensures TrimEnd(e, First(e)) == TrimRow(e, First(e)) || e.x1 != e.x2
  {
    if e.x1 == e.x2 {
      assert TrimRow(e, First(e)).x == e.x1 && TrimRow(e, Second(e)).x == e.x2;
    }
  }

  /** How far an end that is kept can be from the original line: the sum of the differences if
      it was trimmed twice, otherwise less than one pixel. */
  lemma FirstEndNear(e: Ends)
    requires RowsMeet(e) && ColumnsMeet(e)
    ensures var p := TrimEnd(e, First(e));
      && Abs(Cross(e, p.x, p.y)) <= Abs(e.x2 - e.x1) + Abs(e.y2 - e.y1)
      && (!TrimmedTwice(e, First(e)) ==> NearLine(p.x, p.y, e))
  {
    hide Shift, Cross;
    TrimNeedsDifference(e);
    RowTrimCross(e, First(e));
    ColumnTrimCross(e, TrimRow(e, First(e)));
    OnOwnLine(e);
  }

  lemma OnOwnLine(e: Ends)
    ensures Cross(e, e.x1, e.y1) == 0
  {}

  lemma KeptReversed(e: Ends)
    ensures RowsMeet(Reverse(e)) == RowsMeet(e) && ColumnsMeet(Reverse(e)) == ColumnsMeet(e)
    ensures TrimmedTwice(Reverse(e), Second(e)) == TrimmedTwice(e, Second(e))
    ensures TrimRow(Reverse(e), Second(e)) == TrimRow(e, Second(e))
    ensures TrimEnd(Reverse(e), Second(e)) == TrimEnd(e, Second(e))
  {
    hide Shift;
    TrimReversed(e, First(e));
    TrimReversed(e, Second(e));
  }

  /** For every line that is kept, both clipped ends are at most two pixels from the original
      line; ends that were not trimmed twice are less than one pixel from it. */
  lemma ClippedEndsNear(e: Ends)
    requires ClipLine(e).Kept?
    ensures var (c, bound) := (ClipLine(e).ends, Abs(e.x2 - e.x1) + Abs(e.y2 - e.y1));
      Abs(Cross(e, c.x1, c.y1)) <= bound && Abs(Cross(e, c.x2, c.y2)) <= bound
    ensures NoEndTrimmedTwice(e) ==>
      var c := ClipLine(e).ends; NearLine(c.x1, c.y1, e) && NearLine(c.x2, c.y2, e)
  {
    hide Shift, Cross, TrimEnd, TrimRow;
    ClipIsTrims(e);
    KeptReversed(e);
    FirstEndNear(e);
    FirstEndNear(Reverse(e));
    CrossReversed(e, TrimEnd(e, Second(e)).x, TrimEnd(e, Second(e)).y);
  }

  // ----- the box of the original ends -----

  lemma RowTrimInBox(e: Ends)
    requires RowsMeet(e)
    ensures Between(e.x1, TrimRow(e, First(e)).x, e.x2) && Between(e.y1, TrimRow(e, First(e)).y, e.y2)
  {
    hide Shift;
    var (dx, dy) := (e.x2 - e.x1, e.y2 - e.y1);
    if e.y1 < 0 {
      ShiftIsShare(0 - e.y1, dy, dx);
    } else if e.y1 > LCD_HEIGHT - 1 {
      ShiftIsShare(e.y1 - (LCD_HEIGHT - 1), dy, dx);
    }
  }

  lemma FirstEndInBox(e: Ends)
    requires RowsMeet(e) && ColumnsMeet(e) && !TrimmedTwice(e, First(e))
    ensures var p := TrimEnd(e, First(e)); Between(e.x1, p.x, e.x2) && Between(e.y1, p.y, e.y2)
  {
    hide Shift;
    var (dx, dy) := (e.x2 - e.x1, e.y2 - e.y1);
    RowTrimInBox(e);
    RowTrimInBox(Reverse(e));
    KeptReversed(e);
    var p := TrimRow(e, First(e));
    if p.x < 0 {
      ShiftIsShare(0 - p.x, dx, dy);
    } else if p.x > LCD_WIDTH - 1 {
      ShiftIsShare(p.x - (LCD_WIDTH - 1), dx, dy);
    }
  }

  predicate WithinBox(c: Ends, e: Ends) {
    && Between(e.x1, c.x1, e.x2) && Between(e.x1, c.x2, e.x2)
    && Between(e.y1, c.y1, e.y2) && Between(e.y1, c.y2, e.y2)
  }

  lemma ClippedInBox(e: Ends)
    requires ClipLine(e).Kept? && NoEndTrimmedTwice(e)
    ensures WithinBox(ClipLine(e).ends, e)
  {
    hide Shift, TrimEnd, TrimRow;
    ClipIsTrims(e);
    KeptReversed(e);
    FirstEndInBox(e);
    FirstEndInBox(Reverse(e));
  }

  predicate OnlyOneAxis(e: Ends) {
    (0 <= e.x1 < LCD_WIDTH && 0 <= e.x2 < LCD_WIDTH) || (0 <= e.y1 < LCD_HEIGHT && 0 <= e.y2 < LCD_HEIGHT)
  }

  predicate BothBeyond(e: Ends) {
    || (e.x1 < 0 && e.x2 < 0) || (e.x1 >= LCD_WIDTH && e.x2 >= LCD_WIDTH)
    || (e.y1 < 0 && e.y2 < 0) || (e.y1 >= LCD_HEIGHT && e.y2 >= LCD_HEIGHT)
  }

  lemma OneAxisTrims(e: Ends)
    requires OnlyOneAxis(e) && RowsMeet(e)
    ensures NoEndTrimmedTwice(e) && (ColumnsMeet(e) <==> !BothBeyond(e))
  {
    hide Shift;
    RowTrimInBox(e);
    RowTrimInBox(Reverse(e));
    KeptReversed(e);
  }

  lemma FirstOnScreen(e: Ends)
    requires OnlyOneAxis(e) && RowsMeet(e) && ColumnsMeet(e)
    ensures OnScreen(TrimEnd(e, First(e)).x, TrimEnd(e, First(e)).y)
  {
    hide Shift;
    OneAxisTrims(e);
    FirstEndInBox(e);
    RowTrimInBox(e);
  }

  /** When only one axis needs clipping, no end is trimmed twice, and the line is dropped exactly
      if both ends lie beyond one border; otherwise the clipped ends are on screen. */
  lemma ClipSingleAxis(e: Ends)
    requires OnlyOneAxis(e)
    ensures ClipLine(e).OffScreen? <==> BothBeyond(e)
    ensures ClipLine(e).Kept? ==>
      var c := ClipLine(e).ends;
      && NoEndTrimmedTwice(e) && EndsOnScreen(c) && c.x1 <= c.x2 && WithinBox(c, e)
      && NearLine(c.x1, c.y1, e) && NearLine(c.x2, c.y2, e)
  {
    hide ClipLine, TrimEnd, TrimRow, ColumnsMeet, TrimmedTwice, NearLine, WithinBox;
    ClipIsTrims(e);
    if RowsMeet(e) {
      OneAxisTrims(e);
    }
    if ClipLine(e).Kept? {
      KeptReversed(e);
      FirstOnScreen(e);
      FirstOnScreen(Reverse(e));
      ClippedEndsNear(e);
      ClippedInBox(e);
      ClippedColumns(e);
    }
  }

  /** Whatever the line, the clipped columns are on screen, and a clipped line that is
      horizontal lies on a screen row. */
  lemma ClippedColumns(e: Ends)
    requires ClipLine(e).Kept?
    ensures var c := ClipLine(e).ends;
      0 <= c.x1 <= c.x2 < LCD_WIDTH && (c.y1 == c.y2 ==> 0 <= c.y1 < LCD_HEIGHT)
  {
    hide Shift;
    var dx, dy := e.x2 - e.x1, e.y2 - e.y1;
    var v := ClipY(e).ends;
    var h := SortByX(v);
    assert 0 <= h.y1 < LCD_HEIGHT && 0 <= h.y2 < LCD_HEIGHT;
    if h.x1 < 0 { ShiftSign(0 - h.x1, dx, dy); }
    if h.x2 > LCD_WIDTH - 1 { ShiftSign(h.x2 - (LCD_WIDTH - 1), dx, dy); }
  }

  lemma ShiftSign(cut: int, along: int, across: int)
    requires cut > 0
    ensures (along >= 0) == (across >= 0) ==> Shift(cut, along, across) >= 0
    ensures (along >= 0) != (across >= 0) ==> Shift(cut, along, across) <= 0
  {
    if along != 0 && across != 0 {
      ProductSign(cut, across);
      TruncDivSign(cut * across, along);
    }
  }

  lemma ProductSign(cut: int, across: int)
    requires cut > 0
    ensures cut * across >= 0 <==> across >= 0
  {}

  lemma TruncDivSign(n: int, d: int)
    requires d != 0
    ensures (n >= 0) == (d >= 0) ==> TruncDiv(n, d) >= 0
    ensures (n >= 0) != (d >= 0) ==> TruncDiv(n, d) <= 0
  {}
}
