/** What CmdDrawLine draws once the ends are clipped (util/cat/ev3_lcd.c:1393-1453): the
    spots of Bresenham's loop, and the proof that on screen they are the ideal line. */
module Strokes {
  import opened Bytes
  import opened Numbers
  import opened Pixels
  import opened LineGeometry

  // ----- coordinates handed to the display -----

  /** Conversion of an int argument to a byte parameter. */
  function ToByte(n: int): Byte { n % 256 }

  lemma SmallToByte(n: int)
    requires 0 <= n < 256
    ensures ToByte(n) == n
  {}

  /** The display row of a user coordinate (TRANSLATE_Y). */
  function Row(y: int): int { LCD_HEIGHT - 1 - y }

  function Dot(x: int, y: int): Touches { (p: Point) => if OnScreen(x, y) && p == Point(x, y) then 1 else 0 }

  function Region(x1: int, y1: int, x2: int, y2: int): Touches {
    (p: Point) => if x1 <= p.x <= x2 && y1 <= p.y <= y2 then 1 else 0
  }

  /** DisplayLineX: bytes in either order, columns past the screen cut off. */
  function RowTouches(x1: Byte, x2: Byte, y: Byte): Touches {
    if y > LCD_HEIGHT then Nowhere() else Region(Min(x1, x2), y, Min(Max(x1, x2), LCD_WIDTH - 1), y)
  }

  /** DisplayLineY: bytes in either order, rows past the screen cut off. */
  function ColumnTouches(x: Byte, y1: Byte, y2: Byte): Touches {
    if x > LCD_WIDTH then Nowhere() else Region(x, Min(y1, y2), x, Min(Max(y1, y2), LCD_HEIGHT - 1))
  }

  // ----- the spots of the loop -----

  function Sign(a: int): int { if a < 0 then -1 else 1 }

  predicate XDominant(c: Ends) { c.x2 - c.x1 > Abs(c.y2 - c.y1) }

  function Major(c: Ends): nat
    requires c.x1 <= c.x2
  {
    if XDominant(c) then c.x2 - c.x1 else Abs(c.y2 - c.y1)
  }

  function Minor(c: Ends): nat
    requires c.x1 <= c.x2
  {
    if XDominant(c) then Abs(c.y2 - c.y1) else c.x2 - c.x1
  }

  /** k * minor / major, rounded to the nearest integer. */
  function Rounded(minor: nat, major: nat, k: nat): int
    requires major > 0
  {
    (2 * minor * k + major) / (2 * major)
  }

  /** The k-th spot of a line that is not a single point. */
  function Spot(c: Ends, k: nat): Point
    requires c.x1 <= c.x2 && Major(c) > 0
  {
    var j := Rounded(Minor(c), Major(c), k);
    if XDominant(c) then Point(c.x1 + k, c.y1 + Sign(c.y2 - c.y1) * j)
    else Point(c.x1 + j, c.y1 + Sign(c.y2 - c.y1) * k)
  }

  function ScreenDot(q: Point): Touches { Dot(ToByte(q.x), ToByte(Row(q.y))) }

  /** How often the first n spots land on p. */
  function VisitCount(c: Ends, n: nat, p: Point): nat
    requires c.x1 <= c.x2 && Major(c) > 0
  {
    if n == 0 then 0 else VisitCount(c, n - 1, p) + ScreenDot(Spot(c, n - 1))(p)
  }

  function Visits(c: Ends, n: nat): Touches
    requires c.x1 <= c.x2 && Major(c) > 0
  {
    (p: Point) => VisitCount(c, n, p)
  }

  /** Everything CmdDrawLine draws for clipped ends. */
  function StrokeTouches(c: Ends): Touches
    requires c.x1 <= c.x2
  {
    if c.x1 == c.x2 then
      if c.y1 == c.y2 then ScreenDot(Point(c.x1, c.y1))
      else ColumnTouches(ToByte(c.x1), ToByte(Row(c.y1)), ToByte(Row(c.y2)))
    else if c.y1 == c.y2 then RowTouches(ToByte(c.x1), ToByte(c.x2), ToByte(Row(c.y1)))
    else Visits(c, Major(c) + 1)
  }

  function LineTouches(e: Ends): Touches {
    var c := ClipLine(e);
    if c.Kept? && c.ends.x1 <= c.ends.x2 then StrokeTouches(c.ends) else Nowhere()
  }

  // ----- the decision variable -----

  /** Bresenham's invariant after k major and j minor steps: within half a pixel. */
  predicate HalfPixel(minor: int, major: int, k: int, j: int) { InHalf(major, minor * k, major * j) }

  predicate InHalf(major: int, p: int, q: int) { -major <= 2 * (p - q) < major }

  lemma HalfPixelIsRounded(minor: nat, major: nat, k: nat, j: int)
    requires major > 0
    ensures HalfPixel(minor, major, k, j) <==> j == Rounded(minor, major, k)
  {
    var n := 2 * minor * k + major;
    var q := n / (2 * major);
    DivisionRemainder(n, 2 * major);
    HalfPixelAsBound(minor, major, k, j);
    HalfPixelAsBound(minor, major, k, q);
    if HalfPixel(minor, major, k, j) {
      QuotientUnique(n, 2 * major, j, q);
    }
  }

  lemma HalfPixelAsBound(minor: nat, major: nat, k: int, j: int)
    ensures HalfPixel(minor, major, k, j) <==> 0 <= (2 * minor * k + major) - j * (2 * major) < 2 * major
  {
    assert 2 * minor * k == 2 * (minor * k) && j * (2 * major) == 2 * (major * j);
  }

  lemma QuotientUnique(n: int, d: int, p: int, q: int)
    requires 0 <= n - p * d < d && 0 <= n - q * d < d
    ensures p == q
  {
    assert (p - q) * d == p * d - q * d;
    SmallMultiple(p - q, d);
  }

  lemma SmallMultiple(m: int, d: int)
    requires -d < m * d < d
    ensures m == 0
  {
    if m >= 1 {
      ProductMonotone(d, 1, m);
    } else if m <= -1 {
      ProductMonotone(d, m, -1);
    }
  }

  /** The sign of d decides whether the minor coordinate advances; either way the next spot
      is within half a pixel and d is again its decision value. */
  lemma DecisionStep(minor: nat, major: nat, k: nat, j: int, d: int)
    requires minor <= major && HalfPixel(minor, major, k, j)
    requires d == 2 * (minor * (k + 1)) - 2 * (major * j) - major
    ensures var j' := if d >= 0 then j + 1 else j;
      var d' := (if d >= 0 then d - 2 * major else d) + 2 * minor;
      && HalfPixel(minor, major, k + 1, j')
      && d' == 2 * (minor * (k + 1 + 1)) - 2 * (major * j') - major
  {
    hide InHalf;
    NextMultiple(minor, k);
    NextMultiple(minor, k + 1);
    NextMultiple(major, j);
    DecisionOfProducts(minor, major, minor * k, major * j, d);
  }

  lemma DecisionOfProducts(minor: nat, major: nat, p: int, q: int, d: int)
    requires minor <= major && InHalf(major, p, q) && d == 2 * (p + minor) - 2 * q - major
    ensures InHalf(major, p + minor, if d >= 0 then q + major else q)
  {}

  /** The last spot is the far end. */
  lemma LastSpot(c: Ends)
    requires c.x1 <= c.x2 && Major(c) > 0
    ensures Spot(c, 0) == Point(c.x1, c.y1) && Spot(c, Major(c)) == Point(c.x2, c.y2)
  {
    var minor, major := Minor(c), Major(c);
    assert minor * major - major * minor == 0;
    HalfPixelIsRounded(minor, major, 0, 0);
    HalfPixelIsRounded(minor, major, major, minor);
  }

  // ----- on screen, the spots are the ideal line, each visited once -----

  /** The ideal line in user coordinates, without rounding functions: for every step along
      the longer axis, the pixel within half a pixel of the true line. */
  predicate OnIdealLine(c: Ends, x: int, y: int)
    requires c.x1 <= c.x2
  {
    var up := Sign(c.y2 - c.y1) * (y - c.y1);
    if Major(c) == 0 then x == c.x1 && y == c.y1
    else if XDominant(c) then
      0 <= x - c.x1 <= Major(c) && HalfPixel(Minor(c), Major(c), x - c.x1, up)
    else
      0 <= up <= Major(c) && HalfPixel(Minor(c), Major(c), up, x - c.x1)
  }

  function IdealTouches(c: Ends): Touches
    requires c.x1 <= c.x2
  {
    (p: Point) => if OnScreen(p.x, p.y) && OnIdealLine(c, p.x, Row(p.y)) then 1 else 0
  }

  /** The only step that can visit p. */
  function StepOf(c: Ends, p: Point): int {
    if XDominant(c) then p.x - c.x1 else Sign(c.y2 - c.y1) * (Row(p.y) - c.y1)
  }

  lemma RoundedBetween(minor: nat, major: nat, k: nat)
    requires minor <= major && 0 < major && k <= major
    ensures 0 <= Rounded(minor, major, k) <= minor
  {
    var j := Rounded(minor, major, k);
    HalfPixelIsRounded(minor, major, k, j);
    if j < 0 {
      ProductMonotone(major, j, -1);
      assert false;
    } else if j > minor {
      ProductMonotone(major, minor + 1, j);
      ProductMonotone(minor, k, major);
      NextMultiple(major, minor);
      assert false;
    }
  }

  lemma SpotBetween(c: Ends, k: nat)
    requires c.x1 <= c.x2 && Major(c) > 0 && k <= Major(c)
    ensures var q := Spot(c, k);
      c.x1 <= q.x <= c.x2 && Between(c.y1, q.y, c.y2) && StepOf(c, Point(q.x, Row(q.y))) == k
  {
    hide Rounded;
    RoundedBetween(Minor(c), Major(c), k);
  }

  predicate ColumnsOnScreen(c: Ends) { 0 <= c.x1 <= c.x2 < LCD_WIDTH }

  /** A row off the screen that, cut down to a byte, is a row of the screen. */
  predicate Wraps(y: int) { !(0 <= y < LCD_HEIGHT) && y % 256 < LCD_HEIGHT }

  ghost predicate RowsUnwrapped(c: Ends) { forall y :: Between(c.y1, y, c.y2) ==> !Wraps(y) }

  lemma RowAsByte(y: int)
    ensures 0 <= y < LCD_HEIGHT ==> ToByte(Row(y)) == Row(y) && !Wraps(y)
    ensures !(0 <= y < LCD_HEIGHT) ==> (Wraps(y) <==> ToByte(Row(y)) < LCD_HEIGHT)
  {}

  lemma UnwrappedDot(q: Point, p: Point)
    requires 0 <= q.x < LCD_WIDTH && !Wraps(q.y)
    ensures ScreenDot(q)(p) == if OnScreen(p.x, p.y) && p == Point(q.x, Row(q.y)) then 1 else 0
  {
    hide Wraps, ToByte;
    SmallToByte(q.x);
    RowAsByte(q.y);
  }

  lemma {:induction false} VisitedOnce(c: Ends, n: nat, p: Point)
    requires ColumnsOnScreen(c) && RowsUnwrapped(c) && Major(c) > 0 && n <= Major(c) + 1
    ensures VisitCount(c, n, p) ==
      var k := StepOf(c, p);
      if OnScreen(p.x, p.y) && 0 <= k < n && p == Point(Spot(c, k).x, Row(Spot(c, k).y)) then 1 else 0
  {
    hide Spot, StepOf, ScreenDot;
    if n > 0 {
      VisitedOnce(c, n - 1, p);
      SpotBetween(c, n - 1);
      UnwrappedDot(Spot(c, n - 1), p);
    }
  }

  lemma SpotIffIdeal(c: Ends, p: Point)
    requires c.x1 <= c.x2 && Major(c) > 0
    ensures OnIdealLine(c, p.x, Row(p.y)) <==>
      var k := StepOf(c, p); 0 <= k <= Major(c) && p == Point(Spot(c, k).x, Row(Spot(c, k).y))
  {
    hide Rounded, HalfPixel;
    var k := StepOf(c, p);
    if 0 <= k {
      var j := if XDominant(c) then Sign(c.y2 - c.y1) * (Row(p.y) - c.y1) else p.x - c.x1;
      HalfPixelIsRounded(Minor(c), Major(c), k, j);
    }
  }

  lemma UnwrappedIsIdeal(c: Ends)
    requires ColumnsOnScreen(c) && RowsUnwrapped(c) && c.x1 != c.x2 && c.y1 != c.y2
    ensures SameTouches(StrokeTouches(c), IdealTouches(c))
  {
    hide VisitCount, Spot, StepOf, OnIdealLine, RowsUnwrapped;
    forall x, y | InBuffer(x, y)
      ensures StrokeTouches(c)(Point(x, y)) == IdealTouches(c)(Point(x, y))
    {
      VisitedOnce(c, Major(c) + 1, Point(x, y));
      SpotIffIdeal(c, Point(x, y));
    }
  }

  // ----- rows that wrap around -----

  /** The loop reaches every value of the minor coordinate. */
  lemma MinorReached(minor: nat, major: nat, j: nat) returns (k: nat)
    requires j <= minor <= major && 0 < major
    ensures k <= major && Rounded(minor, major, k) == j
  {
    hide Rounded, HalfPixel;
    k := 0;
    if j == 0 {
      FirstHalfPixel(minor, major);
    } else {
      k := RoundedUp(major * (2 * j - 1), 2 * minor);
      ReachedInTime(minor, major, j, k);
      ReachedHalfPixel(minor, major, j, k);
    }
    HalfPixelIsRounded(minor, major, k, j);
  }

  lemma FirstHalfPixel(minor: nat, major: nat)
    requires 0 < major
    ensures HalfPixel(minor, major, 0, 0)
  {}

  /** The quotient rounded up. */
  lemma RoundedUp(n: nat, d: nat) returns (k: nat)
    requires d > 0
    ensures n <= k * d < n + d
  {
    k := (n + d - 1) / d;
    DivisionRemainder(n + d - 1, d);
  }

  lemma ReachedInTime(minor: nat, major: nat, j: nat, k: nat)
    requires 0 < j <= minor && k * (2 * minor) < major * (2 * j - 1) + 2 * minor
    ensures k <= major
  {
    if k > major {
      ProductMonotone(2 * minor, major + 1, k);
      NextMultiple(2 * minor, major);
      ProductMonotone(major, 2 * j - 1, 2 * minor);
      assert false;
    }
  }

  lemma ReachedHalfPixel(minor: nat, major: nat, j: nat, k: nat)
    requires minor <= major && major * (2 * j - 1) <= k * (2 * minor) < major * (2 * j - 1) + 2 * minor
    ensures HalfPixel(minor, major, k, j)
  {
    assert major * (2 * j - 1) == 2 * (major * j) - major && k * (2 * minor) == 2 * (minor * k);
  }

  /** Every row between the ends has a spot. */
  lemma RowHit(c: Ends, y: int) returns (k: nat)
    requires c.x1 <= c.x2 && Major(c) > 0 && Between(c.y1, y, c.y2)
    ensures k <= Major(c) && Spot(c, k).y == y
  {
    hide Rounded;
    k := Abs(y - c.y1);
    if XDominant(c) {
      k := MinorReached(Minor(c), Major(c), k);
    }
  }

  /** Every column between the ends has a spot. */
  lemma ColumnHit(c: Ends, x: int) returns (k: nat)
    requires c.x1 <= x <= c.x2 && Major(c) > 0
    ensures k <= Major(c) && Spot(c, k).x == x
  {
    hide Rounded;
    k := x - c.x1;
    if !XDominant(c) {
      k := MinorReached(Minor(c), Major(c), k);
    }
  }

  /** The dots of different steps add up. */
  lemma {:induction false} VisitsAddUp(c: Ends, n: nat, p: Point, i: nat, k: nat)
    requires c.x1 <= c.x2 && Major(c) > 0 && i < n && k < n
    ensures VisitCount(c, n, p) >= ScreenDot(Spot(c, k))(p)
    ensures i != k ==> VisitCount(c, n, p) >= ScreenDot(Spot(c, i))(p) + ScreenDot(Spot(c, k))(p)
    decreases n
  {
    hide Spot, ScreenDot;
    if i < n - 1 || k < n - 1 {
      VisitsAddUp(c, n - 1, p, if i < n - 1 then i else k, if k < n - 1 then k else i);
    }
  }

  /** A spot whose row wraps around puts a dot where no ideal line has one, or a second dot on
      the ideal line. */
  lemma WrappedSpotShows(c: Ends, y: int)
    requires ColumnsOnScreen(c) && c.x1 != c.x2 && c.y1 != c.y2 && Between(c.y1, y, c.y2) && Wraps(y)
    ensures !SameTouches(StrokeTouches(c), IdealTouches(c))
  {
    hide Spot, ScreenDot, OnIdealLine, StepOf, VisitCount;
    var k := RowHit(c, y);
    SpotBetween(c, k);
    var p := Point(Spot(c, k).x, ToByte(Row(y)));
    WrappedDot(Spot(c, k));
    SpotIffIdeal(c, p);
    var i := StepOf(c, p);
    if OnIdealLine(c, p.x, Row(p.y)) {
      VisitsAddUp(c, Major(c) + 1, p, i, k);
      SpotBetween(c, i);
      UnwrappedDot(Spot(c, i), p);
    } else {
      VisitsAddUp(c, Major(c) + 1, p, k, k);
    }
    assert StrokeTouches(c)(Point(p.x, p.y)) != IdealTouches(c)(Point(p.x, p.y));
  }

  lemma WrappedDot(q: Point)
    requires 0 <= q.x < LCD_WIDTH && Wraps(q.y)
    ensures var p := Point(q.x, ToByte(Row(q.y))); OnScreen(p.x, p.y) && ScreenDot(q)(p) == 1 && Row(p.y) != q.y
  {
    SmallToByte(q.x);
    RowAsByte(q.y);
  }

  /** Either the rows stay within 128 rows of the screen, or within the upper half of another
      block of 256 rows. */
  lemma UnwrappedRange(c: Ends)
    ensures var (low, high) := (Min(c.y1, c.y2), Max(c.y1, c.y2));
      RowsUnwrapped(c) <==> (-128 <= low && high <= 255) || (low / 256 == high / 256 && low % 256 >= 128)
  {
    var (low, high) := (Min(c.y1, c.y2), Max(c.y1, c.y2));
    if RowsUnwrapped(c) {
      var next := (low / 256 + 1) * 256;
      assert Between(c.y1, low, c.y2) && (high >= 256 && low <= 256 ==> Between(c.y1, 256, c.y2));
      assert next <= high ==> Between(c.y1, next, c.y2);
    }
  }

  /** The rows between two byte rows that are on the screen are the visible rows from top to
      bottom: both ranges miss the screen, or they start and stop at the same visible rows. */
  predicate RowsAgree(low: int, high: int, top: int, bottom: int) {
    if bottom < 0 || top >= LCD_HEIGHT then low >= LCD_HEIGHT
    else low == Max(top, 0) && Min(high, LCD_HEIGHT - 1) == Min(bottom, LCD_HEIGHT - 1)
  }

  /** A vertical line is drawn between two byte rows. */
  predicate ColumnUnwrapped(c: Ends) {
    var (top, bottom) := (Row(Max(c.y1, c.y2)), Row(Min(c.y1, c.y2)));
    RowsAgree(Min(ToByte(top), ToByte(bottom)), Max(ToByte(top), ToByte(bottom)), top, bottom)
  }

  ghost predicate Unwrapped(c: Ends) {
    if c.x1 == c.x2 && c.y1 != c.y2 then ColumnUnwrapped(c) else RowsUnwrapped(c)
  }

  lemma VisibleEndsUnwrapped(c: Ends)
    requires EndsOnScreen(c)
    ensures Unwrapped(c)
  {
    hide ToByte;
    SmallToByte(Row(c.y1));
    SmallToByte(Row(c.y2));
  }

  /** Bresenham exactness: every visible pixel of the ideal line is visited exactly once and no
      other pixel is, whichever routine draws it, if and only if no row wraps around. */
  lemma StrokeIsIdeal(c: Ends)
    requires ColumnsOnScreen(c)
    ensures SameTouches(StrokeTouches(c), IdealTouches(c)) <==> Unwrapped(c)
  {
    hide StrokeTouches, IdealTouches, SameTouches, ColumnUnwrapped, Wraps;
    if c.y1 == c.y2 {
      FlatIsIdeal(c);
    } else if c.x1 == c.x2 {
      ColumnIsIdeal(c);
    } else if RowsUnwrapped(c) {
      UnwrappedIsIdeal(c);
    } else {
      var y :| Between(c.y1, y, c.y2) && Wraps(y);
      WrappedSpotShows(c, y);
    }
  }

  lemma StraightAt(c: Ends, p: Point)
    requires c.x1 <= c.x2 && (c.x1 == c.x2 || c.y1 == c.y2)
    ensures IdealTouches(c)(p) ==
      if OnScreen(p.x, p.y) && c.x1 <= p.x <= c.x2 && Between(c.y1, Row(p.y), c.y2) then 1 else 0
  {
    hide OnIdealLine;
    StraightIdeal(c, p.x, Row(p.y));
  }

  /** What a point or a horizontal line touches. */
  lemma FlatStroke(c: Ends, p: Point)
    requires ColumnsOnScreen(c) && c.y1 == c.y2 && InBuffer(p.x, p.y)
    ensures StrokeTouches(c)(p) == if c.x1 <= p.x <= c.x2 && p.y == ToByte(Row(c.y1)) then 1 else 0
  {
    hide ToByte, Visits;
    SmallToByte(c.x1);
    SmallToByte(c.x2);
  }

  lemma FlatIsIdeal(c: Ends)
    requires ColumnsOnScreen(c) && c.y1 == c.y2
    ensures SameTouches(StrokeTouches(c), IdealTouches(c)) <==> RowsUnwrapped(c)
  {
    hide StrokeTouches, IdealTouches, ToByte, Wraps;
    var (row, b) := (Row(c.y1), ToByte(Row(c.y1)));
    RowAsByte(c.y1);
    assert RowsUnwrapped(c) <==> !Wraps(c.y1);
    hide RowsUnwrapped;
    forall x, y | InBuffer(x, y)
      ensures StrokeTouches(c)(Point(x, y)) == IdealTouches(c)(Point(x, y)) <==>
        !(c.x1 <= x <= c.x2) || (y == b <==> y == row)
    {
      FlatStroke(c, Point(x, y));
      StraightAt(c, Point(x, y));
      assert c.x1 <= x <= c.x2 ==> OnScreen(x, y);
    }
    if b < LCD_HEIGHT && b != row {
      assert StrokeTouches(c)(Point(c.x1, b)) != IdealTouches(c)(Point(c.x1, b));
    }
  }

  /** Two ranges of rows have the same visible part. */
  lemma SameRows(low: int, high: int, top: int, bottom: int)
    requires 0 <= low <= high && top <= bottom
    ensures (forall r :: 0 <= r < LCD_HEIGHT ==> (Between(low, r, high) <==> Between(top, r, bottom)))
      <==> RowsAgree(low, high, top, bottom)
  {
    if forall r :: 0 <= r < LCD_HEIGHT ==> (Between(low, r, high) <==> Between(top, r, bottom)) {
      var last := LCD_HEIGHT - 1;
      assert low <= last ==> Between(low, low, high) && Between(low, Min(high, last), high);
      assert 0 <= bottom && top <= last ==>
        Between(top, Max(top, 0), bottom) && Between(top, Min(bottom, last), bottom);
    }
  }

  /** What the vertical line routine touches. */
  lemma ColumnStroke(c: Ends, p: Point)
    requires ColumnsOnScreen(c) && c.x1 == c.x2 && c.y1 != c.y2 && InBuffer(p.x, p.y)
    ensures StrokeTouches(c)(p) == if p.x == c.x1 && Between(ToByte(Row(c.y1)), p.y, ToByte(Row(c.y2))) then 1 else 0
  {
    hide ToByte;
    SmallToByte(c.x1);
  }

  lemma ColumnIsIdeal(c: Ends)
    requires ColumnsOnScreen(c) && c.x1 == c.x2 && c.y1 != c.y2
    ensures SameTouches(StrokeTouches(c), IdealTouches(c)) <==> ColumnUnwrapped(c)
  {
    hide StrokeTouches, IdealTouches, ToByte, RowsAgree;
    var (top, bottom) := (Row(Max(c.y1, c.y2)), Row(Min(c.y1, c.y2)));
    var (low, high) := (Min(ToByte(top), ToByte(bottom)), Max(ToByte(top), ToByte(bottom)));
    SameRows(low, high, top, bottom);
    forall x, y | InBuffer(x, y)
      ensures StrokeTouches(c)(Point(x, y)) == IdealTouches(c)(Point(x, y)) <==>
        x != c.x1 || (Between(low, y, high) <==> Between(top, y, bottom))
    {
      ColumnStroke(c, Point(x, y));
      StraightAt(c, Point(x, y));
    }
    if SameTouches(StrokeTouches(c), IdealTouches(c)) {
      forall r | 0 <= r < LCD_HEIGHT
        ensures Between(low, r, high) <==> Between(top, r, bottom)
      {
        assert InBuffer(c.x1, r);
      }
    }
  }

  lemma StraightIdeal(c: Ends, x: int, y: int)
    requires c.x1 <= c.x2 && (c.x1 == c.x2 || c.y1 == c.y2)
    ensures OnIdealLine(c, x, y) <==> c.x1 <= x <= c.x2 && Between(c.y1, y, c.y2)
  {
    hide HalfPixel;
    if Major(c) > 0 {
      var up := Sign(c.y2 - c.y1) * (y - c.y1);
      FlatHalfPixel(Major(c), x - c.x1, up);
      FlatHalfPixel(Major(c), up, x - c.x1);
    }
  }

  lemma FlatHalfPixel(major: int, k: int, j: int)
    requires major > 0
    ensures HalfPixel(0, major, k, j) <==> j == 0
  {
    if j > 0 {
      ProductMonotone(major, 1, j);
    } else if j < 0 {
      ProductMonotone(major, j, -1);
    }
  }

  /** The spots are pairwise different: the loop draws major + 1 pixels. */
  lemma SpotsDistinct(c: Ends, i: nat, k: nat)
    requires c.x1 <= c.x2 && Major(c) > 0 && i != k
    ensures Spot(c, i) != Spot(c, k)
  {
    hide Rounded;
  }

  /** The ideal line stays between its ends. */
  lemma IdealWithinBox(c: Ends, x: int, y: int)
    requires c.x1 <= c.x2 && OnIdealLine(c, x, y)
    ensures Between(c.x1, x, c.x2) && Between(c.y1, y, c.y2)
  {
    hide Rounded, HalfPixel;
    if Major(c) > 0 {
      var up := Sign(c.y2 - c.y1) * (y - c.y1);
      var (k, j) := if XDominant(c) then (x - c.x1, up) else (up, x - c.x1);
      HalfPixelIsRounded(Minor(c), Major(c), k, j);
      RoundedBetween(Minor(c), Major(c), k);
    }
  }

  /** What any line draws that is not dropped: the visible ideal line between its clipped ends, if
      and only if no row wraps around. */
  lemma LineIsIdeal(e: Ends)
    requires ClipLine(e).Kept?
    ensures ColumnsOnScreen(ClipLine(e).ends)
    ensures SameTouches(LineTouches(e), IdealTouches(ClipLine(e).ends)) <==> Unwrapped(ClipLine(e).ends)
  {
    hide ClipLine, StrokeTouches, IdealTouches, Unwrapped;
    ClippedColumns(e);
    StrokeIsIdeal(ClipLine(e).ends);
  }

  lemma LineIsIdealAt(e: Ends, p: Point)
    requires ClipLine(e).Kept? && Unwrapped(ClipLine(e).ends) && InBuffer(p.x, p.y)
    ensures ColumnsOnScreen(ClipLine(e).ends)
    ensures LineTouches(e)(p) == if OnScreen(p.x, p.y) && OnIdealLine(ClipLine(e).ends, p.x, Row(p.y)) then 1 else 0
  {
    hide ClipLine, LineTouches, OnIdealLine, Unwrapped;
    LineIsIdeal(e);
    assert LineTouches(e)(Point(p.x, p.y)) == IdealTouches(ClipLine(e).ends)(Point(p.x, p.y));
  }

  // ----- horizontal and vertical lines of any length, on or off screen -----

  /** The visible part of an axis-parallel segment given by its ends in any order. */
  function SegmentTouches(e: Ends): Touches {
    (p: Point) => if OnScreen(p.x, p.y) && Between(e.x1, p.x, e.x2) && Between(e.y1, Row(p.y), e.y2) then 1 else 0
  }

  lemma AxisLineTouches(e: Ends)
    requires e.x1 == e.x2 || e.y1 == e.y2
    ensures SameTouches(LineTouches(e), SegmentTouches(e))
  {
    hide ClipLine, StrokeTouches, OnIdealLine;
    if e.x1 == e.x2 {
      VerticalClip(e);
    } else {
      HorizontalClip(e);
    }
    if ClipLine(e).Kept? {
      var c := ClipLine(e).ends;
      VisibleEndsUnwrapped(c);
      StrokeIsIdeal(c);
      forall x, y | InBuffer(x, y)
        ensures LineTouches(e)(Point(x, y)) == SegmentTouches(e)(Point(x, y))
      {
        StraightIdeal(c, x, Row(y));
      }
    }
  }

  lemma VerticalClip(e: Ends)
    requires e.x1 == e.x2
    ensures ClipLine(e) ==
      var (low, high) := (Min(e.y1, e.y2), Max(e.y1, e.y2));
      if high < 0 || low >= LCD_HEIGHT || e.x1 < 0 || e.x1 >= LCD_WIDTH then OffScreen
      else Kept(Ends(e.x1, Max(low, 0), e.x1, Min(high, LCD_HEIGHT - 1)))
  {}

  lemma HorizontalClip(e: Ends)
    requires e.y1 == e.y2 && e.x1 != e.x2
    ensures ClipLine(e) ==
      var (low, high) := (Min(e.x1, e.x2), Max(e.x1, e.x2));
      if high < 0 || low >= LCD_WIDTH || e.y1 < 0 || e.y1 >= LCD_HEIGHT then OffScreen
      else Kept(Ends(Max(low, 0), e.y1, Min(high, LCD_WIDTH - 1), e.y1))
  {}
}
