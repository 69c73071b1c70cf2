/** The midpoint ellipse of util/cat/ev3_lcd.c (CmdDrawEllipse, lines 1516-1635) as geometry:
    the staircase of pixels in one quadrant, against the ellipse it approximates. */
module EllipseGeometry {

  /** Four times b^2 x^2 + a^2 y^2 - a^2 b^2 at the point (X/2, Y/2), with A = a^2 and B = b^2:
      at most 0 inside and on the ellipse, positive outside. */
  function Level(A: int, B: int, X: int, Y: int): int {
    B * (X * X) + A * (Y * Y) - 4 * (A * B)
  }

  predicate Inside(A: int, B: int, X: int, Y: int) { Level(A, B, X, Y) <= 0 }

  datatype Move = East | South | SouthEast

  /** The three-way choice at pixel (x, y), by the position of three half-pixel points. */
  function MoveAt(A: int, B: int, x: int, y: int): Move {
    if Inside(A, B, 2 * x + 2, 2 * y - 1) || Inside(A, B, 2 * x + 1, 2 * y) then East
    else if !Inside(A, B, 2 * x + 1, 2 * y - 2) then South
    else SouthEast
  }

  function NextX(A: int, B: int, x: int, y: int): int {
    if MoveAt(A, B, x, y).South? then x else x + 1
  }

  function NextY(A: int, B: int, x: int, y: int): int {
    if MoveAt(A, B, x, y).East? then y else y - 1
  }

  // ----- the staircase, as the loop condition of the source ends it -----

  predicate Running(a: int, x: int, y: int) { y >= 0 && x <= a }

  /** From (x, y) onwards the staircase visits (u, v). */
  predicate OnPath(a: int, b: int, x: int, y: int, u: int, v: int)
    decreases a - x + y + 2
  {
    Running(a, x, y) &&
    ((x == u && y == v) || OnPath(a, b, NextX(a * a, b * b, x, y), NextY(a * a, b * b, x, y), u, v))
  }

  /** From (x, y) onwards the staircase visits row v at column u or further out. */
  predicate InSpan(a: int, b: int, x: int, y: int, u: int, v: int)
    decreases a - x + y + 2
  {
    Running(a, x, y) &&
    ((u <= x && y == v) || InSpan(a, b, NextX(a * a, b * b, x, y), NextY(a * a, b * b, x, y), u, v))
  }

  function PathLength(a: int, b: int, x: int, y: int): nat
    decreases a - x + y + 2
  {
    if Running(a, x, y) then 1 + PathLength(a, b, NextX(a * a, b * b, x, y), NextY(a * a, b * b, x, y)) else 0
  }

  // ----- what the integer criteria of the source decide -----

  function Crit1(a: int, b: int): int { -(a * a / 4 + a % 2 + b * b) }

  function Crit2(a: int, b: int): int { -(b * b / 4 + b % 2 + a * a) }

  function Crit3(b: int): int { -(b * b / 4 + b % 2) }

  /** The running error term of the source. */
  function Term(A: int, B: int, x: int, y: int): int {
    B * (x * (x + 1)) + A * (y * (y - 1)) - A * B
  }

  lemma SquareMod4(a: int)
    ensures a * a % 4 == a % 2
  {
    var h := a / 2;
    if a % 2 == 0 {
      EvenSquare(a, h);
      FourfoldMod4(h * h, 0);
    } else {
      OddSquare(a, h);
      FourfoldMod4(h * h + h, 1);
    }
  }

  lemma EvenSquare(a: int, h: int)
    requires a == 2 * h
    ensures a * a == 4 * (h * h)
  {}

  lemma OddSquare(a: int, h: int)
    requires a == 2 * h + 1
    ensures a * a == 4 * (h * h + h) + 1
  {}

  lemma FourfoldMod4(n: int, r: int)
    requires 0 <= r < 4
    ensures (4 * n + r) % 4 == r
  {}

  lemma LevelOfTerm1(A: int, B: int, x: int, y: int)
    ensures Level(A, B, 2 * x + 2, 2 * y - 1) == 4 * (Term(A, B, x, y) + B * x + B) + A
  {
    assert (2 * x + 2) * (2 * x + 2) == 4 * (x * (x + 1)) + 4 * x + 4;
    assert (2 * y - 1) * (2 * y - 1) == 4 * (y * (y - 1)) + 1;
    assert B * (4 * (x * (x + 1)) + 4 * x + 4) == 4 * (B * (x * (x + 1))) + 4 * (B * x) + 4 * B;
    assert A * (4 * (y * (y - 1)) + 1) == 4 * (A * (y * (y - 1))) + A;
  }

  lemma LevelOfTerm2(A: int, B: int, x: int, y: int)
    ensures Level(A, B, 2 * x + 1, 2 * y - 2) == 4 * (Term(A, B, x, y) - A * y + A) + B
  {
    assert (2 * x + 1) * (2 * x + 1) == 4 * (x * (x + 1)) + 1;
    assert (2 * y - 2) * (2 * y - 2) == 4 * (y * (y - 1)) - 4 * y + 4;
    assert B * (4 * (x * (x + 1)) + 1) == 4 * (B * (x * (x + 1))) + B;
    assert A * (4 * (y * (y - 1)) - 4 * y + 4) == 4 * (A * (y * (y - 1))) - 4 * (A * y) + 4 * A;
  }

  lemma LevelOfTerm3(A: int, B: int, x: int, y: int)
    ensures Level(A, B, 2 * x + 1, 2 * y) == 4 * (Term(A, B, x, y) + A * y) + B
  {
    assert (2 * x + 1) * (2 * x + 1) == 4 * (x * (x + 1)) + 1;
    assert (2 * y) * (2 * y) == 4 * (y * (y - 1)) + 4 * y;
    assert B * (4 * (x * (x + 1)) + 1) == 4 * (B * (x * (x + 1))) + B;
    assert A * (4 * (y * (y - 1)) + 4 * y) == 4 * (A * (y * (y - 1))) + 4 * (A * y);
  }

  lemma LevelOfTerm(A: int, B: int, x: int, y: int)
    ensures Level(A, B, 2 * x + 1, 2 * y - 1) == 4 * Term(A, B, x, y) + A + B
  {
    assert (2 * x + 1) * (2 * x + 1) == 4 * (x * (x + 1)) + 1;
    assert (2 * y - 1) * (2 * y - 1) == 4 * (y * (y - 1)) + 1;
    assert B * (4 * (x * (x + 1)) + 1) == 4 * (B * (x * (x + 1))) + B;
    assert A * (4 * (y * (y - 1)) + 1) == 4 * (A * (y * (y - 1))) + A;
  }

  /** The source's integer tests on its error term are exactly the three point tests, in
      spite of the divisions by four. */
  lemma CriteriaDecideMove(a: int, b: int, x: int, y: int)
    ensures var (A, B) := (a * a, b * b);
      var t := Term(A, B, x, y);
      MoveAt(A, B, x, y) ==
        if t + B * x <= Crit1(a, b) || t + A * y <= Crit3(b) then East
        else if t - A * y > Crit2(a, b) then South else SouthEast
  {
    hide Level, Term;
    var A, B := a * a, b * b;
    SquareMod4(a);
    SquareMod4(b);
    LevelOfTerm1(A, B, x, y);
    LevelOfTerm2(A, B, x, y);
    LevelOfTerm3(A, B, x, y);
  }

  lemma TermEast(A: int, B: int, x: int, y: int)
    ensures Term(A, B, x + 1, y) == Term(A, B, x, y) + 2 * (B * (x + 1))
  {
    assert (x + 1) * (x + 2) == x * (x + 1) + 2 * (x + 1);
    assert B * (x * (x + 1) + 2 * (x + 1)) == B * (x * (x + 1)) + 2 * (B * (x + 1));
  }

  lemma TermSouth(A: int, B: int, x: int, y: int)
    ensures Term(A, B, x, y - 1) == Term(A, B, x, y) - 2 * (A * (y - 1))
  {
    assert (y - 1) * (y - 2) == y * (y - 1) - 2 * (y - 1);
    assert A * (y * (y - 1) - 2 * (y - 1)) == A * (y * (y - 1)) - 2 * (A * (y - 1));
  }

  // ----- the level function grows outwards -----

  lemma SquareMonotone(p: int, q: int)
    requires -q <= p <= q
    ensures p * p <= q * q
  {
    assert 0 <= (q - p) * (q + p) == q * q - p * p;
  }

  lemma ScaledMonotone(k: int, p: int, q: int)
    requires k >= 0 && p <= q
    ensures k * p <= k * q
  {}

  lemma LevelMonotone(A: int, B: int, X: int, Y: int, X': int, Y': int)
    requires A >= 0 && B >= 0 && -X' <= X <= X' && -Y' <= Y <= Y'
    ensures Level(A, B, X, Y) <= Level(A, B, X', Y')
  {
    SquareMonotone(X, X');
    SquareMonotone(Y, Y');
    ScaledMonotone(B, X * X, X' * X');
    ScaledMonotone(A, Y * Y, Y' * Y');
  }

  /** A point on the horizontal axis is inside exactly up to the radius. */
  lemma InsideOnAxis(a: int, b: int, X: int)
    requires a >= 0 && b > 0 && X >= 0
    ensures Inside(a * a, b * b, X, 0) <==> X <= 2 * a
  {
    var A, B := a * a, b * b;
    assert Level(A, B, X, 0) == B * (X * X) - 4 * (A * B);
    assert B * ((2 * a) * (2 * a)) == 4 * (A * B);
    assert B > 0;
    if X <= 2 * a {
      SquareMonotone(X, 2 * a);
      ScaledMonotone(B, X * X, (2 * a) * (2 * a));
    } else {
      SquareMonotone(2 * a + 1, X);
      assert (2 * a + 1) * (2 * a + 1) == (2 * a) * (2 * a) + 4 * a + 1;
      ScaledMonotone(B, (2 * a) * (2 * a) + 1, X * X);
      assert B * ((2 * a) * (2 * a) + 1) == B * ((2 * a) * (2 * a)) + B;
    }
  }

  // ----- the ellipse runs through every pixel of the staircase -----

  function Inner(n: int): int { if n <= 0 then 0 else 2 * n - 1 }

  /** The ellipse separates the inner from the outer corner of the pixel square. */
  predicate Straddles(a: int, b: int, x: int, y: int) {
    && Inside(a * a, b * b, Inner(x), Inner(y))
    && !Inside(a * a, b * b, 2 * x + 1, 2 * y + 1)
  }

  lemma StartStraddles(a: int, b: int)
    requires a > 0 && b > 0
    ensures Straddles(a, b, 0, b)
  {
    var A, B := a * a, b * b;
    OddSquareBelow(b);
    OddSquareAbove(b);
    ScaledMonotone(A, (2 * b - 1) * (2 * b - 1), 4 * B);
    ScaledMonotone(A, 4 * B, (2 * b + 1) * (2 * b + 1));
    FourfoldProduct(A, B);
    assert B > 0;
  }

  lemma OddSquareBelow(b: int)
    requires b > 0
    ensures (2 * b - 1) * (2 * b - 1) <= 4 * (b * b)
  {}

  lemma OddSquareAbove(b: int)
    requires b > 0
    ensures 4 * (b * b) <= (2 * b + 1) * (2 * b + 1)
  {}

  lemma FourfoldProduct(A: int, B: int)
    ensures A * (4 * B) == 4 * (A * B)
  {}

  lemma StepStraddles(a: int, b: int, x: int, y: int)
    requires a > 0 && b > 0 && 0 <= x <= a && 0 <= y && Straddles(a, b, x, y)
    ensures var (x', y') := (NextX(a * a, b * b, x, y), NextY(a * a, b * b, x, y));
      if y' < 0 then y == 0 && x == a && MoveAt(a * a, b * b, x, y).South?
      else 0 <= x' <= a && y' <= y && Straddles(a, b, x', y')
  {
    hide Level;
    var A, B := a * a, b * b;
    match MoveAt(A, B, x, y) {
      case East =>
        LevelMonotone(A, B, 2 * x + 1, 2 * y + 1, 2 * x + 3, 2 * y + 1);
        EastInner(A, B, x, y);
        InnerBoundsColumn(a, b, x + 1, y);
      case South =>
        if y == 0 {
          InsideOnAxis(a, b, 2 * x + 1);
        } else {
          LevelMonotone(A, B, 2 * x + 1, 2 * y - 2, 2 * x + 1, 2 * y - 1);
          LevelMonotone(A, B, Inner(x), Inner(y - 1), Inner(x), Inner(y));
        }
      case SouthEast =>
        if y == 0 {
          LevelMonotone(A, B, 2 * x + 1, 0, 2 * x + 1, 2);
          LevelMirror(A, B, 2 * x + 1, 2);
          assert false;
        } else {
          LevelMonotone(A, B, 2 * x + 2, 2 * y - 1, 2 * x + 3, 2 * y - 1);
          LevelMonotone(A, B, 2 * x + 1, Inner(y - 1), 2 * x + 1, 2 * y - 2);
          InnerBoundsColumn(a, b, x + 1, y - 1);
        }
    }
  }

  lemma LevelMirror(A: int, B: int, X: int, Y: int)
    ensures Level(A, B, X, -Y) == Level(A, B, X, Y)
  {}

  lemma EastInner(A: int, B: int, x: int, y: int)
    requires A >= 0 && B >= 0 && x >= 0 && y >= 0 && MoveAt(A, B, x, y).East?
    ensures Inside(A, B, 2 * x + 1, Inner(y))
  {
    hide Level;
    LevelMonotone(A, B, 2 * x + 1, Inner(y), 2 * x + 1, 2 * y);
    if y == 0 {
      LevelMirror(A, B, 2 * x + 2, 1);
      LevelMonotone(A, B, 2 * x + 1, 0, 2 * x + 2, 1);
    } else {
      LevelMonotone(A, B, 2 * x + 1, 2 * y - 1, 2 * x + 2, 2 * y - 1);
    }
  }

  lemma InnerBoundsColumn(a: int, b: int, x: int, y: int)
    requires a > 0 && b > 0 && x >= 1 && y >= 0 && Inside(a * a, b * b, Inner(x), Inner(y))
    ensures x <= a
  {
    hide Level;
    LevelMonotone(a * a, b * b, Inner(x), 0, Inner(x), Inner(y));
    InsideOnAxis(a, b, Inner(x));
  }

  /** Every pixel of the staircase lies in the quadrant box and is crossed by the ellipse. */
  lemma {:induction false} PathStraddles(a: int, b: int, x: int, y: int, u: int, v: int)
    requires a > 0 && b > 0 && 0 <= x <= a && 0 <= y && Straddles(a, b, x, y)
    requires OnPath(a, b, x, y, u, v)
    ensures x <= u <= a && 0 <= v <= y && Straddles(a, b, u, v)
    decreases a - x + y + 2
  {
    hide Straddles;
    if !(x == u && y == v) {
      var x', y' := NextX(a * a, b * b, x, y), NextY(a * a, b * b, x, y);
      StepStraddles(a, b, x, y);
      PathStraddles(a, b, x', y', u, v);
    }
  }

  /** The staircase visits the tip of the ellipse, and nothing after it. */
  lemma {:induction false} PathReachesTip(a: int, b: int, x: int, y: int)
    requires a > 0 && b > 0 && 0 <= x <= a && 0 <= y && Straddles(a, b, x, y)
    ensures OnPath(a, b, x, y, a, 0)
    ensures !Running(a, NextX(a * a, b * b, a, 0), NextY(a * a, b * b, a, 0))
    decreases a - x + y + 2
  {
    hide Straddles;
    var x', y' := NextX(a * a, b * b, x, y), NextY(a * a, b * b, x, y);
    StepStraddles(a, b, x, y);
    if y' >= 0 {
      PathReachesTip(a, b, x', y');
    }
  }

  /** It leaves out no row: row v is visited, at column x or further out. */
  lemma {:induction false} PathMeetsRows(a: int, b: int, x: int, y: int, v: int)
    requires a > 0 && b > 0 && 0 <= x <= a && 0 <= v <= y && Straddles(a, b, x, y)
    ensures InSpan(a, b, x, y, x, v)
    decreases a - x + y + 2
  {
    hide Straddles;
    if v != y {
      var x', y' := NextX(a * a, b * b, x, y), NextY(a * a, b * b, x, y);
      StepStraddles(a, b, x, y);
      PathMeetsRows(a, b, x', y', v);
      if x' == x + 1 {
        SpanInward(a, b, x', y', x + 1, x, v);
      }
    }
  }

  lemma {:induction false} SpanInward(a: int, b: int, x: int, y: int, u: int, u': int, v: int)
    requires InSpan(a, b, x, y, u, v) && u' <= u
    ensures InSpan(a, b, x, y, u', v)
    decreases a - x + y + 2
  {
    if !(u <= x && y == v) {
      SpanInward(a, b, NextX(a * a, b * b, x, y), NextY(a * a, b * b, x, y), u, u', v);
    }
  }

  /** Between the two radii and their sum: the number of loop iterations. */
  lemma {:induction false} PathLengthBounds(a: int, b: int, x: int, y: int)
    requires a > 0 && b > 0 && 0 <= x <= a && 0 <= y && Straddles(a, b, x, y)
    ensures a - x + 1 <= PathLength(a, b, x, y) <= a - x + y + 1
    ensures y + 1 <= PathLength(a, b, x, y)
    decreases a - x + y + 2
  {
    hide Straddles;
    var x', y' := NextX(a * a, b * b, x, y), NextY(a * a, b * b, x, y);
    StepStraddles(a, b, x, y);
    if y' >= 0 {
      PathLengthBounds(a, b, x', y');
    }
  }

  /** A staircase point is behind once it is passed. */
  lemma {:induction false} PathMovesOn(a: int, b: int, x: int, y: int, u: int, v: int)
    requires OnPath(a, b, x, y, u, v)
    ensures x <= u && v <= y
    decreases a - x + y + 2
  {
    if !(x == u && y == v) {
      PathMovesOn(a, b, NextX(a * a, b * b, x, y), NextY(a * a, b * b, x, y), u, v);
    }
  }

  lemma {:induction false} SpanBelow(a: int, b: int, x: int, y: int, u: int, v: int)
    requires InSpan(a, b, x, y, u, v)
    ensures v <= y
    decreases a - x + y + 2
  {
    if !(u <= x && y == v) {
      SpanBelow(a, b, NextX(a * a, b * b, x, y), NextY(a * a, b * b, x, y), u, v);
    }
  }

  // ----- the rows of the filled ellipse -----

  /** Every pixel whose centre is inside the ellipse is in the span of its row. */
  lemma {:induction false} CentreInsideIsSpanned(a: int, b: int, x: int, y: int, u: int, v: int)
    requires a > 0 && b > 0 && 0 <= x <= a && 0 <= y && Straddles(a, b, x, y)
    requires u >= 0 && 0 <= v <= y && Inside(a * a, b * b, 2 * u, 2 * v)
    ensures InSpan(a, b, x, y, u, v)
    decreases a - x + y + 2
  {
    hide Straddles, Level;
    var x', y' := NextX(a * a, b * b, x, y), NextY(a * a, b * b, x, y);
    if !(u <= x && v == y) {
      StepStraddles(a, b, x, y);
      if v == y && !MoveAt(a * a, b * b, x, y).East? {
        LevelMonotone(a * a, b * b, 2 * x + 1, 2 * y, 2 * u, 2 * y);
        assert false;
      }
      CentreInsideIsSpanned(a, b, x', y', u, v);
    }
  }

  /** Every pixel in the span of its row has its inner corner inside the ellipse. */
  lemma {:induction false} SpannedIsNearlyInside(a: int, b: int, x: int, y: int, u: int, v: int)
    requires a > 0 && b > 0 && 0 <= x <= a && 0 <= y && Straddles(a, b, x, y)
    requires InSpan(a, b, x, y, u, v) && u >= 0
    ensures u <= a && 0 <= v <= y && Inside(a * a, b * b, Inner(u), Inner(v))
    decreases a - x + y + 2
  {
    hide Level;
    var x', y' := NextX(a * a, b * b, x, y), NextY(a * a, b * b, x, y);
    if u <= x && v == y {
      LevelMonotone(a * a, b * b, Inner(u), Inner(v), Inner(x), Inner(y));
    } else {
      StepStraddles(a, b, x, y);
      SpannedIsNearlyInside(a, b, x', y', u, v);
    }
  }

  // ----- a step down is never followed by a step to the right -----

  /** How a column was entered at row r: one of the points that allowed the entry is inside. */
  predicate Entered(A: int, B: int, x: int, r: int) {
    Inside(A, B, 2 * x - 1, 2 * r) || Inside(A, B, 2 * x, 2 * r - 1)
  }

  lemma StartEntered(a: int, b: int)
    requires a > 0 && b > 0
    ensures Entered(a * a, b * b, 0, b)
  {
    hide Level;
    StartStraddles(a, b);
  }

  lemma HalfwayBound(A: int, B: int, p: int, q: int, r: int, s: int, m: int, n: int)
    requires A >= 0 && B >= 0 && 2 * m == p + r && 2 * n == q + s
    ensures 2 * Level(A, B, m, n) <= Level(A, B, p, q) + Level(A, B, r, s)
  {
    HalfwaySquare(p, r, m);
    HalfwaySquare(q, s, n);
    ScaledMonotone(B, 2 * (m * m), p * p + r * r);
    ScaledMonotone(A, 2 * (n * n), q * q + s * s);
    assert B * (2 * (m * m)) == 2 * (B * (m * m)) && A * (2 * (n * n)) == 2 * (A * (n * n));
    assert B * (p * p + r * r) == B * (p * p) + B * (r * r) && A * (q * q + s * s) == A * (q * q) + A * (s * s);
  }

  lemma HalfwaySquare(p: int, r: int, m: int)
    requires 2 * m == p + r
    ensures 2 * (m * m) <= p * p + r * r
  {
    assert r == 2 * m - p;
    assert 0 <= (p - m) * (p - m) == p * p - 2 * (p * m) + m * m;
    assert r * r == 4 * (m * m) - 4 * (m * p) + p * p;
    assert p * m == m * p;
  }

  lemma ThirdSquare(p: int, q: int, m: int)
    requires 3 * m <= p + 2 * q && 0 <= m
    ensures 3 * (m * m) <= p * p + 2 * (q * q)
  {
    SquareMonotone(3 * m, p + 2 * q);
    SquareOfTriple(m);
    SquareOfSum(p, q);
  }

  lemma SquareOfTriple(m: int)
    ensures (3 * m) * (3 * m) == 9 * (m * m)
  {}

  lemma SquareOfSum(p: int, q: int)
    ensures (p + 2 * q) * (p + 2 * q) <= 3 * (p * p) + 6 * (q * q)
  {
    var d := p - q;
    SumExpands(p, q);
    DifferenceExpands(p, q);
    assert d * d >= 0;
  }

  lemma SumExpands(p: int, q: int)
    ensures (p + 2 * q) * (p + 2 * q) == p * p + 4 * (p * q) + 4 * (q * q)
  {}

  lemma DifferenceExpands(p: int, q: int)
    ensures (p - q) * (p - q) == p * p - 2 * (p * q) + q * q
  {}

  lemma ThirdBound(A: int, B: int, p: int, q: int, r: int, s: int, m: int, n: int)
    requires A >= 0 && B >= 0 && m >= 0 && n >= 0 && 3 * m <= p + 2 * r && 3 * n <= q + 2 * s
    ensures 3 * Level(A, B, m, n) <= Level(A, B, p, q) + 2 * Level(A, B, r, s)
  {
    ThirdSquare(p, r, m);
    ThirdSquare(q, s, n);
    ScaledMonotone(B, 3 * (m * m), p * p + 2 * (r * r));
    ScaledMonotone(A, 3 * (n * n), q * q + 2 * (s * s));
    assert B * (3 * (m * m)) == 3 * (B * (m * m)) && A * (3 * (n * n)) == 3 * (A * (n * n));
    assert B * (p * p + 2 * (r * r)) == B * (p * p) + 2 * (B * (r * r));
    assert A * (q * q + 2 * (s * s)) == A * (q * q) + 2 * (A * (s * s));
  }

  /** By convexity: if column x was entered above row y, and row y was reached by a step down,
      then the next step is not to the right. */
  lemma NoEastAfterSouth(A: int, B: int, x: int, y: int, r: int)
    requires A >= 0 && B >= 0 && x >= 0 && y >= 0 && r > y
    requires Entered(A, B, x, r) && !Inside(A, B, 2 * x + 1, 2 * y)
    ensures !MoveAt(A, B, x, y).East?
  {
    hide Level;
    if Inside(A, B, 2 * x + 2, 2 * y - 1) {
      if Inside(A, B, 2 * x, 2 * r - 1) {
        HalfwayBound(A, B, 2 * x, 2 * r - 1, 2 * x + 2, 2 * y - 1, 2 * x + 1, r + y - 1);
        LevelMonotone(A, B, 2 * x + 1, 2 * y, 2 * x + 1, r + y - 1);
      } else {
        ThirdBound(A, B, 2 * x - 1, 2 * r, 2 * x + 2, 2 * y - 1, 2 * x + 1, 2 * y);
      }
      assert false;
    }
  }

  lemma StepEntered(A: int, B: int, x: int, y: int, r: int)
    requires Entered(A, B, x, r)
    ensures var (x', y') := (NextX(A, B, x, y), NextY(A, B, x, y));
      Entered(A, B, x', if x' == x then r else y')
    ensures MoveAt(A, B, x, y).South? ==> !Inside(A, B, 2 * x + 1, 2 * (y - 1))
  {
    hide Level;
  }

  // ----- the error term stays small -----

  /** Along the staircase the error term is bounded by the radii. */
  lemma TermBounds(a: int, b: int, x: int, y: int)
    requires a > 0 && b > 0 && 0 <= x <= a && 0 <= y <= b && Straddles(a, b, x, y)
    ensures var (A, B) := (a * a, b * b);
      -(2 * (A * b) + A + B) <= Term(A, B, x, y) <= 2 * (B * a) + A + B
  {
    hide Level, Term;
    var A, B := a * a, b * b;
    LevelOfTerm(A, B, x, y);
    LevelDown(A, B, 2 * x + 1, y);
    ScaledMonotone(A, y, b);
    LevelUp(A, B, x, Inner(y));
    ScaledMonotone(B, x, a);
    assert A >= 0 && B >= 0;
    if y == 0 {
      LevelAddsY(A, B, 2 * x + 1);
    } else {
      assert Inner(y) == 2 * y - 1;
    }
  }

  lemma LevelDown(A: int, B: int, X: int, y: int)
    ensures Level(A, B, X, 2 * y - 1) == Level(A, B, X, 2 * y + 1) - 8 * (A * y)
  {
    assert (2 * y + 1) * (2 * y + 1) == (2 * y - 1) * (2 * y - 1) + 8 * y;
    assert A * ((2 * y - 1) * (2 * y - 1) + 8 * y) == A * ((2 * y - 1) * (2 * y - 1)) + 8 * (A * y);
  }

  lemma LevelUp(A: int, B: int, x: int, Y: int)
    requires x >= 0 && B >= 0
    ensures Level(A, B, 2 * x + 1, Y) <= Level(A, B, Inner(x), Y) + 8 * (B * x) + B
  {
    if x > 0 {
      assert (2 * x + 1) * (2 * x + 1) == (2 * x - 1) * (2 * x - 1) + 8 * x;
      assert B * ((2 * x - 1) * (2 * x - 1) + 8 * x) == B * ((2 * x - 1) * (2 * x - 1)) + 8 * (B * x);
    }
  }

  lemma LevelAddsY(A: int, B: int, X: int)
    ensures Level(A, B, X, -1) == Level(A, B, X, 0) + A
  {}
}
