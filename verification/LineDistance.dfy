/** How far the pixels of a clipped line can be from the line through its original ends. */
module LineDistance {
  import opened LineGeometry
  import opened Strokes

  lemma NearLineCross(e: Ends, x: int, y: int)
    requires NearLine(x, y, e)
    ensures Abs(Cross(e, x, y)) <= Longer(e)
  {}

  /** A pixel of the ideal line between two points near the original line is not more than half
      a pixel further from the original line than these. */
  lemma IdealNearOriginal(e: Ends, c: Ends, x: int, y: int, near: int)
    requires c.x1 <= c.x2 && OnIdealLine(c, x, y)
    requires Abs(Cross(e, c.x1, c.y1)) <= near && Abs(Cross(e, c.x2, c.y2)) <= near
    ensures 2 * Abs(Cross(e, x, y)) <= 2 * near + Longer(e)
  {
    hide Cross, HalfPixel;
    var m, p, q := Major(c), x - c.x1, y - c.y1;
    if m > 0 {
      var (first, second, cross) := (Cross(e, c.x1, c.y1), Cross(e, c.x2, c.y2), Cross(e, x, y));
      var (width, height, dx, dy) := (c.x2 - c.x1, c.y2 - c.y1, e.x2 - e.x1, e.y2 - e.y1);
      CrossMoves(e, c.x1, c.y1, p, q);
      CrossMoves(e, c.x1, c.y1, width, height);
      if XDominant(c) {
        ColumnDistance(first, second, cross, m, p, q, height, dx, dy, near, Longer(e));
      } else {
        RowDistance(first, second, cross, m, p, q, width, height, dx, dy, near, Longer(e));
      }
    }
  }

  lemma ColumnDistance(first: int, second: int, cross: int, m: int, p: int, q: int, height: int, dx: int, dy: int,
      near: int, bound: int)
    requires 0 <= p <= m && 0 < m && HalfPixel(Abs(height), m, p, Sign(height) * q)
    requires cross == first + q * dx - p * dy && second == first + height * dx - m * dy
    requires Abs(first) <= near && Abs(second) <= near && Abs(dx) <= bound
    ensures 2 * Abs(cross) <= 2 * near + bound
  {
    hide HalfPixel;
    HalfPixelRemainder(Abs(height), m, p, Sign(height) * q);
    AlongColumns(Sign(height), m, p, q, height);
    MixColumns(first, second, cross, m, p, q, height, dx, dy);
    WeightedBound(m, p, first, second, m * q - p * height, dx, near, bound, cross);
  }

  lemma RowDistance(first: int, second: int, cross: int, m: int, p: int, q: int, width: int, height: int,
      dx: int, dy: int, near: int, bound: int)
    requires 0 <= Sign(height) * q <= m && 0 < m == Abs(height) && HalfPixel(width, m, Sign(height) * q, p)
    requires cross == first + q * dx - p * dy && second == first + height * dx - width * dy
    requires Abs(first) <= near && Abs(second) <= near && Abs(dy) <= bound
    ensures 2 * Abs(cross) <= 2 * near + bound
  {
    hide HalfPixel;
    var k := Sign(height) * q;
    HalfPixelRemainder(width, m, k, p);
    AlongRows(Sign(height), m, q, height);
    MixRows(first, second, cross, m, k, p, q, width, height, dx, dy);
    RowRemainder(width, m, k, p);
    WeightedBound(m, k, first, second, k * width - m * p, dy, near, bound, cross);
  }

  lemma RowRemainder(width: int, m: int, k: int, p: int)
    ensures Abs(k * width - m * p) == Abs(width * k - m * p)
  {}

  lemma HalfPixelRemainder(minor: int, major: int, k: int, j: int)
    requires HalfPixel(minor, major, k, j)
    ensures 2 * Abs(minor * k - major * j) <= major
  {}

  lemma AlongColumns(s: int, m: int, p: int, q: int, height: int)
    requires s == Sign(height) && 2 * Abs(Abs(height) * p - m * (s * q)) <= m
    ensures 2 * Abs(m * q - p * height) <= m
  {
    assert m * (s * q) == s * (m * q) && Abs(height) == s * height && s * height * p == s * (p * height);
  }

  lemma AlongRows(s: int, m: int, q: int, height: int)
    requires s == Sign(height) && m == Abs(height)
    ensures s * q * height == m * q
  {
    assert Abs(height) == s * height && s * q * height == s * height * q;
  }

  lemma MixColumns(first: int, second: int, cross: int, m: int, p: int, q: int, height: int, dx: int, dy: int)
    requires cross == first + q * dx - p * dy && second == first + height * dx - m * dy
    ensures m * cross == (m - p) * first + p * second + (m * q - p * height) * dx
  {
    var a, b := q * dx - p * dy, height * dx - m * dy;
    assert m * (first + a) == m * first + m * a && p * (first + b) == p * first + p * b;
    assert (m - p) * first == m * first - p * first;
    Cancel(m, p, q, height, dx, dy);
  }

  lemma Cancel(m: int, p: int, q: int, height: int, dx: int, dy: int)
    ensures m * (q * dx - p * dy) == p * (height * dx - m * dy) + (m * q - p * height) * dx
  {
    assert m * (q * dx - p * dy) == m * q * dx - m * p * dy;
    assert p * (height * dx - m * dy) == p * height * dx - m * p * dy;
    assert (m * q - p * height) * dx == m * q * dx - p * height * dx;
  }

  lemma MixRows(first: int, second: int, cross: int, m: int, k: int, p: int, q: int, width: int, height: int,
      dx: int, dy: int)
    requires cross == first + q * dx - p * dy && second == first + height * dx - width * dy && k * height == m * q
    ensures m * cross == (m - k) * first + k * second + (k * width - m * p) * dy
  {
    var a, b := q * dx - p * dy, height * dx - width * dy;
    assert m * (first + a) == m * first + m * a && k * (first + b) == k * first + k * b;
    assert (m - k) * first == m * first - k * first;
    assert m * a == m * q * dx - m * p * dy;
    assert k * b == k * height * dx - k * width * dy;
    assert (k * width - m * p) * dy == k * width * dy - m * p * dy;
  }

  lemma WeightedBound(m: int, k: int, first: int, second: int, r: int, w: int, near: int, bound: int, cross: int)
    requires 0 <= k <= m && 0 < m && Abs(first) <= near && Abs(second) <= near && Abs(w) <= bound
    requires 2 * Abs(r) <= m && m * cross == (m - k) * first + k * second + r * w
    ensures 2 * Abs(cross) <= 2 * near + bound
  {
    AbsProduct(m - k, first, near);
    AbsProduct(k, second, near);
    SignedProduct(r, w, bound);
    ShareOfBound(m, k, Abs(r), near, bound);
    SumBound((m - k) * first, k * second, r * w, (m - k) * near, k * near, Abs(r) * bound, m * near, m * bound,
      m * cross);
    DivideOut(m, cross, near, bound);
  }

  lemma SignedProduct(r: int, w: int, bound: int)
    requires Abs(w) <= bound
    ensures -(Abs(r) * bound) <= r * w <= Abs(r) * bound
  {
    AbsProduct(Abs(r), w, bound);
    assert r * w == Abs(r) * w || r * w == -(Abs(r) * w);
  }

  lemma ShareOfBound(m: int, k: int, r: int, near: int, bound: int)
    requires 2 * r <= m && bound >= 0
    ensures (m - k) * near + k * near == m * near && 2 * (r * bound) <= m * bound
  {
    ProductMonotone(bound, 2 * r, m);
    assert bound * (2 * r) == 2 * (r * bound);
  }

  lemma SumBound(u: int, v: int, w: int, first: int, second: int, third: int, ends: int, half: int, sum: int)
    requires -first <= u <= first && -second <= v <= second && -third <= w <= third
    requires first + second == ends && 2 * third <= half && sum == u + v + w
    ensures -(2 * ends + half) <= 2 * sum <= 2 * ends + half
  {}

  lemma AbsProduct(k: int, v: int, bound: int)
    requires 0 <= k && Abs(v) <= bound
    ensures -(k * bound) <= k * v <= k * bound
  {
    ProductMonotone(k, v, bound);
    ProductMonotone(k, -bound, v);
    assert k * -bound == -(k * bound);
  }

  lemma DivideOut(m: int, cross: int, near: int, bound: int)
    requires 0 < m && -(2 * (m * near) + m * bound) <= 2 * (m * cross) <= 2 * (m * near) + m * bound
    ensures 2 * Abs(cross) <= 2 * near + bound
  {
    assert (2 * near + bound) * m == 2 * (m * near) + m * bound;
    assert 2 * cross * m == 2 * (m * cross) && -2 * cross * m == -(2 * (m * cross));
    CancelFactor(m, 2 * cross, 2 * near + bound);
    CancelFactor(m, -2 * cross, 2 * near + bound);
  }
}
