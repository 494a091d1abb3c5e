/**
 Points, integer rectangles and the numeric conversions the sampler relies on.
 Coordinates are exact reals; the C# casts and integer division are written
 out so that their rounding direction is explicit.
 */
module Geometry {

  /** A position in absolute region space. */
  datatype Point = Point(x: real, y: real)

  /** An axis-aligned integer rectangle: origin (x, y) and size (w, h). */
  datatype Rect = Rect(x: int, y: int, w: int, h: int) {
    function XEnd(): int { x + w }
    function YEnd(): int { y + h }
  }

  /** Displace a point by a vector. */
  function Add(a: Point, v: Point): Point {
    Point(a.x + v.x, a.y + v.y)
  }

  /** The square of a real; kept as a function so that squares stay atomic in proofs. */
  function Sq(r: real): real { r * r }

  /** Squared euclidean distance. */
  function SqDist(a: Point, b: Point): (d: real)
    ensures d >= Sq(a.x - b.x) && d >= Sq(a.y - b.y)
  {
    SqNonneg(a.x - b.x);
    SqNonneg(a.y - b.y);
    Sq(a.x - b.x) + Sq(a.y - b.y)
  }

  function Min(a: int, b: int): int { if a < b then a else b }

  function Max(a: int, b: int): int { if a > b then a else b }

  /** The `(int)` cast of a floating-point value: truncation toward zero. */
  function Trunc(r: real): (n: int)
    ensures 0.0 <= r ==> n as real <= r < n as real + 1.0
    ensures r < 0.0 ==> n as real - 1.0 < r <= n as real
  {
    if r >= 0.0 then r.Floor else -((-r).Floor)
  }

  /** `MathF.Ceiling` followed by an `(int)` cast: the least integer not below r. */
  function Ceil(r: real): (n: int)
    ensures n as real - 1.0 < r <= n as real
  {
    -((-r).Floor)
  }

  /** C# integer division by a positive divisor: the quotient truncates toward zero. */
  function TruncDiv(a: int, b: int): (q: int)
    requires b > 0
    ensures 0 <= a ==> 0 <= a - q * b < b
    ensures a < 0 ==> -b < a - q * b <= 0
  {
    if a >= 0 then a / b else -((-a) / b)
  }

  /**
   The envelope the bounds test admits: the near edges and the far edges are
   both inclusive, so a point exactly on `x + w` or `y + h` is inside.
   */
  predicate InEnvelope(r: Rect, p: Point) {
    && r.x as real <= p.x <= r.XEnd() as real
    && r.y as real <= p.y <= r.YEnd() as real
  }

  /** An envelope nested in another keeps its points inside the outer one. */
  lemma EnvelopeNested(inner: Rect, outer: Rect, p: Point)
    requires outer.x <= inner.x && inner.XEnd() <= outer.XEnd()
    requires outer.y <= inner.y && inner.YEnd() <= outer.YEnd()
    requires InEnvelope(inner, p)
    ensures InEnvelope(outer, p)
  {
  }

  /** Truncation agrees with the floor on nonnegative values. */
  lemma TruncIsFloor(r: real)
    requires r >= 0.0
    ensures Trunc(r) == r.Floor
  {
  }

  lemma SqNonneg(r: real)
    ensures Sq(r) >= 0.0
  {
  }

  /** Squares grow strictly with the magnitude below a positive bound. */
  lemma SqBelow(d: real, c: real)
    requires c > 0.0 && -c < d < c
    ensures Sq(d) < Sq(c)
  {
  }

  lemma SqMonotone(a: real, b: real)
    requires 0.0 <= a <= b
    ensures Sq(a) <= Sq(b)
  {
  }

  lemma SqPositive(c: real)
    requires c > 0.0
    ensures Sq(c) > 0.0
  {
    SqBelow(0.0, c);
    assert Sq(0.0) == 0.0;
  }

  /** A difference whose square is below r² lies strictly within (-r, r). */
  lemma RootBelow(d: real, r: real)
    requires r > 0.0 && Sq(d) < Sq(r)
    ensures -r < d < r
  {
  }

  /** With r² = 2·cs² the radius is shorter than two cells. */
  lemma RadiusBelowTwoCells(radius: real, cs: real)
    requires radius > 0.0 && cs > 0.0 && Sq(radius) == 2.0 * Sq(cs)
    ensures radius < 2.0 * cs
  {
    if radius >= 2.0 * cs {
      SqMonotone(2.0 * cs, radius);
      assert Sq(2.0 * cs) == 4.0 * Sq(cs);
      SqPositive(cs);
    }
  }

  lemma DivDifference(u: real, v: real, c: real)
    requires c > 0.0
    ensures u / c - v / c == (u - v) / c
  {
  }

  lemma MulMonotone(a: real, b: real, c: real)
    requires c > 0.0
    ensures a <= b ==> a * c <= b * c
    ensures a < b ==> a * c < b * c
  {
  }

  lemma DivNonneg(u: real, c: real)
    requires u >= 0.0 && c > 0.0
    ensures u / c >= 0.0
  {
  }

  lemma DivWithinTwo(d: real, c: real)
    requires c > 0.0 && -2.0 * c < d < 2.0 * c
    ensures -2.0 < d / c < 2.0
  {
  }

  lemma DivWithinOne(d: real, c: real)
    requires c > 0.0 && -1.0 < d / c < 1.0
    ensures -c < d < c
  {
  }

  /**
   Two nonnegative offsets less than two cells apart fall into cells whose
   indices differ by at most two.
   */
  lemma NearbyCells(u: real, v: real, cs: real)
    requires cs > 0.0 && u >= 0.0 && v >= 0.0
    requires -2.0 * cs < u - v < 2.0 * cs
    ensures -2 <= Trunc(u / cs) - Trunc(v / cs) <= 2
  {
    DivNonneg(u, cs);
    DivNonneg(v, cs);
    DivDifference(u, v, cs);
    DivWithinTwo(u - v, cs);
    TruncIsFloor(u / cs);
    TruncIsFloor(v / cs);
  }

  /** Two nonnegative offsets in the same cell are less than one cell apart. */
  lemma SameCellIsNear(u: real, v: real, cs: real)
    requires cs > 0.0 && u >= 0.0 && v >= 0.0
    requires Trunc(u / cs) == Trunc(v / cs)
    ensures -cs < u - v < cs
  {
    DivNonneg(u, cs);
    DivNonneg(v, cs);
    TruncIsFloor(u / cs);
    TruncIsFloor(v / cs);
    DivDifference(u, v, cs);
    DivWithinOne(u - v, cs);
  }

  /** An offset strictly below `w` lands in a cell strictly below ceil(w / cs). */
  lemma InteriorOffsetCell(u: real, w: real, cs: real)
    requires cs > 0.0 && 0.0 <= u < w
    ensures Trunc(u / cs) < Ceil(w / cs)
  {
    assert u / cs < w / cs by {
      assert (w / cs - u / cs) * cs == w - u;
    }
    DivNonneg(u, cs);
    TruncIsFloor(u / cs);
  }

}
