/**
 The candidate validator: bounds test, mask test, grid-range guard and the
 clipped ±2-cell neighbourhood scan over the acceleration grid.
 */
module Validator {
  import opened Geometry
  import opened SpatialGrid

  /** The optional mask, seen as a predicate over absolute pixel coordinates (a nonzero pixel is lit). */
  datatype Mask = NoMask | Bitmap(lit: (int, int) -> bool)

  /**
   The mask test applied to a point: the pixel at its truncated coordinates
   must be lit; for a point at nonnegative coordinates that is the pixel it lies in.
   */
  predicate MaskAllows(mask: Mask, p: Point): (ok: bool)
    ensures mask.NoMask? ==> ok
    ensures mask.Bitmap? && p.x >= 0.0 && p.y >= 0.0 ==> (ok <==> mask.lit(p.x.Floor, p.y.Floor))
  {
    mask.NoMask? || mask.lit(Trunc(p.x), Trunc(p.y))
  }

  /** Every cell holds 0 or the 1-based index of an existing point. */
  ghost predicate IndexesBelow(g: Grid, n: nat) {
    g.Valid() && forall x, y :: g.InRange(x, y) ==> g.Get(x, y) <= n
  }

  /** Cell (x, y) references a point strictly closer to p than radius. */
  ghost predicate Hits(g: Grid, points: seq<Point>, p: Point, radius: real, x: int, y: int) {
    && g.Valid()
    && g.InRange(x, y)
    && 0 < g.Get(x, y) <= |points|
    && Sq(radius) > SqDist(p, points[g.Get(x, y) - 1])
  }

  /** Some cell at most two columns and two rows away from c (and inside the grid) hits. */
  ghost predicate NearConflict(g: Grid, points: seq<Point>, p: Point, radius: real, c: (int, int)) {
    exists x, y :: -2 <= x - c.0 <= 2 && -2 <= y - c.1 <= 2 && Hits(g, points, p, radius, x, y)
  }

  /**
   The grid is an exact index of the accepted points: every accepted point lies
   in the envelope and is referenced by its own cell, and every nonempty cell
   references an accepted point lying in that cell.
   */
  ghost predicate Indexed(region: Rect, cellSize: real, points: seq<Point>, g: Grid) {
    && cellSize > 0.0
    && IndexesBelow(g, |points|)
    && (forall i :: 0 <= i < |points| ==> InEnvelope(region, points[i]))
    && (forall x, y :: CellRefersBack(region, cellSize, points, g, x, y))
    && (forall i :: 0 <= i < |points| ==> Registered(region, cellSize, points, g, i))
  }

  /** A nonempty cell (x, y) references an existing point that lies in (x, y). */
  ghost predicate CellRefersBack(region: Rect, cellSize: real, points: seq<Point>, g: Grid, x: int, y: int)
    requires cellSize > 0.0 && g.Valid()
  {
    g.InRange(x, y) && g.Get(x, y) != 0 ==>
      g.Get(x, y) <= |points| && CellOf(region, cellSize, points[g.Get(x, y) - 1]) == (x, y)
  }

  /** Point i lies in a cell of the grid, and that cell holds i + 1. */
  ghost predicate Registered(region: Rect, cellSize: real, points: seq<Point>, g: Grid, i: int)
    requires cellSize > 0.0 && g.Valid() && 0 <= i < |points|
  {
    var c := CellOf(region, cellSize, points[i]);
    g.InRange(c.0, c.1) && g.Get(c.0, c.1) == i + 1
  }

  /** The cell size matches the radius: cellSize = radius / sqrt(2). */
  predicate CellMatchesRadius(radius: real, cellSize: real) {
    radius > 0.0 && cellSize > 0.0 && Sq(radius) == 2.0 * Sq(cellSize)
  }

  /** Scan cells x..xEnd of row y for a stored point closer than radius. */
  function ScanRow(g: Grid, points: seq<Point>, p: Point, radius: real, y: int, x: int, xEnd: int): (conflict: bool)
    requires IndexesBelow(g, |points|)
    requires 0 <= y < g.height && 0 <= x && xEnd < g.width
    decreases xEnd - x
    ensures conflict <==> exists cx :: x <= cx <= xEnd && Hits(g, points, p, radius, cx, y)
  {
    if x > xEnd then false
    else
      var pointIndex := g.Get(x, y) - 1;
      if pointIndex != -1 && Sq(radius) > SqDist(p, points[pointIndex]) then
        assert Hits(g, points, p, radius, x, y);
        true
      else ScanRow(g, points, p, radius, y, x + 1, xEnd)
  }

  /** Scan rows y..yEnd, columns xStart..xEnd, for a stored point closer than radius. */
  function ScanWindow(g: Grid, points: seq<Point>, p: Point, radius: real, y: int, yEnd: int, xStart: int, xEnd: int): (conflict: bool)
    requires IndexesBelow(g, |points|)
    requires 0 <= y && yEnd < g.height && 0 <= xStart && xEnd < g.width
    decreases yEnd - y
    ensures conflict <==> exists cx, cy :: y <= cy <= yEnd && xStart <= cx <= xEnd && Hits(g, points, p, radius, cx, cy)
  {
    if y > yEnd then false
    else if ScanRow(g, points, p, radius, y, xStart, xEnd) then true
    else ScanWindow(g, points, p, radius, y + 1, yEnd, xStart, xEnd)
  }

  /** An in-envelope point has a nonnegative cell. */
  lemma CellOfInEnvelope(region: Rect, cellSize: real, p: Point)
    requires cellSize > 0.0 && InEnvelope(region, p)
    ensures CellOf(region, cellSize, p).0 >= 0 && CellOf(region, cellSize, p).1 >= 0
  {
    DivNonneg(p.x - region.x as real, cellSize);
    DivNonneg(p.y - region.y as real, cellSize);
  }

  /**
   The validator. A candidate is accepted iff it lies in the envelope (far
   edges inclusive), passes the mask, falls into a cell of the grid, and no
   cell within two columns and two rows of its own references a point
   strictly closer than radius.
   */
  function IsValidPoint(p: Point, region: Rect, cellSize: real, radius: real, points: seq<Point>, grid: Grid, mask: Mask): (valid: bool)
    requires cellSize > 0.0 && IndexesBelow(grid, |points|)
    ensures valid <==>
      && InEnvelope(region, p)
      && MaskAllows(mask, p)
      && CellOf(region, cellSize, p).0 < grid.width
      && CellOf(region, cellSize, p).1 < grid.height
      && !NearConflict(grid, points, p, radius, CellOf(region, cellSize, p))
  {
    if p.x < region.x as real || p.y < region.y as real then false
    else if p.x > (region.x + region.w) as real || p.y > (region.y + region.h) as real then false
    else if mask.Bitmap? && !mask.lit(Trunc(p.x), Trunc(p.y)) then false
    else
      var cellX := Trunc((p.x - region.x as real) / cellSize);
      var cellY := Trunc((p.y - region.y as real) / cellSize);
      var gridXCount := grid.width - 1;
      var gridYCount := grid.height - 1;
      if cellX > gridXCount || cellY > gridYCount then false
      else
        CellOfInEnvelope(region, cellSize, p);
        var searchStartX := Max(0, cellX - 2);
        var searchEndX := Min(cellX + 2, gridXCount);
        var searchStartY := Max(0, cellY - 2);
        var searchEndY := Min(cellY + 2, gridYCount);
        var conflict := ScanWindow(grid, points, p, radius, searchStartY, searchEndY, searchStartX, searchEndX);
        assert conflict <==> NearConflict(grid, points, p, radius, (cellX, cellY));
        !conflict
  }

  /** Two in-envelope points closer than radius have cells at most two apart on each axis. */
  lemma CloseMeansNearCells(p: Point, q: Point, region: Rect, cellSize: real, radius: real)
    requires CellMatchesRadius(radius, cellSize)
    requires InEnvelope(region, p) && InEnvelope(region, q)
    requires SqDist(p, q) < Sq(radius)
    ensures -2 <= CellOf(region, cellSize, p).0 - CellOf(region, cellSize, q).0 <= 2
    ensures -2 <= CellOf(region, cellSize, p).1 - CellOf(region, cellSize, q).1 <= 2
  {
    RadiusBelowTwoCells(radius, cellSize);
    RootBelow(p.x - q.x, radius);
    RootBelow(p.y - q.y, radius);
    NearbyCells(p.x - region.x as real, q.x - region.x as real, cellSize);
    NearbyCells(p.y - region.y as real, q.y - region.y as real, cellSize);
  }

  /** Two in-envelope points sharing a cell are closer than radius. */
  lemma SameCellMeansClose(p: Point, q: Point, region: Rect, cellSize: real, radius: real)
    requires CellMatchesRadius(radius, cellSize)
    requires InEnvelope(region, p) && InEnvelope(region, q)
    requires CellOf(region, cellSize, p) == CellOf(region, cellSize, q)
    ensures SqDist(p, q) < Sq(radius)
  {
    SameCellIsNear(p.x - region.x as real, q.x - region.x as real, cellSize);
    SameCellIsNear(p.y - region.y as real, q.y - region.y as real, cellSize);
    SqBelow(p.x - q.x, cellSize);
    SqBelow(p.y - q.y, cellSize);
  }

  /**
   Window sufficiency: with r² = 2·cellSize², a point closer than radius to
   an accepted candidate always sits in the ±2 window, so an accepted
   candidate is at least radius away from every point in the list.
   */
  lemma ValidIsSeparated(p: Point, region: Rect, cellSize: real, radius: real, points: seq<Point>, grid: Grid, mask: Mask)
    requires CellMatchesRadius(radius, cellSize)
    requires Indexed(region, cellSize, points, grid)
    requires IsValidPoint(p, region, cellSize, radius, points, grid, mask)
    ensures forall i :: 0 <= i < |points| ==> SqDist(p, points[i]) >= Sq(radius)
  {
    NoNearConflictIsSeparated(p, region, cellSize, radius, points, grid);
  }

  lemma NoNearConflictIsSeparated(p: Point, region: Rect, cellSize: real, radius: real, points: seq<Point>, grid: Grid)
    requires CellMatchesRadius(radius, cellSize)
    requires Indexed(region, cellSize, points, grid)
    requires InEnvelope(region, p)
    requires !NearConflict(grid, points, p, radius, CellOf(region, cellSize, p))
    ensures forall i :: 0 <= i < |points| ==> SqDist(p, points[i]) >= Sq(radius)
  {
    forall i | 0 <= i < |points|
      ensures SqDist(p, points[i]) >= Sq(radius)
    {
      if SqDist(p, points[i]) < Sq(radius) {
        CloseIsNearConflict(p, region, cellSize, radius, points, grid, i);
        assert false;
      }
    }
  }

  /** A point closer than radius is found by the window scan around p's cell. */
  lemma CloseIsNearConflict(p: Point, region: Rect, cellSize: real, radius: real, points: seq<Point>, grid: Grid, i: int)
    requires CellMatchesRadius(radius, cellSize)
    requires Indexed(region, cellSize, points, grid)
    requires InEnvelope(region, p)
    requires 0 <= i < |points| && SqDist(p, points[i]) < Sq(radius)
    ensures NearConflict(grid, points, p, radius, CellOf(region, cellSize, p))
  {
    var c := CellOf(region, cellSize, points[i]);
    assert Registered(region, cellSize, points, grid, i);
    CloseMeansNearCells(p, points[i], region, cellSize, radius);
    assert Hits(grid, points, p, radius, c.0, c.1);
  }

  /** No spurious rejection: a point in the envelope, passing the mask, inside the grid and far from all points is accepted. */
  lemma SeparatedIsValid(p: Point, region: Rect, cellSize: real, radius: real, points: seq<Point>, grid: Grid, mask: Mask)
    requires cellSize > 0.0
    requires Indexed(region, cellSize, points, grid)
    requires InEnvelope(region, p) && MaskAllows(mask, p)
    requires CellOf(region, cellSize, p).0 < grid.width && CellOf(region, cellSize, p).1 < grid.height
    requires forall i :: 0 <= i < |points| ==> SqDist(p, points[i]) >= Sq(radius)
    ensures IsValidPoint(p, region, cellSize, radius, points, grid, mask)
  {
  }

  /**
   The grid scan decides exactly what a brute-force scan over all accepted
   points decides (given a consistent grid and r² = 2·cellSize²).
   */
  lemma ValidIffSeparated(p: Point, region: Rect, cellSize: real, radius: real, points: seq<Point>, grid: Grid, mask: Mask)
    requires CellMatchesRadius(radius, cellSize)
    requires Indexed(region, cellSize, points, grid)
    ensures IsValidPoint(p, region, cellSize, radius, points, grid, mask) <==>
      && InEnvelope(region, p)
      && MaskAllows(mask, p)
      && CellOf(region, cellSize, p).0 < grid.width
      && CellOf(region, cellSize, p).1 < grid.height
      && forall i :: 0 <= i < |points| ==> SqDist(p, points[i]) >= Sq(radius)
  {
    if IsValidPoint(p, region, cellSize, radius, points, grid, mask) {
      ValidIsSeparated(p, region, cellSize, radius, points, grid, mask);
    } else if && InEnvelope(region, p) && MaskAllows(mask, p)
              && CellOf(region, cellSize, p).0 < grid.width && CellOf(region, cellSize, p).1 < grid.height
              && forall i :: 0 <= i < |points| ==> SqDist(p, points[i]) >= Sq(radius) {
      SeparatedIsValid(p, region, cellSize, radius, points, grid, mask);
    }
  }

  /**
   Two points in one cell are closer than radius, so an accepted candidate's
   cell is always empty: a cell is never overwritten.
   */
  lemma ValidCellIsEmpty(p: Point, region: Rect, cellSize: real, radius: real, points: seq<Point>, grid: Grid, mask: Mask)
    requires CellMatchesRadius(radius, cellSize)
    requires Indexed(region, cellSize, points, grid)
    requires IsValidPoint(p, region, cellSize, radius, points, grid, mask)
    ensures var c := CellOf(region, cellSize, p); grid.InRange(c.0, c.1) && grid.Get(c.0, c.1) == 0
  {
    CellOfInEnvelope(region, cellSize, p);
    NoNearConflictCellEmpty(p, region, cellSize, radius, points, grid);
  }

  lemma NoNearConflictCellEmpty(p: Point, region: Rect, cellSize: real, radius: real, points: seq<Point>, grid: Grid)
    requires CellMatchesRadius(radius, cellSize)
    requires Indexed(region, cellSize, points, grid)
    requires InEnvelope(region, p)
    requires var c := CellOf(region, cellSize, p); grid.InRange(c.0, c.1)
    requires !NearConflict(grid, points, p, radius, CellOf(region, cellSize, p))
    ensures var c := CellOf(region, cellSize, p); grid.Get(c.0, c.1) == 0
  {
    var c := CellOf(region, cellSize, p);
    if grid.Get(c.0, c.1) != 0 {
      OccupiedIsNearConflict(p, region, cellSize, radius, points, grid);
      assert false;
    }
  }

  /** An occupied own cell is always a conflict. */
  lemma OccupiedIsNearConflict(p: Point, region: Rect, cellSize: real, radius: real, points: seq<Point>, grid: Grid)
    requires CellMatchesRadius(radius, cellSize)
    requires Indexed(region, cellSize, points, grid)
    requires InEnvelope(region, p)
    requires var c := CellOf(region, cellSize, p); grid.InRange(c.0, c.1) && grid.Get(c.0, c.1) != 0
    ensures NearConflict(grid, points, p, radius, CellOf(region, cellSize, p))
  {
    var c := CellOf(region, cellSize, p);
    assert CellRefersBack(region, cellSize, points, grid, c.0, c.1);
    var q := points[grid.Get(c.0, c.1) - 1];
    SameCellMeansClose(p, q, region, cellSize, radius);
    assert Hits(grid, points, p, radius, c.0, c.1);
  }

  /** A fresh grid indexes the empty point list. */
  lemma IndexedEmpty(region: Rect, cellSize: real, width: nat, height: nat)
    requires cellSize > 0.0
    ensures Indexed(region, cellSize, [], Zeros(width, height))
  {
    var g := Zeros(width, height);
    forall x, y
      ensures CellRefersBack(region, cellSize, [], g, x, y)
    {
    }
  }

  /**
   The grid write after an acceptance: storing |points| + 1 into the empty
   cell of an in-envelope point c keeps the grid an exact index of points + [c].
   */
  lemma IndexedInsert(region: Rect, cellSize: real, points: seq<Point>, g: Grid, c: Point)
    requires Indexed(region, cellSize, points, g)
    requires InEnvelope(region, c)
    requires var k := CellOf(region, cellSize, c); g.InRange(k.0, k.1) && g.Get(k.0, k.1) == 0
    ensures var k := CellOf(region, cellSize, c);
      Indexed(region, cellSize, points + [c], g.Set(k.0, k.1, |points| + 1))
  {
    var k := CellOf(region, cellSize, c);
    var ps := points + [c];
    var g' := g.Set(k.0, k.1, |points| + 1);
    forall x, y | g'.InRange(x, y)
      ensures g'.Get(x, y) <= |ps|
    {
    }
    forall x, y
      ensures CellRefersBack(region, cellSize, ps, g', x, y)
    {
      if g'.InRange(x, y) && g'.Get(x, y) != 0 && (x != k.0 || y != k.1) {
        assert CellRefersBack(region, cellSize, points, g, x, y);
        assert ps[g'.Get(x, y) - 1] == points[g.Get(x, y) - 1];
      }
    }
    forall i | 0 <= i < |ps|
      ensures Registered(region, cellSize, ps, g', i)
    {
      if i < |points| {
        assert Registered(region, cellSize, points, g, i);
        assert ps[i] == points[i];
      }
    }
  }

  /** Distinct points of an indexed list sit in distinct cells. */
  lemma IndexedCellsDistinct(region: Rect, cellSize: real, points: seq<Point>, g: Grid, i: int, j: int)
    requires Indexed(region, cellSize, points, g)
    requires 0 <= i < j < |points|
    ensures CellOf(region, cellSize, points[i]) != CellOf(region, cellSize, points[j])
  {
    assert Registered(region, cellSize, points, g, i);
    assert Registered(region, cellSize, points, g, j);
  }
}
