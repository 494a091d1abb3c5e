/**
 The acceleration grid: a dense width × height array of cells, each holding 0
 for "empty" or a 1-based index into the list of accepted points.
 */
module SpatialGrid {
  import opened Geometry

  /** `cells[x][y]` is the cell in column x and row y, as in the source's `int[,]`. */
  datatype Grid = Grid(width: nat, height: nat, cells: seq<seq<nat>>) {

    predicate Valid() {
      && |cells| == width
      && forall x :: 0 <= x < width ==> |cells[x]| == height
    }

    predicate InRange(x: int, y: int) {
      0 <= x < width && 0 <= y < height
    }

    function Get(x: int, y: int): nat
      requires Valid() && InRange(x, y)
    {
      cells[x][y]
    }

    /** Store v in one cell; every other cell keeps its value. */
    function Set(x: int, y: int, v: nat): (g: Grid)
      requires Valid() && InRange(x, y)
      ensures g.Valid() && g.width == width && g.height == height
      ensures g.Get(x, y) == v
      ensures forall a, b :: InRange(a, b) && (a != x || b != y) ==> g.Get(a, b) == Get(a, b)
    {
      var col: seq<nat> := cells[x][y := v];
      Grid(width, height, cells[x := col])
    }
  }

  /** A freshly allocated grid: every cell empty. */
  function Zeros(width: nat, height: nat): (g: Grid)
    ensures g.Valid() && g.width == width && g.height == height
    ensures forall x, y :: g.InRange(x, y) ==> g.Get(x, y) == 0
  {
    Grid(width, height, seq(width, _ => seq(height, _ => 0)))
  }

  /** The cell a point falls into: its offset from the region origin, divided by the cell size and cast to int. */
  function CellOf(region: Rect, cellSize: real, p: Point): (int, int)
    requires cellSize > 0.0
  {
    (Trunc((p.x - region.x as real) / cellSize), Trunc((p.y - region.y as real) / cellSize))
  }

  /**
   The cell index on one axis: for an offset at or after the origin, the cell
   whose span [n·cellSize, (n+1)·cellSize) holds the offset; the cast truncates
   toward zero, so an offset less than one cell before the origin also lands in cell 0.
   */
  lemma AxisCell(u: real, cellSize: real)
    requires cellSize > 0.0
    ensures u >= 0.0 ==>
      (0 <= Trunc(u / cellSize) && Trunc(u / cellSize) as real * cellSize <= u < (Trunc(u / cellSize) + 1) as real * cellSize)
    ensures -cellSize < u < 0.0 ==> Trunc(u / cellSize) == 0
  {
    var q := u / cellSize;
    var n := Trunc(q);
    assert q * cellSize == u;
    if u >= 0.0 {
      DivNonneg(u, cellSize);
      MulMonotone(n as real, q, cellSize);
      assert q < (n + 1) as real;
      MulMonotone(q, (n + 1) as real, cellSize);
      assert u < (n + 1) as real * cellSize;
    } else if -cellSize < u {
      MulMonotone(0.0, q, cellSize);
      MulMonotone(q, -1.0, cellSize);
    }
  }

  /** CellOf locates a point: per axis, the cell whose span holds the point's offset from the region origin. */
  lemma CellOfIsFloor(region: Rect, cellSize: real, p: Point)
    requires cellSize > 0.0
    ensures var c := CellOf(region, cellSize, p);
      && (region.x as real <= p.x ==>
            0 <= c.0 && region.x as real + c.0 as real * cellSize <= p.x < region.x as real + (c.0 + 1) as real * cellSize)
      && (region.y as real <= p.y ==>
            0 <= c.1 && region.y as real + c.1 as real * cellSize <= p.y < region.y as real + (c.1 + 1) as real * cellSize)
      && (region.x as real - cellSize < p.x < region.x as real ==> c.0 == 0)
      && (region.y as real - cellSize < p.y < region.y as real ==> c.1 == 0)
  {
    AxisCell(p.x - region.x as real, cellSize);
    AxisCell(p.y - region.y as real, cellSize);
  }

  /** Number of zero entries in one column. */
  function ZeroCount(s: seq<nat>): nat {
    if |s| == 0 then 0 else (if s[0] == 0 then 1 else 0) + ZeroCount(s[1..])
  }

  /** Number of empty cells over all columns. */
  function EmptyCells(cols: seq<seq<nat>>): nat {
    if |cols| == 0 then 0 else ZeroCount(cols[0]) + EmptyCells(cols[1..])
  }

  function EmptyCount(g: Grid): nat {
    EmptyCells(g.cells)
  }

  lemma {:induction false} ZeroCountOfZeros(n: nat)
    ensures ZeroCount(seq(n, _ => 0)) == n
  {
    if n > 0 {
      assert seq(n, _ => 0)[1..] == seq(n - 1, _ => 0);
      ZeroCountOfZeros(n - 1);
    }
  }

  lemma {:induction false} EmptyCellsOfZeros(w: nat, h: nat)
    ensures EmptyCells(seq(w, _ => seq(h, _ => 0))) == w * h
  {
    var cols := seq(w, _ => seq(h, _ => 0));
    if w > 0 {
      var rest := seq(w - 1, _ => seq(h, _ => 0));
      assert cols[1..] == rest;
      assert cols[0] == seq(h, _ => 0);
      ZeroCountOfZeros(h);
      EmptyCellsOfZeros(w - 1, h);
      assert EmptyCells(cols) == h + EmptyCells(rest);
      assert w * h == h + (w - 1) * h;
    }
  }

  /** A fresh grid has every one of its width × height cells empty. */
  lemma ZerosAllEmpty(width: nat, height: nat)
    ensures EmptyCount(Zeros(width, height)) == width * height
  {
    EmptyCellsOfZeros(width, height);
  }

  lemma {:induction false} ZeroCountUpdate(s: seq<nat>, i: nat, v: nat)
    requires i < |s|
    ensures ZeroCount(s[i := v]) == ZeroCount(s) - (if s[i] == 0 then 1 else 0) + (if v == 0 then 1 else 0)
  {
    if i > 0 {
      assert s[i := v][1..] == s[1..][i - 1 := v];
      ZeroCountUpdate(s[1..], i - 1, v);
    } else {
      assert s[i := v][1..] == s[1..];
    }
  }

  lemma {:induction false} EmptyCellsUpdate(cols: seq<seq<nat>>, x: nat, col: seq<nat>)
    requires x < |cols|
    ensures EmptyCells(cols[x := col]) == EmptyCells(cols) - ZeroCount(cols[x]) + ZeroCount(col)
  {
    if x > 0 {
      assert cols[x := col][1..] == cols[1..][x - 1 := col];
      EmptyCellsUpdate(cols[1..], x - 1, col);
    } else {
      assert cols[x := col][1..] == cols[1..];
    }
  }

  /** Writing a nonzero index into an empty cell removes exactly one empty cell. */
  lemma FillEmptyCell(g: Grid, x: int, y: int, v: nat)
    requires g.Valid() && g.InRange(x, y) && g.Get(x, y) == 0 && v != 0
    ensures EmptyCount(g.Set(x, y, v)) == EmptyCount(g) - 1
  {
    ZeroCountUpdate(g.cells[x], y, v);
    var col: seq<nat> := g.cells[x][y := v];
    EmptyCellsUpdate(g.cells, x, col);
  }
}
