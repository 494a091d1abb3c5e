/**
 The sequential sampler: seeding, the FIFO pending queue, the attempt loop and
 the grid write after each acceptance. One sampler serves both the whole-region
 generator and the per-tile generator; they differ only in the grid size.

 The random candidate generator is an oracle: `offsets(n)` is the displacement
 the n-th draw produces (the source turns two uniform floats into an angle and
 a distance in [radius, 3·radius)). The state counts how many draws were used.
 */
module Sampler {
  import opened Geometry
  import opened SpatialGrid
  import opened Validator

  datatype Option<T> = None | Some(value: T)

  /** The sampler's fixed inputs; cellSize is radius / √2, stated as r² = 2·cellSize². */
  datatype Config = Config(radius: real, cellSize: real, region: Rect, attemptNum: int, mask: Mask) {
    predicate Valid() {
      CellMatchesRadius(radius, cellSize)
    }
  }

  /** The loop state: accepted points, the pending queue, the grid, and the draws consumed. */
  datatype State = State(points: seq<Point>, pending: seq<Point>, grid: Grid, draws: nat)

  /** Every pair of accepted points is at least radius apart. */
  ghost predicate Separated(points: seq<Point>, radius: real) {
    forall i, j :: 0 <= i < j < |points| ==> SqDist(points[j], points[i]) >= Sq(radius)
  }

  /**
   What the loop keeps: the grid indexes the points exactly, every point passed
   the mask, points are pairwise separated, and each accepted point has used
   up one cell of the grid.
   */
  ghost predicate Inv(cfg: Config, st: State) {
    && cfg.Valid()
    && Indexed(cfg.region, cfg.cellSize, st.points, st.grid)
    && (forall i :: 0 <= i < |st.points| ==> MaskAllows(cfg.mask, st.points[i]))
    && Separated(st.points, cfg.radius)
    && EmptyCount(st.grid) + |st.points| == st.grid.width * st.grid.height
  }

  /** The termination measure: an acceptance uses a cell (−2) and queues a point (+1); a failure dequeues one. */
  function Measure(st: State): nat {
    2 * EmptyCount(st.grid) + |st.pending|
  }

  // ---------------------------------------------------------------- seeding

  /** Row-major order on integer pixel positions (x, y). */
  predicate RowMajorBefore(p: (int, int), q: (int, int)) {
    p.1 < q.1 || (p.1 == q.1 && p.0 < q.0)
  }

  /** The point at integer pixel position (x, y). */
  function Pixel(x: int, y: int): Point {
    Point(x as real, y as real)
  }

  /** Lit pixels of row y with x in [x, xEnd), left to right. */
  function RowPixels(lit: (int, int) -> bool, y: int, x: int, xEnd: int): (r: seq<(int, int)>)
    decreases xEnd - x
    ensures forall k :: 0 <= k < |r| ==> r[k].1 == y && x <= r[k].0 < xEnd && lit(r[k].0, r[k].1)
    ensures forall a :: x <= a < xEnd && lit(a, y) ==> (a, y) in r
    ensures forall j, k :: 0 <= j < k < |r| ==> r[j].0 < r[k].0
  {
    if x >= xEnd then []
    else if lit(x, y) then [(x, y)] + RowPixels(lit, y, x + 1, xEnd)
    else RowPixels(lit, y, x + 1, xEnd)
  }

  /** Lit pixels of rows [y, yEnd) inside columns [x, xEnd), row by row, as the two nested loops visit them. */
  function LitPixels(lit: (int, int) -> bool, x: int, xEnd: int, y: int, yEnd: int): (r: seq<(int, int)>)
    decreases yEnd - y
    ensures forall k :: 0 <= k < |r| ==> x <= r[k].0 < xEnd && y <= r[k].1 < yEnd && lit(r[k].0, r[k].1)
    ensures forall a, b :: x <= a < xEnd && y <= b < yEnd && lit(a, b) ==> (a, b) in r
    ensures forall j, k :: 0 <= j < k < |r| ==> RowMajorBefore(r[j], r[k])
  {
    if y >= yEnd then []
    else
      var row := RowPixels(lit, y, x, xEnd);
      var rest := LitPixels(lit, x, xEnd, y + 1, yEnd);
      PixelRowThenRest(row, rest, y);
      row + rest
  }

  lemma PixelRowThenRest(row: seq<(int, int)>, rest: seq<(int, int)>, y: int)
    requires forall k :: 0 <= k < |row| ==> row[k].1 == y
    requires forall k :: 0 <= k < |rest| ==> rest[k].1 > y
    requires forall j, k :: 0 <= j < k < |row| ==> row[j].0 < row[k].0
    requires forall j, k :: 0 <= j < k < |rest| ==> RowMajorBefore(rest[j], rest[k])
    ensures forall j, k :: 0 <= j < k < |row + rest| ==> RowMajorBefore((row + rest)[j], (row + rest)[k])
  {
  }

  /**
   The unmasked seed: `(position + size) / 2` per axis in C# integer division,
   i.e. the pixel at half of position + size, rounded toward zero.
   */
  function CentreSeed(region: Rect): (s: Point)
    ensures s == Pixel(s.x.Floor, s.y.Floor)
    ensures region.x + region.w >= 0 ==> s.x <= (region.x + region.w) as real / 2.0 < s.x + 1.0
    ensures region.x + region.w < 0 ==> s.x - 1.0 < (region.x + region.w) as real / 2.0 <= s.x
    ensures region.y + region.h >= 0 ==> s.y <= (region.y + region.h) as real / 2.0 < s.y + 1.0
    ensures region.y + region.h < 0 ==> s.y - 1.0 < (region.y + region.h) as real / 2.0 <= s.y
  {
    Pixel(TruncDiv(region.x + region.w, 2), TruncDiv(region.y + region.h, 2))
  }

  /**
   The initial pending queue. Without a mask it is the single seed; with one it
   holds exactly the lit pixels of the region, each once, in row-major order.
   */
  function Seeds(region: Rect, mask: Mask): (r: seq<Point>)
    ensures mask.NoMask? ==> r == [CentreSeed(region)]
    ensures mask.Bitmap? ==> forall k :: 0 <= k < |r| ==>
      && r[k] == Pixel(r[k].x.Floor, r[k].y.Floor)
      && region.x <= r[k].x.Floor < region.XEnd() && region.y <= r[k].y.Floor < region.YEnd()
      && mask.lit(r[k].x.Floor, r[k].y.Floor)
    ensures mask.Bitmap? ==> forall a, b :: region.x <= a < region.XEnd() && region.y <= b < region.YEnd() && mask.lit(a, b) ==>
      Pixel(a, b) in r
    ensures mask.Bitmap? ==> forall j, k :: 0 <= j < k < |r| ==>
      r[j].y < r[k].y || (r[j].y == r[k].y && r[j].x < r[k].x)
  {
    match mask
    case NoMask => [CentreSeed(region)]
    case Bitmap(lit) =>
      var px := LitPixels(lit, region.x, region.XEnd(), region.y, region.YEnd());
      var r := seq(|px|, k requires 0 <= k < |px| => Pixel(px[k].0, px[k].1));
      PixelsAsPoints(region, lit, px, r);
      r
  }

  /** The lit-pixel facts carried from integer pairs over to the points they become. */
  lemma PixelsAsPoints(region: Rect, lit: (int, int) -> bool, px: seq<(int, int)>, r: seq<Point>)
    requires |r| == |px| && forall k :: 0 <= k < |r| ==> r[k] == Pixel(px[k].0, px[k].1)
    requires forall k :: 0 <= k < |px| ==>
      region.x <= px[k].0 < region.XEnd() && region.y <= px[k].1 < region.YEnd() && lit(px[k].0, px[k].1)
    requires forall a, b :: region.x <= a < region.XEnd() && region.y <= b < region.YEnd() && lit(a, b) ==> (a, b) in px
    requires forall j, k :: 0 <= j < k < |px| ==> RowMajorBefore(px[j], px[k])
    ensures forall k :: 0 <= k < |r| ==>
      && r[k] == Pixel(r[k].x.Floor, r[k].y.Floor)
      && region.x <= r[k].x.Floor < region.XEnd() && region.y <= r[k].y.Floor < region.YEnd()
      && lit(r[k].x.Floor, r[k].y.Floor)
    ensures forall a, b :: region.x <= a < region.XEnd() && region.y <= b < region.YEnd() && lit(a, b) ==>
      Pixel(a, b) in r
    ensures forall j, k :: 0 <= j < k < |r| ==>
      r[j].y < r[k].y || (r[j].y == r[k].y && r[j].x < r[k].x)
  {
    forall k | 0 <= k < |r|
      ensures r[k].x.Floor == px[k].0 && r[k].y.Floor == px[k].1
    {
    }
    forall a, b | region.x <= a < region.XEnd() && region.y <= b < region.YEnd() && lit(a, b)
      ensures Pixel(a, b) in r
    {
      var k :| 0 <= k < |px| && px[k] == (a, b);
      assert r[k] == Pixel(a, b);
    }
  }

  /**
   The unmasked seed truncates (x + w) / 2, which is the region's centre only
   for a region at the origin; for a nonnegative region it lies inside the
   envelope exactly when the size is at least the position on both axes.
   */
  lemma CentreSeedInEnvelope(region: Rect)
    requires region.x >= 0 && region.y >= 0 && region.w >= 0 && region.h >= 0
    ensures InEnvelope(region, CentreSeed(region)) <==> region.w >= region.x && region.h >= region.y
  {
    var sx := TruncDiv(region.x + region.w, 2);
    var sy := TruncDiv(region.y + region.h, 2);
    assert sx >= region.x <==> region.w >= region.x;
    assert sy >= region.y <==> region.h >= region.y;
  }

  /** For a region at the origin the seed is the centre, rounded down to a pixel. */
  lemma CentreSeedAtOrigin(region: Rect)
    requires region.x == 0 && region.y == 0 && region.w >= 0 && region.h >= 0
    ensures CentreSeed(region).x <= region.w as real / 2.0 < CentreSeed(region).x + 1.0
    ensures CentreSeed(region).y <= region.h as real / 2.0 < CentreSeed(region).y + 1.0
  {
  }

  /** A fresh run: no points, an empty grid of the given size, the seeds queued. */
  function Start(cfg: Config, width: nat, height: nat): (st: State)
    requires cfg.Valid()
    ensures Inv(cfg, st)
    ensures st.points == [] && st.pending == Seeds(cfg.region, cfg.mask) && st.draws == 0
    ensures st.grid.width == width && st.grid.height == height
  {
    IndexedEmpty(cfg.region, cfg.cellSize, width, height);
    ZerosAllEmpty(width, height);
    State([], Seeds(cfg.region, cfg.mask), Zeros(width, height), 0)
  }

  // ---------------------------------------------------------------- attempts

  /**
   The candidate of attempt i: always around the queue head (the origin is
   `pendingPoints[0]`, never a random index), displaced by the draw numbered draws + i.
   */
  function Candidate(offsets: nat -> Point, st: State, i: nat): (c: Point)
    requires |st.pending| > 0
    ensures c.x - st.pending[0].x == offsets(st.draws + i).x
    ensures c.y - st.pending[0].y == offsets(st.draws + i).y
  {
    Add(st.pending[0], offsets(st.draws + i))
  }

  /** Whether attempt i's candidate passes the validator. */
  predicate ValidAt(cfg: Config, offsets: nat -> Point, st: State, i: nat)
    requires Inv(cfg, st) && |st.pending| > 0
  {
    IsValidPoint(Candidate(offsets, st, i), cfg.region, cfg.cellSize, cfg.radius, st.points, st.grid, cfg.mask)
  }

  /** The attempt loop from attempt i on: the first valid attempt below attemptNum, if any. */
  function FirstValid(cfg: Config, offsets: nat -> Point, st: State, i: nat): (r: Option<nat>)
    requires Inv(cfg, st) && |st.pending| > 0
    decreases cfg.attemptNum - i
    ensures r.Some? ==> i <= r.value < cfg.attemptNum && ValidAt(cfg, offsets, st, r.value)
    ensures r.Some? ==> forall k :: i <= k < r.value ==> !ValidAt(cfg, offsets, st, k)
    ensures r.None? <==> forall k :: i <= k < cfg.attemptNum ==> !ValidAt(cfg, offsets, st, k)
  {
    if i >= cfg.attemptNum then None
    else if ValidAt(cfg, offsets, st, i) then Some(i)
    else FirstValid(cfg, offsets, st, i + 1)
  }

  /** Accept a valid candidate: append it to both lists and record it in its cell. */
  function Accept(cfg: Config, st: State, c: Point): (st': State)
    requires Inv(cfg, st)
    requires IsValidPoint(c, cfg.region, cfg.cellSize, cfg.radius, st.points, st.grid, cfg.mask)
    ensures Inv(cfg, st')
    ensures st'.points == st.points + [c] && st'.pending == st.pending + [c] && st'.draws == st.draws
    ensures st'.grid.width == st.grid.width && st'.grid.height == st.grid.height
    ensures EmptyCount(st'.grid) == EmptyCount(st.grid) - 1
    ensures var k := CellOf(cfg.region, cfg.cellSize, c); st'.grid.InRange(k.0, k.1) && st'.grid.Get(k.0, k.1) == |st'.points|
  {
    var k := CellOf(cfg.region, cfg.cellSize, c);
    ValidCellIsEmpty(c, cfg.region, cfg.cellSize, cfg.radius, st.points, st.grid, cfg.mask);
    ValidIsSeparated(c, cfg.region, cfg.cellSize, cfg.radius, st.points, st.grid, cfg.mask);
    IndexedInsert(cfg.region, cfg.cellSize, st.points, st.grid, c);
    FillEmptyCell(st.grid, k.0, k.1, |st.points| + 1);
    var st' := State(st.points + [c], st.pending + [c], st.grid.Set(k.0, k.1, |st.points| + 1), st.draws);
    assert Separated(st'.points, cfg.radius) by {
      forall i, j | 0 <= i < j < |st'.points|
        ensures SqDist(st'.points[j], st'.points[i]) >= Sq(cfg.radius)
      {
        if j < |st.points| {
          assert st'.points[j] == st.points[j] && st'.points[i] == st.points[i];
        }
      }
    }
    st'
  }

  /**
   One iteration of the outer loop on the queue head: the least valid attempt
   (if any) is accepted and queued at the back while the head stays; if every
   attempt fails, the head is dequeued and nothing else changes.
   */
  function Step(cfg: Config, offsets: nat -> Point, st: State): (st': State)
    requires Inv(cfg, st) && |st.pending| > 0
    ensures Inv(cfg, st')
    ensures st'.grid.width == st.grid.width && st'.grid.height == st.grid.height
    ensures Measure(st') < Measure(st)
    ensures (forall k :: 0 <= k < cfg.attemptNum ==> !ValidAt(cfg, offsets, st, k)) ==>
      && st'.points == st.points && st'.pending == st.pending[1..] && st'.grid == st.grid
      && st'.draws == st.draws + Max(cfg.attemptNum, 0)
    ensures (exists k :: 0 <= k < cfg.attemptNum && ValidAt(cfg, offsets, st, k)) ==>
      exists i :: 0 <= i < cfg.attemptNum && ValidAt(cfg, offsets, st, i)
        && (forall k :: 0 <= k < i ==> !ValidAt(cfg, offsets, st, k))
        && st'.points == st.points + [Candidate(offsets, st, i)]
        && st'.pending == st.pending + [Candidate(offsets, st, i)]
        && st'.draws == st.draws + i + 1
  {
    match FirstValid(cfg, offsets, st, 0)
    case Some(i) =>
      var c := Candidate(offsets, st, i);
      var st1 := Accept(cfg, st, c);
      st1.(draws := st.draws + i + 1)
    case None =>
      st.(pending := st.pending[1..], draws := st.draws + Max(cfg.attemptNum, 0))
  }

  // ---------------------------------------------------------------- the run

  /**
   The outer `while` loop as a function: Step until the pending queue is empty.
   The accepted points only grow, and the grid keeps its size.
   */
  function Loop(cfg: Config, offsets: nat -> Point, st: State): (r: State)
    requires Inv(cfg, st)
    decreases Measure(st)
    ensures |r.pending| == 0
    ensures st.points <= r.points
    ensures r.grid.width == st.grid.width && r.grid.height == st.grid.height
  {
    if |st.pending| == 0 then st else Loop(cfg, offsets, Step(cfg, offsets, st))
  }

  /** The points one sampler run returns on a width × height grid. */
  function Sample(cfg: Config, offsets: nat -> Point, width: nat, height: nat): seq<Point>
    requires cfg.Valid()
  {
    Loop(cfg, offsets, Start(cfg, width, height)).points
  }

  /**
   The whole sampling loop on a grid of width × height cells: Step until the
   queue is empty. The result is pairwise separated, inside the envelope,
   passes the mask, has one point per cell at most, and so never exceeds the
   grid's capacity.
   */
  method Run(cfg: Config, offsets: nat -> Point, width: nat, height: nat) returns (points: seq<Point>, grid: Grid)
    requires cfg.Valid()
    ensures Separated(points, cfg.radius)
    ensures Indexed(cfg.region, cfg.cellSize, points, grid) && grid.width == width && grid.height == height
    ensures forall i :: 0 <= i < |points| ==> InEnvelope(cfg.region, points[i]) && MaskAllows(cfg.mask, points[i])
    ensures forall i :: 0 <= i < |points| ==>
      var c := CellOf(cfg.region, cfg.cellSize, points[i]); 0 <= c.0 < width && 0 <= c.1 < height
    ensures forall i, j :: 0 <= i < j < |points| ==>
      CellOf(cfg.region, cfg.cellSize, points[i]) != CellOf(cfg.region, cfg.cellSize, points[j])
    ensures |points| <= width * height
    ensures points == Sample(cfg, offsets, width, height)
  {
    var st := Start(cfg, width, height);
    while |st.pending| > 0
      invariant Inv(cfg, st)
      invariant st.grid.width == width && st.grid.height == height
      invariant Loop(cfg, offsets, st) == Loop(cfg, offsets, Start(cfg, width, height))
      decreases Measure(st)
    {
      st := Step(cfg, offsets, st);
    }
    points, grid := st.points, st.grid;
    forall i | 0 <= i < |points|
      ensures var c := CellOf(cfg.region, cfg.cellSize, points[i]); 0 <= c.0 < width && 0 <= c.1 < height
    {
      assert Registered(cfg.region, cfg.cellSize, points, grid, i);
    }
    forall i, j | 0 <= i < j < |points|
      ensures CellOf(cfg.region, cfg.cellSize, points[i]) != CellOf(cfg.region, cfg.cellSize, points[j])
    {
      IndexedCellsDistinct(cfg.region, cfg.cellSize, points, grid, i, j);
    }
  }

  /** The grid size the whole-region generator allocates: ceil(size / cellSize) per axis. */
  function FullGridSize(region: Rect, cellSize: real): (dims: (nat, nat))
    requires cellSize > 0.0 && region.w >= 0 && region.h >= 0
    ensures dims.0 as real - 1.0 < region.w as real / cellSize <= dims.0 as real
    ensures dims.1 as real - 1.0 < region.h as real / cellSize <= dims.1 as real
  {
    DivNonneg(region.w as real, cellSize);
    DivNonneg(region.h as real, cellSize);
    (Ceil(region.w as real / cellSize), Ceil(region.h as real / cellSize))
  }

  /**
   The whole-region generator: one sampler over a grid covering the region.
   An empty region gets a grid without cells, so every candidate fails the
   range guard and the result is empty.
   */
  method GeneratePoints(radius: real, cellSize: real, region: Rect, attemptNum: int, mask: Mask, offsets: nat -> Point)
    returns (points: seq<Point>)
    requires CellMatchesRadius(radius, cellSize) && region.w >= 0 && region.h >= 0
    ensures Separated(points, radius)
    ensures forall i :: 0 <= i < |points| ==> InEnvelope(region, points[i]) && MaskAllows(mask, points[i])
    ensures forall i, j :: 0 <= i < j < |points| ==> CellOf(region, cellSize, points[i]) != CellOf(region, cellSize, points[j])
    ensures |points| <= FullGridSize(region, cellSize).0 * FullGridSize(region, cellSize).1
    ensures region.w == 0 || region.h == 0 ==> points == []
    ensures points == Sample(Config(radius, cellSize, region, attemptNum, mask), offsets,
                             FullGridSize(region, cellSize).0, FullGridSize(region, cellSize).1)
  {
    var dims := FullGridSize(region, cellSize);
    var grid;
    points, grid := Run(Config(radius, cellSize, region, attemptNum, mask), offsets, dims.0, dims.1);
    if region.w == 0 || region.h == 0 {
      assert dims.0 == 0 || dims.1 == 0;
    }
  }

  /**
   On the whole-region grid the range guard only ever rejects points on the
   far edges: an envelope point strictly before x + w and y + h has a cell
   inside the grid.
   */
  lemma GuardOnlyAtFarEdge(region: Rect, cellSize: real, p: Point)
    requires cellSize > 0.0 && region.w > 0 && region.h > 0
    requires InEnvelope(region, p) && p.x < region.XEnd() as real && p.y < region.YEnd() as real
    ensures CellOf(region, cellSize, p).0 < FullGridSize(region, cellSize).0
    ensures CellOf(region, cellSize, p).1 < FullGridSize(region, cellSize).1
  {
    InteriorOffsetCell(p.x - region.x as real, region.w as real, cellSize);
    InteriorOffsetCell(p.y - region.y as real, region.h as real, cellSize);
  }
}
