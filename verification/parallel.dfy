/**
 The tiled generator: partition the region, run the sampler on every tile
 with a grid sized from the tile's index and the partition counters, and
 merge the per-tile results into one bag. Tiles run independently; their
 order of completion is irrelevant because the merge is a multiset union.
 */
module Parallel {
  import opened Geometry
  import opened SpatialGrid
  import opened Validator
  import opened Sampler
  import opened Partition

  /**
   The per-tile grid size. A tile drops its last column of cells unless
   index % blockXCount is the last column, and its last row unless
   index / blockXCount is the last row, so that neighbouring tiles do not
   sample right up to a shared border.
   */
  function TileGridSize(index: nat, blockXCount: int, blockYCount: int, tile: Rect, cellSize: real): (dims: (nat, nat))
    requires cellSize > 0.0 && tile.w > 0 && tile.h > 0 && blockXCount > 0
    ensures dims.0 <= FullGridSize(tile, cellSize).0 <= dims.0 + 1
    ensures dims.1 <= FullGridSize(tile, cellSize).1 <= dims.1 + 1
    ensures dims.0 == FullGridSize(tile, cellSize).0 <==> index % blockXCount == blockXCount - 1
    ensures dims.1 == FullGridSize(tile, cellSize).1 <==> index / blockXCount == blockYCount - 1
  {
    var full := FullGridSize(tile, cellSize);
    var gridWidth := if index % blockXCount != blockXCount - 1 then full.0 - 1 else full.0;
    var gridHeight := if index / blockXCount != blockYCount - 1 then full.1 - 1 else full.1;
    (gridWidth, gridHeight)
  }

  /**
   What the sizing does with the counters the partition really produces
   (blockXCount = the total tile count, blockYCount = the row count): every
   tile except the very last loses its last column, and every tile loses its
   last row unless there is only one row of tiles.
   */
  lemma TileGridQuirk(region: Rect, b: int, cellSize: real, index: nat)
    requires b > 0 && cellSize > 0.0 && index < |Tiling(region, b)|
    ensures var tiles := Tiling(region, b);
      && tiles[index].w > 0 && tiles[index].h > 0
      && var dims := TileGridSize(index, |tiles|, Count(region.h, b), tiles[index], cellSize);
      && (dims.0 == FullGridSize(tiles[index], cellSize).0 <==> index == |tiles| - 1)
      && (dims.1 == FullGridSize(tiles[index], cellSize).1 <==> Count(region.h, b) == 1)
  {
    var n := |Tiling(region, b)|;
    ModBelow(index, n);
  }

  lemma ModBelow(i: nat, n: int)
    requires i < n
    ensures i % n == i && i / n == 0
  {
  }

  /** An offset whose cell index is below n lies below n cells. */
  lemma CellBelowBound(u: real, cellSize: real, n: int)
    requires cellSize > 0.0 && u >= 0.0 && Trunc(u / cellSize) < n
    ensures u < n as real * cellSize
  {
    DivNonneg(u, cellSize);
    TruncIsFloor(u / cellSize);
    var q := u / cellSize;
    assert q < n as real;
    assert u == q * cellSize;
  }

  /** Every point lies strictly before the far edges of a width × height grid of cells anchored at the tile. */
  predicate BeforeEdges(tile: Rect, cellSize: real, width: int, height: int, points: seq<Point>) {
    forall i :: 0 <= i < |points| ==>
      points[i].x < tile.x as real + width as real * cellSize
      && points[i].y < tile.y as real + height as real * cellSize
  }

  /** Points whose cells lie in a width × height grid lie before the grid's far edges. */
  lemma BeforeGridEdge(tile: Rect, cellSize: real, points: seq<Point>, width: int, height: int)
    requires cellSize > 0.0
    requires forall i :: 0 <= i < |points| ==> InEnvelope(tile, points[i])
    requires forall i :: 0 <= i < |points| ==>
      var c := CellOf(tile, cellSize, points[i]); c.0 < width && c.1 < height
    ensures BeforeEdges(tile, cellSize, width, height, points)
  {
    forall i | 0 <= i < |points|
      ensures points[i].x < tile.x as real + width as real * cellSize
      ensures points[i].y < tile.y as real + height as real * cellSize
    {
      CellBelowBound(points[i].x - tile.x as real, cellSize, width);
      CellBelowBound(points[i].y - tile.y as real, cellSize, height);
    }
  }

  /** BeforeGridEdge on a tile's own shrunk grid. */
  lemma BeforeTileEdge(index: nat, blockXCount: int, blockYCount: int, tile: Rect, cellSize: real, points: seq<Point>)
    requires cellSize > 0.0 && tile.w > 0 && tile.h > 0 && blockXCount > 0
    requires forall i :: 0 <= i < |points| ==> InEnvelope(tile, points[i])
    requires var dims := TileGridSize(index, blockXCount, blockYCount, tile, cellSize);
      forall i :: 0 <= i < |points| ==> var c := CellOf(tile, cellSize, points[i]); c.0 < dims.0 && c.1 < dims.1
    ensures var dims := TileGridSize(index, blockXCount, blockYCount, tile, cellSize);
      BeforeEdges(tile, cellSize, dims.0, dims.1, points)
  {
    var dims := TileGridSize(index, blockXCount, blockYCount, tile, cellSize);
    BeforeGridEdge(tile, cellSize, points, dims.0, dims.1);
  }

  /**
   The sampler on one tile. Its points are separated, inside the tile's
   envelope and its grid, and so strictly before the tile's shrunk grid edge.
   */
  method GeneratePointsParallelPartial(radius: real, cellSize: real, index: nat, blockXCount: int, blockYCount: int,
                                       tile: Rect, attemptNum: int, mask: Mask, offsets: nat -> Point)
    returns (points: seq<Point>)
    requires CellMatchesRadius(radius, cellSize) && tile.w > 0 && tile.h > 0 && blockXCount > 0
    ensures Separated(points, radius)
    ensures forall i :: 0 <= i < |points| ==> InEnvelope(tile, points[i]) && MaskAllows(mask, points[i])
    ensures forall i, j :: 0 <= i < j < |points| ==> CellOf(tile, cellSize, points[i]) != CellOf(tile, cellSize, points[j])
    ensures |points| <= TileGridSize(index, blockXCount, blockYCount, tile, cellSize).0
                        * TileGridSize(index, blockXCount, blockYCount, tile, cellSize).1
    ensures var dims := TileGridSize(index, blockXCount, blockYCount, tile, cellSize);
      BeforeEdges(tile, cellSize, dims.0, dims.1, points)
    ensures points == Sample(Config(radius, cellSize, tile, attemptNum, mask), offsets,
                             TileGridSize(index, blockXCount, blockYCount, tile, cellSize).0,
                             TileGridSize(index, blockXCount, blockYCount, tile, cellSize).1)
  {
    var dims := TileGridSize(index, blockXCount, blockYCount, tile, cellSize);
    var grid;
    points, grid := Run(Config(radius, cellSize, tile, attemptNum, mask), offsets, dims.0, dims.1);
    BeforeTileEdge(index, blockXCount, blockYCount, tile, cellSize, points);
  }

  /** The merge of per-tile results: a bag, i.e. the multiset union of all parts. */
  function Merge(parts: seq<seq<Point>>): (r: multiset<Point>)
    ensures forall i :: 0 <= i < |parts| ==> multiset(parts[i]) <= r
    ensures |r| == Total(parts)
  {
    if |parts| == 0 then multiset{} else Merge(parts[..|parts| - 1]) + multiset(parts[|parts| - 1])
  }

  /** The number of points over all parts. */
  function Total(parts: seq<seq<Point>>): nat {
    if |parts| == 0 then 0 else Total(parts[..|parts| - 1]) + |parts[|parts| - 1]|
  }

  /** A point is in the merged bag iff some tile produced it. */
  lemma {:induction false} MergeMembers(parts: seq<seq<Point>>, p: Point)
    ensures p in Merge(parts) <==> exists i :: 0 <= i < |parts| && p in parts[i]
  {
    if |parts| > 0 {
      var init := parts[..|parts| - 1];
      MergeMembers(init, p);
      if p in Merge(parts) && p !in multiset(parts[|parts| - 1]) {
        var i :| 0 <= i < |init| && p in init[i];
        assert parts[i] == init[i];
      }
      if exists i :: 0 <= i < |parts| && p in parts[i] {
        var i :| 0 <= i < |parts| && p in parts[i];
        if i < |init| {
          assert init[i] == parts[i];
        }
      }
    }
  }

  /** Merging concatenated batches is the union of their merges. */
  lemma {:induction false} MergeAppend(a: seq<seq<Point>>, b: seq<seq<Point>>)
    ensures Merge(a + b) == Merge(a) + Merge(b)
  {
    if |b| > 0 {
      var b' := b[..|b| - 1];
      assert (a + b)[..|a + b| - 1] == a + b';
      assert (a + b)[|a + b| - 1] == b[|b| - 1];
      MergeAppend(a, b');
    } else {
      assert a + b == a;
    }
  }

  /** Removing the same element from two equal bags leaves equal bags. */
  lemma MultisetCancel<T>(a: multiset<T>, b: multiset<T>, x: T)
    requires a + multiset{x} == b + multiset{x}
    ensures a == b
  {
    forall e
      ensures a[e] == b[e]
    {
      assert (a + multiset{x})[e] == a[e] + multiset{x}[e];
      assert (b + multiset{x})[e] == b[e] + multiset{x}[e];
    }
  }

  /**
   The order in which tiles finish does not change the merged bag: any two
   arrangements of the same per-tile results merge to the same bag.
   */
  lemma {:induction false} MergeOrderFree(a: seq<seq<Point>>, b: seq<seq<Point>>)
    requires multiset(a) == multiset(b)
    ensures Merge(a) == Merge(b)
    decreases |a|
  {
    if |a| == 0 {
      assert |b| == |multiset(b)| == 0;
    } else {
      var n := |a| - 1;
      var x := a[n];
      assert a == a[..n] + [x];
      assert x in multiset(b);
      var j :| 0 <= j < |b| && b[j] == x;
      var l, r := b[..j], b[j + 1..];
      assert b == l + [x] + r;
      assert multiset(a[..n]) + multiset{x} == multiset(l + r) + multiset{x} by {
        assert multiset(a) == multiset(a[..n]) + multiset{x};
        assert multiset(b) == multiset(l) + multiset{x} + multiset(r);
        assert multiset(l + r) == multiset(l) + multiset(r);
      }
      MultisetCancel(multiset(a[..n]), multiset(l + r), x);
      MergeOrderFree(a[..n], l + r);
      assert Merge([x]) == multiset(x) by {
        assert [x][..0] == [];
      }
      calc {
        Merge(b);
        { MergeAppend(l + [x], r); }
        Merge(l + [x]) + Merge(r);
        { MergeAppend(l, [x]); }
        Merge(l) + multiset(x) + Merge(r);
        Merge(l) + Merge(r) + multiset(x);
        { MergeAppend(l, r); }
        Merge(l + r) + multiset(x);
        Merge(a[..n]) + multiset(x);
        Merge(a);
      }
    }
  }

  /** In particular, two batches of tiles may finish in either order. */
  lemma MergeBlocksSwap(a: seq<seq<Point>>, b: seq<seq<Point>>)
    ensures Merge(a + b) == Merge(b + a)
  {
    assert multiset(a + b) == multiset(b + a);
    MergeOrderFree(a + b, b + a);
  }

  /** The grid size of tile i, from the counters the partition really produces. */
  function TileDims(region: Rect, b: int, cellSize: real, i: nat): (nat, nat)
    requires b > 0 && cellSize > 0.0 && i < |Tiling(region, b)|
  {
    var tiles := Tiling(region, b);
    TileGridSize(i, |tiles|, Count(region.h, b), tiles[i], cellSize)
  }

  /**
   What tile i of the tiled generator yields with its own draws: the sampler
   output on the tile and its shrunk grid, separated, inside the tile, passing
   the mask, one point per cell, within the grid's capacity and strictly before
   the grid's far edges.
   */
  ghost predicate TileResult(radius: real, cellSize: real, region: Rect, attemptNum: int, mask: Mask, b: int,
                             offsets: nat -> Point, i: nat, pts: seq<Point>)
    requires CellMatchesRadius(radius, cellSize) && b > 0 && i < |Tiling(region, b)|
  {
    var tile := Tiling(region, b)[i];
    var dims := TileDims(region, b, cellSize, i);
    && pts == Sample(Config(radius, cellSize, tile, attemptNum, mask), offsets, dims.0, dims.1)
    && Separated(pts, radius)
    && (forall k :: 0 <= k < |pts| ==> InEnvelope(tile, pts[k]) && MaskAllows(mask, pts[k]))
    && (forall j, k :: 0 <= j < k < |pts| ==> CellOf(tile, cellSize, pts[j]) != CellOf(tile, cellSize, pts[k]))
    && |pts| <= dims.0 * dims.1
    && BeforeEdges(tile, cellSize, dims.0, dims.1, pts)
  }

  /** One tile of the tiled generator, with the counters the partition produces. */
  method RunTile(radius: real, cellSize: real, region: Rect, attemptNum: int, mask: Mask, b: int,
                 blockXCount: int, blockYCount: int, tile: Rect, offsets: nat -> Point, i: nat)
    returns (pts: seq<Point>)
    requires CellMatchesRadius(radius, cellSize) && b > 0 && i < |Tiling(region, b)|
    requires blockXCount == |Tiling(region, b)| && blockYCount == Count(region.h, b) && tile == Tiling(region, b)[i]
    ensures TileResult(radius, cellSize, region, attemptNum, mask, b, offsets, i, pts)
  {
    assert WellShaped(region, b, tile);
    pts := GeneratePointsParallelPartial(radius, cellSize, i, blockXCount, blockYCount,
                                         tile, attemptNum, mask, offsets);
  }

  /**
   The tiled generator. Each tile i runs the sampler on its own draws
   `offsets(i)`; the result bag holds exactly the tiles' points, each of
   which lies in the region's envelope and passes the mask.
   */
  method GeneratePointsParallel(radius: real, cellSize: real, region: Rect, attemptNum: int, mask: Mask,
                                blockSize: int, offsets: nat -> nat -> Point)
    returns (points: multiset<Point>, parts: seq<seq<Point>>)
    requires CellMatchesRadius(radius, cellSize) && blockSize > 0
    ensures |parts| == |Tiling(region, blockSize)|
    ensures points == Merge(parts)
    ensures forall i :: 0 <= i < |parts| ==> Separated(parts[i], radius)
    ensures forall i, k :: 0 <= i < |parts| && 0 <= k < |parts[i]| ==>
      InEnvelope(Tiling(region, blockSize)[i], parts[i][k]) && MaskAllows(mask, parts[i][k])
    ensures forall p :: p in points ==> InEnvelope(region, p) && MaskAllows(mask, p)
    ensures forall i :: 0 <= i < |parts| ==>
      TileResult(radius, cellSize, region, attemptNum, mask, blockSize, offsets(i), i, parts[i])
  {
    points, parts := RunTiles(radius, cellSize, region, attemptNum, mask, blockSize, offsets);
    TileResultsInRegion(radius, cellSize, region, attemptNum, mask, blockSize, offsets, parts);
  }

  /** The partition followed by the per-tile loop, adding each tile's points to the bag. */
  method RunTiles(radius: real, cellSize: real, region: Rect, attemptNum: int, mask: Mask,
                  blockSize: int, offsets: nat -> nat -> Point)
    returns (points: multiset<Point>, parts: seq<seq<Point>>)
    requires CellMatchesRadius(radius, cellSize) && blockSize > 0
    ensures |parts| == |Tiling(region, blockSize)|
    ensures points == Merge(parts)
    ensures forall i :: 0 <= i < |parts| ==>
      TileResult(radius, cellSize, region, attemptNum, mask, blockSize, offsets(i), i, parts[i])
  {
    var regions, blockXCount, blockYCount := PartitionRegion(region, blockSize);
    points, parts := multiset{}, [];
    var i := 0;
    while i < |regions|
      invariant 0 <= i <= |regions| && |parts| == i
      invariant points == Merge(parts)
      invariant forall j :: 0 <= j < i ==>
        TileResult(radius, cellSize, region, attemptNum, mask, blockSize, offsets(j), j, parts[j])
    {
      points, parts := AddTile(radius, cellSize, region, attemptNum, mask, blockSize, blockXCount, blockYCount,
                               regions[i], offsets, points, parts);
      i := i + 1;
    }
  }

  /** One iteration of the per-tile loop: run the next tile and add its points to the bag. */
  method AddTile(radius: real, cellSize: real, region: Rect, attemptNum: int, mask: Mask, blockSize: int,
                 blockXCount: int, blockYCount: int, tile: Rect, offsets: nat -> nat -> Point,
                 points0: multiset<Point>, parts0: seq<seq<Point>>)
    returns (points: multiset<Point>, parts: seq<seq<Point>>)
    requires CellMatchesRadius(radius, cellSize) && blockSize > 0 && |parts0| < |Tiling(region, blockSize)|
    requires blockXCount == |Tiling(region, blockSize)| && blockYCount == Count(region.h, blockSize)
    requires tile == Tiling(region, blockSize)[|parts0|]
    requires points0 == Merge(parts0)
    requires forall j :: 0 <= j < |parts0| ==>
      TileResult(radius, cellSize, region, attemptNum, mask, blockSize, offsets(j), j, parts0[j])
    ensures |parts| == |parts0| + 1 && parts[..|parts0|] == parts0
    ensures points == Merge(parts)
    ensures forall j :: 0 <= j < |parts| ==>
      TileResult(radius, cellSize, region, attemptNum, mask, blockSize, offsets(j), j, parts[j])
  {
    var i := |parts0|;
    var subPoints := RunTile(radius, cellSize, region, attemptNum, mask, blockSize, blockXCount, blockYCount,
                             tile, offsets(i), i);
    parts := parts0 + [subPoints];
    points := points0 + multiset(subPoints);
    assert parts[..i] == parts0;
    TileResultsExtend(radius, cellSize, region, attemptNum, mask, blockSize, offsets, parts0, subPoints);
  }

  /** Appending the next tile's result keeps every tile's facts. */
  lemma TileResultsExtend(radius: real, cellSize: real, region: Rect, attemptNum: int, mask: Mask,
                          b: int, offsets: nat -> nat -> Point, parts0: seq<seq<Point>>, pts: seq<Point>)
    requires CellMatchesRadius(radius, cellSize) && b > 0 && |parts0| < |Tiling(region, b)|
    requires forall j :: 0 <= j < |parts0| ==>
      TileResult(radius, cellSize, region, attemptNum, mask, b, offsets(j), j, parts0[j])
    requires TileResult(radius, cellSize, region, attemptNum, mask, b, offsets(|parts0|), |parts0|, pts)
    ensures forall j :: 0 <= j < |parts0 + [pts]| ==>
      TileResult(radius, cellSize, region, attemptNum, mask, b, offsets(j), j, (parts0 + [pts])[j])
  {
    forall j | 0 <= j < |parts0 + [pts]|
      ensures TileResult(radius, cellSize, region, attemptNum, mask, b, offsets(j), j, (parts0 + [pts])[j])
    {
      if j < |parts0| {
        assert (parts0 + [pts])[j] == parts0[j];
      }
    }
  }

  /** The per-tile facts carried over to the whole bag: every merged point lies in the region and passes the mask. */
  lemma TileResultsInRegion(radius: real, cellSize: real, region: Rect, attemptNum: int, mask: Mask,
                            b: int, offsets: nat -> nat -> Point, parts: seq<seq<Point>>)
    requires CellMatchesRadius(radius, cellSize) && b > 0 && |parts| == |Tiling(region, b)|
    requires forall i :: 0 <= i < |parts| ==> TileResult(radius, cellSize, region, attemptNum, mask, b, offsets(i), i, parts[i])
    ensures forall i :: 0 <= i < |parts| ==> Separated(parts[i], radius)
    ensures forall i, k :: 0 <= i < |parts| && 0 <= k < |parts[i]| ==>
      InEnvelope(Tiling(region, b)[i], parts[i][k]) && MaskAllows(mask, parts[i][k])
    ensures forall p :: p in Merge(parts) ==> InEnvelope(region, p) && MaskAllows(mask, p)
  {
    var tiles := Tiling(region, b);
    forall j, k | 0 <= j < |parts| && 0 <= k < |parts[j]|
      ensures InEnvelope(tiles[j], parts[j][k]) && MaskAllows(mask, parts[j][k])
    {
      assert TileResult(radius, cellSize, region, attemptNum, mask, b, offsets(j), j, parts[j]);
    }
    forall j | 0 <= j < |parts|
      ensures Separated(parts[j], radius)
    {
      assert TileResult(radius, cellSize, region, attemptNum, mask, b, offsets(j), j, parts[j]);
    }
    forall p | p in Merge(parts)
      ensures InEnvelope(region, p) && MaskAllows(mask, p)
    {
      MergeMembers(parts, p);
      var j :| 0 <= j < |parts| && p in parts[j];
      var k :| 0 <= k < |parts[j]| && parts[j][k] == p;
      assert InEnvelope(tiles[j], p);
      EnvelopeNested(tiles[j], region, p);
    }
  }

  /**
   With a region no larger than one block the tiled generator degenerates to
   the whole-region one: a single tile equal to the region, counters 1 and 1,
   the same grid size, and so the same points in the merged bag.
   */
  lemma SingleTileMatchesSequential(radius: real, cellSize: real, region: Rect, attemptNum: int, mask: Mask,
                                    b: int, offsets: nat -> nat -> Point)
    requires b > 0 && cellSize > 0.0 && 0 < region.w <= b && 0 < region.h <= b
    ensures Tiling(region, b) == [region]
    ensures Count(region.h, b) == 1
    ensures TileGridSize(0, |Tiling(region, b)|, Count(region.h, b), region, cellSize) == FullGridSize(region, cellSize)
    ensures CellMatchesRadius(radius, cellSize) ==>
      var tiled := Sample(Config(radius, cellSize, Tiling(region, b)[0], attemptNum, mask), offsets(0),
                          TileDims(region, b, cellSize, 0).0, TileDims(region, b, cellSize, 0).1);
      var whole := Sample(Config(radius, cellSize, region, attemptNum, mask), offsets(0),
                          FullGridSize(region, cellSize).0, FullGridSize(region, cellSize).1);
      tiled == whole && Merge([tiled]) == multiset(whole)
  {
    SingleTile(region, b);
    assert Count(region.h, b) == 1 + Count(region.h - b, b);
  }
}
