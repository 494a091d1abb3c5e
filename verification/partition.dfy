/**
 The tiling of the parallel generator: the region is cut row by row into
 blocks of at most B × B pixels, the last block of a row or column clipped to
 the region's far edge. B is the generator's block size (32 by default).
 */
module Partition {
  import opened Geometry

  /** How many times a loop `for (t = 0; t < len; t += B)` runs. */
  function Count(len: int, b: int): nat
    requires b > 0
    decreases len
  {
    if len <= 0 then 0 else 1 + Count(len - b, b)
  }

  /** The loop count is ceil(len / B): the least n with len <= n·B, and 0 for an empty length. */
  lemma {:induction false} CountIsCeiling(len: int, b: int)
    requires b > 0
    ensures len <= 0 ==> Count(len, b) == 0
    ensures len > 0 ==> (Count(len, b) - 1) * b < len <= Count(len, b) * b
  {
    if len > 0 {
      var n := Count(len - b, b);
      CountIsCeiling(len - b, b);
      assert (n + 1) * b == n * b + b;
    }
  }

  /** Integer pixel (px, py) lies inside tile t; tiles are half-open on both axes. */
  predicate Contains(t: Rect, px: int, py: int) {
    t.x <= px < t.XEnd() && t.y <= py < t.YEnd()
  }

  /** Tile a comes before tile b in row-major order and they do not overlap. */
  predicate Precedes(a: Rect, b: Rect) {
    a.YEnd() <= b.y || (a.y == b.y && a.XEnd() <= b.x)
  }

  /** The shape every tile of `region` has: inside the region, nonempty, at most B on a side, clipped only at the far edges. */
  predicate WellShaped(region: Rect, b: int, t: Rect) {
    && region.x <= t.x && t.XEnd() <= region.XEnd()
    && region.y <= t.y && t.YEnd() <= region.YEnd()
    && 0 < t.w <= b && 0 < t.h <= b
    && t.w == Min(b, region.XEnd() - t.x) && t.h == Min(b, region.YEnd() - t.y)
  }

  /** The inner loop: the tiles of the row at y, from column x to the region's far edge. */
  function RowTiles(region: Rect, b: int, x: int, y: int): (r: seq<Rect>)
    requires b > 0
    requires region.x <= x && region.y <= y < region.YEnd()
    decreases region.XEnd() - x
    ensures |r| == Count(region.XEnd() - x, b)
    ensures forall k :: 0 <= k < |r| ==> WellShaped(region, b, r[k]) && r[k].y == y && x <= r[k].x
    ensures forall j, k :: 0 <= j < k < |r| ==> r[j].y == r[k].y && r[j].XEnd() <= r[k].x
  {
    if x >= region.XEnd() then []
    else
      var t := Rect(x, y, Min(b, region.XEnd() - x), Min(b, region.YEnd() - y));
      [t] + RowTiles(region, b, x + b, y)
  }

  /** The outer loop: all rows of tiles from the row at y down. */
  function TileRows(region: Rect, b: int, y: int): (r: seq<Rect>)
    requires b > 0 && region.y <= y
    decreases region.YEnd() - y
    ensures |r| == Count(region.YEnd() - y, b) * Count(region.w, b)
    ensures forall k :: 0 <= k < |r| ==> WellShaped(region, b, r[k]) && y <= r[k].y
    ensures forall j, k :: 0 <= j < k < |r| ==> Precedes(r[j], r[k])
  {
    if y >= region.YEnd() then []
    else
      var row := RowTiles(region, b, region.x, y);
      var rest := TileRows(region, b, y + b);
      RowThenRest(region, b, row, rest, y);
      assert |row + rest| == Count(region.YEnd() - y, b) * Count(region.w, b) by {
        assert Count(region.YEnd() - y, b) == 1 + Count(region.YEnd() - (y + b), b);
        var n := Count(region.YEnd() - (y + b), b);
        assert (1 + n) * Count(region.w, b) == Count(region.w, b) + n * Count(region.w, b);
      }
      row + rest
  }

  lemma RowThenRest(region: Rect, b: int, row: seq<Rect>, rest: seq<Rect>, y: int)
    requires b > 0
    requires forall k :: 0 <= k < |row| ==> WellShaped(region, b, row[k]) && row[k].y == y
    requires forall j, k :: 0 <= j < k < |row| ==> row[j].y == row[k].y && row[j].XEnd() <= row[k].x
    requires forall k :: 0 <= k < |rest| ==> y + b <= rest[k].y
    requires forall j, k :: 0 <= j < k < |rest| ==> Precedes(rest[j], rest[k])
    ensures forall j, k :: 0 <= j < k < |row + rest| ==> Precedes((row + rest)[j], (row + rest)[k])
  {
  }

  /** The list of tiles the two nested loops build. */
  function Tiling(region: Rect, b: int): seq<Rect>
    requires b > 0
  {
    TileRows(region, b, region.y)
  }

  /**
   The partition loop, including its two counters. blockYCount counts rows of
   tiles, but blockXCount is never reset between rows, so it ends as the
   total number of tiles rather than the number of tiles per row.
   */
  method PartitionRegion(region: Rect, b: int) returns (regions: seq<Rect>, blockXCount: int, blockYCount: int)
    requires b > 0
    ensures regions == Tiling(region, b)
    ensures |regions| == Count(region.w, b) * Count(region.h, b)
    ensures forall k :: 0 <= k < |regions| ==> WellShaped(region, b, regions[k])
    ensures blockXCount == |regions|
    ensures blockYCount == Count(region.h, b)
  {
    var regionYEnd := region.y + region.h;
    regions := [];
    blockXCount := 0;
    blockYCount := 0;
    var y := region.y;
    while y < regionYEnd
      invariant region.y <= y
      invariant regions + TileRows(region, b, y) == Tiling(region, b)
      invariant blockXCount == |regions|
      invariant blockYCount + Count(regionYEnd - y, b) == Count(region.h, b)
      decreases regionYEnd - y
    {
      var row := RowTiles(region, b, region.x, y);
      assert TileRows(region, b, y) == row + TileRows(region, b, y + b);
      assert regions + TileRows(region, b, y) == (regions + row) + TileRows(region, b, y + b);
      regions, blockXCount := PartitionRow(region, b, y, regions, blockXCount);
      y := y + b;
      blockYCount := blockYCount + 1;
    }
    assert TileRows(region, b, y) == [];
  }

  /** The inner loop of the partition: append the tiles of the row at y, counting each one. */
  method PartitionRow(region: Rect, b: int, y: int, regions0: seq<Rect>, count0: int) returns (regions: seq<Rect>, blockXCount: int)
    requires b > 0 && region.y <= y < region.YEnd()
    ensures regions == regions0 + RowTiles(region, b, region.x, y)
    ensures blockXCount == count0 + |RowTiles(region, b, region.x, y)|
  {
    var regionXEnd := region.x + region.w;
    var regionYEnd := region.y + region.h;
    regions, blockXCount := regions0, count0;
    var x := region.x;
    while x < regionXEnd
      invariant region.x <= x
      invariant regions + RowTiles(region, b, x, y) == regions0 + RowTiles(region, b, region.x, y)
      invariant blockXCount - |regions| == count0 - |regions0|
      decreases regionXEnd - x
    {
      var subRegionWidth := Min(b, regionXEnd - x);
      var subRegionHeight := Min(b, regionYEnd - y);
      var t := Rect(x, y, subRegionWidth, subRegionHeight);
      assert RowTiles(region, b, x, y) == [t] + RowTiles(region, b, x + b, y);
      assert regions + RowTiles(region, b, x, y) == (regions + [t]) + RowTiles(region, b, x + b, y);
      regions := regions + [t];
      x := x + b;
      blockXCount := blockXCount + 1;
    }
    assert RowTiles(region, b, x, y) == [];
  }

  /** Tiles that precede one another share no pixel. */
  lemma PrecedesDisjoint(a: Rect, b: Rect, px: int, py: int)
    requires a.w > 0 && a.h > 0 && Precedes(a, b)
    ensures !(Contains(a, px, py) && Contains(b, px, py))
  {
  }

  /** No pixel belongs to two tiles. */
  lemma TilesDisjoint(region: Rect, b: int, j: int, k: int, px: int, py: int)
    requires b > 0 && 0 <= j < |Tiling(region, b)| && 0 <= k < |Tiling(region, b)| && j != k
    ensures !(Contains(Tiling(region, b)[j], px, py) && Contains(Tiling(region, b)[k], px, py))
  {
    var ts := Tiling(region, b);
    if j < k {
      PrecedesDisjoint(ts[j], ts[k], px, py);
    } else {
      PrecedesDisjoint(ts[k], ts[j], px, py);
    }
  }

  /** Every pixel of a row's span lies in one of that row's tiles. */
  lemma {:induction false} RowCovers(region: Rect, b: int, x: int, y: int, px: int, py: int) returns (k: nat)
    requires b > 0 && region.x <= x <= px < region.XEnd() && region.y <= y <= py < region.YEnd() && py < y + b
    decreases region.XEnd() - x
    ensures k < |RowTiles(region, b, x, y)| && Contains(RowTiles(region, b, x, y)[k], px, py)
  {
    if px < x + b {
      k := 0;
    } else {
      var k' := RowCovers(region, b, x + b, y, px, py);
      k := k' + 1;
    }
  }

  /** Every pixel of the rows from y down lies in one of their tiles. */
  lemma {:induction false} RowsCover(region: Rect, b: int, y: int, px: int, py: int) returns (k: nat)
    requires b > 0 && region.x <= px < region.XEnd() && region.y <= y <= py < region.YEnd()
    decreases region.YEnd() - y
    ensures k < |TileRows(region, b, y)| && Contains(TileRows(region, b, y)[k], px, py)
  {
    var row := RowTiles(region, b, region.x, y);
    if py < y + b {
      k := RowCovers(region, b, region.x, y, px, py);
      assert TileRows(region, b, y)[k] == row[k];
    } else {
      var k' := RowsCover(region, b, y + b, px, py);
      k := |row| + k';
      assert TileRows(region, b, y)[k] == TileRows(region, b, y + b)[k'];
    }
  }

  /** The tiling covers the region: every pixel of it lies in exactly one tile. */
  lemma TilingCovers(region: Rect, b: int, px: int, py: int) returns (k: nat)
    requires b > 0 && region.x <= px < region.XEnd() && region.y <= py < region.YEnd()
    ensures k < |Tiling(region, b)| && Contains(Tiling(region, b)[k], px, py)
    ensures forall j :: 0 <= j < |Tiling(region, b)| && Contains(Tiling(region, b)[j], px, py) ==> j == k
  {
    k := RowsCover(region, b, region.y, px, py);
    forall j | 0 <= j < |Tiling(region, b)| && Contains(Tiling(region, b)[j], px, py)
      ensures j == k
    {
      if j != k {
        TilesDisjoint(region, b, j, k, px, py);
      }
    }
  }

  /** A region no larger than one block is a single tile: itself. */
  lemma SingleTile(region: Rect, b: int)
    requires b > 0 && 0 < region.w <= b && 0 < region.h <= b
    ensures Tiling(region, b) == [region]
  {
    assert RowTiles(region, b, region.x + b, region.y) == [];
    assert TileRows(region, b, region.y + b) == [];
  }

  /** The default block size on a 100 × 100 region: 4 × 4 = 16 tiles. */
  lemma HundredSquareHasSixteenTiles(region: Rect)
    requires region.w == 100 && region.h == 100
    ensures |Tiling(region, 32)| == 16
  {
    assert Count(100, 32) == 4 by {
      assert Count(4, 32) == 1 + Count(-28, 32);
      assert Count(36, 32) == 1 + Count(4, 32);
      assert Count(68, 32) == 1 + Count(36, 32);
    }
  }
}
