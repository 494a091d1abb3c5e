# Poisson-disc sampling, modelled in Dafny

This project models the core of `PoissonDiscSampling`, a Bridson-style Poisson-disc sampler for a
2D integer region. The model covers five parts:

- **The candidate validator `IsValidPoint`.** It runs a bounds test with the far edges inclusive, an
  optional mask test, a grid-range guard, and a scan of a ±2-cell window, clipped to the grid, for a
  stored point strictly closer than `radius`.
- **The acceleration grid.** Each cell holds 0 for empty, or the 1-based index of an accepted point.
- **The sampling loop.** This is shared by `GeneratePoints` and `GeneratePointsParallelPartial`, which
  differ only in the grid's width and height:
  - the seeds are queued first;
  - the head of the pending list is always the origin;
  - each origin gets at most `attemptNum` attempts;
  - an accepted candidate is appended to both lists and written into its cell;
  - the head is dropped only when every attempt fails.
- **The block partitioner of `GeneratePointsParallel`.** It includes its `blockXCount` / `blockYCount`
  counters and the per-tile grid sizing that uses them.
- **The merge of per-tile results.** It is modelled as a multiset union.

## How the model is organised

| file | contents |
|---|---|
| `geometry.dfy` | `Point`, `Rect`, squared distance, the `(int)` cast, the `Ceiling` cast, C# integer division, and the small real-arithmetic lemmas the proofs use |
| `grid.dfy` | module `SpatialGrid`: the dense grid, a single-cell write, the empty-cell count |
| `validator.dfy` | module `Validator`: `IsValidPoint`, the window scan, the grid/points consistency predicate, and the window-sufficiency lemmas |
| `sampler.dfy` | module `Sampler`: seeding, one loop iteration (`Step`), the whole loop as a function (`Loop`, `Sample`) and as a method (`Run`), `GeneratePoints` |
| `partition.dfy` | module `Partition`: the tiling loop, its reference definition, coverage, disjointness, tile count |
| `parallel.dfy` | module `Parallel`: per-tile grid sizing, `GeneratePointsParallelPartial`, what each tile yields (`TileResult`), the merge, `GeneratePointsParallel` |

### Modelling choices

- **Coordinates** are exact `real`s.
- **Cell size.** `cellSize` is a parameter tied to the radius by `radius² = 2·cellSize²`. This stands for
  `radius / MathF.Sqrt(2)`.
- **Casts.** `(int)` casts truncate toward zero (`Trunc`). `(int)MathF.Ceiling` is `Ceil`.
- **Integer division.** C# `/` on `int` truncates toward zero (`TruncDiv`).
- **Randomness.** Random candidate generation is an oracle: `offsets(n)` is the displacement that the
  n-th attempt produces. In the source this is `dir * (rnd.NextSingle() * 2 * radius + radius)`. The
  loop state counts the draws used, so each attempt sees a fresh displacement. Each tile of the
  parallel generator receives its own oracle `offsets(i)`, as each call creates its own `Random`.
- **The mask** is a predicate on absolute integer pixel coordinates, standing for `GetPixel(x, y).R8 != 0`.
- **`BlockSize`** is a parameter `blockSize > 0`.

### Two behaviours worth knowing

- **The unmasked seed** is `((x + w) / 2, (y + h) / 2)` in integer division, as the code writes it. This
  is not the region's centre unless the region sits at the origin.
  - `Sampler.CentreSeedAtOrigin` proves that it is the centre there.
  - `Sampler.CentreSeedInEnvelope` proves that, for a nonnegative region, the seed lies inside the
    region only when `w >= x` and `h >= y`.
  - The member is named `CentreSeed` for what the expression appears meant to compute; its contract
    states what the code computes.
  - Seeds only enter the pending list, never the result, so this affects where sampling starts, not the
    properties of the result.
- **`blockXCount` is never reset between rows.** After the partition loop it equals the total number of
  tiles. `blockYCount` equals the number of rows.
  - The per-tile sizing therefore drops the last column of cells for every tile except the very last
    one, and drops the last row for every tile unless there is only one row of tiles
    (`Parallel.TileGridQuirk`).
  - The model keeps this behaviour.

## Model

| member | source | states |
|---|---|---|
| `Geometry.Trunc` | PoissonDiscSampling.cs:185-186 | the `(int)` cast of a float: the integer at or below a nonnegative value, at or above a negative one, within one of it |
| `Geometry.Ceil` | PoissonDiscSampling.cs:19 | `(int)MathF.Ceiling(r)` is the least integer not below r |
| `Geometry.TruncDiv` | PoissonDiscSampling.cs:37 | C# integer division by a positive divisor leaves a remainder with the dividend's sign, smaller than the divisor |
| `SpatialGrid.Grid.Set` | PoissonDiscSampling.cs:59-60 | storing into one cell gives that cell the new value and leaves the grid's size and every other cell unchanged |
| `SpatialGrid.CellOfIsFloor` | PoissonDiscSampling.cs:185-186 | the cell of a point at or after the region origin is the one whose span of cellSize holds its offset; because the cast truncates toward zero, an offset less than one cell before the origin also lands in cell 0 |
| `SpatialGrid.Zeros` | PoissonDiscSampling.cs:19 | a freshly allocated `int[w, h]` has the requested size and every cell holds 0, i.e. empty |
| `SpatialGrid.ZerosAllEmpty` | PoissonDiscSampling.cs:19 | a newly allocated grid has all of its width × height cells empty |
| `SpatialGrid.FillEmptyCell` | PoissonDiscSampling.cs:59-60 | writing a point index into an empty cell reduces the empty-cell count by exactly one |
| `Validator.MaskAllows` | PoissonDiscSampling.cs:180 | without a mask every point passes; with one, a point at nonnegative coordinates passes iff the pixel it lies in is lit |
| `Validator.ScanRow` | PoissonDiscSampling.cs:207-219 | the inner scan reports a conflict iff some cell of the row segment references a point strictly closer than radius |
| `Validator.ScanWindow` | PoissonDiscSampling.cs:205-220 | the nested scan reports a conflict iff some cell of the clipped window references a point strictly closer than radius |
| `Validator.IsValidPoint` | PoissonDiscSampling.cs:169-222 | a candidate is accepted iff it is in the region with far edges inclusive, it passes the mask, its cell is inside the grid, and no cell within two columns and rows of it references a point strictly closer than radius |
| `Validator.CloseMeansNearCells` | PoissonDiscSampling.cs:200-203 | with radius² = 2·cellSize², two points closer than radius have cells at most two apart on each axis, so the ±2 window always reaches them |
| `Validator.SameCellMeansClose` | PoissonDiscSampling.cs:185-186 | two points in one cell are closer than radius |
| `Validator.ValidIsSeparated` | PoissonDiscSampling.cs:200-221 | an accepted candidate is at least radius away from every stored point, not only from those in its window |
| `Validator.SeparatedIsValid` | PoissonDiscSampling.cs:172-221 | a candidate in the envelope that passes the mask, lies in the grid and is at least radius from every stored point is accepted, so distance exactly radius passes |
| `Validator.ValidIffSeparated` | PoissonDiscSampling.cs:169-222 | on a consistent grid the window scan decides exactly what a scan over all stored points decides |
| `Validator.ValidCellIsEmpty` | PoissonDiscSampling.cs:59-60 | the cell an accepted candidate is written to is inside the grid and still empty, so no cell is overwritten |
| `Validator.IndexedEmpty` | PoissonDiscSampling.cs:15-19 | an empty point list and a fresh grid are consistent |
| `Validator.IndexedInsert` | PoissonDiscSampling.cs:57-60 | appending a point and then storing the new count in its cell keeps every nonzero cell pointing at a point in that cell, and every point referenced by its own cell |
| `Validator.IndexedCellsDistinct` | PoissonDiscSampling.cs:59-60 | distinct accepted points occupy distinct cells |
| `Sampler.RowPixels` | PoissonDiscSampling.cs:26-32 | the inner seeding loop queues exactly the lit pixels of one row, left to right |
| `Sampler.LitPixels` | PoissonDiscSampling.cs:24-33 | the mask seeding loops queue exactly the lit pixels of the region, in row-major order |
| `Sampler.CentreSeed` | PoissonDiscSampling.cs:37 | the unmasked seed is a pixel whose coordinates are half of position + size on each axis, rounded toward zero: down for a nonnegative sum, up for a negative one |
| `Sampler.Seeds` | PoissonDiscSampling.cs:21-38 | without a mask the queue starts with the single centre seed; with one it holds exactly the region's lit pixels, as points at integer coordinates, each once, in row-major order |
| `Sampler.CentreSeedInEnvelope` | PoissonDiscSampling.cs:37 | for a nonnegative region, the unmasked seed lies in the region iff its size is at least its position on both axes |
| `Sampler.CentreSeedAtOrigin` | PoissonDiscSampling.cs:37 | for a region at the origin, the unmasked seed is the centre rounded down to a pixel |
| `Sampler.Start` | PoissonDiscSampling.cs:15-38 | the loop starts with no points, an all-empty grid and the seeds pending; the loop invariant holds |
| `Sampler.Candidate` | PoissonDiscSampling.cs:45-54 | attempt i always starts from the head of the pending list, never from a random index, and moves it by exactly the displacement of draw number draws + i |
| `Sampler.FirstValid` | PoissonDiscSampling.cs:50-64 | the attempt loop stops at the least attempt below attemptNum whose candidate is valid, and finds none iff every attempt is invalid |
| `Sampler.Accept` | PoissonDiscSampling.cs:55-62 | an accepted candidate is appended to both lists and its cell then holds the new point count; the loop invariant is kept and one empty cell is used up |
| `Sampler.Step` | PoissonDiscSampling.cs:42-68 | one iteration either appends the least valid attempt's candidate to both lists and keeps the head, or drops the head when all attemptNum attempts fail; the invariant is kept and the termination measure decreases |
| `Sampler.Loop` | PoissonDiscSampling.cs:42-69 | iterating Step until the queue is empty terminates, leaves no origin pending, only adds points and keeps the grid's size |
| `Sampler.Run` | PoissonDiscSampling.cs:42-70 | the loop terminates with exactly the points `Loop` reaches from the start state; they are pairwise at least radius apart, inside the envelope, pass the mask, lie in distinct cells of the grid, and number at most width × height |
| `Sampler.FullGridSize` | PoissonDiscSampling.cs:18-19 | the whole-region grid has ceil(size / cellSize) cells per axis |
| `Sampler.GeneratePoints` | PoissonDiscSampling.cs:13-71 | the sequential generator returns exactly the loop's points on the ceil(size / cellSize) grid: pairwise separated, in-envelope, mask-passing, one per cell, at most the grid's capacity, and none for an empty region |
| `Sampler.GuardOnlyAtFarEdge` | PoissonDiscSampling.cs:188-193 | on the whole-region grid the range guard only ever rejects points on the far edges |
| `Partition.CountIsCeiling` | PoissonDiscSampling.cs:84-86 | a loop stepping by B over a length runs ceil(length / B) times |
| `Partition.RowTiles` | PoissonDiscSampling.cs:86-92 | one row of tiles runs left to right, without overlap, each tile inside the region and clipped only at the far edge |
| `Partition.TileRows` | PoissonDiscSampling.cs:84-93 | the tiles come in row-major order without overlap, and number rows × columns |
| `Partition.PartitionRow` | PoissonDiscSampling.cs:86-92 | the inner loop appends exactly one row of tiles and counts each one |
| `Partition.PartitionRegion` | PoissonDiscSampling.cs:79-93 | the loop builds the row-major tiling of ceil(w/B)·ceil(h/B) tiles; blockYCount ends as the row count and blockXCount as the total tile count |
| `Partition.TilesDisjoint` | PoissonDiscSampling.cs:84-92 | no pixel belongs to two tiles |
| `Partition.TilingCovers` | PoissonDiscSampling.cs:84-92 | every pixel of the region lies in exactly one tile |
| `Partition.SingleTile` | PoissonDiscSampling.cs:84-93 | a region no larger than one block is a single tile equal to the region |
| `Partition.HundredSquareHasSixteenTiles` | PoissonDiscSampling.cs:11 | with the default block size 32 a 100 × 100 region yields 16 tiles |
| `Parallel.TileGridSize` | PoissonDiscSampling.cs:114-115 | a tile's grid is the full ceil(size / cellSize) grid, less one column unless index % blockXCount is the last column, and less one row unless index / blockXCount is the last row |
| `Parallel.TileGridQuirk` | PoissonDiscSampling.cs:114-115 | with the counters the partition produces, only the very last tile keeps its last column, and tiles keep their last row only when there is a single row of tiles |
| `Parallel.GeneratePointsParallelPartial` | PoissonDiscSampling.cs:105-168 | the per-tile generator returns exactly the loop's points on the tile's shrunk grid: separated, inside the tile, passing the mask, one per cell, at most the shrunk grid's capacity, and strictly before its far edges |
| `Parallel.RunTile` | PoissonDiscSampling.cs:95-97 | tile i, run with the counters the partition produced, yields the sampler output on that tile's shrunk grid together with all of its per-tile guarantees |
| `Parallel.Merge` | PoissonDiscSampling.cs:95-102 | every tile's points are in the bag with at least their multiplicities, and the bag's size is the total number of points the tiles produced; `Parallel.MergeAppend` pins the bag as the exact multiset sum |
| `Parallel.MergeAppend` | PoissonDiscSampling.cs:98-101 | adding the points of further tiles adds exactly their multiset to the bag: the merge of two batches is the sum of their merges |
| `Parallel.MergeMembers` | PoissonDiscSampling.cs:98-101 | a point is in the merged bag iff some tile produced it |
| `Parallel.MergeOrderFree` | PoissonDiscSampling.cs:95-102 | the merged bag does not depend on the order in which tiles finish: any two arrangements of the same per-tile results merge to the same bag |
| `Parallel.MergeBlocksSwap` | PoissonDiscSampling.cs:95-102 | in particular, two batches of tiles finishing in either order give the same bag |
| `Parallel.RunTiles` | PoissonDiscSampling.cs:79-102 | partitioning and then running every tile with the partition's counters and its own draws yields one result per tile, each satisfying `TileResult`, and the bag is their merge |
| `Parallel.AddTile` | PoissonDiscSampling.cs:97-101 | one loop body runs the next tile on `regions[i]` with the counters and adds exactly its points to the bag, keeping the facts about the earlier tiles |
| `Parallel.GeneratePointsParallel` | PoissonDiscSampling.cs:73-104 | the tiled generator returns the union of one list per tile, each exactly the sampler output on that tile's shrunk grid with its own draws, separated, in the tile, one per cell, within capacity and before the grid's far edges; every merged point lies in the region and passes the mask |
| `Parallel.SingleTileMatchesSequential` | PoissonDiscSampling.cs:114-116 | for a region no larger than one block the tiled generator runs one tile with the same grid as the sequential generator, so with the same draws both produce the same points |

## Left out

- **Random numbers, `MathF.Cos`/`Sin` and float rounding.** These are replaced by the displacement oracle.
  - No property depends on candidates lying in the annulus `[radius, 3·radius)` around their origin, so
    that shape is not stated.
  - The source consumes two random floats per attempt; the model consumes one displacement per attempt.
- **Float arithmetic.** Coordinates, distances and `cellSize` are exact reals, and the model assumes
  `radius² = 2·cellSize²` exactly.
  - The window-sufficiency lemmas (`Validator.CloseMeansNearCells`, `Validator.ValidIsSeparated`,
    `Validator.ValidIffSeparated`) require the equation, but their proofs use it only to get
    `radius < 2·cellSize` (`Geometry.RadiusBelowTwoCells`). The float32 `radius / MathF.Sqrt(2)` meets
    that with a wide margin.
  - The exact equation, in the form `2·cellSize² <= radius²`, is needed by
    `Validator.SameCellMeansClose`. Several results rest on it: `Validator.ValidCellIsEmpty` (no cell is
    overwritten), `Validator.IndexedCellsDistinct` (one point per cell), the capacity bound in
    `Sampler.Run`, and the termination measure of `Sampler.Step`.
  - Float32 rounding can break that inequality. For example, radius `1.0099f` gives cellSize
    `0.71410716f`, and then `2·cellSize²` exceeds `radius²` when the two float32 values are squared
    exactly. With such a radius, two points of one cell can still be at least radius apart. The
    program would then accept both and overwrite the first one's grid entry at
    PoissonDiscSampling.cs:59-60. The model does not cover this case.
- **`Parallel.For` and `ConcurrentBag`.** Tiles run one after another in index order, and the bag is a
  multiset.
- **Godot `Image.GetPixel`.** The mask is a predicate. Behaviour on pixels outside the image is not
  modelled; in particular a candidate exactly on the far edge looks up pixel `x + w` or `y + h`.
- **32-bit integer overflow** in the tiling loop, the seeding loops and the index arithmetic is not
  modelled.
- **Parameter validation.** The source performs none. The model requires `radius > 0`,
  `radius² = 2·cellSize²`, `blockSize > 0`, and a nonnegative region size for `GeneratePoints`.
  - `Sampler.GeneratePoints` does not model negative region sizes:
    - A size at or below `-cellSize` makes `MathF.Ceiling` give at most -1, and the grid allocation
      throws.
    - A size strictly between `-cellSize` and 0 gives a ceiling of -0, which casts to 0. The
      allocation of an empty grid succeeds. The mask loops then run zero times, and the bounds test
      rejects every candidate because `x + w < x`. The source therefore returns an empty list, which
      the model does not state.
  - The tiled generator never builds a tile of negative size: its tiling loops do not run for one.
- **Distance across tiles.** The source gives no guarantee, and the model proves separation only within
  each tile.
- **Maximality.** The model does not state that the result is maximal. The source does not promise that
  either: it stops once every origin has failed `attemptNum` times.
