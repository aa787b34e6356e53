# GridIndex2D in Dafny

A model of `GridIndex2D<T>`, the uniform-grid 2D spatial index of
fast_search_in_box. The index covers the rectangle
`[x_start, x_end) x [y_start, y_end)` with `nx * ny` cells of size
`x_step x y_step`. Here `nx = ceil((x_end - x_start) / x_step)`, and `ny` is
computed the same way.

- Each cell owns a bucket of point ids. Cell (i, j) is bucket `j * nx + i`
  of one flat array.
- `insert` appends an id to the bucket of the cell holding the point. A
  point outside the grid is clamped to the nearest edge cell.
- A box query resolves the box to an inclusive cell range. It then returns
  every id of every bucket in that range: row by row (j outer), column by
  column (i inner), each bucket in insertion order.
- Results are candidates, not exact matches: a bucket is returned whole, so
  ids of points outside the box but in a cell it touches come along too.
- The flags `include_min` and `include_max` act on box sides that lie
  exactly on a cell edge. An excluded lower side drops the cell that starts
  at it. An excluded upper side drops the cell that starts at it.
- The four indices are adjusted first and clamped into the grid after
  that. So an excluded lower side on the far edge of the grid moves past
  the last cell, and clamping brings it back to that cell.
- The header comments (include/grid_index.h:99 and 108-110) describe an
  excluded lower side as the open bound `(x1` and the result as the points
  of every cell the box intersects. The code instead drops the whole cell
  that starts at an excluded lower side, although the open box still
  reaches into that cell. Points strictly inside the box can then be
  missing. The model follows the code: `ExcludedLowerEdgeDropsCell` shows
  the dropped cell, and `PointInBoxIsSelected` holds with the lower sides
  included only. The edge-handling tests (tests/test_grid_index.cpp:462-538
  and 583-601) expect the code's behaviour.
- The flags default to `true` in all three query variants, and
  `append_results` defaults to `false`. The model's methods carry the same
  defaults.

Files:

- `geometry.dfy` (module `GridGeometry`): the pure part, as datatypes and
  functions.
  - Parameter validation and cell counts.
  - The coordinate-to-cell mapping and the flat id.
  - The resolution of a box to a `CellRange`.
  - Lemmas saying which cells a range selects, plus the examples of the
    test suite.
- `buckets.dfy` (module `Buckets`): the bucket array as a value
  (`seq<seq<nat>>`).
  - `QueryIds` specifies the output of a query.
  - Lemmas about query output, insertion and clearing.
- `grid_index.dfy` (module `GridIndex`): the class `GridIndex2D`.
  - Its fields are the fixed geometry and an `array<seq<nat>>` of buckets.
  - Its methods are the constructor, `Insert`, the three query variants,
    `Clear` and the getters. The query variants use nested loops proved
    against `QueryIds`.
- `scenarios.dfy` (module `GridScenarios`): clients of the class that replay
  the scenarios of `tests/test_grid_index.cpp`. They prove the outcomes from
  the method contracts alone.

Coordinates are mathematical reals: `.Floor` is the floor of the source,
and ceiling is `-floor(-r)`. Ids are `nat`.

The constructor's two `std::invalid_argument` throws are modelled as the
`Err` results of `MakeGeometry`. The constructor requires `Ok`, so an index
exists only for accepted parameters, as in the source.

`query_box_no_alloc` fills a vector owned by the caller. Its model takes
that vector's old contents as `dest` and returns its new contents.
`query_box_callback` calls a visitor. Its model returns the sequence of ids
handed to the visitor, in call order.

## Model

| member | source | states |
|---|---|---|
| GridGeometry.MakeGeometry | include/grid_index.h:56-70 | Construction fails exactly when a step is `<= 0` or a start is not below its end. The step check is reported first. Otherwise the axes are the given ones and `nx`, `ny` are the ceilings of span over step. |
| GridGeometry.CellCount | include/grid_index.h:69-70 | `n >= 1`. n cells of width `step` reach the end, and n-1 do not. |
| GridGeometry.Ceil | include/grid_index.h:69-70 | `r <= c < r + 1`: the ceiling. |
| GridIndex.GridIndex2D.constructor | include/grid_index.h:56-74 | For accepted parameters: the geometry `MakeGeometry` computes, and `nx * ny` fresh buckets, all empty. |
| GridGeometry.RawIndex | include/grid_index.h:292 | `floor((v - start) / step)` is the k whose half-open cell `[start + k*step, start + (k+1)*step)` holds v. |
| GridGeometry.EdgeBracket | include/grid_index.h:292 | If `v = start + q*step` and `k <= q < k+1`, then v lies between the edges of cell k. |
| GridGeometry.Clamp | include/grid_index.h:293 | `max(0, min(k, n-1))` lies in `[0, n)`. It equals k iff k is already there; it is 0 below and n-1 above. |
| GridGeometry.CellIndex | include/grid_index.h:291-302 | get_cell_x / get_cell_y: the result lies in `[0, n)`. A coordinate inside the grid gets the cell covering it. One below the grid gets 0, one at or beyond its far edge gets n-1. |
| GridGeometry.RawIndexPlacement | include/grid_index.h:292-293 | The raw index is negative exactly below the start and `>= n` exactly at or beyond the far edge. |
| GridGeometry.CellId | include/grid_index.h:307-309 | `j * nx + i` is an index of the bucket array for every in-range (i, j). |
| GridGeometry.CellIdDecode | include/grid_index.h:307-309 | The flat layout is injective: i and j come back as remainder and quotient by nx, so distinct cells never share a bucket. |
| GridGeometry.CellIdOnto | include/grid_index.h:307-309 | The flat layout is onto: every bucket id in `[0, nx*ny)` is the id of the cell `(id % nx, id / nx)`. |
| GridGeometry.CellOf | include/grid_index.h:85-88 | The bucket insert picks for (x, y) is in range, whatever the point. |
| GridGeometry.Lo | include/grid_index.h:319-320 | Definition: the smaller of two corner coordinates, which is what `x1` (`y1`) holds after the swap. |
| GridGeometry.Hi | include/grid_index.h:319-320 | Definition: the larger of two corner coordinates, which is what `x2` (`y2`) holds after the swap. |
| GridGeometry.OnBoundary | include/grid_index.h:332-352 | Definition: `(v - start) / step` equals its own floor. This is the exact-boundary test the source applies to each of x1, y1, x2 and y2; `OnBoundaryIsCellEdge` gives its meaning. |
| GridGeometry.LowerIndex | include/grid_index.h:323-341 | Definition: the raw floor index of the lower side, plus 1 exactly when `include_min` is false and `(lo - start) / step` is an integer. `LowerIndexSelects` states which cells it keeps. |
| GridGeometry.UpperIndex | include/grid_index.h:324-355 | Definition: the raw floor index of the upper side, minus 1 exactly when `include_max` is false and `(hi - start) / step` is an integer. `UpperIndexSelects` states which cells it keeps. |
| GridGeometry.AdjustedRange | include/grid_index.h:318-355 | Definition: the four indices after the corner swap, the floor and the edge adjustment, before the clamp. `GetCellRange` clamps each of them. |
| GridGeometry.GetCellRange | include/grid_index.h:314-362 | Every index of the resolved range is a valid cell index, for every box and flags. |
| GridGeometry.OnBoundaryIsCellEdge | include/grid_index.h:332-333 | `(v - start) / step` is an integer exactly when v is the lower edge of the cell holding it. |
| GridGeometry.LowerIndexSelects | include/grid_index.h:323-341 | Cell k is at or above the adjusted lower index iff it reaches past the lower side and, when that side is excluded, does not start on it. |
| GridGeometry.UpperIndexSelects | include/grid_index.h:324-355 | Cell k is at or below the adjusted upper index iff it starts no later than the upper side and, when that side is excluded, does not start on it. |
| GridGeometry.RawIndexOfCell | include/grid_index.h:292 | A value between the edges of cell k has raw index k: cells do not overlap. |
| GridGeometry.EdgeIndices | include/grid_index.h:330-355 | A coordinate on the lower edge of cell k: insert puts it in k. An included side on it selects k. An excluded one moves the lower index to k+1 and the upper index to k-1. |
| GridGeometry.EdgeBoxRange | include/grid_index.h:314-361 | A box spanning the edges of cells (i, j) to (i+1, j+1) resolves, for each of the four flag pairs, to cells i..i+1 minus the dropped sides. |
| GridGeometry.InteriorIndex | include/grid_index.h:291-302 | A point of cell k, its lower edge included, is put in cell k. |
| GridGeometry.EdgePointCells | include/grid_index.h:85-88 | The lower corners of (i, j) and (i+1, j+1) and an inner point of (i, j) are stored in those cells. |
| GridGeometry.NeighbourIdsDistinct | include/grid_index.h:307-309 | The four cells of a 2x2 block have four different buckets. |
| GridGeometry.CellRangeCornerOrder | include/grid_index.h:318-320 | Swapping x1/x2, y1/y2 or both does not change the resolved range. |
| GridGeometry.ClampMonotone | include/grid_index.h:358-361 | Clamping preserves order. |
| GridGeometry.AxisPointSelected | include/grid_index.h:323-361 | With the lower side included, the cell of any point of the box's extent on one axis lies between the clamped lower and upper indices. |
| GridGeometry.PointInBoxIsSelected | include/grid_index.h:314-362 | No false negatives: with the lower sides included, the cell insert picks for any point of the box lies in the resolved range. |
| GridGeometry.AxisCorners | include/grid_index.h:291-293 | The start lies in cell 0 and the end in cell n-1 or beyond. |
| GridGeometry.CornerCells | include/grid_index.h:314-362 | A box reduced to the start corner resolves to cell (0, 0) alone, one reduced to the end corner to (nx-1, ny-1) alone. |
| GridGeometry.WholeGridRange | include/grid_index.h:314-362 | A box from the start corner of the grid to its end corner resolves to every cell. |
| GridGeometry.CornerBuckets | include/grid_index.h:307-309 | Cell (0, 0) is bucket 0 and cell (nx-1, ny-1) is bucket `nx*ny - 1`. |
| GridGeometry.BelowGridCell | include/grid_index.h:291-302 | A point below both starts goes to the first bucket. |
| GridGeometry.BeyondGridCell | include/grid_index.h:291-302 | A point at or beyond both far cell edges goes to the last bucket. |
| GridGeometry.ConstructionExamples | tests/test_grid_index.cpp:35-66 | The 10 x 10 grid over [0, 100) and the three rejected parameter sets, with their error kinds. |
| GridGeometry.EdgeFlagExamples | tests/test_grid_index.cpp:462-538 | Box [5, 6]^2 on the unit grid over [0, 10): cells 5..6, none (6 > 5), 5 only, 6 only. |
| GridGeometry.ExcludedLowerEdgeDropsCell | tests/test_grid_index.cpp:583-601 | The point 5.5 lies in cell 5, but with the lower side excluded the range starts at 6. |
| GridGeometry.FarEdgeClampedBack | include/grid_index.h:330-361 | An excluded lower side at the far edge adjusts to 11 on 10 cells and is clamped back to 9. |
| GridGeometry.OutOfRangeExamples | tests/test_grid_index.cpp:139-148 | (-10, -10) goes to bucket 0 and (200, 200) to bucket 99. |
| GridGeometry.CornerRangeExamples | include/grid_index.h:314-362 | On the 10 x 10 grid over [0, 100), the box [0, 5]^2 inside cell (0, 0) resolves to (0, 0). The box [95, 100]^2 reaches the far edge, whose raw index 10 is clamped back to 9, and resolves to (9, 9). |
| GridGeometry.DiagonalBoxExamples | tests/test_grid_index.cpp:103-122 | The box [0, 20]^2 on the 10 x 10 grid over [0, 100) resolves to cells 0..2 on both axes. The point (25, 25), outside the box, lies in the selected cell 2. |
| GridGeometry.ReuseCellExamples | tests/test_grid_index.cpp:379-389 | (5, 5) goes to bucket 0 and (15, 15) to bucket 11. |
| GridGeometry.ReuseRangeExamples | tests/test_grid_index.cpp:394-402 | The boxes [0, 9.9]^2 and [10, 19.9]^2 resolve to cells (0, 0) and (1, 1). |
| GridGeometry.OneCellGrid | include/grid_index.h:108-110 | On any grid of one cell, every point goes to bucket 0 and every box, with any flags, resolves to that cell. |
| GridGeometry.OneCellExample | include/grid_index.h:108-110 | The grid over [0, 10) with step 10 has one cell: the point (1, 1) goes to bucket 0 and the box [8, 9]^2 resolves to that cell. |
| Buckets.TotalIds | include/grid_index.h:254-260 | Definition: the sum of the bucket sizes. `NumPoints` is proved equal to it, and `TotalIdsUpdate` and `TotalIdsZero` give its meaning. |
| Buckets.RowIds | include/grid_index.h:126-130 | Definition: the buckets of row j for columns iMin to iEnd-1, concatenated left to right as the inner loop appends them. |
| Buckets.RangeIds | include/grid_index.h:125-131 | Definition: the outputs of rows jMin to jEnd-1, bottom to top, as the outer loop runs. |
| Buckets.QueryIds | include/grid_index.h:115-134 | Definition: what every query variant yields for a resolved range, with j outer from jMin to jMax and i inner from iMin to iMax. `QueryIdsAround`, `QueryIdsFromRange`, `QueryIdsEmptyRange` and `QueryIdsWholeGrid` give its meaning. |
| Buckets.TotalIdsUpdate | include/grid_index.h:254-260 | Replacing one bucket changes the count by the difference of the two sizes. |
| Buckets.TotalIdsZero | include/grid_index.h:254-260 | The count is zero iff every bucket is empty. |
| Buckets.AllEmptyUnique | include/grid_index.h:236-240 | Two emptied bucket arrays of one size are equal, so clearing twice is clearing once. |
| Buckets.RowIdsOfEmpty | include/grid_index.h:126-130 | A row of empty buckets yields nothing. |
| Buckets.RangeIdsOfEmpty | include/grid_index.h:125-131 | A range of empty buckets yields nothing. |
| Buckets.RangeIdsNoColumns | include/grid_index.h:125-131 | A range with no columns yields nothing, whatever the buckets hold. |
| Buckets.QueryIdsEmptyRange | include/grid_index.h:125-126 | A range whose min exceeds its max on either axis yields nothing. |
| Buckets.QueryIdsOfEmpty | include/grid_index.h:236-240 | After clear every query yields nothing. |
| Buckets.QueryIdsOneCell | include/grid_index.h:125-131 | A one-cell range yields that bucket, in insertion order. |
| Buckets.RowIdsPair | include/grid_index.h:126-130 | Two neighbouring columns yield the left bucket, then the right one. |
| Buckets.QueryIdsTwoByTwo | include/grid_index.h:125-131 | A 2x2 range yields (i, j), (i+1, j), then (i, j+1), (i+1, j+1). |
| Buckets.RowIdsSplit | include/grid_index.h:126-130 | A row's output is the concatenation of its outputs over any split of the columns. |
| Buckets.RangeIdsSplit | include/grid_index.h:125-131 | A range's output is the concatenation of its outputs over any split of the rows. |
| Buckets.RowIdsAround | include/grid_index.h:126-130 | A row's output is the columns left of i, then the whole bucket of (i, j), then the columns right of i. |
| Buckets.RangeIdsAround | include/grid_index.h:125-131 | A range's output is the rows below j, then row j, then the rows above. |
| Buckets.QueryIdsAround | include/grid_index.h:115-134 | The whole bucket of every cell in the range appears contiguously in the result, at the position the j-outer, i-inner order gives. |
| Buckets.RowIdsFromRow | include/grid_index.h:126-130 | Every id output for a row comes from a bucket of one of its columns. |
| Buckets.RangeIdsFromRange | include/grid_index.h:125-131 | Every id output for a range comes from a bucket inside it. |
| Buckets.QueryIdsFromRange | include/grid_index.h:115-134 | Every id a query returns comes from a bucket inside the resolved range. |
| Buckets.RowIdsUnaffected | include/grid_index.h:126-130 | Changing a bucket outside a row's columns leaves its output as it was. |
| Buckets.RangeIdsUnaffected | include/grid_index.h:125-131 | Changing a bucket outside a range leaves its output as it was. |
| Buckets.QueryIdsUnaffected | include/grid_index.h:115-134 | Changing the bucket of a cell outside the resolved range leaves the query's result as it was. |
| Buckets.FlatLength | include/grid_index.h:254-260 | The first n buckets in flat order hold exactly as many ids as the count over those n buckets. |
| Buckets.RowIdsPrefix | include/grid_index.h:126-130 | The buckets before row j in flat order, followed by row j's columns 0..iEnd-1, are the first `j*nx + iEnd` buckets in flat order. |
| Buckets.RangeIdsPrefix | include/grid_index.h:125-131 | Rows 0..jEnd-1 over all columns yield the first `jEnd*nx` buckets in flat order. |
| Buckets.QueryIdsWholeGrid | include/grid_index.h:115-134 | A query over every cell returns all buckets in flat order, as many ids as are stored. |
| Buckets.InsertedIdFound | include/grid_index.h:85-90 | After inserting id at a point of the box, a query with the lower sides included returns it. |
| GridIndex.GridIndex2D.Insert | include/grid_index.h:85-90 | id is appended to the end of bucket `CellOf(x, y)`. Every other bucket is unchanged, and the count grows by exactly one. |
| GridIndex.GridIndex2D.AppendRow | include/grid_index.h:126-130 | The inner loop appends the buckets of row j, columns iMin..iMax, in order. |
| GridIndex.GridIndex2D.QueryBox | include/grid_index.h:115-134 | The result is `QueryIds` of the resolved range. Both flags default to true. |
| GridIndex.GridIndex2D.QueryBoxNoAlloc | include/grid_index.h:171-190 | The result is the old contents when `append_results` is set, and nothing otherwise, followed by `QueryIds` of the resolved range. `append_results` defaults to false and both flags to true. |
| GridIndex.GridIndex2D.VisitRow | include/grid_index.h:223-229 | The visitor sees each id of each bucket of row j, columns iMin..iMax, once, in order. |
| GridIndex.GridIndex2D.QueryBoxCallback | include/grid_index.h:214-231 | The ids handed to the visitor, in call order, are `QueryIds` of the resolved range. Both flags default to true. |
| GridIndex.GridIndex2D.Clear | include/grid_index.h:236-240 | Every bucket is empty and the count is zero. The geometry is a constant and does not change. |
| GridIndex.GridIndex2D.NumCells | include/grid_index.h:246-248 | The number of buckets is `nx * ny`. |
| GridIndex.GridIndex2D.NumPoints | include/grid_index.h:254-260 | The loop's sum is `TotalIds` of the buckets. |
| GridIndex.GridIndex2D.Dimensions | include/grid_index.h:267-270 | `(nx, ny)`, the ceilings of span over step. Both are at least 1, and their product is the number of buckets. |
| GridIndex.GridIndex2D.Bounds | include/grid_index.h:275-280 | The bounds satisfy start < end, and with the steps they rebuild this very geometry. |
| GridScenarios.QueryVariantsAgree | tests/test_grid_index.cpp:436-459 | `query_box`, `query_box_no_alloc` without append and the callback trace are one and the same sequence. |
| GridScenarios.DefaultArgumentsScenario | tests/test_grid_index.cpp:627-640 | A query without the optional arguments equals the one with both flags true. The no-alloc variant without them discards the old contents, and the callback variant visits the same ids. |
| GridScenarios.EdgeBoxQueries | tests/test_grid_index.cpp:462-538 | With (i, j) holding 0 then 2, (i+1, j+1) holding 1 and the other two cells empty, the four flag pairs yield `[0, 2, 1]`, `[]`, `[0, 2]`, `[1]`. |
| GridScenarios.EdgeFlagScenario | tests/test_grid_index.cpp:462-538 | The edge-handling tests on any grid and any 2x2 block: `[0, 2, 1]`, `[]`, `[0, 2]`, `[1]`. |
| GridScenarios.ClearScenario | tests/test_grid_index.cpp:171-184 | Two ids counted, then zero after clear, an empty full-grid query, and still zero after a second clear. |
| GridScenarios.WholeGridScenario | tests/test_grid_index.cpp:103-122 | Four points stored on an empty grid are counted as four. A query from the start corner to the end corner of the grid returns four ids. |
| GridScenarios.CornerQueries | include/grid_index.h:314-362 | Queries reduced to the start and end corners yield the first and the last bucket. |
| GridScenarios.InsertCorners | tests/test_grid_index.cpp:139-148 | Points below and beyond the grid land in the first and the last bucket, and the count is two. |
| GridScenarios.OutOfRangeScenario | tests/test_grid_index.cpp:139-148 | Out-of-range points are counted (2) and found at the corners (`[0]`, `[1]`). |
| GridScenarios.FalsePositiveScenario | include/grid_index.h:108-110 | On a one-cell grid every query returns every stored id, wherever the point and the box are. |
| GridScenarios.ReuseScenario | tests/test_grid_index.cpp:379-412 | Reusing one result sequence: without append each query replaces the contents (`[1]`, then `[2]`); with append the new ids follow the old ones (`[2, 1]`). |

## Left out

- IEEE float and double rounding: coordinates are reals. This includes the exact-equality boundary test of lines 333-352 under rounding, and values such as `9.9f`.
- Integer overflow: Dafny's `int` is unbounded. This covers `static_cast<int>(std::ceil(...))` at lines 69-70, `nx_ * ny_`, `j * nx_ + i`, the `static_cast<int>(std::floor(...))` casts at lines 292, 300 and 323-326, and the `++`/`--` adjustments at lines 334-353. Ids are `nat`, not `size_t`.
- GridGeometry.CellOf: the clamp into the grid holds only while the raw floor index fits in an `int`. A coordinate more than `INT_MAX` cells from the start makes the cast at lines 292 and 300 undefined in the source (typically `INT_MIN`, which is then clamped to cell 0).
- GridGeometry.BeyondGridCell: the last bucket is guaranteed only while the raw floor index fits in an `int`. A point more than `INT_MAX` cells beyond the start overflows the cast at lines 292 and 300 in the source.
- GridGeometry.GetCellRange: the adjusted indices are unbounded. In the source, a raw index of `INT_MAX` incremented at line 334 or 339, or `INT_MIN` decremented at line 348 or 353, overflows. So do the casts at lines 323-326 for a box side more than `INT_MAX` cells away.
- The template parameters: `T` is `real`, and the `Callback` is replaced by the trace of the ids handed to it.
- GridIndex.GridIndex2D.constructor: requires `MakeGeometry` to accept the parameters rather than modelling the exception itself. The refused cases are the `Err` results of `MakeGeometry`.
- Vector capacity, `reserve` and allocation: they are not observable.
- GridScenarios.ReuseScenario: uses ids stored in the two corner cells rather than the test's cells (0, 0) to (3, 3). It adds an `append_results` step the test does not have.
- GridScenarios.EdgeFlagScenario: is stated for any grid, any 2x2 block and any inner point; the unit grid over [0, 10) with the block at (5, 5) is one instance.
- GridScenarios.WholeGridScenario: is stated for any grid and any four points; the test's 10 x 10 grid with points on the diagonal is one instance. The test's first query is covered by `DiagonalBoxExamples`.
- examples/performance_example.cpp and examples/basic_usage.cpp: benchmark and console demo code, not part of the index.
