/*
 * The grid index object: a fixed geometry and a flat array of nx * ny
 * buckets of point ids, filled by Insert, emptied by Clear and read by the
 * three query variants, which share one traversal (rows j outer, columns i
 * inner) over the range that GetCellRange resolves.
 */
module GridIndex {
  import opened GridGeometry
  import opened Buckets

  class GridIndex2D {
    /** Bounds, steps and cell counts; fixed at construction. */
    const geom: Geometry
    /** Bucket `j * nx + i` holds, in insertion order, the ids inserted into cell (i, j). */
    const grid: array<seq<nat>>

    ghost predicate Valid()
    {
      geom.Valid() && grid.Length == geom.nx * geom.ny
    }

    /**
     * Allocation of nx * ny empty buckets, once MakeGeometry has accepted the
     * parameters; when it refuses them, the source throws and no index exists.
     */
    constructor (xStart: real, xEnd: real, xStep: real, yStart: real, yEnd: real, yStep: real)
      requires MakeGeometry(xStart, xEnd, xStep, yStart, yEnd, yStep).Ok?
      ensures Valid() && fresh(grid)
      ensures geom == MakeGeometry(xStart, xEnd, xStep, yStart, yEnd, yStep).value
      ensures AllEmpty(grid[..])
    {
      var g := MakeGeometry(xStart, xEnd, xStep, yStart, yEnd, yStep).value;
      FlatBound(0, 0, g.nx, g.ny);
      geom := g;
      grid := new seq<nat>[g.nx * g.ny](_ => []);
    }

    /**
     * Appends id to the bucket of the clamped cell of (x, y); no other bucket
     * changes and the number of stored ids grows by exactly one.
     */
    method Insert(x: real, y: real, id: nat)
      requires Valid()
      modifies grid
      ensures grid[..] == old(grid[..])[CellOf(geom, x, y) := old(grid[CellOf(geom, x, y)]) + [id]]
      ensures TotalIds(grid[..]) == old(TotalIds(grid[..])) + 1
    {
      var i := CellIndex(geom.x, geom.nx, x);
      var j := CellIndex(geom.y, geom.ny, y);
      var cellId := CellId(geom, i, j);
      TotalIdsUpdate(grid[..], cellId, grid[cellId] + [id]);
      grid[cellId] := grid[cellId] + [id];
    }

    /**
     * The inner loop of query_box and query_box_no_alloc: the buckets of
     * row j, columns iMin to iMax, appended in order to acc.
     */
    method AppendRow(acc: seq<nat>, j: int, iMin: int, iMax: int) returns (out: seq<nat>)
      requires Valid() && 0 <= j < geom.ny && 0 <= iMin < geom.nx && iMax < geom.nx
      ensures out == acc + RowIds(grid[..], geom, j, iMin, iMax + 1)
    {
      out := acc;
      var i := iMin;
      while i <= iMax
        invariant iMin <= i && (i <= iMax + 1 || i == iMin)
        invariant out == acc + RowIds(grid[..], geom, j, iMin, i)
      {
        out := out + grid[CellId(geom, i, j)];
        i := i + 1;
      }
    }

    /**
     * All ids of the buckets in the resolved range, j outer and i inner,
     * collected into a new sequence; both kinds of edge are included unless
     * the caller says otherwise.
     */
    method QueryBox(x1: real, x2: real, y1: real, y2: real, includeMin: bool := true, includeMax: bool := true)
      returns (result: seq<nat>)
      requires Valid()
      ensures result == QueryIds(grid[..], geom, GetCellRange(geom, x1, x2, y1, y2, includeMin, includeMax))
    {
      var r := GetCellRange(geom, x1, x2, y1, y2, includeMin, includeMax);
      result := [];
      var j := r.jMin;
      while j <= r.jMax
        invariant r.jMin <= j && (j <= r.jMax + 1 || j == r.jMin)
        invariant result == RangeIds(grid[..], geom, r.jMin, j, r.iMin, r.iMax + 1)
      {
        result := AppendRow(result, j, r.iMin, r.iMax);
        j := j + 1;
      }
    }

    /**
     * The same traversal writing into a caller's sequence: its old contents
     * are kept when appendResults is set and discarded otherwise (the
     * default).
     */
    method QueryBoxNoAlloc(x1: real, x2: real, y1: real, y2: real, dest: seq<nat>, appendResults: bool := false,
                           includeMin: bool := true, includeMax: bool := true)
      returns (result: seq<nat>)
      requires Valid()
      ensures result == (if appendResults then dest else [])
                        + QueryIds(grid[..], geom, GetCellRange(geom, x1, x2, y1, y2, includeMin, includeMax))
    {
      result := dest;
      if !appendResults {
        result := [];
      }
      ghost var base := result;
      var r := GetCellRange(geom, x1, x2, y1, y2, includeMin, includeMax);
      var j := r.jMin;
      while j <= r.jMax
        invariant r.jMin <= j && (j <= r.jMax + 1 || j == r.jMin)
        invariant result == base + RangeIds(grid[..], geom, r.jMin, j, r.iMin, r.iMax + 1)
      {
        ghost var found := RangeIds(grid[..], geom, r.jMin, j, r.iMin, r.iMax + 1);
        result := AppendRow(result, j, r.iMin, r.iMax);
        AppendAssoc(base, found, RowIds(grid[..], geom, j, r.iMin, r.iMax + 1));
        j := j + 1;
      }
    }

    /**
     * The inner loops of query_box_callback: for row j, columns iMin to
     * iMax, each id of each bucket handed to the visitor in turn; `out` is
     * the trace acc extended by those calls.
     */
    method VisitRow(acc: seq<nat>, j: int, iMin: int, iMax: int) returns (out: seq<nat>)
      requires Valid() && 0 <= j < geom.ny && 0 <= iMin < geom.nx && iMax < geom.nx
      ensures out == acc + RowIds(grid[..], geom, j, iMin, iMax + 1)
    {
      out := acc;
      var i := iMin;
      while i <= iMax
        invariant iMin <= i && (i <= iMax + 1 || i == iMin)
        invariant out == acc + RowIds(grid[..], geom, j, iMin, i)
      {
        var cell := grid[CellId(geom, i, j)];
        ghost var before := out;
        var k := 0;
        while k < |cell|
          invariant 0 <= k <= |cell|
          invariant out == before + cell[..k]
        {
          out := out + [cell[k]];
          k := k + 1;
        }
        assert cell[..|cell|] == cell;
        i := i + 1;
      }
    }

    /**
     * The callback variant: `visited` is the sequence of ids handed to the
     * visitor, one call per id, in call order.
     */
    method QueryBoxCallback(x1: real, x2: real, y1: real, y2: real, includeMin: bool := true, includeMax: bool := true)
      returns (visited: seq<nat>)
      requires Valid()
      ensures visited == QueryIds(grid[..], geom, GetCellRange(geom, x1, x2, y1, y2, includeMin, includeMax))
    {
      var r := GetCellRange(geom, x1, x2, y1, y2, includeMin, includeMax);
      visited := [];
      var j := r.jMin;
      while j <= r.jMax
        invariant r.jMin <= j && (j <= r.jMax + 1 || j == r.jMin)
        invariant visited == RangeIds(grid[..], geom, r.jMin, j, r.iMin, r.iMax + 1)
      {
        visited := VisitRow(visited, j, r.iMin, r.iMax);
        j := j + 1;
      }
    }

    /** Empties every bucket; bounds and cell counts stay, so clearing again changes nothing. */
    method Clear()
      requires Valid()
      modifies grid
      ensures AllEmpty(grid[..])
      ensures TotalIds(grid[..]) == 0
    {
      var k := 0;
      while k < grid.Length
        invariant 0 <= k <= grid.Length
        invariant forall m :: 0 <= m < k ==> grid[m] == []
      {
        grid[k] := [];
        k := k + 1;
      }
      TotalIdsZero(grid[..]);
    }

    /** Number of buckets: the nx * ny cells of the grid. */
    function NumCells(): (n: nat)
      requires Valid()
      ensures n == geom.nx * geom.ny
    {
      grid.Length
    }

    /** Number of stored ids, summed bucket by bucket. */
    method NumPoints() returns (count: nat)
      requires Valid()
      ensures count == TotalIds(grid[..])
    {
      count := 0;
      var k := 0;
      while k < grid.Length
        invariant 0 <= k <= grid.Length
        invariant count == TotalIds(grid[..k])
      {
        assert grid[..k + 1][..k] == grid[..k];
        count := count + |grid[k]|;
        k := k + 1;
      }
      assert grid[..grid.Length] == grid[..];
    }

    /** (nx, ny): the ceilings of span over step, whose product is the number of buckets. */
    function Dimensions(): (d: (int, int))
      requires Valid()
      ensures d == (Ceil((geom.x.end - geom.x.start) / geom.x.step), Ceil((geom.y.end - geom.y.start) / geom.y.step))
      ensures d.0 >= 1 && d.1 >= 1 && d.0 * d.1 == NumCells()
    {
      (geom.nx, geom.ny)
    }

    /** (x_start, x_end, y_start, y_end): with the steps they rebuild this very geometry. */
    function Bounds(): (b: (real, real, real, real))
      requires Valid()
      ensures b.0 < b.1 && b.2 < b.3
      ensures MakeGeometry(b.0, b.1, geom.x.step, b.2, b.3, geom.y.step) == Ok(geom)
    {
      (geom.x.start, geom.x.end, geom.y.start, geom.y.end)
    }
  }
}
