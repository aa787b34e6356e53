/*
 * Clients of the grid index that replay scenarios of the test suite and
 * prove their outcomes from the specifications of the index alone.
 */
module GridScenarios {
  import opened GridGeometry
  import opened Buckets
  import opened GridIndex

  /** The three query variants agree: same ids, same order (the append flag off). */
  method QueryVariantsAgree(index: GridIndex2D, x1: real, x2: real, y1: real, y2: real,
                            dest: seq<nat>, includeMin: bool, includeMax: bool)
    returns (collected: seq<nat>, reused: seq<nat>, visited: seq<nat>)
    requires index.Valid()
    ensures collected == reused && reused == visited
  {
    collected := index.QueryBox(x1, x2, y1, y2, includeMin, includeMax);
    reused := index.QueryBoxNoAlloc(x1, x2, y1, y2, dest, false, includeMin, includeMax);
    visited := index.QueryBoxCallback(x1, x2, y1, y2, includeMin, includeMax);
  }

  /**
   * Called without the optional arguments, every variant includes both
   * kinds of edge and the no-alloc variant discards what its sequence held.
   */
  method DefaultArgumentsScenario(index: GridIndex2D, x1: real, x2: real, y1: real, y2: real, dest: seq<nat>)
    returns (explicit: seq<nat>, defaulted: seq<nat>, reused: seq<nat>, visited: seq<nat>)
    requires index.Valid()
    ensures defaulted == explicit && reused == explicit && visited == explicit
  {
    explicit := index.QueryBox(x1, x2, y1, y2, true, true);
    defaulted := index.QueryBox(x1, x2, y1, y2);
    reused := index.QueryBoxNoAlloc(x1, x2, y1, y2, dest);
    visited := index.QueryBoxCallback(x1, x2, y1, y2);
  }

  /**
   * The four results of the edge-flag scenario, from the buckets alone: (i, j)
   * holds 0 then 2, (i+1, j+1) holds 1 and the two other cells of the box
   * are empty.
   */
  lemma {:induction false} EdgeBoxQueries(cells: seq<seq<nat>>, g: Geometry, i: int, j: int)
    requires g.Valid() && |cells| == g.nx * g.ny
    requires 0 <= i && i + 1 < g.nx && 0 <= j && j + 1 < g.ny
    requires cells[CellId(g, i, j)] == [0, 2] && cells[CellId(g, i + 1, j + 1)] == [1]
    requires cells[CellId(g, i + 1, j)] == [] && cells[CellId(g, i, j + 1)] == []
    ensures QueryIds(cells, g, GetCellRange(g, Edge(g.x, i), Edge(g.x, i + 1), Edge(g.y, j), Edge(g.y, j + 1), true, true)) == [0, 2, 1]
    ensures QueryIds(cells, g, GetCellRange(g, Edge(g.x, i), Edge(g.x, i + 1), Edge(g.y, j), Edge(g.y, j + 1), false, false)) == []
    ensures QueryIds(cells, g, GetCellRange(g, Edge(g.x, i), Edge(g.x, i + 1), Edge(g.y, j), Edge(g.y, j + 1), true, false)) == [0, 2]
    ensures QueryIds(cells, g, GetCellRange(g, Edge(g.x, i), Edge(g.x, i + 1), Edge(g.y, j), Edge(g.y, j + 1), false, true)) == [1]
  {
    EdgeBoxRange(g, i, j, true, true);
    EdgeBoxRange(g, i, j, false, false);
    EdgeBoxRange(g, i, j, true, false);
    EdgeBoxRange(g, i, j, false, true);
    QueryIdsTwoByTwo(cells, g, i, j);
    QueryIdsEmptyRange(cells, g, CellRange(i + 1, i, j + 1, j));
    QueryIdsOneCell(cells, g, i, j);
    QueryIdsOneCell(cells, g, i + 1, j + 1);
  }

  /**
   * Edge flags on a box whose sides lie on cell edges, such as [5, 6] x [5, 6]
   * on the unit grid over [0, 10): id 0 on the lower corner of cell (i, j),
   * id 1 on the lower corner of cell (i+1, j+1) and id 2 strictly inside
   * cell (i, j). Both edges included find all three; both excluded find
   * none; only the lower edge finds 0 and 2; only the upper edge finds 1.
   */
  method EdgeFlagScenario(index: GridIndex2D, i: int, j: int, midX: real, midY: real)
    returns (both: seq<nat>, neither: seq<nat>, lowerOnly: seq<nat>, upperOnly: seq<nat>)
    requires index.Valid() && AllEmpty(index.grid[..])
    requires 0 <= i && i + 1 < index.geom.nx && 0 <= j && j + 1 < index.geom.ny
    requires Edge(index.geom.x, i) < midX < Edge(index.geom.x, i + 1)
    requires Edge(index.geom.y, j) < midY < Edge(index.geom.y, j + 1)
    modifies index.grid
    ensures both == [0, 2, 1]
    ensures neither == []
    ensures lowerOnly == [0, 2]
    ensures upperOnly == [1]
  {
    var g := index.geom;
    var x1, x2, y1, y2 := Edge(g.x, i), Edge(g.x, i + 1), Edge(g.y, j), Edge(g.y, j + 1);
    EdgePointCells(g, i, j, midX, midY);
    NeighbourIdsDistinct(g, i, j);
    ghost var empty := index.grid[..];
    index.Insert(x1, y1, 0);
    index.Insert(x2, y2, 1);
    index.Insert(midX, midY, 2);
    ghost var cells := index.grid[..];
    assert cells[CellId(g, i + 1, j)] == empty[CellId(g, i + 1, j)];
    assert cells[CellId(g, i, j + 1)] == empty[CellId(g, i, j + 1)];
    EdgeBoxQueries(cells, g, i, j);
    both := index.QueryBox(x1, x2, y1, y2, true, true);
    neither := index.QueryBox(x1, x2, y1, y2, false, false);
    lowerOnly := index.QueryBox(x1, x2, y1, y2, true, false);
    upperOnly := index.QueryBox(x1, x2, y1, y2, false, true);
  }

  /** Clearing a grid holding two ids: nothing is counted or found afterwards, and a second clear keeps it so. */
  method ClearScenario() returns (before: nat, after: nat, again: nat, all: seq<nat>)
    ensures before == 2 && after == 0 && again == 0
    ensures all == []
  {
    var index := new GridIndex2D(0.0, 100.0, 10.0, 0.0, 100.0, 10.0);
    TotalIdsZero(index.grid[..]);
    index.Insert(15.0, 25.0, 0);
    index.Insert(25.0, 35.0, 1);
    before := index.NumPoints();
    index.Clear();
    ghost var cleared := index.grid[..];
    after := index.NumPoints();
    all := index.QueryBox(0.0, 100.0, 0.0, 100.0, true, true);
    QueryIdsOfEmpty(index.grid[..], index.geom, GetCellRange(index.geom, 0.0, 100.0, 0.0, 100.0, true, true));
    index.Clear();
    AllEmptyUnique(cleared, index.grid[..]);
    assert index.grid[..] == cleared;
    again := index.NumPoints();
  }

  /**
   * Four points stored on an empty grid, such as ids 0 to 3 at (5, 5),
   * (15, 15), (25, 25) and (35, 35) on the 10 x 10 grid over [0, 100): four
   * are counted, and a query from the start corner to the end corner of the
   * grid returns all four.
   */
  method WholeGridScenario(index: GridIndex2D, x0: real, y0: real, x1: real, y1: real,
                           x2: real, y2: real, x3: real, y3: real)
    returns (count: nat, all: seq<nat>)
    requires index.Valid() && AllEmpty(index.grid[..])
    modifies index.grid
    ensures count == 4 && |all| == 4
  {
    var g := index.geom;
    TotalIdsZero(index.grid[..]);
    index.Insert(x0, y0, 0);
    index.Insert(x1, y1, 1);
    index.Insert(x2, y2, 2);
    index.Insert(x3, y3, 3);
    count := index.NumPoints();
    WholeGridRange(g);
    QueryIdsWholeGrid(index.grid[..], g);
    all := index.QueryBox(g.x.start, g.x.end, g.y.start, g.y.end);
  }

  /**
   * A query reduced to the start corner of the grid yields the first bucket,
   * one reduced to the end corner the last bucket.
   */
  lemma {:induction false} CornerQueries(cells: seq<seq<nat>>, g: Geometry)
    requires g.Valid() && |cells| == g.nx * g.ny
    ensures QueryIds(cells, g, GetCellRange(g, g.x.start, g.x.start, g.y.start, g.y.start, true, true)) == cells[0]
    ensures QueryIds(cells, g, GetCellRange(g, g.x.end, g.x.end, g.y.end, g.y.end, true, true)) == cells[g.nx * g.ny - 1]
  {
    CornerCells(g);
    CornerBuckets(g);
    QueryIdsOneCell(cells, g, 0, 0);
    QueryIdsOneCell(cells, g, g.nx - 1, g.ny - 1);
  }

  /**
   * Stores lowId at a point below both starts and highId at a point at or
   * beyond the far edge of both axes: the two are clamped into the first
   * and the last bucket.
   */
  method InsertCorners(index: GridIndex2D, lowX: real, lowY: real, highX: real, highY: real, lowId: nat, highId: nat)
    requires index.Valid() && AllEmpty(index.grid[..]) && index.geom.nx * index.geom.ny >= 2
    requires lowX < index.geom.x.start && lowY < index.geom.y.start
    requires Edge(index.geom.x, index.geom.nx) <= highX
    requires Edge(index.geom.y, index.geom.ny) <= highY
    modifies index.grid
    ensures index.grid[0] == [lowId] && index.grid[index.geom.nx * index.geom.ny - 1] == [highId]
    ensures TotalIds(index.grid[..]) == 2
  {
    var g := index.geom;
    TotalIdsZero(index.grid[..]);
    BelowGridCell(g, lowX, lowY);
    BeyondGridCell(g, highX, highY);
    index.Insert(lowX, lowY, lowId);
    index.Insert(highX, highY, highId);
  }

  /**
   * Points below both starts are stored in the first cell and points at or
   * beyond the far edge of both axes in the last one; a query reduced to
   * either corner finds exactly the id stored there. Any grid of two or
   * more cells, such as the 10 x 10 grid over [0, 100).
   */
  method OutOfRangeScenario(index: GridIndex2D, lowX: real, lowY: real, highX: real, highY: real)
    returns (count: nat, low: seq<nat>, high: seq<nat>)
    requires index.Valid() && AllEmpty(index.grid[..]) && index.geom.nx * index.geom.ny >= 2
    requires lowX < index.geom.x.start && lowY < index.geom.y.start
    requires Edge(index.geom.x, index.geom.nx) <= highX
    requires Edge(index.geom.y, index.geom.ny) <= highY
    modifies index.grid
    ensures count == 2
    ensures low == [0] && high == [1]
  {
    var g := index.geom;
    InsertCorners(index, lowX, lowY, highX, highY, 0, 1);
    count := index.NumPoints();
    CornerQueries(index.grid[..], g);
    low := index.QueryBox(g.x.start, g.x.start, g.y.start, g.y.start, true, true);
    high := index.QueryBox(g.x.end, g.x.end, g.y.end, g.y.end, true, true);
  }

  /**
   * Candidates, not exact matches: on a grid of a single cell, such as
   * [0, 10) x [0, 10) with step 10, every query returns every stored id,
   * wherever the point and the box are.
   */
  method FalsePositiveScenario(index: GridIndex2D, px: real, py: real, id: nat,
                               x1: real, x2: real, y1: real, y2: real)
    returns (found: seq<nat>)
    requires index.Valid() && AllEmpty(index.grid[..]) && index.geom.nx == 1 && index.geom.ny == 1
    modifies index.grid
    ensures found == [id]
  {
    index.Insert(px, py, id);
    ghost var cells := index.grid[..];
    assert cells[0] == [id];
    QueryIdsOneCell(cells, index.geom, 0, 0);
    found := index.QueryBox(x1, x2, y1, y2, true, true);
  }

  /**
   * Reusing one result sequence with ids 1 and 2 stored in the first and the
   * last cell (points outside the grid, clamped as in OutOfRangeScenario):
   * without the append flag each query replaces the contents; with the flag
   * the new ids follow the old ones.
   */
  method ReuseScenario(index: GridIndex2D, lowX: real, lowY: real, highX: real, highY: real)
    returns (first: seq<nat>, second: seq<nat>, appended: seq<nat>)
    requires index.Valid() && AllEmpty(index.grid[..]) && index.geom.nx * index.geom.ny >= 2
    requires lowX < index.geom.x.start && lowY < index.geom.y.start
    requires Edge(index.geom.x, index.geom.nx) <= highX
    requires Edge(index.geom.y, index.geom.ny) <= highY
    modifies index.grid
    ensures first == [1] && second == [2]
    ensures appended == [2, 1]
  {
    var g := index.geom;
    InsertCorners(index, lowX, lowY, highX, highY, 1, 2);
    CornerQueries(index.grid[..], g);
    first := index.QueryBoxNoAlloc(g.x.start, g.x.start, g.y.start, g.y.start, [], false, true, true);
    second := index.QueryBoxNoAlloc(g.x.end, g.x.end, g.y.end, g.y.end, first, false, true, true);
    appended := index.QueryBoxNoAlloc(g.x.start, g.x.start, g.y.start, g.y.start, second, true, true, true);
  }
}
