/*
 * The bucket array of a grid index as a value: one sequence of ids per
 * cell, cell (i, j) at flat position `j * nx + i`. The functions here
 * specify what the index's methods compute; the lemmas state what queries,
 * insertions and clearing mean for the ids they return.
 */
module Buckets {
  import opened GridGeometry

  /** Number of ids held over all buckets. */
  function TotalIds(cells: seq<seq<nat>>): nat
  {
    if cells == [] then 0 else TotalIds(cells[..|cells| - 1]) + |cells[|cells| - 1]|
  }

  predicate AllEmpty(cells: seq<seq<nat>>)
  {
    forall k :: 0 <= k < |cells| ==> cells[k] == []
  }

  /** Replacing one bucket changes the total by the difference of the two bucket sizes. */
  lemma {:induction false} TotalIdsUpdate(cells: seq<seq<nat>>, c: int, b: seq<nat>)
    requires 0 <= c < |cells|
    ensures TotalIds(cells[c := b]) == TotalIds(cells) - |cells[c]| + |b|
  {
    var n := |cells|;
    var u := cells[c := b];
    if c == n - 1 {
      assert u[..n - 1] == cells[..n - 1];
    } else {
      assert u[..n - 1] == cells[..n - 1][c := b];
      TotalIdsUpdate(cells[..n - 1], c, b);
    }
  }

  /** The total is zero exactly when every bucket is empty. */
  lemma {:induction false} TotalIdsZero(cells: seq<seq<nat>>)
    ensures TotalIds(cells) == 0 <==> AllEmpty(cells)
  {
    if cells != [] {
      var n := |cells|;
      TotalIdsZero(cells[..n - 1]);
      assert AllEmpty(cells) <==> AllEmpty(cells[..n - 1]) && cells[n - 1] == [] by {
        if AllEmpty(cells[..n - 1]) && cells[n - 1] == [] {
          forall k | 0 <= k < n ensures cells[k] == [] {
            if k < n - 1 {
              assert cells[k] == cells[..n - 1][k];
            }
          }
        }
      }
    }
  }

  /** Two emptied bucket arrays of one size are equal: clearing twice is clearing once. */
  lemma {:induction false} AllEmptyUnique(a: seq<seq<nat>>, b: seq<seq<nat>>)
    requires |a| == |b| && AllEmpty(a) && AllEmpty(b)
    ensures a == b
  {
  }

  lemma AppendAssoc(a: seq<nat>, b: seq<nat>, c: seq<nat>)
    ensures (a + b) + c == a + (b + c)
  {
  }

  /** Buckets of row j for columns iMin .. iEnd-1, concatenated left to right. */
  function RowIds(cells: seq<seq<nat>>, g: Geometry, j: int, iMin: int, iEnd: int): seq<nat>
    requires |cells| == g.nx * g.ny
    requires 0 <= j < g.ny && 0 <= iMin && iEnd <= g.nx
    decreases iEnd - iMin
  {
    if iEnd <= iMin then [] else RowIds(cells, g, j, iMin, iEnd - 1) + cells[CellId(g, iEnd - 1, j)]
  }

  /** Rows jMin .. jEnd-1, bottom to top, each restricted to columns iMin .. iEnd-1. */
  function RangeIds(cells: seq<seq<nat>>, g: Geometry, jMin: int, jEnd: int, iMin: int, iEnd: int): seq<nat>
    requires |cells| == g.nx * g.ny
    requires 0 <= jMin && jEnd <= g.ny && 0 <= iMin && iEnd <= g.nx
    decreases jEnd - jMin
  {
    if jEnd <= jMin then [] else RangeIds(cells, g, jMin, jEnd - 1, iMin, iEnd) + RowIds(cells, g, jEnd - 1, iMin, iEnd)
  }

  /**
   * What every query variant yields for a resolved range: j outer from jMin
   * to jMax, i inner from iMin to iMax, each bucket in insertion order.
   */
  function QueryIds(cells: seq<seq<nat>>, g: Geometry, r: CellRange): seq<nat>
    requires |cells| == g.nx * g.ny && InGrid(g, r)
  {
    RangeIds(cells, g, r.jMin, r.jMax + 1, r.iMin, r.iMax + 1)
  }

  lemma {:induction false} RowIdsOfEmpty(cells: seq<seq<nat>>, g: Geometry, j: int, iMin: int, iEnd: int)
    requires |cells| == g.nx * g.ny
    requires 0 <= j < g.ny && 0 <= iMin && iEnd <= g.nx
    requires AllEmpty(cells)
    ensures RowIds(cells, g, j, iMin, iEnd) == []
    decreases iEnd - iMin
  {
    if iEnd > iMin {
      RowIdsOfEmpty(cells, g, j, iMin, iEnd - 1);
    }
  }

  lemma {:induction false} RangeIdsOfEmpty(cells: seq<seq<nat>>, g: Geometry, jMin: int, jEnd: int, iMin: int, iEnd: int)
    requires |cells| == g.nx * g.ny
    requires 0 <= jMin && jEnd <= g.ny && 0 <= iMin && iEnd <= g.nx
    requires AllEmpty(cells)
    ensures RangeIds(cells, g, jMin, jEnd, iMin, iEnd) == []
    decreases jEnd - jMin
  {
    if jEnd > jMin {
      RangeIdsOfEmpty(cells, g, jMin, jEnd - 1, iMin, iEnd);
      RowIdsOfEmpty(cells, g, jEnd - 1, iMin, iEnd);
    }
  }

  /** Rows restricted to no columns yield nothing, whatever the buckets hold. */
  lemma {:induction false} RangeIdsNoColumns(cells: seq<seq<nat>>, g: Geometry, jMin: int, jEnd: int, iMin: int, iEnd: int)
    requires |cells| == g.nx * g.ny
    requires 0 <= jMin && jEnd <= g.ny && 0 <= iMin && iEnd <= g.nx
    requires iEnd <= iMin
    ensures RangeIds(cells, g, jMin, jEnd, iMin, iEnd) == []
    decreases jEnd - jMin
  {
    if jEnd > jMin {
      RangeIdsNoColumns(cells, g, jMin, jEnd - 1, iMin, iEnd);
      assert RowIds(cells, g, jEnd - 1, iMin, iEnd) == [];
    }
  }

  /** A range whose min exceeds its max on either axis yields nothing. */
  lemma {:induction false} QueryIdsEmptyRange(cells: seq<seq<nat>>, g: Geometry, r: CellRange)
    requires |cells| == g.nx * g.ny && InGrid(g, r)
    requires r.iMin > r.iMax || r.jMin > r.jMax
    ensures QueryIds(cells, g, r) == []
  {
    if r.jMin <= r.jMax {
      RangeIdsNoColumns(cells, g, r.jMin, r.jMax + 1, r.iMin, r.iMax + 1);
    }
  }

  /** A range of one cell yields that cell's bucket, in insertion order. */
  lemma {:induction false} QueryIdsOneCell(cells: seq<seq<nat>>, g: Geometry, i: int, j: int)
    requires |cells| == g.nx * g.ny && 0 <= i < g.nx && 0 <= j < g.ny
    ensures QueryIds(cells, g, CellRange(i, i, j, j)) == cells[CellId(g, i, j)]
  {
    assert RowIds(cells, g, j, i, i + 1) == RowIds(cells, g, j, i, i) + cells[CellId(g, i, j)];
    assert QueryIds(cells, g, CellRange(i, i, j, j)) == RangeIds(cells, g, j, j, i, i + 1) + RowIds(cells, g, j, i, i + 1);
  }

  /** A two-by-two range yields its four buckets row by row: (i, j), (i+1, j), then (i, j+1), (i+1, j+1). */
  lemma {:induction false} QueryIdsTwoByTwo(cells: seq<seq<nat>>, g: Geometry, i: int, j: int)
    requires |cells| == g.nx * g.ny && 0 <= i && i + 1 < g.nx && 0 <= j && j + 1 < g.ny
    ensures QueryIds(cells, g, CellRange(i, i + 1, j, j + 1))
            == (cells[CellId(g, i, j)] + cells[CellId(g, i + 1, j)]) + (cells[CellId(g, i, j + 1)] + cells[CellId(g, i + 1, j + 1)])
  {
    RangeIdsSplit(cells, g, j, j + 1, j + 2, i, i + 2);
    assert RangeIds(cells, g, j, j + 1, i, i + 2) == RowIds(cells, g, j, i, i + 2);
    assert RangeIds(cells, g, j + 1, j + 2, i, i + 2) == RowIds(cells, g, j + 1, i, i + 2);
    RowIdsPair(cells, g, j, i);
    RowIdsPair(cells, g, j + 1, i);
  }

  /** Two neighbouring columns of a row yield the left bucket, then the right one. */
  lemma {:induction false} RowIdsPair(cells: seq<seq<nat>>, g: Geometry, j: int, i: int)
    requires |cells| == g.nx * g.ny && 0 <= i && i + 1 < g.nx && 0 <= j < g.ny
    ensures RowIds(cells, g, j, i, i + 2) == cells[CellId(g, i, j)] + cells[CellId(g, i + 1, j)]
  {
    assert RowIds(cells, g, j, i, i + 1) == cells[CellId(g, i, j)];
  }

  /** Once every bucket is empty (after clear), every query yields nothing. */
  lemma {:induction false} QueryIdsOfEmpty(cells: seq<seq<nat>>, g: Geometry, r: CellRange)
    requires |cells| == g.nx * g.ny && InGrid(g, r)
    requires AllEmpty(cells)
    ensures QueryIds(cells, g, r) == []
  {
    RangeIdsOfEmpty(cells, g, r.jMin, r.jMax + 1, r.iMin, r.iMax + 1);
  }

  /** The columns of a row split at any iMid between iMin and iEnd. */
  lemma {:induction false} RowIdsSplit(cells: seq<seq<nat>>, g: Geometry, j: int, iMin: int, iMid: int, iEnd: int)
    requires |cells| == g.nx * g.ny
    requires 0 <= j < g.ny && 0 <= iMin <= iMid <= iEnd <= g.nx
    ensures RowIds(cells, g, j, iMin, iEnd) == RowIds(cells, g, j, iMin, iMid) + RowIds(cells, g, j, iMid, iEnd)
    decreases iEnd - iMid
  {
    if iMid < iEnd {
      RowIdsSplit(cells, g, j, iMin, iMid, iEnd - 1);
    }
  }

  /** The rows of a range split at any jMid between jMin and jEnd. */
  lemma {:induction false} RangeIdsSplit(cells: seq<seq<nat>>, g: Geometry, jMin: int, jMid: int, jEnd: int, iMin: int, iEnd: int)
    requires |cells| == g.nx * g.ny
    requires 0 <= jMin <= jMid <= jEnd <= g.ny && 0 <= iMin && iEnd <= g.nx
    ensures RangeIds(cells, g, jMin, jEnd, iMin, iEnd)
            == RangeIds(cells, g, jMin, jMid, iMin, iEnd) + RangeIds(cells, g, jMid, jEnd, iMin, iEnd)
    decreases jEnd - jMid
  {
    if jMid < jEnd {
      RangeIdsSplit(cells, g, jMin, jMid, jEnd - 1, iMin, iEnd);
    }
  }

  /** The output of a row is what precedes column i, then the bucket of (i, j), then what follows it. */
  lemma {:induction false} RowIdsAround(cells: seq<seq<nat>>, g: Geometry, j: int, iMin: int, iEnd: int, i: int)
    requires |cells| == g.nx * g.ny
    requires 0 <= j < g.ny && 0 <= iMin <= i < iEnd <= g.nx
    ensures RowIds(cells, g, j, iMin, iEnd)
            == RowIds(cells, g, j, iMin, i) + (cells[CellId(g, i, j)] + RowIds(cells, g, j, i + 1, iEnd))
  {
    RowIdsSplit(cells, g, j, iMin, i, iEnd);
    RowIdsSplit(cells, g, j, i, i + 1, iEnd);
    assert RowIds(cells, g, j, i, i + 1) == cells[CellId(g, i, j)];
  }

  /** The output of a range is the rows below j, then row j, then the rows above it. */
  lemma {:induction false} RangeIdsAround(cells: seq<seq<nat>>, g: Geometry, jMin: int, jEnd: int, iMin: int, iEnd: int, j: int)
    requires |cells| == g.nx * g.ny
    requires 0 <= jMin <= j < jEnd <= g.ny && 0 <= iMin && iEnd <= g.nx
    ensures RangeIds(cells, g, jMin, jEnd, iMin, iEnd)
            == RangeIds(cells, g, jMin, j, iMin, iEnd) + (RowIds(cells, g, j, iMin, iEnd) + RangeIds(cells, g, j + 1, jEnd, iMin, iEnd))
  {
    RangeIdsSplit(cells, g, jMin, j, jEnd, iMin, iEnd);
    RangeIdsSplit(cells, g, j, j + 1, jEnd, iMin, iEnd);
    assert RangeIds(cells, g, j, j + 1, iMin, iEnd) == RowIds(cells, g, j, iMin, iEnd);
  }

  /**
   * The whole bucket of every cell (i, j) of the range appears in the
   * result, contiguously: after the rows below j and the columns of row j
   * left of i, before the columns right of i and the rows above j.
   */
  lemma {:induction false} QueryIdsAround(cells: seq<seq<nat>>, g: Geometry, r: CellRange, i: int, j: int)
    requires |cells| == g.nx * g.ny && InGrid(g, r)
    requires r.iMin <= i <= r.iMax && r.jMin <= j <= r.jMax
    ensures QueryIds(cells, g, r)
            == RangeIds(cells, g, r.jMin, j, r.iMin, r.iMax + 1)
               + (RowIds(cells, g, j, r.iMin, r.iMax + 1) + RangeIds(cells, g, j + 1, r.jMax + 1, r.iMin, r.iMax + 1))
    ensures RowIds(cells, g, j, r.iMin, r.iMax + 1)
            == RowIds(cells, g, j, r.iMin, i) + (cells[CellId(g, i, j)] + RowIds(cells, g, j, i + 1, r.iMax + 1))
  {
    RangeIdsAround(cells, g, r.jMin, r.jMax + 1, r.iMin, r.iMax + 1, j);
    RowIdsAround(cells, g, j, r.iMin, r.iMax + 1, i);
  }

  /** Every id a row outputs comes from the bucket of one of its columns. */
  lemma {:induction false} RowIdsFromRow(cells: seq<seq<nat>>, g: Geometry, j: int, iMin: int, iEnd: int, id: nat)
    requires |cells| == g.nx * g.ny
    requires 0 <= j < g.ny && 0 <= iMin && iEnd <= g.nx
    requires id in RowIds(cells, g, j, iMin, iEnd)
    ensures exists i :: iMin <= i < iEnd && id in cells[CellId(g, i, j)]
    decreases iEnd - iMin
  {
    if id !in cells[CellId(g, iEnd - 1, j)] {
      RowIdsFromRow(cells, g, j, iMin, iEnd - 1, id);
    }
  }

  /** Every id a range of rows outputs comes from the bucket of a cell inside the range. */
  lemma {:induction false} RangeIdsFromRange(cells: seq<seq<nat>>, g: Geometry, jMin: int, jEnd: int,
                                             iMin: int, iEnd: int, id: nat)
    requires |cells| == g.nx * g.ny
    requires 0 <= jMin && jEnd <= g.ny && 0 <= iMin && iEnd <= g.nx
    requires id in RangeIds(cells, g, jMin, jEnd, iMin, iEnd)
    ensures exists i, j :: iMin <= i < iEnd && jMin <= j < jEnd && id in cells[CellId(g, i, j)]
    decreases jEnd - jMin
  {
    if id in RowIds(cells, g, jEnd - 1, iMin, iEnd) {
      RowIdsFromRow(cells, g, jEnd - 1, iMin, iEnd, id);
    } else {
      RangeIdsFromRange(cells, g, jMin, jEnd - 1, iMin, iEnd, id);
    }
  }

  /** Every id in the result comes from a bucket inside the range. */
  lemma {:induction false} QueryIdsFromRange(cells: seq<seq<nat>>, g: Geometry, r: CellRange, id: nat)
    requires |cells| == g.nx * g.ny && InGrid(g, r)
    requires id in QueryIds(cells, g, r)
    ensures exists i, j :: r.iMin <= i <= r.iMax && r.jMin <= j <= r.jMax && id in cells[CellId(g, i, j)]
  {
    RangeIdsFromRange(cells, g, r.jMin, r.jMax + 1, r.iMin, r.iMax + 1, id);
  }

  /** Replacing a bucket outside the row's columns leaves the row's output as it was. */
  lemma {:induction false} RowIdsUnaffected(cells: seq<seq<nat>>, g: Geometry, j: int, iMin: int, iEnd: int,
                                            c: int, b: seq<nat>)
    requires |cells| == g.nx * g.ny
    requires 0 <= j < g.ny && 0 <= iMin && iEnd <= g.nx
    requires 0 <= c < |cells| && (c / g.nx != j || c % g.nx < iMin || c % g.nx >= iEnd)
    ensures RowIds(cells[c := b], g, j, iMin, iEnd) == RowIds(cells, g, j, iMin, iEnd)
    decreases iEnd - iMin
  {
    if iEnd > iMin {
      RowIdsUnaffected(cells, g, j, iMin, iEnd - 1, c, b);
      CellIdDecode(g, iEnd - 1, j);
    }
  }

  /** Replacing a bucket outside the range leaves the range's output as it was. */
  lemma {:induction false} RangeIdsUnaffected(cells: seq<seq<nat>>, g: Geometry, jMin: int, jEnd: int,
                                              iMin: int, iEnd: int, c: int, b: seq<nat>)
    requires |cells| == g.nx * g.ny
    requires 0 <= jMin && jEnd <= g.ny && 0 <= iMin && iEnd <= g.nx
    requires 0 <= c < |cells|
    requires c / g.nx < jMin || c / g.nx >= jEnd || c % g.nx < iMin || c % g.nx >= iEnd
    ensures RangeIds(cells[c := b], g, jMin, jEnd, iMin, iEnd) == RangeIds(cells, g, jMin, jEnd, iMin, iEnd)
    decreases jEnd - jMin
  {
    if jEnd > jMin {
      RangeIdsUnaffected(cells, g, jMin, jEnd - 1, iMin, iEnd, c, b);
      RowIdsUnaffected(cells, g, jEnd - 1, iMin, iEnd, c, b);
    }
  }

  /**
   * Changing the bucket of a cell outside the resolved range leaves the
   * query's result as it was.
   */
  lemma {:induction false} QueryIdsUnaffected(cells: seq<seq<nat>>, g: Geometry, r: CellRange, i: int, j: int, b: seq<nat>)
    requires |cells| == g.nx * g.ny && InGrid(g, r)
    requires 0 <= i < g.nx && 0 <= j < g.ny
    requires i < r.iMin || i > r.iMax || j < r.jMin || j > r.jMax
    ensures QueryIds(cells[CellId(g, i, j) := b], g, r) == QueryIds(cells, g, r)
  {
    CellIdDecode(g, i, j);
    RangeIdsUnaffected(cells, g, r.jMin, r.jMax + 1, r.iMin, r.iMax + 1, CellId(g, i, j), b);
  }

  /** The first n buckets in flat order, bucket 0 first: for n = nx * ny, every stored id. */
  function Flat(cells: seq<seq<nat>>, n: int): seq<nat>
    requires 0 <= n <= |cells|
  {
    if n == 0 then [] else Flat(cells, n - 1) + cells[n - 1]
  }

  /** The first n buckets concatenated hold as many ids as those buckets together. */
  lemma {:induction false} FlatLength(cells: seq<seq<nat>>, n: int)
    requires 0 <= n <= |cells|
    ensures |Flat(cells, n)| == TotalIds(cells[..n])
    decreases n
  {
    if n > 0 {
      FlatLength(cells, n - 1);
      assert cells[..n][..n - 1] == cells[..n - 1];
    }
  }

  /**
   * Row j, columns 0 .. iEnd-1, continues the flat concatenation of the rows
   * below it, which end at bucket `start = j * nx`.
   */
  lemma {:induction false} RowIdsPrefix(cells: seq<seq<nat>>, g: Geometry, j: int, start: int, iEnd: int)
    requires |cells| == g.nx * g.ny
    requires 0 <= j < g.ny && 0 <= iEnd <= g.nx
    requires start == j * g.nx && start + g.nx <= |cells|
    ensures Flat(cells, start) + RowIds(cells, g, j, 0, iEnd) == Flat(cells, start + iEnd)
    decreases iEnd
  {
    RowSpan(j, g.nx, g.ny);
    if iEnd == 0 {
      assert Flat(cells, start) + [] == Flat(cells, start);
    } else {
      RowIdsPrefix(cells, g, j, start, iEnd - 1);
      CellIdInRow(g, iEnd - 1, j, start);
      RowIdsPrefixStep(cells, g, j, start, iEnd);
    }
  }

  /** One more column of row j extends both sides of the prefix equation by the same bucket. */
  lemma RowIdsPrefixStep(cells: seq<seq<nat>>, g: Geometry, j: int, start: int, iEnd: int)
    requires |cells| == g.nx * g.ny
    requires 0 <= j < g.ny && 1 <= iEnd <= g.nx && 0 <= start
    requires CellId(g, iEnd - 1, j) == start + (iEnd - 1)
    requires Flat(cells, start) + RowIds(cells, g, j, 0, iEnd - 1) == Flat(cells, start + (iEnd - 1))
    ensures Flat(cells, start) + RowIds(cells, g, j, 0, iEnd) == Flat(cells, start + iEnd)
  {
    var k := start + iEnd - 1;
    assert RowIds(cells, g, j, 0, iEnd) == RowIds(cells, g, j, 0, iEnd - 1) + cells[k];
    assert Flat(cells, k + 1) == Flat(cells, k) + cells[k];
    AppendAssoc(Flat(cells, start), RowIds(cells, g, j, 0, iEnd - 1), cells[k]);
  }

  /** Cell i of row j sits i places after the row's first cell. */
  lemma CellIdInRow(g: Geometry, i: int, j: int, start: int)
    requires 0 <= i < g.nx && 0 <= j < g.ny && start == j * g.nx
    ensures CellId(g, i, j) == start + i
  { }

  /** Row j occupies flat ids j*nx .. j*nx + nx - 1, all inside the grid. */
  lemma RowSpan(j: int, nx: int, ny: int)
    requires 0 <= j < ny && 0 <= nx
    ensures 0 <= j * nx && j * nx + nx <= nx * ny
  {
    assert j * nx + nx == (j + 1) * nx;
    assert (j + 1) * nx <= ny * nx;
  }

  /** Row j - 1 starts one row length before row j. */
  lemma PreviousRowStart(j: int, nx: int)
    ensures (j - 1) * nx == j * nx - nx
  { }

  /** Rows 0 .. jEnd-1 over all columns output the first jEnd * nx buckets in flat order. */
  lemma {:induction false} RangeIdsPrefix(cells: seq<seq<nat>>, g: Geometry, jEnd: int, end: int)
    requires |cells| == g.nx * g.ny && 0 <= jEnd <= g.ny && 0 <= g.nx
    requires end == jEnd * g.nx && end <= |cells|
    ensures RangeIds(cells, g, 0, jEnd, 0, g.nx) == Flat(cells, end)
    decreases jEnd
  {
    if jEnd > 0 {
      var start := end - g.nx;
      PreviousRowStart(jEnd, g.nx);
      RowSpan(jEnd - 1, g.nx, g.ny);
      RangeIdsPrefix(cells, g, jEnd - 1, start);
      RowIdsPrefix(cells, g, jEnd - 1, start, g.nx);
    }
  }

  /**
   * A query over every cell returns every stored id: all buckets in flat
   * order, as many ids as the index counts.
   */
  lemma {:induction false} QueryIdsWholeGrid(cells: seq<seq<nat>>, g: Geometry)
    requires |cells| == g.nx * g.ny && g.nx >= 1 && g.ny >= 1
    ensures QueryIds(cells, g, CellRange(0, g.nx - 1, 0, g.ny - 1)) == Flat(cells, |cells|)
    ensures |QueryIds(cells, g, CellRange(0, g.nx - 1, 0, g.ny - 1))| == TotalIds(cells)
  {
    assert |cells| == g.ny * g.nx;
    RangeIdsPrefix(cells, g, g.ny, |cells|);
    FlatLength(cells, |cells|);
    assert cells[..|cells|] == cells;
  }

  /**
   * No false negatives end to end: once id has been appended to the bucket
   * of a point of the query rectangle, a query with the lower edges
   * included returns it.
   */
  lemma {:induction false} InsertedIdFound(cells: seq<seq<nat>>, g: Geometry, x1: real, x2: real, y1: real, y2: real,
                        includeMax: bool, px: real, py: real, id: nat)
    requires g.Valid() && |cells| == g.nx * g.ny
    requires Lo(x1, x2) <= px && (if includeMax then px <= Hi(x1, x2) else px < Hi(x1, x2))
    requires Lo(y1, y2) <= py && (if includeMax then py <= Hi(y1, y2) else py < Hi(y1, y2))
    ensures var c := CellOf(g, px, py);
            id in QueryIds(cells[c := cells[c] + [id]], g, GetCellRange(g, x1, x2, y1, y2, true, includeMax))
  {
    var c := CellOf(g, px, py);
    var after := cells[c := cells[c] + [id]];
    var r := GetCellRange(g, x1, x2, y1, y2, true, includeMax);
    PointInBoxIsSelected(g, x1, x2, y1, y2, includeMax, px, py);
    var i, j := CellIndex(g.x, g.nx, px), CellIndex(g.y, g.ny, py);
    QueryIdsAround(after, g, r, i, j);
    assert id in after[CellId(g, i, j)];
    assert id in RowIds(after, g, j, r.iMin, r.iMax + 1);
  }
}
