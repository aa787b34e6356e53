/*
 * The immutable geometry of a uniform 2D grid index and the pure arithmetic
 * on it: parameter validation, cell counts, coordinate-to-cell mapping, the
 * flat cell id and the resolution of a query rectangle to a cell range.
 * Coordinates are mathematical reals; `.Floor` is the floor of the source.
 */
module GridGeometry {

  /** The two reasons construction is refused (both thrown as invalid_argument). */
  datatype ParamError = NonPositiveStep | StartNotBeforeEnd

  datatype Result<T> = Ok(value: T) | Err(error: ParamError)

  /** One axis of the grid: its declared start and end and the cell size along it. */
  datatype Axis = Axis(start: real, end: real, step: real)

  /** The lower edge of cell k on an axis, `start + k*step` (the upper edge of cell k-1). */
  function Edge(a: Axis, k: int): real
  {
    a.start + k as real * a.step
  }

  /** The fixed part of a grid index: both axes and the cell counts nx, ny. */
  datatype Geometry = Geometry(x: Axis, y: Axis, nx: int, ny: int)
  {
    /** What construction establishes and nothing afterwards changes. */
    predicate Valid()
    {
      x.step > 0.0 && x.start < x.end && y.step > 0.0 && y.start < y.end &&
      nx == CellCount(x) && ny == CellCount(y)
    }
  }

  /** Inclusive range of cell indices `[iMin, iMax] x [jMin, jMax]`; empty when a min exceeds its max. */
  datatype CellRange = CellRange(iMin: int, iMax: int, jMin: int, jMax: int)

  /** The ceiling of a real, written through floor as `-floor(-r)`. */
  function Ceil(r: real): (c: int)
    ensures r <= c as real < r + 1.0
  {
    -((-r).Floor)
  }

  /** Order-preserving scaling by a positive step (used to turn index facts into edge facts). */
  lemma ScaleLe(a: real, b: real, s: real)
    requires a <= b && s > 0.0
    ensures a * s <= b * s
  {
  }

  lemma ScaleLt(a: real, b: real, s: real)
    requires a < b && s > 0.0
    ensures a * s < b * s
  {
  }

  /** A value below the edge `start + p*step` is below every later edge. */
  lemma BelowEdge(a: Axis, v: real, p: int, q: int)
    requires a.step > 0.0 && p <= q && v < Edge(a, p)
    ensures v < Edge(a, q)
  {
    ScaleLe(p as real, q as real, a.step);
  }

  /** A value at or above the edge `start + q*step` is above every earlier edge, strictly so when p < q. */
  lemma AboveEdge(a: Axis, v: real, p: int, q: int)
    requires a.step > 0.0 && p <= q && Edge(a, q) <= v
    ensures Edge(a, p) <= v
    ensures p < q ==> Edge(a, p) < v
  {
    assert Edge(a, q) - Edge(a, p) == (q - p) as real * a.step;
    ScaleLe(p as real, q as real, a.step);
    if p < q {
      ScaleLt(p as real, q as real, a.step);
    }
  }

  /**
   * Number of cells along an axis, `ceil((end - start) / step)`: the fewest
   * cells of width `step` whose union, starting at `start`, reaches `end`.
   */
  function CellCount(a: Axis): (n: int)
    requires a.step > 0.0 && a.start < a.end
    ensures n >= 1
    ensures Edge(a, n - 1) < a.end <= Edge(a, n)
  {
    var q := (a.end - a.start) / a.step;
    var n := Ceil(q);
    assert q * a.step == a.end - a.start;
    ScaleLe(q, n as real, a.step);
    ScaleLt((n - 1) as real, q, a.step);
    n
  }

  /**
   * Validation and dimension computation of the constructor: the step check
   * comes first, then the start/end check; otherwise nx and ny are the
   * ceilings of span over step.
   */
  function MakeGeometry(xStart: real, xEnd: real, xStep: real,
                        yStart: real, yEnd: real, yStep: real): (r: Result<Geometry>)
    ensures r.Err? <==> xStep <= 0.0 || yStep <= 0.0 || xStart >= xEnd || yStart >= yEnd
    ensures r == Err(NonPositiveStep) <==> xStep <= 0.0 || yStep <= 0.0
    ensures r.Ok? ==> r.value.Valid()
    ensures r.Ok? ==> r.value.x == Axis(xStart, xEnd, xStep) && r.value.y == Axis(yStart, yEnd, yStep)
    ensures r.Ok? ==> r.value.nx == Ceil((xEnd - xStart) / xStep) && r.value.ny == Ceil((yEnd - yStart) / yStep)
  {
    if xStep <= 0.0 || yStep <= 0.0 then Err(NonPositiveStep)
    else if xStart >= xEnd || yStart >= yEnd then Err(StartNotBeforeEnd)
    else
      var x := Axis(xStart, xEnd, xStep);
      var y := Axis(yStart, yEnd, yStep);
      Ok(Geometry(x, y, CellCount(x), CellCount(y)))
  }

  /**
   * Unclamped cell index of a coordinate, `floor((v - start) / step)`: the
   * index k of the half-open cell `[start + k*step, start + (k+1)*step)`
   * holding v.
   */
  function RawIndex(a: Axis, v: real): (k: int)
    requires a.step > 0.0
    ensures Edge(a, k) <= v < Edge(a, k + 1)
  {
    var q := (v - a.start) / a.step;
    assert q * a.step == v - a.start;
    EdgeBracket(a, v, q, q.Floor);
    q.Floor
  }

  /** Scaling `k <= q < k + 1` by the step, where `v = start + q*step`, puts v between the edges of cell k. */
  lemma EdgeBracket(a: Axis, v: real, q: real, k: int)
    requires a.step > 0.0 && q * a.step == v - a.start
    requires k as real <= q < (k + 1) as real
    ensures Edge(a, k) <= v < Edge(a, k + 1)
  {
    ScaleLe(k as real, q, a.step);
    ScaleLt(q, (k + 1) as real, a.step);
  }

  /** `max(0, min(k, n - 1))`: the nearest index of `[0, n)`. */
  function Clamp(k: int, n: int): (c: int)
    requires n >= 1
    ensures 0 <= c < n
    ensures c == k <==> 0 <= k < n
    ensures k < 0 ==> c == 0
    ensures k >= n ==> c == n - 1
  {
    var m := if k < n - 1 then k else n - 1;
    if 0 < m then m else 0
  }

  lemma ClampMonotone(a: int, b: int, n: int)
    requires n >= 1 && a <= b
    ensures Clamp(a, n) <= Clamp(b, n)
  {
  }

  /**
   * Cell index of a coordinate on one axis (the source's get_cell_x and
   * get_cell_y): a coordinate inside the n cells lands in the cell covering
   * it; one below the grid lands in cell 0 and one beyond it in cell n-1.
   */
  function CellIndex(a: Axis, n: int, v: real): (i: int)
    requires a.step > 0.0 && n >= 1
    ensures 0 <= i < n
    ensures a.start <= v < Edge(a, n) ==>
              Edge(a, i) <= v < Edge(a, i + 1)
    ensures v < a.start ==> i == 0
    ensures Edge(a, n) <= v ==> i == n - 1
  {
    var k := RawIndex(a, v);
    RawIndexPlacement(a, n, v);
    Clamp(k, n)
  }

  /** Where the raw index falls relative to `[0, n)`, by where v falls relative to the n cells. */
  lemma RawIndexPlacement(a: Axis, n: int, v: real)
    requires a.step > 0.0 && n >= 1
    ensures a.start <= v ==> 0 <= RawIndex(a, v)
    ensures v < a.start ==> RawIndex(a, v) < 0
    ensures v < Edge(a, n) ==> RawIndex(a, v) < n
    ensures Edge(a, n) <= v ==> n <= RawIndex(a, v)
  {
    var k := RawIndex(a, v);
    if a.start <= v && k < 0 {
      BelowEdge(a, v, k + 1, 0);
    }
    if v < a.start && k >= 0 {
      AboveEdge(a, v, 0, k);
    }
    if v < Edge(a, n) && k >= n {
      AboveEdge(a, v, n, k);
    }
    if Edge(a, n) <= v && k < n {
      BelowEdge(a, v, k + 1, n);
    }
  }

  /** Flat bucket id of cell (i, j), `j * nx + i`: always an index of the bucket array. */
  function CellId(g: Geometry, i: int, j: int): (c: int)
    requires 0 <= i < g.nx && 0 <= j < g.ny
    ensures 0 <= c < g.nx * g.ny
  {
    FlatBound(i, j, g.nx, g.ny);
    j * g.nx + i
  }

  /**
   * The flat layout is injective: i and j are recovered from the bucket id
   * by remainder and quotient, so distinct cells never share a bucket.
   */
  lemma CellIdDecode(g: Geometry, i: int, j: int)
    requires 0 <= i < g.nx && 0 <= j < g.ny
    ensures CellId(g, i, j) % g.nx == i && CellId(g, i, j) / g.nx == j
  {
    FlatDecode(i, j, g.nx);
  }

  /** The flat layout is onto: every bucket id in [0, nx * ny) is the id of the cell (id % nx, id / nx). */
  lemma CellIdOnto(g: Geometry, c: int)
    requires g.nx >= 1 && 0 <= c < g.nx * g.ny
    ensures 0 <= c % g.nx < g.nx && 0 <= c / g.nx < g.ny
    ensures CellId(g, c % g.nx, c / g.nx) == c
  {
    var q := c / g.nx;
    assert c == q * g.nx + c % g.nx;
    assert q * g.nx < g.ny * g.nx;
    QuotientBelow(q, g.ny, g.nx);
  }

  /** Dividing out a positive factor preserves strict order. */
  lemma QuotientBelow(a: int, b: int, k: int)
    requires k > 0 && a * k < b * k
    ensures a < b
  {
  }

  lemma FlatBound(i: int, j: int, nx: int, ny: int)
    requires 0 <= i < nx && 0 <= j < ny
    ensures 0 <= j * nx + i < nx * ny
  {
    assert j * nx + i < j * nx + nx == (j + 1) * nx;
    assert (j + 1) * nx <= ny * nx;
  }

  lemma FlatDecode(i: int, j: int, nx: int)
    requires 0 <= i < nx && 0 <= j
    ensures (j * nx + i) % nx == i && (j * nx + i) / nx == j
  {
    var c := j * nx + i;
    var q, m := c / nx, c % nx;
    assert q * nx + m == j * nx + i;
    MulDiffBound(q - j, nx, i - m);
  }

  /** The only multiple of a positive nx strictly between -nx and nx is zero. */
  lemma MulDiffBound(d: int, nx: int, e: int)
    requires nx > 0 && -nx < e < nx && d * nx == e
    ensures d == 0
  {
  }

  /** The bucket id the source's insert computes for the point (x, y). */
  function CellOf(g: Geometry, x: real, y: real): (c: int)
    requires g.Valid()
    ensures 0 <= c < g.nx * g.ny
  {
    CellId(g, CellIndex(g.x, g.nx, x), CellIndex(g.y, g.ny, y))
  }

  /** True when v lies exactly on a cell edge: `(v - start) / step` is an integer. */
  predicate OnBoundary(a: Axis, v: real)
    requires a.step > 0.0
  {
    var q := (v - a.start) / a.step;
    q == q.Floor as real
  }

  /** Lower edge of a query on one axis: raw index, plus one when an excluded edge is on a cell edge. */
  function LowerIndex(a: Axis, lo: real, includeMin: bool): int
    requires a.step > 0.0
  {
    var k := RawIndex(a, lo);
    if !includeMin && OnBoundary(a, lo) then k + 1 else k
  }

  /** Upper edge of a query on one axis: raw index, minus one when an excluded edge is on a cell edge. */
  function UpperIndex(a: Axis, hi: real, includeMax: bool): int
    requires a.step > 0.0
  {
    var k := RawIndex(a, hi);
    if !includeMax && OnBoundary(a, hi) then k - 1 else k
  }

  /** The lower of two corner coordinates: what x1 (or y1) holds after the swap that orders the corners. */
  function Lo(a: real, b: real): real { if a > b then b else a }

  /** The upper of two corner coordinates: what x2 (or y2) holds after the swap that orders the corners. */
  function Hi(a: real, b: real): real { if a > b then a else b }

  /** The four indices after the corner swap, the floor and the edge adjustment, before clamping. */
  function AdjustedRange(g: Geometry, x1: real, x2: real, y1: real, y2: real,
                         includeMin: bool, includeMax: bool): CellRange
    requires g.x.step > 0.0 && g.y.step > 0.0
  {
    CellRange(LowerIndex(g.x, Lo(x1, x2), includeMin), UpperIndex(g.x, Hi(x1, x2), includeMax),
              LowerIndex(g.y, Lo(y1, y2), includeMin), UpperIndex(g.y, Hi(y1, y2), includeMax))
  }

  predicate InGrid(g: Geometry, r: CellRange)
  {
    0 <= r.iMin < g.nx && 0 <= r.iMax < g.nx && 0 <= r.jMin < g.ny && 0 <= r.jMax < g.ny
  }

  /**
   * The source's get_cell_range: swap, floor, adjust for excluded edges,
   * then clamp each of the four indices on its own. Every index it yields
   * is a valid cell index, whatever the rectangle and flags.
   */
  function GetCellRange(g: Geometry, x1: real, x2: real, y1: real, y2: real,
                        includeMin: bool, includeMax: bool): (r: CellRange)
    requires g.Valid()
    ensures InGrid(g, r)
  {
    var u := AdjustedRange(g, x1, x2, y1, y2, includeMin, includeMax);
    CellRange(Clamp(u.iMin, g.nx), Clamp(u.iMax, g.nx), Clamp(u.jMin, g.ny), Clamp(u.jMax, g.ny))
  }

  /** A coordinate is on a cell edge exactly when it is the lower edge of the cell holding it. */
  lemma OnBoundaryIsCellEdge(a: Axis, v: real)
    requires a.step > 0.0
    ensures OnBoundary(a, v) <==> v == Edge(a, RawIndex(a, v))
  {
    var q := (v - a.start) / a.step;
    assert q * a.step == v - a.start;
    if q != q.Floor as real {
      assert (q.Floor as real) * a.step != q * a.step;
    }
  }

  /**
   * Which cells the lower edge of a query keeps on one axis: cell k is kept
   * when it reaches past the edge and, if the edge is excluded, does not
   * start exactly on it.
   */
  lemma LowerIndexSelects(a: Axis, lo: real, includeMin: bool, k: int)
    requires a.step > 0.0
    ensures k >= LowerIndex(a, lo, includeMin) <==>
              lo < Edge(a, k + 1) &&
              (includeMin || Edge(a, k) != lo)
  {
    OnBoundaryIsCellEdge(a, lo);
    LowerCut(a, lo, RawIndex(a, lo), !includeMin, !includeMin && OnBoundary(a, lo), k);
  }

  /** LowerIndexSelects once the cell m holding lo is known: order facts between edges alone. */
  lemma LowerCut(a: Axis, lo: real, m: int, excluded: bool, bump: bool, k: int)
    requires a.step > 0.0
    requires Edge(a, m) <= lo < Edge(a, m + 1)
    requires bump <==> excluded && lo == Edge(a, m)
    ensures k >= (if bump then m + 1 else m) <==>
              lo < Edge(a, k + 1) && (!excluded || Edge(a, k) != lo)
  {
    if k > m {
      BelowEdge(a, lo, m + 1, k);
      BelowEdge(a, lo, m + 1, k + 1);
    } else if k < m {
      AboveEdge(a, lo, k + 1, m);
    }
  }

  /**
   * Which cells the upper edge of a query keeps on one axis: cell k is kept
   * when it starts no later than the edge and, if the edge is excluded, does
   * not start exactly on it.
   */
  lemma UpperIndexSelects(a: Axis, hi: real, includeMax: bool, k: int)
    requires a.step > 0.0
    ensures k <= UpperIndex(a, hi, includeMax) <==>
              Edge(a, k) <= hi &&
              (includeMax || Edge(a, k) != hi)
  {
    OnBoundaryIsCellEdge(a, hi);
    UpperCut(a, hi, RawIndex(a, hi), !includeMax, !includeMax && OnBoundary(a, hi), k);
  }

  /** UpperIndexSelects once the cell m holding hi is known: order facts between edges alone. */
  lemma UpperCut(a: Axis, hi: real, m: int, excluded: bool, drop: bool, k: int)
    requires a.step > 0.0
    requires Edge(a, m) <= hi < Edge(a, m + 1)
    requires drop <==> excluded && hi == Edge(a, m)
    ensures k <= (if drop then m - 1 else m) <==>
              Edge(a, k) <= hi && (!excluded || Edge(a, k) != hi)
  {
    if k > m {
      BelowEdge(a, hi, m + 1, k);
    } else if k < m {
      AboveEdge(a, hi, k, m);
    }
  }

  /** A value between the edges of cell k has raw index k: the cells of an axis do not overlap. */
  lemma RawIndexOfCell(a: Axis, k: int, v: real)
    requires a.step > 0.0 && Edge(a, k) <= v < Edge(a, k + 1)
    ensures RawIndex(a, v) == k
  {
    var m := RawIndex(a, v);
    if m > k {
      BelowEdge(a, v, k + 1, m);
    } else if m < k {
      BelowEdge(a, v, m + 1, k);
    }
  }

  /**
   * A coordinate on the lower edge of cell k: insert puts it in cell k, an
   * included bound on it selects cell k, and an excluded one moves the
   * bound one cell inwards (k+1 from below, k-1 from above).
   */
  lemma EdgeIndices(a: Axis, n: int, k: int)
    requires a.step > 0.0 && 0 <= k < n
    ensures CellIndex(a, n, Edge(a, k)) == k
    ensures LowerIndex(a, Edge(a, k), true) == k && LowerIndex(a, Edge(a, k), false) == k + 1
    ensures UpperIndex(a, Edge(a, k), true) == k && UpperIndex(a, Edge(a, k), false) == k - 1
  {
    AboveEdge(a, Edge(a, k + 1), k, k + 1);
    RawIndexOfCell(a, k, Edge(a, k));
    OnBoundaryIsCellEdge(a, Edge(a, k));
  }

  /**
   * A box whose sides lie on cell edges, from the lower edges of cells
   * (i, j) to those of (i+1, j+1), selects cells i..i+1 and j..j+1 when
   * both kinds of edge are included; an excluded lower edge drops cell i
   * (j) and an excluded upper edge drops cell i+1 (j+1).
   */
  lemma EdgeBoxRange(g: Geometry, i: int, j: int, includeMin: bool, includeMax: bool)
    requires g.Valid() && 0 <= i && i + 1 < g.nx && 0 <= j && j + 1 < g.ny
    ensures GetCellRange(g, Edge(g.x, i), Edge(g.x, i + 1), Edge(g.y, j), Edge(g.y, j + 1), includeMin, includeMax)
            == CellRange(if includeMin then i else i + 1, if includeMax then i + 1 else i,
                         if includeMin then j else j + 1, if includeMax then j + 1 else j)
  {
    EdgeIndices(g.x, g.nx, i);
    EdgeIndices(g.x, g.nx, i + 1);
    EdgeIndices(g.y, g.ny, j);
    EdgeIndices(g.y, g.ny, j + 1);
  }

  /**
   * The four cells around the shared corner of (i, j) and (i+1, j+1) have
   * four different buckets.
   */
  lemma NeighbourIdsDistinct(g: Geometry, i: int, j: int)
    requires 0 <= i && i + 1 < g.nx && 0 <= j && j + 1 < g.ny
    ensures CellId(g, i, j) != CellId(g, i + 1, j) && CellId(g, i, j) != CellId(g, i, j + 1)
    ensures CellId(g, i, j) != CellId(g, i + 1, j + 1) && CellId(g, i + 1, j) != CellId(g, i, j + 1)
    ensures CellId(g, i + 1, j) != CellId(g, i + 1, j + 1) && CellId(g, i, j + 1) != CellId(g, i + 1, j + 1)
  {
    CellIdDecode(g, i, j);
    CellIdDecode(g, i + 1, j);
    CellIdDecode(g, i, j + 1);
    CellIdDecode(g, i + 1, j + 1);
  }

  /** A point of cell k on an axis, its lower edge included, is put in cell k. */
  lemma InteriorIndex(a: Axis, n: int, k: int, v: real)
    requires a.step > 0.0 && 0 <= k < n && Edge(a, k) <= v < Edge(a, k + 1)
    ensures CellIndex(a, n, v) == k
  {
    RawIndexOfCell(a, k, v);
  }

  /**
   * Insert on the lower corners of cells (i, j) and (i+1, j+1) and strictly
   * inside cell (i, j) picks exactly those cells.
   */
  lemma EdgePointCells(g: Geometry, i: int, j: int, midX: real, midY: real)
    requires g.Valid() && 0 <= i && i + 1 < g.nx && 0 <= j && j + 1 < g.ny
    requires Edge(g.x, i) < midX < Edge(g.x, i + 1) && Edge(g.y, j) < midY < Edge(g.y, j + 1)
    ensures CellOf(g, Edge(g.x, i), Edge(g.y, j)) == CellId(g, i, j)
    ensures CellOf(g, Edge(g.x, i + 1), Edge(g.y, j + 1)) == CellId(g, i + 1, j + 1)
    ensures CellOf(g, midX, midY) == CellId(g, i, j)
  {
    EdgeIndices(g.x, g.nx, i);
    EdgeIndices(g.x, g.nx, i + 1);
    EdgeIndices(g.y, g.ny, j);
    EdgeIndices(g.y, g.ny, j + 1);
    InteriorIndex(g.x, g.nx, i, midX);
    InteriorIndex(g.y, g.ny, j, midY);
  }

  /** The resolved range does not depend on which corner of the rectangle is given first. */
  lemma CellRangeCornerOrder(g: Geometry, x1: real, x2: real, y1: real, y2: real,
                             includeMin: bool, includeMax: bool)
    requires g.Valid()
    ensures GetCellRange(g, x2, x1, y1, y2, includeMin, includeMax) == GetCellRange(g, x1, x2, y1, y2, includeMin, includeMax)
    ensures GetCellRange(g, x1, x2, y2, y1, includeMin, includeMax) == GetCellRange(g, x1, x2, y1, y2, includeMin, includeMax)
    ensures GetCellRange(g, x2, x1, y2, y1, includeMin, includeMax) == GetCellRange(g, x1, x2, y1, y2, includeMin, includeMax)
  {
    assert Lo(x2, x1) == Lo(x1, x2) && Hi(x2, x1) == Hi(x1, x2);
    assert Lo(y2, y1) == Lo(y1, y2) && Hi(y2, y1) == Hi(y1, y2);
  }

  /** A point the query rectangle holds on one axis lies in a kept cell (lower edge included). */
  lemma AxisPointSelected(a: Axis, n: int, lo: real, hi: real, includeMax: bool, p: real)
    requires a.step > 0.0 && n >= 1
    requires lo <= p && (if includeMax then p <= hi else p < hi)
    ensures Clamp(LowerIndex(a, lo, true), n) <= CellIndex(a, n, p) <= Clamp(UpperIndex(a, hi, includeMax), n)
  {
    var k := RawIndex(a, p);
    var lower, upper := LowerIndex(a, lo, true), UpperIndex(a, hi, includeMax);
    LowerIndexSelects(a, lo, true, k);
    assert lower <= k;
    UpperIndexSelects(a, hi, includeMax, k);
    assert k <= upper;
    ClampMonotone(lower, k, n);
    ClampMonotone(k, upper, n);
  }

  /**
   * No false negatives: with the lower edges included, the cell that insert
   * assigns to any point of the query rectangle (upper edges included or
   * not, as the flag says) lies in the resolved range.
   */
  lemma PointInBoxIsSelected(g: Geometry, x1: real, x2: real, y1: real, y2: real,
                             includeMax: bool, px: real, py: real)
    requires g.Valid()
    requires Lo(x1, x2) <= px && (if includeMax then px <= Hi(x1, x2) else px < Hi(x1, x2))
    requires Lo(y1, y2) <= py && (if includeMax then py <= Hi(y1, y2) else py < Hi(y1, y2))
    ensures var r := GetCellRange(g, x1, x2, y1, y2, true, includeMax);
            r.iMin <= CellIndex(g.x, g.nx, px) <= r.iMax && r.jMin <= CellIndex(g.y, g.ny, py) <= r.jMax
  {
    AxisPointSelected(g.x, g.nx, Lo(x1, x2), Hi(x1, x2), includeMax, px);
    AxisPointSelected(g.y, g.ny, Lo(y1, y2), Hi(y1, y2), includeMax, py);
  }

  /** On one axis, the start lies in cell 0 and the end in cell n-1 or beyond. */
  lemma AxisCorners(a: Axis)
    requires a.step > 0.0 && a.start < a.end
    ensures RawIndex(a, a.start) == 0
    ensures RawIndex(a, a.end) >= CellCount(a) - 1
  {
    var k0, k1, n := RawIndex(a, a.start), RawIndex(a, a.end), CellCount(a);
    if k0 > 0 {
      AboveEdge(a, a.start, 0, k0);
    } else if k0 < 0 {
      BelowEdge(a, a.start, k0 + 1, 0);
    }
    if k1 < n - 1 {
      BelowEdge(a, a.end, k1 + 1, n - 1);
    }
  }

  /**
   * The corners of the grid: a query reduced to the point (x_start, y_start)
   * resolves to cell (0, 0) alone, one reduced to (x_end, y_end) to the last
   * cell (nx-1, ny-1) alone.
   */
  lemma CornerCells(g: Geometry)
    requires g.Valid()
    ensures GetCellRange(g, g.x.start, g.x.start, g.y.start, g.y.start, true, true) == CellRange(0, 0, 0, 0)
    ensures GetCellRange(g, g.x.end, g.x.end, g.y.end, g.y.end, true, true) == CellRange(g.nx - 1, g.nx - 1, g.ny - 1, g.ny - 1)
  {
    AxisCorners(g.x);
    AxisCorners(g.y);
  }

  /** A box from the start corner to the end corner of the grid resolves to every cell. */
  lemma WholeGridRange(g: Geometry)
    requires g.Valid()
    ensures GetCellRange(g, g.x.start, g.x.end, g.y.start, g.y.end, true, true) == CellRange(0, g.nx - 1, 0, g.ny - 1)
  {
    AxisCorners(g.x);
    AxisCorners(g.y);
  }

  /** Cell (0, 0) has the first bucket and cell (nx-1, ny-1) the last. */
  lemma CornerBuckets(g: Geometry)
    requires g.nx >= 1 && g.ny >= 1
    ensures CellId(g, 0, 0) == 0 && CellId(g, g.nx - 1, g.ny - 1) == g.nx * g.ny - 1
  {
    assert (g.ny - 1) * g.nx + (g.nx - 1) == g.nx * g.ny - 1;
  }

  /** A point below both starts goes to the first bucket. */
  lemma BelowGridCell(g: Geometry, px: real, py: real)
    requires g.Valid() && px < g.x.start && py < g.y.start
    ensures CellOf(g, px, py) == 0
  {
    CornerBuckets(g);
  }

  /** A point at or beyond both far edges of the cells goes to the last bucket. */
  lemma BeyondGridCell(g: Geometry, px: real, py: real)
    requires g.Valid()
    requires Edge(g.x, g.nx) <= px && Edge(g.y, g.ny) <= py
    ensures CellOf(g, px, py) == g.nx * g.ny - 1
  {
    CornerBuckets(g);
    assert CellIndex(g.x, g.nx, px) == g.nx - 1;
    assert CellIndex(g.y, g.ny, py) == g.ny - 1;
  }

  /** The square grid over [0, side) with cells of width `step` on both axes. */
  function Square(side: real, step: real): Geometry
    requires step > 0.0
  {
    Geometry(Axis(0.0, side, step), Axis(0.0, side, step), Ceil(side / step), Ceil(side / step))
  }

  /** Construction scenarios: a 10 x 10 grid, a zero step, a negative step, start after end. */
  lemma ConstructionExamples()
    ensures MakeGeometry(0.0, 100.0, 10.0, 0.0, 100.0, 10.0) == Ok(Square(100.0, 10.0))
    ensures Square(100.0, 10.0).nx == 10 && Square(100.0, 10.0).ny == 10
    ensures MakeGeometry(0.0, 100.0, 0.0, 0.0, 100.0, 10.0) == Err(NonPositiveStep)
    ensures MakeGeometry(0.0, 100.0, -1.0, 0.0, 100.0, 10.0) == Err(NonPositiveStep)
    ensures MakeGeometry(100.0, 0.0, 10.0, 0.0, 100.0, 10.0) == Err(StartNotBeforeEnd)
  {
  }

  /**
   * The four edge-flag combinations on the unit grid over [0, 10) for the
   * box [5, 6] x [5, 6]: cells 5..6, nothing (6 > 5), cell 5 only, cell 6 only.
   */
  lemma EdgeFlagExamples()
    ensures Square(10.0, 1.0).Valid()
    ensures GetCellRange(Square(10.0, 1.0), 5.0, 6.0, 5.0, 6.0, true, true) == CellRange(5, 6, 5, 6)
    ensures GetCellRange(Square(10.0, 1.0), 5.0, 6.0, 5.0, 6.0, false, false) == CellRange(6, 5, 6, 5)
    ensures GetCellRange(Square(10.0, 1.0), 5.0, 6.0, 5.0, 6.0, true, false) == CellRange(5, 5, 5, 5)
    ensures GetCellRange(Square(10.0, 1.0), 5.0, 6.0, 5.0, 6.0, false, true) == CellRange(6, 6, 6, 6)
  {
  }

  /**
   * An excluded lower edge on a cell edge drops the whole cell starting
   * there, including its points strictly above the edge: the point 5.5 lies
   * in the open box (5, 6) x (5, 6) but its cell 5 is not in the range.
   */
  lemma ExcludedLowerEdgeDropsCell()
    ensures Square(10.0, 1.0).Valid()
    ensures CellIndex(Square(10.0, 1.0).x, 10, 5.5) == 5
    ensures GetCellRange(Square(10.0, 1.0), 5.0, 6.0, 5.0, 6.0, false, true).iMin == 6
  {
  }

  /**
   * Adjust, then clamp: an excluded lower edge on the far edge of the unit
   * grid over [0, 10) becomes index 11 and is clamped back to 9.
   */
  lemma FarEdgeClampedBack()
    ensures Square(10.0, 1.0).Valid()
    ensures AdjustedRange(Square(10.0, 1.0), 10.0, 10.0, 0.0, 0.0, false, true).iMin == 11
    ensures GetCellRange(Square(10.0, 1.0), 10.0, 10.0, 0.0, 0.0, false, true).iMin == 9
  {
  }

  /** Out-of-range points are clamped to the corner cells of a 10 x 10 grid over [0, 100). */
  lemma OutOfRangeExamples()
    ensures Square(100.0, 10.0).Valid()
    ensures CellOf(Square(100.0, 10.0), -10.0, -10.0) == 0
    ensures CellOf(Square(100.0, 10.0), 200.0, 200.0) == 99
  {
  }

  /**
   * On the 10 x 10 grid over [0, 100), the box [0, 5] x [0, 5] inside cell
   * (0, 0) resolves to that cell alone. The box [95, 100] x [95, 100] reaches
   * the far edge 100, whose raw index 10 is clamped back to 9, so it resolves
   * to cell (9, 9) alone.
   */
  lemma CornerRangeExamples()
    ensures Square(100.0, 10.0).Valid()
    ensures GetCellRange(Square(100.0, 10.0), 0.0, 5.0, 0.0, 5.0, true, true) == CellRange(0, 0, 0, 0)
    ensures GetCellRange(Square(100.0, 10.0), 95.0, 100.0, 95.0, 100.0, true, true) == CellRange(9, 9, 9, 9)
  {
  }

  /**
   * The box [0, 20] x [0, 20] on the 10 x 10 grid over [0, 100): the included
   * upper side 20 is the lower edge of cell 2, so cells 0..2 are selected on
   * both axes and the point (25, 25), outside the box, lies in a selected cell.
   */
  lemma DiagonalBoxExamples()
    ensures Square(100.0, 10.0).Valid()
    ensures GetCellRange(Square(100.0, 10.0), 0.0, 20.0, 0.0, 20.0, true, true) == CellRange(0, 2, 0, 2)
    ensures CellIndex(Square(100.0, 10.0).x, 10, 25.0) == 2
  {
  }

  /** Cells of the 10 x 10 grid over [0, 100) that the result-reuse scenario fills. */
  lemma ReuseCellExamples()
    ensures Square(100.0, 10.0).Valid()
    ensures CellOf(Square(100.0, 10.0), 5.0, 5.0) == 0 && CellOf(Square(100.0, 10.0), 15.0, 15.0) == 11
  {
    var g := Square(100.0, 10.0);
    assert g.nx == 10 && g.y == g.x;
    assert CellIndex(g.x, 10, 15.0) == 1;
    assert CellId(g, 1, 1) == 11;
  }

  /** Boxes of the result-reuse scenario: each lies within one cell (the upper edge 19.9 stays below 20). */
  lemma ReuseRangeExamples()
    ensures Square(100.0, 10.0).Valid()
    ensures GetCellRange(Square(100.0, 10.0), 0.0, 9.9, 0.0, 9.9, true, true) == CellRange(0, 0, 0, 0)
    ensures GetCellRange(Square(100.0, 10.0), 10.0, 19.9, 10.0, 19.9, true, true) == CellRange(1, 1, 1, 1)
  {
  }

  /** On a grid of a single cell, every point goes to bucket 0 and every box, with any flags, resolves to that cell. */
  lemma OneCellGrid(g: Geometry, px: real, py: real, x1: real, x2: real, y1: real, y2: real,
                    includeMin: bool, includeMax: bool)
    requires g.Valid() && g.nx == 1 && g.ny == 1
    ensures CellOf(g, px, py) == 0
    ensures GetCellRange(g, x1, x2, y1, y2, includeMin, includeMax) == CellRange(0, 0, 0, 0)
  {
  }

  /** The grid over [0, 10) with step 10 has one cell: the point (1, 1) goes to bucket 0 and the box [8, 9] x [8, 9] resolves to that cell. */
  lemma OneCellExample()
    ensures Square(10.0, 10.0).Valid() && Square(10.0, 10.0).nx == 1 && Square(10.0, 10.0).ny == 1
    ensures CellOf(Square(10.0, 10.0), 1.0, 1.0) == 0
    ensures GetCellRange(Square(10.0, 10.0), 8.0, 9.0, 8.0, 9.0, true, true) == CellRange(0, 0, 0, 0)
  {
  }
}
