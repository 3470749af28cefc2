/**
 * The occupancy grid: a fixed world-to-cell mapping, a log-odds buffer
 * clipped to [LAMBDA_MIN, LAMBDA_MAX], and a derived 0/1 occupancy buffer
 * that is 1 exactly where the log-odds is non-negative. A scan is
 * integrated by raising the free cells of its rays and lowering its end
 * cells; a candidate point set is scored by counting the occupied cells it
 * hits.
 */
module GridMap {
  import opened SensorUtils

  const MAP_SIZE: real := 1000.0
  const LAMBDA_MIN: real := -6.0
  const LAMBDA_MAX: real := 6.0

  /** World units per cell; fixed by the constructor, not a parameter. */
  const RES: real := 4.0

  /** np.log(4), the fixed log-odds increment, as the double the source computes. */
  const LOG_ODDS_STEP: real := 1.3862943611198906

  const INT16_MIN: int := -32768
  const INT16_MAX: int := 32767

  /** A point in the world frame. */
  datatype Point = Point(x: real, y: real)

  /** np.ceil on a real, as an integer. */
  function Ceil(r: real): (c: int)
    ensures c as real - 1.0 < r <= c as real
  {
    -((-r).Floor)
  }

  /**
   * The number of cells along one axis: the span divided by the resolution,
   * plus one, rounded up. The upper bound falls in cell r - 2 (see
   * ToGridExact), so every coordinate in (lo, hi] has a cell of the grid.
   */
  function GridSize(lo: real, hi: real): (r: int)
    ensures lo + (r - 2) as real * RES < hi <= lo + (r - 1) as real * RES
  {
    Ceil((hi - lo) / RES + 1.0)
  }

  /** The default bounds give a 751 x 751 grid. */
  lemma DefaultGridSize()
    ensures GridSize(-MAP_SIZE, MAP_SIZE + 1000.0) == 751
    ensures GridSize(-MAP_SIZE - 1000.0, MAP_SIZE) == 751
  {
  }

  /**
   * The int16 cast of np.ceil((v - lo) / res) is exact and the int16
   * subtraction of 1 that follows does not wrap.
   */
  predicate CoordFits(v: real, lo: real)
  {
    INT16_MIN < Ceil((v - lo) / RES) <= INT16_MAX
  }

  /** One axis of convert_to_map: ceil((v - lo) / res) - 1. */
  function ToGrid(v: real, lo: real): (k: int)
    requires CoordFits(v, lo)
    ensures lo + k as real * RES < v <= lo + (k + 1) as real * RES
  {
    Ceil((v - lo) / RES) - 1
  }

  /** Cell k along an axis is exactly the half-open interval (lo + k*res, lo + (k+1)*res]. */
  lemma ToGridExact(v: real, lo: real, k: int)
    requires CoordFits(v, lo)
    ensures ToGrid(v, lo) == k <==> lo + k as real * RES < v <= lo + (k + 1) as real * RES
  {
  }

  /** With x_min = -1000: x = -1000 lies in cell -1, x = -996 in cell 0. */
  lemma ToGridExamples()
    ensures CoordFits(-1000.0, -1000.0) && ToGrid(-1000.0, -1000.0) == -1
    ensures CoordFits(-996.0, -1000.0) && ToGrid(-996.0, -1000.0) == 0
  {
    ToGridExact(-1000.0, -1000.0, -1);
    ToGridExact(-996.0, -1000.0, 0);
  }

  /** Clamps a log-odds value to [LAMBDA_MIN, LAMBDA_MAX]. */
  function Clip(v: real): (r: real)
    ensures LAMBDA_MIN <= r <= LAMBDA_MAX
    ensures LAMBDA_MIN <= v <= LAMBDA_MAX ==> r == v
  {
    if v < LAMBDA_MIN then LAMBDA_MIN else if v > LAMBDA_MAX then LAMBDA_MAX else v
  }

  /** The occupancy flag of a log-odds value: 0 when negative, 1 otherwise. */
  function Flag(v: real): int
  {
    if v < 0.0 then 0 else 1
  }

  /**
   * The log-odds of one cell after one scan: raised by one step if it is a
   * free cell, then lowered by one step if it is an end cell, each result
   * clipped.
   */
  function Integrated(o: real, free: bool, hit: bool): real
  {
    var raised := if free then Clip(o + LOG_ODDS_STEP) else o;
    if hit then Clip(raised - LOG_ODDS_STEP) else raised
  }

  /**
   * One scan changes a cell by at most one step in each direction, however
   * many rays cross it or end in it, keeps it within the clip bounds, and
   * leaves cells that are neither free nor hit as they were.
   */
  lemma IntegratedOneStep(o: real, free: bool, hit: bool)
    requires LAMBDA_MIN <= o <= LAMBDA_MAX
    ensures var r := Integrated(o, free, hit);
      && LAMBDA_MIN <= r <= LAMBDA_MAX
      && (!free && !hit ==> r == o)
      && (free && !hit ==> r == if o + LOG_ODDS_STEP > LAMBDA_MAX then LAMBDA_MAX else o + LOG_ODDS_STEP)
      && (!free && hit ==> r == if o - LOG_ODDS_STEP < LAMBDA_MIN then LAMBDA_MIN else o - LOG_ODDS_STEP)
      && (free && !hit ==> r >= o)
      && (!free && hit ==> r <= o)
  {
  }

  class Map {
    const xMin: real
    const yMin: real
    const xMax: real
    const yMax: real
    const xSize: int
    const ySize: int
    /** self.odds: log-odds per cell. */
    const odds: array2<real>
    /** self.map: the 0/1 occupancy flag per cell. */
    const occupancy: array2<int>
    /** The grid cell of the robot at every scan integration, in order. */
    var robotCoord: seq<Cell>

    /** Both buffers are x_size by y_size. */
    ghost predicate Shaped()
    {
      && odds.Length0 == xSize && odds.Length1 == ySize
      && occupancy.Length0 == xSize && occupancy.Length1 == ySize
    }

    /** Every log-odds value is within the clip bounds and every flag agrees with its log-odds. */
    ghost predicate Valid()
      reads odds, occupancy
    {
      && Shaped()
      && forall i, j :: 0 <= i < xSize && 0 <= j < ySize ==>
           LAMBDA_MIN <= odds[i, j] <= LAMBDA_MAX && occupancy[i, j] == Flag(odds[i, j])
    }

    /** Map(x_min, y_min, x_max, y_max): all log-odds 0, every cell flagged occupied. */
    constructor (xMin: real := -MAP_SIZE, yMin: real := -MAP_SIZE - 1000.0,
                 xMax: real := MAP_SIZE + 1000.0, yMax: real := MAP_SIZE)
      requires GridSize(xMin, xMax) >= 0 && GridSize(yMin, yMax) >= 0
      ensures this.xMin == xMin && this.yMin == yMin && this.xMax == xMax && this.yMax == yMax
      ensures xSize == GridSize(xMin, xMax) && ySize == GridSize(yMin, yMax)
      ensures Valid() && fresh(odds) && fresh(occupancy)
      ensures forall i, j :: 0 <= i < xSize && 0 <= j < ySize ==> odds[i, j] == 0.0 && occupancy[i, j] == 1
      ensures robotCoord == []
    {
      var nx, ny := GridSize(xMin, xMax), GridSize(yMin, yMax);
      this.xMin, this.yMin, this.xMax, this.yMax := xMin, yMin, xMax, yMax;
      xSize, ySize := nx, ny;
      odds := new real[nx, ny]((i, j) => 0.0);
      occupancy := new int[nx, ny]((i, j) => 1);
      robotCoord := [];
    }

    /** The bounds mask: 1 < x < x_size and 1 < y < y_size. */
    predicate InBounds(c: Cell)
    {
      1 < c.x < xSize && 1 < c.y < ySize
    }

    predicate AllInBounds(cells: seq<Cell>)
    {
      forall k :: 0 <= k < |cells| ==> InBounds(cells[k])
    }

    /** cells[ind_good]: the cells the bounds mask keeps, in order. */
    function Masked(cells: seq<Cell>): (r: seq<Cell>)
      ensures |r| <= |cells|
      ensures forall c :: c in r <==> c in cells && InBounds(c)
      ensures AllInBounds(r)
    {
      if cells == [] then []
      else
        var n := |cells| - 1;
        assert cells == cells[..n] + [cells[n]];
        var rest := Masked(cells[..n]);
        if InBounds(cells[n]) then rest + [cells[n]] else rest
    }

    predicate PointFits(p: Point)
    {
      CoordFits(p.x, xMin) && CoordFits(p.y, yMin)
    }

    /** convert_to_map on one point. */
    function ToCell(p: Point): Cell
      requires PointFits(p)
    {
      Cell(ToGrid(p.x, xMin), ToGrid(p.y, yMin))
    }

    /** convert_to_map on a batch of points, row by row. */
    function ConvertToMap(points: seq<Point>): (cells: seq<Cell>)
      requires forall p :: p in points ==> PointFits(p)
      ensures |cells| == |points|
    {
      seq(|points|, i requires 0 <= i < |points| => ToCell(points[i]))
    }

    /** Each axis of each point lands in the cell whose half-open interval contains it. */
    lemma ConvertToMapCell(points: seq<Point>, i: nat)
      requires forall p :: p in points ==> PointFits(p)
      requires i < |points|
      ensures var c := ConvertToMap(points)[i];
        && xMin + c.x as real * RES < points[i].x <= xMin + (c.x + 1) as real * RES
        && yMin + c.y as real * RES < points[i].y <= yMin + (c.y + 1) as real * RES
    {
    }

    /**
     * Adds delta to the log-odds of every listed cell and clips the result.
     * All new values are read from the buffer before any is written.
     */
    method AddLogOdds(cells: seq<Cell>, delta: real)
      requires Shaped()
      requires AllInBounds(cells)
      modifies odds
      ensures forall i, j :: 0 <= i < xSize && 0 <= j < ySize ==>
        odds[i, j] == if Cell(i, j) in cells then Clip(old(odds[i, j]) + delta) else old(odds[i, j])
    {
      // every new value is computed from the buffer as it was before any write,
      // so a cell listed twice receives the same value twice
      var vals := seq(|cells|, k requires 0 <= k < |cells| reads odds =>
        Clip(odds[cells[k].x, cells[k].y] + delta));
      for k := 0 to |cells|
        invariant forall m :: 0 <= m < |cells| ==> vals[m] == Clip(old(odds[cells[m].x, cells[m].y]) + delta)
        invariant forall i, j :: 0 <= i < xSize && 0 <= j < ySize ==>
          odds[i, j] == if Cell(i, j) in cells[..k] then Clip(old(odds[i, j]) + delta) else old(odds[i, j])
      {
        assert cells[..k + 1] == cells[..k] + [cells[k]];
        odds[cells[k].x, cells[k].y] := vals[k];
      }
      assert cells[..|cells|] == cells;
    }

    /** update_map(xs, ys): recompute the flag of exactly the listed cells. */
    method UpdateMap(cells: seq<Cell>)
      requires Shaped()
      requires AllInBounds(cells)
      modifies occupancy
      ensures forall i, j :: 0 <= i < xSize && 0 <= j < ySize ==>
        occupancy[i, j] == if Cell(i, j) in cells then Flag(odds[i, j]) else old(occupancy[i, j])
    {
      for k := 0 to |cells|
        invariant forall i, j :: 0 <= i < xSize && 0 <= j < ySize ==>
          occupancy[i, j] == if Cell(i, j) in cells[..k] then Flag(odds[i, j]) else old(occupancy[i, j])
      {
        assert cells[..k + 1] == cells[..k] + [cells[k]];
        var c := cells[k];
        occupancy[c.x, c.y] := if odds[c.x, c.y] < 0.0 then 0 else 1;
      }
      assert cells[..|cells|] == cells;
    }

    /**
     * One half of update_free: add delta to the log-odds of the listed cells
     * (clipped), then refresh their flags. Every other cell is untouched.
     */
    method Integrate(cells: seq<Cell>, delta: real)
      requires Valid()
      requires AllInBounds(cells)
      modifies odds, occupancy
      ensures Valid()
      ensures forall i, j :: 0 <= i < xSize && 0 <= j < ySize ==>
        odds[i, j] == if Cell(i, j) in cells then Clip(old(odds[i, j]) + delta) else old(odds[i, j])
    {
      AddLogOdds(cells, delta);
      UpdateMap(cells);
    }

    /**
     * The log-odds after integrating the scan from start to ends: every
     * in-bounds cell that some ray crosses before its last cell is raised
     * once, every in-bounds end cell is lowered once, all others keep their
     * value.
     */
    twostate predicate ScanIntegrated(start: Point, ends: seq<Point>)
      requires PointFits(start) && forall p :: p in ends ==> PointFits(p)
      reads odds
    {
      var origin := ToCell(start);
      var targets := ConvertToMap(ends);
      forall i, j :: 0 <= i < odds.Length0 && 0 <= j < odds.Length1 ==>
        odds[i, j] == Integrated(old(odds[i, j]),
                                 InBounds(Cell(i, j)) && Cell(i, j) in FreeCells(origin, targets),
                                 InBounds(Cell(i, j)) && Cell(i, j) in targets)
    }

    /** update_free(start, ends): trace the scan and integrate it into both buffers. */
    method UpdateFree(start: Point, ends: seq<Point>)
      requires Valid()
      requires |ends| > 0
      requires PointFits(start) && forall p :: p in ends ==> PointFits(p)
      modifies this, odds, occupancy
      ensures Valid()
      ensures robotCoord == old(robotCoord) + [ToCell(start)]
      ensures ScanIntegrated(start, ends)
    {
      var targets := ConvertToMap(ends);
      var origin := ToCell(start);
      robotCoord := robotCoord + [origin];

      var free, block := GetMapping(origin, targets);
      var goodFree := Masked(free);
      Integrate(goodFree, LOG_ODDS_STEP);
      label BeforeEnds:
      var goodEnds := Masked(targets);
      Integrate(goodEnds, -LOG_ODDS_STEP);

      forall i, j | 0 <= i < xSize && 0 <= j < ySize
        ensures odds[i, j] == Integrated(old(odds[i, j]),
                                         InBounds(Cell(i, j)) && Cell(i, j) in FreeCells(origin, targets),
                                         InBounds(Cell(i, j)) && Cell(i, j) in targets)
      {
        var c := Cell(i, j);
        var before, mid := old(odds[i, j]), old@BeforeEnds(odds[i, j]);
        assert mid == if c in goodFree then Clip(before + LOG_ODDS_STEP) else before;
        assert odds[i, j] == if c in goodEnds then Clip(mid - LOG_ODDS_STEP) else mid;
        assert c in goodFree <==> InBounds(c) && c in FreeCells(origin, targets);
        assert c in goodEnds <==> InBounds(c) && c in targets;
      }
    }

    /** The number of listed cells flagged occupied, repeats counted. */
    function CountOccupied(cells: seq<Cell>): (r: nat)
      requires Valid()
      requires AllInBounds(cells)
      reads odds, occupancy
      ensures r <= |cells|
      ensures r == 0 <==> forall k :: 0 <= k < |cells| ==> odds[cells[k].x, cells[k].y] < 0.0
      ensures r == |cells| <==> forall k :: 0 <= k < |cells| ==> odds[cells[k].x, cells[k].y] >= 0.0
    {
      if cells == [] then 0
      else
        var n := |cells| - 1;
        assert cells == cells[..n] + [cells[n]];
        CountOccupied(cells[..n]) + occupancy[cells[n].x, cells[n].y]
    }

    /** The occupied count of a concatenation is the sum of the counts. */
    lemma {:induction false} CountOccupiedAppend(a: seq<Cell>, b: seq<Cell>)
      requires Valid()
      requires AllInBounds(a) && AllInBounds(b)
      ensures CountOccupied(a + b) == CountOccupied(a) + CountOccupied(b)
    {
      if b != [] {
        var n := |b| - 1;
        assert (a + b)[..|a + b| - 1] == a + b[..n];
        CountOccupiedAppend(a, b[..n]);
      } else {
        assert a + b == a;
      }
    }

    /**
     * map_correlation(points): how many points fall in a cell that passes
     * the bounds mask and is flagged occupied, i.e. has non-negative log-odds.
     */
    function Correlation(points: seq<Point>): (r: nat)
      requires Valid()
      requires forall p :: p in points ==> PointFits(p)
      reads odds, occupancy
      ensures r <= |points|
    {
      if points == [] then 0
      else
        var n := |points| - 1;
        var c := ToCell(points[n]);
        Correlation(points[..n]) + if InBounds(c) then occupancy[c.x, c.y] else 0
    }

    /** The correlation is 0 exactly when every point inside the mask lands on a free-flagged cell. */
    lemma {:induction false} CorrelationZero(points: seq<Point>)
      requires Valid()
      requires forall p :: p in points ==> PointFits(p)
      ensures Correlation(points) == 0 <==> forall i :: 0 <= i < |points| && InBounds(ToCell(points[i])) ==>
        odds[ToCell(points[i]).x, ToCell(points[i]).y] < 0.0
    {
      if points != [] {
        var n := |points| - 1;
        var prefix := points[..n];
        CorrelationZero(prefix);
        assert forall i :: 0 <= i < n ==> prefix[i] == points[i];
      }
    }

    lemma ConvertToMapPrefix(points: seq<Point>, n: nat)
      requires forall p :: p in points ==> PointFits(p)
      requires n <= |points|
      ensures ConvertToMap(points)[..n] == ConvertToMap(points[..n])
    {
    }

    lemma CountOccupiedSingle(c: Cell)
      requires Valid() && InBounds(c)
      ensures CountOccupied([c]) == occupancy[c.x, c.y]
    {
      assert [c][..0] == [];
    }

    /** The same count, as the source computes it: mask the converted cells, then sum their flags. */
    lemma {:induction false} CorrelationIsMaskedCount(points: seq<Point>)
      requires Valid()
      requires forall p :: p in points ==> PointFits(p)
      ensures Correlation(points) == CountOccupied(Masked(ConvertToMap(points)))
    {
      if points != [] {
        var n := |points| - 1;
        var cells := ConvertToMap(points);
        ConvertToMapPrefix(points, n);
        assert cells == cells[..n] + [cells[n]];
        CorrelationIsMaskedCount(points[..n]);
        var rest := Masked(cells[..n]);
        assert Masked(cells) == if InBounds(cells[n]) then rest + [cells[n]] else rest;
        if InBounds(cells[n]) {
          CountOccupiedAppend(rest, [cells[n]]);
          CountOccupiedSingle(cells[n]);
        }
      }
    }
  }
}
