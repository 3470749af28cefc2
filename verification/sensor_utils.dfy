/**
 * The ray tracer of the SLAM engine: integer line rasterisation between two
 * grid cells, the row deduplication used on the free cells, the tracing of
 * one scan from a shared origin, and the range gate applied to raw lidar
 * readings.
 */
module SensorUtils {

  /** One row (x, y) of the integer cell arrays the tracer produces. */
  datatype Cell = Cell(x: int, y: int)

  function Abs(n: int): nat { if n < 0 then -n else n }

  function Max(a: int, b: int): int { if a < b then b else a }

  function Min(a: int, b: int): int { if a < b then a else b }

  /** +1 when the coordinate runs upward from s to e, -1 otherwise. */
  function Dir(s: int, e: int): int { if s <= e then 1 else -1 }

  /** The coordinate reached after d unit moves from s toward e. */
  function Toward(s: int, e: int, d: int): int { if s <= e then s + d else s - d }

  // ---------------------------------------------------------------------
  // Bresenham rasterisation
  // ---------------------------------------------------------------------

  /** The closed-form residue (floor(major/2) - k*minor) mod major. */
  function Residue(major: nat, minor: nat, k: int): int
    requires major > 0
  {
    (major / 2 - k * minor) % major
  }

  /**
   * q[k]: 0 for k == 0 and for a ray whose minor delta is 0; otherwise 1
   * exactly when the residue does not decrease from k-1 to k (it wrapped).
   */
  function Step(major: nat, minor: nat, k: nat): nat
    requires minor <= major
  {
    if minor == 0 || k == 0 then 0
    else if Residue(major, minor, k) - Residue(major, minor, k - 1) >= 0 then 1 else 0
  }

  /** cumsum(q)[k]: how far the minor coordinate has moved after k steps. */
  function Offset(major: nat, minor: nat, k: nat): (r: nat)
    requires minor <= major
    ensures r <= k
  {
    if k == 0 then 0 else Offset(major, minor, k - 1) + Step(major, minor, k)
  }

  /** A positive multiple of d is at least d. */
  lemma {:induction false} MulAtLeast(d: int, x: int)
    requires d > 0 && x >= 1
    ensures d * x >= d
  {
    if x > 1 {
      MulAtLeast(d, x - 1);
      assert d * x == d * (x - 1) + d;
    }
  }

  /** Euclidean division is determined by any quotient/remainder pair. */
  lemma DivModUnique(n: int, d: int, q: int, r: int)
    requires d > 0 && 0 <= r < d && n == d * q + r
    ensures n / d == q && n % d == r
  {
    var q', r' := n / d, n % d;
    assert n == d * q' + r';
    if q' > q {
      assert d * q' == d * q + d * (q' - q);
      MulAtLeast(d, q' - q);
    } else if q' < q {
      assert d * q == d * q' + d * (q - q');
      MulAtLeast(d, q - q');
    }
  }

  /** One step of q is exactly the change of -floor((floor(major/2) - k*minor)/major). */
  lemma StepIsWrap(major: nat, minor: nat, k: nat)
    requires 0 < minor <= major && k > 0
    ensures Step(major, minor, k) == (major / 2 - (k - 1) * minor) / major - (major / 2 - k * minor) / major
  {
    var a := major / 2 - (k - 1) * minor;
    var b := major / 2 - k * minor;
    assert b == a - minor by {
      assert k * minor == (k - 1) * minor + minor;
    }
    var qa, ra := a / major, a % major;
    assert a == major * qa + ra;
    if ra >= minor {
      DivModUnique(b, major, qa, ra - minor);
    } else {
      assert b == major * (qa - 1) + (ra - minor + major);
      DivModUnique(b, major, qa - 1, ra - minor + major);
    }
  }

  /**
   * The running sum of q equals the closed form
   * ceil((k*minor - floor(major/2)) / major).
   */
  lemma {:induction false} OffsetClosedForm(major: nat, minor: nat, k: nat)
    requires 0 < minor <= major
    ensures Offset(major, minor, k) == -((major / 2 - k * minor) / major)
  {
    if k == 0 {
      DivModUnique(major / 2, major, 0, major / 2);
    } else {
      OffsetClosedForm(major, minor, k - 1);
      StepIsWrap(major, minor, k);
    }
  }

  /** With no minor delta the minor coordinate never moves. */
  lemma {:induction false} OffsetFlat(major: nat, k: nat)
    ensures Offset(major, 0, k) == 0
  {
    if k > 0 {
      OffsetFlat(major, k - 1);
    }
  }

  /**
   * The minor offset tracks the ideal line: offset*major lies within
   * [k*minor - floor(major/2), k*minor - floor(major/2) + major), so the
   * traced cell is the ideal line's ordinate rounded to the nearest cell.
   */
  lemma {:induction false} OffsetFollowsIdealLine(major: nat, minor: nat, k: nat)
    requires 0 < minor <= major
    ensures k * minor - major / 2 <= Offset(major, minor, k) * major < k * minor - major / 2 + major
  {
    OffsetClosedForm(major, minor, k);
    var n := major / 2 - k * minor;
    FloorBounds(n, major);
    NegatedProduct(Offset(major, minor, k), n / major, major);
  }

  lemma FloorBounds(n: int, d: int)
    requires d > 0
    ensures d * (n / d) <= n < d * (n / d) + d
  {
  }

  lemma NegatedProduct(o: int, q: int, d: int)
    requires o == -q
    ensures o * d == -(d * q)
  {
  }

  /** After all major steps the minor coordinate has moved by exactly minor. */
  lemma OffsetAtEnd(major: nat, minor: nat)
    requires minor <= major
    ensures Offset(major, minor, major) == minor
  {
    if minor == 0 {
      OffsetFlat(major, major);
    } else {
      OffsetClosedForm(major, minor, major);
      var m: int := minor;
      assert major / 2 - major * m == major * (-m) + major / 2;
      DivModUnique(major / 2 - major * m, major, -m, major / 2);
    }
  }

  /** The offset never decreases along the ray. */
  lemma {:induction false} OffsetMonotone(major: nat, minor: nat, j: nat, k: nat)
    requires minor <= major && j <= k
    ensures Offset(major, minor, j) <= Offset(major, minor, k)
  {
    if j < k {
      OffsetMonotone(major, minor, j, k - 1);
    }
  }

  /** The ray is steep when its y delta exceeds its x delta; x and y then swap roles. */
  predicate Steep(sx: int, sy: int, ex: int, ey: int) { Abs(ey - sy) > Abs(ex - sx) }

  /** The larger of the two deltas: the number of steps of the ray. */
  function Major(sx: int, sy: int, ex: int, ey: int): nat {
    if Steep(sx, sy, ex, ey) then Abs(ey - sy) else Abs(ex - sx)
  }

  /** The smaller of the two deltas: how far the minor coordinate travels. */
  function Minor(sx: int, sy: int, ex: int, ey: int): (m: nat)
    ensures m <= Major(sx, sy, ex, ey)
  {
    if Steep(sx, sy, ex, ey) then Abs(ex - sx) else Abs(ey - sy)
  }

  /** Row k of bresenham2D: k steps along the major axis, cumsum(q)[k] along the minor. */
  function RayCell(sx: int, sy: int, ex: int, ey: int, k: nat): Cell
  {
    var o := Offset(Major(sx, sy, ex, ey), Minor(sx, sy, ex, ey), k);
    if Steep(sx, sy, ex, ey) then Cell(Toward(sx, ex, o), Toward(sy, ey, k))
    else Cell(Toward(sx, ex, k), Toward(sy, ey, o))
  }

  /** The cells of bresenham2D(sx, sy, ex, ey), one row per step along the major axis. */
  function Bresenham(sx: int, sy: int, ex: int, ey: int): (r: seq<Cell>)
    ensures |r| == Max(Abs(ex - sx), Abs(ey - sy)) + 1
    ensures r[0] == Cell(sx, sy)
    ensures r[|r| - 1] == Cell(ex, ey)
  {
    var major := Major(sx, sy, ex, ey);
    OffsetAtEnd(major, Minor(sx, sy, ex, ey));
    seq(major + 1, k requires 0 <= k <= major => RayCell(sx, sy, ex, ey, k))
  }

  /**
   * Each step moves the major coordinate by exactly one toward the end and
   * the minor coordinate by zero or one toward the end.
   */
  lemma BresenhamSteps(sx: int, sy: int, ex: int, ey: int, k: nat)
    requires k + 1 < |Bresenham(sx, sy, ex, ey)|
    ensures var r := Bresenham(sx, sy, ex, ey);
      if Steep(sx, sy, ex, ey) then
        r[k + 1].y == r[k].y + Dir(sy, ey) && (r[k + 1].x == r[k].x || r[k + 1].x == r[k].x + Dir(sx, ex))
      else
        r[k + 1].x == r[k].x + Dir(sx, ex) && (r[k + 1].y == r[k].y || r[k + 1].y == r[k].y + Dir(sy, ey))
  {
    var major, minor := Major(sx, sy, ex, ey), Minor(sx, sy, ex, ey);
    assert Offset(major, minor, k + 1) == Offset(major, minor, k) + Step(major, minor, k + 1);
    assert Bresenham(sx, sy, ex, ey)[k] == RayCell(sx, sy, ex, ey, k);
    assert Bresenham(sx, sy, ex, ey)[k + 1] == RayCell(sx, sy, ex, ey, k + 1);
  }

  /** Consecutive cells of a ray are distinct 8-neighbours: the ray is connected. */
  lemma BresenhamConnected(sx: int, sy: int, ex: int, ey: int, k: nat)
    requires k + 1 < |Bresenham(sx, sy, ex, ey)|
    ensures var r := Bresenham(sx, sy, ex, ey);
      r[k] != r[k + 1] && Abs(r[k + 1].x - r[k].x) <= 1 && Abs(r[k + 1].y - r[k].y) <= 1
  {
    BresenhamSteps(sx, sy, ex, ey, k);
  }

  /** A ray with no minor delta keeps its minor coordinate fixed. */
  lemma BresenhamStraight(sx: int, sy: int, ex: int, ey: int)
    ensures var r := Bresenham(sx, sy, ex, ey);
      && (ey == sy ==> forall k :: 0 <= k < |r| ==> r[k].y == sy)
      && (ex == sx ==> forall k :: 0 <= k < |r| ==> r[k].x == sx)
  {
    var r := Bresenham(sx, sy, ex, ey);
    var major, minor := Major(sx, sy, ex, ey), Minor(sx, sy, ex, ey);
    forall k | 0 <= k < |r|
      ensures r[k] == RayCell(sx, sy, ex, ey, k)
      ensures minor == 0 ==> Offset(major, minor, k) == 0
    {
      OffsetFlat(major, k);
    }
  }

  /** Every traced cell lies in the bounding box of the two end cells. */
  lemma BresenhamInBox(sx: int, sy: int, ex: int, ey: int)
    ensures var r := Bresenham(sx, sy, ex, ey);
      forall k :: 0 <= k < |r| ==>
        Min(sx, ex) <= r[k].x <= Max(sx, ex) && Min(sy, ey) <= r[k].y <= Max(sy, ey)
  {
    var r := Bresenham(sx, sy, ex, ey);
    var major, minor := Major(sx, sy, ex, ey), Minor(sx, sy, ex, ey);
    OffsetAtEnd(major, minor);
    forall k | 0 <= k < |r|
      ensures r[k] == RayCell(sx, sy, ex, ey, k)
      ensures Offset(major, minor, k) <= minor
    {
      OffsetMonotone(major, minor, k, major);
    }
  }

  /** The horizontal example: (0,0) to (5,0). */
  lemma BresenhamHorizontalExample()
    ensures Bresenham(0, 0, 5, 0) == [Cell(0, 0), Cell(1, 0), Cell(2, 0), Cell(3, 0), Cell(4, 0), Cell(5, 0)]
  {
    BresenhamStraight(0, 0, 5, 0);
  }

  /** The vertical example: (0,0) to (0,-3). */
  lemma BresenhamVerticalExample()
    ensures Bresenham(0, 0, 0, -3) == [Cell(0, 0), Cell(0, -1), Cell(0, -2), Cell(0, -3)]
  {
    BresenhamStraight(0, 0, 0, -3);
  }

  // ---------------------------------------------------------------------
  // unique: lexsort on (y, x) followed by removal of adjacent repeats
  // ---------------------------------------------------------------------

  /** lexsort(a.T) orders rows by y first, then by x. */
  predicate Before(a: Cell, b: Cell) { a.y < b.y || (a.y == b.y && a.x < b.x) }

  predicate NotAfter(a: Cell, b: Cell) { a == b || Before(a, b) }

  ghost predicate Sorted(s: seq<Cell>) {
    forall i, j :: 0 <= i < j < |s| ==> NotAfter(s[i], s[j])
  }

  ghost predicate StrictlySorted(s: seq<Cell>) {
    forall i, j :: 0 <= i < j < |s| ==> Before(s[i], s[j])
  }

  function Insert(c: Cell, s: seq<Cell>): (r: seq<Cell>)
    ensures multiset(r) == multiset(s) + multiset{c}
  {
    if s == [] then [c]
    else if NotAfter(c, s[0]) then [c] + s
    else
      assert s == [s[0]] + s[1..];
      [s[0]] + Insert(c, s[1..])
  }

  lemma {:induction false} InsertSorted(c: Cell, s: seq<Cell>)
    requires Sorted(s)
    ensures Sorted(Insert(c, s))
  {
    if s != [] && !NotAfter(c, s[0]) {
      var t := Insert(c, s[1..]);
      InsertSorted(c, s[1..]);
      forall j | 0 <= j < |t|
        ensures NotAfter(s[0], t[j])
      {
        assert t[j] in multiset(t);
        if t[j] != c {
          assert t[j] in s[1..];
          var m :| 1 <= m < |s| && s[m] == t[j];
        }
      }
      assert Insert(c, s) == [s[0]] + t;
    }
  }

  /** The sorted order lexsort produces (a stable sort; on distinct keys any sort agrees). */
  function LexSort(s: seq<Cell>): (r: seq<Cell>)
    ensures multiset(r) == multiset(s)
    ensures Sorted(r)
  {
    if s == [] then []
    else
      assert s == [s[0]] + s[1..];
      InsertSorted(s[0], LexSort(s[1..]));
      Insert(s[0], LexSort(s[1..]))
  }

  /** Keeps row 0 and every row that differs from the row before it. */
  function DropRepeats(s: seq<Cell>): (r: seq<Cell>)
    ensures |r| <= |s|
    ensures s != [] ==> r != [] && r[0] == s[0]
  {
    if |s| <= 1 then s
    else if s[|s| - 1] == s[|s| - 2] then DropRepeats(s[..|s| - 1])
    else DropRepeats(s[..|s| - 1]) + [s[|s| - 1]]
  }

  lemma {:induction false} DropRepeatsOfSorted(s: seq<Cell>)
    requires Sorted(s)
    ensures StrictlySorted(DropRepeats(s))
    ensures forall c :: c in DropRepeats(s) <==> c in s
    ensures |s| > 0 ==> |DropRepeats(s)| > 0 && DropRepeats(s)[|DropRepeats(s)| - 1] == s[|s| - 1]
  {
    if |s| > 1 {
      var p := s[..|s| - 1];
      DropRepeatsOfSorted(p);
      assert s == p + [s[|s| - 1]];
      if s[|s| - 1] != s[|s| - 2] {
        var d := DropRepeats(p);
        forall i | 0 <= i < |d|
          ensures Before(d[i], s[|s| - 1])
        {
          assert d[i] in p;
          var m :| 0 <= m < |p| && p[m] == d[i];
          assert NotAfter(p[m], s[|s| - 2]);
        }
      }
    }
  }

  /** unique(a): the distinct rows of a, in (y, x) order. */
  function Unique(s: seq<Cell>): (r: seq<Cell>)
    ensures StrictlySorted(r)
    ensures forall c :: c in r <==> c in s
  {
    var t := LexSort(s);
    assert forall c :: c in t <==> c in multiset(t);
    DropRepeatsOfSorted(t);
    DropRepeats(t)
  }

  /** Two strictly sorted sequences holding the same cells are the same sequence. */
  lemma {:induction false} StrictlySortedDetermined(a: seq<Cell>, b: seq<Cell>)
    requires StrictlySorted(a) && StrictlySorted(b)
    requires forall c :: c in a <==> c in b
    ensures a == b
  {
    if a != [] {
      assert a[0] in a;
    }
    if b != [] {
      assert b[0] in b;
    }
    if a != [] && b != [] {
      assert a[0] in b && b[0] in a;
      assert a[0] == b[0];
      forall c
        ensures c in a[1..] <==> c in b[1..]
      {
        if c in a[1..] {
          var i :| 1 <= i < |a| && a[i] == c;
          assert Before(a[0], c);
          assert c in b;
        }
        if c in b[1..] {
          var i :| 1 <= i < |b| && b[i] == c;
          assert Before(b[0], c);
          assert c in a;
        }
      }
      StrictlySortedDetermined(a[1..], b[1..]);
      assert a == [a[0]] + a[1..];
      assert b == [b[0]] + b[1..];
    }
  }

  /** unique depends only on which rows occur: order and repetition do not matter. */
  lemma UniqueIgnoresOrder(s: seq<Cell>, t: seq<Cell>)
    requires forall c :: c in s <==> c in t
    ensures Unique(s) == Unique(t)
  {
    StrictlySortedDetermined(Unique(s), Unique(t));
  }

  // ---------------------------------------------------------------------
  // get_mapping: trace one ray per endpoint from a shared origin
  // ---------------------------------------------------------------------

  function Ray(origin: Cell, end: Cell): (r: seq<Cell>)
    ensures |r| > 0 && r[0] == origin && r[|r| - 1] == end
  {
    Bresenham(origin.x, origin.y, end.x, end.y)
  }

  /** The cells of one ray that are marked free: all but the last. */
  function Interior(origin: Cell, end: Cell): seq<Cell>
  {
    var ray := Ray(origin, end);
    ray[..|ray| - 1]
  }

  /** The rows free_points collects before deduplication, ray after ray. */
  function FreeCells(origin: Cell, points: seq<Cell>): seq<Cell>
  {
    if points == [] then []
    else FreeCells(origin, points[..|points| - 1]) + Interior(origin, points[|points| - 1])
  }

  /** c is a cell of some ray other than that ray's last cell. */
  ghost predicate IsFreeCell(origin: Cell, points: seq<Cell>, c: Cell) {
    exists i :: 0 <= i < |points| && c in Interior(origin, points[i])
  }

  lemma {:induction false} FreeCellsMembership(origin: Cell, points: seq<Cell>, c: Cell)
    ensures c in FreeCells(origin, points) <==> IsFreeCell(origin, points, c)
  {
    if points != [] {
      var n := |points| - 1;
      var p := points[..n];
      var last := Interior(origin, points[n]);
      assert FreeCells(origin, points) == FreeCells(origin, p) + last;
      FreeCellsMembership(origin, p, c);
      if IsFreeCell(origin, points, c) {
        var i :| 0 <= i < |points| && c in Interior(origin, points[i]);
        if i < n {
          assert p[i] == points[i];
          assert c in Interior(origin, p[i]);
        } else {
          assert c in last;
        }
      }
      if IsFreeCell(origin, p, c) {
        var i :| 0 <= i < |p| && c in Interior(origin, p[i]);
        assert points[i] == p[i];
      }
      if c in last {
        assert c in Interior(origin, points[n]);
      }
    }
  }

  /**
   * get_mapping(bot_pos, points): free cells deduplicated over all rays, and
   * one block cell per endpoint (the last cell of its ray), in input order.
   */
  method GetMapping(origin: Cell, points: seq<Cell>) returns (free: seq<Cell>, block: seq<Cell>)
    requires |points| > 0
    ensures |block| == |points|
    ensures forall i :: 0 <= i < |points| ==> block[i] == Ray(origin, points[i])[|Ray(origin, points[i])| - 1]
    ensures block == points
    ensures free == Unique(FreeCells(origin, points))
    ensures StrictlySorted(free)
    ensures forall c :: c in free <==> IsFreeCell(origin, points, c)
  {
    var freePoints: seq<Cell> := [];
    block := [];
    for i := 0 to |points|
      invariant freePoints == FreeCells(origin, points[..i])
      invariant |block| == i
      invariant forall m :: 0 <= m < i ==> block[m] == Ray(origin, points[m])[|Ray(origin, points[m])| - 1]
    {
      var ray := Ray(origin, points[i]);
      assert points[..i + 1][..i] == points[..i];
      freePoints := freePoints + ray[..|ray| - 1];
      assert freePoints == FreeCells(origin, points[..i + 1]);
      block := block + ray[|ray| - 1..];
    }
    assert points[..|points|] == points;
    free := Unique(freePoints);
    forall c {
      FreeCellsMembership(origin, points, c);
    }
  }

  // ---------------------------------------------------------------------
  // get_valid: keep the readings with 0.1 < range < 60
  // ---------------------------------------------------------------------

  predicate ValidRange(r: real) { 0.1 < r < 60.0 }

  /** get_valid(angles, ranges): the (angle, range) pairs whose range passes the gate, in order. */
  function GetValid(angles: seq<real>, ranges: seq<real>): (r: (seq<real>, seq<real>))
    requires |angles| == |ranges|
    ensures |r.0| == |r.1| <= |ranges|
    ensures forall k :: 0 <= k < |r.1| ==> ValidRange(r.1[k])
  {
    if ranges == [] then ([], [])
    else
      var n := |ranges| - 1;
      var kept := GetValid(angles[..n], ranges[..n]);
      if ValidRange(ranges[n]) then (kept.0 + [angles[n]], kept.1 + [ranges[n]]) else kept
  }

  /** The indices the boolean mask selects, ascending. */
  function ValidIndices(ranges: seq<real>): (idx: seq<nat>)
    ensures forall k :: 0 <= k < |idx| ==> idx[k] < |ranges| && ValidRange(ranges[idx[k]])
    ensures forall a, b :: 0 <= a < b < |idx| ==> idx[a] < idx[b]
    ensures forall i :: 0 <= i < |ranges| && ValidRange(ranges[i]) ==> i in idx
  {
    if ranges == [] then []
    else
      var n := |ranges| - 1;
      var p := ValidIndices(ranges[..n]);
      if ValidRange(ranges[n]) then p + [n] else p
  }

  /** s[idx]: numpy fancy indexing with an index array. */
  function Pick(s: seq<real>, idx: seq<nat>): (r: seq<real>)
    requires forall k :: 0 <= k < |idx| ==> idx[k] < |s|
  {
    seq(|idx|, k requires 0 <= k < |idx| => s[idx[k]])
  }

  /** Picking only indices below n reads nothing past s[..n]. */
  lemma PickPrefix(s: seq<real>, idx: seq<nat>, n: nat)
    requires n <= |s|
    requires forall k :: 0 <= k < |idx| ==> idx[k] < n
    ensures Pick(s, idx) == Pick(s[..n], idx)
  {
  }

  lemma PickExtend(s: seq<real>, idx: seq<nat>, j: nat)
    requires j < |s|
    requires forall k :: 0 <= k < |idx| ==> idx[k] < |s|
    ensures Pick(s, idx + [j]) == Pick(s, idx) + [s[j]]
  {
    assert forall k :: 0 <= k < |idx| ==> (idx + [j])[k] == idx[k];
  }

  /** get_valid is exactly the mask selection: pairing and order are preserved. */
  lemma {:induction false} GetValidSelects(angles: seq<real>, ranges: seq<real>)
    requires |angles| == |ranges|
    ensures GetValid(angles, ranges) == (Pick(angles, ValidIndices(ranges)), Pick(ranges, ValidIndices(ranges)))
  {
    if ranges != [] {
      var n := |ranges| - 1;
      var p := ValidIndices(ranges[..n]);
      GetValidSelects(angles[..n], ranges[..n]);
      PickPrefix(angles, p, n);
      PickPrefix(ranges, p, n);
      if ValidRange(ranges[n]) {
        assert ValidIndices(ranges) == p + [n];
        PickExtend(angles, p, n);
        PickExtend(ranges, p, n);
      } else {
        assert ValidIndices(ranges) == p;
      }
    }
  }
}
