/**
 * Particle-filter bookkeeping: N pose hypotheses with weights, an occupancy
 * grid built from the best hypothesis, and the predict / update / resample
 * cycle. Trigonometry, Gaussian noise and uniform draws are parameters.
 */
module Filter {
  import opened SensorUtils
  import opened GridMap

  const EPSILON: real := 0.00001

  /** One row of particle_poses: x, y and heading. */
  datatype Pose = Pose(x: real, y: real, theta: real)

  /** A Particle: position, angle and weight. */
  datatype Particle = Particle(x: real, y: real, angle: real, weight: real)

  /** delta_robot_pose: distance travelled along the heading, then change of heading. */
  datatype Odometry = Odometry(distance: real, turn: real)

  /** cos and sin, supplied by the caller. */
  datatype Trig = Trig(cos: real -> real, sin: real -> real)

  /** An observation that may be missing (None). */
  datatype Option<T> = None | Some(value: T)

  function SqDist(a: Point, b: Point): real
  {
    (a.x - b.x) * (a.x - b.x) + (a.y - b.y) * (a.y - b.y)
  }

  /** convert_to_world_frame: rotate each robot-frame point by angle, then translate by pos. */
  function ToWorldFrame(trig: Trig, angle: real, pos: Point, points: seq<Point>): (r: seq<Point>)
    ensures |r| == |points|
  {
    var c, s := trig.cos(angle), trig.sin(angle);
    seq(|points|, i requires 0 <= i < |points| =>
      Point(c * points[i].x - s * points[i].y + pos.x, s * points[i].x + c * points[i].y + pos.y))
  }

  /** The scan as seen from a pose. */
  function WorldScan(trig: Trig, p: Pose, scan: seq<Point>): (r: seq<Point>)
    ensures |r| == |scan|
  {
    ToWorldFrame(trig, p.theta, Point(p.x, p.y), scan)
  }

  /** The robot-frame origin lands on the position. */
  lemma WorldFrameOrigin(trig: Trig, angle: real, pos: Point, points: seq<Point>, i: nat)
    requires i < |points| && points[i] == Point(0.0, 0.0)
    ensures ToWorldFrame(trig, angle, pos, points)[i] == pos
  {
  }

  /** With cos 0 = 1 and sin 0 = 0, the scan seen from the zero pose is the scan itself. */
  lemma WorldScanAtOrigin(trig: Trig, scan: seq<Point>)
    requires trig.cos(0.0) == 1.0 && trig.sin(0.0) == 0.0
    ensures WorldScan(trig, Pose(0.0, 0.0, 0.0), scan) == scan
  {
  }

  /** When cos^2 + sin^2 = 1 the transform is rigid: squared distances are preserved. */
  lemma WorldFrameRigid(trig: Trig, angle: real, pos: Point, points: seq<Point>, i: nat, j: nat)
    requires i < |points| && j < |points|
    requires trig.cos(angle) * trig.cos(angle) + trig.sin(angle) * trig.sin(angle) == 1.0
    ensures var r := ToWorldFrame(trig, angle, pos, points);
      SqDist(r[i], r[j]) == SqDist(points[i], points[j])
  {
    var c, s := trig.cos(angle), trig.sin(angle);
    var r := ToWorldFrame(trig, angle, pos, points);
    var dx, dy := points[i].x - points[j].x, points[i].y - points[j].y;
    assert r[i].x - r[j].x == c * dx - s * dy;
    assert r[i].y - r[j].y == s * dx + c * dy;
    calc {
      (c * dx - s * dy) * (c * dx - s * dy) + (s * dx + c * dy) * (s * dx + c * dy);
      (c * c + s * s) * (dx * dx) + (c * c + s * s) * (dy * dy);
      dx * dx + dy * dy;
    }
  }

  /** The deterministic odometry update of one row: x and y use the old heading. */
  function Moved(trig: Trig, p: Pose, odo: Odometry): Pose
  {
    Pose(p.x + odo.distance * trig.cos(p.theta),
         p.y + odo.distance * trig.sin(p.theta),
         p.theta + odo.turn)
  }

  /**
   * When cos^2 + sin^2 = 1 at the old heading, one odometry step moves the
   * position by exactly the travelled distance and turns the heading by the
   * odometry turn.
   */
  lemma MovedDistance(trig: Trig, p: Pose, odo: Odometry)
    requires trig.cos(p.theta) * trig.cos(p.theta) + trig.sin(p.theta) * trig.sin(p.theta) == 1.0
    ensures var q := Moved(trig, p, odo);
      && SqDist(Point(q.x, q.y), Point(p.x, p.y)) == odo.distance * odo.distance
      && q.theta - p.theta == odo.turn
  {
  }

  /** Adding one noise row. */
  function Perturbed(p: Pose, noise: Pose): Pose
  {
    Pose(p.x + noise.x, p.y + noise.y, p.theta + noise.theta)
  }

  /** np.sum. */
  function Sum(s: seq<real>): real
  {
    if s == [] then 0.0 else Sum(s[..|s| - 1]) + s[|s| - 1]
  }

  ghost predicate NonNegative(s: seq<real>)
  {
    forall i :: 0 <= i < |s| ==> s[i] >= 0.0
  }

  /** A sum of non-negative values is non-negative and bounds every prefix sum. */
  lemma {:induction false} SumPrefixBounded(s: seq<real>, k: nat)
    requires NonNegative(s) && k <= |s|
    ensures 0.0 <= Sum(s[..k]) <= Sum(s)
    decreases |s|
  {
    if k < |s| {
      var n := |s| - 1;
      assert s[..n][..k] == s[..k];
      SumPrefixBounded(s[..n], k);
    } else {
      assert s[..k] == s;
      if s != [] {
        var n := |s| - 1;
        SumPrefixBounded(s[..n], n);
        assert s[..n][..n] == s[..n];
      }
    }
  }

  /** Dividing every entry by c divides the sum by c. */
  lemma {:induction false} SumScaled(s: seq<real>, c: real)
    requires c > 0.0
    ensures Sum(seq(|s|, i requires 0 <= i < |s| => s[i] / c)) == Sum(s) / c
  {
    var t := seq(|s|, i requires 0 <= i < |s| => s[i] / c);
    if s != [] {
      var n := |s| - 1;
      var u := seq(n, i requires 0 <= i < n => s[..n][i] / c);
      assert t[..n] == u;
      SumScaled(s[..n], c);
      assert Sum(t) == Sum(s[..n]) / c + s[n] / c;
    }
  }

  /** A run of m copies of v sums to m * v. */
  lemma {:induction false} SumConstant(m: nat, v: real)
    ensures Sum(seq(m, i => v)) == m as real * v
  {
    if m > 0 {
      assert seq(m, i => v)[..m - 1] == seq(m - 1, i => v);
      SumConstant(m - 1, v);
    }
  }

  /** The uniform weights 1/N sum to 1. */
  lemma UniformSumsToOne(n: nat)
    requires n > 0
    ensures Sum(seq(n, i => 1.0 / n as real)) == 1.0
  {
    SumConstant(n, 1.0 / n as real);
  }

  /** np.cumsum: entry k is the sum of the first k + 1 values. */
  function CumSum(s: seq<real>): (r: seq<real>)
    ensures |r| == |s|
  {
    seq(|s|, k requires 0 <= k < |s| => Sum(s[..k + 1]))
  }

  /** The last cumulative sum is the total; over non-negative weights the sums never decrease. */
  lemma CumSumLast(s: seq<real>)
    requires s != []
    ensures CumSum(s)[|s| - 1] == Sum(s)
  {
    assert s[..|s|] == s;
  }

  lemma CumSumMonotone(s: seq<real>, k: nat, m: nat)
    requires NonNegative(s) && k <= m < |s|
    ensures 0.0 <= CumSum(s)[k] <= CumSum(s)[m]
  {
    var c := CumSum(s);
    assert c[k] == Sum(s[..k + 1]) && c[m] == Sum(s[..m + 1]);
    SumPrefixBounded(s[..m + 1], k + 1);
    assert s[..m + 1][..k + 1] == s[..k + 1];
  }

  /** Divides every weight by the total weight plus EPSILON. */
  function Normalise(s: seq<real>): (r: seq<real>)
    requires NonNegative(s)
    ensures |r| == |s|
  {
    SumPrefixBounded(s, 0);
    seq(|s|, i requires 0 <= i < |s| => s[i] / (Sum(s) + EPSILON))
  }

  /** Normalised non-negative scores are non-negative and sum to strictly less than 1. */
  lemma NormaliseIsSubDistribution(s: seq<real>)
    requires NonNegative(s)
    ensures NonNegative(Normalise(s))
    ensures 0.0 <= Sum(Normalise(s)) < 1.0
  {
    SumPrefixBounded(s, 0);
    assert s[..0] == [];
    var c := Sum(s) + EPSILON;
    SumScaled(s, c);
    assert Sum(Normalise(s)) == Sum(s) / c;
  }

  /** np.argmax: the first index holding the largest value. */
  function ArgMax(s: seq<real>): (r: nat)
    requires s != []
    ensures r < |s|
    ensures forall i :: 0 <= i < |s| ==> s[i] <= s[r]
    ensures forall i :: 0 <= i < r ==> s[i] < s[r]
  {
    if |s| == 1 then 0
    else
      var k := ArgMax(s[..|s| - 1]);
      if s[|s| - 1] > s[k] then |s| - 1 else k
  }

  /** The first-maximum index is determined by those two properties. */
  lemma ArgMaxUnique(s: seq<real>, k: nat)
    requires k < |s|
    requires forall i :: 0 <= i < |s| ==> s[i] <= s[k]
    requires forall i :: 0 <= i < k ==> s[i] < s[k]
    ensures ArgMax(s) == k
  {
  }

  /** Normalising by a positive total does not move the argmax. */
  lemma ArgMaxOfNormalised(s: seq<real>)
    requires NonNegative(s) && s != []
    ensures ArgMax(Normalise(s)) == ArgMax(s)
  {
    SumPrefixBounded(s, 0);
    var c := Sum(s) + EPSILON;
    var t := Normalise(s);
    var k := ArgMax(s);
    forall i | 0 <= i < |s|
      ensures t[i] <= t[k]
      ensures i < k ==> t[i] < t[k]
    {
      assert t[i] == s[i] / c && t[k] == s[k] / c;
      DivideMonotone(s[i], s[k], c);
    }
    ArgMaxUnique(t, k);
  }

  lemma DivideMonotone(a: real, b: real, c: real)
    requires c > 0.0
    ensures a <= b ==> a / c <= b / c
    ensures a < b ==> a / c < b / c
  {
  }

  /** max_weight: starts at 0 and is raised to every larger score. */
  function MaxWeight(s: seq<real>): (r: real)
    ensures r >= 0.0
    ensures s != [] ==> r >= s[|s| - 1]
  {
    if s == [] then 0.0
    else
      var m := MaxWeight(s[..|s| - 1]);
      if s[|s| - 1] > m then s[|s| - 1] else m
  }

  /** Extending the scanned prefix by one score raises max_weight to it if it is larger. */
  lemma MaxWeightStep(s: seq<real>, i: nat)
    requires i < |s|
    ensures MaxWeight(s[..i + 1]) == if s[i] > MaxWeight(s[..i]) then s[i] else MaxWeight(s[..i])
  {
    assert s[..i + 1][..i] == s[..i];
  }

  /** max_weight bounds every score and is either 0 or one of the scores. */
  lemma {:induction false} MaxWeightIsMax(s: seq<real>)
    ensures MaxWeight(s) >= 0.0
    ensures forall i :: 0 <= i < |s| ==> s[i] <= MaxWeight(s)
    ensures MaxWeight(s) == 0.0 || exists i :: 0 <= i < |s| && s[i] == MaxWeight(s)
  {
    if s != [] {
      var n := |s| - 1;
      MaxWeightIsMax(s[..n]);
      if MaxWeight(s) != 0.0 && MaxWeight(s) != s[n] {
        var i :| 0 <= i < n && s[..n][i] == MaxWeight(s[..n]);
        assert s[i] == MaxWeight(s);
      }
    }
  }

  /** Over non-negative scores, max_weight is the score of the argmax particle. */
  lemma MaxWeightAtArgMax(s: seq<real>)
    requires NonNegative(s) && s != []
    ensures MaxWeight(s) == s[ArgMax(s)]
  {
    MaxWeightIsMax(s);
    if MaxWeight(s) == 0.0 {
      assert s[ArgMax(s)] >= 0.0;
    }
  }

  /** The first index j at or after from with u <= cum[j]. */
  function FirstAtLeast(cum: seq<real>, u: real, from: nat): (j: nat)
    requires from < |cum| && u <= cum[|cum| - 1]
    ensures from <= j < |cum|
    ensures u <= cum[j]
    ensures forall m :: from <= m < j ==> cum[m] < u
    decreases |cum| - from
  {
    if u <= cum[from] then from else FirstAtLeast(cum, u, from + 1)
  }

  /**
   * Two particles scored 1 and 0: update leaves the weights 1/(1 + EPSILON)
   * and 0, so both cumulative sums are 1/(1 + EPSILON). Resample makes one
   * draw; the draw 0.999995 lies in [0, 1) yet above both sums, so the
   * unguarded scan of resample walks past the last index.
   */
  lemma UniformDrawCanOverrun()
    ensures var cum := CumSum(Normalise([1.0, 0.0]));
      var u := 0.999995;
      && 0.0 <= u < 1.0
      && |cum| == 2
      && forall j :: 0 <= j < |cum| ==> cum[j] < u
  {
    var s := [1.0, 0.0];
    assert s[..1] == [1.0] && [1.0][..0] == [];
    assert s[..2] == s;
    assert Sum(s) == 1.0;
    var w := Normalise(s);
    var x := 1.0 / (1.0 + EPSILON);
    assert w == [x, 0.0];
    assert w[..1] == [x] && [x][..0] == [];
    assert w[..2] == w;
    var cum := CumSum(w);
    assert cum[0] == x;
    assert cum[1] == x;
  }

  /** The scan of resample: step j forward while the draw exceeds cum[j]. */
  method FirstReaching(cum: seq<real>, u: real) returns (j: nat)
    requires cum != [] && u <= cum[|cum| - 1]
    ensures j == FirstAtLeast(cum, u, 0)
  {
    j := 0;
    while u > cum[j]
      invariant j <= FirstAtLeast(cum, u, 0)
      decreases |cum| - j
    {
      j := j + 1;
    }
  }

  /** order is an argsort of w: a permutation of the indices listing w in non-decreasing order. */
  ghost predicate IsArgsort(order: seq<int>, w: seq<real>)
  {
    && |order| == |w|
    && (forall k :: 0 <= k < |order| ==> 0 <= order[k] < |w|)
    && (forall k :: 0 <= k < |order| - 1 ==> w[order[k]] <= w[order[k + 1]])
    && multiset(order) == multiset(Indices(|w|))
  }

  function Indices(n: nat): (r: seq<int>)
    ensures |r| == n && forall i :: 0 <= i < n ==> r[i] == i
  {
    seq(n, i => i)
  }

  ghost predicate SortedBy(idx: seq<int>, w: seq<real>)
  {
    && (forall k :: 0 <= k < |idx| ==> 0 <= idx[k] < |w|)
    && (forall k :: 0 <= k < |idx| - 1 ==> w[idx[k]] <= w[idx[k + 1]])
  }

  /** Insert index i into a list of indices kept in order of weight. */
  function InsertIndex(idx: seq<int>, i: int, w: seq<real>): (r: seq<int>)
    requires 0 <= i < |w| && forall k :: 0 <= k < |idx| ==> 0 <= idx[k] < |w|
    ensures |r| == |idx| + 1
    ensures forall k :: 0 <= k < |r| ==> 0 <= r[k] < |w|
  {
    if idx == [] then [i]
    else if w[i] <= w[idx[0]] then [i] + idx
    else
      assert idx == [idx[0]] + idx[1..];
      [idx[0]] + InsertIndex(idx[1..], i, w)
  }

  lemma {:induction false} InsertIndexPermutes(idx: seq<int>, i: int, w: seq<real>)
    requires 0 <= i < |w| && forall k :: 0 <= k < |idx| ==> 0 <= idx[k] < |w|
    ensures multiset(InsertIndex(idx, i, w)) == multiset(idx) + multiset{i}
  {
    if idx != [] && w[i] > w[idx[0]] {
      assert idx == [idx[0]] + idx[1..];
      InsertIndexPermutes(idx[1..], i, w);
    }
  }

  lemma {:induction false} InsertIndexSorted(idx: seq<int>, i: int, w: seq<real>)
    requires 0 <= i < |w| && SortedBy(idx, w)
    ensures SortedBy(InsertIndex(idx, i, w), w)
    ensures idx != [] ==> InsertIndex(idx, i, w)[0] == idx[0] || InsertIndex(idx, i, w)[0] == i
  {
    if idx != [] && w[i] > w[idx[0]] {
      InsertIndexSorted(idx[1..], i, w);
    }
  }

  /** An argsort of the first m indices, built by insertion. */
  function ArgSortUpTo(w: seq<real>, m: nat): (r: seq<int>)
    requires m <= |w|
    ensures |r| == m && forall k :: 0 <= k < |r| ==> 0 <= r[k] < |w|
  {
    if m == 0 then [] else InsertIndex(ArgSortUpTo(w, m - 1), m - 1, w)
  }

  lemma {:induction false} ArgSortUpToPermutes(w: seq<real>, m: nat)
    requires m <= |w|
    ensures multiset(ArgSortUpTo(w, m)) == multiset(Indices(m))
  {
    if m > 0 {
      var prev := ArgSortUpTo(w, m - 1);
      assert ArgSortUpTo(w, m) == InsertIndex(prev, m - 1, w);
      assert Indices(m) == Indices(m - 1) + [m - 1];
      ArgSortUpToPermutes(w, m - 1);
      InsertIndexPermutes(prev, m - 1, w);
    }
  }

  lemma {:induction false} ArgSortUpToSorted(w: seq<real>, m: nat)
    requires m <= |w|
    ensures SortedBy(ArgSortUpTo(w, m), w)
  {
    if m > 0 {
      ArgSortUpToSorted(w, m - 1);
      InsertIndexSorted(ArgSortUpTo(w, m - 1), m - 1, w);
    }
  }

  /** Every weight vector has an argsort. */
  lemma ArgsortExists(w: seq<real>)
    ensures IsArgsort(ArgSortUpTo(w, |w|), w)
  {
    ArgSortUpToSorted(w, |w|);
    ArgSortUpToPermutes(w, |w|);
  }

  /**
   * As written, resample looks the draw up in the cumulative sums of the
   * unsorted weights but takes the row from the weight-sorted poses. With
   * weights [0.9, 0.09] every draw in (0, 0.9] picks particle 1, the
   * lighter one.
   */
  lemma SortedRowsUseUnsortedSums()
    ensures var w, order := [0.9, 0.09], [1, 0];
      && IsArgsort(order, w)
      && w[1] < w[0]
      && CumSum(w) == [0.9, 0.99]
      && forall u :: 0.0 < u <= 0.9 ==> order[FirstAtLeast(CumSum(w), u, 0)] == 1
  {
    var w, order := [0.9, 0.09], [1, 0];
    assert multiset(order) == multiset(Indices(2)) by {
      assert Indices(2) == [0, 1];
    }
    var cum := CumSum(w);
    assert w[..1] == [0.9] && [0.9][..0] == [];
    assert w[..2] == w;
    assert cum[0] == 0.9;
    assert cum[1] == Sum(w) == 0.99;
    assert cum == [0.9, 0.99];
  }

  /** The weights listed in the order of the argsort. */
  function Reordered(w: seq<real>, order: seq<int>): (r: seq<real>)
    requires forall k :: 0 <= k < |order| ==> 0 <= order[k] < |w|
    ensures |r| == |order| && forall k :: 0 <= k < |order| ==> r[k] == w[order[k]]
  {
    seq(|order|, k requires 0 <= k < |order| => w[order[k]])
  }

  /** Listing the weights for a concatenation of indices concatenates the listings. */
  lemma ReorderedAppend(w: seq<real>, a: seq<int>, b: seq<int>)
    requires forall k :: 0 <= k < |a| ==> 0 <= a[k] < |w|
    requires forall k :: 0 <= k < |b| ==> 0 <= b[k] < |w|
    ensures Reordered(w, a + b) == Reordered(w, a) + Reordered(w, b)
  {
  }

  /**
   * When two sequences hold the same elements, the last element of the first
   * sits at some index of the second, and removing it from both leaves
   * sequences that again hold the same elements.
   */
  lemma MatchLast<T>(a: seq<T>, b: seq<T>) returns (i: nat)
    requires a != [] && multiset(a) == multiset(b)
    ensures i < |b| && b[i] == a[|a| - 1]
    ensures a == a[..|a| - 1] + [a[|a| - 1]]
    ensures b == b[..i] + [b[i]] + b[i + 1..]
    ensures multiset(a[..|a| - 1]) == multiset(b[..i] + b[i + 1..])
  {
    var n := |a| - 1;
    var x := a[n];
    assert a == a[..n] + [x];
    assert x in multiset(b);
    i :| 0 <= i < |b| && b[i] == x;
    assert b == b[..i] + [x] + b[i + 1..];
    assert multiset(b) == multiset(b[..i]) + multiset{x} + multiset(b[i + 1..]);
    assert multiset(b[..i] + b[i + 1..]) == multiset(b) - multiset{x};
    assert multiset(a[..n]) == multiset(a) - multiset{x};
  }

  /** Removing index i from an index sequence removes the weight of particle idx[i] from the listing. */
  lemma ReorderedRemove(w: seq<real>, idx: seq<int>, i: nat)
    requires forall k :: 0 <= k < |idx| ==> 0 <= idx[k] < |w|
    requires i < |idx|
    ensures var rest := idx[..i] + idx[i + 1..];
      && (forall k :: 0 <= k < |rest| ==> 0 <= rest[k] < |w|)
      && multiset(Reordered(w, idx)) == multiset(Reordered(w, rest)) + multiset{w[idx[i]]}
  {
    var front, back := idx[..i], idx[i + 1..];
    assert idx == front + [idx[i]] + back;
    assert Reordered(w, [idx[i]]) == [w[idx[i]]];
    ReorderedAppend(w, front, [idx[i]]);
    ReorderedAppend(w, front + [idx[i]], back);
    ReorderedAppend(w, front, back);
  }

  /** Index sequences holding the same indices list the same weights, in some order. */
  lemma {:induction false} ReorderedMultiset(w: seq<real>, a: seq<int>, b: seq<int>)
    requires forall k :: 0 <= k < |a| ==> 0 <= a[k] < |w|
    requires forall k :: 0 <= k < |b| ==> 0 <= b[k] < |w|
    requires multiset(a) == multiset(b)
    ensures multiset(Reordered(w, a)) == multiset(Reordered(w, b))
    decreases |a|
  {
    if a == [] {
      assert |b| == |multiset(b)| == 0;
    } else {
      var n := |a| - 1;
      var i := MatchLast(a, b);
      ReorderedRemove(w, a, n);
      assert a[..n] + a[n + 1..] == a[..n];
      ReorderedRemove(w, b, i);
      ReorderedMultiset(w, a[..n], b[..i] + b[i + 1..]);
    }
  }

  lemma {:induction false} SumAppend(a: seq<real>, b: seq<real>)
    ensures Sum(a + b) == Sum(a) + Sum(b)
    decreases |b|
  {
    if b == [] {
      assert a + b == a;
    } else {
      var n := |b| - 1;
      assert (a + b)[..|a + b| - 1] == a + b[..n];
      SumAppend(a, b[..n]);
    }
  }

  /** np.sum does not depend on the order of its arguments. */
  lemma {:induction false} SumPermutation(a: seq<real>, b: seq<real>)
    requires multiset(a) == multiset(b)
    ensures Sum(a) == Sum(b)
    decreases |a|
  {
    if a == [] {
      assert |b| == |multiset(b)| == 0;
    } else {
      var n := |a| - 1;
      var i := MatchLast(a, b);
      var x, front, back := a[n], b[..i], b[i + 1..];
      SumPermutation(a[..n], front + back);
      assert [x][..0] == [];
      SumAppend(front + [x], back);
      SumAppend(front, [x]);
      SumAppend(front, back);
    }
  }

  /**
   * An argsort lists every weight exactly once: the sorted weights are a
   * permutation of the weights, with the same total, so a draw bounded by
   * the last cumulative sum of either is bounded by the other.
   */
  lemma ReorderedPermutes(w: seq<real>, order: seq<int>)
    requires IsArgsort(order, w)
    ensures multiset(Reordered(w, order)) == multiset(w)
    ensures Sum(Reordered(w, order)) == Sum(w)
    ensures order != [] ==> CumSum(Reordered(w, order))[|order| - 1] == CumSum(w)[|w| - 1]
  {
    var sw := Reordered(w, order);
    ReorderedMultiset(w, order, Indices(|w|));
    assert Reordered(w, Indices(|w|)) == w;
    SumPermutation(sw, w);
    if order != [] {
      CumSumLast(sw);
      CumSumLast(w);
    }
  }

  /** The intended pick: look the draw up in the cumulative sums of the sorted weights. */
  function ProportionalPick(w: seq<real>, order: seq<int>, u: real): (m: int)
    requires order != [] && forall k :: 0 <= k < |order| ==> 0 <= order[k] < |w|
    requires u <= CumSum(Reordered(w, order))[|order| - 1]
    ensures m in order && 0 <= m < |w|
  {
    order[FirstAtLeast(CumSum(Reordered(w, order)), u, 0)]
  }

  /**
   * The corrected pick chooses the particle whose own slice of the sorted
   * cumulative weight contains the draw: the slices have the particles'
   * weights as lengths, so a uniform draw picks each particle with
   * probability proportional to its weight.
   */
  lemma ProportionalPickInterval(w: seq<real>, order: seq<int>, u: real)
    requires order != [] && forall k :: 0 <= k < |order| ==> 0 <= order[k] < |w|
    requires 0.0 < u <= CumSum(Reordered(w, order))[|order| - 1]
    ensures var sw := Reordered(w, order);
      var j := FirstAtLeast(CumSum(sw), u, 0);
      && ProportionalPick(w, order, u) == order[j]
      && Sum(sw[..j]) < u <= Sum(sw[..j]) + w[order[j]]
  {
    var sw := Reordered(w, order);
    var cum := CumSum(sw);
    var j := FirstAtLeast(cum, u, 0);
    assert sw[..j + 1][..j] == sw[..j];
    assert cum[j] == Sum(sw[..j]) + sw[j];
    if j > 0 {
      assert cum[j - 1] == Sum(sw[..j]);
    } else {
      assert sw[..0] == [];
    }
  }

  class ParticleFilter {
    /** n_particles */
    const n: nat
    /** particle_poses: one row per particle. */
    const poses: array<Pose>
    /** particle_weights: rebound by resample. */
    var weights: array<real>
    var best: Particle
    /** The map. */
    const grid: Map

    ghost predicate Valid()
      reads this, weights, grid, grid.odds, grid.occupancy
    {
      && poses.Length == n && weights.Length == n
      && grid.Valid()
      && forall i :: 0 <= i < n ==> weights[i] >= 0.0
    }

    /** ParticleFilter(n_particles): a default map, zero poses, uniform weights. */
    constructor (n: nat := 20)
      ensures Valid() && this.n == n
      ensures fresh(poses) && fresh(weights) && fresh(grid) && fresh(grid.odds) && fresh(grid.occupancy)
      ensures forall i :: 0 <= i < n ==> poses[i] == Pose(0.0, 0.0, 0.0) && weights[i] == 1.0 / n as real
      ensures best == Particle(0.0, 0.0, 0.0, 0.0)
      ensures grid.xMin == -MAP_SIZE && grid.yMin == -MAP_SIZE - 1000.0
      ensures grid.xMax == MAP_SIZE + 1000.0 && grid.yMax == MAP_SIZE
      ensures grid.xSize == 751 && grid.ySize == 751 && grid.robotCoord == []
      ensures forall i, j :: 0 <= i < 751 && 0 <= j < 751 ==> grid.odds[i, j] == 0.0 && grid.occupancy[i, j] == 1
      ensures grid.PointFits(Point(0.0, 0.0))
    {
      DefaultGridSize();
      this.n := n;
      grid := new Map();
      best := Particle(0.0, 0.0, 0.0, 0.0);
      poses := new Pose[n](i => Pose(0.0, 0.0, 0.0));
      weights := new real[n](i requires 0 <= i < n => 1.0 / n as real);
    }

    /**
     * views[i] is the scan in world coordinates as seen from particle i,
     * i.e. convert_to_world_frame applied with that particle's pose.
     */
    ghost predicate IsViews(trig: Trig, scan: seq<Point>, views: seq<seq<Point>>)
      reads this, poses
    {
      && |views| == poses.Length
      && forall i :: 0 <= i < |views| ==> views[i] == WorldScan(trig, poses[i], scan)
    }

    /** Every particle position and every point of its view fit the grid's int16 cell coordinates. */
    ghost predicate ViewsFit(views: seq<seq<Point>>)
      reads this, poses
    {
      && |views| == poses.Length
      && forall i :: 0 <= i < |views| ==>
           grid.PointFits(Point(poses[i].x, poses[i].y)) && forall q :: q in views[i] ==> grid.PointFits(q)
    }

    /** map_correlation of one view: at most one hit per scan point. */
    function Score(view: seq<Point>): (r: real)
      requires grid.Valid() && forall q :: q in view ==> grid.PointFits(q)
      reads grid.odds, grid.occupancy
      ensures 0.0 <= r <= |view| as real
    {
      grid.Correlation(view) as real
    }

    /** The scores of all views, in particle order. */
    function Scores(views: seq<seq<Point>>): (r: seq<real>)
      requires grid.Valid() && forall i :: 0 <= i < |views| ==> forall q :: q in views[i] ==> grid.PointFits(q)
      reads grid.odds, grid.occupancy
      ensures |r| == |views| && NonNegative(r)
      ensures forall i :: 0 <= i < |views| ==> r[i] == Score(views[i])
    {
      if views == [] then []
      else Scores(views[..|views| - 1]) + [Score(views[|views| - 1])]
    }

    /**
     * The scoring loop of update: weight i becomes the score of particle i
     * and max_weight tracks the largest score seen, starting from 0.
     */
    method ScoreParticles(views: seq<seq<Point>>) returns (maxWeight: real)
      requires Valid() && ViewsFit(views)
      modifies weights
      ensures Valid()
      ensures weights[..] == old(Scores(views))
      ensures maxWeight == MaxWeight(weights[..])
    {
      ghost var scores := Scores(views);
      maxWeight := 0.0;
      for i := 0 to n
        invariant grid.Valid()
        invariant weights[..i] == scores[..i]
        invariant maxWeight == MaxWeight(scores[..i])
      {
        MaxWeightStep(scores, i);
        var score := Score(views[i]);
        assert score == scores[i];
        weights[i] := score;
        assert weights[..i + 1] == scores[..i + 1];
        if score > maxWeight {
          maxWeight := score;
        }
      }
      assert weights[..] == weights[..n];
      assert scores[..n] == scores;
    }

    /** Normalises the weight buffer in place, one element at a time. */
    method NormaliseWeights()
      requires Valid()
      modifies weights
      ensures Valid()
      ensures weights[..] == Normalise(old(weights[..]))
    {
      ghost var w := weights[..];
      SumPrefixBounded(w, 0);
      assert w[..0] == [];
      var total := Sum(weights[..]) + EPSILON;
      for i := 0 to n
        invariant forall m :: 0 <= m < i ==> weights[m] == w[m] / total
        invariant forall m :: i <= m < n ==> weights[m] == w[m]
      {
        weights[i] := weights[i] / total;
      }
      assert weights[..] == Normalise(w);
      NormaliseIsSubDistribution(w);
      assert forall m :: 0 <= m < n ==> weights[m] == weights[..][m];
    }

    /** initialise_map: reset the best particle and integrate the first scan from the origin. */
    method InitialiseMap(trig: Trig, scan: seq<Point>)
      requires Valid()
      requires |scan| > 0
      requires grid.PointFits(Point(0.0, 0.0))
      requires forall p :: p in WorldScan(trig, Pose(0.0, 0.0, 0.0), scan) ==> grid.PointFits(p)
      modifies this, grid, grid.odds, grid.occupancy
      ensures Valid() && weights == old(weights)
      ensures best == Particle(0.0, 0.0, 0.0, 0.0)
      ensures grid.robotCoord == old(grid.robotCoord) + [grid.ToCell(Point(0.0, 0.0))]
      ensures grid.ScanIntegrated(Point(0.0, 0.0), WorldScan(trig, Pose(0.0, 0.0, 0.0), scan))
    {
      best := Particle(0.0, 0.0, 0.0, 0.0);
      var world := ToWorldFrame(trig, best.angle, Point(best.x, best.y), scan);
      grid.UpdateFree(Point(best.x, best.y), world);
    }

    /**
     * predict: every row takes the same odometry step; every row but the
     * last (the anchor) then receives its noise row.
     */
    method Predict(trig: Trig, odo: Odometry, noise: seq<Pose>)
      requires Valid() && n >= 1
      requires |noise| == n - 1
      modifies poses
      ensures Valid()
      ensures forall i :: 0 <= i < n - 1 ==> poses[i] == Perturbed(Moved(trig, old(poses[i]), odo), noise[i])
      ensures poses[n - 1] == Moved(trig, old(poses[n - 1]), odo)
    {
      for i := 0 to n
        invariant forall m :: 0 <= m < i ==> poses[m] == Moved(trig, old(poses[m]), odo)
        invariant forall m :: i <= m < n ==> poses[m] == old(poses[m])
      {
        var p := poses[i];
        poses[i] := Moved(trig, p, odo);
      }
      for i := 0 to n - 1
        invariant forall m :: 0 <= m < i ==> poses[m] == Perturbed(Moved(trig, old(poses[m]), odo), noise[m])
        invariant forall m :: i <= m < n ==> poses[m] == Moved(trig, old(poses[m]), odo)
      {
        poses[i] := Perturbed(poses[i], noise[i]);
      }
    }

    /**
     * Score every view and normalise the weights; k is the first heaviest
     * particle and maxWeight the largest raw score.
     */
    method WeighParticles(views: seq<seq<Point>>) returns (k: nat, maxWeight: real)
      requires Valid() && n >= 1 && ViewsFit(views)
      modifies weights
      ensures Valid()
      ensures k < n && k == ArgMax(old(Scores(views)))
      ensures maxWeight == MaxWeight(old(Scores(views)))
      ensures weights[..] == Normalise(old(Scores(views)))
    {
      ghost var scores := Scores(views);
      maxWeight := ScoreParticles(views);
      NormaliseWeights();
      k := ArgMax(weights[..]);
      ArgMaxOfNormalised(scores);
      MaxWeightAtArgMax(scores);
    }

    /**
     * The weighting half of update: score every view, normalise the
     * weights, and take the first heaviest particle as the best one, its
     * weight the largest raw score.
     */
    method Reweight(views: seq<seq<Point>>) returns (k: nat)
      requires Valid() && n >= 1 && ViewsFit(views)
      modifies this, weights
      ensures Valid() && weights == old(weights)
      ensures k < n && k == ArgMax(old(Scores(views)))
      ensures weights[..] == Normalise(old(Scores(views)))
      ensures best == Particle(poses[k].x, poses[k].y, poses[k].theta, MaxWeight(old(Scores(views))))
    {
      var maxWeight;
      k, maxWeight := WeighParticles(views);
      var w := weights[..];
      best := Particle(poses[k].x, poses[k].y, poses[k].theta, maxWeight);
      assert weights[..] == w;
    }

    /**
     * update: reweight the particles against the map, then integrate the
     * scan into the map once, from the best particle's pose. A missing
     * observation changes nothing.
     */
    method Update(trig: Trig, scan: Option<seq<Point>>, views: seq<seq<Point>>)
      requires Valid()
      requires scan.Some? ==>
        n >= 1 && |scan.value| > 0 && IsViews(trig, scan.value, views) && ViewsFit(views)
      modifies this, weights, grid, grid.odds, grid.occupancy
      ensures Valid() && weights == old(weights)
      ensures scan.None? ==>
        && weights[..] == old(weights[..]) && best == old(best)
        && grid.robotCoord == old(grid.robotCoord)
        && unchanged(grid.odds) && unchanged(grid.occupancy)
      ensures scan.Some? ==>
        var scores := old(Scores(views));
        var k := ArgMax(scores);
        && weights[..] == Normalise(scores)
        && best == Particle(poses[k].x, poses[k].y, poses[k].theta, MaxWeight(scores))
        && grid.robotCoord == old(grid.robotCoord) + [grid.ToCell(Point(best.x, best.y))]
        && grid.ScanIntegrated(Point(best.x, best.y), WorldScan(trig, poses[k], scan.value))
    {
      if scan.Some? {
        UpdateWith(trig, scan.value, views);
      }
    }

    /** update with an observation present. */
    method UpdateWith(trig: Trig, scan: seq<Point>, views: seq<seq<Point>>)
      requires Valid()
      requires n >= 1 && |scan| > 0 && IsViews(trig, scan, views) && ViewsFit(views)
      modifies this, weights, grid, grid.odds, grid.occupancy
      ensures Valid() && weights == old(weights)
      ensures var scores := old(Scores(views));
        var k := ArgMax(scores);
        && weights[..] == Normalise(scores)
        && best == Particle(poses[k].x, poses[k].y, poses[k].theta, MaxWeight(scores))
        && grid.robotCoord == old(grid.robotCoord) + [grid.ToCell(Point(best.x, best.y))]
        && grid.ScanIntegrated(Point(best.x, best.y), WorldScan(trig, poses[k], scan))
    {
      var k := Reweight(views);
      // views[k] is the scan transformed with the best particle's angle and position
      grid.UpdateFree(Point(best.x, best.y), views[k]);
    }

    /**
     * resample: when the cumulative weight is positive, every row but the
     * last is replaced by the weight-sorted row at the first index whose
     * cumulative (unsorted) weight reaches that row's draw, and the weights
     * become uniform; otherwise nothing changes.
     */
    method Resample(order: seq<int>, draws: seq<real>)
      requires Valid() && n >= 1
      requires IsArgsort(order, weights[..])
      requires |draws| == n - 1
      requires CumSum(weights[..])[n - 1] > 0.0 ==>
        n >= 2 && forall i :: 0 <= i < n - 1 ==> draws[i] <= CumSum(weights[..])[n - 1]
      modifies this, poses
      ensures Valid()
      ensures old(CumSum(weights[..])[n - 1]) > 0.0 ==>
        && fresh(weights)
        && (forall i :: 0 <= i < n ==> weights[i] == 1.0 / n as real)
        && (forall i :: 0 <= i < n - 1 ==>
              poses[i] == old(poses[order[FirstAtLeast(CumSum(weights[..]), draws[i], 0)]]))
        && (forall i :: 0 <= i < n - 1 ==> exists m :: 0 <= m < n && poses[i] == old(poses[m]))
        && poses[n - 1] == old(poses[n - 1])
      ensures old(CumSum(weights[..])[n - 1]) <= 0.0 ==> weights == old(weights) && unchanged(poses)
      ensures best == old(best)
    {
      var cum := CumSum(weights[..]);
      if cum[n - 1] > 0.0 {
        var newPoses := Redraw(order, cum, draws);
        forall i | 0 <= i < n - 1 {
          poses[i] := newPoses[i];
        }
        weights := new real[n](i requires 0 <= i < n => 1.0 / n as real);
      }
    }

    /**
     * The draws of resample: for each draw, the weight-sorted pose row at
     * the first index whose cumulative weight reaches it.
     */
    method Redraw(order: seq<int>, cum: seq<real>, draws: seq<real>) returns (newPoses: seq<Pose>)
      requires poses.Length == n == |order| == |cum| && n >= 1 && |draws| == n - 1
      requires forall k :: 0 <= k < n ==> 0 <= order[k] < n
      requires forall i :: 0 <= i < n - 1 ==> draws[i] <= cum[n - 1]
      ensures |newPoses| == n - 1
      ensures forall i :: 0 <= i < n - 1 ==> newPoses[i] == poses[order[FirstAtLeast(cum, draws[i], 0)]]
    {
      var sorted := seq(n, k requires 0 <= k < n reads poses => poses[order[k]]);
      newPoses := [];
      for i := 0 to n - 1
        invariant |newPoses| == i
        invariant forall m :: 0 <= m < i ==> newPoses[m] == sorted[FirstAtLeast(cum, draws[m], 0)]
      {
        var j := FirstReaching(cum, draws[i]);
        newPoses := newPoses + [sorted[j]];
      }
    }
  }
}
