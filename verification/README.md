# Particle-filter SLAM core in Dafny

This project models the core of a 2-D particle-filter SLAM engine. Lidar
scans are traced into an occupancy grid, and a set of pose hypotheses
(particles) is moved by odometry, weighed against the grid, and resampled.
The model has three modules, one per source file:

- `SensorUtils` (`sensor_utils.dfy`): the ray tracer of
  `Sensors/sensor_utils.py`. `bresenham2D` becomes a closed-form integer
  rasterisation. `unique` is a lexicographic (y, x) sort followed by removal
  of adjacent repeats. `get_mapping` traces one ray per scan end point from
  a shared origin. `get_valid` is the lidar range gate `0.1 < r < 60`.
- `GridMap` (`map.dfy`): the `Map` class of `Map.py`. It holds the world-to-cell
  conversion `convert_to_map` with its int16 casts, and the log-odds buffer
  `odds`, clipped to [-6, 6]. It also holds the 0/1 buffer `map` (here
  `occupancy`), which `update_map` keeps equal to "log-odds >= 0". The
  scan integration `update_free` and the scan score `map_correlation`
  complete the class.
- `Filter` (`particle_filter.dfy`): the `ParticleFilter` class of
  `ParticleFilter.py`, covering `convert_to_world_frame`, the constructor,
  `initialise_map`, `predict`, `update` and `resample`.

The buffers that the source updates in place are Dafny arrays (`odds`,
`occupancy`, `poses`, `weights`). The methods that update them are proved
against pure specification functions (`Integrated`, `Scores`, `Normalise`,
`ArgMax`, `MaxWeight`, `CumSum`, `FirstAtLeast`), and lemmas prove what
those functions guarantee.

The source's external inputs are method parameters:

- trigonometry is a `Trig` value (cos and sin);
- the Gaussian noise rows of `predict` are passed in;
- the uniform draws of `resample` are passed in;
- the `np.argsort` permutation is passed in, constrained by `IsArgsort`;
- the scan as seen from each particle (its "view") is passed in,
  constrained by `IsViews` to equal `convert_to_world_frame` of that
  particle's pose.

The model follows the code where its behaviour is easy to mistake for
something more regular:

- The bounds mask keeps `1 < x < x_size` and `1 < y < y_size`. Cells with
  an x or y of 0 or 1 are excluded along with the out-of-range ones.
- An empty scan makes `get_mapping` fail; it is not skipped as an
  observation without information. `update` therefore requires a
  non-empty scan.
- `resample` changes nothing when the total weight is not positive.
- `resample` accumulates the weights in particle order, not in sorted
  order (see Findings).

## Model

| member | source | states |
|---|---|---|
| SensorUtils.Bresenham | Sensors/sensor_utils.py:20-59 | the ray has max(abs dx, abs dy) + 1 cells, starts at the start cell and ends at the end cell |
| SensorUtils.Minor | Sensors/sensor_utils.py:31-35 | after the steep swap the minor delta never exceeds the major delta |
| SensorUtils.OffsetClosedForm | Sensors/sensor_utils.py:37-58 | the cumulative sum of q after k steps equals ceil((k*minor - floor(major/2)) / major) |
| SensorUtils.Step | Sensors/sensor_utils.py:40 | one entry of q, 0 or 1; its meaning is stated by StepIsWrap |
| SensorUtils.Offset | Sensors/sensor_utils.py:47-58 | the cumulative sum of q after k steps, never more than k; OffsetClosedForm gives its closed form |
| SensorUtils.StepIsWrap | Sensors/sensor_utils.py:40 | q[k] = 1 exactly when the residue (floor(major/2) - k*minor) mod major wraps, i.e. the floor quotient drops by one |
| SensorUtils.OffsetFollowsIdealLine | Sensors/sensor_utils.py:37-58 | offset*major lies in [k*minor - floor(major/2), k*minor - floor(major/2) + major): each minor coordinate is the ideal line's value rounded to a cell |
| SensorUtils.OffsetFlat | Sensors/sensor_utils.py:37-38 | with a zero minor delta q is all zeros, so the minor coordinate never moves |
| SensorUtils.OffsetAtEnd | Sensors/sensor_utils.py:37-58 | after major steps the minor coordinate has moved by exactly the minor delta |
| SensorUtils.OffsetMonotone | Sensors/sensor_utils.py:40-58 | the cumulative minor offset never decreases along the ray |
| SensorUtils.BresenhamSteps | Sensors/sensor_utils.py:41-58 | each step moves the major coordinate by one toward the end and the minor coordinate by zero or one toward the end, on both the steep and the shallow branch and in every direction |
| SensorUtils.BresenhamConnected | Sensors/sensor_utils.py:20-59 | consecutive ray cells are distinct 8-neighbours |
| SensorUtils.BresenhamStraight | Sensors/sensor_utils.py:37-38 | a horizontal ray keeps y fixed and a vertical ray keeps x fixed |
| SensorUtils.BresenhamInBox | Sensors/sensor_utils.py:20-59 | every ray cell lies in the bounding box of the two end cells |
| SensorUtils.BresenhamHorizontalExample | Sensors/sensor_utils.py:20-59 | (0,0) to (5,0) gives the six cells (0,0) through (5,0) |
| SensorUtils.BresenhamVerticalExample | Sensors/sensor_utils.py:20-59 | (0,0) to (0,-3) walks downward through four cells |
| SensorUtils.Insert | Sensors/sensor_utils.py:12-13 | inserting a row adds exactly that row to the multiset of rows |
| SensorUtils.InsertSorted | Sensors/sensor_utils.py:12-13 | inserting into a (y, x)-sorted sequence keeps it sorted |
| SensorUtils.LexSort | Sensors/sensor_utils.py:12-13 | the lexsort result is a permutation of the rows, sorted by y, then x |
| SensorUtils.DropRepeats | Sensors/sensor_utils.py:14-17 | keeps row 0 and never lengthens the rows; DropRepeatsOfSorted states what it keeps on sorted input |
| SensorUtils.DropRepeatsOfSorted | Sensors/sensor_utils.py:14-17 | on sorted rows, keeping the first row and every row that differs from its predecessor yields a strictly sorted sequence with exactly the same rows, ending in the last row |
| SensorUtils.Unique | Sensors/sensor_utils.py:11-17 | unique returns each distinct input row exactly once, strictly ordered by (y, x) |
| SensorUtils.StrictlySortedDetermined | Sensors/sensor_utils.py:11-17 | two strictly sorted sequences with the same rows are equal, so unique's output is determined by its row set |
| SensorUtils.UniqueIgnoresOrder | Sensors/sensor_utils.py:11-17 | unique depends only on which rows occur, not on their order or repetition |
| SensorUtils.Ray | Sensors/sensor_utils.py:66 | each traced ray is non-empty, starts at the robot cell and ends at the end point |
| SensorUtils.FreeCells | Sensors/sensor_utils.py:65-72 | the free rows collected ray after ray; FreeCellsMembership characterises its cells |
| SensorUtils.FreeCellsMembership | Sensors/sensor_utils.py:65-72 | a cell is among the collected free rows iff some ray contains it before its last cell |
| SensorUtils.GetMapping | Sensors/sensor_utils.py:62-78 | the free cells are the deduplicated, (y, x)-sorted interiors of all rays; the block cells are the last cell of each ray, i.e. the end points themselves, in input order |
| SensorUtils.GetValid | Sensors/sensor_utils.py:81-85 | the kept angles and ranges have equal length, at most the input length, and every kept range is inside (0.1, 60) |
| SensorUtils.ValidIndices | Sensors/sensor_utils.py:82 | the mask selects, in ascending order, exactly the indices whose range passes the gate |
| SensorUtils.GetValidSelects | Sensors/sensor_utils.py:81-85 | get_valid equals boolean-mask selection of both arrays with the same mask, so angle/range pairing and order survive |
| GridMap.Ceil | Map.py:108-109 | np.ceil: the smallest integer not below its argument |
| GridMap.GridSize | Map.py:18-19 | the cell count along an axis is just large enough: the upper bound lies in cell size - 2, so every coordinate up to it has a cell |
| GridMap.DefaultGridSize | Map.py:12-19 | the default bounds give a 751 x 751 grid |
| GridMap.ToGrid | Map.py:108-109 | a coordinate v maps to the cell k with lo + 4k < v <= lo + 4(k+1) |
| GridMap.ToGridExact | Map.py:108-109 | that half-open interval determines the cell uniquely (both directions) |
| GridMap.ToGridExamples | Map.py:108-109 | with x_min = -1000, x = -1000 lies in cell -1 and x = -996 in cell 0 |
| GridMap.Clip | Map.py:7-8 | np.clip lands in [-6, 6] and leaves values already inside unchanged |
| GridMap.Flag | Map.py:69 | the flag of a log-odds value, 0 when negative and 1 otherwise; Map.Valid and UpdateMap keep the occupancy buffer equal to it |
| GridMap.Integrated | Map.py:44-58 | a cell's log-odds after one scan: raised and clipped if free, then lowered and clipped if an end cell; IntegratedOneStep bounds it |
| GridMap.IntegratedOneStep | Map.py:44-58 | one scan moves a cell's log-odds by at most one step of log 4 up (free) or down (end), stays in [-6, 6], and leaves cells that are neither free nor end unchanged |
| GridMap.Map.constructor | Map.py:12-22 | the grid sizes follow ceil((max - min)/4 + 1), all log-odds are 0, every cell is flagged occupied, no robot cells are recorded, and the map invariant holds |
| GridMap.Map.Masked | Map.py:42 | the bounds mask keeps exactly the cells with 1 < x < x_size and 1 < y < y_size |
| GridMap.Map.ConvertToMap | Map.py:101-110 | one cell per point |
| GridMap.Map.ConvertToMapCell | Map.py:101-110 | each point lies in the half-open 4 x 4 square of its cell |
| GridMap.Map.AddLogOdds | Map.py:45-47 | every listed cell gets clip(old + delta) computed from the buffer before any write, even when listed twice; all other cells are unchanged |
| GridMap.Map.UpdateMap | Map.py:61-70 | exactly the listed cells get their flag recomputed from their current log-odds; all other flags keep their old value |
| GridMap.Map.Integrate | Map.py:44-50 | after one masked log-odds update and flag refresh, the map invariant (log-odds clipped, flag = log-odds >= 0) holds again |
| GridMap.Map.UpdateFree | Map.py:25-59 | the robot cell is appended to the trajectory, the map invariant is preserved, and every cell's new log-odds is the old one raised once if it is an in-bounds free cell of some ray and lowered once if it is an in-bounds end cell |
| GridMap.Map.CountOccupied | Map.py:98 | the sum of flags is at most the number of cells; it is 0 iff every listed cell has negative log-odds, and it equals the count iff none has |
| GridMap.Map.CountOccupiedAppend | Map.py:98 | the occupied count of a concatenation is the sum of the counts |
| GridMap.Map.Correlation | Map.py:89-99 | the correlation never exceeds the number of scan points |
| GridMap.Map.CorrelationZero | Map.py:89-99 | the correlation is 0 iff every in-bounds point lands on a cell with negative log-odds |
| GridMap.Map.CorrelationIsMaskedCount | Map.py:95-98 | the per-point count equals the source's order of work: convert, mask, then sum the flags |
| Filter.ToWorldFrame | ParticleFilter.py:6-9 | one world point per scan point |
| Filter.WorldScanAtOrigin | ParticleFilter.py:41-52 | with cos 0 = 1 and sin 0 = 0 the scan seen from the zero pose is the scan itself, so InitialiseMap integrates the raw scan |
| Filter.WorldFrameOrigin | ParticleFilter.py:6-9 | the robot-frame origin maps to the position |
| Filter.WorldFrameRigid | ParticleFilter.py:6-9 | when cos^2 + sin^2 = 1 the transform preserves squared distances between points |
| Filter.Moved | ParticleFilter.py:69-71 | the odometry step of one row along its old heading; MovedDistance states its geometry |
| Filter.MovedDistance | ParticleFilter.py:69-71 | when cos^2 + sin^2 = 1 the position moves by exactly the travelled distance and the heading turns by exactly the odometry turn |
| Filter.Perturbed | ParticleFilter.py:73 | one noise row added component by component; Predict's contract uses it for every row but the last |
| Filter.UniformSumsToOne | ParticleFilter.py:39 | the uniform weights 1/N sum to 1 |
| Filter.SumPrefixBounded | ParticleFilter.py:100 | a sum of non-negative weights is non-negative and bounds every prefix sum |
| Filter.SumScaled | ParticleFilter.py:100 | dividing every weight by c divides the sum by c |
| Filter.SumPermutation | ParticleFilter.py:100 | the sum does not depend on the order of the weights |
| Filter.CumSum | ParticleFilter.py:119 | one cumulative sum per weight; CumSumLast and CumSumMonotone state its total and its order |
| Filter.CumSumLast | ParticleFilter.py:119-120 | particle_cum[-1] is the total weight |
| Filter.CumSumMonotone | ParticleFilter.py:119 | over non-negative weights the cumulative sums are non-negative and never decrease |
| Filter.Normalise | ParticleFilter.py:100 | one normalised weight per score; NormaliseIsSubDistribution and ArgMaxOfNormalised state what normalising keeps |
| Filter.NormaliseIsSubDistribution | ParticleFilter.py:100 | normalised non-negative weights are non-negative and sum to strictly less than 1 |
| Filter.ArgMax | ParticleFilter.py:101 | np.argmax: an index of a largest value, and no earlier index holds that value |
| Filter.ArgMaxUnique | ParticleFilter.py:101 | those two properties determine the argmax |
| Filter.ArgMaxOfNormalised | ParticleFilter.py:100-101 | normalising the weights does not change which particle is the best |
| Filter.MaxWeight | ParticleFilter.py:92-97 | max_weight is at least 0 and at least the last score scanned |
| Filter.MaxWeightStep | ParticleFilter.py:96-97 | scanning one more score raises max_weight to it exactly when it is larger |
| Filter.MaxWeightIsMax | ParticleFilter.py:92-97 | max_weight is at least 0, bounds every score, and is 0 or one of the scores |
| Filter.MaxWeightAtArgMax | ParticleFilter.py:92-102 | over non-negative scores, max_weight is the raw score of the argmax particle |
| Filter.FirstAtLeast | ParticleFilter.py:124-126 | the first index at which the cumulative sum reaches the draw |
| Filter.FirstReaching | ParticleFilter.py:124-126 | the while loop stops at exactly that first index, which is in range whenever the draw is at most the total |
| Filter.UniformDrawCanOverrun | ParticleFilter.py:119-126 | with two particles scored 1 and 0, the one draw 0.999995 lies in [0, 1) but above both cumulative sums of the normalised weights |
| Filter.SortedRowsUseUnsortedSums | ParticleFilter.py:116-127 | with weights [0.9, 0.09] and their argsort [1, 0], every draw in (0, 0.9] picks the lighter particle 1, because the sums of the unsorted weights index the sorted rows |
| Filter.ReorderedPermutes | ParticleFilter.py:116-120 | the weights listed in argsort order are a permutation of the weights with the same total, so the sorted and unsorted cumulative sums end at the same value |
| Filter.ProportionalPick | ParticleFilter.py:116-127 | the corrected pick returns one of the particles of the argsort |
| Filter.ProportionalPickInterval | ParticleFilter.py:116-127 | the corrected pick takes the particle whose own slice of the sorted cumulative weight, of length equal to its weight, contains the draw |
| Filter.InsertIndex | ParticleFilter.py:116 | insertion keeps indices in range and adds one |
| Filter.InsertIndexPermutes | ParticleFilter.py:116 | insertion adds exactly the new index to the multiset |
| Filter.InsertIndexSorted | ParticleFilter.py:116 | insertion keeps the indices ordered by weight |
| Filter.ArgSortUpTo | ParticleFilter.py:116 | m in-range indices |
| Filter.ArgSortUpToPermutes | ParticleFilter.py:116 | the insertion argsort is a permutation of 0..m-1 |
| Filter.ArgSortUpToSorted | ParticleFilter.py:116 | the insertion argsort lists the weights in non-decreasing order |
| Filter.ArgsortExists | ParticleFilter.py:116 | every weight vector has an argsort, so the order precondition of Resample can be met |
| Filter.ParticleFilter.constructor | ParticleFilter.py:25-39 | a default map with bounds x in [-1000, 2000] and y in [-2000, 1000], 751 x 751 cells, all log-odds 0, every cell flagged occupied, no robot cells, the origin convertible to a cell; N zero poses, weights 1/N and a zero best particle |
| Filter.ParticleFilter.Score | ParticleFilter.py:95 | a particle's score is the map correlation of its view, between 0 and the number of scan points |
| Filter.ParticleFilter.Scores | ParticleFilter.py:93-95 | one non-negative score per particle, in particle order |
| Filter.ParticleFilter.ScoreParticles | ParticleFilter.py:92-97 | after the loop, weight i is particle i's score and max_weight is the running maximum of the scores |
| Filter.ParticleFilter.NormaliseWeights | ParticleFilter.py:100 | the weights become the scores divided by their sum plus EPSILON, non-negativity preserved |
| Filter.ParticleFilter.InitialiseMap | ParticleFilter.py:41-52 | the best particle is reset, and the first scan, seen from the zero pose, is integrated into the map from the origin (by WorldScanAtOrigin, the raw scan) |
| Filter.ParticleFilter.Predict | ParticleFilter.py:54-73 | every row moves by the odometry along its old heading; every row but the last then gets its own noise row |
| Filter.ParticleFilter.WeighParticles | ParticleFilter.py:92-101 | the weights become the normalised scores; the best index is the first maximum of the raw scores, and max_weight is its score |
| Filter.ParticleFilter.Reweight | ParticleFilter.py:92-102 | the best particle takes the pose of the first highest-scoring particle and the largest raw score as its weight |
| Filter.ParticleFilter.Update | ParticleFilter.py:75-108 | a missing observation changes nothing; otherwise the particles are reweighted and the scan, seen from the best particle's pose, is integrated into the map once |
| Filter.ParticleFilter.UpdateWith | ParticleFilter.py:87-108 | reweighting followed by one scan integration from the best particle, with the scan transformed by that particle's pose |
| Filter.ParticleFilter.Resample | ParticleFilter.py:110-129 | if the total weight is positive, every row but the last becomes the sorted row picked by its draw (always one of the old rows) and the weights become 1/N; otherwise poses and weights are unchanged; the last row and the best particle never change |
| Filter.ParticleFilter.Redraw | ParticleFilter.py:116-127 | draw i selects the weight-sorted row at the first index whose cumulative weight reaches it |

## Left out

- Trigonometry, `np.random.normal` (the noise rows of `predict`) and
  `np.random.uniform` (the draws of `resample`) are parameters, so the
  model makes no statement about their distributions.
- Floating point is modelled as real arithmetic. `np.log(4)` is the
  constant `LOG_ODDS_STEP`, the double the source computes. Rounding of
  the weight division and of the clip is not modelled.
- SensorUtils.Bresenham: takes integer cells. The `int(round(...))` of
  float inputs is not modelled, because every caller passes cells that
  `convert_to_map` already made integer.
- SensorUtils.GetMapping: requires at least one end point. With none, the
  source calls `.astype` on `None` and fails. For the same reason
  `GridMap.Map.UpdateFree`, `Filter.ParticleFilter.InitialiseMap` and
  `Filter.ParticleFilter.Update` require a non-empty scan.
- The int16 casts of `get_mapping` outputs are not modelled. Every traced
  cell lies in the bounding box of two int16 cells (`BresenhamInBox`), so
  the casts cannot wrap.
- GridMap.ToGrid: requires the int16 cast of `ceil((v - min)/4)` to be
  exact and the following `- 1` not to wrap (`CoordFits`). Points outside
  that range, which the source would wrap silently, are not modelled.
- GridMap.Map.UpdateFree: `get_mapping` returns a tuple (free cells,
  end cells), and Map.py:41 indexes that tuple with `free_pixels[:, 0]`,
  which raises `TypeError`. As written, `update_free`, and with it
  `initialise_map` and `update`, never completes. The model integrates
  the free cells, which is what the following lines evidently intend.
  The `None` check at Map.py:40 can never fail and is not modelled.
- `convert_angle_coord`, `Map.display`, `Map.show_map`,
  `Map.build_texture` and `ParticleFilter.texture_map`, along with the
  `texture_map` buffer: rendering and camera texture, outside the SLAM
  core.
- The dead-reckoning branch of the `ParticleFilter` constructor, `predict`
  and `update` (`enable_dead_reckoning`) is not modelled. It calls
  `Map.update_robot_pose`, which the map does not define.
- The `print` of `update` for a missing observation is not modelled.
- Filter.ParticleFilter.Update: takes the per-particle views as a
  parameter. `IsViews` ties each view to `convert_to_world_frame` of its
  particle's pose, instead of the method computing the transforms.
  `ViewsFit` requires every transformed point and position to fit the
  int16 grid conversion.
- Filter.ParticleFilter.Predict: requires at least one particle.
  `add_noise(-1, ...)` fails for an empty filter. `Update` and `Resample`
  also require one: `np.argmax` and `particle_cum[-1]` fail on empty
  arrays.
- Filter.ParticleFilter.Resample: requires every draw to be at most the
  total weight (see Findings). When the total is positive it also
  requires at least two particles: with one particle, assigning an empty
  array to `particle_poses[:-1]` fails. The argsort order is a parameter
  constrained to be a permutation sorting the weights. NumPy's unstable
  tie order is therefore covered but not pinned down.
- Filter.ParticleFilter.Resample: keeps the source's lookup of the draw
  in the unsorted cumulative sums, so that it describes the program as it
  behaves. The corrected lookup is `ProportionalPick` (see Findings).
- Filter.ParticleFilter.Reweight: the best particle stores a copy of its
  position. In the source, `best_particle_pose[:2]` is a NumPy view into
  `particle_poses`, so a later in-place `predict` or `resample` also moves
  the best particle's position. Only `texture_map`, which is outside this
  model, reads it before it is reassigned.
- `Map.robot_coord` is recorded but never read by the core.
- The source's `max_weight` is an integer 0 until the first positive
  score. The model uses the real 0.

## Findings

| source | as written | input that shows it | evidently intended | confidence | as-written member | corrected member |
|---|---|---|---|---|---|---|
| ParticleFilter.py:119-126 | each draw `n_` comes from U[0, 1), but `update` normalised the weights by their sum plus EPSILON, so `particle_cum[-1] < 1` and `while n_ > particle_cum[j]` can run `j` past the last index | two particles scored 1.0 and 0.0 (both cumulative sums 1/1.00001) and the one draw 0.999995 | every draw finds an index: draws bounded by `particle_cum[-1]` (or `j` clamped to the last index) | high, not executed | Filter.UniformDrawCanOverrun | Filter.FirstReaching |
| ParticleFilter.py:116-127 | the draw is looked up in `np.cumsum` of the unsorted weights, but the row is taken from `particle_poses[np.argsort(weights)]`, so a particle is not picked in proportion to its weight | weights [0.9, 0.09]: every draw in (0, 0.9] picks particle 1 (weight 0.09) | look the draw up in the cumulative sums of the sorted weights, so each particle's slice has its weight as length | high, not executed | Filter.SortedRowsUseUnsortedSums | Filter.ProportionalPickInterval |
