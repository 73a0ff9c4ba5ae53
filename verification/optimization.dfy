/**
 * The placement optimiser's own logic: the coarse grid-coverage score, the
 * pairwise separation penalty, the objective built from them, the bounds
 * handed to the solver, and the write-back of the solver's flat result
 * vector into the component list.
 *
 * The solver itself (scipy's SLSQP) is a parameter: any function from an
 * objective, a start vector and bounds to a vector of the same length.
 */
module Optimization {
  import opened VlcTypes

  /** Samples per axis of the coarse coverage grid (`np.linspace(..., 100)`). */
  const GridSize: nat := 100
  /** A grid point is covered when some location is closer than 3.0 m, i.e. squared distance < 9. */
  const CoverageRadiusSquared: real := 9.0
  /** Pairs closer than this are penalised. */
  const MinSeparation: real := 2.0

  // ---------------------------------------------------------------------
  // Coarse coverage score

  /** Grid point (row i, column j) of `np.meshgrid(np.linspace(0, W, 100), np.linspace(0, H, 100))`. */
  function LinPoint(fp: FloorPlan, i: nat, j: nat): Point
  {
    Point(j as real * fp.width / (GridSize - 1) as real, i as real * fp.height / (GridSize - 1) as real)
  }

  predicate Near(fp: FloorPlan, loc: Point, i: nat, j: nat)
  {
    SquaredDistance(LinPoint(fp, i, j), loc) < CoverageRadiusSquared
  }

  /** The value the `coverage` array holds at (i, j) after adding the masks of `locs`. */
  function NearCount(fp: FloorPlan, locs: seq<Point>, i: nat, j: nat): nat
  {
    if locs == [] then 0
    else NearCount(fp, locs[..|locs| - 1], i, j) + (if Near(fp, locs[|locs| - 1], i, j) then 1 else 0)
  }

  /** Grid point (i, j) lies within 3.0 m of at least one location. */
  predicate Covered(fp: FloorPlan, locs: seq<Point>, i: nat, j: nat)
  {
    exists loc :: loc in locs && Near(fp, loc, i, j)
  }

  lemma {:induction false} NearCountPositive(fp: FloorPlan, locs: seq<Point>, i: nat, j: nat)
    ensures NearCount(fp, locs, i, j) > 0 <==> Covered(fp, locs, i, j)
  {
    if locs != [] {
      var init := locs[..|locs| - 1];
      var last := locs[|locs| - 1];
      NearCountPositive(fp, init, i, j);
      assert locs == init + [last];
      if Covered(fp, init, i, j) {
        var loc :| loc in init && Near(fp, loc, i, j);
        assert loc in locs;
      }
      if Covered(fp, locs, i, j) && !Near(fp, last, i, j) {
        var loc :| loc in locs && Near(fp, loc, i, j);
        assert loc in init;
      }
    }
  }

  /** Number of covered points among columns 0..j-1 of row i. */
  function CoveredInRow(fp: FloorPlan, locs: seq<Point>, i: nat, j: nat): (c: nat)
    ensures c <= j
  {
    if j == 0 then 0
    else CoveredInRow(fp, locs, i, j - 1) + (if Covered(fp, locs, i, j - 1) then 1 else 0)
  }

  /** Number of covered points among rows 0..i-1. */
  function CoveredRows(fp: FloorPlan, locs: seq<Point>, i: nat): (c: nat)
    ensures c <= 100 * i
  {
    if i == 0 then 0
    else CoveredRows(fp, locs, i - 1) + CoveredInRow(fp, locs, i - 1, GridSize)
  }

  /** The fraction of the 100 x 100 grid covered by `locs`. */
  function CoverageFraction(fp: FloorPlan, locs: seq<Point>): (r: real)
    ensures 0.0 <= r <= 1.0
  {
    CoveredRows(fp, locs, GridSize) as real / (GridSize * GridSize) as real
  }

  /**
   * `calculate_coverage_score`: adds each location's "closer than 3.0 m"
   * mask into a 100 x 100 array, then returns the mean of `coverage > 0`.
   */
  method CalculateCoverageScore(fp: FloorPlan, locations: seq<Point>) returns (score: real)
    ensures score == CoverageFraction(fp, locations)
  {
    var coverage := new real[GridSize, GridSize]((i, j) => 0.0);
    var l := 0;
    while l < |locations|
      invariant 0 <= l <= |locations|
      invariant forall a, b :: 0 <= a < GridSize && 0 <= b < GridSize ==>
        coverage[a, b] == NearCount(fp, locations[..l], a, b) as real
    {
      var loc := locations[l];
      assert locations[..l + 1] == locations[..l] + [loc];
      var i := 0;
      while i < GridSize
        invariant 0 <= i <= GridSize
        invariant forall a, b :: 0 <= a < GridSize && 0 <= b < GridSize ==>
          coverage[a, b] == NearCount(fp, locations[..if a < i then l + 1 else l], a, b) as real
      {
        var j := 0;
        while j < GridSize
          invariant 0 <= j <= GridSize
          invariant forall a, b :: 0 <= a < GridSize && 0 <= b < GridSize ==>
            coverage[a, b] == NearCount(fp, locations[..if a < i || (a == i && b < j) then l + 1 else l], a, b) as real
        {
          var mask := if SquaredDistance(LinPoint(fp, i, j), loc) < CoverageRadiusSquared then 1.0 else 0.0;
          coverage[i, j] := coverage[i, j] + mask;
          j := j + 1;
        }
        i := i + 1;
      }
      l := l + 1;
    }
    assert locations[..l] == locations;
    var count := 0;
    var i := 0;
    while i < GridSize
      invariant 0 <= i <= GridSize
      invariant count == CoveredRows(fp, locations, i)
      invariant forall a, b :: 0 <= a < GridSize && 0 <= b < GridSize ==>
        coverage[a, b] == NearCount(fp, locations, a, b) as real
    {
      var j := 0;
      while j < GridSize
        invariant 0 <= j <= GridSize
        invariant count == CoveredRows(fp, locations, i) + CoveredInRow(fp, locations, i, j)
        invariant forall a, b :: 0 <= a < GridSize && 0 <= b < GridSize ==>
          coverage[a, b] == NearCount(fp, locations, a, b) as real
      {
        NearCountPositive(fp, locations, i, j);
        if coverage[i, j] > 0.0 {
          count := count + 1;
        }
        j := j + 1;
      }
      i := i + 1;
    }
    score := count as real / (GridSize * GridSize) as real;
  }

  /**
   * The covered count only grows when the locations grow: every location of
   * `a` also being in `b` means every point covered by `a` is covered by `b`.
   */
  lemma {:induction false} CoveredRowsMonotone(fp: FloorPlan, a: seq<Point>, b: seq<Point>, i: nat)
    requires forall loc :: loc in a ==> loc in b
    ensures CoveredRows(fp, a, i) <= CoveredRows(fp, b, i)
  {
    if i > 0 {
      CoveredRowsMonotone(fp, a, b, i - 1);
      CoveredInRowMonotone(fp, a, b, i - 1, GridSize);
    }
  }

  lemma {:induction false} CoveredInRowMonotone(fp: FloorPlan, a: seq<Point>, b: seq<Point>, i: nat, j: nat)
    requires forall loc :: loc in a ==> loc in b
    ensures CoveredInRow(fp, a, i, j) <= CoveredInRow(fp, b, i, j)
  {
    if j > 0 {
      CoveredInRowMonotone(fp, a, b, i, j - 1);
      if Covered(fp, a, i, j - 1) {
        var loc :| loc in a && Near(fp, loc, i, j - 1);
        assert loc in b;
      }
    }
  }

  /** Adding a location never lowers the score. */
  lemma CoverageScoreGrows(fp: FloorPlan, locs: seq<Point>, extra: Point)
    ensures CoverageFraction(fp, locs) <= CoverageFraction(fp, locs + [extra])
  {
    CoveredRowsMonotone(fp, locs, locs + [extra], GridSize);
  }

  /** The score depends only on which locations there are: reordering (or repeating) them changes nothing. */
  lemma CoverageScoreOrderFree(fp: FloorPlan, a: seq<Point>, b: seq<Point>)
    requires forall loc :: loc in a <==> loc in b
    ensures CoverageFraction(fp, a) == CoverageFraction(fp, b)
  {
    CoveredRowsMonotone(fp, a, b, GridSize);
    CoveredRowsMonotone(fp, b, a, GridSize);
  }

  /** No location, no coverage. */
  lemma {:induction false} CoverageScoreEmpty(fp: FloorPlan)
    ensures CoverageFraction(fp, []) == 0.0
  {
    NoLocationsNoRows(fp, GridSize);
  }

  lemma {:induction false} NoLocationsNoRows(fp: FloorPlan, i: nat)
    ensures CoveredRows(fp, [], i) == 0
  {
    if i > 0 {
      NoLocationsNoRows(fp, i - 1);
      NoLocationsNoRow(fp, i - 1, GridSize);
    }
  }

  lemma {:induction false} NoLocationsNoRow(fp: FloorPlan, i: nat, j: nat)
    ensures CoveredInRow(fp, [], i, j) == 0
  {
    if j > 0 {
      NoLocationsNoRow(fp, i, j - 1);
    }
  }

  /** The score is 1 exactly when every grid point is covered. */
  lemma FullCoverage(fp: FloorPlan, locs: seq<Point>)
    ensures CoverageFraction(fp, locs) == 1.0 <==>
      forall i, j :: 0 <= i < GridSize && 0 <= j < GridSize ==> Covered(fp, locs, i, j)
  {
    FullRows(fp, locs, GridSize);
  }

  lemma {:induction false} FullRows(fp: FloorPlan, locs: seq<Point>, i: nat)
    ensures CoveredRows(fp, locs, i) == 100 * i <==>
      forall a, b :: 0 <= a < i && 0 <= b < GridSize ==> Covered(fp, locs, a, b)
  {
    if i > 0 {
      FullRows(fp, locs, i - 1);
      FullRow(fp, locs, i - 1, GridSize);
    }
  }

  lemma {:induction false} FullRow(fp: FloorPlan, locs: seq<Point>, i: nat, j: nat)
    ensures CoveredInRow(fp, locs, i, j) == j <==>
      forall b :: 0 <= b < j ==> Covered(fp, locs, i, b)
  {
    if j > 0 {
      FullRow(fp, locs, i, j - 1);
    }
  }

  // ---------------------------------------------------------------------
  // Separation penalty

  /** One pair's term: (2.0 - d)^2 when the pair is closer than 2.0, else nothing. */
  function PairTerm(n: Numerics, a: Point, b: Point): (r: real)
    ensures r >= 0.0
    ensures r == 0.0 <==> Dist(n, a, b) >= MinSeparation
  {
    var d := Dist(n, a, b);
    if d < MinSeparation then
      ProductPositive(MinSeparation - d, MinSeparation - d);
      Product(MinSeparation - d, MinSeparation - d)
    else 0.0
  }

  /** Sum of the terms of pairs (i, k) with i < k < j. */
  function RowPenalty(n: Numerics, locs: seq<Point>, i: nat, j: nat): (r: real)
    requires i < j <= |locs|
    ensures r >= 0.0
    decreases j
  {
    if j == i + 1 then 0.0
    else RowPenalty(n, locs, i, j - 1) + PairTerm(n, locs[i], locs[j - 1])
  }

  /** Sum of the terms of all pairs whose first index is below `i`. */
  function PenaltyRows(n: Numerics, locs: seq<Point>, i: nat): (r: real)
    requires i <= |locs|
    ensures r >= 0.0
  {
    if i == 0 then 0.0
    else PenaltyRows(n, locs, i - 1) + RowPenalty(n, locs, i - 1, |locs|)
  }

  /** The penalty over every unordered pair i < j, each counted once. */
  function Penalty(n: Numerics, locs: seq<Point>): (r: real)
    ensures r >= 0.0
  {
    if |locs| < 2 then 0.0 else PenaltyRows(n, locs, |locs|)
  }

  /** Every pair of distinct indices is at least 2.0 apart. */
  predicate Separated(n: Numerics, locs: seq<Point>)
  {
    forall i, j :: 0 <= i < j < |locs| ==> Dist(n, locs[i], locs[j]) >= MinSeparation
  }

  /**
   * `calculate_interference_penalty`: 0 for fewer than two locations,
   * otherwise the nested i < j loop accumulating (2.0 - d)^2 for close pairs.
   */
  method CalculateInterferencePenalty(n: Numerics, locations: seq<Point>) returns (penalty: real)
    ensures penalty == Penalty(n, locations)
  {
    if |locations| < 2 {
      return 0.0;
    }
    penalty := 0.0;
    var i := 0;
    while i < |locations|
      invariant 0 <= i <= |locations|
      invariant penalty == PenaltyRows(n, locations, i)
    {
      var j := i + 1;
      while j < |locations|
        invariant i + 1 <= j <= |locations|
        invariant penalty == PenaltyRows(n, locations, i) + RowPenalty(n, locations, i, j)
      {
        var distance := Dist(n, locations[i], locations[j]);
        if distance < MinSeparation {
          penalty := penalty + Product(MinSeparation - distance, MinSeparation - distance);
        }
        j := j + 1;
      }
      i := i + 1;
    }
  }

  /** The penalty is never negative, and it is zero exactly when all pairs are at least 2.0 apart. */
  lemma PenaltyZeroIffSeparated(n: Numerics, locs: seq<Point>)
    ensures Penalty(n, locs) >= 0.0
    ensures Penalty(n, locs) == 0.0 <==> Separated(n, locs)
  {
    if |locs| >= 2 {
      PenaltyRowsZero(n, locs, |locs|);
      if Separated(n, locs) {
        forall a | 0 <= a < |locs| ensures RowSeparated(n, locs, a, |locs|) {
        }
      } else {
        var a, b :| 0 <= a < b < |locs| && Dist(n, locs[a], locs[b]) < MinSeparation;
        assert !RowSeparated(n, locs, a, |locs|);
      }
    }
  }

  /** Every location after `i` and before `j` is at least 2.0 away from location `i`. */
  predicate RowSeparated(n: Numerics, locs: seq<Point>, i: nat, j: nat)
    requires i < j <= |locs|
  {
    forall b :: i < b < j ==> Dist(n, locs[i], locs[b]) >= MinSeparation
  }

  lemma {:induction false} PenaltyRowsZero(n: Numerics, locs: seq<Point>, i: nat)
    requires i <= |locs|
    ensures PenaltyRows(n, locs, i) == 0.0 <==>
      forall a :: 0 <= a < i ==> RowSeparated(n, locs, a, |locs|)
  {
    if i > 0 {
      PenaltyRowsZero(n, locs, i - 1);
      RowPenaltyZero(n, locs, i - 1, |locs|);
      var before := PenaltyRows(n, locs, i - 1);
      var row := RowPenalty(n, locs, i - 1, |locs|);
      assert PenaltyRows(n, locs, i) == before + row;
      assert before >= 0.0 && row >= 0.0;
    }
  }

  lemma {:induction false} RowPenaltyZero(n: Numerics, locs: seq<Point>, i: nat, j: nat)
    requires i < j <= |locs|
    ensures RowPenalty(n, locs, i, j) == 0.0 <==> RowSeparated(n, locs, i, j)
    decreases j
  {
    if j > i + 1 {
      RowPenaltyZero(n, locs, i, j - 1);
      var before := RowPenalty(n, locs, i, j - 1);
      var term := PairTerm(n, locs[i], locs[j - 1]);
      assert RowPenalty(n, locs, i, j) == before + term;
      assert before >= 0.0 && term >= 0.0;
    }
  }

  /** Fewer than two locations carry no penalty. */
  lemma PenaltyOfFewLocations(n: Numerics, locs: seq<Point>)
    requires |locs| < 2
    ensures Penalty(n, locs) == 0.0 && Separated(n, locs)
  {
  }

  // ---------------------------------------------------------------------
  // Flat vectors, bounds and the objective

  /** `np.array([c['position'] for c in components]).flatten()` on positions. */
  function Flatten(ps: seq<Point>): (v: seq<real>)
    ensures |v| == 2 * |ps|
  {
    if ps == [] then [] else [ps[0].x, ps[0].y] + Flatten(ps[1..])
  }

  /** `positions.reshape(-1, 2)`: consecutive (x, y) pairs. */
  function Reshape(v: seq<real>): (ps: seq<Point>)
    requires |v| % 2 == 0
    ensures 2 * |ps| == |v|
    decreases |v|
  {
    if v == [] then [] else [Point(v[0], v[1])] + Reshape(v[2..])
  }

  /** Pair k of the flat vector is point k. */
  lemma {:induction false} FlattenAt(ps: seq<Point>, k: nat)
    requires k < |ps|
    ensures Flatten(ps)[2 * k] == ps[k].x && Flatten(ps)[2 * k + 1] == ps[k].y
  {
    if k > 0 {
      FlattenAt(ps[1..], k - 1);
    }
  }

  /** Point k of the reshaped vector is made of coordinates 2k and 2k+1. */
  lemma {:induction false} ReshapeAt(v: seq<real>, k: nat)
    requires |v| % 2 == 0 && 2 * k + 1 < |v|
    ensures Reshape(v)[k] == Point(v[2 * k], v[2 * k + 1])
    decreases |v|
  {
    if k > 0 {
      ReshapeAt(v[2..], k - 1);
    }
  }

  /** Reshaping undoes flattening. */
  lemma {:induction false} ReshapeFlatten(ps: seq<Point>)
    ensures Reshape(Flatten(ps)) == ps
  {
    if ps != [] {
      ReshapeFlatten(ps[1..]);
      var f := Flatten(ps);
      assert f[2..] == Flatten(ps[1..]);
      assert Reshape(f) == [Point(f[0], f[1])] + Reshape(f[2..]);
    }
  }

  /** Flattening undoes reshaping. */
  lemma {:induction false} FlattenReshape(v: seq<real>)
    requires |v| % 2 == 0
    ensures Flatten(Reshape(v)) == v
    decreases |v|
  {
    if v != [] {
      FlattenReshape(v[2..]);
      var r := Reshape(v);
      assert r[1..] == Reshape(v[2..]);
      assert Flatten(r) == [v[0], v[1]] + v[2..];
    }
  }

  /** Even and odd positions of a flat vector, in terms of the pair they belong to. */
  lemma Parity(i: nat)
    ensures i % 2 == 0 ==> i == 2 * (i / 2)
    ensures i % 2 == 1 ==> i == 2 * (i / 2) + 1
  {
  }

  lemma PairParity(k: nat)
    ensures (2 * k) % 2 == 0 && (2 * k + 1) % 2 == 1
  {
  }

  datatype Interval = Interval(lo: real, hi: real)

  /** The solver's bounds: (0, width) for x coordinates (even indices), (0, height) for y (odd). */
  function Bounds(fp: FloorPlan, count: nat): (b: seq<Interval>)
    ensures |b| == count
  {
    seq(count, i => if i % 2 == 0 then Interval(0.0, fp.width) else Interval(0.0, fp.height))
  }

  predicate WithinBounds(v: seq<real>, b: seq<Interval>)
  {
    |v| == |b| && forall i :: 0 <= i < |v| ==> b[i].lo <= v[i] <= b[i].hi
  }

  predicate OnFloor(fp: FloorPlan, p: Point)
  {
    0.0 <= p.x <= fp.width && 0.0 <= p.y <= fp.height
  }

  /** A vector respects the bounds exactly when every (x, y) pair it encodes lies on the floor. */
  lemma BoundsMeanOnFloor(fp: FloorPlan, v: seq<real>)
    requires |v| % 2 == 0
    ensures WithinBounds(v, Bounds(fp, |v|)) <==>
      forall k :: 0 <= k < |Reshape(v)| ==> OnFloor(fp, Reshape(v)[k])
  {
    var ps := Reshape(v);
    if WithinBounds(v, Bounds(fp, |v|)) {
      forall k | 0 <= k < |ps| ensures OnFloor(fp, ps[k]) {
        BoundsAtPair(fp, v, k);
      }
    } else if forall k :: 0 <= k < |ps| ==> OnFloor(fp, ps[k]) {
      OnFloorWithinBounds(fp, v);
    }
  }

  lemma BoundsAtPair(fp: FloorPlan, v: seq<real>, k: nat)
    requires |v| % 2 == 0 && 2 * k + 1 < |v| && WithinBounds(v, Bounds(fp, |v|))
    ensures OnFloor(fp, Reshape(v)[k])
  {
    var b := Bounds(fp, |v|);
    ReshapeAt(v, k);
    PairParity(k);
    assert b[2 * k].lo <= v[2 * k] <= b[2 * k].hi;
    assert b[2 * k + 1].lo <= v[2 * k + 1] <= b[2 * k + 1].hi;
  }
  lemma OnFloorWithinBounds(fp: FloorPlan, v: seq<real>)
    requires |v| % 2 == 0
    requires forall k :: 0 <= k < |Reshape(v)| ==> OnFloor(fp, Reshape(v)[k])
    ensures WithinBounds(v, Bounds(fp, |v|))
  {
    var b := Bounds(fp, |v|);
    forall i | 0 <= i < |v| ensures b[i].lo <= v[i] <= b[i].hi {
      var k := i / 2;
      Parity(i);
      ReshapeAt(v, k);
      assert OnFloor(fp, Reshape(v)[k]);
    }
  }
  /**
   * `objective_function`: minus the coverage score plus the separation
   * penalty of the reshaped vector; it never drops below -1.
   */
  function Objective(n: Numerics, fp: FloorPlan, v: seq<real>): (r: real)
    requires |v| % 2 == 0
    ensures r >= -1.0
  {
    var locations := Reshape(v);
    -CoverageFraction(fp, locations) + Penalty(n, locations)
  }

  /**
   * The objective reaches its lower bound -1 exactly when the locations
   * cover the whole coarse grid and no two are closer than 2.0.
   */
  lemma ObjectiveLowerBound(n: Numerics, fp: FloorPlan, v: seq<real>)
    requires |v| % 2 == 0
    ensures Objective(n, fp, v) == -1.0 <==>
      (forall i, j :: 0 <= i < GridSize && 0 <= j < GridSize ==> Covered(fp, Reshape(v), i, j))
      && Separated(n, Reshape(v))
  {
    PenaltyZeroIffSeparated(n, Reshape(v));
    FullCoverage(fp, Reshape(v));
  }

  /** The objective as the function value handed to the solver. */
  function ObjectiveOf(n: Numerics, fp: FloorPlan): seq<real> --> real
  {
    v requires |v| % 2 == 0 => Objective(n, fp, v)
  }

  // ---------------------------------------------------------------------
  // Write-back

  function Positions(cs: seq<Component>): (ps: seq<Point>)
    ensures |ps| == |cs|
  {
    seq(|cs|, i requires 0 <= i < |cs| => cs[i].position)
  }

  /** The flat start vector handed to the solver. */
  function InitialPositions(cs: seq<Component>): seq<real>
  {
    Flatten(Positions(cs))
  }

  /** Component i receives coordinates 2i and 2i+1 of `v`; nothing else changes. */
  function WithPositions(cs: seq<Component>, v: seq<real>): (r: seq<Component>)
    requires |v| == 2 * |cs|
    ensures |r| == |cs|
  {
    seq(|cs|, i requires 0 <= i < |cs| => Moved(cs[i], v, i))
  }

  /** Component `c`, stored at index `i`, moved to coordinates 2i and 2i+1 of `v`. */
  function Moved(c: Component, v: seq<real>, i: nat): Component
    requires 2 * i + 1 < |v|
  {
    c.(position := Point(v[2 * i], v[2 * i + 1]))
  }

  /**
   * Write-back keeps the list's length and order; component i gets
   * coordinates 2i and 2i+1, and its id, type and properties are untouched.
   * Writing back the start vector changes nothing at all.
   */
  lemma WriteBackShape(cs: seq<Component>, v: seq<real>)
    requires |v| == 2 * |cs|
    ensures var r := WithPositions(cs, v);
      && |r| == |cs|
      && (forall i :: 0 <= i < |cs| ==>
            && r[i].position == Point(v[2 * i], v[2 * i + 1])
            && r[i].id == cs[i].id && r[i].kind == cs[i].kind && r[i].properties == cs[i].properties)
      && Positions(r) == Reshape(v)
    ensures WithPositions(cs, InitialPositions(cs)) == cs
  {
    var r := WithPositions(cs, v);
    assert |v| % 2 == 0;
    forall k | 0 <= k < |cs| ensures Positions(r)[k] == Reshape(v)[k] {
      ReshapeAt(v, k);
    }
    var f := InitialPositions(cs);
    forall i | 0 <= i < |cs| ensures f[2 * i] == cs[i].position.x && f[2 * i + 1] == cs[i].position.y {
      FlattenAt(Positions(cs), i);
    }
  }

  /** Write-back preserves the component manager's numbering and the analyser's precondition. */
  lemma WriteBackKeepsIdsAndTypes(cs: seq<Component>, v: seq<real>)
    requires |v| == 2 * |cs|
    requires LightsWellFormed(cs)
    requires forall i :: 0 <= i < |cs| ==> cs[i].id == i
    ensures LightsWellFormed(WithPositions(cs, v))
    ensures forall i :: 0 <= i < |cs| ==> WithPositions(cs, v)[i].id == i
  {
  }

  /** A solver result within the bounds places every component on the floor, and conversely. */
  lemma WriteBackOnFloor(fp: FloorPlan, cs: seq<Component>, v: seq<real>)
    requires |v| == 2 * |cs|
    ensures WithinBounds(v, Bounds(fp, |v|)) <==>
      forall i :: 0 <= i < |cs| ==> OnFloor(fp, WithPositions(cs, v)[i].position)
  {
    assert |v| % 2 == 0;
    BoundsMeanOnFloor(fp, v);
    WriteBackShape(cs, v);
  }

  /**
   * `optimize_placement`: flattens the positions, builds the bounds, calls
   * the solver on the objective, and writes the result back. The copy of the
   * list is shallow, so the caller's components are updated in place and the
   * returned list holds those same, updated components.
   */
  method OptimizePlacement(
    n: Numerics, fp: FloorPlan, components: array<Component>,
    minimize: (seq<real> --> real, seq<real>, seq<Interval>) -> seq<real>)
    returns (optimized: seq<Component>)
    requires forall f, x0, b :: |minimize(f, x0, b)| == |x0|
    modifies components
    ensures var x := minimize(ObjectiveOf(n, fp), InitialPositions(old(components[..])),
                              Bounds(fp, 2 * components.Length));
      && |x| == 2 * components.Length
      && components[..] == WithPositions(old(components[..]), x)
    ensures optimized == components[..]
  {
    var initial := InitialPositions(components[..]);
    var bounds := Bounds(fp, |initial|);
    var x := minimize(ObjectiveOf(n, fp), initial, bounds);
    ghost var before := components[..];
    ghost var target := WithPositions(before, x);
    var i := 0;
    while i < components.Length
      invariant 0 <= i <= components.Length
      invariant forall k :: 0 <= k < i ==> components[k] == target[k]
      invariant forall k :: i <= k < components.Length ==> components[k] == before[k]
    {
      components[i] := Moved(components[i], x, i);
      i := i + 1;
    }
    optimized := components[..];
    assert optimized == target;
  }
}
