/**
 * The coverage analyser proper: it scans the analysis grid, stores signal,
 * interference and SINR per grid point in three maps, and reduces the maps
 * to the coverage percentage, the number of interference points and the
 * average, minimum and maximum SINR.
 *
 * A `Scene` is what the scan depends on: the numeric primitives, the floor
 * plan and the light sources selected from the component list.
 */
module CoverageAnalysis {
  import opened VlcTypes
  import opened CoverageSignal

  /** The thermal noise floor: a grid point counts as covered above it. */
  const NoisePower: real := 0.000000001

  datatype Scene = Scene(n: Numerics, fp: FloorPlan, lights: seq<Component>)

  predicate ValidScene(sc: Scene)
  {
    AllLightProps(sc.lights)
  }

  /** The scene of `analyze_coverage(floor_plan, components)`: only the "Light Source" components take part. */
  function SceneOf(n: Numerics, fp: FloorPlan, components: seq<Component>): Scene
  {
    Scene(n, fp, LightSources(components))
  }

  function Rows(sc: Scene): nat
  {
    AxisCount(sc.fp.height)
  }

  function Cols(sc: Scene): nat
  {
    AxisCount(sc.fp.width)
  }

  /** What the three maps hold at one grid point. */
  datatype CellValues = CellValues(signal: real, interference: real, sinr: real)

  /**
   * The SINR entry of a grid point: 10 log10(signal / (interference + noise))
   * where there is a positive signal; elsewhere the map keeps its initial 0.
   */
  function Sinr(n: Numerics, signal: real, interference: real): (r: real)
    ensures signal <= 0.0 ==> r == 0.0
  {
    if signal > 0.0 then 10.0 * n.log10(Ratio(n, signal, interference + NoisePower)) else 0.0
  }

  /** The map entries at row i, column j. A point without positive signal has SINR 0. */
  function Cell(sc: Scene, i: nat, j: nat): (r: CellValues)
    requires ValidScene(sc)
    ensures r.signal <= 0.0 ==> r.sinr == 0.0
  {
    var p := GridPoint(i, j);
    var signal := TotalSignal(sc.n, sc.fp, sc.lights, p);
    var interference := TotalInterference(sc.n, sc.lights, p);
    CellValues(signal, interference, Sinr(sc.n, signal, interference))
  }

  /** A grid point no light source reaches has all three map entries 0. */
  lemma CellOutOfReach(sc: Scene, i: nat, j: nat)
    requires ValidScene(sc)
    requires forall k :: 0 <= k < |sc.lights| ==> !InRange(sc.n, sc.lights[k], GridPoint(i, j))
    ensures Cell(sc, i, j) == CellValues(0.0, 0.0, 0.0)
  {
    NothingInReach(sc.n, sc.fp, sc.lights, GridPoint(i, j));
  }

  // ---------------------------------------------------------------------
  // The scan

  /**
   * `analyze_coverage`: builds the grid, selects the light sources, fills
   * the three maps point by point, and reduces them to the report. The
   * reduction fails when no grid point has a non-zero SINR, where the
   * minimum over an empty selection raises.
   */
  method AnalyzeCoverage(n: Numerics, fp: FloorPlan, components: seq<Component>)
    returns (coverageMap: array2<real>, interferenceMap: array2<real>, sinrMap: array2<real>,
             result: Result<Report, AnalysisError>)
    requires LightsWellFormed(components)
    ensures var sc := SceneOf(n, fp, components);
      && ValidScene(sc)
      && coverageMap.Length0 == Rows(sc) && coverageMap.Length1 == Cols(sc)
      && interferenceMap.Length0 == Rows(sc) && interferenceMap.Length1 == Cols(sc)
      && sinrMap.Length0 == Rows(sc) && sinrMap.Length1 == Cols(sc)
      && (forall i, j :: 0 <= i < Rows(sc) && 0 <= j < Cols(sc) ==>
            && coverageMap[i, j] == Cell(sc, i, j).signal
            && interferenceMap[i, j] == Cell(sc, i, j).interference
            && sinrMap[i, j] == Cell(sc, i, j).sinr)
      && result == Summarize(GridStats(sc, Rows(sc), 0))
    ensures fresh(coverageMap) && fresh(interferenceMap) && fresh(sinrMap)
  {
    var lights := LightSources(components);
    WellFormedLightSources(components);
    var sc := Scene(n, fp, lights);
    var rows := AxisCount(fp.height);
    var cols := AxisCount(fp.width);
    coverageMap := new real[rows, cols]((i, j) => 0.0);
    interferenceMap := new real[rows, cols]((i, j) => 0.0);
    sinrMap := new real[rows, cols]((i, j) => 0.0);
    var i := 0;
    while i < rows
      invariant 0 <= i <= rows
      invariant forall a, b :: 0 <= a < i && 0 <= b < cols ==>
        && coverageMap[a, b] == Cell(sc, a, b).signal
        && interferenceMap[a, b] == Cell(sc, a, b).interference
        && sinrMap[a, b] == Cell(sc, a, b).sinr
      invariant forall a, b :: i <= a < rows && 0 <= b < cols ==> sinrMap[a, b] == 0.0
    {
      ScanRow(sc, i, coverageMap, interferenceMap, sinrMap);
      i := i + 1;
    }
    result := Summarize(GridStats(sc, rows, 0));
  }

  /** One row of the scan: every point of row `i` gets its three entries; other rows are untouched. */
  method ScanRow(sc: Scene, i: nat, coverageMap: array2<real>, interferenceMap: array2<real>, sinrMap: array2<real>)
    requires ValidScene(sc)
    requires coverageMap != interferenceMap && coverageMap != sinrMap && interferenceMap != sinrMap
    requires i < sinrMap.Length0
    requires coverageMap.Length0 == interferenceMap.Length0 == sinrMap.Length0
    requires coverageMap.Length1 == interferenceMap.Length1 == sinrMap.Length1 == Cols(sc)
    requires forall b :: 0 <= b < Cols(sc) ==> sinrMap[i, b] == 0.0
    modifies coverageMap, interferenceMap, sinrMap
    ensures forall b :: 0 <= b < Cols(sc) ==>
      && coverageMap[i, b] == Cell(sc, i, b).signal
      && interferenceMap[i, b] == Cell(sc, i, b).interference
      && sinrMap[i, b] == Cell(sc, i, b).sinr
    ensures forall a, b :: 0 <= a < sinrMap.Length0 && a != i && 0 <= b < Cols(sc) ==>
      && coverageMap[a, b] == old(coverageMap[a, b])
      && interferenceMap[a, b] == old(interferenceMap[a, b])
      && sinrMap[a, b] == old(sinrMap[a, b])
  {
    var j := 0;
    while j < Cols(sc)
      invariant 0 <= j <= Cols(sc)
      invariant forall b :: 0 <= b < j ==>
        && coverageMap[i, b] == Cell(sc, i, b).signal
        && interferenceMap[i, b] == Cell(sc, i, b).interference
        && sinrMap[i, b] == Cell(sc, i, b).sinr
      invariant forall b :: j <= b < Cols(sc) ==> sinrMap[i, b] == 0.0
      invariant forall a, b :: 0 <= a < sinrMap.Length0 && a != i && 0 <= b < Cols(sc) ==>
        && coverageMap[a, b] == old(coverageMap[a, b])
        && interferenceMap[a, b] == old(interferenceMap[a, b])
        && sinrMap[a, b] == old(sinrMap[a, b])
    {
      FillPoint(sc, i, j, coverageMap, interferenceMap, sinrMap);
      j := j + 1;
    }
  }

  /**
   * The body of the scan at one grid point: its signal and interference
   * totals go into their maps, and its SINR into the SINR map when the
   * signal is positive; every other entry is untouched.
   */
  method FillPoint(sc: Scene, i: nat, j: nat, coverageMap: array2<real>, interferenceMap: array2<real>,
                   sinrMap: array2<real>)
    requires ValidScene(sc)
    requires coverageMap != interferenceMap && coverageMap != sinrMap && interferenceMap != sinrMap
    requires i < coverageMap.Length0 && j < coverageMap.Length1
    requires i < interferenceMap.Length0 && j < interferenceMap.Length1
    requires i < sinrMap.Length0 && j < sinrMap.Length1
    requires sinrMap[i, j] == 0.0
    modifies coverageMap, interferenceMap, sinrMap
    ensures coverageMap[i, j] == Cell(sc, i, j).signal
    ensures interferenceMap[i, j] == Cell(sc, i, j).interference
    ensures sinrMap[i, j] == Cell(sc, i, j).sinr
    ensures forall a, b :: 0 <= a < coverageMap.Length0 && 0 <= b < coverageMap.Length1 && (a != i || b != j) ==>
      coverageMap[a, b] == old(coverageMap[a, b])
    ensures forall a, b :: 0 <= a < interferenceMap.Length0 && 0 <= b < interferenceMap.Length1 && (a != i || b != j) ==>
      interferenceMap[a, b] == old(interferenceMap[a, b])
    ensures forall a, b :: 0 <= a < sinrMap.Length0 && 0 <= b < sinrMap.Length1 && (a != i || b != j) ==>
      sinrMap[a, b] == old(sinrMap[a, b])
  {
    var signal, interference := PointTotals(sc.n, sc.fp, sc.lights, GridPoint(i, j));
    if signal > 0.0 {
      var ratio := Ratio(sc.n, signal, interference + NoisePower);
      sinrMap[i, j] := 10.0 * sc.n.log10(ratio);
    }
    coverageMap[i, j] := signal;
    interferenceMap[i, j] := interference;
  }

  // ---------------------------------------------------------------------
  // The reduction

  /**
   * The running reduction of the maps: number of points, of covered points,
   * of interference points, of non-zero SINR entries, their sum and minimum,
   * and the maximum over all SINR entries.
   */
  datatype Stats = Stats(cells: nat, covered: nat, interfering: nat, nonzero: nat,
                         nonzeroSum: real, nonzeroMin: Option<real>, maximum: Option<real>)

  const NoCells: Stats := Stats(0, 0, 0, 0, 0.0, None, None)

  function Lower(m: Option<real>, v: real): real
  {
    if m.Some? && m.value <= v then m.value else v
  }

  function Upper(m: Option<real>, v: real): real
  {
    if m.Some? && m.value >= v then m.value else v
  }

  /**
   * One grid point added to the reduction: covered when its signal exceeds
   * the noise power, an interference point when its interference exceeds a
   * tenth of its signal, and counted in the SINR statistics when its SINR
   * entry is non-zero; the maximum takes every SINR entry, zeros included.
   */
  function AddCell(s: Stats, c: CellValues): (r: Stats)
    ensures r.cells == s.cells + 1
    ensures r.maximum.Some? && c.sinr <= r.maximum.value
    ensures s.maximum.Some? ==> s.maximum.value <= r.maximum.value
    ensures c.sinr != 0.0 ==> r.nonzeroMin.Some? && r.nonzeroMin.value <= c.sinr
    ensures s.nonzeroMin.Some? ==> r.nonzeroMin.Some? && r.nonzeroMin.value <= s.nonzeroMin.value
    ensures r.maximum.value == c.sinr || (s.maximum.Some? && r.maximum.value == s.maximum.value)
    ensures c.sinr != 0.0 ==> r.nonzeroMin.value == c.sinr || (s.nonzeroMin.Some? && r.nonzeroMin.value == s.nonzeroMin.value)
    ensures c.sinr == 0.0 ==> r.nonzeroMin == s.nonzeroMin
    ensures r.covered == s.covered + 1 <==> c.signal > NoisePower
    ensures r.interfering == s.interfering + 1 <==> c.interference > 0.1 * c.signal
    ensures r.nonzero == s.nonzero + 1 <==> c.sinr != 0.0
  {
    Stats(s.cells + 1,
          s.covered + (if c.signal > NoisePower then 1 else 0),
          s.interfering + (if c.interference > 0.1 * c.signal then 1 else 0),
          s.nonzero + (if c.sinr != 0.0 then 1 else 0),
          s.nonzeroSum + (if c.sinr != 0.0 then c.sinr else 0.0),
          if c.sinr != 0.0 then Some(Lower(s.nonzeroMin, c.sinr)) else s.nonzeroMin,
          Some(Upper(s.maximum, c.sinr)))
  }

  /**
   * The counts never exceed the number of points; the minimum exists exactly
   * when some entry is non-zero, the maximum exactly when there is a point;
   * and the sum of the non-zero entries lies between their number times the
   * minimum and their number times the maximum.
   */
  predicate Consistent(s: Stats)
  {
    && s.covered <= s.cells && s.interfering <= s.cells && s.nonzero <= s.cells
    && (s.maximum.None? <==> s.cells == 0)
    && (s.nonzeroMin.None? <==> s.nonzero == 0)
    && (s.nonzero == 0 ==> s.nonzeroSum == 0.0)
    && (s.nonzero > 0 ==>
          && s.maximum.Some? && s.nonzeroMin.Some?
          && s.nonzeroMin.value <= s.maximum.value
          && Product(s.nonzero as real, s.nonzeroMin.value) <= s.nonzeroSum
          && s.nonzeroSum <= Product(s.nonzero as real, s.maximum.value))
  }

  lemma AddCellConsistent(s: Stats, c: CellValues)
    requires Consistent(s)
    ensures Consistent(AddCell(s, c))
  {
    var t := AddCell(s, c);
    var k := s.nonzero as real;
    if c.sinr == 0.0 {
      if s.nonzero > 0 {
        ScaleMono(k, s.maximum.value, t.maximum.value);
      }
    } else if s.nonzero == 0 {
      ProductStep(0.0, c.sinr);
    } else {
      ScaleMono(k, t.nonzeroMin.value, s.nonzeroMin.value);
      ScaleMono(k, s.maximum.value, t.maximum.value);
      ProductStep(k, t.nonzeroMin.value);
      ProductStep(k, t.maximum.value);
    }
  }

  lemma ProductStep(k: real, v: real)
    ensures Product(k + 1.0, v) == Product(k, v) + v
  {
  }

  lemma ScaleMono(k: real, a: real, b: real)
    requires k >= 0.0 && a <= b
    ensures Product(k, a) <= Product(k, b)
  {
  }

  /**
   * The reduction over the grid in scan order: all of rows 0..i-1, then
   * columns 0..j-1 of row i. It is always consistent and has seen exactly
   * i * Cols + j points.
   */
  function GridStats(sc: Scene, i: nat, j: nat): (s: Stats)
    requires ValidScene(sc) && j <= Cols(sc)
    ensures Consistent(s)
    ensures s.cells == i * Cols(sc) + j
    decreases i, j
  {
    if j > 0 then
      var before := GridStats(sc, i, j - 1);
      AddCellConsistent(before, Cell(sc, i, j - 1));
      AddCell(before, Cell(sc, i, j - 1))
    else if i > 0 then
      var before := GridStats(sc, i - 1, Cols(sc));
      assert (i - 1) * Cols(sc) + Cols(sc) == i * Cols(sc);
      before
    else NoCells
  }

  /** Grid point (a, b) comes before (i, j) in scan order. */
  predicate Visited(sc: Scene, i: nat, j: nat, a: int, b: int)
  {
    0 <= a && 0 <= b < Cols(sc) && (a < i || (a == i && b < j))
  }

  /** The report `analyze_coverage` returns, without the maps. */
  datatype Report = Report(coveragePercentage: real, interferencePoints: nat,
                           averageSinr: real, minSinr: real, maxSinr: real)

  /** `np.min` of the empty selection of non-zero SINR entries raises. */
  datatype AnalysisError = EmptySinrSelection

  /**
   * The metrics: covered points over all points times 100, the number of
   * interference points, and the mean, minimum and maximum SINR as
   * accumulated; failure when no SINR entry is non-zero.
   */
  function Summarize(s: Stats): (r: Result<Report, AnalysisError>)
    requires Consistent(s)
    ensures r.Failure? <==> s.nonzero == 0
  {
    if s.nonzero == 0 then Failure(EmptySinrSelection)
    else
      Success(Report(s.covered as real / s.cells as real * 100.0, s.interfering,
                     s.nonzeroSum / s.nonzero as real, s.nonzeroMin.value, s.maximum.value))
  }

  /** The outcome of `analyze_coverage` for a scene. */
  function Analysis(sc: Scene): Result<Report, AnalysisError>
    requires ValidScene(sc)
  {
    Summarize(GridStats(sc, Rows(sc), 0))
  }

  // ---------------------------------------------------------------------
  // Properties of the reduction

  /** Every point seen so far is covered. */
  ghost predicate AllCovered(sc: Scene, i: nat, j: nat)
    requires ValidScene(sc)
  {
    forall a, b :: Visited(sc, i, j, a, b) ==> Cell(sc, a, b).signal > NoisePower
  }

  /** No point seen so far is covered. */
  ghost predicate NoneCovered(sc: Scene, i: nat, j: nat)
    requires ValidScene(sc)
  {
    forall a, b :: Visited(sc, i, j, a, b) ==> Cell(sc, a, b).signal <= NoisePower
  }

  /** Every SINR entry seen so far is zero. */
  ghost predicate NoSinr(sc: Scene, i: nat, j: nat)
    requires ValidScene(sc)
  {
    forall a, b :: Visited(sc, i, j, a, b) ==> Cell(sc, a, b).sinr == 0.0
  }

  /** The points before (i, j) in scan order, described one step back. */
  lemma VisitedStep(sc: Scene, i: nat, j: nat)
    requires j <= Cols(sc)
    ensures j > 0 ==> forall a, b :: Visited(sc, i, j, a, b) <==> Visited(sc, i, j - 1, a, b) || (a == i && b == j - 1)
    ensures j == 0 && i > 0 ==> forall a, b :: Visited(sc, i, 0, a, b) <==> Visited(sc, i - 1, Cols(sc), a, b)
    ensures j == 0 && i == 0 ==> forall a, b :: !Visited(sc, i, j, a, b)
  {
  }

  /** The covered count equals the point count exactly when every point seen is covered. */
  lemma {:induction false} AllCoveredSees(sc: Scene, i: nat, j: nat)
    requires ValidScene(sc) && j <= Cols(sc)
    ensures GridStats(sc, i, j).covered == GridStats(sc, i, j).cells <==> AllCovered(sc, i, j)
    decreases i, j
  {
    VisitedStep(sc, i, j);
    if j > 0 {
      AllCoveredSees(sc, i, j - 1);
    } else if i > 0 {
      AllCoveredSees(sc, i - 1, Cols(sc));
    }
  }

  /** The covered count is zero exactly when no point seen is covered. */
  lemma {:induction false} NoneCoveredSees(sc: Scene, i: nat, j: nat)
    requires ValidScene(sc) && j <= Cols(sc)
    ensures GridStats(sc, i, j).covered == 0 <==> NoneCovered(sc, i, j)
    decreases i, j
  {
    VisitedStep(sc, i, j);
    if j > 0 {
      NoneCoveredSees(sc, i, j - 1);
    } else if i > 0 {
      NoneCoveredSees(sc, i - 1, Cols(sc));
    }
  }

  /** No SINR entry enters the statistics exactly when every entry seen is zero. */
  lemma {:induction false} NoSinrSees(sc: Scene, i: nat, j: nat)
    requires ValidScene(sc) && j <= Cols(sc)
    ensures GridStats(sc, i, j).nonzero == 0 <==> NoSinr(sc, i, j)
    decreases i, j
  {
    VisitedStep(sc, i, j);
    if j > 0 {
      NoSinrSees(sc, i, j - 1);
    } else if i > 0 {
      NoSinrSees(sc, i - 1, Cols(sc));
    }
  }

  /**
   * Every SINR entry seen is at most the running maximum, and every non-zero
   * one at least the running minimum.
   */
  lemma {:induction false} ExtremesSee(sc: Scene, i: nat, j: nat)
    requires ValidScene(sc) && j <= Cols(sc)
    ensures var s := GridStats(sc, i, j);
      forall a, b :: Visited(sc, i, j, a, b) ==>
        && s.maximum.Some? && Cell(sc, a, b).sinr <= s.maximum.value
        && (Cell(sc, a, b).sinr != 0.0 ==> s.nonzeroMin.Some? && s.nonzeroMin.value <= Cell(sc, a, b).sinr)
    decreases i, j
  {
    VisitedStep(sc, i, j);
    if j > 0 {
      ExtremesSee(sc, i, j - 1);
    } else if i > 0 {
      ExtremesSee(sc, i - 1, Cols(sc));
    }
  }

  /**
   * The running maximum is the SINR entry of some point seen, and the running
   * minimum the entry of some point seen whose entry is non-zero.
   */
  lemma {:induction false} ExtremesAttained(sc: Scene, i: nat, j: nat)
    requires ValidScene(sc) && j <= Cols(sc)
    ensures var s := GridStats(sc, i, j);
      s.maximum.Some? ==> exists a, b :: Visited(sc, i, j, a, b) && Cell(sc, a, b).sinr == s.maximum.value
    ensures var s := GridStats(sc, i, j);
      s.nonzeroMin.Some? ==>
        exists a, b :: Visited(sc, i, j, a, b) && Cell(sc, a, b).sinr != 0.0 && Cell(sc, a, b).sinr == s.nonzeroMin.value
    decreases i, j
  {
    VisitedStep(sc, i, j);
    if j > 0 {
      ExtremesAttained(sc, i, j - 1);
      var before := GridStats(sc, i, j - 1);
      var c := Cell(sc, i, j - 1);
      var s := AddCell(before, c);
      assert Visited(sc, i, j, i, j - 1);
      if s.maximum.value != c.sinr {
        var a, b :| Visited(sc, i, j - 1, a, b) && Cell(sc, a, b).sinr == before.maximum.value;
        assert Visited(sc, i, j, a, b);
      }
      if s.nonzeroMin.Some? && (c.sinr == 0.0 || s.nonzeroMin.value != c.sinr) {
        var a, b :| Visited(sc, i, j - 1, a, b) && Cell(sc, a, b).sinr != 0.0 && Cell(sc, a, b).sinr == before.nonzeroMin.value;
        assert Visited(sc, i, j, a, b);
      }
    } else if i > 0 {
      ExtremesAttained(sc, i - 1, Cols(sc));
    }
  }

  /** The whole grid is what the scan has seen at its end. */
  lemma VisitedAll(sc: Scene)
    ensures forall a, b :: Visited(sc, Rows(sc), 0, a, b) <==> 0 <= a < Rows(sc) && 0 <= b < Cols(sc)
  {
  }

  /**
   * The analysis fails exactly when every SINR entry is zero, that is, when
   * no grid point has both a positive signal and a SINR other than 0 dB.
   */
  lemma AnalysisFailsIffNoSinr(sc: Scene)
    requires ValidScene(sc)
    ensures Analysis(sc).Failure? <==>
      forall i, j :: 0 <= i < Rows(sc) && 0 <= j < Cols(sc) ==> Cell(sc, i, j).sinr == 0.0
  {
    NoSinrSees(sc, Rows(sc), 0);
    VisitedAll(sc);
  }

  /**
   * A successful report has a coverage percentage in [0, 100], at most one
   * interference point per grid point, and min <= average <= max.
   */
  lemma ReportBounds(sc: Scene)
    requires ValidScene(sc)
    ensures var r := Analysis(sc);
      r.Success? ==>
        && 0.0 <= r.value.coveragePercentage <= 100.0
        && r.value.interferencePoints <= Rows(sc) * Cols(sc)
        && r.value.minSinr <= r.value.averageSinr <= r.value.maxSinr
  {
    var s := GridStats(sc, Rows(sc), 0);
    if s.nonzero > 0 {
      FractionBounds(s.covered, s.cells);
      MeanBounds(s.nonzero, s.nonzeroSum, s.nonzeroMin.value, s.maximum.value);
    }
  }

  lemma FractionBounds(part: nat, whole: nat)
    requires 0 < whole && part <= whole
    ensures 0.0 <= part as real / whole as real * 100.0 <= 100.0
  {
  }

  lemma MeanBounds(k: nat, sum: real, lo: real, hi: real)
    requires k > 0
    requires Product(k as real, lo) <= sum <= Product(k as real, hi)
    ensures lo <= sum / k as real <= hi
  {
  }

  /**
   * Every non-zero SINR entry lies between the reported minimum and maximum,
   * and every entry, the zeros of points without signal included, lies at
   * or below the reported maximum: a grid with an unsignalled point reports
   * a maximum of at least 0 dB. Both extremes are attained: the maximum is
   * the entry of some grid point, the minimum the non-zero entry of one.
   */
  lemma ReportExtremes(sc: Scene)
    requires ValidScene(sc)
    ensures var r := Analysis(sc);
      r.Success? ==>
        forall i, j :: 0 <= i < Rows(sc) && 0 <= j < Cols(sc) ==>
          && Cell(sc, i, j).sinr <= r.value.maxSinr
          && (Cell(sc, i, j).sinr != 0.0 ==> r.value.minSinr <= Cell(sc, i, j).sinr)
    ensures var r := Analysis(sc);
      r.Success? ==>
        && (exists i, j :: 0 <= i < Rows(sc) && 0 <= j < Cols(sc) && Cell(sc, i, j).sinr == r.value.maxSinr)
        && (exists i, j :: 0 <= i < Rows(sc) && 0 <= j < Cols(sc) && Cell(sc, i, j).sinr != 0.0
              && Cell(sc, i, j).sinr == r.value.minSinr)
  {
    ExtremesSee(sc, Rows(sc), 0);
    ExtremesAttained(sc, Rows(sc), 0);
    VisitedAll(sc);
  }

  /**
   * The coverage percentage is 100 exactly when every grid point's signal
   * exceeds the noise power, and 0 exactly when none does.
   */
  lemma CoverageExtremes(sc: Scene)
    requires ValidScene(sc)
    ensures var r := Analysis(sc);
      r.Success? ==>
        && (r.value.coveragePercentage == 100.0 <==>
              forall i, j :: 0 <= i < Rows(sc) && 0 <= j < Cols(sc) ==> Cell(sc, i, j).signal > NoisePower)
        && (r.value.coveragePercentage == 0.0 <==>
              forall i, j :: 0 <= i < Rows(sc) && 0 <= j < Cols(sc) ==> Cell(sc, i, j).signal <= NoisePower)
  {
    var s := GridStats(sc, Rows(sc), 0);
    AllCoveredSees(sc, Rows(sc), 0);
    NoneCoveredSees(sc, Rows(sc), 0);
    VisitedAll(sc);
    if s.nonzero > 0 {
      PercentageExtremes(s.covered, s.cells);
    }
  }

  lemma PercentageExtremes(part: nat, whole: nat)
    requires 0 < whole && part <= whole
    ensures part as real / whole as real * 100.0 == 100.0 <==> part == whole
    ensures part as real / whole as real * 100.0 == 0.0 <==> part == 0
  {
  }

  // ---------------------------------------------------------------------
  // Which components matter

  /**
   * Components that are not tagged "Light Source" (receivers included) take
   * no part in the analysis, wherever they sit in the list.
   */
  lemma NonLightComponentsIgnored(n: Numerics, fp: FloorPlan, front: seq<Component>, extra: seq<Component>,
                                  back: seq<Component>)
    requires forall c :: c in extra ==> !IsLightSource(c)
    ensures SceneOf(n, fp, front + extra + back) == SceneOf(n, fp, front + back)
  {
    LightSourcesAppend(front + extra, back);
    LightSourcesAppend(front, extra);
    LightSourcesAppend(front, back);
    NoLightSources(extra);
  }

  lemma NoLightSources(cs: seq<Component>)
    requires forall c :: c in cs ==> !IsLightSource(c)
    ensures LightSources(cs) == []
  {
    if LightSources(cs) != [] {
      assert LightSources(cs)[0] in LightSources(cs);
    }
  }

  /**
   * Without any light source the analysis does not report zero coverage: no
   * SINR entry is ever written, and the minimum over the empty selection
   * fails.
   */
  lemma NoLightSourceFails(n: Numerics, fp: FloorPlan, components: seq<Component>)
    requires forall c :: c in components ==> !IsLightSource(c)
    ensures ValidScene(SceneOf(n, fp, components))
    ensures Analysis(SceneOf(n, fp, components)).Failure?
  {
    NoLightSources(components);
    var sc := SceneOf(n, fp, components);
    forall i, j | 0 <= i < Rows(sc) && 0 <= j < Cols(sc) ensures Cell(sc, i, j).sinr == 0.0 {
      assert TotalSignal(n, fp, [], GridPoint(i, j)) == 0.0;
    }
    AnalysisFailsIffNoSinr(sc);
  }
}
