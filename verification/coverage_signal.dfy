/**
 * The per-point signal model of the coverage analyser: the analysis grid,
 * the wavelength attenuation and overlap curves, the direct and wall-reflected
 * power of one light source at one point, and the totals of signal and
 * interference at a point over all light sources.
 *
 * Every light source is a component carrying light-source properties; the
 * analyser selects them from the component list by their "Light Source" tag.
 */
module CoverageSignal {
  import opened VlcTypes

  /** Spacing of the analysis grid, in metres (`np.arange(0, extent, 0.1)`). */
  const GridResolution: real := 0.1
  /** The fraction of a source's power a wall reflects. */
  const ReflectionCoeff: real := 0.3
  /** The assumed height of every light source above the receiving plane, in metres. */
  const MountingHeight: real := 2.0
  /** Spectral width of a source, in nm, for the Gaussian overlap. */
  const SpectralWidth: real := 15.0
  /** The visible band, in nm, and the wavelength of least attenuation. */
  const VisibleLow: real := 380.0
  const VisibleHigh: real := 780.0
  const PeakWavelength: real := 550.0

  // ---------------------------------------------------------------------
  // The analysis grid

  /** The number of samples `np.arange(0, extent, 0.1)` produces: the ceiling of extent / 0.1. */
  function AxisCount(extent: real): nat
  {
    if extent <= 0.0 then 0
    else
      var f := (extent / GridResolution).Floor;
      if f as real == extent / GridResolution then f else f + 1
  }

  /** Sample k of the axis exists exactly when k * 0.1 lies below the extent. */
  lemma AxisCountSamples(extent: real, k: nat)
    ensures k < AxisCount(extent) <==> k as real * GridResolution < extent
  {
  }

  /** Grid point (row i, column j): `x[j]` across, `y[i]` up. */
  function GridPoint(i: nat, j: nat): Point
  {
    Point(j as real * GridResolution, i as real * GridResolution)
  }

  /** Every grid point lies on the floor, in [0, width) x [0, height). */
  lemma GridPointOnFloor(fp: FloorPlan, i: nat, j: nat)
    requires i < AxisCount(fp.height) && j < AxisCount(fp.width)
    ensures 0.0 <= GridPoint(i, j).x < fp.width && 0.0 <= GridPoint(i, j).y < fp.height
  {
    AxisCountSamples(fp.height, i);
    AxisCountSamples(fp.width, j);
  }

  // ---------------------------------------------------------------------
  // Wavelength curves

  /**
   * `calculate_wavelength_attenuation`: inside the visible band
   * exp(-0.1 * |w - 550| / 230), a flat 0.5 outside it.
   */
  function WavelengthAttenuation(n: Numerics, wavelength: real): (r: real)
    ensures !(VisibleLow <= wavelength <= VisibleHigh) ==> r == 0.5
  {
    if VisibleLow <= wavelength <= VisibleHigh then
      n.exp(-0.1 * Abs(wavelength - PeakWavelength) / 230.0)
    else 0.5
  }

  /**
   * Inside the visible band the attenuation factor lies in (0, 1] and is 1
   * at 550 nm; it is symmetric about 550 nm for offsets up to 170 nm, where
   * the band's lower edge lies.
   */
  lemma AttenuationShape(n: Numerics, wavelength: real, offset: real)
    requires ExpSound(n)
    ensures VisibleLow <= wavelength <= VisibleHigh ==>
      0.0 < WavelengthAttenuation(n, wavelength) <= 1.0
    ensures WavelengthAttenuation(n, PeakWavelength) == 1.0
    ensures Abs(offset) <= PeakWavelength - VisibleLow ==>
      WavelengthAttenuation(n, PeakWavelength + offset) == WavelengthAttenuation(n, PeakWavelength - offset)
  {
    assert -0.1 * Abs(PeakWavelength - PeakWavelength) / 230.0 == 0.0;
    if Abs(offset) <= PeakWavelength - VisibleLow {
      assert Abs(PeakWavelength + offset - PeakWavelength) == Abs(PeakWavelength - offset - PeakWavelength);
    }
  }

  /**
   * `calculate_wavelength_overlap`: the Gaussian exp(-0.5 * ((w1 - w2) / 15)^2).
   * It equals exp(0) = 1 for equal wavelengths and lies in (0, 1]; in
   * particular the analyser's `overlap > 0` test never fails.
   */
  function WavelengthOverlap(n: Numerics, w1: real, w2: real): (r: real)
    ensures w1 == w2 ==> r == n.exp(0.0)
    ensures ExpSound(n) ==> 0.0 < r <= 1.0
  {
    var q := (w1 - w2) / SpectralWidth;
    SquareNonNegative(q);
    assert w1 == w2 ==> -0.5 * Product(q, q) == 0.0;
    n.exp(-0.5 * Product(q, q))
  }

  /** The overlap does not depend on the order of the two wavelengths. */
  lemma OverlapSymmetric(n: Numerics, w1: real, w2: real)
    ensures WavelengthOverlap(n, w1, w2) == WavelengthOverlap(n, w2, w1)
  {
    var q := (w1 - w2) / SpectralWidth;
    assert (w2 - w1) / SpectralWidth == -q;
    SquareOfNegation(q);
  }

  // ---------------------------------------------------------------------
  // One light source at one point

  /** The source reaches point `p`: `distance <= coverage_radius`. */
  predicate InRange(n: Numerics, ls: Component, p: Point)
    requires ls.properties.LightProps?
  {
    Dist(n, p, ls.position) <= ls.properties.coverageRadius
  }

  /** The Lambertian order m = -ln 2 / ln(cos(beam_angle / 2)). */
  function LambertianOrder(n: Numerics, beamAngle: real): real
  {
    Ratio(n, -n.log(2.0), n.log(n.cos(Radians(beamAngle / 2.0))))
  }

  /**
   * The direct-path power: power times the Lambertian pattern at the
   * incidence angle arctan2(distance, 2.0), times exp(-distance / radius),
   * times the wavelength attenuation.
   */
  function DirectPower(n: Numerics, ls: Component, p: Point): real
    requires ls.properties.LightProps?
  {
    var props := ls.properties;
    var distance := Dist(n, p, ls.position);
    var incidence := n.arctan2(distance, MountingHeight);
    var m := LambertianOrder(n, props.beamAngle);
    var lambertian := (m + 1.0) / (2.0 * Pi) * n.pow(n.cos(incidence), m);
    props.power * lambertian * n.exp(Ratio(n, -distance, props.coverageRadius))
      * WavelengthAttenuation(n, props.wavelength)
  }

  /**
   * The four wall points of a source at `pos`: the feet of the perpendiculars
   * from the source to the bottom, top, left and right walls, in that order.
   */
  function WallPoints(fp: FloorPlan, pos: Point): (walls: seq<Point>)
    ensures |walls| == 4
    ensures walls[0].y == 0.0 && walls[1].y == fp.height && walls[2].x == 0.0 && walls[3].x == fp.width
    ensures walls[0].x == pos.x && walls[1].x == pos.x && walls[2].y == pos.y && walls[3].y == pos.y
  {
    [Point(pos.x, 0.0), Point(pos.x, fp.height), Point(0.0, pos.y), Point(fp.width, pos.y)]
  }

  function Clip(t: real, lo: real, hi: real): real
  {
    if t < lo then lo else if t > hi then hi else t
  }

  /**
   * The power reflected at one wall point whose two legs are
   * `incidentDistance` and `reflectedDistance` long:
   * power * coeff * cos(angle) / (d_in * d_out), attenuated by wavelength,
   * where the angle is that of the incident vector with the y axis.
   */
  function ReflectionAt(n: Numerics, ls: Component, coeff: real, wavelength: real, wall: Point,
                        incidentDistance: real, reflectedDistance: real): real
    requires ls.properties.LightProps?
  {
    var cosine := Ratio(n, wall.y - ls.position.y, incidentDistance);
    var angle := n.arccos(Clip(cosine, -1.0, 1.0));
    Ratio(n, ls.properties.power * coeff * n.cos(angle), incidentDistance * reflectedDistance)
      * WavelengthAttenuation(n, wavelength)
  }

  /**
   * The contribution of the reflection at one wall point: nothing unless
   * both the source-to-wall and the wall-to-point distances are within the
   * coverage radius.
   */
  function WallTerm(n: Numerics, ls: Component, p: Point, coeff: real, wavelength: real, wall: Point): (r: real)
    requires ls.properties.LightProps?
    ensures r != 0.0 ==> WallInReach(n, ls, p, wall)
  {
    var incidentDistance := Dist(n, wall, ls.position);
    var reflectedDistance := Dist(n, p, wall);
    if WallInReach(n, ls, p, wall) then
      ReflectionAt(n, ls, coeff, wavelength, wall, incidentDistance, reflectedDistance)
    else 0.0
  }

  /** The sum of the wall terms over `walls`. */
  function ReflectedSum(n: Numerics, ls: Component, p: Point, coeff: real, wavelength: real, walls: seq<Point>): real
    requires ls.properties.LightProps?
  {
    if walls == [] then 0.0
    else
      ReflectedSum(n, ls, p, coeff, wavelength, walls[..|walls| - 1])
        + WallTerm(n, ls, p, coeff, wavelength, walls[|walls| - 1])
  }

  /** A wall point counts only when both legs of the path through it are within the coverage radius. */
  predicate WallInReach(n: Numerics, ls: Component, p: Point, wall: Point)
    requires ls.properties.LightProps?
  {
    Dist(n, wall, ls.position) <= ls.properties.coverageRadius && Dist(n, p, wall) <= ls.properties.coverageRadius
  }

  /** Walls out of reach contribute nothing: with no wall in reach, there is no reflected power. */
  lemma {:induction false} ReflectionNeedsReach(n: Numerics, ls: Component, p: Point, coeff: real, wavelength: real, walls: seq<Point>)
    requires ls.properties.LightProps?
    requires forall w :: w in walls ==> !WallInReach(n, ls, p, w)
    ensures ReflectedSum(n, ls, p, coeff, wavelength, walls) == 0.0
  {
    if walls != [] {
      var init := walls[..|walls| - 1];
      assert forall w :: w in init ==> w in walls;
      ReflectionNeedsReach(n, ls, p, coeff, wavelength, init);
      assert walls[|walls| - 1] in walls;
    }
  }

  /**
   * `calculate_reflected_power`: the loop over the four wall points of the
   * source, adding each wall's term.
   */
  method CalculateReflectedPower(n: Numerics, ls: Component, p: Point, fp: FloorPlan, coeff: real, wavelength: real)
    returns (total: real)
    requires ls.properties.LightProps?
    ensures total == ReflectedSum(n, ls, p, coeff, wavelength, WallPoints(fp, ls.position))
  {
    var walls := WallPoints(fp, ls.position);
    total := 0.0;
    var k := 0;
    while k < |walls|
      invariant 0 <= k <= |walls|
      invariant total == ReflectedSum(n, ls, p, coeff, wavelength, walls[..k])
    {
      var wall := walls[k];
      assert walls[..k + 1][..k] == walls[..k];
      assert ReflectedSum(n, ls, p, coeff, wavelength, walls[..k + 1])
        == ReflectedSum(n, ls, p, coeff, wavelength, walls[..k]) + WallTerm(n, ls, p, coeff, wavelength, wall);
      var radius := ls.properties.coverageRadius;
      var incidentDistance := Dist(n, wall, ls.position);
      var reflectedDistance := Dist(n, p, wall);
      if incidentDistance <= radius && reflectedDistance <= radius {
        total := total + ReflectionAt(n, ls, coeff, wavelength, wall, incidentDistance, reflectedDistance);
      }
      k := k + 1;
    }
    assert walls[..k] == walls;
  }

  /** Signal from one source at `p`: direct plus reflected power when in range, nothing otherwise. */
  function SourceSignal(n: Numerics, fp: FloorPlan, ls: Component, p: Point): (r: real)
    requires ls.properties.LightProps?
    ensures !InRange(n, ls, p) ==> r == 0.0
  {
    if InRange(n, ls, p) then
      DirectPower(n, ls, p)
        + ReflectedSum(n, ls, p, ReflectionCoeff, ls.properties.wavelength, WallPoints(fp, ls.position))
    else 0.0
  }

  /**
   * What another source `other` adds to the interference charged while `ls`
   * is being processed: nothing for `ls` itself (dictionary equality),
   * nothing when the spectra do not overlap, nothing when `other` does not
   * reach the point; otherwise power * overlap * exp(-distance / radius).
   */
  function OtherTerm(n: Numerics, ls: Component, other: Component, p: Point): (r: real)
    requires ls.properties.LightProps? && other.properties.LightProps?
    ensures r != 0.0 ==> other != ls && InRange(n, other, p)
  {
    if other != ls then
      var overlap := WavelengthOverlap(n, ls.properties.wavelength, other.properties.wavelength);
      if overlap > 0.0 then
        var otherDistance := Dist(n, p, other.position);
        if otherDistance <= other.properties.coverageRadius then
          other.properties.power * overlap * n.exp(Ratio(n, -otherDistance, other.properties.coverageRadius))
        else 0.0
      else 0.0
    else 0.0
  }

  // ---------------------------------------------------------------------
  // Totals over all sources

  /** The total signal at `p`. */
  function TotalSignal(n: Numerics, fp: FloorPlan, lights: seq<Component>, p: Point): real
    requires AllLightProps(lights)
  {
    if lights == [] then 0.0
    else TotalSignal(n, fp, lights[..|lights| - 1], p) + SourceSignal(n, fp, lights[|lights| - 1], p)
  }

  /** The interference charged to `ls` from every source of `others`. */
  function InterferenceFrom(n: Numerics, ls: Component, others: seq<Component>, p: Point): real
    requires ls.properties.LightProps? && AllLightProps(others)
  {
    if others == [] then 0.0
    else InterferenceFrom(n, ls, others[..|others| - 1], p) + OtherTerm(n, ls, others[|others| - 1], p)
  }

  /** The interference charged while processing `ls`: only when `ls` itself reaches the point. */
  function SourceInterference(n: Numerics, ls: Component, lights: seq<Component>, p: Point): real
    requires ls.properties.LightProps? && AllLightProps(lights)
  {
    if InRange(n, ls, p) then InterferenceFrom(n, ls, lights, p) else 0.0
  }

  /** The nested sum: for each source of `sources`, its interference against all of `lights`. */
  function InterferenceSum(n: Numerics, sources: seq<Component>, lights: seq<Component>, p: Point): real
    requires AllLightProps(sources) && AllLightProps(lights)
  {
    if sources == [] then 0.0
    else InterferenceSum(n, sources[..|sources| - 1], lights, p) + SourceInterference(n, sources[|sources| - 1], lights, p)
  }

  /** The total interference at `p`. */
  function TotalInterference(n: Numerics, lights: seq<Component>, p: Point): real
    requires AllLightProps(lights)
  {
    InterferenceSum(n, lights, lights, p)
  }

  /**
   * The inner loops of `analyze_coverage` at one point: for each source in
   * range, add its direct and reflected power to the signal and, for every
   * other overlapping source in range, that source's power to the
   * interference.
   */
  method PointTotals(n: Numerics, fp: FloorPlan, lights: seq<Component>, p: Point)
    returns (signal: real, interference: real)
    requires AllLightProps(lights)
    ensures signal == TotalSignal(n, fp, lights, p)
    ensures interference == TotalInterference(n, lights, p)
  {
    signal := 0.0;
    interference := 0.0;
    var k := 0;
    while k < |lights|
      invariant 0 <= k <= |lights|
      invariant signal == TotalSignal(n, fp, lights[..k], p)
      invariant interference == InterferenceSum(n, lights[..k], lights, p)
    {
      var ls := lights[k];
      assert lights[..k + 1][..k] == lights[..k];
      var distance := Dist(n, p, ls.position);
      if distance <= ls.properties.coverageRadius {
        var direct := DirectPower(n, ls, p);
        var reflected := CalculateReflectedPower(n, ls, p, fp, ReflectionCoeff, ls.properties.wavelength);
        signal := signal + (direct + reflected);
        interference := AddInterference(n, ls, lights, p, interference);
      }
      k := k + 1;
    }
    assert lights[..k] == lights;
  }

  /** The innermost loop: charge `ls` with every other overlapping source that reaches `p`. */
  method AddInterference(n: Numerics, ls: Component, lights: seq<Component>, p: Point, start: real)
    returns (interference: real)
    requires ls.properties.LightProps? && AllLightProps(lights)
    ensures interference == start + InterferenceFrom(n, ls, lights, p)
  {
    interference := start;
    var j := 0;
    while j < |lights|
      invariant 0 <= j <= |lights|
      invariant interference == start + InterferenceFrom(n, ls, lights[..j], p)
    {
      var other := lights[j];
      assert lights[..j + 1][..j] == lights[..j];
      if other != ls {
        var overlap := WavelengthOverlap(n, ls.properties.wavelength, other.properties.wavelength);
        if overlap > 0.0 {
          var otherDistance := Dist(n, p, other.position);
          if otherDistance <= other.properties.coverageRadius {
            interference := interference
              + other.properties.power * overlap * n.exp(Ratio(n, -otherDistance, other.properties.coverageRadius));
          }
        }
      }
      j := j + 1;
    }
    assert lights[..j] == lights;
  }

  // ---------------------------------------------------------------------
  // Properties of the totals

  /** The sources of `lights` that reach `p`, in order. */
  function InRangeSources(n: Numerics, lights: seq<Component>, p: Point): (r: seq<Component>)
    requires AllLightProps(lights)
    ensures AllLightProps(r)
  {
    if lights == [] then []
    else
      var last := lights[|lights| - 1];
      InRangeSources(n, lights[..|lights| - 1], p) + (if InRange(n, last, p) then [last] else [])
  }

  /** The filter keeps exactly the sources that reach `p`. */
  lemma {:induction false} InRangeSourcesMembers(n: Numerics, lights: seq<Component>, p: Point)
    requires AllLightProps(lights)
    ensures forall c :: c in InRangeSources(n, lights, p) <==> c in lights && InRange(n, c, p)
  {
    if lights != [] {
      var init := lights[..|lights| - 1];
      var last := lights[|lights| - 1];
      InRangeSourcesMembers(n, init, p);
      assert lights == init + [last];
    }
  }

  /** One step of the filter, taken at the last source. */
  lemma InRangeSourcesStep(n: Numerics, lights: seq<Component>, p: Point)
    requires AllLightProps(lights) && lights != []
    ensures var init := lights[..|lights| - 1];
      var last := lights[|lights| - 1];
      var r := InRangeSources(n, init, p);
      && (InRange(n, last, p) ==> InRangeSources(n, lights, p) == r + [last] && (r + [last])[..|r|] == r)
      && (!InRange(n, last, p) ==> InRangeSources(n, lights, p) == r)
  {
    var r := InRangeSources(n, lights[..|lights| - 1], p);
    assert r + [] == r;
    assert (r + [lights[|lights| - 1]])[..|r|] == r;
  }

  /**
   * A source contributes to the signal at a point only when the point is
   * within its coverage radius: the signal equals that of the in-range
   * sources alone.
   */
  lemma {:induction false} SignalFromInRangeSources(n: Numerics, fp: FloorPlan, lights: seq<Component>, p: Point)
    requires AllLightProps(lights)
    ensures TotalSignal(n, fp, lights, p) == TotalSignal(n, fp, InRangeSources(n, lights, p), p)
  {
    if lights != [] {
      var init := lights[..|lights| - 1];
      var last := lights[|lights| - 1];
      SignalFromInRangeSources(n, fp, init, p);
      InRangeSourcesStep(n, lights, p);
      var r := InRangeSources(n, init, p);
      if InRange(n, last, p) {
        assert TotalSignal(n, fp, r + [last], p) == TotalSignal(n, fp, r, p) + SourceSignal(n, fp, last, p);
      }
    }
  }

  /** Other sources out of range add nothing to the interference charged to `ls`. */
  lemma {:induction false} InterferenceFromInRange(n: Numerics, ls: Component, others: seq<Component>, p: Point)
    requires ls.properties.LightProps? && AllLightProps(others)
    ensures InterferenceFrom(n, ls, others, p) == InterferenceFrom(n, ls, InRangeSources(n, others, p), p)
  {
    if others != [] {
      var init := others[..|others| - 1];
      var last := others[|others| - 1];
      InterferenceFromInRange(n, ls, init, p);
      InRangeSourcesStep(n, others, p);
      var r := InRangeSources(n, init, p);
      if InRange(n, last, p) {
        assert InterferenceFrom(n, ls, r + [last], p) == InterferenceFrom(n, ls, r, p) + OtherTerm(n, ls, last, p);
      }
    }
  }

  lemma {:induction false} InterferenceSumInRange(n: Numerics, sources: seq<Component>, lights: seq<Component>, p: Point)
    requires AllLightProps(sources) && AllLightProps(lights)
    ensures InterferenceSum(n, sources, lights, p)
      == InterferenceSum(n, InRangeSources(n, sources, p), InRangeSources(n, lights, p), p)
  {
    if sources != [] {
      var init := sources[..|sources| - 1];
      var last := sources[|sources| - 1];
      InterferenceSumInRange(n, init, lights, p);
      InRangeSourcesStep(n, sources, p);
      var r := InRangeSources(n, init, p);
      var rl := InRangeSources(n, lights, p);
      if InRange(n, last, p) {
        InterferenceFromInRange(n, last, lights, p);
        assert InterferenceSum(n, r + [last], rl, p) == InterferenceSum(n, r, rl, p) + SourceInterference(n, last, rl, p);
      }
    }
  }

  /**
   * Interference, too, comes only from sources that reach the point: both as
   * the source being processed and as the interfering one.
   */
  lemma InterferenceFromInRangeSources(n: Numerics, lights: seq<Component>, p: Point)
    requires AllLightProps(lights)
    ensures TotalInterference(n, lights, p) == TotalInterference(n, InRangeSources(n, lights, p), p)
  {
    InterferenceSumInRange(n, lights, lights, p);
    var r := InRangeSources(n, lights, p);
    InterferenceSumInRange(n, r, r, p);
    InRangeSourcesIdempotent(n, lights, p);
  }

  lemma {:induction false} InRangeSourcesIdempotent(n: Numerics, lights: seq<Component>, p: Point)
    requires AllLightProps(lights)
    ensures InRangeSources(n, InRangeSources(n, lights, p), p) == InRangeSources(n, lights, p)
  {
    if lights != [] {
      var init := lights[..|lights| - 1];
      var last := lights[|lights| - 1];
      InRangeSourcesIdempotent(n, init, p);
      InRangeSourcesStep(n, lights, p);
      var r := InRangeSources(n, init, p);
      if InRange(n, last, p) {
        InRangeSourcesStep(n, r + [last], p);
      }
    }
  }

  /** Sources that all equal `ls` or do not reach `p` charge `ls` with no interference. */
  lemma {:induction false} NoInterferenceFrom(n: Numerics, ls: Component, others: seq<Component>, p: Point)
    requires ls.properties.LightProps? && AllLightProps(others)
    requires forall o :: o in others ==> o == ls || !InRange(n, o, p)
    ensures InterferenceFrom(n, ls, others, p) == 0.0
  {
    if others != [] {
      var init := others[..|others| - 1];
      assert forall o :: o in init ==> o in others;
      NoInterferenceFrom(n, ls, init, p);
      assert others[|others| - 1] in others;
    }
  }

  lemma {:induction false} NoInterferenceSum(n: Numerics, sources: seq<Component>, lights: seq<Component>, p: Point)
    requires AllLightProps(sources) && AllLightProps(lights)
    requires forall a, b :: a in sources && b in lights && InRange(n, a, p) && InRange(n, b, p) ==> a == b
    ensures InterferenceSum(n, sources, lights, p) == 0.0
  {
    if sources != [] {
      var init := sources[..|sources| - 1];
      var last := sources[|sources| - 1];
      assert forall a :: a in init ==> a in sources;
      NoInterferenceSum(n, init, lights, p);
      assert last in sources;
      if InRange(n, last, p) {
        NoInterferenceFrom(n, last, lights, p);
      }
    }
  }

  /** A point that no source reaches receives neither signal nor interference. */
  lemma NothingInReach(n: Numerics, fp: FloorPlan, lights: seq<Component>, p: Point)
    requires AllLightProps(lights)
    requires forall k :: 0 <= k < |lights| ==> !InRange(n, lights[k], p)
    ensures TotalSignal(n, fp, lights, p) == 0.0 && TotalInterference(n, lights, p) == 0.0
  {
    var r := InRangeSources(n, lights, p);
    InRangeSourcesMembers(n, lights, p);
    SignalFromInRangeSources(n, fp, lights, p);
    InterferenceFromInRangeSources(n, lights, p);
  }

  /**
   * Self-exclusion: a source never interferes with itself. Hence there is no
   * interference at a point reached by at most one distinct source; in
   * particular with a single light source, or with copies of one source.
   */
  lemma LoneSourceNoInterference(n: Numerics, lights: seq<Component>, p: Point)
    requires AllLightProps(lights)
    requires forall a, b :: a in lights && b in lights && InRange(n, a, p) && InRange(n, b, p) ==> a == b
    ensures TotalInterference(n, lights, p) == 0.0
  {
    NoInterferenceSum(n, lights, lights, p);
  }

  /** A single light source never sees interference anywhere. */
  lemma SingleSourceNoInterference(n: Numerics, ls: Component, p: Point)
    requires ls.properties.LightProps?
    ensures TotalInterference(n, [ls], p) == 0.0
  {
    LoneSourceNoInterference(n, [ls], p);
  }
}
