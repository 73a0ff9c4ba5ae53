/**
 * Shared vocabulary of the VLC network planner: points on the floor, the
 * floor plan, components (light sources and receivers) and the numeric
 * primitives (exp, log, cos, ...) that the planner borrows from numpy.
 *
 * The transcendental functions are not defined here: a `Numerics` value
 * carries them, and every model function that needs one takes it as a
 * parameter. Properties proved about the model therefore hold for ANY
 * choice of these functions, except where a lemma states explicitly which
 * facts about them it relies on (see `ExpSound`).
 */
module VlcTypes {

  datatype Option<T> = None | Some(value: T)

  datatype Result<T, E> = Success(value: T) | Failure(error: E)

  /** A position on a floor, in metres. */
  datatype Point = Point(x: real, y: real)

  /** The floor plan dictionary: only its two dimensions are read by the core. */
  datatype FloorPlan = FloorPlan(width: real, height: real)

  /**
   * The `properties` dictionary of a component. Light sources carry power (W),
   * beam angle (degrees), wavelength (nm) and coverage radius (m); receivers
   * carry sensitivity (dBm), field of view (degrees) and active area (m^2).
   */
  datatype Properties =
    | LightProps(power: real, beamAngle: real, wavelength: real, coverageRadius: real)
    | ReceiverProps(sensitivity: real, fov: real, activeArea: real)

  /**
   * A component dictionary. `kind` is the free-form `type` string; only the
   * exact tag "Light Source" marks a transmitter.
   */
  datatype Component = Component(kind: string, id: int, position: Point, properties: Properties)

  const LightSourceTag: string := "Light Source"

  /** The transcendental and floating-point primitives the source calls into numpy for. */
  datatype Numerics = Numerics(
    exp: real -> real,
    log: real -> real,
    log10: real -> real,
    cos: real -> real,
    sin: real -> real,
    arccos: real -> real,
    arctan2: (real, real) -> real,
    pow: (real, real) -> real,
    sqrt: real -> real,
    divByZero: real -> real)   // what a float division by zero yields (inf or nan)

  /** The value of numpy's pi as a float literal. */
  const Pi: real := 3.141592653589793

  /** Facts about the real exponential that some lemmas take as hypotheses. */
  ghost predicate ExpSound(n: Numerics)
  {
    && n.exp(0.0) == 1.0
    && (forall t :: 0.0 < n.exp(t))
    && (forall t :: t <= 0.0 ==> n.exp(t) <= 1.0)
  }

  function Abs(t: real): real
  {
    if t < 0.0 then -t else t
  }

  /** Floating-point division: exact when the divisor is non-zero. */
  function Ratio(n: Numerics, a: real, b: real): real
  {
    if b != 0.0 then a / b else n.divByZero(a)
  }

  /** `a * b`, kept behind a function so that squares and scalings are reasoned about as products. */
  function Product(a: real, b: real): real
  {
    a * b
  }

  lemma ProductPositive(a: real, b: real)
    requires a > 0.0 && b > 0.0
    ensures Product(a, b) > 0.0
  {
  }

  lemma SquareNonNegative(t: real)
    ensures Product(t, t) >= 0.0
  {
  }

  lemma SquareOfNegation(t: real)
    ensures Product(-t, -t) == Product(t, t)
  {
  }

  /** Degrees to radians, as np.radians. */
  function Radians(degrees: real): real
  {
    degrees * Pi / 180.0
  }

  function SquaredDistance(p: Point, q: Point): real
  {
    (p.x - q.x) * (p.x - q.x) + (p.y - q.y) * (p.y - q.y)
  }

  /** np.linalg.norm(p - q) */
  function Dist(n: Numerics, p: Point, q: Point): real
  {
    n.sqrt(SquaredDistance(p, q))
  }

  predicate IsLightSource(c: Component)
  {
    c.kind == LightSourceTag
  }

  /**
   * What the analyser needs of a component list: every component whose tag
   * is "Light Source" carries light-source properties (the source would fail
   * with a missing key otherwise). Components created by the component
   * manager always satisfy this.
   */
  predicate LightsWellFormed(cs: seq<Component>)
  {
    forall i :: 0 <= i < |cs| && IsLightSource(cs[i]) ==> cs[i].properties.LightProps?
  }

  /** All elements carry light-source properties. */
  predicate AllLightProps(ls: seq<Component>)
  {
    forall i :: 0 <= i < |ls| ==> ls[i].properties.LightProps?
  }

  /** `[c for c in components if c['type'] == "Light Source"]` */
  function LightSources(cs: seq<Component>): (r: seq<Component>)
    ensures |r| <= |cs|
    ensures forall c :: c in r <==> c in cs && IsLightSource(c)
  {
    if cs == [] then []
    else LightSources(cs[..|cs| - 1]) + (if IsLightSource(cs[|cs| - 1]) then [cs[|cs| - 1]] else [])
  }

  /** The filter distributes over concatenation. */
  lemma {:induction false} LightSourcesAppend(a: seq<Component>, b: seq<Component>)
    ensures LightSources(a + b) == LightSources(a) + LightSources(b)
    decreases |b|
  {
    if b == [] {
      assert a + b == a;
    } else {
      assert (a + b)[..|a + b| - 1] == a + b[..|b| - 1];
      LightSourcesAppend(a, b[..|b| - 1]);
    }
  }

  /** The light sources of a well-formed list all carry light-source properties. */
  lemma {:induction false} WellFormedLightSources(cs: seq<Component>)
    requires LightsWellFormed(cs)
    ensures AllLightProps(LightSources(cs))
  {
    var ls := LightSources(cs);
    forall i | 0 <= i < |ls| ensures ls[i].properties.LightProps? {
      assert ls[i] in ls;
      var j :| 0 <= j < |cs| && cs[j] == ls[i];
    }
  }
}
