/**
 * The geometric part of the DXF import: the bounding box of a drawing, the
 * SVG canvas derived from it, and the large-arc flag of an arc path.
 *
 * Parsing the DXF file, drawing the SVG and encoding it are library calls and
 * are not modelled; a drawing is the sequence of its entities, and an entity
 * either offers its points (it has `get_points`) or does not.
 */
module CadImporter {
  import opened VlcTypes

  /** A model-space entity: `Some(points)` when it has `get_points`, `None` otherwise. */
  datatype Entity = Entity(points: Option<seq<Point>>)

  /** The four-slot bounds list `[min_x, min_y, max_x, max_y]`. */
  datatype Box = Box(minX: real, minY: real, maxX: real, maxY: real)

  /** The canvas `convert_dxf_to_svg` builds around a drawing. */
  datatype Canvas = Canvas(width: real, height: real, canvasWidth: real, canvasHeight: real,
                           offsetX: real, offsetY: real)

  datatype CadError = EmptyOrInvalidDrawing

  /** Padding, in drawing units, around the drawing on the SVG canvas. */
  const Padding: real := 10.0

  function PointsOf(e: Entity): seq<Point>
  {
    if e.points.Some? then e.points.value else []
  }

  /** Every point the bounds scan visits, in visiting order. */
  function AllPoints(entities: seq<Entity>): seq<Point>
  {
    if entities == [] then []
    else AllPoints(entities[..|entities| - 1]) + PointsOf(entities[|entities| - 1])
  }

  predicate Inside(p: Point, b: Box)
  {
    b.minX <= p.x <= b.maxX && b.minY <= p.y <= b.maxY
  }

  /** Each of the four bounds is attained by some point of `ps`. */
  predicate Tight(b: Box, ps: seq<Point>)
  {
    && (exists p :: p in ps && p.x == b.minX)
    && (exists p :: p in ps && p.y == b.minY)
    && (exists p :: p in ps && p.x == b.maxX)
    && (exists p :: p in ps && p.y == b.maxY)
  }

  function Min(a: real, b: real): real { if a <= b then a else b }
  function Max(a: real, b: real): real { if a >= b then a else b }

  /** `b` holds every point of `ps` and each of its bounds is attained in `ps`. */
  predicate BoundsOf(b: Box, ps: seq<Point>)
  {
    (forall p :: p in ps ==> Inside(p, b)) && Tight(b, ps)
  }

  /** One in-place update of the bounds list by a new point. */
  function Widen(b: Box, p: Point): (r: Box)
    ensures Inside(p, r)
    ensures forall q :: Inside(q, b) ==> Inside(q, r)
  {
    Box(Min(b.minX, p.x), Min(b.minY, p.y), Max(b.maxX, p.x), Max(b.maxY, p.y))
  }

  lemma WidenKeepsBounds(b: Box, ps: seq<Point>, p: Point)
    requires BoundsOf(b, ps)
    ensures BoundsOf(Widen(b, p), ps + [p])
  {
    var w := Widen(b, p);
    forall q | q in ps + [p] ensures Inside(q, w) {
      if q != p { assert q in ps; }
    }
    assert p in ps + [p];
    var q0 :| q0 in ps && q0.x == b.minX;
    var q1 :| q1 in ps && q1.y == b.minY;
    var q2 :| q2 in ps && q2.x == b.maxX;
    var q3 :| q3 in ps && q3.y == b.maxY;
    assert q0 in ps + [p] && q1 in ps + [p] && q2 in ps + [p] && q3 in ps + [p];
  }

  lemma FirstPointBounds(p: Point)
    ensures BoundsOf(Box(p.x, p.y, p.x, p.y), [p])
  {
    assert p in [p];
  }

  /**
   * `get_drawing_bounds`: scans the points of every entity that has points,
   * starting the box at the first point and widening it in place with min
   * and max. Returns `None` exactly when no point was visited; otherwise the
   * smallest axis-aligned box holding every visited point.
   *
   * The four-slot list is an array; `started` says whether the source's
   * `bounds` variable still holds `None`.
   */
  method GetDrawingBounds(modelspace: seq<Entity>) returns (bounds: Option<Box>)
    ensures bounds.None? <==> AllPoints(modelspace) == []
    ensures bounds.Some? ==> Ordered(bounds.value) && BoundsOf(bounds.value, AllPoints(modelspace))
  {
    var slots := new real[4];
    var started := false;
    var e := 0;
    while e < |modelspace|
      invariant 0 <= e <= |modelspace|
      invariant SlotsHold(slots, started, AllPoints(modelspace[..e]))
    {
      AllPointsStep(modelspace, e);
      if modelspace[e].points.Some? {
        started := WidenByPoints(slots, started, AllPoints(modelspace[..e]), modelspace[e].points.value);
      }
      e := e + 1;
    }
    assert modelspace[..e] == modelspace;
    if !started {
      bounds := None;
    } else {
      bounds := Some(SlotsBox(slots));
      BoundsOrdered(bounds.value, AllPoints(modelspace));
    }
  }

  function SlotsBox(slots: array<real>): Box
    requires slots.Length == 4
    reads slots
  {
    Box(slots[0], slots[1], slots[2], slots[3])
  }

  /** The bounds list is in use exactly once a point was seen, and then bounds what was seen. */
  ghost predicate SlotsHold(slots: array<real>, started: bool, seen: seq<Point>)
    reads slots
  {
    && slots.Length == 4
    && (started <==> seen != [])
    && (started ==> BoundsOf(SlotsBox(slots), seen))
  }

  lemma AllPointsStep(modelspace: seq<Entity>, e: nat)
    requires e < |modelspace|
    ensures AllPoints(modelspace[..e + 1]) == AllPoints(modelspace[..e]) + PointsOf(modelspace[e])
  {
    assert modelspace[..e + 1][..e] == modelspace[..e];
  }

  /**
   * The inner loop of `get_drawing_bounds` over one entity's points: the
   * bounds list is set from the first point ever seen and widened in place
   * afterwards.
   */
  method WidenByPoints(slots: array<real>, started: bool, ghost seen: seq<Point>, points: seq<Point>)
    returns (nowStarted: bool)
    requires SlotsHold(slots, started, seen)
    modifies slots
    ensures SlotsHold(slots, nowStarted, seen + points)
  {
    nowStarted := started;
    var k := 0;
    while k < |points|
      invariant 0 <= k <= |points|
      invariant SlotsHold(slots, nowStarted, seen + points[..k])
    {
      var point := points[k];
      ghost var visited := seen + points[..k];
      assert seen + points[..k + 1] == visited + [point];
      if !nowStarted {
        assert visited + [point] == [point];
        slots[0], slots[1], slots[2], slots[3] := point.x, point.y, point.x, point.y;
        FirstPointBounds(point);
        nowStarted := true;
      } else {
        WidenKeepsBounds(SlotsBox(slots), visited, point);
        slots[0] := Min(slots[0], point.x);
        slots[1] := Min(slots[1], point.y);
        slots[2] := Max(slots[2], point.x);
        slots[3] := Max(slots[3], point.y);
      }
      k := k + 1;
    }
    assert points[..k] == points;
  }

  /** A point set has at most one tight bounding box. */
  lemma BoundsUnique(b1: Box, b2: Box, ps: seq<Point>)
    requires BoundsOf(b1, ps) && BoundsOf(b2, ps)
    ensures b1 == b2
  {
    var p0 :| p0 in ps && p0.x == b1.minX;
    var p1 :| p1 in ps && p1.y == b1.minY;
    var p2 :| p2 in ps && p2.x == b1.maxX;
    var p3 :| p3 in ps && p3.y == b1.maxY;
    assert Inside(p0, b2) && Inside(p1, b2) && Inside(p2, b2) && Inside(p3, b2);
    var q0 :| q0 in ps && q0.x == b2.minX;
    var q1 :| q1 in ps && q1.y == b2.minY;
    var q2 :| q2 in ps && q2.x == b2.maxX;
    var q3 :| q3 in ps && q3.y == b2.maxY;
    assert Inside(q0, b1) && Inside(q1, b1) && Inside(q2, b1) && Inside(q3, b1);
  }

  predicate Ordered(b: Box)
  {
    b.minX <= b.maxX && b.minY <= b.maxY
  }

  lemma BoundsOrdered(b: Box, ps: seq<Point>)
    requires BoundsOf(b, ps) && ps != []
    ensures Ordered(b)
  {
    assert Inside(ps[0], b);
  }

  /**
   * The size step of `convert_dxf_to_svg`: missing bounds raise "Empty or
   * invalid DXF file"; otherwise the drawing is `max - min` wide and high,
   * the canvas adds the padding on every side, and the drawing is shifted by
   * `padding - min`.
   */
  function CanvasFor(bounds: Option<Box>): (r: Result<Canvas, CadError>)
    ensures r.Failure? <==> bounds.None?
    ensures r.Success? ==> r.value.canvasWidth == r.value.width + 2.0 * Padding
    ensures r.Success? ==> r.value.canvasHeight == r.value.height + 2.0 * Padding
  {
    match bounds
    case None => Failure(EmptyOrInvalidDrawing)
    case Some(b) =>
      var width := b.maxX - b.minX;
      var height := b.maxY - b.minY;
      Success(Canvas(width, height, width + 2.0 * Padding, height + 2.0 * Padding,
                     Padding - b.minX, Padding - b.minY))
  }

  /**
   * The bounds and canvas steps of `convert_dxf_to_svg`: a drawing without
   * points is rejected; otherwise width and height are non-negative and every
   * point of the drawing, once shifted, lies on the canvas at least `Padding`
   * away from each edge. The canvas is the one built around the drawing's
   * tight bounding box, which is unique (`BoundsUnique`): the width is
   * max_x - min_x and the height max_y - min_y of the drawing's points.
   */
  method ConvertDxfCanvas(modelspace: seq<Entity>) returns (r: Result<Canvas, CadError>)
    ensures r.Failure? <==> AllPoints(modelspace) == []
    ensures r.Success? ==> exists b :: BoundsOf(b, AllPoints(modelspace)) && r == CanvasFor(Some(b))
    ensures r.Success? ==> r.value.width >= 0.0 && r.value.height >= 0.0
    ensures r.Success? ==> forall p :: p in AllPoints(modelspace) ==>
      && Padding <= p.x + r.value.offsetX <= r.value.canvasWidth - Padding
      && Padding <= p.y + r.value.offsetY <= r.value.canvasHeight - Padding
  {
    var bounds := GetDrawingBounds(modelspace);
    r := CanvasFor(bounds);
    if bounds.Some? {
      assert BoundsOf(bounds.value, AllPoints(modelspace)) && r == CanvasFor(Some(bounds.value));
    }
  }

  /** The fields of a DXF arc that `create_arc_path` reads (angles in degrees). */
  datatype Arc = Arc(center: Point, radius: real, startAngle: real, endAngle: real)

  /** The numbers an SVG arc path `M sx,sy A r,r 0 large,1 ex,ey` is made of. */
  datatype ArcPath = ArcPath(start: Point, radius: real, largeArc: bool, end: Point)

  /**
   * `create_arc_path`: the start and end points on the circle and the
   * large-arc flag, set when the angular span exceeds pi radians. The flag is
   * set exactly when the two angles, in degrees, differ by more than 180.
   */
  function CreateArcPath(n: Numerics, arc: Arc): (r: ArcPath)
    ensures r.largeArc <==> Abs(arc.endAngle - arc.startAngle) > 180.0
    ensures r.radius == arc.radius
  {
    var startAngle := Radians(arc.startAngle);
    var endAngle := Radians(arc.endAngle);
    var start := Point(arc.center.x + arc.radius * n.cos(startAngle), arc.center.y + arc.radius * n.sin(startAngle));
    var end := Point(arc.center.x + arc.radius * n.cos(endAngle), arc.center.y + arc.radius * n.sin(endAngle));
    LargeArcInDegrees(arc.startAngle, arc.endAngle);
    ArcPath(start, arc.radius, Abs(endAngle - startAngle) > Pi, end)
  }

  /** Comparing the radian span with pi is comparing the degree span with 180. */
  lemma LargeArcInDegrees(s: real, e: real)
    ensures Abs(Radians(e) - Radians(s)) > Pi <==> Abs(e - s) > 180.0
  {
    assert Radians(e) - Radians(s) == (e - s) * (Pi / 180.0);
    assert Abs(Radians(e) - Radians(s)) == Abs(e - s) * (Pi / 180.0);
  }
}
