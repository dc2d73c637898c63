/**
 * The anchors, segments and paths of path.js. Anchors (`Point`) are shared objects: a segment
 * holds references to its two anchors and `update` writes the tangent `v` and the radius of
 * curvature `r` into both. A cubic segment also keeps its control polygon `cpoints`.
 */
module Paths {
  import opened Base
  import opened Polynomials
  import opened RootFinder
  import opened Geometry

  /** The three segment prototypes: `LinearPathSegment`, `QuadraticBezierPathSegment`, `CubicBezierPathSegment`. */
  datatype SegmentKind = Line | Quadratic | Cubic

  /**
   * One token of SVG path data: a command letter or a coordinate. `NonFinite` is a coordinate
   * that the source prints as NaN or Infinity. Rendering numbers as text is not modelled.
   */
  datatype PathToken = Command(c: char) | Number(v: real) | NonFinite

  /** The attributes `{r, cx, cy}` of the circle of curvature drawn at an anchor. */
  datatype Circle = Circle(r: ExtReal, cx: real, cy: ExtReal)

  /** A tangent direction. None stands for a vector whose coordinates are NaN. */
  type Tangent = Option<Vec2>

  /** A radius beyond the drawable range (more than 4096 either way). */
  predicate Far(r: ExtReal)
  {
    r.PosInf? || r.NegInf? || (r.Finite? && (r.v > 4096.0 || r.v < -4096.0))
  }

  /**
   * A unit tangent for the given `norm`: every positive multiple k v has norm k. This stands in
   * for `normalize` returning a vector of length 1.
   */
  ghost predicate Unit(norm: Vec2 -> real, v: Vec2)
  {
    forall k :: k > 0.0 ==> norm(v.Scale(k)) == k
  }

  // ---------------------------------------------------------------------------
  // Anchors
  // ---------------------------------------------------------------------------

  /** An anchor of a path: its position, tangent, radius of curvature and the segments that use it. */
  class Point {
    var p: Vec2
    var v: Tangent
    var r: ExtReal
    var parentSegments: seq<Segment>
    const parentPath: Path

    /** A new anchor points along the x axis with radius 1000 and belongs to no segment yet. */
    constructor(x: real, y: real, path: Path)
      ensures p == Vec2(x, y) && v == Some(Vec2(1.0, 0.0)) && r == Finite(1000.0)
      ensures parentSegments == [] && parentPath == path
    {
      p := Vec2(x, y);
      v := Some(Vec2(1.0, 0.0));
      r := Finite(1000.0);
      parentSegments := [];
      parentPath := path;
    }

    /**
     * `svg_attr_roc`: the circle of curvature in the anchor's own frame. Off the drawable range
     * it is an empty circle at (-10, -10); otherwise it is centred at (0, r) with radius |r|,
     * so it passes through the anchor. A NaN radius gives a NaN circle.
     */
    function SvgAttrRoc(): (c: Circle)
      reads this
      ensures Far(r) ==> c == Circle(Finite(0.0), -10.0, Finite(-10.0))
      ensures r.Finite? && !Far(r) ==> c.r.Finite? && c.r.v >= 0.0 && c.cx == 0.0 && c.cy == r
      ensures r.Finite? && !Far(r) ==> c.r.v * c.r.v == c.cx * c.cx + c.cy.v * c.cy.v
      ensures r.NaN? ==> c.r.NaN? && c.cy.NaN?
    {
      if Far(r) then Circle(Finite(0.0), -10.0, Finite(-10.0))
      else if r.NaN? then Circle(NaN, 0.0, NaN)
      else Circle(Finite(Abs(r.v)), 0.0, r)
    }
  }

  // ---------------------------------------------------------------------------
  // Quadratic segments
  // ---------------------------------------------------------------------------

  /** The control point of a quadratic from the anchors; None when a tangent is NaN or they are parallel. */
  function QuadraticControlOf(p0: Vec2, v0: Tangent, p2: Vec2, v2: Tangent): (q: Option<Vec2>)
    ensures q.Some? <==> v0.Some? && v2.Some? && v2.value.Cross(v0.value) != 0.0
    ensures q.Some? ==> q.value.Sub(p0).Cross(v0.value) == 0.0 && q.value.Sub(p2).Cross(v2.value) == 0.0
  {
    if v0.None? || v2.None? then None else QuadraticControl(p0, v0.value, p2, v2.value)
  }

  /** `direction(t)` of a quadratic: the normalized velocity; NaN without a control point. */
  function QuadraticDirection(p0: Vec2, v0: Tangent, p2: Vec2, v2: Tangent, t: real, num: Numerics): (d: Tangent)
    ensures d.Some? <==> QuadraticControlOf(p0, v0, p2, v2).Some?
  {
    match QuadraticControlOf(p0, v0, p2, v2)
    case None => None
    case Some(q) => Some(num.normalize(QuadraticVelocity(p0, q, p2, t)))
  }

  /** `curvature(t)` of a quadratic; NaN without a control point. */
  function QuadraticCurvature(p0: Vec2, v0: Tangent, p2: Vec2, v2: Tangent, t: real, num: Numerics): (k: ExtReal)
    ensures QuadraticControlOf(p0, v0, p2, v2).None? ==> k.NaN?
  {
    match QuadraticControlOf(p0, v0, p2, v2)
    case None => NaN
    case Some(q) => CurvatureOf(QuadraticVelocity(p0, q, p2, t), QuadraticAcceleration(p0, q, p2), num.norm)
  }

  // ---------------------------------------------------------------------------
  // Cubic segments
  // ---------------------------------------------------------------------------

  /** `direction(t)` of a cubic from its control polygon. Without one the source throws; here it is NaN. */
  function CubicDirection(cp: ControlPolygon, t: real, num: Numerics): (d: Tangent)
    ensures d.Some? <==> cp.Curve?
  {
    match cp
    case NoCurve => None
    case Curve(p0, p1, p2, p3) => Some(num.normalize(CubicVelocity(p0, p1, p2, p3, t)))
  }

  /** `curvature(t)` of a cubic from its control polygon (NaN without one). */
  function CubicCurvature(cp: ControlPolygon, t: real, num: Numerics): (k: ExtReal)
    ensures cp.NoCurve? ==> k.NaN?
  {
    match cp
    case NoCurve => NaN
    case Curve(p0, p1, p2, p3) => CurvatureOf(CubicVelocity(p0, p1, p2, p3, t), CubicAcceleration(p0, p1, p2, p3, t), num.norm)
  }

  /**
   * The quantities of the cubic `control_points`: r = 1/start.r, s = 1/end.r, a = v0 x p,
   * b = -(v0 x v3), c = -(v3 x p) for p = p3 - p0.
   */
  datatype Setup = Setup(r: real, s: real, a: real, b: real, c: real)

  /**
   * The setup of a cubic, when it is made of finite numbers and b != 0. Otherwise (a NaN tangent,
   * an anchor radius 0 or NaN, or parallel tangents) the source computes with NaN or infinite
   * values; the model gives no curve there.
   */
  function CubicSetup(p0: Vec2, v0: Tangent, r0: ExtReal, p3: Vec2, v3: Tangent, r3: ExtReal): (st: Option<Setup>)
    ensures st.Some? ==> st.value.b != 0.0 && Reciprocal(r0) == Finite(st.value.r) && Reciprocal(r3) == Finite(st.value.s)
  {
    var r, s := Reciprocal(r0), Reciprocal(r3);
    if v0.None? || v3.None? || !r.Finite? || !s.Finite? then None
    else
      var p := p3.Sub(p0);
      var b := -v0.value.Cross(v3.value);
      if b == 0.0 then None
      else Some(Setup(r.v, s.v, v0.value.Cross(p), b, -v3.value.Cross(p)))
  }

  /** The positive members of a list, in order: `ys.filter(x => x > 0)`. */
  function Positives(ys: seq<real>): (r: seq<real>)
    ensures forall z :: z in r <==> z in ys && z > 0.0
    ensures |r| <= |ys|
  {
    if ys == [] then []
    else if ys[0] > 0.0 then [ys[0]] + Positives(ys[1..])
    else Positives(ys[1..])
  }

  /** The largest member of a non-empty list: `Math.max.apply(null, ys)`. */
  function SeqMax(ys: seq<real>): (m: real)
    requires ys != []
    ensures m in ys && forall z :: z in ys ==> z <= m
  {
    if |ys| == 1 then ys[0]
    else
      var rest := SeqMax(ys[1..]);
      assert forall z :: z in ys ==> z == ys[0] || z in ys[1..];
      if ys[0] >= rest then ys[0] else rest
  }

  /** The smallest member of a non-empty list: `Math.min.apply(null, ys)`. */
  function SeqMin(ys: seq<real>): (m: real)
    requires ys != []
    ensures m in ys && forall z :: z in ys ==> m <= z
  {
    if |ys| == 1 then ys[0]
    else
      var rest := SeqMin(ys[1..]);
      assert forall z :: z in ys ==> z == ys[0] || z in ys[1..];
      if ys[0] <= rest then ys[0] else rest
  }

  /**
   * The choice of y among the roots of the quartic: the largest positive root when s > 0, the
   * smallest positive root otherwise, and none when no root is positive (where the source takes
   * the maximum or minimum of an empty array).
   */
  function ChooseRoot(ys: seq<real>, s: real): (y: Option<real>)
    ensures y.None? <==> forall z :: z in ys ==> z <= 0.0
    ensures y.Some? ==> y.value in ys && y.value > 0.0
    ensures y.Some? && s > 0.0 ==> forall z :: z in ys && z > 0.0 ==> z <= y.value
    ensures y.Some? && s <= 0.0 ==> forall z :: z in ys && z > 0.0 ==> y.value <= z
  {
    var pos := Positives(ys);
    if pos == [] then None
    else if s > 0.0 then Some(SeqMax(pos))
    else Some(SeqMin(pos))
  }

  /**
   * The handle lengths (x, y) of a cubic: y = -a/b when r = 0, x = -c/b when s = 0, and
   * otherwise y is the chosen root of the quartic; the other length follows from its relation.
   * Both relations hold in the first two branches; in the general one the end relation always
   * holds and the start relation holds exactly at a root of the quartic.
   */
  function HandleLengths(st: Setup, ys: seq<real>): (h: Option<(real, real)>)
    requires st.b != 0.0
    ensures st.r == 0.0 ==> h.Some? && h.value.1 == -st.a / st.b
    ensures st.r != 0.0 && st.s == 0.0 ==> h.Some? && h.value.0 == -st.c / st.b
    ensures st.r != 0.0 && st.s != 0.0 ==> (h.None? <==> forall z :: z in ys ==> z <= 0.0)
    ensures st.r != 0.0 && st.s != 0.0 && h.Some? ==> h.value.1 == ChooseRoot(ys, st.s).value
    ensures h.Some? ==> h.value.0 == XFromY(st.b, st.c, st.s, h.value.1)
    ensures h.Some? && (st.r == 0.0 || st.s == 0.0) ==> h.value.1 == YFromX(st.a, st.b, st.r, h.value.0)
  {
    if st.r == 0.0 then
      var y := -st.a / st.b;
      assert y == YFromX(st.a, st.b, st.r, XFromY(st.b, st.c, st.s, y));
      Some((XFromY(st.b, st.c, st.s, y), y))
    else if st.s == 0.0 then
      var x := -st.c / st.b;
      assert x == XFromY(st.b, st.c, st.s, YFromX(st.a, st.b, st.r, x));
      Some((x, YFromX(st.a, st.b, st.r, x)))
    else
      match ChooseRoot(ys, st.s)
      case None => None
      case Some(y) => Some((XFromY(st.b, st.c, st.s, y), y))
  }

  /**
   * The cubic `control_points`: `[p0, p0 + x v0, p3 - y v3, p3]` when both handle lengths are
   * positive, and `false` otherwise. `ys` are the roots the solver returned for the quartic.
   */
  function CubicControl(p0: Vec2, v0: Tangent, r0: ExtReal, p3: Vec2, v3: Tangent, r3: ExtReal, ys: seq<real>): (cp: ControlPolygon)
    ensures cp.Curve? ==> cp.p0 == p0 && cp.p3 == p3 && v0.Some? && v3.Some?
    ensures cp.Curve? ==> CubicSetup(p0, v0, r0, p3, v3, r3).Some?
    ensures cp.Curve? ==> cp.p1.Sub(p0).Cross(v0.value) == 0.0 && cp.p1.Sub(p0).Dot(v0.value) > 0.0
    ensures cp.Curve? ==> p3.Sub(cp.p2).Cross(v3.value) == 0.0 && p3.Sub(cp.p2).Dot(v3.value) > 0.0
  {
    match CubicSetup(p0, v0, r0, p3, v3, r3)
    case None => NoCurve
    case Some(st) =>
      match HandleLengths(st, ys)
      case None => NoCurve
      case Some((x, y)) =>
        if x > 0.0 && y > 0.0 then
          HandleAlong(p0, v0.value, v3.value, x);
          HandleBehind(p3, v3.value, v0.value, y);
          Curve(p0, p0.Add(v0.value.Scale(x)), p3.Add(v3.value.Scale(-y)), p3)
        else NoCurve
  }

  /** p0 + x v lies forward along v from p0 when x > 0 and v is not parallel to some w. */
  lemma HandleAlong(p0: Vec2, v: Vec2, w: Vec2, x: real)
    requires x > 0.0 && v.Cross(w) != 0.0
    ensures p0.Add(v.Scale(x)).Sub(p0).Cross(v) == 0.0 && p0.Add(v.Scale(x)).Sub(p0).Dot(v) > 0.0
  {
    var d := p0.Add(v.Scale(x)).Sub(p0);
    assert d == Vec2(x * v.x, x * v.y);
    assert v.x != 0.0 || v.y != 0.0;
    assert d.Dot(v) == x * (v.x * v.x + v.y * v.y);
  }

  /** p3 - (p3 - y v) lies forward along v when y > 0 and v is not parallel to some w. */
  lemma HandleBehind(p3: Vec2, v: Vec2, w: Vec2, y: real)
    requires y > 0.0 && w.Cross(v) != 0.0
    ensures p3.Sub(p3.Add(v.Scale(-y))).Cross(v) == 0.0 && p3.Sub(p3.Add(v.Scale(-y))).Dot(v) > 0.0
  {
    var d := p3.Sub(p3.Add(v.Scale(-y)));
    assert d == Vec2(y * v.x, y * v.y);
    assert v.x != 0.0 || v.y != 0.0;
    assert d.Dot(v) == y * (v.x * v.x + v.y * v.y);
  }

  /**
   * The roots the cubic `control_points` chooses among, at most four: when the setup exists and
   * both curvatures are non-zero, what `solve` returns for the quartic, that is bisection between
   * neighbouring ends of -bound, the roots of the quartic's derivative and bound (none when the
   * solver runs out of fuel); otherwise none.
   */
  ghost predicate SolverRoots(p0: Vec2, v0: Tangent, r0: ExtReal, p3: Vec2, v3: Tangent, r3: ExtReal, ys: seq<real>, fuel: nat)
  {
    |ys| <= 4 &&
    match CubicSetup(p0, v0, r0, p3, v3, r3)
    case None => ys == []
    case Some(st) =>
      if st.r == 0.0 || st.s == 0.0 then ys == []
      else
        QuarticDegree(st.a, st.b, st.c, st.r, st.s);
        ys == [] || BisectedBetweenCritical(Quartic(st.a, st.b, st.c, st.r, st.s), ys, fuel)
  }

  /**
   * ys is what the even-degree branch of `solve` gives for q: bisection between neighbouring
   * ends of -bound, some list of fewer critical points than the degree, and bound.
   */
  ghost predicate BisectedBetweenCritical(q: Poly, ys: seq<real>, fuel: nat)
    requires DegreeOf(q) >= 0
  {
    exists critical: seq<real> :: |critical| < DegreeOf(q) && Some(ys) == SolveAll(q, [-RootBound(q)] + critical + [RootBound(q)], fuel)
  }

  /**
   * What `update` writes into the anchors of a segment of the given kind from p0 to p3, whose
   * tangents and radii were v0, r0 and v3, r3: the new values nv0, nr0, nv3, nr3 and, for a
   * cubic, the control polygon cp fitted with the solver's roots ys. A line takes the chord
   * direction and an infinite radius; a quadratic computes each value from the tangents as
   * they stand at that step; a cubic takes its ends' tangents and radii from its control
   * polygon and keeps the old ones when it has none.
   */
  ghost predicate Fitted(kind: SegmentKind, p0: Vec2, v0: Tangent, r0: ExtReal, p3: Vec2, v3: Tangent, r3: ExtReal,
                         ys: seq<real>, num: Numerics, nv0: Tangent, nr0: ExtReal, nv3: Tangent, nr3: ExtReal, cp: ControlPolygon)
  {
    match kind
    case Line =>
      nv0 == nv3 == Some(num.normalize(p3.Sub(p0))) && nr0 == nr3 == PosInf
    case Quadratic =>
      nv0 == QuadraticDirection(p0, v0, p3, v3, 0.0, num) &&
      nr0 == Reciprocal(QuadraticCurvature(p0, nv0, p3, v3, 0.0, num)) &&
      nv3 == QuadraticDirection(p0, nv0, p3, v3, 1.0, num) &&
      nr3 == Reciprocal(QuadraticCurvature(p0, nv0, p3, nv3, 1.0, num))
    case Cubic =>
      cp == CubicControl(p0, v0, r0, p3, v3, r3, ys) && SolverRoots(p0, v0, r0, p3, v3, r3, ys, num.fuel) &&
      (cp.NoCurve? ==> nv0 == v0 && nr0 == r0 && nv3 == v3 && nr3 == r3) &&
      (cp.Curve? ==>
        nv0 == CubicDirection(cp, 0.0, num) && nr0 == Reciprocal(CubicCurvature(cp, 0.0, num)) &&
        nv3 == CubicDirection(cp, 1.0, num) && nr3 == Reciprocal(CubicCurvature(cp, 1.0, num)))
  }

  /** Reads coordinate pairs back as points, None for a pair that is not two finite numbers. */
  function Pairs(d: seq<PathToken>): seq<Option<Vec2>>
    decreases |d|
  {
    if |d| < 2 then []
    else [if d[0].Number? && d[1].Number? then Some(Vec2(d[0].v, d[1].v)) else None] + Pairs(d[2..])
  }

  lemma PairsCons(x: real, y: real, rest: seq<PathToken>)
    ensures Pairs([Number(x), Number(y)] + rest) == [Some(Vec2(x, y))] + Pairs(rest)
  {
    assert ([Number(x), Number(y)] + rest)[2..] == rest;
  }

  // ---------------------------------------------------------------------------
  // Segments
  // ---------------------------------------------------------------------------

  /** A segment between two anchors; `cpoints` is used by cubic segments only. */
  class Segment {
    const kind: SegmentKind
    const start: Point
    const end: Point
    var cpoints: ControlPolygon

    /** A new segment; a cubic starts without a control polygon (`cpoints = false`). */
    constructor(kind: SegmentKind, start: Point, end: Point)
      ensures this.kind == kind && this.start == start && this.end == end && cpoints == NoCurve
    {
      this.kind := kind;
      this.start := start;
      this.end := end;
      cpoints := NoCurve;
    }

    /** `p1` of a quadratic: the control point on both tangent lines, when they cross. */
    function P1(): (q: Option<Vec2>)
      requires kind == Quadratic
      reads this, start, end
      ensures q.Some? <==> start.v.Some? && end.v.Some? && end.v.value.Cross(start.v.value) != 0.0
      ensures q.Some? ==> q.value.Sub(start.p).Cross(start.v.value) == 0.0
      ensures q.Some? ==> q.value.Sub(end.p).Cross(end.v.value) == 0.0
    {
      QuadraticControlOf(start.p, start.v, end.p, end.v)
    }

    /** `control_points` of a quadratic: `[start.p, q, end.p]` with q the point `p1` gives. */
    function QuadraticControlPoints(): (cp: Option<seq<Vec2>>)
      requires kind == Quadratic
      reads this, start, end
      ensures cp.Some? <==> P1().Some?
      ensures cp.Some? ==> cp.value == [start.p, P1().value, end.p]
    {
      match QuadraticControlOf(start.p, start.v, end.p, end.v)
      case None => None
      case Some(q) => Some([start.p, q, end.p])
    }

    /** `direction(t)`: the unit tangent of the segment at parameter t. */
    function Direction(t: real, num: Numerics): (d: Tangent)
      reads this, start, end
      ensures kind == Line ==> d.Some?
      ensures kind == Quadratic ==> (d.Some? <==> P1().Some?)
      ensures kind == Cubic ==> (d.Some? <==> cpoints.Curve?)
    {
      match kind
      case Line => Some(num.normalize(end.p.Sub(start.p)))
      case Quadratic => QuadraticDirection(start.p, start.v, end.p, end.v, t, num)
      case Cubic => CubicDirection(cpoints, t, num)
    }

    /** `curvature(t)`: the signed curvature of the segment at parameter t. */
    function Curvature(t: real, num: Numerics): (k: ExtReal)
      reads this, start, end
      ensures kind == Line ==> k == Finite(0.0)
      ensures kind == Quadratic && P1().None? ==> k.NaN?
      ensures kind == Cubic && cpoints.NoCurve? ==> k.NaN?
    {
      match kind
      case Line => Finite(0.0)
      case Quadratic => QuadraticCurvature(start.p, start.v, end.p, end.v, t, num)
      case Cubic => CubicCurvature(cpoints, t, num)
    }

    /** The point the segment's data ends at: the last control point of a cubic with a polygon, else the end anchor. */
    function LastPoint(): Vec2
      reads this, end
    {
      if kind == Cubic && cpoints.Curve? then cpoints.p3 else end.p
    }

    /**
     * `svg_data`: one command letter followed by coordinates. A line writes `L` and its end
     * anchor; a quadratic `Q`, its control point `p1` (NaN when there is none) and its end
     * anchor; a cubic `C` and the last three points of its control polygon, or a straight `L`
     * to the end anchor when it has none.
     */
    function SvgData(): (d: seq<PathToken>)
      reads this, start, end
      ensures |d| >= 3 && d[0].Command? && d[|d| - 2..] == [Number(LastPoint().x), Number(LastPoint().y)]
      ensures forall i :: 1 <= i < |d| ==> !d[i].Command?
      ensures kind == Line ==> d == [Command('L'), Number(end.p.x), Number(end.p.y)]
      ensures kind == Quadratic && P1().Some? ==>
        d == [Command('Q'), Number(P1().value.x), Number(P1().value.y), Number(end.p.x), Number(end.p.y)]
      ensures kind == Quadratic && P1().None? ==> d == [Command('Q'), NonFinite, NonFinite, Number(end.p.x), Number(end.p.y)]
      ensures kind == Cubic && cpoints.Curve? ==>
        d == [Command('C'), Number(cpoints.p1.x), Number(cpoints.p1.y), Number(cpoints.p2.x), Number(cpoints.p2.y),
              Number(cpoints.p3.x), Number(cpoints.p3.y)]
      ensures kind == Cubic && cpoints.NoCurve? ==> d == [Command('L'), Number(end.p.x), Number(end.p.y)]
    {
      match kind
      case Line => [Command('L'), Number(end.p.x), Number(end.p.y)]
      case Quadratic =>
        (match QuadraticControlOf(start.p, start.v, end.p, end.v)
         case None => [Command('Q'), NonFinite, NonFinite]
         case Some(q) => [Command('Q'), Number(q.x), Number(q.y)]) + [Number(end.p.x), Number(end.p.y)]
      case Cubic =>
        match cpoints
        case NoCurve => [Command('L'), Number(end.p.x), Number(end.p.y)]
        case Curve(_, p1, p2, p3) =>
          [Command('C'), Number(p1.x), Number(p1.y), Number(p2.x), Number(p2.y), Number(p3.x), Number(p3.y)]
    }

    /**
     * Reading the coordinates of `svg_data` back gives the points the segment is drawn through:
     * the end anchor of a line, the control point and end anchor of a quadratic, the last three
     * control points of a cubic.
     */
    lemma SvgDataPoints()
      ensures kind == Line ==> Pairs(SvgData()[1..]) == [Some(end.p)]
      ensures kind == Quadratic ==> Pairs(SvgData()[1..]) == [P1(), Some(end.p)]
      ensures kind == Cubic && cpoints.Curve? ==> Pairs(SvgData()[1..]) == [Some(cpoints.p1), Some(cpoints.p2), Some(cpoints.p3)]
      ensures kind == Cubic && cpoints.NoCurve? ==> Pairs(SvgData()[1..]) == [Some(end.p)]
    {
      var e := [Number(end.p.x), Number(end.p.y)];
      PairsCons(end.p.x, end.p.y, []);
      assert e + [] == e;
      match kind
      case Line =>
        assert SvgData()[1..] == e;
      case Quadratic =>
        if P1().Some? {
          var q := P1().value;
          assert SvgData()[1..] == [Number(q.x), Number(q.y)] + e;
          PairsCons(q.x, q.y, e);
        } else {
          assert SvgData()[1..] == [NonFinite, NonFinite] + e;
          assert ([NonFinite, NonFinite] + e)[2..] == e;
        }
      case Cubic =>
        if cpoints.Curve? {
          var c := cpoints;
          var tail := [Number(c.p3.x), Number(c.p3.y)];
          assert SvgData()[1..] == [Number(c.p1.x), Number(c.p1.y)] + ([Number(c.p2.x), Number(c.p2.y)] + tail);
          PairsCons(c.p3.x, c.p3.y, []);
          assert tail + [] == tail;
          PairsCons(c.p2.x, c.p2.y, tail);
          PairsCons(c.p1.x, c.p1.y, [Number(c.p2.x), Number(c.p2.y)] + tail);
        } else {
          assert SvgData()[1..] == e;
        }
    }

    /**
     * `control_points` of a cubic. When both curvatures are non-zero it solves the quartic;
     * the ghost `ys` are the roots the solver returned (none when it returned nothing).
     */
    method ControlPoints(num: Numerics) returns (cp: ControlPolygon, ghost ys: seq<real>)
      requires kind == Cubic
      ensures cp == CubicControl(start.p, start.v, start.r, end.p, end.v, end.r, ys)
      ensures SolverRoots(start.p, start.v, start.r, end.p, end.v, end.r, ys, num.fuel)
      ensures var st := CubicSetup(start.p, start.v, start.r, end.p, end.v, end.r);
        st.None? ==> cp.NoCurve?
      ensures var st := CubicSetup(start.p, start.v, start.r, end.p, end.v, end.r);
        st.Some? && (st.value.r == 0.0 || st.value.s == 0.0) ==>
          cp == CubicControl(start.p, start.v, start.r, end.p, end.v, end.r, [])
      ensures cp.Curve? ==> cp.p0 == start.p && cp.p3 == end.p
    {
      var st := CubicSetup(start.p, start.v, start.r, end.p, end.v, end.r);
      var found := [];
      if st.Some? && st.value.r != 0.0 && st.value.s != 0.0 {
        var quartic := Quartic(st.value.a, st.value.b, st.value.c, st.value.r, st.value.s);
        QuarticDegree(st.value.a, st.value.b, st.value.c, st.value.r, st.value.s);
        var roots := Solve(quartic, num);
        if roots.Some? {
          found := roots.value;
          assert BisectedBetweenCritical(quartic, found, num.fuel);
        }
      }
      cp, ys := CubicControl(start.p, start.v, start.r, end.p, end.v, end.r, found), found;
    }

    /**
     * `update`: write the tangent and the radius of curvature at both ends into the anchors,
     * in the source's order (start tangent, start radius, end tangent, end radius), so that
     * a quadratic computes the later values from the tangent it has just written. A cubic first
     * recomputes its control polygon and leaves the anchors alone when there is none.
     */
    method Update(num: Numerics) returns (ghost ys: seq<real>)
      modifies this, start, end
      ensures start.p == old(start.p) && end.p == old(end.p)
      ensures start.parentSegments == old(start.parentSegments) && end.parentSegments == old(end.parentSegments)
      ensures kind != Cubic ==> cpoints == old(cpoints)
      ensures kind != Quadratic || start != end ==>
        Fitted(kind, start.p, old(start.v), old(start.r), end.p, old(end.v), old(end.r), ys, num,
               start.v, start.r, end.v, end.r, cpoints)
      ensures kind == Quadratic && start == end ==> start.v.None? && start.r.NaN?
      ensures kind == Cubic ==> LastPoint() == end.p
    {
      ys := [];
      match kind
      case Line => UpdateLine(num);
      case Quadratic => UpdateQuadratic(num);
      case Cubic => ys := UpdateCubic(num);
    }

    /** `update` of a linear segment: the chord direction and an infinite radius at both ends. */
    method UpdateLine(num: Numerics)
      requires kind == Line
      modifies start, end
      ensures start.p == old(start.p) && end.p == old(end.p)
      ensures start.parentSegments == old(start.parentSegments) && end.parentSegments == old(end.parentSegments)
      ensures start.v == end.v == Some(num.normalize(end.p.Sub(start.p))) && start.r == end.r == PosInf
    {
      start.v := Direction(0.0, num);
      start.r := Reciprocal(Curvature(0.0, num));
      end.v := Direction(1.0, num);
      end.r := Reciprocal(Curvature(1.0, num));
    }

    /** `update` of a quadratic, each value computed from the anchors as they are at that step. */
    method UpdateQuadratic(num: Numerics)
      requires kind == Quadratic
      modifies start, end
      ensures start.p == old(start.p) && end.p == old(end.p)
      ensures start.parentSegments == old(start.parentSegments) && end.parentSegments == old(end.parentSegments)
      ensures start != end ==>
        var v0 := QuadraticDirection(start.p, old(start.v), end.p, old(end.v), 0.0, num);
        start.v == v0 &&
        start.r == Reciprocal(QuadraticCurvature(start.p, v0, end.p, old(end.v), 0.0, num)) &&
        end.v == QuadraticDirection(start.p, v0, end.p, old(end.v), 1.0, num) &&
        end.r == Reciprocal(QuadraticCurvature(start.p, v0, end.p, end.v, 1.0, num))
      ensures start == end ==> start.v.None? && start.r.NaN?
    {
      start.v := Direction(0.0, num);
      start.r := Reciprocal(Curvature(0.0, num));
      end.v := Direction(1.0, num);
      end.r := Reciprocal(Curvature(1.0, num));
    }

    /** `update` of a cubic: recompute the control polygon, then the anchors only if there is one. */
    method UpdateCubic(num: Numerics) returns (ghost ys: seq<real>)
      requires kind == Cubic
      modifies this, start, end
      ensures start.p == old(start.p) && end.p == old(end.p)
      ensures start.parentSegments == old(start.parentSegments) && end.parentSegments == old(end.parentSegments)
      ensures cpoints == CubicControl(start.p, old(start.v), old(start.r), end.p, old(end.v), old(end.r), ys)
      ensures SolverRoots(start.p, old(start.v), old(start.r), end.p, old(end.v), old(end.r), ys, num.fuel)
      ensures cpoints.NoCurve? ==>
        start.v == old(start.v) && start.r == old(start.r) && end.v == old(end.v) && end.r == old(end.r)
      ensures cpoints.Curve? ==>
        start.v == CubicDirection(cpoints, 0.0, num) && start.r == Reciprocal(CubicCurvature(cpoints, 0.0, num)) &&
        end.v == CubicDirection(cpoints, 1.0, num) && end.r == Reciprocal(CubicCurvature(cpoints, 1.0, num))
    {
      var cp;
      cp, ys := ControlPoints(num);
      cpoints := cp;
      if cp.NoCurve? {
        return;
      }
      if start == end {
        SameAnchorNoCurve(start.p, start.v, start.r, ys);
        assert false;
      }
      // The tangents and curvatures of a cubic depend on its control polygon only.
      var v0, k0 := CubicDirection(cp, 0.0, num), CubicCurvature(cp, 0.0, num);
      var v1, k1 := CubicDirection(cp, 1.0, num), CubicCurvature(cp, 1.0, num);
      start.v := v0;
      start.r := Reciprocal(k0);
      end.v := v1;
      end.r := Reciprocal(k1);
    }
  }

  /**
   * With a unit end tangent, the cubic's curvature at t = 1 is exactly s = 1/end.r: the handle
   * lengths always satisfy the end relation.
   */
  lemma CubicEndCurvature(p0: Vec2, v0: Tangent, r0: ExtReal, p3: Vec2, v3: Tangent, r3: ExtReal, ys: seq<real>, num: Numerics)
    requires CubicControl(p0, v0, r0, p3, v3, r3, ys).Curve? && Unit(num.norm, v3.value)
    ensures CubicCurvature(CubicControl(p0, v0, r0, p3, v3, r3, ys), 1.0, num) == Finite(CubicSetup(p0, v0, r0, p3, v3, r3).value.s)
  {
    var st := CubicSetup(p0, v0, r0, p3, v3, r3).value;
    var h := HandleLengths(st, ys).value;
    var x, y := h.0, h.1;
    assert CubicControl(p0, v0, r0, p3, v3, r3, ys) == Curve(p0, p0.Add(v0.value.Scale(x)), p3.Add(v3.value.Scale(-y)), p3);
    assert num.norm(v3.value.Scale(3.0 * y)) == 3.0 * y;
    CurvatureAtEnd(p0, v0.value, p3, v3.value, x, y, st.s, num.norm, st.b, st.c);
  }

  /**
   * With a unit start tangent, the cubic's curvature at t = 0 is r = 1/start.r exactly when
   * one of the curvatures is zero or the chosen y is an exact root of the quartic.
   */
  lemma CubicStartCurvature(p0: Vec2, v0: Tangent, r0: ExtReal, p3: Vec2, v3: Tangent, r3: ExtReal, ys: seq<real>, num: Numerics)
    requires CubicControl(p0, v0, r0, p3, v3, r3, ys).Curve? && Unit(num.norm, v0.value)
    ensures var st := CubicSetup(p0, v0, r0, p3, v3, r3).value;
      CubicCurvature(CubicControl(p0, v0, r0, p3, v3, r3, ys), 0.0, num) == Finite(st.r) <==>
        st.r == 0.0 || st.s == 0.0 || Value(Quartic(st.a, st.b, st.c, st.r, st.s), HandleLengths(st, ys).value.1) == 0.0
  {
    var st := CubicSetup(p0, v0, r0, p3, v3, r3).value;
    var h := HandleLengths(st, ys).value;
    var x, y := h.0, h.1;
    assert CubicControl(p0, v0, r0, p3, v3, r3, ys) == Curve(p0, p0.Add(v0.value.Scale(x)), p3.Add(v3.value.Scale(-y)), p3);
    assert num.norm(v0.value.Scale(3.0 * x)) == 3.0 * x;
    CurvatureAtStart(p0, v0.value, p3, v3.value, x, y, st.r, num.norm, st.a, st.b);
    QuarticFromRelations(st.a, st.b, st.c, st.r, st.s, y);
  }

  /**
   * `update` hands the end anchor its radius back: a finite non-zero radius is kept, and an
   * infinite one (a straight end) comes back as +Infinity.
   */
  lemma CubicKeepsEndRadius(p0: Vec2, v0: Tangent, r0: ExtReal, p3: Vec2, v3: Tangent, r3: ExtReal, ys: seq<real>, num: Numerics)
    requires CubicControl(p0, v0, r0, p3, v3, r3, ys).Curve? && Unit(num.norm, v3.value)
    ensures var k := CubicCurvature(CubicControl(p0, v0, r0, p3, v3, r3, ys), 1.0, num);
      (r3.Finite? ==> Reciprocal(k) == r3) && (r3.PosInf? || r3.NegInf? ==> Reciprocal(k) == PosInf)
  {
    CubicEndCurvature(p0, v0, r0, p3, v3, r3, ys, num);
    RadiusRoundTrip(r3, CubicCurvature(CubicControl(p0, v0, r0, p3, v3, r3, ys), 1.0, num), CubicSetup(p0, v0, r0, p3, v3, r3).value.s);
  }

  /**
   * The start anchor gets its radius back under the same condition as its curvature: when
   * one of the curvatures is zero or y is an exact root of the quartic.
   */
  lemma CubicKeepsStartRadius(p0: Vec2, v0: Tangent, r0: ExtReal, p3: Vec2, v3: Tangent, r3: ExtReal, ys: seq<real>, num: Numerics)
    requires CubicControl(p0, v0, r0, p3, v3, r3, ys).Curve? && Unit(num.norm, v0.value)
    requires var st := CubicSetup(p0, v0, r0, p3, v3, r3).value;
      st.r == 0.0 || st.s == 0.0 || Value(Quartic(st.a, st.b, st.c, st.r, st.s), HandleLengths(st, ys).value.1) == 0.0
    ensures var k := CubicCurvature(CubicControl(p0, v0, r0, p3, v3, r3, ys), 0.0, num);
      (r0.Finite? ==> Reciprocal(k) == r0) && (r0.PosInf? || r0.NegInf? ==> Reciprocal(k) == PosInf)
  {
    CubicStartCurvature(p0, v0, r0, p3, v3, r3, ys, num);
    RadiusRoundTrip(r0, CubicCurvature(CubicControl(p0, v0, r0, p3, v3, r3, ys), 0.0, num), CubicSetup(p0, v0, r0, p3, v3, r3).value.r);
  }

  /** A curvature equal to the reciprocal of a radius gives the radius back (an infinity as +Infinity). */
  lemma RadiusRoundTrip(radius: ExtReal, k: ExtReal, c: real)
    requires Reciprocal(radius) == Finite(c) && k == Finite(c)
    ensures radius.Finite? ==> Reciprocal(k) == radius
    ensures radius.PosInf? || radius.NegInf? ==> Reciprocal(k) == PosInf
  {
    if radius.Finite? {
      assert radius.v != 0.0 && c == 1.0 / radius.v;
    }
  }

  /** `normalize` keeps a vector on its own line (it only rescales it). */
  ghost predicate KeepsLine(normalize: Vec2 -> Vec2)
  {
    forall u :: normalize(u).Cross(u) == 0.0
  }

  /**
   * The tangents a quadratic writes stay on the anchors' tangent lines: the direction at t = 0
   * is parallel to the start tangent and the one at t = 1 to the end tangent, whenever the
   * control point differs from that anchor.
   */
  lemma QuadraticDirectionOnTangents(p0: Vec2, v0: Tangent, p2: Vec2, v2: Tangent, num: Numerics)
    requires KeepsLine(num.normalize) && QuadraticControlOf(p0, v0, p2, v2).Some?
    ensures var q := QuadraticControlOf(p0, v0, p2, v2).value;
      (q != p0 ==> QuadraticDirection(p0, v0, p2, v2, 0.0, num).value.Cross(v0.value) == 0.0) &&
      (q != p2 ==> QuadraticDirection(p0, v0, p2, v2, 1.0, num).value.Cross(v2.value) == 0.0)
  {
    var q := QuadraticControlOf(p0, v0, p2, v2).value;
    var u0, u1 := QuadraticVelocity(p0, q, p2, 0.0), QuadraticVelocity(p0, q, p2, 1.0);
    QuadraticTangents(p0, v0.value, p2, v2.value);
    if q != p0 {
      assert u0 == Vec2(2.0 * (q.x - p0.x), 2.0 * (q.y - p0.y));
      NormalizedAlong(u0, v0.value, num);
      assert QuadraticDirection(p0, v0, p2, v2, 0.0, num) == Some(num.normalize(u0));
    }
    if q != p2 {
      assert u1 == Vec2(2.0 * (p2.x - q.x), 2.0 * (p2.y - q.y));
      NormalizedAlong(u1, v2.value, num);
      assert QuadraticDirection(p0, v0, p2, v2, 1.0, num) == Some(num.normalize(u1));
    }
  }

  /** Normalizing a non-zero vector parallel to v gives a vector parallel to v. */
  lemma NormalizedAlong(u: Vec2, v: Vec2, num: Numerics)
    requires KeepsLine(num.normalize) && u != Vec2(0.0, 0.0) && u.Cross(v) == 0.0
    ensures num.normalize(u).Cross(v) == 0.0
  {
    assert num.normalize(u).Cross(u) == 0.0;
    ParallelThrough(num.normalize(u), u, v);
  }

  /** Parallel to a non-zero vector that is parallel to v means parallel to v. */
  lemma ParallelThrough(w: Vec2, u: Vec2, v: Vec2)
    requires u != Vec2(0.0, 0.0) && w.Cross(u) == 0.0 && u.Cross(v) == 0.0
    ensures w.Cross(v) == 0.0
  {
    if u.x != 0.0 {
      assert u.x * w.Cross(v) == w.x * (u.x * v.y) - (w.y * u.x) * v.x;
    } else {
      assert u.y * w.Cross(v) == (w.x * u.y) * v.y - w.y * (u.y * v.x);
    }
  }

  /** A linear segment has the same direction and zero curvature everywhere. */
  lemma LineIsStraight(seg: Segment, t0: real, t1: real, num: Numerics)
    requires seg.kind == Line
    ensures seg.Direction(t0, num) == seg.Direction(t1, num) && seg.Curvature(t0, num) == Finite(0.0)
  {
  }

  /** A cubic from an anchor to itself has parallel tangents and so no control polygon. */
  lemma SameAnchorNoCurve(p: Vec2, v: Tangent, r: ExtReal, ys: seq<real>)
    ensures CubicControl(p, v, r, p, v, r, ys).NoCurve?
  {
    if v.Some? {
      assert v.value.Cross(v.value) == 0.0;
    }
  }

  // ---------------------------------------------------------------------------
  // Paths
  // ---------------------------------------------------------------------------

  /** The anchors of a list of segments. */
  function Anchors(segs: seq<Segment>): set<Point>
  {
    (set s | s in segs :: s.start) + (set s | s in segs :: s.end)
  }

  /** The number of command letters in path data. */
  function CommandCount(d: seq<PathToken>): nat
  {
    if d == [] then 0 else (if d[0].Command? then 1 else 0) + CommandCount(d[1..])
  }

  /** The path data of a list of segments, one `svg_data` after the other: one command per segment. */
  function SegmentsData(segs: seq<Segment>): (d: seq<PathToken>)
    reads (set s | s in segs), Anchors(segs)
    ensures CommandCount(d) == |segs|
  {
    if segs == [] then []
    else
      var head, tail := segs[0].SvgData(), SegmentsData(segs[1..]);
      SegmentCommands(head);
      CommandCountAppend(head, tail);
      head + tail
  }

  /** The path data of a non-empty list of segments ends at the last point of the last segment. */
  lemma {:induction false} SegmentsDataEnd(segs: seq<Segment>)
    requires segs != []
    ensures var d := SegmentsData(segs);
      |d| >= 3 && d[|d| - 2..] == [Number(segs[|segs| - 1].LastPoint().x), Number(segs[|segs| - 1].LastPoint().y)]
  {
    var head, tail := segs[0].SvgData(), SegmentsData(segs[1..]);
    assert SegmentsData(segs) == head + tail;
    if |segs| == 1 {
      assert tail == [];
      assert head + tail == head;
    } else {
      SegmentsDataEnd(segs[1..]);
      assert segs[1..][|segs| - 2] == segs[|segs| - 1];
      LastPairOfAppend(head, tail);
    }
  }

  /** The last two tokens of a + b are those of b when b has at least two. */
  lemma LastPairOfAppend(a: seq<PathToken>, b: seq<PathToken>)
    requires |b| >= 2
    ensures (a + b)[|a + b| - 2..] == b[|b| - 2..]
  {
    assert (a + b)[|a + b| - 2..] == [b[|b| - 2], b[|b| - 1]];
  }

  /** Counting commands distributes over concatenation. */
  lemma {:induction false} CommandCountAppend(a: seq<PathToken>, b: seq<PathToken>)
    ensures CommandCount(a + b) == CommandCount(a) + CommandCount(b)
  {
    if a == [] {
      assert a + b == b;
    } else {
      assert (a + b)[0] == a[0] && (a + b)[1..] == a[1..] + b;
      CommandCountAppend(a[1..], b);
    }
  }

  /** The data of one segment holds exactly one command. */
  lemma SegmentCommands(d: seq<PathToken>)
    requires d != [] && d[0].Command?
    requires forall i :: 1 <= i < |d| ==> !d[i].Command?
    ensures CommandCount(d) == 1
  {
    NoCommands(d[1..]);
  }

  /** Data with no command letter counts none. */
  lemma {:induction false} NoCommands(d: seq<PathToken>)
    requires forall i :: 0 <= i < |d| ==> !d[i].Command?
    ensures CommandCount(d) == 0
  {
    if d != [] {
      NoCommands(d[1..]);
    }
  }

  /**
   * Where the piece of path data that begins before index i ends: the first command letter
   * from i on, or the end of the data.
   */
  function PieceEnd(d: seq<PathToken>, i: nat): (k: nat)
    requires 1 <= i <= |d|
    ensures i <= k <= |d| && (k < |d| ==> d[k].Command?)
    ensures forall j :: i <= j < k ==> !d[j].Command?
    decreases |d| - i
  {
    if i == |d| || d[i].Command? then i else PieceEnd(d, i + 1)
  }

  /** Path data cut before every command letter after the first token: one piece per command. */
  function Pieces(d: seq<PathToken>): seq<seq<PathToken>>
    decreases |d|
  {
    if d == [] then [] else var k := PieceEnd(d, 1); [d[..k]] + Pieces(d[k..])
  }

  /** The pieces joined back together. */
  function Join(ps: seq<seq<PathToken>>): seq<PathToken>
  {
    if ps == [] then [] else ps[0] + Join(ps[1..])
  }

  /** Cutting path data into pieces loses and reorders nothing. */
  lemma {:induction false} PiecesJoin(d: seq<PathToken>)
    ensures Join(Pieces(d)) == d
    decreases |d|
  {
    if d != [] {
      var k := PieceEnd(d, 1);
      PiecesJoin(d[k..]);
      assert d[..k] + d[k..] == d;
    }
  }

  /** One command's data followed by data that starts with a command is cut after the first. */
  lemma PiecesAppend(a: seq<PathToken>, b: seq<PathToken>)
    requires a != [] && a[0].Command?
    requires forall i :: 1 <= i < |a| ==> !a[i].Command?
    requires b == [] || b[0].Command?
    ensures Pieces(a + b) == [a] + Pieces(b)
  {
    var d := a + b;
    assert forall j :: 1 <= j < |a| ==> d[j] == a[j];
    assert |a| < |d| ==> d[|a|] == b[0];
    var k := PieceEnd(d, 1);
    assert d[..k] == a && d[k..] == b;
  }

  /** The data of a list of segments cuts into the segments' own data, in order. */
  lemma {:induction false} SegmentsDataPieces(segs: seq<Segment>)
    ensures var p := Pieces(SegmentsData(segs));
      |p| == |segs| && forall i :: 0 <= i < |segs| ==> p[i] == segs[i].SvgData()
    ensures segs != [] ==> SegmentsData(segs)[0].Command?
  {
    if segs != [] {
      var head, tail := segs[0].SvgData(), SegmentsData(segs[1..]);
      assert SegmentsData(segs) == head + tail;
      SegmentsDataPieces(segs[1..]);
      PiecesAppend(head, tail);
      var p := Pieces(SegmentsData(segs));
      forall i | 0 <= i < |segs|
        ensures p[i] == segs[i].SvgData()
      {
        if i > 0 {
          assert p[i] == Pieces(tail)[i - 1];
          assert segs[1..][i - 1] == segs[i];
        }
      }
    }
  }

  /** A path: its segments in order and, from `start_path` on, its first anchor. */
  class Path {
    var segments: seq<Segment>
    var onlyPoint: Point?

    /** A new path has no segment and no anchor yet. */
    constructor()
      ensures segments == [] && onlyPoint == null
    {
      segments := [];
      onlyPoint := null;
    }

    /** `start_point`: the first segment's start, or the lone anchor of a path without segments. */
    function StartPoint(): (pt: Point?)
      reads this
      ensures segments != [] ==> pt == segments[0].start
      ensures segments == [] ==> pt == onlyPoint
    {
      if |segments| > 0 then segments[0].start else onlyPoint
    }

    /** `end_point`: the last segment's end, or the lone anchor of a path without segments. */
    function EndPoint(): (pt: Point?)
      reads this
      ensures segments != [] ==> pt == segments[|segments| - 1].end
      ensures segments == [] ==> pt == onlyPoint
    {
      if |segments| > 0 then segments[|segments| - 1].end else onlyPoint
    }

    /** Consecutive segments share their anchor: each one ends where the next one starts. */
    ghost predicate Chained()
      reads this
    {
      forall i :: 0 <= i < |segments| - 1 ==> segments[i].end == segments[i + 1].start
    }

    /**
     * The point the path data ends at: the last point of the last segment, or the lone anchor.
     * It is the end anchor unless the last segment is a cubic whose polygon ends elsewhere.
     */
    function DataEnd(): (q: Vec2)
      requires StartPoint() != null
      reads this, onlyPoint, (set s | s in segments), Anchors(segments)
      ensures segments == [] || segments[|segments| - 1].LastPoint() == EndPoint().p ==> q == EndPoint().p
    {
      if segments == [] then onlyPoint.p else segments[|segments| - 1].LastPoint()
    }

    /**
     * `svg_attr`'s path data: a move to the start anchor, then every segment's data in order.
     * It holds one command per segment after the move, and ends at the last segment's last
     * point, which is the end anchor when that segment's polygon ends there (as `update`
     * leaves it) or the lone anchor when there is no segment.
     */
    function SvgAttr(): (d: seq<PathToken>)
      requires StartPoint() != null
      reads this, onlyPoint, (set s | s in segments), Anchors(segments)
      ensures |d| >= 3 && d[..3] == [Command('M'), Number(StartPoint().p.x), Number(StartPoint().p.y)]
      ensures CommandCount(d) == |segments| + 1
      ensures d[|d| - 2..] == [Number(DataEnd().x), Number(DataEnd().y)]
    {
      var move := [Command('M'), Number(StartPoint().p.x), Number(StartPoint().p.y)];
      var rest := SegmentsData(segments);
      CommandCountAppend(move, rest);
      assert CommandCount(move) == 1 by { SegmentCommands(move); }
      if segments == [] then
        assert move + rest == move;
        assert DataEnd() == StartPoint().p;
        move + rest
      else
        var last := segments[|segments| - 1].LastPoint();
        assert DataEnd() == last;
        SegmentsDataEnd(segments);
        assert rest[|rest| - 2..] == [Number(last.x), Number(last.y)];
        LastPairOfAppend(move, rest);
        move + rest
    }

    /**
     * Cut at its command letters, the path data is the move to the start anchor followed by
     * each segment's `svg_data`, in the order of the segments.
     */
    lemma SvgAttrPieces()
      requires StartPoint() != null
      ensures var p := Pieces(SvgAttr());
        |p| == |segments| + 1 && p[0] == [Command('M'), Number(StartPoint().p.x), Number(StartPoint().p.y)] &&
        forall i :: 0 <= i < |segments| ==> p[i + 1] == segments[i].SvgData()
    {
      var move := [Command('M'), Number(StartPoint().p.x), Number(StartPoint().p.y)];
      var rest := SegmentsData(segments);
      assert SvgAttr() == move + rest;
      SegmentsDataPieces(segments);
      PiecesAppend(move, rest);
    }
  }
}
