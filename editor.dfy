/**
 * The editor of beziereditor.js without its DOM: the numeric helpers `limit`, `limit2`,
 * `mod_pos` and `snap`, grid snapping, the conversions between page and SVG coordinates, and
 * the bookkeeping of `start_path` and `next_point`, which chain segments into paths and link
 * every anchor back to the segments that use it.
 */
module Editor {
  import opened Base
  import opened Geometry
  import opened Paths

  // ---------------------------------------------------------------------------
  // Numeric helpers
  // ---------------------------------------------------------------------------

  /** `limit(min, max)(a)`: clamp a into [min, max]. */
  function Limit(min: real, max: real, a: real): (r: real)
    ensures min <= max ==> min <= r <= max
    ensures min <= a <= max ==> r == a
    ensures r == a || r == min || r == max
  {
    if a < min then min else if a > max then max else a
  }

  /** `limit2(min, max)(a)`: values below the range become -Infinity, above it +Infinity. */
  function Limit2(min: real, max: real, a: real): (r: ExtReal)
    ensures a < min <==> r.NegInf?
    ensures min <= a && a > max <==> r.PosInf?
    ensures min <= a <= max <==> r == Finite(a)
  {
    if a < min then NegInf else if a > max then PosInf else Finite(a)
  }

  /** z is a whole number. */
  predicate IsInt(z: real)
  {
    z.Floor as real == z
  }

  /** Truncation toward zero, as JavaScript's `%` uses it. */
  function Trunc(z: real): (n: int)
    ensures 0.0 <= z ==> 0.0 <= z - n as real < 1.0
    ensures z < 0.0 ==> -1.0 < z - n as real <= 0.0
  {
    if z >= 0.0 then z.Floor else -((-z).Floor)
  }

  /**
   * JavaScript's `x % y` for y != 0: x minus a whole multiple of y, smaller than |y| in size
   * and with the sign of x.
   */
  function JsRem(x: real, y: real): (r: real)
    requires y != 0.0
    ensures IsInt((x - r) / y)
    ensures -Abs(y) < r < Abs(y)
    ensures 0.0 <= x ==> 0.0 <= r
    ensures x < 0.0 ==> r <= 0.0
  {
    var q := Trunc(x / y);
    var r := x - y * q as real;
    assert (x - r) / y == q as real;
    RemainderBounds(x, y, q);
    r
  }

  /** x - y q has the size and sign that truncating x / y to q promises. */
  lemma RemainderBounds(x: real, y: real, q: int)
    requires y != 0.0
    requires 0.0 <= x / y ==> 0.0 <= x / y - q as real < 1.0
    requires x / y < 0.0 ==> -1.0 < x / y - q as real <= 0.0
    ensures -Abs(y) < x - y * q as real < Abs(y)
    ensures 0.0 <= x ==> 0.0 <= x - y * q as real
    ensures x < 0.0 ==> x - y * q as real <= 0.0
  {
    var z := x / y;
    var f := z - q as real;
    assert x == y * z;
    assert x - y * q as real == y * f;
    ProductBelow(y, f);
    ProductSign(y, z, f);
  }

  /** |y f| < |y| when |f| < 1. */
  lemma ProductBelow(y: real, f: real)
    requires y != 0.0 && -1.0 < f < 1.0
    ensures -Abs(y) < y * f < Abs(y)
  {
    if y > 0.0 {
      assert y * f < y * 1.0 && y * (-1.0) < y * f;
    } else {
      assert y * f < (-y) * 1.0 && (-y) * (-1.0) < y * f;
    }
  }

  /** y z and y f have the same sign when f has the sign of z (or is 0). */
  lemma ProductSign(y: real, z: real, f: real)
    requires 0.0 <= z ==> 0.0 <= f
    requires z < 0.0 ==> f <= 0.0
    requires z == 0.0 ==> f == 0.0
    ensures 0.0 <= y * z ==> 0.0 <= y * f
    ensures y * z < 0.0 ==> y * f <= 0.0
  {
    if y > 0.0 {
      if z >= 0.0 { assert y * f >= 0.0; } else { assert y * z < 0.0 && y * f <= 0.0; }
    } else if y < 0.0 {
      if z > 0.0 { assert y * z < 0.0 && y * f <= 0.0; } else if z < 0.0 { assert y * z > 0.0 && y * f >= 0.0; }
    }
  }

  /**
   * `mod_pos(x, y)`: the remainder of x by y moved into [0, |y|). It differs from x by a whole
   * multiple of y. With y = 0 the source computes NaN; that is None here.
   */
  function ModPos(x: real, y: real): (m: Option<real>)
    ensures m.None? <==> y == 0.0
    ensures m.Some? ==> 0.0 <= m.value < Abs(y) && IsInt((x - m.value) / y)
  {
    if y == 0.0 then None
    else
      var r := JsRem(x, y);
      if r >= 0.0 then Some(r)
      else
        ShiftedRemainder(x, y, r);
        Some(r + Abs(y))
  }

  /** Adding |y| to a remainder keeps it a whole multiple of y away from x. */
  lemma ShiftedRemainder(x: real, y: real, r: real)
    requires y != 0.0 && IsInt((x - r) / y)
    ensures IsInt((x - (r + Abs(y))) / y)
  {
    var k := ((x - r) / y).Floor;
    MultipleOfQuotient(x - r, y);
    var k2 := if y > 0.0 then k - 1 else k + 1;
    assert x - (r + Abs(y)) == k2 as real * y;
    QuotientOfMultiple(x - (r + Abs(y)), y, k2);
  }

  /** A whole quotient d / y = k means d = k y. */
  lemma MultipleOfQuotient(d: real, y: real)
    requires y != 0.0 && IsInt(d / y)
    ensures d == (d / y).Floor as real * y
  {
  }

  /** d = k y means d / y is the whole number k. */
  lemma QuotientOfMultiple(d: real, y: real, k: int)
    requires y != 0.0 && d == k as real * y
    ensures d / y == k as real && IsInt(d / y)
  {
  }

  /** The remainder in [0, |y|) is unique: any such m that differs from x by a multiple of y is `mod_pos`. */
  lemma ModPosUnique(x: real, y: real, m: real)
    requires y != 0.0 && 0.0 <= m < Abs(y) && IsInt((x - m) / y)
    ensures ModPos(x, y) == Some(m)
  {
    SameRemainder(x, y, ModPos(x, y).value, m);
  }

  /** Two remainders in [0, |y|) that both differ from x by whole multiples of y are equal. */
  lemma SameRemainder(x: real, y: real, m0: real, m: real)
    requires y != 0.0 && 0.0 <= m0 < Abs(y) && 0.0 <= m < Abs(y)
    requires IsInt((x - m0) / y) && IsInt((x - m) / y)
    ensures m0 == m
  {
    var k0, k1 := ((x - m0) / y).Floor, ((x - m) / y).Floor;
    MultipleOfQuotient(x - m0, y);
    MultipleOfQuotient(x - m, y);
    var k := k0 - k1;
    assert m - m0 == k as real * y;
    if k != 0 {
      MultipleAtLeast(k, y);
    }
  }

  /** A non-zero whole multiple of y is at least |y| in size. */
  lemma MultipleAtLeast(k: int, y: real)
    requires k != 0
    ensures Abs(k as real * y) >= Abs(y)
  {
    if k >= 1 && y >= 0.0 {
      assert k as real * y >= 1.0 * y;
    } else if k >= 1 {
      assert k as real * y <= 1.0 * y;
    } else if y >= 0.0 {
      assert k as real * y <= -1.0 * y;
    } else {
      assert k as real * y >= -1.0 * y;
    }
  }

  /**
   * `snap(x, y, e)`: move x to the grid line below x + e when x + e is within 2e above it, else
   * keep x. For a positive grid step and error bound, the result is x or a grid line no farther
   * than e from x. With y = 0 the source's test is false and x is kept.
   */
  function Snap(x: real, y: real, e: real): (r: real)
    ensures y > 0.0 && e >= 0.0 ==> r == x || (IsInt(r / y) && Abs(r - x) <= e)
  {
    match ModPos(x + e, y)
    case None => x
    case Some(m) =>
      if m <= 2.0 * e then
        var r := ((x + e) / y).Floor as real * y;
        if y > 0.0 && e >= 0.0 then
          SnapLine(x, y, e, m);
          r
        else r
      else x
  }

  /** When `snap` moves x, it moves it to a multiple of y within e of x. */
  lemma SnapLine(x: real, y: real, e: real, m: real)
    requires y > 0.0 && e >= 0.0 && ModPos(x + e, y) == Some(m) && m <= 2.0 * e
    ensures IsInt(((x + e) / y).Floor as real * y / y)
    ensures Abs(((x + e) / y).Floor as real * y - x) <= e
  {
    var r := ((x + e) / y).Floor as real * y;
    FloorOfShifted(x + e, y, m);
    QuotientOfMultiple(r, y, ((x + e) / y).Floor);
  }

  /** With y > 0, the floor of z / y is the multiple that `mod_pos` took away: floor(z / y) y = z - m. */
  lemma FloorOfShifted(z: real, y: real, m: real)
    requires y > 0.0 && ModPos(z, y) == Some(m)
    ensures (z / y).Floor as real * y == z - m
  {
    var k := ((z - m) / y).Floor;
    MultipleOfQuotient(z - m, y);
    QuotientSplit(z, y, m, k);
  }

  /** z = k y + m with 0 <= m < y gives floor(z / y) = k. */
  lemma QuotientSplit(z: real, y: real, m: real, k: int)
    requires y > 0.0 && 0.0 <= m < y && z - m == k as real * y
    ensures (z / y).Floor == k
  {
    assert z / y == k as real + m / y;
    FractionBelowOne(m, y);
  }

  /** 0 <= m < y gives 0 <= m / y < 1. */
  lemma FractionBelowOne(m: real, y: real)
    requires y > 0.0 && 0.0 <= m < y
    ensures 0.0 <= m / y < 1.0
  {
    assert 0.0 <= m / y;
    assert m / y < y / y;
  }

  /**
   * `snap` finds the grid line: when some multiple z of y lies within e of x and 2e < y, the
   * result is exactly z.
   */
  lemma SnapFindsGridLine(x: real, y: real, e: real, z: real)
    requires y > 0.0 && e >= 0.0 && 2.0 * e < y
    requires IsInt(z / y) && Abs(z - x) <= e
    ensures Snap(x, y, e) == z
  {
    var m := x + e - z;
    assert x + e - m == z;
    ModPosUnique(x + e, y, m);
    SnapTo(x, y, e, m);
  }

  /** When `mod_pos(x + e, y)` is m <= 2e, `snap` gives x + e - m. */
  lemma SnapTo(x: real, y: real, e: real, m: real)
    requires y > 0.0 && ModPos(x + e, y) == Some(m) && m <= 2.0 * e
    ensures Snap(x, y, e) == x + e - m
  {
    FloorOfShifted(x + e, y, m);
  }

  /** The tangent `next_point` gives a new curved end: `dp.mul(dp.div(start.v)).normalize()`. */
  function SeedTangent(p0: Vec2, v0: Tangent, p2: Vec2, num: Numerics): (t: Tangent)
    ensures t.None? <==> v0.None?
  {
    match v0
    case None => None
    case Some(v) =>
      var dp := p2.Sub(p0);
      Some(num.normalize(num.mul(dp, num.div(dp, v))))
  }

  // ---------------------------------------------------------------------------
  // The editor
  // ---------------------------------------------------------------------------

  /** The editor's drawing state. The SVG element, the tooltip and the event wiring are not modelled. */
  class BezierEditor {
    var paths: seq<Path>
    var points: seq<Point>
    var nextSegmentType: SegmentKind
    var snap: bool
    var grid: Vec2
    var angularGrid: real
    var dimention: Vec2
    var viewboxOrigin: Vec2
    var viewboxSize: Vec2

    /**
     * A new editor for an SVG area of the given size: the view box covers the area from the
     * origin, there are no paths or anchors, the grid is 50 by 50, the angular grid 15 degrees,
     * snapping is off and new segments are lines.
     */
    constructor(width: real, height: real, num: Numerics)
      ensures dimention == Vec2(width, height)
      ensures viewboxOrigin == Vec2(0.0, 0.0) && viewboxSize == Vec2(width, height)
      ensures paths == [] && points == []
      ensures grid == Vec2(50.0, 50.0) && angularGrid == num.pi / 12.0
      ensures nextSegmentType == Line && !snap
    {
      dimention := Vec2(width, height);
      viewboxOrigin, viewboxSize := Vec2(0.0, 0.0), Vec2(width, height);
      paths, points := [], [];
      grid := Vec2(50.0, 50.0);
      angularGrid := num.pi / 12.0;
      nextSegmentType := Line;
      snap := false;
    }

    /**
     * `snap_to_grid`: with snapping off the point is kept; with it on each coordinate is snapped
     * to the grid with an error bound of min(5, half the grid step).
     */
    function SnapToGrid(v: Vec2): (r: Vec2)
      reads this
      ensures !snap ==> r == v
      ensures snap && grid.x > 0.0 ==>
        r.x == v.x || (IsInt(r.x / grid.x) && Abs(r.x - v.x) <= Min(5.0, 0.5 * grid.x))
      ensures snap && grid.y > 0.0 ==>
        r.y == v.y || (IsInt(r.y / grid.y) && Abs(r.y - v.y) <= Min(5.0, 0.5 * grid.y))
    {
      if snap then
        Vec2(Snap(v.x, grid.x, Min(5.0, 0.5 * grid.x)), Snap(v.y, grid.y, Min(5.0, 0.5 * grid.y)))
      else v
    }

    /**
     * `angular_snap_to_grid`: snap an angle to the angular grid with an error bound of
     * min(pi/60, 0.3 times the angular step).
     */
    function AngularSnapToGrid(a: real, num: Numerics): (r: real)
      reads this
      ensures angularGrid > 0.0 && num.pi >= 0.0 ==>
        r == a || (IsInt(r / angularGrid) && Abs(r - a) <= Min(num.pi / 60.0, 0.3 * angularGrid))
    {
      Snap(a, angularGrid, Min(num.pi / 60.0, 0.3 * angularGrid))
    }

    /**
     * `pagexy_to_svgxy`: scale page coordinates by the view box over the area and shift by the
     * view box origin. With a zero area side the source divides by zero; that is None here.
     */
    function PageToSvg(m: Vec2): (p: Option<Vec2>)
      reads this
      ensures p.Some? <==> dimention.x != 0.0 && dimention.y != 0.0
    {
      if dimention.x == 0.0 || dimention.y == 0.0 then None
      else Some(viewboxOrigin.Add(Vec2(Scaled(m.x, viewboxSize.x, dimention.x), Scaled(m.y, viewboxSize.y, dimention.y))))
    }

    /** `svgxy_to_pagexy`: the inverse scaling; None with a zero view box side. */
    function SvgToPage(p: Vec2): (m: Option<Vec2>)
      reads this
      ensures m.Some? <==> viewboxSize.x != 0.0 && viewboxSize.y != 0.0
    {
      if viewboxSize.x == 0.0 || viewboxSize.y == 0.0 then None
      else
        var d := p.Sub(viewboxOrigin);
        Some(Vec2(Scaled(d.x, dimention.x, viewboxSize.x), Scaled(d.y, dimention.y, viewboxSize.y)))
    }

    /** With no zero side on either rectangle, `svgxy_to_pagexy` undoes `pagexy_to_svgxy`. */
    lemma {:induction false} PageSvgRoundTrip(m: Vec2)
      requires dimention.x != 0.0 && dimention.y != 0.0 && viewboxSize.x != 0.0 && viewboxSize.y != 0.0
      ensures PageToSvg(m).Some? && SvgToPage(PageToSvg(m).value) == Some(m)
    {
      var u := Vec2(Scaled(m.x, viewboxSize.x, dimention.x), Scaled(m.y, viewboxSize.y, dimention.y));
      assert viewboxOrigin.Add(u).Sub(viewboxOrigin) == u;
      ScaleBack(m.x, viewboxSize.x, dimention.x);
      ScaleBack(m.y, viewboxSize.y, dimention.y);
    }

    /** With no zero side on either rectangle, `pagexy_to_svgxy` undoes `svgxy_to_pagexy`. */
    lemma {:induction false} SvgPageRoundTrip(p: Vec2)
      requires dimention.x != 0.0 && dimention.y != 0.0 && viewboxSize.x != 0.0 && viewboxSize.y != 0.0
      ensures SvgToPage(p).Some? && PageToSvg(SvgToPage(p).value) == Some(p)
    {
      var d := p.Sub(viewboxOrigin);
      ScaleBack(d.x, dimention.x, viewboxSize.x);
      ScaleBack(d.y, dimention.y, viewboxSize.y);
      assert viewboxOrigin.Add(d) == p;
    }

    /**
     * `start_path`: a new path with no segments whose lone anchor, a new point at (x, y), is
     * both its start and its end.
     */
    method StartPath(x: real, y: real) returns (path: Path)
      modifies this
      ensures fresh(path) && paths == old(paths) + [path]
      ensures path.segments == [] && path.onlyPoint != null && fresh(path.onlyPoint)
      ensures path.onlyPoint.p == Vec2(x, y) && path.onlyPoint.parentPath == path
      ensures path.StartPoint() == path.EndPoint() == path.onlyPoint
      ensures path.onlyPoint.v == Some(Vec2(1.0, 0.0)) && path.onlyPoint.r == Finite(1000.0)
      ensures path.onlyPoint.parentSegments == []
      ensures points == old(points) + [path.onlyPoint]
      ensures WellFormed(path)
      ensures nextSegmentType == old(nextSegmentType) && snap == old(snap) && grid == old(grid)
      ensures angularGrid == old(angularGrid) && dimention == old(dimention)
      ensures viewboxOrigin == old(viewboxOrigin) && viewboxSize == old(viewboxSize)
    {
      path := new Path();
      paths := paths + [path];
      var point := new Point(x, y, path);
      points := points + [point];
      path.onlyPoint := point;
    }

    /**
     * `next_point`: a new anchor at (x, y) and a segment of the current type from the path's
     * end to it. A curved segment first gives the new anchor the tangent `SeedTangent`. The
     * segment is recorded in both anchors' parent segments, updated, and appended to the path,
     * which keeps the path chained and linked; the new anchor becomes the path's end.
     */
    method NextPoint(path: Path, x: real, y: real, num: Numerics) returns (ghost ys: seq<real>)
      requires path.EndPoint() != null
      modifies this, path, path.EndPoint()
      ensures paths == old(paths) && nextSegmentType == old(nextSegmentType) && snap == old(snap) && grid == old(grid)
      ensures angularGrid == old(angularGrid) && dimention == old(dimention)
      ensures viewboxOrigin == old(viewboxOrigin) && viewboxSize == old(viewboxSize)
      ensures |path.segments| == |old(path.segments)| + 1 && path.segments[..|old(path.segments)|] == old(path.segments)
      ensures path.onlyPoint == old(path.onlyPoint) && path.StartPoint() == old(path.StartPoint())
      ensures var seg := path.segments[|old(path.segments)|];
        fresh(seg) && fresh(seg.end) && seg.kind == nextSegmentType && seg.start == old(path.EndPoint()) &&
        seg.end.p == Vec2(x, y) && seg.end.parentPath == path && path.EndPoint() == seg.end &&
        points == old(points) + [seg.end] &&
        seg.start.parentSegments == old(path.EndPoint().parentSegments) + [seg] && seg.end.parentSegments == [seg]
      ensures old(path.EndPoint()).p == old(path.EndPoint().p)
      ensures old(WellFormed(path)) ==> WellFormed(path)
      ensures var seg, p0, v0, r0 := path.segments[|old(path.segments)|], old(path.EndPoint().p), old(path.EndPoint().v), old(path.EndPoint().r);
        var v3 := if seg.kind == Line then Some(Vec2(1.0, 0.0)) else SeedTangent(p0, v0, Vec2(x, y), num);
        Fitted(seg.kind, p0, v0, r0, Vec2(x, y), v3, Finite(1000.0), ys, num,
               seg.start.v, seg.start.r, seg.end.v, seg.end.r, seg.cpoints)
    {
      ghost var wellFormed := WellFormed(path);
      var start := path.EndPoint();
      var end := new Point(x, y, path);
      points := points + [end];
      var segment;
      segment, ys := Attach(nextSegmentType, start, end, num);
      path.segments := path.segments + [segment];
      if wellFormed {
        assert path.Chained();
        forall s | s in path.segments
          ensures s in s.start.parentSegments && s in s.end.parentSegments
        {
          if s != segment {
            assert s in old(path.segments);
            assert s in old(s.start.parentSegments) && s in old(s.end.parentSegments);
          }
        }
      }
    }
  }

  /**
   * The middle of `next_point`: seeds the new anchor's tangent (for curves), joins the two
   * anchors by a fresh segment of the given kind, records it among both anchors' parent
   * segments and fits it with `update`.
   */
  method Attach(kind: SegmentKind, start: Point, end: Point, num: Numerics) returns (segment: Segment, ghost ys: seq<real>)
    requires start != end
    modifies start, end
    ensures fresh(segment) && segment.kind == kind && segment.start == start && segment.end == end
    ensures start.p == old(start.p) && end.p == old(end.p)
    ensures start.parentSegments == old(start.parentSegments) + [segment] && end.parentSegments == old(end.parentSegments) + [segment]
    ensures var v3 := if kind == Line then old(end.v) else SeedTangent(start.p, old(start.v), end.p, num);
      Fitted(kind, start.p, old(start.v), old(start.r), end.p, v3, old(end.r), ys, num,
             start.v, start.r, end.v, end.r, segment.cpoints)
  {
    if kind != Line {
      end.v := SeedTangent(start.p, start.v, end.p, num);
    }
    segment := new Segment(kind, start, end);
    start.parentSegments := start.parentSegments + [segment];
    end.parentSegments := end.parentSegments + [segment];
    ys := segment.Update(num);
  }

  /** A coordinate multiplied by s / d, in the order the source evaluates it. */
  function Scaled(a: real, s: real, d: real): real
    requires d != 0.0
  {
    a * s / d
  }

  /** Scaling by s / d and then by d / s gives back the original coordinate. */
  lemma ScaleBack(a: real, s: real, d: real)
    requires s != 0.0 && d != 0.0
    ensures Scaled(Scaled(a, s, d), d, s) == a
  {
    calc {
      Scaled(Scaled(a, s, d), d, s);
      == a * s / d * d / s;
      == (a * s) * (d / d) / s;
      == a * s / s;
      == a;
    }
  }

  /**
   * A path as `start_path` and `next_point` build it: it has its lone anchor, its first segment
   * starts there, consecutive segments share an anchor, and each segment is listed among the
   * parent segments of both its anchors.
   */
  ghost predicate WellFormed(path: Path)
    reads path, (set s | s in path.segments :: s.start), (set s | s in path.segments :: s.end)
    ensures WellFormed(path) ==> path.StartPoint() == path.onlyPoint != null
  {
    path.onlyPoint != null &&
    (path.segments != [] ==> path.segments[0].start == path.onlyPoint) &&
    path.Chained() &&
    (forall s :: s in path.segments ==> s in s.start.parentSegments && s in s.end.parentSegments)
  }
}
