/**
 * The vector arithmetic behind the segments of path.js: the quadratic control point, the
 * derivatives and curvature of quadratic and cubic Bezier curves, and the relations that fix
 * the lengths of a cubic's tangent handles.
 */
module Geometry {
  import opened Base
  import opened Polynomials

  /** `cube`. */
  function Cube(x: real): real { x * x * x }

  /** The signed curvature `db1.cross(db2) / cube(norm(db1))`, in JavaScript's division. */
  function CurvatureOf(db1: Vec2, db2: Vec2, norm: Vec2 -> real): ExtReal
  {
    RealDiv(db1.Cross(db2), Cube(norm(db1)))
  }

  // ---------------------------------------------------------------------------
  // Quadratic segments
  // ---------------------------------------------------------------------------

  /**
   * The quadratic control point: q = p2 + a v2 with a chosen so that q lies on the start
   * tangent line through p0 along v0. None when the tangents are parallel, where the source
   * divides by zero and gets coordinates that are infinite or NaN.
   */
  function QuadraticControl(p0: Vec2, v0: Vec2, p2: Vec2, v2: Vec2): (q: Option<Vec2>)
    ensures q.Some? <==> v2.Cross(v0) != 0.0
    ensures q.Some? ==> q.value.Sub(p0).Cross(v0) == 0.0
    ensures q.Some? ==> q.value.Sub(p2).Cross(v2) == 0.0
  {
    var p := p2.Sub(p0);
    var den := v2.Cross(v0);
    if den == 0.0 then None
    else
      var a := -p.Cross(v0) / den;
      assert a * den == -p.Cross(v0);
      QuadraticControlOnLine(p, v0, v2, a);
      Some(p2.Add(v2.Scale(a)))
  }

  /** (p + a v2) x v0 = p x v0 + a (v2 x v0), which vanishes for the a above. */
  lemma QuadraticControlOnLine(p: Vec2, v0: Vec2, v2: Vec2, a: real)
    requires a * v2.Cross(v0) == -p.Cross(v0)
    ensures p.Add(v2.Scale(a)).Cross(v0) == 0.0
  {
    calc {
      p.Add(v2.Scale(a)).Cross(v0);
      (p.x + a * v2.x) * v0.y - (p.y + a * v2.y) * v0.x;
      p.Cross(v0) + a * v2.Cross(v0);
    }
  }

  /** db1 of the quadratic: (p2 - p1) 2t + (p1 - p0) 2(1 - t). */
  function QuadraticVelocity(p0: Vec2, p1: Vec2, p2: Vec2, t: real): Vec2
  {
    p2.Sub(p1).Scale(2.0 * t).Add(p1.Sub(p0).Scale(2.0 * (1.0 - t)))
  }

  /** db2 of the quadratic: (p2 - 2 p1 + p0) 2. */
  function QuadraticAcceleration(p0: Vec2, p1: Vec2, p2: Vec2): Vec2
  {
    p2.Add(p1.Scale(-2.0)).Add(p0).Scale(2.0)
  }

  /**
   * The quadratic through the computed control point leaves p0 along the start tangent and
   * reaches p2 along the end tangent: its velocity at t = 0 is parallel to v0, at t = 1 to v2.
   */
  lemma QuadraticTangents(p0: Vec2, v0: Vec2, p2: Vec2, v2: Vec2)
    requires QuadraticControl(p0, v0, p2, v2).Some?
    ensures var q := QuadraticControl(p0, v0, p2, v2).value;
      QuadraticVelocity(p0, q, p2, 0.0).Cross(v0) == 0.0 && QuadraticVelocity(p0, q, p2, 1.0).Cross(v2) == 0.0
  {
    var q := QuadraticControl(p0, v0, p2, v2).value;
    var d0, d1 := q.Sub(p0), p2.Sub(q);
    assert QuadraticVelocity(p0, q, p2, 0.0) == Vec2(2.0 * d0.x, 2.0 * d0.y);
    assert QuadraticVelocity(p0, q, p2, 1.0) == Vec2(2.0 * d1.x, 2.0 * d1.y);
    assert d1.Cross(v2) == -q.Sub(p2).Cross(v2);
  }

  // ---------------------------------------------------------------------------
  // Cubic segments
  // ---------------------------------------------------------------------------

  /** The four control points of a cubic, or `false`. */
  datatype ControlPolygon = NoCurve | Curve(p0: Vec2, p1: Vec2, p2: Vec2, p3: Vec2)

  /** db1 of the cubic: (p3 - p2) 3t^2 + (p2 - p1) 6t(1 - t) + (p1 - p0) 3(1 - t)^2. */
  function CubicVelocity(p0: Vec2, p1: Vec2, p2: Vec2, p3: Vec2, t: real): Vec2
  {
    p3.Sub(p2).Scale(3.0 * t * t)
      .Add(p2.Sub(p1).Scale(6.0 * t * (1.0 - t)))
      .Add(p1.Sub(p0).Scale(3.0 * (1.0 - t) * (1.0 - t)))
  }

  /** db2 of the cubic: (p3 - 2 p2 + p1) 6t + (p2 - 2 p1 + p0) 6(1 - t). */
  function CubicAcceleration(p0: Vec2, p1: Vec2, p2: Vec2, p3: Vec2, t: real): Vec2
  {
    p3.Add(p2.Scale(-2.0)).Add(p1).Scale(6.0 * t)
      .Add(p2.Add(p1.Scale(-2.0)).Add(p0).Scale(6.0 * (1.0 - t)))
  }

  /** x from y: the relation `x = (3 s y^2 - 2c) / (2b)`. */
  function XFromY(b: real, c: real, s: real, y: real): real
    requires b != 0.0
  {
    (3.0 * s * y * y - 2.0 * c) / (2.0 * b)
  }

  /** y from x: the relation `y = (3 r x^2 - 2a) / (2b)`. */
  function YFromX(a: real, b: real, r: real, x: real): real
    requires b != 0.0
  {
    (3.0 * r * x * x - 2.0 * a) / (2.0 * b)
  }

  /**
   * The quartic `poly(27 r s^2, 0, -36 s r c, -8 b^3, 12 r c^2 - 8 b^2 a)`, lowest power first:
   * 27 r s^2 y^4 - 36 s r c y^2 - 8 b^3 y + 12 r c^2 - 8 b^2 a.
   */
  function Quartic(a: real, b: real, c: real, r: real, s: real): Poly
  {
    [12.0 * r * c * c - 8.0 * b * b * a, -8.0 * b * b * b, -36.0 * s * r * c, 0.0, 27.0 * r * s * s]
  }

  /** With two non-zero curvatures the quartic has degree 4. */
  lemma QuarticDegree(a: real, b: real, c: real, r: real, s: real)
    requires r != 0.0 && s != 0.0
    ensures DegreeOf(Quartic(a, b, c, r, s)) == 4
  {
    var q := Quartic(a, b, c, r, s);
    var rs := r * s;
    assert rs != 0.0;
    assert rs * s != 0.0;
    assert q[4] == 27.0 * (rs * s);
    DegreeUnique(q, 4);
  }

  /** The value of the quartic at y, written out in powers of y. */
  lemma QuarticValue(a: real, b: real, c: real, r: real, s: real, y: real)
    ensures Value(Quartic(a, b, c, r, s), y)
      == 27.0 * r * s * s * (y * y * y * y) - 36.0 * s * r * c * (y * y) - 8.0 * b * b * b * y + (12.0 * r * c * c - 8.0 * b * b * a)
  {
    QuarticHorner(a, b, c, r, s, y);
  }

  /** The value of the quartic at y, in Horner's nesting. */
  lemma QuarticHorner(a: real, b: real, c: real, r: real, s: real, y: real)
    ensures Value(Quartic(a, b, c, r, s), y)
      == (12.0 * r * c * c - 8.0 * b * b * a) + y * (-8.0 * b * b * b + y * (-36.0 * s * r * c + y * (y * (27.0 * r * s * s))))
  {
    var q := Quartic(a, b, c, r, s);
    assert ValueFrom(q, 5, y) == 0.0;
    assert ValueFrom(q, 4, y) == 27.0 * r * s * s;
    assert ValueFrom(q, 3, y) == y * (27.0 * r * s * s);
    assert ValueFrom(q, 2, y) == -36.0 * s * r * c + y * (y * (27.0 * r * s * s));
    assert ValueFrom(q, 1, y) == -8.0 * b * b * b + y * (-36.0 * s * r * c + y * (y * (27.0 * r * s * s)));
  }

  lemma QuarticAlgebra(a: real, b: real, c: real, r: real, s: real, x: real, y: real)
    requires b != 0.0
    requires 2.0 * b * x == 3.0 * s * y * y - 2.0 * c
    ensures 4.0 * b * b * (3.0 * r * x * x - 2.0 * a - 2.0 * b * y)
      == 27.0 * r * s * s * (y * y * y * y) - 36.0 * s * r * c * (y * y) - 8.0 * b * b * b * y + (12.0 * r * c * c - 8.0 * b * b * a)
  {
    var u := 2.0 * b * x;
    calc {
      4.0 * b * b * (3.0 * r * x * x - 2.0 * a - 2.0 * b * y);
      3.0 * r * (u * u) - 8.0 * b * b * a - 8.0 * b * b * b * y;
      3.0 * r * ((3.0 * s * y * y - 2.0 * c) * (3.0 * s * y * y - 2.0 * c)) - 8.0 * b * b * a - 8.0 * b * b * b * y;
    }
  }

  /**
   * Substituting x = (3 s y^2 - 2c) / (2b) into y = (3 r x^2 - 2a) / (2b) gives the quartic:
   * once x is that function of y, the second relation holds exactly when y is a root.
   */
  lemma QuarticFromRelations(a: real, b: real, c: real, r: real, s: real, y: real)
    requires b != 0.0
    ensures var x := XFromY(b, c, s, y);
      y == YFromX(a, b, r, x) <==> Value(Quartic(a, b, c, r, s), y) == 0.0
  {
    var x := XFromY(b, c, s, y);
    XFromYRelation(b, c, s, y);
    QuarticAlgebra(a, b, c, r, s, x, y);
    QuarticValue(a, b, c, r, s, y);
    YFromXZero(a, b, r, x, y);
  }

  /** x = XFromY(b, c, s, y) satisfies 2b x = 3 s y^2 - 2c. */
  lemma XFromYRelation(b: real, c: real, s: real, y: real)
    requires b != 0.0
    ensures 2.0 * b * XFromY(b, c, s, y) == 3.0 * s * y * y - 2.0 * c
  {
  }

  /** y = YFromX(a, b, r, x) exactly when 4b^2 (3 r x^2 - 2a - 2b y) vanishes. */
  lemma YFromXZero(a: real, b: real, r: real, x: real, y: real)
    requires b != 0.0
    ensures y == YFromX(a, b, r, x) <==> 4.0 * b * b * (3.0 * r * x * x - 2.0 * a - 2.0 * b * y) == 0.0
  {
    assert y == YFromX(a, b, r, x) <==> 2.0 * b * y == 3.0 * r * x * x - 2.0 * a;
    assert 4.0 * b * b != 0.0;
  }

  /** At t = 0 the velocity of [p0, p0 + x v0, p3 - y v3, p3] is 3x v0. */
  lemma StartVelocity(p0: Vec2, v0: Vec2, p3: Vec2, v3: Vec2, x: real, y: real)
    ensures var p1, p2 := p0.Add(v0.Scale(x)), p3.Add(v3.Scale(-y));
      CubicVelocity(p0, p1, p2, p3, 0.0) == v0.Scale(3.0 * x)
  {
    var p1, p2 := p0.Add(v0.Scale(x)), p3.Add(v3.Scale(-y));
    VelocityAtZero(p0, p1, p2, p3);
    StartHandle(p0, v0, x);
  }

  /**
   * At t = 0 the cross product of velocity and acceleration of [p0, p0 + x v0, p3 - y v3, p3]
   * is 18x (a + y b), for a = v0 x (p3 - p0) and b = -(v0 x v3).
   */
  lemma CubicAtStart(p0: Vec2, v0: Vec2, p3: Vec2, v3: Vec2, x: real, y: real, a: real, b: real)
    requires a == v0.Cross(p3.Sub(p0)) && b == -v0.Cross(v3)
    ensures var p1, p2 := p0.Add(v0.Scale(x)), p3.Add(v3.Scale(-y));
      CubicVelocity(p0, p1, p2, p3, 0.0).Cross(CubicAcceleration(p0, p1, p2, p3, 0.0)) == 18.0 * x * (a + y * b)
  {
    var p1, p2 := p0.Add(v0.Scale(x)), p3.Add(v3.Scale(-y));
    VelocityAtZero(p0, p1, p2, p3);
    AccelerationAtZero(p0, p1, p2, p3);
    StartHandle(p0, v0, x);
    CrossAtStart(p0, v0, p3, v3, x, y, a, b);
  }

  /** The first handle of [p0, p0 + x v0, ...], tripled, is 3x v0. */
  lemma StartHandle(p0: Vec2, v0: Vec2, x: real)
    ensures p0.Add(v0.Scale(x)).Sub(p0).Scale(3.0) == v0.Scale(3.0 * x)
  {
  }

  /** The first second difference p2 - 2 p1 + p0, written in d = p3 - p0, v0 and v3. */
  lemma StartDifference(p0: Vec2, v0: Vec2, p3: Vec2, v3: Vec2, x: real, y: real)
    ensures var p1, p2, d := p0.Add(v0.Scale(x)), p3.Add(v3.Scale(-y)), p3.Sub(p0);
      p2.Add(p1.Scale(-2.0)).Add(p0) == d.Sub(v3.Scale(y)).Sub(v0.Scale(2.0 * x))
  {
  }

  /** At t = 0 only the first handle remains in the velocity. */
  lemma VelocityAtZero(p0: Vec2, p1: Vec2, p2: Vec2, p3: Vec2)
    ensures CubicVelocity(p0, p1, p2, p3, 0.0) == p1.Sub(p0).Scale(3.0)
  {
    assert 3.0 * 0.0 * 0.0 == 0.0 && 6.0 * 0.0 * (1.0 - 0.0) == 0.0 && 3.0 * (1.0 - 0.0) * (1.0 - 0.0) == 3.0;
    ScaledZeroVanishes(p3.Sub(p2), p2.Sub(p1).Scale(0.0));
    ScaledZeroVanishes(p2.Sub(p1), p1.Sub(p0).Scale(3.0));
  }

  /** At t = 0 only the first second difference remains in the acceleration. */
  lemma AccelerationAtZero(p0: Vec2, p1: Vec2, p2: Vec2, p3: Vec2)
    ensures CubicAcceleration(p0, p1, p2, p3, 0.0) == p2.Add(p1.Scale(-2.0)).Add(p0).Scale(6.0)
  {
    assert 6.0 * 0.0 == 0.0 && 6.0 * (1.0 - 0.0) == 6.0;
    ScaledZeroVanishes(p3.Add(p2.Scale(-2.0)).Add(p1), p2.Add(p1.Scale(-2.0)).Add(p0).Scale(6.0));
  }

  /** A vector scaled by 0 adds nothing. */
  lemma ScaledZeroVanishes(u: Vec2, w: Vec2)
    ensures u.Scale(0.0).Add(w) == w
  {
  }

  /**
   * At t = 1 the velocity is 3y v3, and its cross product with db2 is 18y (c + x b), for
   * b = -(v0 x v3) and c = -(v3 x (p3 - p0)).
   */
  lemma CubicAtEnd(p0: Vec2, v0: Vec2, p3: Vec2, v3: Vec2, x: real, y: real, b: real, c: real)
    requires b == -v0.Cross(v3) && c == -v3.Cross(p3.Sub(p0))
    ensures var p1, p2 := p0.Add(v0.Scale(x)), p3.Add(v3.Scale(-y));
      CubicVelocity(p0, p1, p2, p3, 1.0) == v3.Scale(3.0 * y) &&
      CubicVelocity(p0, p1, p2, p3, 1.0).Cross(CubicAcceleration(p0, p1, p2, p3, 1.0)) == 18.0 * y * (c + x * b)
  {
    var p1, p2 := p0.Add(v0.Scale(x)), p3.Add(v3.Scale(-y));
    var d := p3.Sub(p0);
    var acc := CubicAcceleration(p0, p1, p2, p3, 1.0);
    assert acc == Vec2(6.0 * (-d.x + 2.0 * y * v3.x + x * v0.x), 6.0 * (-d.y + 2.0 * y * v3.y + x * v0.y));
    CrossExpandEnd(v3, 3.0 * y, d, x, v0, y, b, c);
  }

  /** The cross product at t = 0 once velocity and acceleration are written out. */
  lemma CrossAtStart(p0: Vec2, v0: Vec2, p3: Vec2, v3: Vec2, x: real, y: real, a: real, b: real)
    requires a == v0.Cross(p3.Sub(p0)) && b == -v0.Cross(v3)
    ensures var p1, p2 := p0.Add(v0.Scale(x)), p3.Add(v3.Scale(-y));
      v0.Scale(3.0 * x).Cross(p2.Add(p1.Scale(-2.0)).Add(p0).Scale(6.0)) == 18.0 * x * (a + y * b)
  {
    var p1, p2, d := p0.Add(v0.Scale(x)), p3.Add(v3.Scale(-y)), p3.Sub(p0);
    var m := a + y * b;
    StartDifference(p0, v0, p3, v3, x, y);
    assert p2.Add(p1.Scale(-2.0)).Add(p0).Scale(6.0)
      == Vec2(6.0 * (d.x - y * v3.x - 2.0 * x * v0.x), 6.0 * (d.y - y * v3.y - 2.0 * x * v0.y));
    CrossExpand(v0, 3.0 * x, d, y, v3, x, a, b);
    assert 6.0 * (3.0 * x) * m == 18.0 * x * m;
  }

  /** (k u) x 6(d - y w - 2x u) = 6k (u x d - y (u x w)). */
  lemma CrossExpand(u: Vec2, k: real, d: Vec2, y: real, w: Vec2, x: real, a: real, b: real)
    requires a == u.Cross(d) && b == -u.Cross(w)
    ensures u.Scale(k).Cross(Vec2(6.0 * (d.x - y * w.x - 2.0 * x * u.x), 6.0 * (d.y - y * w.y - 2.0 * x * u.y)))
      == 6.0 * k * (a + y * b)
  {
  }

  /** (k u) x 6(-d + 2y u + x w) = 6k (-(u x d) - x (w x u)). */
  lemma CrossExpandEnd(u: Vec2, k: real, d: Vec2, x: real, w: Vec2, y: real, b: real, c: real)
    requires b == -w.Cross(u) && c == -u.Cross(d)
    ensures u.Scale(k).Cross(Vec2(6.0 * (-d.x + 2.0 * y * u.x + x * w.x), 6.0 * (-d.y + 2.0 * y * u.y + x * w.y)))
      == 6.0 * k * (c + x * b)
  {
  }

  /**
   * A curvature k / n^3 with k = 18h (e + g b) and n = 3h > 0 is q exactly when
   * g = (3 q h^2 - 2e) / (2b).
   */
  lemma CurvatureRelation(k: real, n: real, e: real, b: real, q: real, h: real, g: real)
    requires h > 0.0 && b != 0.0
    requires n == 3.0 * h && k == 18.0 * h * (e + g * b)
    ensures RealDiv(k, Cube(n)) == Finite(q) <==> g == YFromX(e, b, q, h)
  {
    assert Cube(n) == 27.0 * h * (h * h);
    assert h * h > 0.0;
    assert RealDiv(k, Cube(n)) == Finite(k / Cube(n));
    assert k / Cube(n) == 2.0 * (e + b * g) / (3.0 * (h * h));
    assert k / Cube(n) == q <==> 2.0 * (e + b * g) == 3.0 * q * (h * h);
    assert 2.0 * (e + b * g) == 3.0 * q * (h * h) <==> 2.0 * b * g == 3.0 * q * h * h - 2.0 * e;
  }

  /**
   * The curvature at t = 0 of the cubic [p0, p0 + x v0, p3 - y v3, p3], with the handle
   * length x > 0 and a unit start tangent (the velocity 3x v0 has norm 3x), is r exactly
   * when y = (3 r x^2 - 2a) / (2b), for a = v0 x (p3 - p0) and b = -(v0 x v3) != 0.
   */
  lemma CurvatureAtStart(p0: Vec2, v0: Vec2, p3: Vec2, v3: Vec2, x: real, y: real, r: real, norm: Vec2 -> real, a: real, b: real)
    requires a == v0.Cross(p3.Sub(p0)) && b == -v0.Cross(v3)
    requires x > 0.0 && b != 0.0
    requires norm(v0.Scale(3.0 * x)) == 3.0 * x
    ensures var p1, p2 := p0.Add(v0.Scale(x)), p3.Add(v3.Scale(-y));
      (CurvatureOf(CubicVelocity(p0, p1, p2, p3, 0.0), CubicAcceleration(p0, p1, p2, p3, 0.0), norm) == Finite(r)
       <==> y == YFromX(a, b, r, x))
  {
    var p1, p2 := p0.Add(v0.Scale(x)), p3.Add(v3.Scale(-y));
    var db1, db2 := CubicVelocity(p0, p1, p2, p3, 0.0), CubicAcceleration(p0, p1, p2, p3, 0.0);
    StartVelocity(p0, v0, p3, v3, x, y);
    CubicAtStart(p0, v0, p3, v3, x, y, a, b);
    CurvatureRelation(db1.Cross(db2), norm(db1), a, b, r, x, y);
    assert CurvatureOf(db1, db2, norm) == RealDiv(db1.Cross(db2), Cube(norm(db1)));
  }

  /**
   * Symmetrically, the curvature at t = 1 is s exactly when x = (3 s y^2 - 2c) / (2b), for
   * c = -(v3 x (p3 - p0)), when the end tangent is a unit vector and y > 0.
   */
  lemma CurvatureAtEnd(p0: Vec2, v0: Vec2, p3: Vec2, v3: Vec2, x: real, y: real, s: real, norm: Vec2 -> real, b: real, c: real)
    requires b == -v0.Cross(v3) && c == -v3.Cross(p3.Sub(p0))
    requires y > 0.0 && b != 0.0
    requires norm(v3.Scale(3.0 * y)) == 3.0 * y
    ensures var p1, p2 := p0.Add(v0.Scale(x)), p3.Add(v3.Scale(-y));
      (CurvatureOf(CubicVelocity(p0, p1, p2, p3, 1.0), CubicAcceleration(p0, p1, p2, p3, 1.0), norm) == Finite(s)
       <==> x == XFromY(b, c, s, y))
  {
    var p1, p2 := p0.Add(v0.Scale(x)), p3.Add(v3.Scale(-y));
    var db1, db2 := CubicVelocity(p0, p1, p2, p3, 1.0), CubicAcceleration(p0, p1, p2, p3, 1.0);
    CubicAtEnd(p0, v0, p3, v3, x, y, b, c);
    CurvatureRelation(db1.Cross(db2), norm(db1), c, b, s, y, x);
    assert YFromX(c, b, s, y) == XFromY(b, c, s, y);
  }
}
