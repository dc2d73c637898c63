/**
 * The real-root finder of polynomial_solver.js: `sign`, `solve_in_interval` (bisection on a
 * sign change) and `solve` (closed forms up to degree 2, then recursion on the derivative or
 * on a deflated polynomial).
 */
module RootFinder {
  import opened Base
  import opened Polynomials

  // ---------------------------------------------------------------------------
  // Bisection
  // ---------------------------------------------------------------------------

  /** The relative tolerance `1 / (1 << 24)`. */
  const Tolerance: real := 1.0 / 16777216.0

  /**
   * The stopping test of `solve_in_interval`: the width over the smaller endpoint magnitude is
   * below the tolerance. With a zero endpoint the source divides by 0: a negative width gives
   * -Infinity (stop), a zero width NaN and a positive width +Infinity (go on).
   */
  function Narrow(lo: real, hi: real): bool
  {
    var m := Min(Abs(lo), Abs(hi));
    if m == 0.0 then hi - lo < 0.0 else (hi - lo) / m < Tolerance
  }

  /**
   * Bisection keeps a bracket: the upper end has the sign `maxSign` of the value at the
   * original upper end, which is 1 or -1, and the lower end has not.
   */
  ghost predicate Brackets(p: Poly, maxSign: int, lo: real, hi: real)
  {
    maxSign != 0 && Sign(Value(p, hi)) == maxSign && Sign(Value(p, lo)) != maxSign
  }

  /** x lies between a and b, in whichever order they come. */
  predicate Between(a: real, b: real, x: real)
  {
    (a <= x <= b) || (b <= x <= a)
  }

  /** One step of the loop: move the end whose sign the midpoint shares to the midpoint. */
  function BisectStep(p: Poly, maxSign: int, lo: real, hi: real): (r: (real, real))
    ensures r.1 - r.0 == (hi - lo) / 2.0
    ensures Brackets(p, maxSign, lo, hi) ==> Brackets(p, maxSign, r.0, r.1)
    ensures Between(lo, hi, r.0) && Between(lo, hi, r.1)
  {
    var middle := (lo + hi) / 2.0;
    if maxSign * Sign(Value(p, middle)) == 1 then (lo, middle) else (middle, hi)
  }

  /**
   * The `while (true)` loop of `solve_in_interval` allowed at most `fuel` halvings. It returns
   * the lower end once the interval is narrow, and None when the fuel runs out (the source keeps
   * looping, which it does for ever once the lower end reaches 0 and the upper one does not).
   * What it returns lies between the two ends.
   */
  function Bisect(p: Poly, maxSign: int, lo: real, hi: real, fuel: nat): (r: Option<real>)
    ensures r.Some? ==> Between(lo, hi, r.value)
    decreases fuel
  {
    if Narrow(lo, hi) then Some(lo)
    else if fuel == 0 then None
    else
      var next := BisectStep(p, maxSign, lo, hi);
      Bisect(p, maxSign, next.0, next.1, fuel - 1)
  }

  /** A reversed interval is narrow at once: its width over a positive magnitude is negative. */
  lemma ReversedIsNarrow(lo: real, hi: real)
    requires hi < lo
    ensures Narrow(lo, hi)
  {
    var m := Min(Abs(lo), Abs(hi));
    if m != 0.0 {
      assert (hi - lo) / m < 0.0 by {
        assert (hi - lo) / m * m == hi - lo;
      }
    }
  }

  /**
   * m is what bisection reports on an ordered interval: an exact root, or the lower end of a
   * narrow interval [m, h] at whose ends the value has opposite signs, so that a continuous
   * polynomial has a root in it. (For m <= h, narrow means that neither end is 0 and the width
   * is below the tolerance relative to the smaller magnitude.)
   */
  ghost predicate Located(p: Poly, m: real)
  {
    Value(p, m) == 0.0 ||
    exists h :: m <= h && Narrow(m, h) && Sign(Value(p, h)) != 0 && Sign(Value(p, m)) != Sign(Value(p, h))
  }

  /**
   * On an ordered bracket, whatever bisection reports is the lower end of a narrow bracket
   * inside the starting interval.
   */
  lemma {:induction false} BisectLocates(p: Poly, maxSign: int, lo: real, hi: real, fuel: nat)
    requires lo <= hi && Brackets(p, maxSign, lo, hi)
    ensures Bisect(p, maxSign, lo, hi, fuel).Some? ==>
      var m := Bisect(p, maxSign, lo, hi, fuel).value;
      lo <= m && exists h :: m <= h <= hi && Narrow(m, h) && Brackets(p, maxSign, m, h)
    decreases fuel
  {
    if Narrow(lo, hi) {
      assert lo <= hi <= hi;
    } else if fuel > 0 {
      var next := BisectStep(p, maxSign, lo, hi);
      BisectLocates(p, maxSign, next.0, next.1, fuel - 1);
    }
  }

  /** On a reversed interval bisection stops at once and reports the first end, root or not. */
  lemma BisectReversed(p: Poly, maxSign: int, lo: real, hi: real, fuel: nat)
    requires hi < lo
    ensures Bisect(p, maxSign, lo, hi, fuel) == Some(lo)
  {
    ReversedIsNarrow(lo, hi);
  }

  /** `solve_in_interval` without the NaN test: an endpoint root, no root, or bisection. */
  function IntervalRoot(p: Poly, lo: real, hi: real, fuel: nat): Option<seq<real>>
  {
    if Value(p, lo) == 0.0 then Some([lo])
    else if Value(p, hi) == 0.0 then Some([hi])
    else
      var maxSign := Sign(Value(p, hi));
      if maxSign * Sign(Value(p, lo)) == 1 then Some([])
      else match Bisect(p, maxSign, lo, hi, fuel)
        case None => None
        case Some(m) => Some([m])
  }

  /**
   * What `solve_in_interval(a, b)` may report: a value between the ends which is located when
   * a <= b, and which is one of the two ends when the interval is reversed.
   */
  ghost predicate Found(p: Poly, a: real, b: real, m: real)
  {
    Between(a, b, m) && (a <= b ==> Located(p, m)) && (b < a ==> m == a || m == b)
  }

  /**
   * At most one candidate comes back, and it is found in the sense above; nothing comes back
   * exactly when neither end is a root and both ends have the same sign; a reversed interval
   * never runs out of fuel.
   */
  lemma IntervalRootSound(p: Poly, lo: real, hi: real, fuel: nat)
    ensures var r := IntervalRoot(p, lo, hi, fuel);
      r.Some? ==> |r.value| <= 1 && forall m :: m in r.value ==> Found(p, lo, hi, m)
    ensures IntervalRoot(p, lo, hi, fuel) == Some([]) <==>
      Value(p, lo) != 0.0 && Value(p, hi) != 0.0 && Sign(Value(p, lo)) == Sign(Value(p, hi))
    ensures hi < lo ==> IntervalRoot(p, lo, hi, fuel).Some?
  {
    var vlo, vhi := Value(p, lo), Value(p, hi);
    if vlo != 0.0 && vhi != 0.0 && Sign(vhi) * Sign(vlo) != 1 {
      var maxSign := Sign(vhi);
      if lo <= hi {
        BisectLocates(p, maxSign, lo, hi, fuel);
        var b := Bisect(p, maxSign, lo, hi, fuel);
        if b.Some? {
          var h :| b.value <= h <= hi && Narrow(b.value, h) && Brackets(p, maxSign, b.value, h);
          assert Located(p, b.value);
        }
      } else {
        BisectReversed(p, maxSign, lo, hi, fuel);
      }
    }
  }

  /**
   * x^4 - 5x^2 + 4 on the reversed interval (1/2, -3/2): the ends have opposite signs, so
   * `solve_in_interval` bisects, stops at once and reports 1/2, where the value is 45/16.
   */
  lemma ReversedIntervalReportsEnd(fuel: nat)
    ensures IntervalRoot([4.0, 0.0, -5.0, 0.0, 1.0], 0.5, -1.5, fuel) == Some([0.5])
    ensures Value([4.0, 0.0, -5.0, 0.0, 1.0], 0.5) == 2.8125
  {
    var p := [4.0, 0.0, -5.0, 0.0, 1.0];
    assert p == [4.0] + ([0.0] + ([-5.0] + ([0.0] + [1.0])));
    ValueSingle(1.0, 0.5);
    ValueCons(0.0, [1.0], 0.5);
    ValueCons(-5.0, [0.0] + [1.0], 0.5);
    ValueCons(0.0, [-5.0] + ([0.0] + [1.0]), 0.5);
    ValueCons(4.0, [0.0] + ([-5.0] + ([0.0] + [1.0])), 0.5);
    ValueSingle(1.0, -1.5);
    ValueCons(0.0, [1.0], -1.5);
    ValueCons(-5.0, [0.0] + [1.0], -1.5);
    ValueCons(0.0, [-5.0] + ([0.0] + [1.0]), -1.5);
    ValueCons(4.0, [0.0] + ([-5.0] + ([0.0] + [1.0])), -1.5);
    assert Value(p, -1.5) == -2.1875;
    BisectReversed(p, -1, 0.5, -1.5, fuel);
  }

  /**
   * `solve_in_interval(min, max)`. The source returns a bare number for an endpoint root and a
   * list otherwise; `concat` and unary minus treat a number and a one-element list alike, so
   * both are a sequence of at most one value here.
   */
  method SolveInInterval(p: Poly, lo: real, hi: real, fuel: nat) returns (r: Option<seq<real>>)
    ensures r == IntervalRoot(p, lo, hi, fuel)
  {
    var vlo := Eval(p, lo);
    if vlo == 0.0 {
      return Some([lo]);
    }
    var vhi := Eval(p, hi);
    if vhi == 0.0 {
      return Some([hi]);
    }
    var maxSign := Sign(vhi);
    if maxSign * Sign(vlo) == 1 {
      return Some([]);
    }
    var min, max := lo, hi;
    var n: nat := fuel;
    while true
      invariant n <= fuel
      invariant Pow(2.0, fuel - n) > 0.0
      invariant Bisect(p, maxSign, min, max, n) == Bisect(p, maxSign, lo, hi, fuel)
      invariant Brackets(p, maxSign, min, max)
      invariant max - min == (hi - lo) / Pow(2.0, fuel - n)
      decreases n
    {
      var middle := (min + max) / 2.0;
      if Narrow(min, max) {
        return Some([min]);
      }
      if n == 0 {
        return None;
      }
      var v := Eval(p, middle);
      if maxSign * Sign(v) == 1 {
        max := middle;
      } else {
        min := middle;
      }
      HalveWidth(hi - lo, fuel - n);
      n := n - 1;
    }
  }

  lemma {:induction false} HalveWidth(w: real, k: nat)
    ensures Pow(2.0, k) > 0.0
    ensures w / Pow(2.0, k) / 2.0 == w / Pow(2.0, k + 1)
  {
    if k > 0 {
      HalveWidth(w, k - 1);
    }
  }

  // ---------------------------------------------------------------------------
  // solve
  // ---------------------------------------------------------------------------

  /** The sum of |p_i| for i < n. */
  function AbsSum(p: Poly, n: nat): (s: real)
    requires n <= |p|
    ensures s >= 0.0
  {
    if n == 0 then 0.0 else AbsSum(p, n - 1) + Abs(p[n - 1])
  }

  /** The interval bound of `solve`: the sum of |p_i| below the degree d, over |p_d|. */
  function RootBound(p: Poly): real
    requires DegreeOf(p) >= 0
  {
    AbsSum(p, DegreeOf(p)) / Abs(p[DegreeOf(p)])
  }

  lemma QuadraticValue(p: Poly, y: real)
    requires DegreeOf(p) == 2
    ensures Value(p, y) == p[0] + p[1] * y + p[2] * (y * y)
  {
    RangeValueFull(p, y);
    assert RangeValue(p, 2, 3, y) == p[2];
  }

  /** (-c1 + sq) / (2 c2) solves c2 y^2 + c1 y + c0 = 0 whenever sq is a square root of the discriminant. */
  lemma QuadraticRoot(c0: real, c1: real, c2: real, sq: real, y: real)
    requires c2 != 0.0
    requires sq * sq == c1 * c1 - 4.0 * c2 * c0
    requires y == (-c1 + sq) / (2.0 * c2)
    ensures c0 + c1 * y + c2 * (y * y) == 0.0
  {
    var t := 2.0 * c2 * y;
    assert t == -c1 + sq;
    calc {
      4.0 * c2 * (c0 + c1 * y + c2 * (y * y));
      4.0 * c2 * c0 + 2.0 * c1 * t + t * t;
      4.0 * c2 * c0 + 2.0 * c1 * (-c1 + sq) + (-c1 + sq) * (-c1 + sq);
      sq * sq - (c1 * c1 - 4.0 * c2 * c0);
      0.0;
    }
  }

  /** `coeffs[1]*coeffs[1] - 4*coeffs[2]*coeffs[0]`. */
  function Discriminant(p: Poly): real
    requires |p| >= 3
  {
    p[1] * p[1] - 4.0 * p[2] * p[0]
  }

  /** Both values of the quadratic formula are roots, distinct unless the square root is 0. */
  lemma QuadraticPair(p: Poly, sq: real, y0: real, y1: real)
    requires DegreeOf(p) == 2
    requires sq * sq == Discriminant(p)
    requires y0 == (-p[1] + sq) / (2.0 * p[2]) && y1 == (-p[1] - sq) / (2.0 * p[2])
    ensures Value(p, y0) == 0.0 && Value(p, y1) == 0.0
    ensures sq != 0.0 ==> y0 != y1
  {
    QuadraticValue(p, y0);
    QuadraticRoot(p[0], p[1], p[2], sq, y0);
    QuadraticValue(p, y1);
    QuadraticRoot(p[0], p[1], p[2], -sq, y1);
    assert y0 * (2.0 * p[2]) == -p[1] + sq;
    assert y1 * (2.0 * p[2]) == -p[1] - sq;
  }

  /**
   * What the quadratic formula gives for c0 + c1 x + c2 x^2 with discriminant det: nothing when
   * det < 0; one root when det = 0; two values when det > 0, which are two distinct roots as soon
   * as `sqrt` returns a square root of det.
   */
  ghost predicate QuadraticRoots(p: Poly, sqrt: real -> real, r: seq<real>)
    requires |p| >= 3
  {
    var det := Discriminant(p);
    (det < 0.0 ==> r == []) &&
    (det == 0.0 ==> |r| == 1 && Value(p, r[0]) == 0.0) &&
    (det > 0.0 ==>
      |r| == 2 && (sqrt(det) * sqrt(det) == det ==> r[0] != r[1] && Value(p, r[0]) == 0.0 && Value(p, r[1]) == 0.0))
  }

  /** The odd-degree result ends with what bisection on [-bound, bound] returned. */
  ghost predicate EndsWithBisection(p: Poly, fuel: nat, r: seq<real>)
    requires DegreeOf(p) >= 0
  {
    var last := IntervalRoot(p, -RootBound(p), RootBound(p), fuel);
    last.Some? && |last.value| <= |r| && r[|r| - |last.value|..] == last.value
  }

  /** The quadratic branch of `solve`, for a polynomial c0 + c1 x + c2 x^2 of degree 2. */
  method SolveQuadratic(p: Poly, sqrt: real -> real) returns (r: seq<real>)
    requires DegreeOf(p) == 2
    ensures QuadraticRoots(p, sqrt, r)
  {
    var det := Discriminant(p);
    if det < 0.0 {
      return [];
    }
    if det == 0.0 {
      var y := -p[1] / (2.0 * p[2]);
      QuadraticPair(p, 0.0, y, y);
      return [y];
    }
    var sq := sqrt(det);
    var y0, y1 := (-p[1] + sq) / (2.0 * p[2]), (-p[1] - sq) / (2.0 * p[2]);
    if sq * sq == det {
      QuadraticPair(p, sq, y0, y1);
    }
    return [y0, y1];
  }

  /** The accumulation loop of `solve`: the sum of the magnitudes below the degree, over the leading one. */
  method Bound(p: Poly) returns (bound: real)
    requires DegreeOf(p) >= 0
    ensures bound == RootBound(p)
    ensures bound >= 0.0
  {
    var d := Degree(p);
    bound := 0.0;
    var i := 0;
    while i < d
      invariant 0 <= i <= d
      invariant bound == AbsSum(p, i)
    {
      bound := bound + Abs(p[i]);
      i := i + 1;
    }
    bound := bound / Abs(p[d]);
  }

  /** Both parts concatenated, or None when either is None. */
  function Join(a: Option<seq<real>>, b: Option<seq<real>>): Option<seq<real>>
  {
    if a.Some? && b.Some? then Some(a.value + b.value) else None
  }

  /**
   * Bisection between each pair of neighbouring ends, the results concatenated in order;
   * None when one of them runs out of fuel.
   */
  function SolveAll(p: Poly, ends: seq<real>, fuel: nat): Option<seq<real>>
    decreases |ends|
  {
    if |ends| < 2 then Some([])
    else Join(IntervalRoot(p, ends[0], ends[1], fuel), SolveAll(p, ends[1..], fuel))
  }

  /** Each pair of neighbouring ends is in increasing order. */
  predicate Ascending(ends: seq<real>)
  {
    forall k :: 0 <= k < |ends| - 1 ==> ends[k] <= ends[k + 1]
  }

  /**
   * Fewer values than ends, and every value is found between some pair of neighbouring ends;
   * when the ends ascend, every value is located.
   */
  lemma {:induction false} SolveAllSound(p: Poly, ends: seq<real>, fuel: nat)
    ensures var r := SolveAll(p, ends, fuel);
      r.Some? ==> |r.value| < MaxInt(1, |ends|)
    ensures var r := SolveAll(p, ends, fuel);
      r.Some? ==> forall m :: m in r.value ==> exists k :: 0 <= k < |ends| - 1 && Found(p, ends[k], ends[k + 1], m)
    ensures var r := SolveAll(p, ends, fuel);
      r.Some? && Ascending(ends) ==> forall m :: m in r.value ==> Located(p, m)
    decreases |ends|
  {
    var r := SolveAll(p, ends, fuel);
    if |ends| >= 2 && r.Some? {
      IntervalRootSound(p, ends[0], ends[1], fuel);
      SolveAllSound(p, ends[1..], fuel);
      var a, b := IntervalRoot(p, ends[0], ends[1], fuel).value, SolveAll(p, ends[1..], fuel).value;
      assert r.value == a + b;
      forall m | m in r.value
        ensures exists k :: 0 <= k < |ends| - 1 && Found(p, ends[k], ends[k + 1], m)
      {
        if m in a {
          assert Found(p, ends[0], ends[1], m);
        } else {
          var k :| 0 <= k < |ends[1..]| - 1 && Found(p, ends[1..][k], ends[1..][k + 1], m);
          assert Found(p, ends[k + 1], ends[k + 2], m);
        }
      }
    }
  }

  /**
   * The concatenation loop of the even-degree branch: the bisection results on each pair of
   * neighbouring interval ends, in order.
   */
  method SolveBetween(p: Poly, intervals: seq<real>, fuel: nat) returns (r: Option<seq<real>>)
    ensures r == SolveAll(p, intervals, fuel)
  {
    var ret: seq<real> := [];
    var k := 0;
    assert intervals[0..] == intervals;
    var all := SolveAll(p, intervals, fuel);
    if all.Some? {
      assert [] + all.value == all.value;
    }
    while k <= |intervals| - 2
      invariant 0 <= k <= MaxInt(0, |intervals| - 1)
      invariant SolveAll(p, intervals, fuel) == Join(Some(ret), SolveAll(p, intervals[k..], fuel))
    {
      var part := SolveInInterval(p, intervals[k], intervals[k + 1], fuel);
      assert intervals[k..][1..] == intervals[k + 1..];
      if part.None? {
        return None;
      }
      var rest := SolveAll(p, intervals[k + 1..], fuel);
      if rest.Some? {
        assert ret + (part.value + rest.value) == (ret + part.value) + rest.value;
      }
      ret := ret + part.value;
      k := k + 1;
    }
    assert ret + [] == ret;
    return Some(ret);
  }

  /**
   * `solve`. Degree at most 0: no roots. Degree 1: the literal `-coeffs[1]/coeffs[0]`.
   * Degree 2: the quadratic formula. Otherwise, with r the bound: for an even degree, one
   * bisection between each pair of neighbours in [-r] + roots of the derivative + [r] (the
   * source's `sort` has a boolean comparator and leaves the order as it is); for an odd degree,
   * one bisection on [-r, r], then the roots of the quotient by x minus that solution (by x
   * itself when there is none, since `-[]` is 0), followed by the solution.
   * None stands for a bisection that runs out of fuel and for the degree-1 case with a zero
   * constant coefficient, where the source returns an infinity.
   */
  method Solve(p: Poly, num: Numerics) returns (r: Option<seq<real>>)
    ensures DegreeOf(p) <= 0 ==> r == Some([])
    ensures DegreeOf(p) == 1 ==> r == if p[0] == 0.0 then None else Some([-p[1] / p[0]])
    ensures DegreeOf(p) == 2 ==> r.Some? && QuadraticRoots(p, num.sqrt, r.value)
    ensures r.Some? ==> |r.value| <= MaxInt(0, DegreeOf(p))
    ensures DegreeOf(p) >= 3 && DegreeOf(p) % 2 == 0 && r.Some? ==>
      exists critical: seq<real> :: |critical| < DegreeOf(p) &&
        r == SolveAll(p, [-RootBound(p)] + critical + [RootBound(p)], num.fuel)
    ensures DegreeOf(p) >= 3 && DegreeOf(p) % 2 == 1 && r.Some? ==> EndsWithBisection(p, num.fuel, r.value)
    decreases DegreeOf(p) + 1, 1
  {
    var d := Degree(p);
    if d <= 0 {
      return Some([]);
    }
    if d == 1 {
      if p[0] == 0.0 {
        return None;
      }
      return Some([-p[1] / p[0]]);
    }
    if d == 2 {
      var roots := SolveQuadratic(p, num.sqrt);
      return Some(roots);
    }
    if d % 2 == 0 {
      r := SolveEven(p, num);
    } else {
      r := SolveOdd(p, num);
    }
  }

  /**
   * The even-degree branch of `solve`: the roots of the derivative, kept in the order they come
   * back in, between -bound and bound, and bisection between each pair of neighbours.
   */
  method SolveEven(p: Poly, num: Numerics) returns (r: Option<seq<real>>)
    requires DegreeOf(p) >= 1
    ensures r.Some? ==> |r.value| <= DegreeOf(p)
    ensures r.Some? ==>
      exists critical: seq<real> :: |critical| < DegreeOf(p) &&
        r == SolveAll(p, [-RootBound(p)] + critical + [RootBound(p)], num.fuel)
    decreases DegreeOf(p) + 1, 0
  {
    var bound := Bound(p);
    var dp := Diff(p);
    DerivativeDegree(p);
    var critical := Solve(dp, num);
    if critical.None? {
      return None;
    }
    var ends := [-bound] + critical.value + [bound];
    r := SolveBetween(p, ends, num.fuel);
    SolveAllSound(p, ends, num.fuel);
    assert r == SolveAll(p, [-RootBound(p)] + critical.value + [RootBound(p)], num.fuel);
  }

  /**
   * The odd-degree branch of `solve`: bisect on [-bound, bound], divide by x minus the solution
   * (by x when there is none, since `-[]` is 0), solve the quotient and append the solution.
   */
  method SolveOdd(p: Poly, num: Numerics) returns (r: Option<seq<real>>)
    requires DegreeOf(p) >= 1
    ensures r.Some? ==> |r.value| <= DegreeOf(p) && EndsWithBisection(p, num.fuel, r.value)
    decreases DegreeOf(p) + 1, 0
  {
    var bound := Bound(p);
    var solution := SolveInInterval(p, -bound, bound, num.fuel);
    if solution.None? {
      return None;
    }
    assert |solution.value| <= 1;
    var s := if solution.value == [] then 0.0 else solution.value[0];
    LinearFactorDegree(s);
    var q, rest := Divide(p, [-s, 1.0]);
    assert DegreeOf(q.value) == DegreeOf(p) - 1;
    var others := Solve(q.value, num);
    if others.None? {
      return None;
    }
    assert |others.value| <= DegreeOf(p) - 1 && |solution.value| <= 1;
    r := Some(others.value + solution.value);
    assert r.value[|r.value| - |solution.value|..] == solution.value;
    assert solution == IntervalRoot(p, -RootBound(p), RootBound(p), num.fuel);
  }

  /** The degree-1 branch does not return the root: for 1 + 2x it returns -2, where the value is -3. */
  lemma LinearBranchMissesRoot()
    ensures DegreeOf([1.0, 2.0]) == 1
    ensures Value([1.0, 2.0], -2.0 / 1.0) == -3.0
    ensures Value([1.0, 2.0], -1.0 / 2.0) == 0.0
  {
    DegreeUnique([1.0, 2.0], 1);
    LinearValue(1.0, 2.0, -2.0);
    LinearValue(1.0, 2.0, -0.5);
  }

  /** The bound of `solve` is not a root bound: x^3 - x/4 has the root 1/2 outside [-1/4, 1/4]. */
  lemma BoundMissesRoot()
    ensures DegreeOf([0.0, -0.25, 0.0, 1.0]) == 3
    ensures RootBound([0.0, -0.25, 0.0, 1.0]) == 0.25
    ensures Value([0.0, -0.25, 0.0, 1.0], 0.5) == 0.0
  {
    var p := [0.0, -0.25, 0.0, 1.0];
    DegreeUnique(p, 3);
    assert AbsSum(p, 3) == 0.25;
    RangeValueFull(p, 0.5);
    assert RangeValue(p, 3, 4, 0.5) == 1.0;
  }
}
