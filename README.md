# BezierEditor core in Dafny

This project models the computational core of BezierEditor, a browser editor for paths made of
line, quadratic and cubic Bézier segments. The cubic segment is fitted between two anchors whose
tangent and radius of curvature are both given.

- `polynomial.dfy` (module `Polynomials`) models `polynomial_solver.js`. It covers the
  polynomial arithmetic: `eval`, `degree`, `add`, `substract`, `multiply`, `multiply_scaler`,
  `multiply_x`, `divide` and `diff`, plus the `zipWithDefault` helper and the constructor that
  reverses its argument.
  - A polynomial is a `seq<real>` with the lowest power first.
  - The degree of an empty or all-zero list, `-Infinity` in the source, is `-1`.
  - The loops of the source are methods. Each one is proved equal to a specification function:
    `Value` (Horner from index 0), `Plus`, `Minus`, `Shifted`, `Product`, `Derivative` and
    `Quotient`. The algebraic laws are proved about those functions.
- `rootfinder.dfy` (module `RootFinder`) models `solve_in_interval` and `solve` from the same
  file.
  - Bisection keeps a bracketing invariant.
  - `solve` dispatches on the degree. It recurses on the derivative for even degrees and on
    deflation by a linear factor for odd ones.
  - Three quirks are kept as written: the degree-1 formula `-c1/c0`, the root bound, and the sort
    with a boolean comparator. The one change is that the degree-1 formula gives None when
    `c0 = 0`, where the source divides by zero and returns an infinity.
- `geometry.dfy` (module `Geometry`) holds the vector algebra of `path.js`:
  - the quadratic control point as a ray intersection;
  - the velocity and acceleration of quadratic and cubic Béziers;
  - the quartic of the cubic `control_points`;
  - the two curvature relations it comes from.
- `path.dfy` (module `Paths`) models `path.js`.
  - Anchors (`Point`) and segments (`Segment`) are classes. `update` writes the tangent `v` and
    the radius `r` into both of a segment's shared anchors. A cubic also keeps its control
    polygon `cpoints`.
  - The three segment prototypes become one class with a `kind` tag.
  - `Path` holds its mutable list of segments and its first anchor.
- `editor.dfy` (module `Editor`) models the non-DOM part of `beziereditor.js`: `limit`, `limit2`,
  `mod_pos`, `snap`, grid snapping, page/SVG coordinate conversion, and the bookkeeping of
  `start_path` and `next_point`.
- `base.dfy` (module `Base`) holds what the modules share:
  - `Option` and `Result`;
  - the 2-D vector `Vec2` with `Add`, `Sub`, `Scale`, `Cross` and `Dot`;
  - the extended reals `ExtReal` (finite, ±Infinity, NaN) used for radii and curvatures;
  - `Numerics`, the record of numeric primitives the core calls but does not define.

All arithmetic is exact real arithmetic. The model has three kinds of parameters:

- The vector primitives `normalize`, `norm`, `mul` and `div` of the `vec2` library, which is not
  part of this model, together with `Math.sqrt` and `Math.PI`, are uninterpreted functions and
  constants passed in `Numerics`.
- The bisection loop has a fuel bound.
- Where the source produces NaN or ±Infinity from a division by zero, the model has `None`,
  `NoCurve` or an `ExtReal` value.

## Model

| member | source | states |
|---|---|---|
| Base.Sign | polynomial_solver.js:3-7 | -1 exactly for negative, 1 exactly for positive, 0 exactly for zero |
| Base.RealDiv | path.js:83 | a / b for b != 0; for b == 0 the sign of a picks +Infinity, -Infinity or NaN (for 0/0) |
| Base.Reciprocal | path.js:39 | `1 / r` on extended reals: 1/0 is +Infinity, 1/±Infinity is 0, NaN stays NaN |
| Polynomials.DegreeOf | polynomial_solver.js:49-55 | the degree is the highest index with a non-zero coefficient, or -1 when there is none |
| Polynomials.DegreeUnique | polynomial_solver.js:49-55 | any index with a non-zero coefficient and only zeros above it is the degree |
| Polynomials.Degree | polynomial_solver.js:49-55 | the downward scan returns the highest non-zero index (or -1) and equals `DegreeOf` |
| Polynomials.Eval | polynomial_solver.js:40-48 | the Horner loop from the degree down equals the power sum Σ p[i]·x^i |
| Polynomials.ValueIsPowerSum | polynomial_solver.js:40-48 | Horner evaluation equals the power sum Σ p[i]·x^i |
| Polynomials.ZipWithDefault | polynomial_solver.js:9-17 | the result has the longer length; entry i applies f to both entries, a missing one read as d |
| Polynomials.Add | polynomial_solver.js:56-60 | coefficient-wise sum, missing coefficients 0, length max(\|p\|, \|q\|) |
| Polynomials.PlusValue | polynomial_solver.js:56-60 | eval distributes over `add` |
| Polynomials.Substract | polynomial_solver.js:61-65 | coefficient-wise difference, missing coefficients 0, length max(\|p\|, \|q\|) |
| Polynomials.MinusValue | polynomial_solver.js:61-65 | eval distributes over `substract` |
| Polynomials.ScaleValue | polynomial_solver.js:75-79 | `multiply_scaler(k)` scales eval by k |
| Polynomials.MultiplyX | polynomial_solver.js:80-87 | the result is n zeros (none for n < 0) followed by p itself, which is left unchanged |
| Polynomials.ShiftedValue | polynomial_solver.js:80-87 | `multiply_x(n)` multiplies eval by x^n |
| Polynomials.Multiply | polynomial_solver.js:66-74 | the product for a multiplier of degree >= 0; a zero multiplier gives [0] for an empty receiver and NaN (None) otherwise |
| Polynomials.ProductValue | polynomial_solver.js:66-74 | eval of the product is the product of the evals |
| Polynomials.MultiplyValue | polynomial_solver.js:66-74 | every non-NaN result of `multiply` evaluates to the product of the evals |
| Polynomials.Diff | polynomial_solver.js:99-105 | the derivative: coefficient i-1 is i·p[i], length max(1, degree) |
| Polynomials.DerivativeCoefficients | polynomial_solver.js:101-103 | coefficient k-1 of the derivative is k·p[k] for 1 <= k <= degree |
| Polynomials.DerivativeDegree | polynomial_solver.js:99-105 | a polynomial of degree d >= 1 has a derivative of degree d-1 |
| Polynomials.Divide | polynomial_solver.js:88-98 | an error exactly when the divisor has negative degree; otherwise p = quotient·x + rest with deg rest < deg x, and the quotient has degree deg p - deg x |
| Polynomials.DivideStep | polynomial_solver.js:93-96 | one step of long division keeps p = ret·x + tmp and clears coefficient i of tmp |
| Polynomials.QuotientDegree | polynomial_solver.js:88-98 | the quotient has degree deg p - deg x, or is [0] when p has the smaller degree |
| Polynomials.DeflateRoot | polynomial_solver.js:159 | dividing x - s out of a polynomial with root s leaves no remainder: p(y) = q(y)·(y - s) |
| Polynomials.LinearFactorDegree | polynomial_solver.js:159 | the divisor `poly(1, -s)` has degree 1 |
| Polynomials.Reversed | polynomial_solver.js:23 | reversal keeps the length |
| Polynomials.ReversedTwice | polynomial_solver.js:23 | reversing twice gives the list back |
| Polynomials.FromHighestFirst | polynomial_solver.js:22-24 | the constructor reverses its argument array in place and keeps it as the coefficients |
| Polynomials.ShorthandValue | polynomial_solver.js:20-24 | `poly(a, b, c)` evaluates to a·x² + b·x + c |
| Polynomials.SetCoeffValue | polynomial_solver.js:94 | writing v into a zero coefficient k adds v·x^k to the value |
| RootFinder.BisectStep | polynomial_solver.js:119-126 | a bisection step halves the width, stays inside the interval and keeps the bracket (sign at max = max_sign, sign at min != max_sign) |
| RootFinder.Bisect | polynomial_solver.js:118-127 | the bisection loop with a fuel bound returns a value between the two ends it started from |
| RootFinder.ReversedIsNarrow | polynomial_solver.js:120 | when max < min the stopping test holds at once: a negative width over a positive (or zero) magnitude |
| RootFinder.BisectLocates | polynomial_solver.js:118-127 | on an ordered bracket (min <= max), a result m lies in [min, max] and there is an h with m <= h <= max, [m, h] narrow and still bracketing the sign change |
| RootFinder.BisectReversed | polynomial_solver.js:118-127 | on a reversed interval (max < min) the loop returns min at once, whatever its value |
| RootFinder.IntervalRootSound | polynomial_solver.js:107-127 | at most one value; on an ordered interval it lies inside and is located (a root, or the lower end of a narrow sign change [m, h] with m <= h); on a reversed interval it is one of the ends and never missing; no value exactly when neither end is a root and both ends have the same sign |
| RootFinder.ReversedIntervalReportsEnd | polynomial_solver.js:107-127 | for x⁴ - 5x² + 4 on (1/2, -3/2) the ends have opposite signs and `solve_in_interval` reports 1/2, where the value is 45/16 |
| RootFinder.SolveInInterval | polynomial_solver.js:107-127 | the method equals the specification `IntervalRoot`: an end that is a root, nothing when the signs agree, else bisection |
| RootFinder.HalveWidth | polynomial_solver.js:119-126 | after k halvings the width is w / 2^k |
| RootFinder.QuadraticRoot | polynomial_solver.js:137-140 | (-c1 + sqrt(det)) / (2·c2) is a root of c2·y² + c1·y + c0 |
| RootFinder.QuadraticPair | polynomial_solver.js:136-141 | both quadratic formula values are roots, and they differ when det != 0 |
| RootFinder.SolveQuadratic | polynomial_solver.js:136-141 | no value for det < 0, one for det = 0, otherwise the two formula values |
| RootFinder.Bound | polynomial_solver.js:142-146 | the bound is Σ_{i<d} \|c_i\| / \|c_d\| and is non-negative |
| RootFinder.SolveAllSound | polynomial_solver.js:149-154 | bisection over each pair of neighbouring ends gives fewer values than ends; each value is found (as in `IntervalRootSound`) between some pair of neighbours; when the ends ascend every value is located |
| RootFinder.SolveBetween | polynomial_solver.js:149-154 | the concatenation loop equals `SolveAll`: the results of `solve_in_interval` on each pair of neighbouring ends, in order, None when one runs out of fuel |
| RootFinder.SolveEven | polynomial_solver.js:147-156 | the even branch is `SolveAll` over -bound, some list of fewer critical points than the degree (a list standing for the derivative's solutions, unsorted), and bound; at most deg values |
| RootFinder.Solve | polynomial_solver.js:128-162 | nothing for degree <= 0; `-c1/c0` for degree 1 (None when c0 = 0); the quadratic formula for degree 2; at most deg values; for an even degree, `SolveAll` between -bound, the critical points and bound; the odd branch ends with its bisection value |
| RootFinder.SolveOdd | polynomial_solver.js:157-161 | the result ends with the value `solve_in_interval(-bound, bound)` returned and has at most deg values; the values before it are the quotient's solutions, which the contract counts but does not describe |
| RootFinder.LinearBranchMissesRoot | polynomial_solver.js:134 | for 1 + 2x the degree-1 branch gives -2, where the value is -3, while the root is -1/2 |
| RootFinder.BoundMissesRoot | polynomial_solver.js:142-146 | for x³ - x/4 the bound is 1/4 but 1/2 is a root |
| Geometry.QuadraticControl | path.js:64-69 | the control point exists exactly when the tangents are not parallel, and lies on both tangent lines |
| Geometry.QuadraticTangents | path.js:74-78 | the quadratic's velocity at t=0 is parallel to the start tangent and at t=1 to the end tangent |
| Geometry.QuarticDegree | path.js:118 | with r, s != 0 the quartic has degree 4 |
| Geometry.QuarticValue | path.js:118 | the quartic `poly(27rs², 0, -36src, -8b³, 12rc² - 8b²a)` evaluates to its power form |
| Geometry.QuarticFromRelations | path.js:116-121 | with x from the end relation, y satisfies the start relation exactly when y is a root of the quartic |
| Geometry.XFromYRelation | path.js:113 | x = (3sy² - 2c)/(2b) satisfies 2bx = 3sy² - 2c |
| Geometry.YFromXZero | path.js:116 | y = (3rx² - 2a)/(2b) holds exactly when 4b²(3rx² - 2a - 2by) = 0 |
| Geometry.CurvatureAtStart | path.js:146-153 | with a unit start tangent the curvature at t=0 is r exactly when y = (3rx² - 2a)/(2b) |
| Geometry.CurvatureAtEnd | path.js:146-153 | with a unit end tangent the curvature at t=1 is s exactly when x = (3sy² - 2c)/(2b) |
| Geometry.CubicAtStart | path.js:148-153 | at t=0, velocity × acceleration = 18x(a + yb) |
| Geometry.CubicAtEnd | path.js:148-153 | at t=1 the velocity is 3y·v3 and velocity × acceleration = 18y(c + xb) |
| Paths.Point.constructor | path.js:192-199 | a new anchor has v = (1, 0), r = 1000, no parent segments, and its parent path |
| Paths.Point.SvgAttrRoc | path.js:207-212 | a radius beyond ±4096 gives an empty circle at (-10, -10); otherwise radius \|r\| at (0, r), a circle through the anchor |
| Paths.QuadraticControlOf | path.js:58-69 | the control point exists exactly when both tangents exist and are not parallel, and lies on both tangent lines |
| Paths.QuadraticDirection | path.js:74-78 | the quadratic's direction exists exactly when its control point does |
| Paths.QuadraticCurvature | path.js:79-84 | without a control point the quadratic's curvature is NaN |
| Paths.CubicDirection | path.js:139-145 | the cubic's direction exists exactly when it has a control polygon |
| Paths.CubicCurvature | path.js:146-154 | without a control polygon the cubic's curvature is NaN |
| Paths.CubicSetup | path.js:108-109 | r = 1/start.r and s = 1/end.r are finite and b = -(v0 × v3) is non-zero whenever the setup exists |
| Paths.Positives | path.js:119 | the filter keeps exactly the positive roots |
| Paths.SeqMax | path.js:120 | `Math.max` of a non-empty list is a member at least every member |
| Paths.SeqMin | path.js:120 | `Math.min` of a non-empty list is a member at most every member |
| Paths.ChooseRoot | path.js:119-120 | none when no root is positive; else a positive root, the largest if s > 0 and the smallest otherwise |
| Paths.HandleLengths | path.js:111-121 | y = -a/b when r = 0; x = -c/b when s = 0; otherwise y is the chosen root. x always satisfies the end relation, and y satisfies the start relation in the first two branches |
| Paths.CubicControl | path.js:107-130 | a control polygon starts at start.p and ends at end.p, with p1 forward along start.v and p2 behind end.p along end.v (x, y > 0) |
| Paths.Segment.constructor | path.js:93-97 | a new segment holds its anchors; a cubic has no control polygon yet |
| Paths.Segment.P1 | path.js:58-63 | `p1` lies on both tangent lines and exists when the tangents cross |
| Paths.Segment.QuadraticControlPoints | path.js:64-69 | quadratic `control_points` is exactly [start.p, p1, end.p] |
| Paths.Segment.Direction | path.js:31-33 | a line always has a direction; a quadratic exactly when `p1` exists; a cubic exactly when it has a control polygon |
| Paths.Segment.Curvature | path.js:34-36 | a line has curvature 0; a quadratic without `p1` and a cubic without a polygon have NaN |
| Paths.LineIsStraight | path.js:31-36 | a line has the same direction at every t and curvature 0 |
| Paths.Segment.SvgData | path.js:131-138 | `svg_data` is one command and then coordinates, ending at the segment's last point: `L end` for a line; `Q p1 end` for a quadratic (NaN coordinates without `p1`); `C p1 p2 p3` from the cubic's control polygon, or `L end` without one |
| Paths.Segment.SvgDataPoints | path.js:70-73 | reading the coordinates back gives [end] for a line, [p1, end] for a quadratic, [p1, p2, p3] for a cubic with a polygon and [end] without one |
| Paths.Segment.ControlPoints | path.js:107-130 | cubic `control_points` equals `CubicControl` of the anchors and the solver's roots; those roots are `SolverRoots`: at most four, none without a setup or with r = 0 or s = 0, and otherwise none or exactly `SolveAll` on the quartic between -bound, fewer than four critical points and bound; a polygon runs from start.p to end.p |
| Paths.Segment.Update | path.js:37-42 | `update` for all three kinds: positions and parent segments unchanged; the new tangents, radii and polygon are `Fitted` from the old ones: a line writes its chord direction and infinite radii; a quadratic writes in order, each value from the anchors as they are then; a cubic recomputes `cpoints` with `SolverRoots` and writes the anchors only when there is a polygon; a cubic's data then ends at its end anchor |
| Paths.Segment.UpdateLine | path.js:37-42 | both anchors get the chord direction and radius +Infinity |
| Paths.Segment.UpdateQuadratic | path.js:85-90 | the four writes in source order, each computed from the anchors as they are at that step |
| Paths.Segment.UpdateCubic | path.js:155-163 | `cpoints` is recomputed from the solver's roots (`SolverRoots`); without a polygon both anchors are unchanged, with one they get its tangents and radii |
| Paths.CubicEndCurvature | path.js:146-153 | with a unit end tangent the fitted cubic's curvature at t=1 is exactly 1/end.r |
| Paths.CubicStartCurvature | path.js:146-153 | with a unit start tangent the curvature at t=0 is 1/start.r exactly when r = 0, s = 0 or y is an exact root of the quartic |
| Paths.CubicKeepsEndRadius | path.js:155-163 | `update` gives the end anchor its finite radius back, and an infinite one as +Infinity |
| Paths.CubicKeepsStartRadius | path.js:155-163 | the start anchor gets its radius back when the curvature condition holds |
| Paths.QuadraticDirectionOnTangents | path.js:74-78 | the direction a quadratic writes at t=0 (t=1) is parallel to the start (end) tangent |
| Paths.SameAnchorNoCurve | path.js:107-130 | a cubic from an anchor to itself has no control polygon |
| Paths.SegmentsData | path.js:176-178 | the concatenated segment data holds one command per segment |
| Paths.SegmentsDataPieces | path.js:176-178 | cut at its command letters, the concatenated data is each segment's `svg_data` in the order of the segments, and it starts with a command |
| Paths.SegmentsDataEnd | path.js:176-178 | the data of a non-empty segment list ends at the last segment's last point |
| Paths.Path.DataEnd | path.js:174-180 | the path data's last point is the end anchor whenever there is no segment or the last segment ends at it |
| Paths.Path.constructor | path.js:166-171 | a new path has no segments |
| Paths.Path.StartPoint | path.js:181-183 | the first segment's start, or `only_point` when there are no segments |
| Paths.Path.EndPoint | path.js:184-186 | the last segment's end, or `only_point` when there are no segments |
| Paths.Path.SvgAttr | path.js:174-180 | the data starts with "M sx sy" at the start anchor, holds one command per segment after the move, and ends at `DataEnd` (the end anchor once `update` has fitted the last segment) |
| Paths.Path.SvgAttrPieces | path.js:174-180 | cut at its command letters (a cut that `Paths.PiecesJoin` shows loses nothing), the data is the move to the start anchor followed by every segment's `svg_data`, in order |
| Editor.Limit | beziereditor.js:10 | the result lies in [min, max] when min <= max, is a when a is in range, and is always one of a, min, max |
| Editor.Limit2 | beziereditor.js:11 | below the range gives -Infinity, above it +Infinity, inside it the value itself |
| Editor.Trunc | beziereditor.js:12 | truncation toward zero, as `%` uses it |
| Editor.JsRem | beziereditor.js:12 | `x % y` differs from x by a whole multiple of y, is smaller than \|y\| in size and has the sign of x |
| Editor.ModPos | beziereditor.js:12 | for y != 0 the result lies in [0, \|y\|) and differs from x by a whole multiple of y; y = 0 gives NaN (None) |
| Editor.ModPosUnique | beziereditor.js:12 | `mod_pos` is the only value in [0, \|y\|) that differs from x by a multiple of y |
| Editor.Snap | beziereditor.js:13-15 | for y > 0 and e >= 0 the result is x, or a multiple of y within e of x |
| Editor.SnapLine | beziereditor.js:13-15 | when `snap` moves x, the result is a multiple of y within e of x |
| Editor.SnapFindsGridLine | beziereditor.js:13-15 | when a multiple of y lies within e of x and 2e < y, `snap` returns exactly it |
| Editor.SnapTo | beziereditor.js:13-15 | when it snaps, `snap` gives x + e - mod_pos(x + e, y) |
| Editor.FloorOfShifted | beziereditor.js:14-15 | floor(z / y)·y = z - mod_pos(z, y) for y > 0 |
| Editor.BezierEditor.constructor | beziereditor.js:30-74 | the view box covers the area from the origin; there are no paths or points; the grid is 50×50 and the angular grid π/12; snapping is off and new segments are lines |
| Editor.BezierEditor.SnapToGrid | beziereditor.js:123-129 | the identity with snapping off; otherwise each coordinate is kept or snapped within min(5, grid/2) |
| Editor.BezierEditor.AngularSnapToGrid | beziereditor.js:130-133 | an angle is kept or snapped to the angular grid within min(π/60, 0.3·grid) |
| Editor.BezierEditor.PageToSvg | beziereditor.js:212-215 | defined exactly when the area has no zero side |
| Editor.BezierEditor.SvgToPage | beziereditor.js:216-219 | defined exactly when the view box has no zero side |
| Editor.BezierEditor.PageSvgRoundTrip | beziereditor.js:212-219 | svg → page undoes page → svg when neither rectangle has a zero side |
| Editor.BezierEditor.SvgPageRoundTrip | beziereditor.js:212-219 | page → svg undoes svg → page when neither rectangle has a zero side |
| Editor.ScaleBack | beziereditor.js:213-218 | scaling by s/d and then by d/s gives the coordinate back |
| Editor.SeedTangent | beziereditor.js:177-179 | the seeded tangent is NaN exactly when the start tangent is |
| Editor.WellFormed | beziereditor.js:154-159 | a well-formed path has its lone anchor, which is its start point |
| Editor.BezierEditor.StartPath | beziereditor.js:154-159 | a fresh path without segments is appended; its new lone anchor (v = (1, 0), r = 1000, no parent segments) is its start and end and is appended to the points; the path is well formed; every other editor field is unchanged |
| Editor.BezierEditor.NextPoint | beziereditor.js:168-192 | the new segment starts at the old end anchor, which keeps its position, and ends at a fresh anchor, which is appended to the points; it is recorded in both anchors' parent segments and appended to the path, which stays chained and linked; its anchors are `Fitted` from the old end anchor and the new one (r = 1000, tangent (1, 0) for a line, seeded otherwise); the editor's other fields are unchanged |
| Editor.Attach | beziereditor.js:172-191 | a curve seeds the end tangent; then a fresh segment of the kind is made, pushed onto both anchors' parent segments, and its anchors are `Fitted` from their values after seeding |

## Findings

| source | as written | input that shows it | evidently intended | confidence | as-written member | corrected member |
|---|---|---|---|---|---|---|
| polynomial_solver.js:148 | the comparator of the sort of the critical points returns a boolean and never a negative number, so an engine that orders by `comparator(x, y) < 0` leaves them unsorted; a pair of neighbouring ends can then be reversed, and bisection on it stops at once and reports its first end | x⁴ - 5x² + 4 on the reversed pair (1/2, -3/2): the ends have opposite signs and 1/2 is reported, where the value is 45/16 | ascending interval ends, on which every reported value is a root or the lower end of a narrow sign change | not executed | RootFinder.ReversedIntervalReportsEnd | RootFinder.SolveAllSound |

## Left out

- The DOM, SVG element, jQuery, tooltip, template cloning and event wiring of `beziereditor.js` are not modelled. This includes the mouse handlers and the drawing of the grid. `beziereditor_ops.js` is not part of this model (user-interface operations only).
- Zoom, scrolling and rotation are not modelled. They need `Math.pow` and trigonometry.
- The `vec2` library is not part of this model.
  - `normalize`, `norm`, `mul`, `div` and `Math.sqrt` are uninterpreted functions passed in `Numerics`, and `Math.PI` is the `pi` field of `Numerics`.
  - The curvature lemmas assume unit tangents instead of computing a square root.
- The model uses exact reals, not IEEE doubles: no rounding, overflow or signed zero. Where the source computes NaN or ±Infinity, the model has an explicit case instead:
  - the NaN coefficient test of `solve_in_interval` (polynomial_solver.js:109-111) cannot fire over reals;
  - a multiplier of degree -Infinity, which makes `multiply` produce NaN coefficients, is `None`;
  - a NaN tangent or a NaN circle is `None` or `NaN`.
- `Polynomials.Divide` raises its error as an `Err` result instead of throwing, and the quotient is returned as a value. `rest` (the final `tmp`) is a ghost output.
- RootFinder.Solve: a degree-1 polynomial with a zero constant term returns None. The source divides by zero there and returns [±Infinity].
- RootFinder.Solve: completeness ("every real root is found") is not stated. It is false as written, because of the degree-1 formula, the root bound that is not one (`BoundMissesRoot`), and the comparator discussed below.
- The sort comparator at polynomial_solver.js:148 returns a boolean. It is modelled as leaving the list in solver order, on the grounds that an engine which only tests `comparator(x, y) < 0` never reorders with it. An engine that does sort would give ascending ends, for which `SolveAllSound` proves every value located.
- RootFinder.Solve: with the critical points unsorted, a pair of neighbouring ends can be reversed. Bisection then stops at once and reports the first end when the signs differ, which need not be near a root (`ReversedIntervalReportsEnd`). For an even degree the contract therefore states the values as `SolveAll` over some list of critical points; only values from ascending pairs are located.
- RootFinder.SolveInInterval: the source loops until `(max - min) / min(|min|, |max|) < 2^-24`, which never holds once an end is 0 and the width is positive. The model bisects for at most `fuel` steps and gives None when the fuel runs out. The tolerance test is kept, including its division by zero: a negative width over 0 stops, and a zero or positive one goes on.
- RootFinder.SolveOdd: an empty bisection result deflates by `x`, because `-[]` is 0 in the source. The contract states the final bisection value and the count; it does not describe the values solved from the quotient, and the result is not claimed to be a set of roots.
- RootFinder.SolveEven: the critical points are stated to exist with fewer entries than the degree; the contract does not tie them to the solutions of the derivative, since `solve` is a method with no specification function of its own.
- Paths.SolverRoots: when `solve` runs out of fuel on the quartic, the model continues with no roots, where the source never returns.
- Polynomials.Eval: an empty coefficient list evaluates to 0. The source reads the undefined `coeffs[0]` and gives NaN.
- Polynomials.MultiplyScaler: it has no contract of its own; `ScaleValue` states what it does to the value.
- Paths.CubicSetup: the source also continues with non-finite numbers in these cases, and the model stops and gives no control polygon (`false`) instead:
  - a zero start or end radius (so r or s is infinite);
  - a NaN radius;
  - a NaN tangent;
  - parallel tangents (b = 0).
- Paths.ChooseRoot: when no root is positive, the source takes `Math.max`/`Math.min` of an empty array (-Infinity/+Infinity). The model returns no curve. For s < 0 and b < 0 the source's `x > 0 && y > 0` test can pass with y = +Infinity; this is modelled as no curve.
- `direction`/`curvature` of a cubic without a control polygon throw in the source; in the model they give a NaN tangent and a NaN curvature. They are never called that way from `update`.
- Paths.Segment.Update: for a quadratic whose two anchors are the same object, it states only that the tangent and the radius become NaN. It does not state the later writes.
- Editor.BezierEditor.NextPoint: it proves that the extended path stays well formed, but not that the editor's other paths stay well formed.
- The radius of curvature of a straight line is `1 / 0`, which is +Infinity here (`PosInf`). An infinite anchor radius gives back curvature 0.
- Rendering numbers as text is abstract: path data is a list of tokens (command letters and numbers, with `NonFinite` for a NaN or infinite coordinate). Ids, counters, `toString`, `sprintf`, `serialize_data`, `Point.svg_attr` and the `{id, d}` wrapper of `svg_attr` are not modelled.
- Not modelled: the `breakpoint` counter and `alert` in `sign`, `console.log`, and `assert_eq`. The `sign` function itself is `Base.Sign`.
- `set_value`, `selected_path`, `selection` and the other editor fields unrelated to paths are not modelled.
