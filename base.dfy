/** Values shared by the polynomial solver, the segment geometry and the editor. */
module Base {

  datatype Option<T> = None | Some(value: T)

  /** The only failure the polynomial code raises. */
  datatype Error = DivisionByZero

  datatype Result<T> = Ok(value: T) | Err(error: Error)

  function Abs(x: real): real { if x < 0.0 then -x else x }

  function Min(a: real, b: real): real { if a <= b then a else b }

  function MaxInt(a: int, b: int): int { if a >= b then a else b }

  /** Three-way sign of a number. */
  function Sign(x: real): (s: int)
    ensures s == -1 <==> x < 0.0
    ensures s == 1 <==> x > 0.0
    ensures s == 0 <==> x == 0.0
  {
    if x < 0.0 then -1 else if x > 0.0 then 1 else 0
  }

  /** A real-valued 2-D vector with the operations the geometry needs. */
  datatype Vec2 = Vec2(x: real, y: real) {
    function Add(o: Vec2): Vec2 { Vec2(x + o.x, y + o.y) }
    function Sub(o: Vec2): Vec2 { Vec2(x - o.x, y - o.y) }
    function Scale(k: real): Vec2 { Vec2(k * x, k * y) }
    /** The 2-D determinant of this and o. */
    function Cross(o: Vec2): real { x * o.y - y * o.x }
    function Dot(o: Vec2): real { x * o.x + y * o.y }
  }

  /**
   * A JavaScript number as the model sees it: a real, one of the two infinities, or NaN
   * (zero has one sign only). Radii of curvature and the clamp `limit2` use it.
   */
  datatype ExtReal = NegInf | Finite(v: real) | PosInf | NaN

  /** a / b for finite a and b: a division by zero gives an infinity, or NaN for 0 / 0. */
  function RealDiv(a: real, b: real): (q: ExtReal)
    ensures b != 0.0 ==> q == Finite(a / b)
    ensures b == 0.0 ==> (q.PosInf? <==> a > 0.0) && (q.NegInf? <==> a < 0.0) && (q.NaN? <==> a == 0.0)
  {
    if b != 0.0 then Finite(a / b) else if a > 0.0 then PosInf else if a < 0.0 then NegInf else NaN
  }

  /** 1 / x: the infinities give 0 and 0 gives +Infinity. */
  function Reciprocal(x: ExtReal): (r: ExtReal)
    ensures x.Finite? && x.v != 0.0 ==> r == Finite(1.0 / x.v)
    ensures x.Finite? && x.v == 0.0 ==> r.PosInf?
    ensures (x.PosInf? || x.NegInf?) ==> r == Finite(0.0)
    ensures x.NaN? ==> r.NaN?
  {
    match x
    case Finite(v) => RealDiv(1.0, v)
    case NaN => NaN
    case _ => Finite(0.0)
  }

  /**
   * The numeric primitives that the modelled code calls but that are not part of it:
   * `Math.sqrt`, the vector `normalize` and `norm`, the complex `mul` and `div` of two vectors,
   * `Math.PI`, and a step bound for the bisection loop (which can run forever in the source).
   */
  datatype Numerics = Numerics(
    sqrt: real -> real,
    normalize: Vec2 -> Vec2,
    norm: Vec2 -> real,
    mul: (Vec2, Vec2) -> Vec2,
    div: (Vec2, Vec2) -> Vec2,
    pi: real,
    fuel: nat)
}
