/**
 * Polynomial arithmetic and the real-root finder of polynomial_solver.js.
 * A polynomial is its coefficient sequence, lowest power first; "degree -Infinity" is -1.
 */
module Polynomials {
  import opened Base

  type Poly = seq<real>

  // ---------------------------------------------------------------------------
  // Specification functions
  // ---------------------------------------------------------------------------

  /** Coefficient i, with every missing coefficient read as 0. */
  function Coeff(p: Poly, i: int): real { if 0 <= i < |p| then p[i] else 0.0 }

  function Pow(x: real, n: nat): real { if n == 0 then 1.0 else x * Pow(x, n - 1) }

  /** The value at x of the coefficients from index i on, in Horner's nesting. */
  function ValueFrom(p: Poly, i: nat, x: real): real
    decreases |p| - i
  {
    if i >= |p| then 0.0 else p[i] + x * ValueFrom(p, i + 1, x)
  }

  /** The value of p at x. */
  function Value(p: Poly, x: real): real { ValueFrom(p, 0, x) }

  /** The value of p at x as the power sum of p[i] * x^i. */
  function PowerSum(p: Poly, x: real): real
  {
    if |p| == 0 then 0.0 else PowerSum(p[..|p| - 1], x) + p[|p| - 1] * Pow(x, |p| - 1)
  }

  function Zeros(n: nat): (z: Poly)
    ensures |z| == n && forall i :: 0 <= i < n ==> z[i] == 0.0
  {
    if n == 0 then [] else Zeros(n - 1) + [0.0]
  }

  /** The degree: the highest index holding a non-zero coefficient, or -1 when there is none. */
  function DegreeOf(p: Poly): (d: int)
    ensures -1 <= d < |p|
    ensures d >= 0 ==> p[d] != 0.0
    ensures forall j :: d < j < |p| ==> p[j] == 0.0
  {
    if |p| == 0 then -1
    else if p[|p| - 1] != 0.0 then |p| - 1
    else DegreeOf(p[..|p| - 1])
  }

  /** Coefficient-wise sum, the shorter operand padded with 0. */
  function Plus(a: Poly, b: Poly): Poly
  {
    seq(MaxInt(|a|, |b|), i => Coeff(a, i) + Coeff(b, i))
  }

  /** Coefficient-wise difference, the shorter operand padded with 0. */
  function Minus(a: Poly, b: Poly): Poly
  {
    seq(MaxInt(|a|, |b|), i => Coeff(a, i) - Coeff(b, i))
  }

  /** `multiply_scaler`: every coefficient times k (an `Array.map`). */
  function MultiplyScaler(p: Poly, k: real): Poly
  {
    seq(|p|, i requires 0 <= i < |p| => k * p[i])
  }

  /** p times x^n: n zero coefficients in front. */
  function Shifted(p: Poly, n: nat): Poly { Zeros(n) + p }

  /**
   * Assignment `ret.coeffs[k] = v` to a JavaScript array: an index past the end grows the array;
   * the holes it leaves are read as 0 here (the source fills every one of them afterwards).
   */
  function SetCoeff(s: Poly, k: nat, v: real): (r: Poly)
    ensures |r| == MaxInt(|s|, k + 1)
    ensures r[k] == v && forall j :: 0 <= j < |r| && j != k ==> r[j] == Coeff(s, j)
  {
    if k < |s| then s[k := v] else s + Zeros(k - |s|) + [v]
  }

  /** The derivative: coefficient i - 1 is i times coefficient i; the result is never empty. */
  function Derivative(p: Poly): Poly
  {
    seq(MaxInt(1, DegreeOf(p)), i => (i + 1) as real * Coeff(p, i + 1))
  }

  // ---------------------------------------------------------------------------
  // Lemmas about evaluation
  // ---------------------------------------------------------------------------

  /** One step of Horner's rule; past the end both sides are 0. */
  lemma ValueFromStep(p: Poly, i: nat, x: real)
    ensures ValueFrom(p, i, x) == Coeff(p, i) + x * ValueFrom(p, i + 1, x)
  {
  }

  lemma {:induction false} ValueFromZeros(p: Poly, i: nat, x: real)
    requires forall j :: i <= j < |p| ==> p[j] == 0.0
    ensures ValueFrom(p, i, x) == 0.0
    decreases |p| - i
  {
    if i < |p| {
      ValueFromZeros(p, i + 1, x);
    }
  }

  lemma {:induction false} ValueFromOffset(a: Poly, b: Poly, i: nat, x: real)
    ensures ValueFrom(a + b, |a| + i, x) == ValueFrom(b, i, x)
    decreases |b| - i
  {
    if i < |b| {
      ValueFromOffset(a, b, i + 1, x);
      assert (a + b)[|a| + i] == b[i];
    }
  }

  /** Appending b after index |a| adds x^(|a|-i) times the value of b. */
  lemma {:induction false} ValueConcat(a: Poly, b: Poly, i: nat, x: real)
    requires i <= |a|
    ensures ValueFrom(a + b, i, x) == ValueFrom(a, i, x) + Pow(x, |a| - i) * Value(b, x)
    decreases |a| - i
  {
    if i == |a| {
      ValueFromOffset(a, b, 0, x);
    } else {
      ValueConcat(a, b, i + 1, x);
      assert (a + b)[i] == a[i];
      calc {
        ValueFrom(a + b, i, x);
        a[i] + x * ValueFrom(a + b, i + 1, x);
        a[i] + x * (ValueFrom(a, i + 1, x) + Pow(x, |a| - i - 1) * Value(b, x));
        a[i] + x * ValueFrom(a, i + 1, x) + (x * Pow(x, |a| - i - 1)) * Value(b, x);
      }
    }
  }

  /** Horner's nesting and the power sum agree. */
  lemma {:induction false} ValueIsPowerSum(p: Poly, x: real)
    ensures Value(p, x) == PowerSum(p, x)
  {
    if |p| > 0 {
      var n := |p| - 1;
      assert p == p[..n] + [p[n]];
      ValueConcat(p[..n], [p[n]], 0, x);
      ValueSingle(p[n], x);
      ValueIsPowerSum(p[..n], x);
    }
  }

  lemma ValueSingle(c: real, x: real)
    ensures Value([c], x) == c
  {
    assert ValueFrom([c], 1, x) == 0.0;
  }

  lemma ValueCons(c: real, s: Poly, x: real)
    ensures Value([c] + s, x) == c + x * Value(s, x)
  {
    ValueFromOffset([c], s, 0, x);
  }

  /**
   * One Horner step distributes over a sum: if f = c + x w for each operand and w adds up,
   * the steps add up too. Stated on plain numbers to keep the arithmetic out of the induction.
   */
  lemma HornerStepAdd(ca: real, cb: real, x: real, u: real, v: real, w: real, fa: real, fb: real, fw: real)
    requires w == u + v && fa == ca + x * u && fb == cb + x * v && fw == (ca + cb) + x * w
    ensures fw == fa + fb
  {
    assert x * w == x * u + x * v;
  }

  /** One Horner step distributes over a difference. */
  lemma HornerStepSub(ca: real, cb: real, x: real, u: real, v: real, w: real, fa: real, fb: real, fw: real)
    requires w == u - v && fa == ca + x * u && fb == cb + x * v && fw == (ca - cb) + x * w
    ensures fw == fa - fb
  {
    assert x * w == x * u - x * v;
  }

  lemma {:induction false} PlusValueFrom(a: Poly, b: Poly, i: nat, x: real)
    ensures ValueFrom(Plus(a, b), i, x) == ValueFrom(a, i, x) + ValueFrom(b, i, x)
    decreases MaxInt(|a|, |b|) - i
  {
    if i < MaxInt(|a|, |b|) {
      PlusValueFrom(a, b, i + 1, x);
      ValueFromStep(a, i, x);
      ValueFromStep(b, i, x);
      ValueFromStep(Plus(a, b), i, x);
      assert Coeff(Plus(a, b), i) == Coeff(a, i) + Coeff(b, i);
      HornerStepAdd(Coeff(a, i), Coeff(b, i), x,
        ValueFrom(a, i + 1, x), ValueFrom(b, i + 1, x), ValueFrom(Plus(a, b), i + 1, x),
        ValueFrom(a, i, x), ValueFrom(b, i, x), ValueFrom(Plus(a, b), i, x));
    } else {
      assert |Plus(a, b)| <= i && |a| <= i && |b| <= i;
    }
  }

  lemma PlusValue(a: Poly, b: Poly, x: real)
    ensures Value(Plus(a, b), x) == Value(a, x) + Value(b, x)
  {
    PlusValueFrom(a, b, 0, x);
  }

  lemma {:induction false} MinusValueFrom(a: Poly, b: Poly, i: nat, x: real)
    ensures ValueFrom(Minus(a, b), i, x) == ValueFrom(a, i, x) - ValueFrom(b, i, x)
    decreases MaxInt(|a|, |b|) - i
  {
    if i < MaxInt(|a|, |b|) {
      MinusValueFrom(a, b, i + 1, x);
      ValueFromStep(a, i, x);
      ValueFromStep(b, i, x);
      ValueFromStep(Minus(a, b), i, x);
      assert Coeff(Minus(a, b), i) == Coeff(a, i) - Coeff(b, i);
      HornerStepSub(Coeff(a, i), Coeff(b, i), x,
        ValueFrom(a, i + 1, x), ValueFrom(b, i + 1, x), ValueFrom(Minus(a, b), i + 1, x),
        ValueFrom(a, i, x), ValueFrom(b, i, x), ValueFrom(Minus(a, b), i, x));
    } else {
      assert |Minus(a, b)| <= i && |a| <= i && |b| <= i;
    }
  }

  lemma MinusValue(a: Poly, b: Poly, x: real)
    ensures Value(Minus(a, b), x) == Value(a, x) - Value(b, x)
  {
    MinusValueFrom(a, b, 0, x);
  }

  lemma {:induction false} ScaleValueFrom(p: Poly, k: real, i: nat, x: real)
    ensures ValueFrom(MultiplyScaler(p, k), i, x) == k * ValueFrom(p, i, x)
    decreases |p| - i
  {
    if i < |p| {
      ScaleValueFrom(p, k, i + 1, x);
      var rest := ValueFrom(p, i + 1, x);
      assert k * p[i] + x * (k * rest) == k * (p[i] + x * rest);
    }
  }

  lemma ScaleValue(p: Poly, k: real, x: real)
    ensures Value(MultiplyScaler(p, k), x) == k * Value(p, x)
  {
    ScaleValueFrom(p, k, 0, x);
  }

  lemma ShiftedValue(p: Poly, n: nat, x: real)
    ensures Value(Shifted(p, n), x) == Pow(x, n) * Value(p, x)
  {
    ValueConcat(Zeros(n), p, 0, x);
    ValueFromZeros(Zeros(n), 0, x);
  }

  /** Setting a coefficient that was 0 adds v * x^k to the value. */
  lemma SetCoeffValue(s: Poly, k: nat, v: real, x: real)
    requires Coeff(s, k) == 0.0
    ensures Value(SetCoeff(s, k, v), x) == Value(s, x) + v * Pow(x, k)
  {
    var r := SetCoeff(s, k, v);
    var t := Zeros(k) + [v];
    assert r == Plus(s, t) by {
      forall j | 0 <= j < |r| ensures r[j] == Plus(s, t)[j] {
        if j == k { assert Coeff(t, j) == v; } else { assert Coeff(t, j) == 0.0; }
      }
    }
    PlusValue(s, t, x);
    ValueConcat(Zeros(k), [v], 0, x);
    ValueFromZeros(Zeros(k), 0, x);
    ValueSingle(v, x);
  }

  // ---------------------------------------------------------------------------
  // Lemmas about coefficients and degree
  // ---------------------------------------------------------------------------

  /** A number that has the three defining properties of the degree is the degree. */
  lemma DegreeUnique(p: Poly, d: int)
    requires -1 <= d < |p|
    requires d >= 0 ==> p[d] != 0.0
    requires forall j :: d < j < |p| ==> p[j] == 0.0
    ensures d == DegreeOf(p)
  {
  }

  lemma DegreeAtMost(p: Poly, i: int)
    requires i >= -1
    requires forall j :: i < j ==> Coeff(p, j) == 0.0
    ensures DegreeOf(p) <= i
  {
    var d := DegreeOf(p);
    assert d >= 0 ==> Coeff(p, d) == p[d];
  }

  lemma ZerosCons(n: nat)
    ensures [0.0] + Zeros(n) == Zeros(n + 1)
  {
    var a, b := [0.0] + Zeros(n), Zeros(n + 1);
    assert |a| == |b|;
    forall j | 0 <= j < |a| ensures a[j] == b[j] { }
  }

  // ---------------------------------------------------------------------------
  // The source's loops, each proved against the specification functions
  // ---------------------------------------------------------------------------

  /** The value of the coefficients i..j-1 of p, as a polynomial of their own (Horner's nesting). */
  function RangeValue(p: Poly, i: nat, j: nat, x: real): real
    requires i <= j <= |p|
    decreases j - i
  {
    if i == j then 0.0 else p[i] + x * RangeValue(p, i + 1, j, x)
  }

  lemma {:induction false} RangeValueTrim(p: Poly, i: nat, j: nat, x: real)
    requires i <= j <= |p|
    requires forall k :: j <= k < |p| ==> p[k] == 0.0
    ensures RangeValue(p, i, j, x) == ValueFrom(p, i, x)
    decreases j - i
  {
    if i < j {
      RangeValueTrim(p, i + 1, j, x);
    } else {
      ValueFromZeros(p, j, x);
    }
  }

  /** The coefficients up to the degree determine the value. */
  lemma RangeValueFull(p: Poly, x: real)
    ensures RangeValue(p, 0, DegreeOf(p) + 1, x) == Value(p, x)
    ensures DegreeOf(p) >= 0 ==> Value(p, x) == p[0] + x * RangeValue(p, 1, DegreeOf(p) + 1, x)
  {
    RangeValueTrim(p, 0, DegreeOf(p) + 1, x);
  }

  /** A polynomial of degree at most 0 takes its constant coefficient everywhere. */
  lemma ConstantValue(p: Poly, x: real)
    requires DegreeOf(p) <= 0
    ensures Value(p, x) == Coeff(p, 0)
  {
    RangeValueFull(p, x);
  }

  lemma HornerRing(x: real, c: real, v: real)
    ensures (x * v + c) * x == x * (c + x * v)
  {
  }

  /** The list in reverse order. */
  function Reversed(s: seq<real>): (r: seq<real>)
    ensures |r| == |s|
  {
    seq(|s|, i requires 0 <= i < |s| => s[|s| - 1 - i])
  }

  /** Reversing twice gives the list back. */
  lemma ReversedTwice(s: seq<real>)
    ensures Reversed(Reversed(s)) == s
  {
    var r := Reversed(Reversed(s));
    forall i | 0 <= i < |s| ensures r[i] == s[i] {
      assert Reversed(s)[|s| - 1 - i] == s[i];
    }
  }

  /**
   * The `Polynomial` constructor: it reverses its argument, written highest power first, in
   * place and keeps it as the coefficient list.
   */
  method FromHighestFirst(a: array<real>) returns (p: Poly)
    modifies a
    ensures a[..] == Reversed(old(a[..]))
    ensures p == a[..]
  {
    var i, j := 0, a.Length - 1;
    while i < j
      invariant 0 <= i && j == a.Length - 1 - i && i <= j + 1
      invariant forall k :: 0 <= k < a.Length && (k < i || j < k) ==> a[k] == old(a[a.Length - 1 - k])
      invariant forall k :: i <= k <= j ==> a[k] == old(a[k])
    {
      a[i], a[j] := a[j], a[i];
      i, j := i + 1, j - 1;
    }
    p := a[..];
  }

  /** The shorthand `poly(a, b, c)` is a x^2 + b x + c. */
  lemma ShorthandValue(a: real, b: real, c: real, x: real)
    ensures Value(Reversed([a, b, c]), x) == a * (x * x) + b * x + c
  {
    var p := Reversed([a, b, c]);
    assert p == [c, b, a];
    assert ValueFrom(p, 3, x) == 0.0;
    assert ValueFrom(p, 2, x) == a;
    assert ValueFrom(p, 1, x) == b + x * a;
  }

  /** `degree`: scan down from the last coefficient for the first non-zero one. */
  method Degree(p: Poly) returns (d: int)
    ensures -1 <= d < |p|
    ensures d >= 0 ==> p[d] != 0.0
    ensures forall j :: d < j < |p| ==> p[j] == 0.0
    ensures d == DegreeOf(p)
  {
    var i := |p| - 1;
    while i >= 0
      invariant -1 <= i < |p|
      invariant forall j :: i < j < |p| ==> p[j] == 0.0
    {
      if p[i] != 0.0 {
        DegreeUnique(p, i);
        return i;
      }
      i := i - 1;
    }
    DegreeUnique(p, -1);
    return -1;
  }

  /**
   * `eval`: Horner's rule from the degree down to the linear term, then the constant.
   * The source reads `coeffs[0]` even of an empty list (NaN there); the model reads 0.
   */
  method Eval(p: Poly, x: real) returns (val: real)
    ensures val == Value(p, x)
    ensures val == PowerSum(p, x)
  {
    var d := Degree(p);
    var i := d;
    val := 0.0;
    while i > 0
      invariant -1 <= i <= d
      invariant d >= 0 ==> i >= 0
      invariant val == x * RangeValue(p, i + 1, d + 1, x)
    {
      HornerRing(x, p[i], RangeValue(p, i + 1, d + 1, x));
      val := val + p[i];
      val := val * x;
      i := i - 1;
    }
    RangeValueFull(p, x);
    val := val + Coeff(p, 0);
    ValueIsPowerSum(p, x);
  }

  /** `zipWithDefault`: combine two lists index by index, reading a missing entry as d. */
  method ZipWithDefault(f: (real, real) -> real, d: real, a: seq<real>, b: seq<real>) returns (r: seq<real>)
    ensures |r| == MaxInt(|a|, |b|)
    ensures forall i :: 0 <= i < |r| ==> r[i] == f(if i < |a| then a[i] else d, if i < |b| then b[i] else d)
  {
    var l := MaxInt(|a|, |b|);
    r := [];
    var i := 0;
    while i < l
      invariant 0 <= i <= l
      invariant |r| == i
      invariant forall j :: 0 <= j < i ==> r[j] == f(if j < |a| then a[j] else d, if j < |b| then b[j] else d)
    {
      var v1 := if i < |a| then a[i] else d;
      var v2 := if i < |b| then b[i] else d;
      r := r + [f(v1, v2)];
      i := i + 1;
    }
  }

  /** `add`: coefficient-wise sum. */
  method Add(p: Poly, q: Poly) returns (r: Poly)
    ensures |r| == MaxInt(|p|, |q|)
    ensures forall i :: 0 <= i < |r| ==> r[i] == Coeff(p, i) + Coeff(q, i)
    ensures r == Plus(p, q)
  {
    r := ZipWithDefault((u, v) => u + v, 0.0, p, q);
  }

  /** `substract`: coefficient-wise difference. */
  method Substract(p: Poly, q: Poly) returns (r: Poly)
    ensures |r| == MaxInt(|p|, |q|)
    ensures forall i :: 0 <= i < |r| ==> r[i] == Coeff(p, i) - Coeff(q, i)
    ensures r == Minus(p, q)
  {
    r := ZipWithDefault((u, v) => u - v, 0.0, p, q);
  }

  /** `multiply_x(n)`: a copy of the coefficients with n zeros put in front (none when n <= 0). */
  method MultiplyX(p: Poly, n: int) returns (r: Poly)
    ensures var k := if n < 0 then 0 else n;
      |r| == |p| + k && (forall i :: 0 <= i < k ==> r[i] == 0.0) && r[k..] == p
    ensures r == Shifted(p, if n < 0 then 0 else n)
  {
    r := p;
    var i := 0;
    while i < n
      invariant 0 <= i <= if n < 0 then 0 else n
      invariant r == Zeros(i) + p
    {
      ZerosCons(i);
      r := [0.0] + r;
      i := i + 1;
    }
    assert r[i..] == p;
  }

  /** The ring identity behind one step of `multiply`. */
  lemma MultiplyStep(x: real, pv: real, rest: real, c: real)
    ensures x * (pv * (x * rest) + c * pv) == pv * (x * (c + x * rest))
  {
  }

  /** The ring identity behind the last step of `multiply`. */
  lemma MultiplyLast(x: real, pv: real, rest: real, c: real)
    ensures pv * (x * rest) + c * pv == pv * (c + x * rest)
  {
  }

  /** The loop step of `multiply` keeps its value invariant. */
  lemma MultiplyLoopValue(p: Poly, q: Poly, i: nat, j: nat, ret: Poly, scaled: Poly, sum: Poly, x: real)
    requires i < j <= |q|
    requires Value(ret, x) == Value(p, x) * (x * RangeValue(q, i + 1, j, x))
    requires Value(scaled, x) == q[i] * Value(p, x)
    requires Value(sum, x) == Value(ret, x) + Value(scaled, x)
    ensures Value([0.0] + sum, x) == Value(p, x) * (x * RangeValue(q, i, j, x))
  {
    ValueCons(0.0, sum, x);
    MultiplyStep(x, Value(p, x), RangeValue(q, i + 1, j, x), q[i]);
    calc {
      Value([0.0] + sum, x);
      0.0 + x * Value(sum, x);
      x * (Value(ret, x) + Value(scaled, x));
      x * (Value(p, x) * (x * RangeValue(q, i + 1, j, x)) + q[i] * Value(p, x));
      Value(p, x) * (x * (q[i] + x * RangeValue(q, i + 1, j, x)));
      Value(p, x) * (x * RangeValue(q, i, j, x));
    }
  }

  /**
   * The accumulator of `multiply` once the coefficients i..j-1 of q have been folded in,
   * from the top down: shift, after adding the receiver scaled by the coefficient.
   */
  function MultiplyAcc(p: Poly, q: Poly, i: nat, j: nat): Poly
    requires i <= j <= |q|
    decreases j - i
  {
    if i == j then [0.0] else [0.0] + Plus(MultiplyAcc(p, q, i + 1, j), MultiplyScaler(p, q[i]))
  }

  /** The product `multiply` computes for a multiplier of degree at least 0. */
  function Product(p: Poly, q: Poly): Poly
    requires DegreeOf(q) >= 0
  {
    Plus(MultiplyAcc(p, q, 1, DegreeOf(q) + 1), MultiplyScaler(p, q[0]))
  }

  lemma {:induction false} MultiplyAccValue(p: Poly, q: Poly, i: nat, j: nat, x: real)
    requires i <= j <= |q|
    ensures Value(MultiplyAcc(p, q, i, j), x) == Value(p, x) * (x * RangeValue(q, i, j, x))
    decreases j - i
  {
    if i == j {
      assert [0.0][1..] == [];
    } else {
      var ret := MultiplyAcc(p, q, i + 1, j);
      var scaled := MultiplyScaler(p, q[i]);
      MultiplyAccValue(p, q, i + 1, j, x);
      ScaleValue(p, q[i], x);
      PlusValue(ret, scaled, x);
      MultiplyLoopValue(p, q, i, j, ret, scaled, Plus(ret, scaled), x);
    }
  }

  /** The step after the loop of `multiply` adds the receiver scaled by the constant coefficient. */
  lemma MultiplyLastValue(p: Poly, q: Poly, j: nat, x: real)
    requires 0 < j <= |q|
    ensures Value(Plus(MultiplyAcc(p, q, 1, j), MultiplyScaler(p, q[0])), x)
         == Value(p, x) * (q[0] + x * RangeValue(q, 1, j, x))
  {
    var ret := MultiplyAcc(p, q, 1, j);
    var scaled := MultiplyScaler(p, q[0]);
    MultiplyAccValue(p, q, 1, j, x);
    ScaleValue(p, q[0], x);
    PlusValue(ret, scaled, x);
    MultiplyLast(x, Value(p, x), RangeValue(q, 1, j, x), q[0]);
  }

  /** The value of the product is the product of the values. */
  lemma ProductValue(p: Poly, q: Poly, x: real)
    requires DegreeOf(q) >= 0
    ensures Value(Product(p, q), x) == Value(p, x) * Value(q, x)
  {
    MultiplyLastValue(p, q, DegreeOf(q) + 1, x);
    RangeValueFull(q, x);
  }

  /**
   * `multiply`: for each coefficient of q from the top down, add the scaled receiver and shift.
   * When q has no non-zero coefficient the source reads `coeffs[-Infinity]` and every
   * coefficient of a non-empty receiver becomes NaN; the model reports that as None.
   */
  method Multiply(p: Poly, q: Poly) returns (r: Option<Poly>)
    ensures r.None? <==> DegreeOf(q) < 0 && |p| > 0
    ensures DegreeOf(q) < 0 && |p| == 0 ==> r == Some([0.0])
    ensures DegreeOf(q) >= 0 ==> r == Some(Product(p, q))
  {
    var dq := Degree(q);
    if dq < 0 {
      if |p| > 0 {
        return None;
      }
      return Some([0.0]);
    }
    var ret := [0.0];
    var i := dq;
    while i > 0
      invariant 0 <= i <= dq
      invariant ret == MultiplyAcc(p, q, i + 1, dq + 1)
    {
      var sum := Add(ret, MultiplyScaler(p, q[i]));
      ret := [0.0] + sum;
      i := i - 1;
    }
    ret := Add(ret, MultiplyScaler(p, q[0]));
    return Some(ret);
  }

  /** Whatever `multiply` returns multiplies the values (for an empty receiver and a zero multiplier too). */
  lemma MultiplyValue(p: Poly, q: Poly, r: Poly, x: real)
    requires DegreeOf(q) >= 0 ==> r == Product(p, q)
    requires DegreeOf(q) < 0 ==> |p| == 0 && r == [0.0]
    ensures Value(r, x) == Value(p, x) * Value(q, x)
  {
    if DegreeOf(q) >= 0 {
      ProductValue(p, q, x);
    } else {
      assert [0.0][1..] == [];
      assert Value(p, x) == 0.0;
    }
  }

  /** The derivative's degree is one less, for a polynomial of degree at least 1. */
  lemma DerivativeDegree(p: Poly)
    requires DegreeOf(p) >= 1
    ensures DegreeOf(Derivative(p)) == DegreeOf(p) - 1
  {
    var d := DegreeOf(p);
    var q := Derivative(p);
    assert q[d - 1] == d as real * p[d];
    DegreeUnique(q, d - 1);
  }

  /** `diff`: starting from [0], set coefficient i-1 to i·p[i] for i from the degree down to 1. */
  method Diff(p: Poly) returns (r: Poly)
    ensures r == Derivative(p)
    ensures |r| == MaxInt(1, DegreeOf(p))
    ensures forall i :: 1 <= i <= DegreeOf(p) ==> r[i - 1] == i as real * p[i]
  {
    var d := Degree(p);
    r := [0.0];
    var i := d;
    while i >= 1
      invariant d >= 1 ==> 0 <= i <= d
      invariant d < 1 ==> i == d
      invariant i == d ==> r == [0.0]
      invariant i < d ==> |r| == d
      invariant forall j :: i <= j < |r| && j < d ==> r[j] == Derivative(p)[j]
    {
      assert i as real * p[i] == Derivative(p)[i - 1];
      r := SetCoeff(r, i - 1, i as real * p[i]);
      i := i - 1;
    }
    DiffFinish(p, r);
    DerivativeCoefficients(p);
  }

  /** What the loop of `diff` leaves behind is the derivative. */
  lemma DiffFinish(p: Poly, r: Poly)
    requires DegreeOf(p) < 1 ==> r == [0.0]
    requires DegreeOf(p) >= 1 ==> |r| == DegreeOf(p) && forall j :: 0 <= j < |r| ==> r[j] == Derivative(p)[j]
    ensures r == Derivative(p)
  {
    if DegreeOf(p) < 1 {
      assert Coeff(p, 1) == 0.0;
    }
    assert |r| == |Derivative(p)|;
  }

  /** Coefficient k - 1 of the derivative is k times coefficient k, up to the degree. */
  lemma DerivativeCoefficients(p: Poly)
    ensures forall k :: 1 <= k <= DegreeOf(p) ==> Derivative(p)[k - 1] == k as real * p[k]
  {
    forall k | 1 <= k <= DegreeOf(p) ensures Derivative(p)[k - 1] == k as real * p[k] {
      assert Derivative(p)[k - 1] == ((k - 1) + 1) as real * Coeff(p, (k - 1) + 1);
    }
  }

  // ---------------------------------------------------------------------------
  // Long division
  // ---------------------------------------------------------------------------

  /**
   * The loop of `divide` from index i down to dx, the divisor's degree (its leading coefficient
   * x[dx] is not 0): ret is the quotient so far and tmp what is left of the dividend.
   * The result is the final pair (quotient, remainder).
   */
  function DivideLoop(x: Poly, dx: nat, i: int, ret: Poly, tmp: Poly): (Poly, Poly)
    requires dx < |x| && x[dx] != 0.0
    decreases i - dx + 1
  {
    if i < dx then (ret, tmp)
    else
      var c := Coeff(tmp, i) / x[dx];
      DivideLoop(x, dx, i - 1, SetCoeff(ret, i - dx, c), Minus(tmp, Shifted(MultiplyScaler(x, c), i - dx)))
  }

  /** The quotient `divide` returns. */
  function Quotient(p: Poly, x: Poly): Poly
    requires DegreeOf(x) >= 0
  {
    DivideLoop(x, DegreeOf(x), DegreeOf(p), [0.0], p).0
  }

  /** p(y) = q(y) * x(y) + rest(y) everywhere: q and rest are a quotient and a rest of p by x. */
  ghost predicate Decomposes(p: Poly, q: Poly, x: Poly, rest: Poly) {
    forall y :: Value(p, y) == Value(q, y) * Value(x, y) + Value(rest, y)
  }

  /** Where `divide` starts: quotient [0], rest the dividend itself. */
  lemma DecomposesTrivially(p: Poly, x: Poly)
    ensures Decomposes(p, [0.0], x, p)
  {
    forall y ensures Value(p, y) == Value([0.0], y) * Value(x, y) + Value(p, y) {
      ValueSingle(0.0, y);
    }
  }

  /**
   * `divide`: throws when the divisor has no non-zero coefficient; otherwise cancels the top
   * coefficient of the rest, from the dividend's degree down to the divisor's. The rest, which
   * the source drops, is returned as a ghost value.
   */
  method Divide(p: Poly, x: Poly) returns (r: Result<Poly>, ghost rest: Poly)
    ensures r.Err? <==> DegreeOf(x) < 0
    ensures r.Ok? ==> r.value == Quotient(p, x)
    ensures r.Ok? ==> Decomposes(p, r.value, x, rest)
    ensures r.Ok? ==> DegreeOf(rest) < DegreeOf(x)
    ensures r.Ok? && DegreeOf(p) >= DegreeOf(x) ==> DegreeOf(r.value) == DegreeOf(p) - DegreeOf(x)
    ensures r.Ok? && DegreeOf(p) < DegreeOf(x) ==> r.value == [0.0]
  {
    var dx := Degree(x);
    if dx < 0 {
      return Err(DivisionByZero), p;
    }
    var ret := [0.0];
    var tmp := p;
    var i := Degree(p);
    DivideStart(p, x);
    while i >= dx
      invariant DivideInvariant(p, x, i, ret, tmp)
      decreases i
    {
      var k := i - dx;
      var c := tmp[i] / x[dx];
      var ret1 := SetCoeff(ret, k, c);
      var shifted := MultiplyX(MultiplyScaler(x, ret1[k]), k);
      var tmp1 := Substract(tmp, shifted);
      DivideStep(p, x, i, ret, tmp, ret1, tmp1);
      ret, tmp, i := ret1, tmp1, i - 1;
    }
    DivideFinish(p, x, i, ret, tmp);
    return Ok(ret), tmp;
  }

  /**
   * What holds before every test of the loop in `divide`: i is the rest's highest coefficient
   * still to cancel, the remaining passes end in the quotient and the rest, quotient * x + rest
   * is the dividend, the quotient is still 0 at and below i - dx and the rest is 0 above i.
   */
  ghost predicate DivideInvariant(p: Poly, x: Poly, i: int, ret: Poly, tmp: Poly)
    requires DegreeOf(x) >= 0
  {
    var dx := DegreeOf(x);
    i < |tmp| && (i >= dx - 1 || i == DegreeOf(p))
    && DivideLoop(x, dx, i, ret, tmp) == DivideLoop(x, dx, DegreeOf(p), [0.0], p)
    && (forall j :: 0 <= j <= i - dx ==> Coeff(ret, j) == 0.0)
    && (forall j :: j > i ==> Coeff(tmp, j) == 0.0)
    && Decomposes(p, ret, x, tmp)
  }

  /** The loop in `divide` starts from the quotient [0] and the dividend as the rest. */
  lemma DivideStart(p: Poly, x: Poly)
    requires DegreeOf(x) >= 0
    ensures DivideInvariant(p, x, DegreeOf(p), [0.0], p)
  {
    DecomposesTrivially(p, x);
  }

  /** When the loop in `divide` stops, the quotient and the rest are the promised ones. */
  lemma DivideFinish(p: Poly, x: Poly, i: int, ret: Poly, tmp: Poly)
    requires DegreeOf(x) >= 0 && i < DegreeOf(x)
    requires DivideInvariant(p, x, i, ret, tmp)
    ensures ret == Quotient(p, x) && Decomposes(p, ret, x, tmp)
    ensures DegreeOf(tmp) < DegreeOf(x)
    ensures DegreeOf(p) >= DegreeOf(x) ==> DegreeOf(ret) == DegreeOf(p) - DegreeOf(x)
    ensures DegreeOf(p) < DegreeOf(x) ==> ret == [0.0]
  {
    DegreeAtMost(tmp, DegreeOf(x) - 1);
    QuotientDegree(p, x);
  }

  /** One pass of the loop in `divide` takes its invariant from i to i - 1. */
  lemma DivideStep(p: Poly, x: Poly, i: int, ret: Poly, tmp: Poly, ret1: Poly, tmp1: Poly)
    requires DegreeOf(x) >= 0 && i >= DegreeOf(x)
    requires DivideInvariant(p, x, i, ret, tmp)
    requires ret1 == SetCoeff(ret, i - DegreeOf(x), tmp[i] / x[DegreeOf(x)])
    requires tmp1 == Minus(tmp, Shifted(MultiplyScaler(x, ret1[i - DegreeOf(x)]), i - DegreeOf(x)))
    ensures DivideInvariant(p, x, i - 1, ret1, tmp1)
  {
    var dx := DegreeOf(x);
    var k, c := i - dx, tmp[i] / x[dx];
    assert Coeff(tmp, i) == tmp[i];
    DivideStepIdentity(p, x, ret, tmp, c, k, ret1, tmp1);
    DivideStepCancels(x, dx, tmp, i, tmp1);
  }

  lemma ShiftScaleValue(x: Poly, c: real, k: nat, y: real)
    ensures Value(Shifted(MultiplyScaler(x, c), k), y) == Pow(y, k) * (c * Value(x, y))
  {
    ShiftedValue(MultiplyScaler(x, c), k, y);
    ScaleValue(x, c, y);
  }


  /** Subtracting c * x * y^k from the rest lowers its value by y^k * c * xv. */
  lemma SubtractShiftedValue(x: Poly, tmp: Poly, c: real, k: nat, y: real, xv: real)
    requires xv == Value(x, y)
    ensures Value(Minus(tmp, Shifted(MultiplyScaler(x, c), k)), y) == Value(tmp, y) - Pow(y, k) * (c * xv)
  {
    MinusValue(tmp, Shifted(MultiplyScaler(x, c), k), y);
    ShiftScaleValue(x, c, k, y);
  }

  /** One step of `divide` keeps quotient * divisor + rest unchanged at y. */
  lemma DivideStepValue(x: Poly, ret: Poly, tmp: Poly, c: real, k: nat, ret1: Poly, tmp1: Poly, y: real)
    requires Coeff(ret, k) == 0.0
    requires ret1 == SetCoeff(ret, k, c)
    requires tmp1 == Minus(tmp, Shifted(MultiplyScaler(x, c), k))
    ensures Value(ret1, y) * Value(x, y) + Value(tmp1, y) == Value(ret, y) * Value(x, y) + Value(tmp, y)
  {
    StepQuotientValue(ret, c, k, ret1, y);
    StepRestValue(x, tmp, c, k, tmp1, y);
  }

  /** Setting the quotient's coefficient k to c adds c * y^k to its value. */
  lemma StepQuotientValue(ret: Poly, c: real, k: nat, ret1: Poly, y: real)
    requires Coeff(ret, k) == 0.0
    requires ret1 == SetCoeff(ret, k, c)
    ensures Value(ret1, y) == Value(ret, y) + c * Pow(y, k)
  {
    SetCoeffValue(ret, k, c, y);
  }

  /** Subtracting c * x * y^k from the rest lowers its value by y^k * (c * x(y)). */
  lemma StepRestValue(x: Poly, tmp: Poly, c: real, k: nat, tmp1: Poly, y: real)
    requires tmp1 == Minus(tmp, Shifted(MultiplyScaler(x, c), k))
    ensures Value(tmp1, y) == Value(tmp, y) - Pow(y, k) * (c * Value(x, y))
  {
    SubtractShiftedValue(x, tmp, c, k, y, Value(x, y));
  }




  /** One step of `divide` cancels the rest's coefficient i and keeps everything above i zero. */
  lemma DivideStepCancels(x: Poly, dx: nat, tmp: Poly, i: int, next: Poly)
    requires dx <= i < |tmp| && dx < |x| && x[dx] != 0.0
    requires forall j :: j > dx ==> Coeff(x, j) == 0.0
    requires forall j :: j > i ==> Coeff(tmp, j) == 0.0
    requires next == Minus(tmp, Shifted(MultiplyScaler(x, tmp[i] / x[dx]), i - dx))
    ensures forall j :: j > i - 1 ==> Coeff(next, j) == 0.0
  {
    var c, k := tmp[i] / x[dx], i - dx;
    forall j | j > i - 1
      ensures Coeff(next, j) == 0.0
    {
      MinusCoeffAll(tmp, Shifted(MultiplyScaler(x, c), k), j);
      ShiftScaleCoeff(x, c, k, j);
      if j == i {
        DivideCancel(tmp[i], x[dx]);
      } else {
        assert Coeff(x, j - k) == 0.0;
      }
    }
  }

  /** Hence the identity dividend = quotient * divisor + rest holds after every step. */
  lemma DivideStepIdentity(p: Poly, x: Poly, ret: Poly, tmp: Poly, c: real, k: nat, ret1: Poly, tmp1: Poly)
    requires Coeff(ret, k) == 0.0
    requires Decomposes(p, ret, x, tmp)
    requires ret1 == SetCoeff(ret, k, c)
    requires tmp1 == Minus(tmp, Shifted(MultiplyScaler(x, c), k))
    ensures Decomposes(p, ret1, x, tmp1)
  {
    forall y ensures Value(p, y) == Value(ret1, y) * Value(x, y) + Value(tmp1, y) {
      assert Value(p, y) == Value(ret, y) * Value(x, y) + Value(tmp, y);
      DivideStepValue(x, ret, tmp, c, k, ret1, tmp1, y);
    }
  }

  lemma MinusCoeffAll(a: Poly, b: Poly, j: int)
    ensures Coeff(Minus(a, b), j) == Coeff(a, j) - Coeff(b, j)
  {
  }

  lemma ShiftScaleCoeff(x: Poly, c: real, k: nat, j: int)
    ensures Coeff(Shifted(MultiplyScaler(x, c), k), j) == if j >= k then c * Coeff(x, j - k) else 0.0
  {
  }

  lemma DivideCancel(t: real, l: real)
    requires l != 0.0
    ensures t - t / l * l == 0.0
  {
  }

  lemma {:induction false} DivideLoopTop(x: Poly, dx: nat, i: int, ret: Poly, tmp: Poly, n: nat)
    requires dx < |x| && x[dx] != 0.0
    requires |ret| == n + 1 && ret[n] != 0.0 && i - dx < n
    ensures |DivideLoop(x, dx, i, ret, tmp).0| == n + 1
    ensures DivideLoop(x, dx, i, ret, tmp).0[n] == ret[n]
    decreases i - dx + 1
  {
    if i >= dx {
      var c := Coeff(tmp, i) / x[dx];
      DivideLoopTop(x, dx, i - 1, SetCoeff(ret, i - dx, c), Minus(tmp, Shifted(MultiplyScaler(x, c), i - dx)), n);
    }
  }

  /** The quotient has degree deg p - deg x, and is [0] when the dividend's degree is smaller. */
  lemma QuotientDegree(p: Poly, x: Poly)
    requires DegreeOf(x) >= 0
    ensures DegreeOf(p) >= DegreeOf(x) ==> DegreeOf(Quotient(p, x)) == DegreeOf(p) - DegreeOf(x)
    ensures DegreeOf(p) < DegreeOf(x) ==> Quotient(p, x) == [0.0]
  {
    var dx, dp := DegreeOf(x), DegreeOf(p);
    if dp >= dx {
      var c := Coeff(p, dp) / x[dx];
      assert c != 0.0;
      var ret1 := SetCoeff([0.0], dp - dx, c);
      var tmp1 := Minus(p, Shifted(MultiplyScaler(x, c), dp - dx));
      assert Quotient(p, x) == DivideLoop(x, dx, dp - 1, ret1, tmp1).0;
      DivideLoopTop(x, dx, dp - 1, ret1, tmp1, dp - dx);
      DegreeUnique(Quotient(p, x), dp - dx);
    }
  }

  lemma LinearValue(c0: real, c1: real, y: real)
    ensures Value([c0, c1], y) == c0 + c1 * y
  {
    assert ValueFrom([c0, c1], 2, y) == 0.0;
    assert ValueFrom([c0, c1], 1, y) == c1;
  }

  /** `poly(1, -s)`, the linear factor x - s, has degree 1. */
  lemma LinearFactorDegree(s: real)
    ensures DegreeOf([-s, 1.0]) == 1
  {
    DegreeUnique([-s, 1.0], 1);
  }

  /**
   * Dividing x - s out of a polynomial with root s leaves no remainder: whatever `divide`
   * drops is the zero polynomial, and the quotient times x - s is the dividend.
   */
  lemma DeflateRoot(p: Poly, s: real, q: Poly, rest: Poly)
    requires Decomposes(p, q, [-s, 1.0], rest)
    requires DegreeOf(rest) < 1
    requires Value(p, s) == 0.0
    ensures DegreeOf(rest) == -1
    ensures forall y :: Value(p, y) == Value(q, y) * (y - s)
  {
    LinearValue(-s, 1.0, s);
    assert Value(rest, s) == 0.0;
    ConstantValue(rest, s);
    DegreeAtMost(rest, -1);
    forall y ensures Value(p, y) == Value(q, y) * (y - s) {
      LinearValue(-s, 1.0, y);
      RangeValueFull(rest, y);
    }
  }
}
