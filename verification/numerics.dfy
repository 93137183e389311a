/** Numeric foundations shared by every other module of the XDLVO model.

    - `XReal` stands for a JavaScript number: a finite value, one of the two
      infinities, or NaN. Arithmetic on it follows IEEE 754 with exact reals:
      rounding is not modelled, and neither is the sign of zero (a zero
      divisor is treated as +0).
    - `MathLib` collects the transcendental functions of JavaScript's `Math`
      object. They are parameters of the model, never given a numeric
      meaning; lemmas that need a property of one of them (for example that
      `sqrt` returns the non-negative square root) say so in a `requires`.
 */
module Numerics {

  datatype Option<+T> = None | Some(value: T)

  datatype Result<+T, +E> = Ok(value: T) | Err(error: E)

  datatype XReal = Fin(r: real) | PosInf | NegInf | NaN

  function Abs(x: real): (r: real)
    ensures r >= 0.0 && (r == x || r == -x)
  {
    if x < 0.0 then -x else x
  }

  function Max(a: real, b: real): real { if a < b then b else a }

  function Min(a: real, b: real): real { if a < b then a else b }

  /** The infinity whose sign is that of `positive`. */
  function Inf(positive: bool): XReal { if positive then PosInf else NegInf }

  function XNeg(a: XReal): XReal
  {
    match a
    case Fin(x) => Fin(-x)
    case PosInf => NegInf
    case NegInf => PosInf
    case NaN => NaN
  }

  function XAdd(a: XReal, b: XReal): XReal
  {
    match (a, b)
    case (NaN, _) => NaN
    case (_, NaN) => NaN
    case (Fin(x), Fin(y)) => Fin(x + y)
    case (Fin(_), _) => b
    case (_, Fin(_)) => a
    case _ => if a == b then a else NaN
  }

  /** Adding a finite number keeps finiteness, infinities and NaN as they are. */
  lemma XAddFinite(x: real, b: XReal)
    ensures XAdd(Fin(x), b).Fin? <==> b.Fin?
    ensures b.Fin? ==> XAdd(Fin(x), b) == Fin(x + b.r)
    ensures !b.Fin? ==> XAdd(Fin(x), b) == b
  {
  }

  function XSub(a: XReal, b: XReal): XReal { XAdd(a, XNeg(b)) }

  function XMul(a: XReal, b: XReal): XReal
  {
    match (a, b)
    case (NaN, _) => NaN
    case (_, NaN) => NaN
    case (Fin(x), Fin(y)) => Fin(x * y)
    case (Fin(x), _) => if x == 0.0 then NaN else Inf((x > 0.0) == b.PosInf?)
    case (_, Fin(y)) => if y == 0.0 then NaN else Inf((y > 0.0) == a.PosInf?)
    case _ => Inf(a == b)
  }

  function XDiv(a: XReal, b: XReal): XReal
  {
    match (a, b)
    case (NaN, _) => NaN
    case (_, NaN) => NaN
    case (Fin(x), Fin(y)) =>
      if y != 0.0 then Fin(x / y)
      else if x > 0.0 then PosInf
      else if x < 0.0 then NegInf
      else NaN
    case (Fin(_), _) => Fin(0.0)
    case (_, Fin(y)) => Inf((y >= 0.0) == a.PosInf?)
    case _ => NaN
  }

  /** `a <= b` on JavaScript numbers: false whenever either side is NaN. */
  predicate XLe(a: XReal, b: XReal)
  {
    match (a, b)
    case (NaN, _) => false
    case (_, NaN) => false
    case (Fin(x), Fin(y)) => x <= y
    case (NegInf, _) => true
    case (_, PosInf) => true
    case _ => false
  }

  /** The functions of JavaScript's `Math` object that the model uses. */
  datatype MathLib = MathLib(
    cos: real -> real,
    sqrt: real -> real,
    exp: real -> real,
    log: real -> real,
    tanh: real -> real,
    sinh: real -> real,
    pi: real)

  /** `sqrt` returns the non-negative square root of a non-negative argument.
      The law is instantiated only through `SqrtOf` (its trigger is
      `Radicand`), so that a proof that assumes it is not flooded with
      non-linear facts about every root in sight. */
  ghost predicate SqrtLaws(m: MathLib)
  {
    forall v {:trigger Radicand(v)} :: Radicand(v) >= 0.0 ==> m.sqrt(v) >= 0.0 && m.sqrt(v) * m.sqrt(v) == v
  }

  /** The argument of a square root; a name for the trigger of `SqrtLaws`. */
  ghost function Radicand(v: real): real { v }

  /** The root of one non-negative argument, under the square-root laws. */
  lemma SqrtOf(m: MathLib, v: real)
    requires SqrtLaws(m) && v >= 0.0
    ensures m.sqrt(v) >= 0.0 && m.sqrt(v) * m.sqrt(v) == v
  {
    assert Radicand(v) >= 0.0;
  }

  /** `tanh` and `sinh` are odd functions that vanish only at zero. */
  ghost predicate HyperbolicLaws(m: MathLib)
  {
    && (forall x, y :: x == -y ==> m.tanh(x) == -m.tanh(y))
    && (forall x, y :: x == -y ==> m.sinh(x) == -m.sinh(y))
    && (forall x :: x != 0.0 ==> m.tanh(x) != 0.0 && m.sinh(x) != 0.0)
  }

  predicate NonDecreasing(s: seq<real>)
  {
    forall i, j :: 0 <= i <= j < |s| ==> s[i] <= s[j]
  }

  predicate StrictlyIncreasing(s: seq<real>)
  {
    forall i, j :: 0 <= i < j < |s| ==> s[i] < s[j]
  }

  /** Two non-negative numbers with the same square are equal. */
  lemma NonNegativeRootUnique(s: real, t: real)
    requires s >= 0.0 && t >= 0.0 && s * s == t * t
    ensures s == t
  {
    assert (s - t) * (s + t) == s * s - t * t;
    if s + t == 0.0 {
      assert s == 0.0 && t == 0.0;
    }
  }

  /** Under the square-root laws, the root of `w = x * x * v` is `|x|` times the root of `v`.
      (`w` is a parameter so that callers can name the argument exactly as they wrote it.) */
  lemma SqrtOfScaledSquare(m: MathLib, x: real, v: real, w: real)
    requires SqrtLaws(m) && v >= 0.0 && w == x * x * v
    ensures m.sqrt(w) == Abs(x) * m.sqrt(v)
  {
    var s := m.sqrt(v);
    SqrtOf(m, v);
    var t := Abs(x) * s;
    assert w >= 0.0;
    var u := m.sqrt(w);
    SqrtOf(m, w);
    assert t * t == x * x * v by {
      assert t * t == Abs(x) * Abs(x) * (s * s);
      assert Abs(x) * Abs(x) == x * x;
    }
    NonNegativeRootUnique(u, t);
  }

  /** `√(a·b)`, the geometric mean through which the combining rules pair
      surface-tension components. */
  function GeometricMean(m: MathLib, a: real, b: real): real
  {
    m.sqrt(a * b)
  }

  lemma GeometricMeanSymmetric(m: MathLib, a: real, b: real)
    ensures GeometricMean(m, a, b) == GeometricMean(m, b, a)
  {
    assert a * b == b * a;
  }

  /** Under the square-root laws, the geometric mean of a square `x²` and a
      non-negative `v` is `|x|·√v`. */
  lemma GeometricMeanOfSquare(m: MathLib, x: real, sq: real, v: real)
    requires SqrtLaws(m) && v >= 0.0 && sq == x * x
    ensures GeometricMean(m, sq, v) == Abs(x) * m.sqrt(v)
  {
    SqrtOfScaledSquare(m, x, v, sq * v);
  }

  /** The same with the square as the second factor. */
  lemma GeometricMeanOfSquareRight(m: MathLib, x: real, v: real, sq: real)
    requires SqrtLaws(m) && v >= 0.0 && sq == x * x
    ensures GeometricMean(m, v, sq) == Abs(x) * m.sqrt(v)
  {
    SqrtOfScaledSquare(m, x, v, v * sq);
  }

  /** Under the square-root laws, the root of a square is the magnitude. */
  lemma SqrtOfSquare(m: MathLib, x: real, w: real)
    requires SqrtLaws(m) && w == x * x
    ensures m.sqrt(w) == Abs(x)
  {
    var u := m.sqrt(w);
    SqrtOf(m, w);
    assert Abs(x) * Abs(x) == x * x;
    NonNegativeRootUnique(u, Abs(x));
  }

  /** Under the square-root laws, `sqrt` is strictly increasing on the non-negative reals. */
  lemma SqrtStrictlyIncreasing(m: MathLib, v: real, w: real)
    requires SqrtLaws(m) && 0.0 <= v < w
    ensures m.sqrt(v) < m.sqrt(w)
  {
    var s, t := m.sqrt(v), m.sqrt(w);
    SqrtOf(m, v);
    SqrtOf(m, w);
    if t <= s {
      SquareMonotone(t, s);
    }
  }

  lemma SquareMonotone(s: real, t: real)
    requires 0.0 <= s <= t
    ensures s * s <= t * t
  {
  }
}
