/** Numerical utilities of the XDLVO model: epsilon-tolerant comparisons,
    degree-to-radian conversion, the three-region hyperbolic cotangent and
    cosecant, and the nearest-index binary search over a distance grid.
 */
module Utilities {
  import opened Numerics

  /** Default tolerance of the comparison helpers. */
  const Eps: real := 1e-10

  /** Below this magnitude `Hyperbolics` uses the truncated series. */
  const Small: real := 1e-10

  /** Above this magnitude `Hyperbolics` uses the asymptotic limits. */
  const Large: real := 20.0

  /** `|a - b| < eps`: `a` lies in the open window of half-width `eps` around `b`. */
  function AlmostEqual(a: real, b: real, eps: real := Eps): (r: bool)
    ensures r <==> b - eps < a < b + eps
  {
    Abs(a - b) < eps
  }

  /** `a < b`, or `a` and `b` almost equal. */
  function AlmostLE(a: real, b: real, eps: real := Eps): (r: bool)
    ensures eps > 0.0 ==> (r <==> a < b + eps)
    ensures eps <= 0.0 ==> (r <==> a < b)
  {
    a < b || AlmostEqual(a, b, eps)
  }

  /** `a > b`, or `a` and `b` almost equal. */
  function AlmostGE(a: real, b: real, eps: real := Eps): (r: bool)
    ensures eps > 0.0 ==> (r <==> a > b - eps)
    ensures eps <= 0.0 ==> (r <==> a > b)
  {
    a > b || AlmostEqual(a, b, eps)
  }

  /** Being almost below and almost above is being almost equal, and almost
      equality is symmetric. */
  lemma AlmostBothWays(a: real, b: real, eps: real)
    requires eps > 0.0
    ensures AlmostLE(a, b, eps) && AlmostGE(a, b, eps) <==> AlmostEqual(a, b, eps)
    ensures AlmostEqual(a, b, eps) == AlmostEqual(b, a, eps)
  {
  }

  /** Degrees to radians. */
  function Rad(m: MathLib, deg: real): (r: real)
    ensures r * 180.0 == deg * m.pi
  {
    deg * m.pi / 180.0
  }

  /** Hyperbolic cotangent and cosecant of one argument. */
  datatype HypPair = HypPair(coth: XReal, csch: XReal)

  /** The three-region evaluation of coth and csch: a truncated series near
      zero (infinite at zero itself), the limits ±1 and 0 for large
      arguments, and the reciprocals of tanh and sinh in between. */
  function Hyperbolics(m: MathLib, x: real): (r: HypPair)
    ensures x == 0.0 ==> r.coth == PosInf && r.csch == PosInf
    ensures 0.0 < Abs(x) < Small ==>
              && r.coth.Fin? && r.csch.Fin?
              && x * r.coth.r == 1.0 + x * x / 3.0
              && r.coth.r - r.csch.r == x / 2.0
    ensures Abs(x) > Large ==>
              r.coth == Fin(if x > 0.0 then 1.0 else -1.0) && r.csch == Fin(0.0)
    ensures Small <= Abs(x) <= Large ==>
              && (r.coth.Fin? <==> m.tanh(x) != 0.0)
              && (r.coth.Fin? ==> r.coth.r * m.tanh(x) == 1.0)
              && (r.csch.Fin? <==> m.sinh(x) != 0.0)
              && (r.csch.Fin? ==> r.csch.r * m.sinh(x) == 1.0)
  {
    if Abs(x) < Small then
      if x != 0.0 then
        SeriesIdentities(x);
        HypPair(Fin(1.0 / x + x / 3.0), Fin(1.0 / x - x / 6.0))
      else HypPair(PosInf, PosInf)
    else if Abs(x) > Large then
      HypPair(Fin(if x > 0.0 then 1.0 else -1.0), Fin(0.0))
    else
      Reciprocal(m.tanh(x));
      Reciprocal(m.sinh(x));
      HypPair(XDiv(Fin(1.0), Fin(m.tanh(x))), XDiv(Fin(1.0), Fin(m.sinh(x))))
  }

  /** The two truncated series: x·(1/x + x/3) = 1 + x²/3, and the two differ
      by x/2. */
  lemma SeriesIdentities(x: real)
    requires x != 0.0
    ensures x * (1.0 / x + x / 3.0) == 1.0 + x * x / 3.0
    ensures (1.0 / x + x / 3.0) - (1.0 / x - x / 6.0) == x / 2.0
  {
    assert x * (1.0 / x) == 1.0;
  }

  /** 1/y in JavaScript numbers is finite exactly for y ≠ 0, and then the
      reciprocal of y. */
  lemma Reciprocal(y: real)
    ensures XDiv(Fin(1.0), Fin(y)).Fin? <==> y != 0.0
    ensures y != 0.0 ==> XDiv(Fin(1.0), Fin(y)).r * y == 1.0
  {
  }

  lemma NegatedReciprocal(y: real)
    requires y != 0.0
    ensures 1.0 / -y == -(1.0 / y)
  {
  }

  /** When tanh and sinh are odd and vanish only at zero, both results are
      finite away from zero and odd in the argument. At zero both are +Infinity,
      so oddness fails there. */
  lemma {:induction false} HyperbolicsOdd(m: MathLib, x: real)
    requires HyperbolicLaws(m) && x != 0.0
    ensures Hyperbolics(m, x).coth.Fin? && Hyperbolics(m, x).csch.Fin?
    ensures Hyperbolics(m, -x) == HypPair(XNeg(Hyperbolics(m, x).coth), XNeg(Hyperbolics(m, x).csch))
  {
    assert Abs(-x) == Abs(x);
    if Abs(x) < Small {
      NegatedReciprocal(x);
    } else if Abs(x) <= Large {
      assert m.tanh(-x) == -m.tanh(x) && m.tanh(x) != 0.0;
      assert m.sinh(-x) == -m.sinh(x) && m.sinh(x) != 0.0;
      NegatedReciprocal(m.tanh(x));
      NegatedReciprocal(m.sinh(x));
    }
  }

  /** The index of `arr` nearest to `target`, by binary search.
      -1 for an empty array; 0 and the last index for targets at or beyond the
      ends; otherwise an index where the search met `target` exactly, or the
      nearer of the two neighbours that bracket `target`, the lower one on a tie.
      On a sorted array the result is a nearest index. */
  method FindClosestIndex(arr: seq<real>, target: real) returns (idx: int)
    ensures |arr| == 0 ==> idx == -1
    ensures |arr| > 0 ==> 0 <= idx < |arr|
    ensures |arr| > 0 && target <= arr[0] ==> idx == 0
    ensures |arr| > 0 && arr[0] < target && arr[|arr| - 1] <= target ==> idx == |arr| - 1
    ensures |arr| > 0 && arr[0] < target < arr[|arr| - 1] ==>
              arr[idx] == target || exists lo :: BracketChoice(arr, target, lo, idx)
    ensures NonDecreasing(arr) && |arr| > 0 ==> IsNearest(arr, target, idx)
  {
    if |arr| == 0 {
      return -1;
    }
    if target <= arr[0] {
      idx := 0;
      NearestWhenBelow(arr, target);
      return;
    }
    if target >= arr[|arr| - 1] {
      idx := |arr| - 1;
      NearestWhenAbove(arr, target);
      return;
    }
    var lo, hi := 0, |arr| - 1;
    while lo < hi - 1
      invariant 0 <= lo < hi < |arr|
      invariant arr[lo] < target < arr[hi]
      decreases hi - lo
    {
      var mid := (lo + hi) / 2;
      if arr[mid] == target {
        idx := mid;
        return;
      }
      if arr[mid] < target {
        lo := mid;
      } else {
        hi := mid;
      }
    }
    idx := if Abs(arr[lo] - target) <= Abs(arr[hi] - target) then lo else hi;
    assert BracketChoice(arr, target, lo, idx);
    if NonDecreasing(arr) {
      NearestWhenBracketed(arr, target, lo, idx);
    }
  }

  /** `arr[lo] < target < arr[lo + 1]` and `idx` is the nearer of the two,
      the lower one on a tie. */
  predicate BracketChoice(arr: seq<real>, target: real, lo: int, idx: int)
  {
    && 0 <= lo < |arr| - 1
    && arr[lo] < target < arr[lo + 1]
    && idx == (if Abs(arr[lo] - target) <= Abs(arr[lo + 1] - target) then lo else lo + 1)
  }

  /** No element of `arr` is nearer to `target` than `arr[idx]`. */
  predicate IsNearest(arr: seq<real>, target: real, idx: int)
  {
    0 <= idx < |arr| && forall j :: 0 <= j < |arr| ==> Abs(arr[idx] - target) <= Abs(arr[j] - target)
  }

  lemma NearestWhenBelow(arr: seq<real>, target: real)
    requires |arr| > 0 && target <= arr[0]
    ensures NonDecreasing(arr) ==> IsNearest(arr, target, 0)
  {
  }

  lemma NearestWhenAbove(arr: seq<real>, target: real)
    requires |arr| > 0 && arr[|arr| - 1] <= target
    ensures NonDecreasing(arr) ==> IsNearest(arr, target, |arr| - 1)
  {
  }

  lemma NearestWhenBracketed(arr: seq<real>, target: real, lo: int, idx: int)
    requires NonDecreasing(arr) && BracketChoice(arr, target, lo, idx)
    ensures IsNearest(arr, target, idx)
  {
    forall j | 0 <= j < |arr|
      ensures Abs(arr[idx] - target) <= Abs(arr[j] - target)
    {
      if j <= lo {
        assert arr[j] <= arr[lo];
      } else {
        assert arr[lo + 1] <= arr[j];
      }
    }
  }

  /** The energy at the grid point nearest to `target`, or 0 when that point
      is not within `tol` of `target`. */
  method EnergyAtDistance(h: seq<real>, u: seq<real>, target: real, tol: real := 0.05) returns (e: real)
    requires |u| == |h|
    ensures e == 0.0 || exists i :: 0 <= i < |h| && Abs(h[i] - target) < tol && e == u[i]
    ensures NonDecreasing(h) && (exists j :: 0 <= j < |h| && Abs(h[j] - target) < tol) ==>
              exists i :: IsNearest(h, target, i) && Abs(h[i] - target) < tol && e == u[i]
    ensures NonDecreasing(h) && (forall j :: 0 <= j < |h| ==> Abs(h[j] - target) >= tol) ==> e == 0.0
  {
    var idx := FindClosestIndex(h, target);
    e := if idx >= 0 && Abs(h[idx] - target) < tol then u[idx] else 0.0;
  }
}
