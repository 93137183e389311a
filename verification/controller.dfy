/** The calculator's controller logic that is not user interface: input
    validation, reading the energy and force curves at an arbitrary
    distance, the position of the animated particle, and the choice of SI
    prefix for displayed numbers.
 */
module Controller {
  import opened Numerics
  import opened Physics

  // ---------------------------------------------------------------------
  // Input validation

  /** A value read from an input field: a JavaScript number, or a value of
      some other type. */
  datatype JsValue = Num(x: XReal) | NotNumber

  /** Accepts a number that is not NaN and lies within [min, max]; the
      bounds default to the infinities. */
  function ValidateInput(val: JsValue, min: XReal := NegInf, max: XReal := PosInf): bool
  {
    val.Num? && !val.x.NaN? && XLe(min, val.x) && XLe(val.x, max)
  }

  /** With finite bounds, exactly the finite numbers in the closed range are
      accepted: infinities, NaN and non-numbers are rejected. */
  lemma ValidateFiniteRange(val: JsValue, lo: real, hi: real)
    ensures ValidateInput(val, Fin(lo), Fin(hi)) <==> val.Num? && val.x.Fin? && lo <= val.x.r <= hi
  {
  }

  /** With the default bounds every number except NaN is accepted, the
      infinities included. */
  lemma ValidateDefaultBounds(val: JsValue)
    ensures ValidateInput(val) <==> val.Num? && !val.x.NaN?
  {
  }

  /** The temperature check of the calculator admits exactly the range the
      Debye length is defined on; the zeta-potential check admits 0 mV. */
  lemma ValidatedRanges(t: JsValue)
    ensures ValidateInput(t, Fin(273.0), Fin(373.0)) ==> t.x.Fin? && 273.0 <= t.x.r <= 373.0
    ensures ValidateInput(Num(Fin(0.0)), Fin(-200.0), Fin(200.0))
  {
    ValidateFiniteRange(t, 273.0, 373.0);
  }

  // ---------------------------------------------------------------------
  // Reading a curve at a distance

  /** `lo` brackets `dist`: h[lo] <= dist < h[lo + 1]. */
  predicate Bracket(h: seq<real>, dist: real, lo: int)
  {
    0 <= lo < |h| - 1 && h[lo] <= dist < h[lo + 1]
  }

  /** The value at `x` of the straight line through (x0, y0) and (x1, y1),
      for x in [x0, x1): it lies between y0 and y1 and is y0 at x0. */
  function Lerp(x0: real, x1: real, y0: real, y1: real, x: real): (r: real)
    requires x0 <= x < x1
    ensures Min(y0, y1) <= r <= Max(y0, y1)
    ensures x == x0 ==> r == y0
  {
    var t := (x - x0) / (x1 - x0);
    UnitFactor(x0, x1, x, t);
    BetweenEnds(y0, y1, t);
    y0 + t * (y1 - y0)
  }

  /** The interpolation factor lies in [0, 1). */
  lemma UnitFactor(x0: real, x1: real, x: real, t: real)
    requires x0 <= x < x1 && t == (x - x0) / (x1 - x0)
    ensures 0.0 <= t < 1.0
  {
    QuotientMonotone(x - x0, x1 - x0, x1 - x0);
  }

  lemma BetweenEnds(y0: real, y1: real, t: real)
    requires 0.0 <= t <= 1.0
    ensures Min(y0, y1) <= y0 + t * (y1 - y0) <= Max(y0, y1)
  {
    if y0 <= y1 {
      ProductNonNegative(t, y1 - y0);
      ProductNonNegative(1.0 - t, y1 - y0);
    } else {
      ProductNonNegative(t, y0 - y1);
      ProductNonNegative(1.0 - t, y0 - y1);
    }
  }

  /** What reading the curve (h, ys) at `dist` yields: 0 without points, the
      first value at or before the first point, the last value at or beyond
      the last point, and otherwise the straight line between the two points
      of some bracket of `dist`. */
  predicate Interpolates(h: seq<real>, ys: seq<real>, dist: real, v: real)
    requires |ys| == |h|
  {
    if |h| == 0 then v == 0.0
    else if dist <= h[0] then v == ys[0]
    else if dist >= h[|h| - 1] then v == ys[|h| - 1]
    else exists lo :: 0 <= lo < |h| - 1 && Bracket(h, dist, lo) && v == Lerp(h[lo], h[lo + 1], ys[lo], ys[lo + 1], dist)
  }

  /** A bracket found by scanning from index `k` upwards. */
  function ScanBracket(h: seq<real>, dist: real, k: nat): (lo: nat)
    requires k < |h| - 1 && h[k] <= dist < h[|h| - 1]
    ensures Bracket(h, dist, lo)
    decreases |h| - k
  {
    if dist < h[k + 1] then k else ScanBracket(h, dist, k + 1)
  }

  /** Reference reading of a curve, with the bracket found by a linear scan
      instead of a binary search. */
  function Interpolation(h: seq<real>, ys: seq<real>, dist: real): (v: real)
    requires |ys| == |h|
    ensures Interpolates(h, ys, dist, v)
  {
    if |h| == 0 then 0.0
    else if dist <= h[0] then ys[0]
    else if dist >= h[|h| - 1] then ys[|h| - 1]
    else
      var lo := ScanBracket(h, dist, 0);
      Lerp(h[lo], h[lo + 1], ys[lo], ys[lo + 1], dist)
  }

  /** On a non-decreasing grid a distance has at most one bracket. */
  lemma BracketUnique(h: seq<real>, dist: real, lo1: int, lo2: int)
    requires NonDecreasing(h) && Bracket(h, dist, lo1) && Bracket(h, dist, lo2)
    ensures lo1 == lo2
  {
  }

  /** On a non-decreasing grid the reading of a curve is determined: it is
      the reference reading. */
  lemma InterpolatesUnique(h: seq<real>, ys: seq<real>, dist: real, v: real)
    requires |ys| == |h| && NonDecreasing(h) && Interpolates(h, ys, dist, v)
    ensures v == Interpolation(h, ys, dist)
  {
    if |h| > 0 && h[0] < dist < h[|h| - 1] {
      var lo :| Bracket(h, dist, lo) && v == Lerp(h[lo], h[lo + 1], ys[lo], ys[lo + 1], dist);
      BracketUnique(h, dist, lo, ScanBracket(h, dist, 0));
    }
  }

  /** Reads the curve (h, ys) at `dist`: boundary values outside the grid,
      otherwise a binary search for a bracket followed by linear
      interpolation. The search needs no ordering of `h`; on a
      non-decreasing grid it finds the one bracket there is. */
  method InterpolateAt(h: seq<real>, ys: seq<real>, dist: real) returns (v: real)
    requires |ys| == |h|
    ensures Interpolates(h, ys, dist, v)
    ensures NonDecreasing(h) ==> v == Interpolation(h, ys, dist)
  {
    if |h| == 0 {
      return 0.0;
    }
    if dist <= h[0] {
      return ys[0];
    }
    if dist >= h[|h| - 1] {
      return ys[|h| - 1];
    }
    var lo, hi := 0, |h| - 1;
    while hi - lo > 1
      invariant 0 <= lo < hi < |h|
      invariant h[lo] <= dist < h[hi]
      decreases hi - lo
    {
      var mid := (lo + hi) / 2;
      if h[mid] <= dist {
        lo := mid;
      } else {
        hi := mid;
      }
    }
    assert Bracket(h, dist, lo);
    var t := (dist - h[lo]) / (h[hi] - h[lo]);
    v := ys[lo] + t * (ys[hi] - ys[lo]);
    assert v == Lerp(h[lo], h[lo + 1], ys[lo], ys[lo + 1], dist);
    if NonDecreasing(h) {
      InterpolatesUnique(h, ys, dist, v);
    }
  }

  // ---------------------------------------------------------------------
  // The particle's position

  /** Where the particle starts, and returns on reset (nm). */
  const DefaultAnimationDistance: real := 5.0
  /** Distance moved per animation frame per unit of force and of speed. */
  const AnimationSpeedFactor: real := 0.002

  /** `x` forced into [lo, hi], as max(lo, min(hi, x)). */
  function Clamp(x: real, lo: real, hi: real): (r: real)
    ensures lo <= hi ==> lo <= r <= hi
    ensures lo <= x <= hi ==> r == x
    ensures lo <= hi && x < lo ==> r == lo
    ensures lo <= hi && x > hi ==> r == hi
  {
    Max(lo, Min(hi, x))
  }

  /** The stored results of a calculation: the grid, the total energy and
      the force along it. The grid is the calculator's, strictly
      increasing, and the force finite there. */
  datatype CalcResults = CalcResults(h: seq<real>, utot: seq<real>, force: seq<real>)
  {
    predicate WellFormed()
    {
      |utot| == |h| && |force| == |h| && StrictlyIncreasing(h)
    }
  }

  lemma IncreasingIsNonDecreasing(s: seq<real>)
    requires StrictlyIncreasing(s)
    ensures NonDecreasing(s)
  {
  }

  /** The controller's state: the last results, the particle's distance
      from the membrane, and whether it is animating or being dragged. */
  class Controller {
    var results: Option<CalcResults>
    var currentDist: real
    var isAnimating: bool
    var isDragging: bool

    /** The particle stays within the grid, and stored results are well
        formed. */
    predicate Valid()
      reads this
    {
      && (results.Some? ==> results.value.WellFormed())
      && Hmin <= currentDist <= Hmax
    }

    /** The energy shown at `dist`: 0 before any calculation. */
    function EnergyValue(dist: real): real
      reads this
      requires Valid()
    {
      if results.None? then 0.0 else Interpolation(results.value.h, results.value.utot, dist)
    }

    /** The force that drives the particle at `dist`: 0 before any
        calculation. */
    function ForceValue(dist: real): real
      reads this
      requires Valid()
    {
      if results.None? then 0.0 else Interpolation(results.value.h, results.value.force, dist)
    }

    constructor()
      ensures Valid()
      ensures results.None? && currentDist == DefaultAnimationDistance && !isAnimating && !isDragging
    {
      results := None;
      currentDist := DefaultAnimationDistance;
      isAnimating := false;
      isDragging := false;
    }

    /** Stores the results of a calculation. */
    method SetResults(r: CalcResults)
      requires Valid() && r.WellFormed()
      modifies this
      ensures Valid()
      ensures results == Some(r)
      ensures currentDist == old(currentDist) && isAnimating == old(isAnimating) && isDragging == old(isDragging)
    {
      results := Some(r);
    }

    /** The total energy at `dist`. */
    method GetEnergyAt(dist: real) returns (e: real)
      requires Valid()
      ensures results.None? ==> e == 0.0
      ensures results.Some? ==> Interpolates(results.value.h, results.value.utot, dist, e)
      ensures e == EnergyValue(dist)
    {
      if results.None? {
        return 0.0;
      }
      IncreasingIsNonDecreasing(results.value.h);
      e := InterpolateAt(results.value.h, results.value.utot, dist);
    }

    /** The force at `dist`. */
    method GetForceAt(dist: real) returns (f: real)
      requires Valid()
      ensures results.None? ==> f == 0.0
      ensures results.Some? ==> Interpolates(results.value.h, results.value.force, dist, f)
      ensures f == ForceValue(dist)
    {
      if results.None? {
        return 0.0;
      }
      IncreasingIsNonDecreasing(results.value.h);
      f := InterpolateAt(results.value.h, results.value.force, dist);
    }

    /** A press of the mouse button; on the particle it starts a drag and
        stops the animation. */
    method MouseDown(onParticle: bool)
      requires Valid()
      modifies this
      ensures Valid()
      ensures onParticle ==> isDragging && !isAnimating
      ensures !onParticle ==> isDragging == old(isDragging) && isAnimating == old(isAnimating)
      ensures results == old(results) && currentDist == old(currentDist)
    {
      if onParticle {
        isDragging := true;
        StopAnimation();
      }
    }

    /** Releasing the mouse button ends any drag. */
    method MouseUp()
      requires Valid()
      modifies this
      ensures Valid()
      ensures !isDragging
      ensures results == old(results) && currentDist == old(currentDist) && isAnimating == old(isAnimating)
    {
      isDragging := false;
    }

    /** A mouse move by `deltaDist` nanometres: while dragging, the particle
        follows and is clamped into [hmin, hmax]. The conversion from canvas
        pixels to nanometres is not modelled. */
    method MouseMove(deltaDist: real)
      requires Valid()
      modifies this
      ensures Valid()
      ensures old(isDragging) ==> currentDist == Clamp(old(currentDist) + deltaDist, Hmin, Hmax)
      ensures !old(isDragging) ==> currentDist == old(currentDist)
      ensures results == old(results) && isAnimating == old(isAnimating) && isDragging == old(isDragging)
    {
      if isDragging {
        currentDist := Max(Hmin, Min(Hmax, currentDist + deltaDist));
      }
    }

    /** Starts the animation when results exist and runs its first frame. */
    method StartAnimation(speed: real)
      requires Valid()
      modifies this
      ensures Valid()
      ensures old(results).None? ==> currentDist == old(currentDist) && isAnimating == old(isAnimating)
      ensures old(results).Some? ==>
                var next := old(currentDist) + old(ForceValue(currentDist)) * AnimationSpeedFactor * speed;
                currentDist == Clamp(next, Hmin, Hmax) && isAnimating == (Hmin <= next <= Hmax)
      ensures results == old(results) && isDragging == old(isDragging)
    {
      if results.None? {
        return;
      }
      isAnimating := true;
      AnimateStep(speed);
    }

    method StopAnimation()
      requires Valid()
      modifies this
      ensures Valid()
      ensures !isAnimating
      ensures results == old(results) && currentDist == old(currentDist) && isDragging == old(isDragging)
    {
      isAnimating := false;
    }

    /** Stops the animation and puts the particle back at its starting
        distance. */
    method ResetAnimation()
      requires Valid()
      modifies this
      ensures Valid()
      ensures !isAnimating && currentDist == DefaultAnimationDistance
      ensures results == old(results) && isDragging == old(isDragging)
    {
      StopAnimation();
      currentDist := DefaultAnimationDistance;
    }

    /** One frame of the animation: the particle moves by the force at its
        position times the speed factor and the user's speed; leaving
        [hmin, hmax] stops the animation and clamps the particle. */
    method AnimateStep(speed: real)
      requires Valid()
      modifies this
      ensures Valid()
      ensures !old(isAnimating) || old(results).None? ==>
                currentDist == old(currentDist) && isAnimating == old(isAnimating)
      ensures old(isAnimating) && old(results).Some? ==>
                var next := old(currentDist) + old(ForceValue(currentDist)) * AnimationSpeedFactor * speed;
                currentDist == Clamp(next, Hmin, Hmax) && isAnimating == (Hmin <= next <= Hmax)
      ensures results == old(results) && isDragging == old(isDragging)
    {
      if !isAnimating || results.None? {
        return;
      }
      var force := GetForceAt(currentDist);
      var next := currentDist + force * AnimationSpeedFactor * speed;
      if next < Hmin || next > Hmax {
        StopAnimation();
        next := Max(Hmin, Min(Hmax, next));
      }
      currentDist := next;
    }

    /** One frame of the video export: the particle moves by the force at
        its position times `speedFactor` and is then clamped into
        [hmin, hmax] by two separate comparisons. */
    method ExportStep(speedFactor: real)
      requires Valid()
      modifies this
      ensures Valid()
      ensures currentDist == Clamp(old(currentDist) + old(ForceValue(currentDist)) * speedFactor, Hmin, Hmax)
      ensures results == old(results) && isAnimating == old(isAnimating) && isDragging == old(isDragging)
    {
      var force := GetForceAt(currentDist);
      var next := currentDist + force * speedFactor;
      if next < Hmin {
        next := Hmin;
      }
      if next > Hmax {
        next := Hmax;
      }
      currentDist := next;
    }
  }

  // ---------------------------------------------------------------------
  // SI prefixes

  /** The prefix table, from yotta down to yocto, thresholds descending by
      factors of 1000. */
  const SiPrefixes: seq<(real, string)> := [
    (1e24, "Y"), (1e21, "Z"), (1e18, "E"), (1e15, "P"), (1e12, "T"),
    (1e9, "G"), (1e6, "M"), (1e3, "k"), (1.0, ""),
    (1e-3, "m"), (1e-6, "\U{03BC}"), (1e-9, "n"), (1e-12, "p"),
    (1e-15, "f"), (1e-18, "a"), (1e-21, "z"), (1e-24, "y")]

  /** Each threshold is 1000 times the next, and all are positive. */
  lemma PrefixTableShape()
    ensures |SiPrefixes| == 17
    ensures forall k :: 0 <= k < |SiPrefixes| ==> SiPrefixes[k].0 > 0.0
    ensures forall k :: 0 <= k < |SiPrefixes| - 1 ==> SiPrefixes[k].0 == 1000.0 * SiPrefixes[k + 1].0
  {
  }

  /** How a number is displayed: "0", a sign, a mantissa and a prefix
      symbol, or exponential notation below the smallest prefix. */
  datatype SIFormat = Zero | Prefixed(negative: bool, scaled: real, symbol: string) | Exponential(value: real)

  /** `k` is the first entry of the table whose threshold is at most `a`. */
  predicate FirstAtMost(k: int, a: real)
  {
    0 <= k < |SiPrefixes| && SiPrefixes[k].0 <= a
    && forall j :: 0 <= j < k ==> SiPrefixes[j].0 > a
  }

  /** Chooses the display of `val`: zero as "0"; otherwise the first
      (largest) prefix whose threshold is at most |val|, with |val| divided
      by it and a minus sign exactly for negative values; below every
      threshold, exponential notation. The rounding to four significant
      digits is not modelled. */
  method SelectPrefix(val: real) returns (f: SIFormat)
    ensures f.Zero? <==> val == 0.0
    ensures f.Prefixed? ==> (f.negative <==> val < 0.0)
    ensures f.Prefixed? ==>
              exists k :: FirstAtMost(k, Abs(val)) && f.symbol == SiPrefixes[k].1 && f.scaled == Abs(val) / SiPrefixes[k].0
    ensures f.Exponential? <==> val != 0.0 && Abs(val) < 1e-24
    ensures f.Exponential? ==> f.value == val
  {
    if val == 0.0 {
      return Zero;
    }
    var abs := Abs(val);
    var negative := val < 0.0;
    for k := 0 to |SiPrefixes|
      invariant forall j :: 0 <= j < k ==> SiPrefixes[j].0 > abs
    {
      var (th, sym) := SiPrefixes[k];
      if abs >= th {
        return Prefixed(negative, abs / th, sym);
      }
    }
    assert SiPrefixes[16].0 > abs;
    return Exponential(val);
  }

  /** The mantissa of a prefixed number is at least 1, and below 1000 for
      every prefix but the largest. */
  lemma PrefixedMantissa(k: int, a: real)
    requires FirstAtMost(k, a)
    ensures a / SiPrefixes[k].0 >= 1.0
    ensures k > 0 ==> a / SiPrefixes[k].0 < 1000.0
  {
    PrefixTableShape();
    var th := SiPrefixes[k].0;
    assert th > 0.0;
    if k > 0 {
      assert SiPrefixes[k - 1].0 > a;
      assert SiPrefixes[k - 1].0 == 1000.0 * th;
      QuotientMonotone(a, 1000.0 * th, th);
    }
  }
}
