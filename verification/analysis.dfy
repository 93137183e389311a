/** Analysis of a total-energy profile U(h) sampled on a distance grid h:
    the energy barrier, the minima, the force F = −dU/dh by finite
    differences, and the zero crossings of U.
 */
module Analysis {
  import opened Numerics
  import opened Utilities

  // ---------------------------------------------------------------------
  // Energy barrier

  /** An interior point strictly higher than both of its neighbours. */
  predicate IsPeak(U: seq<real>, i: int)
  {
    0 < i < |U| - 1 && U[i] > U[i - 1] && U[i] > U[i + 1]
  }

  datatype Barrier = NoBarrier | Barrier(energy: real, position: real)

  /** `i` is the first interior peak of greatest height. */
  predicate HighestPeakAt(U: seq<real>, i: int)
  {
    && IsPeak(U, i)
    && (forall j :: 0 <= j < i && IsPeak(U, j) ==> U[j] < U[i])
    && (forall j :: i < j < |U| && IsPeak(U, j) ==> U[j] <= U[i])
  }

  /** The barrier of a profile: the height and position of its first highest
      interior peak, or none when the profile has no interior peak. The first
      and last points are never candidates. */
  predicate IsBarrierOf(h: seq<real>, U: seq<real>, b: Barrier)
    requires |h| == |U|
  {
    match b
    case NoBarrier => forall i :: 0 <= i < |U| ==> !IsPeak(U, i)
    case Barrier(energy, position) =>
      exists i :: 0 <= i < |U| && HighestPeakAt(U, i) && energy == U[i] && position == h[i]
  }

  /** Scans the interior points, keeping the highest strict local maximum;
      a later peak replaces the kept one only when strictly higher. */
  method FindBarrier(h: seq<real>, U: seq<real>) returns (b: Barrier)
    requires |h| == |U|
    ensures IsBarrierOf(h, U, b)
  {
    var found := false;
    var best := 0;
    var i := 1;
    while i < |U| - 1
      invariant 1 <= i && (i <= |U| - 1 || i == 1)
      invariant !found ==> forall j :: 0 <= j < i ==> !IsPeak(U, j)
      invariant found ==> 0 < best < i && IsPeak(U, best)
      invariant found ==> forall j :: 0 <= j < best && IsPeak(U, j) ==> U[j] < U[best]
      invariant found ==> forall j :: best < j < i && IsPeak(U, j) ==> U[j] <= U[best]
    {
      if U[i] > U[i - 1] && U[i] > U[i + 1] && (!found || U[i] > U[best]) {
        found, best := true, i;
      }
      i := i + 1;
    }
    if found {
      b := Barrier(U[best], h[best]);
    } else {
      b := NoBarrier;
    }
  }

  /** The barrier is determined by the profile: no two answers meet the
      description. */
  lemma BarrierUnique(h: seq<real>, U: seq<real>, b1: Barrier, b2: Barrier)
    requires |h| == |U| && IsBarrierOf(h, U, b1) && IsBarrierOf(h, U, b2)
    ensures b1 == b2
  {
    HighestPeakUnique(U);
  }

  /** At most one index is the first highest peak. */
  lemma HighestPeakUnique(U: seq<real>)
    ensures forall i, j :: HighestPeakAt(U, i) && HighestPeakAt(U, j) ==> i == j
  {
  }

  // ---------------------------------------------------------------------
  // Minima

  /** A point of the profile: a distance and the energy there. */
  datatype Point = Point(position: real, energy: real)

  datatype MinimumKind = Primary | Secondary

  datatype Minimum = Minimum(position: real, energy: real, kind: MinimumKind)

  /** An interior point strictly lower than both of its neighbours. */
  predicate IsValley(U: seq<real>, i: int)
  {
    0 < i < |U| - 1 && U[i] < U[i - 1] && U[i] < U[i + 1]
  }

  /** The points reported as minima: the first point when it is lower than
      the second (the boundary minimum at contact), and every interior
      valley. */
  predicate IsReported(U: seq<real>, i: int)
  {
    (i == 0 && |U| >= 2 && U[0] < U[1]) || IsValley(U, i)
  }

  /** The minima found by the scan up to (not including) index `n`, in scan
      order. The provisional labels of the scan are omitted: the relabelling
      that follows the sort overwrites every one of them. */
  function Candidates(h: seq<real>, U: seq<real>, n: nat): seq<Point>
    requires |h| == |U| && 1 <= n && (n == 1 || n < |U|)
  {
    if n == 1 then
      (if |U| >= 2 && U[0] < U[1] then [Point(h[0], U[0])] else [])
    else
      Candidates(h, U, n - 1) + (if IsValley(U, n - 1) then [Point(h[n - 1], U[n - 1])] else [])
  }

  /** Where the scan stops: the last point is never examined. */
  function ScanEnd(U: seq<real>): (n: nat)
    ensures 1 <= n && (n == 1 || n < |U|)
    ensures forall i :: 0 <= i < |U| && IsReported(U, i) ==> i < n
  {
    if |U| >= 2 then |U| - 1 else 1
  }

  /** Every minimum the scan of the whole profile finds, in scan order. */
  function Detected(h: seq<real>, U: seq<real>): seq<Point>
    requires |h| == |U|
  {
    Candidates(h, U, ScanEnd(U))
  }

  lemma {:induction false} CandidatesMembers(h: seq<real>, U: seq<real>, n: nat, p: Point)
    requires |h| == |U| && 1 <= n && (n == 1 || n < |U|)
    ensures p in Candidates(h, U, n) <==>
            exists i :: 0 <= i < n && i < |U| && IsReported(U, i) && p == Point(h[i], U[i])
  {
    if n > 1 {
      CandidatesMembers(h, U, n - 1, p);
      if p in Candidates(h, U, n) && p !in Candidates(h, U, n - 1) {
        assert IsValley(U, n - 1) && p == Point(h[n - 1], U[n - 1]);
      }
    }
  }

  /** The scan finds exactly the reported points. */
  lemma DetectedMembers(h: seq<real>, U: seq<real>, p: Point)
    requires |h| == |U|
    ensures p in Detected(h, U) <==>
            exists i :: 0 <= i < |U| && IsReported(U, i) && p == Point(h[i], U[i])
  {
    CandidatesMembers(h, U, ScanEnd(U), p);
  }

  /** Positions strictly increase along `s`. */
  predicate PositionsIncreasing(s: seq<Point>)
  {
    forall i, j :: 0 <= i < j < |s| ==> s[i].position < s[j].position
  }

  /** On a strictly increasing grid the scan finds the minima in order of
      position. */
  lemma {:induction false} CandidatesIncreasing(h: seq<real>, U: seq<real>, n: nat)
    requires |h| == |U| && 1 <= n && (n == 1 || n < |U|) && StrictlyIncreasing(h)
    ensures PositionsIncreasing(Candidates(h, U, n))
  {
    if n > 1 {
      CandidatesIncreasing(h, U, n - 1);
      var c := Candidates(h, U, n - 1);
      forall k | 0 <= k < |c| ensures c[k].position < h[n - 1] {
        CandidatesMembers(h, U, n - 1, c[k]);
      }
    }
  }

  // Sorting by position

  predicate SortedByPosition(s: seq<Point>)
  {
    forall i, j :: 0 <= i < j < |s| ==> s[i].position <= s[j].position
  }

  /** Inserts `x` into `s` before the first point strictly further away. */
  function Insert(x: Point, s: seq<Point>): seq<Point>
  {
    if |s| == 0 then [x]
    else if x.position < s[0].position then [x] + s
    else [s[0]] + Insert(x, s[1..])
  }

  /** Sorting by position, as an insertion sort. */
  function SortByPosition(s: seq<Point>): seq<Point>
  {
    if |s| == 0 then [] else Insert(s[|s| - 1], SortByPosition(s[..|s| - 1]))
  }

  lemma {:induction false} InsertPermutes(x: Point, s: seq<Point>)
    ensures multiset(Insert(x, s)) == multiset(s) + multiset{x}
  {
    if |s| > 0 && x.position >= s[0].position {
      InsertPermutes(x, s[1..]);
      assert s == [s[0]] + s[1..];
    }
  }

  lemma {:induction false} InsertSorted(x: Point, s: seq<Point>)
    requires SortedByPosition(s)
    ensures SortedByPosition(Insert(x, s))
  {
    if |s| > 0 && x.position >= s[0].position {
      var t := s[1..];
      InsertSorted(x, t);
      InsertPermutes(x, t);
      var r := Insert(x, t);
      forall k | 0 <= k < |r| ensures s[0].position <= r[k].position {
        assert r[k] in multiset(r);
        assert r[k] == x || r[k] in t;
      }
    }
  }

  /** The sort orders by position and only rearranges. */
  lemma {:induction false} SortSortsAndPermutes(s: seq<Point>)
    ensures SortedByPosition(SortByPosition(s))
    ensures multiset(SortByPosition(s)) == multiset(s)
  {
    if |s| > 0 {
      var init := s[..|s| - 1];
      SortSortsAndPermutes(init);
      InsertSorted(s[|s| - 1], SortByPosition(init));
      InsertPermutes(s[|s| - 1], SortByPosition(init));
      assert s == init + [s[|s| - 1]];
    }
  }

  lemma {:induction false} InsertAtEnd(x: Point, s: seq<Point>)
    requires forall k :: 0 <= k < |s| ==> s[k].position <= x.position
    ensures Insert(x, s) == s + [x]
  {
    if |s| > 0 {
      InsertAtEnd(x, s[1..]);
      assert s == [s[0]] + s[1..];
    }
  }

  /** Input already in order of position is left as it is. */
  lemma {:induction false} SortKeepsSorted(s: seq<Point>)
    requires SortedByPosition(s)
    ensures SortByPosition(s) == s
  {
    if |s| > 0 {
      var init := s[..|s| - 1];
      SortKeepsSorted(init);
      InsertAtEnd(s[|s| - 1], init);
      assert s == init + [s[|s| - 1]];
    }
  }

  /** `r` carries the points of `s` in the same order, the first labelled
      primary and the rest secondary. */
  predicate LabelledAs(r: seq<Minimum>, s: seq<Point>)
  {
    && |r| == |s|
    && forall k :: 0 <= k < |r| ==>
         r[k] == Minimum(s[k].position, s[k].energy, if k == 0 then Primary else Secondary)
  }

  /** Finds the minima, orders them by position and labels the nearest one
      primary and every other one secondary. Each reported minimum is a
      boundary or interior local minimum of the profile and each such point
      is reported; on a strictly increasing grid they come in grid order. */
  method FindMinima(h: seq<real>, U: seq<real>) returns (r: seq<Minimum>)
    requires |h| == |U|
    ensures LabelledAs(r, SortByPosition(Detected(h, U)))
    ensures forall i, j :: 0 <= i < j < |r| ==> r[i].position <= r[j].position
    ensures forall k :: 0 <= k < |r| ==> (r[k].kind == Primary <==> k == 0)
    ensures forall k :: 0 <= k < |r| ==> ReportedPoint(h, U, r[k].position, r[k].energy)
    ensures forall i :: 0 <= i < |U| && IsReported(U, i) ==> Lists(r, h[i], U[i])
    ensures StrictlyIncreasing(h) ==> LabelledAs(r, Detected(h, U))
  {
    var minima: seq<Point> := [];
    if |U| >= 2 && U[0] < U[1] {
      minima := [Point(h[0], U[0])];
    }
    var i := 1;
    while i < |U| - 1
      invariant 1 <= i && (i == 1 || i < |U|)
      invariant minima == Candidates(h, U, i)
    {
      if U[i] < U[i - 1] && U[i] < U[i + 1] {
        minima := minima + [Point(h[i], U[i])];
      }
      i := i + 1;
    }
    assert minima == Detected(h, U);
    var sorted := SortByPosition(minima);
    r := [];
    for k := 0 to |sorted|
      invariant LabelledAs(r, sorted[..k])
    {
      r := r + [Minimum(sorted[k].position, sorted[k].energy, if k == 0 then Primary else Secondary)];
    }
    assert sorted[..|sorted|] == sorted;
    MinimaSound(h, U, r);
    MinimaComplete(h, U, r);
    MinimaOrdered(h, U, r);
  }

  /** (`position`, `energy`) is a reported point of the profile. */
  predicate ReportedPoint(h: seq<real>, U: seq<real>, position: real, energy: real)
    requires |h| == |U|
  {
    exists i :: 0 <= i < |U| && IsReported(U, i) && position == h[i] && energy == U[i]
  }

  /** Some minimum of `r` lies at `position` with `energy`. */
  predicate Lists(r: seq<Minimum>, position: real, energy: real)
  {
    exists k :: 0 <= k < |r| && r[k].position == position && r[k].energy == energy
  }

  /** Every labelled minimum is a reported point of the profile. */
  lemma MinimaSound(h: seq<real>, U: seq<real>, r: seq<Minimum>)
    requires |h| == |U| && LabelledAs(r, SortByPosition(Detected(h, U)))
    ensures forall k :: 0 <= k < |r| ==> ReportedPoint(h, U, r[k].position, r[k].energy)
  {
    var d := Detected(h, U);
    var sorted := SortByPosition(d);
    SortSortsAndPermutes(d);
    forall k | 0 <= k < |r|
      ensures ReportedPoint(h, U, r[k].position, r[k].energy)
    {
      assert sorted[k] in multiset(d);
      DetectedMembers(h, U, sorted[k]);
    }
  }

  /** Every reported point of the profile is among the labelled minima. */
  lemma MinimaComplete(h: seq<real>, U: seq<real>, r: seq<Minimum>)
    requires |h| == |U| && LabelledAs(r, SortByPosition(Detected(h, U)))
    ensures forall i :: 0 <= i < |U| && IsReported(U, i) ==> Lists(r, h[i], U[i])
  {
    var d := Detected(h, U);
    var sorted := SortByPosition(d);
    SortSortsAndPermutes(d);
    forall i | 0 <= i < |U| && IsReported(U, i)
      ensures Lists(r, h[i], U[i])
    {
      var p := Point(h[i], U[i]);
      DetectedMembers(h, U, p);
      assert p in multiset(sorted);
      var k :| 0 <= k < |sorted| && sorted[k] == p;
      assert r[k].position == h[i] && r[k].energy == U[i];
    }
  }

  /** The labelled minima come in order of position; on a strictly
      increasing grid that is the order of the scan. */
  lemma MinimaOrdered(h: seq<real>, U: seq<real>, r: seq<Minimum>)
    requires |h| == |U| && LabelledAs(r, SortByPosition(Detected(h, U)))
    ensures forall i, j :: 0 <= i < j < |r| ==> r[i].position <= r[j].position
    ensures StrictlyIncreasing(h) ==> LabelledAs(r, Detected(h, U))
  {
    var d := Detected(h, U);
    SortSortsAndPermutes(d);
    if StrictlyIncreasing(h) {
      CandidatesIncreasing(h, U, ScanEnd(U));
      SortKeepsSorted(d);
    }
  }

  // ---------------------------------------------------------------------
  // Force

  /** The two neighbours whose difference quotient estimates dU/dh at `i`:
      forward at the first point, backward at the last, central elsewhere. */
  function Stencil(n: nat, i: nat): (lohi: (nat, nat))
    requires 2 <= n && i < n
    ensures lohi.0 < lohi.1 < n
    ensures lohi.0 <= i <= lohi.1
  {
    if i == 0 then (0, 1)
    else if i == n - 1 then (n - 2, n - 1)
    else (i - 1, i + 1)
  }

  /** The force −dU/dh at point `i`, with the division of a JavaScript
      number. A single-point profile has no neighbour to difference against
      and yields NaN. */
  function ForceAt(h: seq<real>, U: seq<real>, i: nat): XReal
    requires |h| == |U| && i < |h|
  {
    if |h| == 1 then NaN
    else
      var (lo, hi) := Stencil(|h|, i);
      XNeg(XDiv(Fin(U[hi] - U[lo]), Fin(h[hi] - h[lo])))
  }

  method CalculateForce(h: seq<real>, U: seq<real>) returns (F: seq<XReal>)
    requires |h| == |U|
    ensures |F| == |h|
    ensures forall i :: 0 <= i < |h| ==> F[i] == ForceAt(h, U, i)
  {
    var n := |h|;
    F := [];
    for i := 0 to n
      invariant |F| == i
      invariant forall j :: 0 <= j < i ==> F[j] == ForceAt(h, U, j)
    {
      var dUdh: XReal;
      if n == 1 {
        dUdh := NaN;
      } else if i == 0 {
        dUdh := XDiv(Fin(U[1] - U[0]), Fin(h[1] - h[0]));
      } else if i == n - 1 {
        dUdh := XDiv(Fin(U[n - 1] - U[n - 2]), Fin(h[n - 1] - h[n - 2]));
      } else {
        dUdh := XDiv(Fin(U[i + 1] - U[i - 1]), Fin(h[i + 1] - h[i - 1]));
      }
      F := F + [XNeg(dUdh)];
    }
  }

  /** On a strictly increasing grid of at least two points every force is
      finite, and it is the negated difference quotient over the stencil:
      negative (attractive) exactly where the energy rises with distance. */
  lemma ForceOnIncreasingGrid(h: seq<real>, U: seq<real>, i: nat)
    requires |h| == |U| && 2 <= |h| && i < |h| && StrictlyIncreasing(h)
    ensures ForceAt(h, U, i).Fin?
    ensures ForceAt(h, U, i).r
              == -(U[Stencil(|h|, i).1] - U[Stencil(|h|, i).0]) / (h[Stencil(|h|, i).1] - h[Stencil(|h|, i).0])
    ensures ForceAt(h, U, i).r < 0.0 <==> U[Stencil(|h|, i).0] < U[Stencil(|h|, i).1]
    ensures ForceAt(h, U, i).r > 0.0 <==> U[Stencil(|h|, i).0] > U[Stencil(|h|, i).1]
  {
    var (lo, hi) := Stencil(|h|, i);
    assert h[lo] < h[hi];
    QuotientSign(U[hi] - U[lo], h[hi] - h[lo]);
  }

  lemma QuotientSign(x: real, d: real)
    requires d > 0.0
    ensures x / d > 0.0 <==> x > 0.0
    ensures x / d < 0.0 <==> x < 0.0
  {
    if x > 0.0 {
      assert x / d > 0.0;
    } else if x < 0.0 {
      assert (-x) / d > 0.0;
    }
  }

  /** For a linear profile U = a + c·h on a strictly increasing grid the
      finite differences are exact: the force is −c everywhere. */
  lemma LinearProfileForce(h: seq<real>, U: seq<real>, a: real, c: real, i: nat)
    requires |h| == |U| && 2 <= |h| && i < |h| && StrictlyIncreasing(h)
    requires forall j :: 0 <= j < |h| ==> U[j] == a + c * h[j]
    ensures ForceAt(h, U, i) == Fin(-c)
  {
    var (lo, hi) := Stencil(|h|, i);
    assert h[lo] < h[hi];
    SlopeOfLine(a, c, h[lo], h[hi]);
  }

  lemma SlopeOfLine(a: real, c: real, x: real, y: real)
    requires x != y
    ensures ((a + c * y) - (a + c * x)) / (y - x) == c
  {
    assert (a + c * y) - (a + c * x) == c * (y - x);
  }

  // ---------------------------------------------------------------------
  // Zero crossings

  /** Consecutive energies that reach zero from either side, within the
      default tolerance of 10⁻¹⁰. */
  predicate Crosses(u1: real, u2: real)
  {
    (AlmostLE(u1, 0.0) && AlmostGE(u2, 0.0)) || (AlmostGE(u1, 0.0) && AlmostLE(u2, 0.0))
  }

  /** The zero of the straight line through (h1, u1) and (h2, u2), computed
      as h1 + t·(h2 − h1) with t = −u1/(u2 − u1) in JavaScript numbers. */
  function CrossingPoint(h1: real, h2: real, u1: real, u2: real): XReal
  {
    var t := XDiv(Fin(-u1), Fin(u2 - u1));
    XAdd(Fin(h1), XMul(t, Fin(h2 - h1)))
  }

  /** The crossings reported for the segments before index `n`, in order. */
  function Crossings(h: seq<real>, U: seq<real>, n: nat): seq<XReal>
    requires |h| == |U| && (n == 0 || n < |U|)
  {
    if n == 0 then []
    else
      Crossings(h, U, n - 1)
        + (if Crosses(U[n - 1], U[n]) then [CrossingPoint(h[n - 1], h[n], U[n - 1], U[n])] else [])
  }

  lemma {:induction false} CrossingsMembers(h: seq<real>, U: seq<real>, n: nat, x: XReal)
    requires |h| == |U| && (n == 0 || n < |U|)
    ensures x in Crossings(h, U, n) <==>
            exists i :: 0 <= i < n && Crosses(U[i], U[i + 1]) && x == CrossingPoint(h[i], h[i + 1], U[i], U[i + 1])
  {
    if n > 0 {
      CrossingsMembers(h, U, n - 1, x);
    }
  }

  /** Reports one interpolated zero for each segment whose ends reach zero
      from either side. Every reported value comes from such a segment and
      every such segment contributes one. */
  method FindZeroCrossings(h: seq<real>, U: seq<real>) returns (zeros: seq<XReal>)
    requires |h| == |U|
    ensures forall x :: x in zeros <==>
              exists i :: 0 <= i < |U| - 1 && Crosses(U[i], U[i + 1])
                          && x == CrossingPoint(h[i], h[i + 1], U[i], U[i + 1])
    ensures |U| >= 1 ==> zeros == Crossings(h, U, |U| - 1)
  {
    zeros := [];
    var i := 0;
    while i < |U| - 1
      invariant 0 <= i && (i == 0 || i < |U|)
      invariant zeros == Crossings(h, U, i)
    {
      var u1, u2 := U[i], U[i + 1];
      var crosses := (AlmostLE(u1, 0.0) && AlmostGE(u2, 0.0)) || (AlmostGE(u1, 0.0) && AlmostLE(u2, 0.0));
      if crosses {
        var t := XDiv(Fin(-u1), Fin(u2 - u1));
        zeros := zeros + [XAdd(Fin(h[i]), XMul(t, Fin(h[i + 1] - h[i])))];
      }
      i := i + 1;
    }
    forall x ensures x in zeros <==>
              exists i :: 0 <= i < |U| - 1 && Crosses(U[i], U[i + 1])
                          && x == CrossingPoint(h[i], h[i + 1], U[i], U[i + 1])
    {
      CrossingsMembers(h, U, i, x);
    }
  }

  /** A genuine sign change between distinct energies is always reported,
      and the reported point lies within the segment, where the straight line
      through the two samples vanishes. */
  lemma CrossingInterpolates(h1: real, h2: real, u1: real, u2: real)
    requires h1 < h2 && u1 != u2 && ((u1 <= 0.0 <= u2) || (u2 <= 0.0 <= u1))
    ensures Crosses(u1, u2)
    ensures CrossingPoint(h1, h2, u1, u2).Fin?
    ensures h1 <= CrossingPoint(h1, h2, u1, u2).r <= h2
    ensures u1 + (CrossingPoint(h1, h2, u1, u2).r - h1) / (h2 - h1) * (u2 - u1) == 0.0
  {
    SignChangeCrosses(u1, u2);
    var t := -u1 / (u2 - u1);
    FractionInUnitInterval(u1, u2);
    var x := h1 + t * (h2 - h1);
    assert CrossingPoint(h1, h2, u1, u2) == Fin(x);
    ScaledWithin(t, h2 - h1);
    LineVanishes(h1, h2, u1, u2, t, x);
  }

  lemma SignChangeCrosses(u1: real, u2: real)
    requires (u1 <= 0.0 <= u2) || (u2 <= 0.0 <= u1)
    ensures Crosses(u1, u2)
  {
    if u1 <= 0.0 <= u2 {
      assert AlmostLE(u1, 0.0) && AlmostGE(u2, 0.0);
    } else {
      assert AlmostGE(u1, 0.0) && AlmostLE(u2, 0.0);
    }
  }

  lemma FractionInUnitInterval(u1: real, u2: real)
    requires u1 != u2 && ((u1 <= 0.0 <= u2) || (u2 <= 0.0 <= u1))
    ensures 0.0 <= -u1 / (u2 - u1) <= 1.0
  {
    if u1 < u2 {
      assert -u1 <= u2 - u1;
    } else {
      assert -u1 >= u2 - u1;
      assert -u1 / (u2 - u1) == u1 / (u1 - u2);
    }
  }

  lemma ScaledWithin(t: real, w: real)
    requires 0.0 <= t <= 1.0 && w > 0.0
    ensures 0.0 <= t * w <= w
  {
    assert (1.0 - t) * w >= 0.0;
  }

  lemma LineVanishes(h1: real, h2: real, u1: real, u2: real, t: real, x: real)
    requires h1 < h2 && u1 != u2 && t == -u1 / (u2 - u1) && x == h1 + t * (h2 - h1)
    ensures u1 + (x - h1) / (h2 - h1) * (u2 - u1) == 0.0
  {
    assert (x - h1) / (h2 - h1) == t;
    assert t * (u2 - u1) == -u1;
  }

  /** A flat segment that passes the tolerance test, for instance two equal
      energies within 10⁻¹⁰ of zero, never yields a finite crossing: the
      interpolation divides by zero. */
  lemma FlatSegmentCrossing(h1: real, h2: real, u: real)
    ensures !CrossingPoint(h1, h2, u, u).Fin?
  {
  }

  // ---------------------------------------------------------------------
  // Profile analysis

  datatype ProfileAnalysis = ProfileAnalysis(
    barrier: Barrier,
    primaryMinimum: Option<Minimum>,
    secondaryMinimum: Option<Minimum>,
    minima: seq<Minimum>,
    force: seq<XReal>)

  /** The first minimum of kind `k`, if any. */
  function FindKind(s: seq<Minimum>, k: MinimumKind): (r: Option<Minimum>)
    ensures r.None? <==> forall i :: 0 <= i < |s| ==> s[i].kind != k
    ensures r.Some? ==> r.value.kind == k && r.value in s
    ensures r.Some? ==> exists i :: 0 <= i < |s| && s[i] == r.value && forall j :: 0 <= j < i ==> s[j].kind != k
  {
    if |s| == 0 then None
    else if s[0].kind == k then Some(s[0])
    else FindKind(s[1..], k)
  }

  /** Among labelled minima the primary one is the nearest and the secondary
      one, if any, the second nearest. */
  lemma FindKindOfLabelled(r: seq<Minimum>, s: seq<Point>)
    requires LabelledAs(r, s)
    ensures FindKind(r, Primary) == (if |r| > 0 then Some(r[0]) else None)
    ensures FindKind(r, Secondary) == (if |r| > 1 then Some(r[1]) else None)
  {
    if |r| > 1 {
      assert r[1..][0] == r[1];
    }
  }

  /** Barrier, minima and force of a total-energy profile, with the primary
      and secondary minimum picked out of the minima. */
  method AnalyzeProfile(h: seq<real>, U: seq<real>) returns (a: ProfileAnalysis)
    requires |h| == |U|
    ensures IsBarrierOf(h, U, a.barrier)
    ensures LabelledAs(a.minima, SortByPosition(Detected(h, U)))
    ensures |a.force| == |h| && forall i :: 0 <= i < |h| ==> a.force[i] == ForceAt(h, U, i)
    ensures a.primaryMinimum == (if |a.minima| > 0 then Some(a.minima[0]) else None)
    ensures a.secondaryMinimum == (if |a.minima| > 1 then Some(a.minima[1]) else None)
  {
    var barrier := FindBarrier(h, U);
    var minima := FindMinima(h, U);
    var force := CalculateForce(h, U);
    FindKindOfLabelled(minima, SortByPosition(Detected(h, U)));
    a := ProfileAnalysis(barrier, FindKind(minima, Primary), FindKind(minima, Secondary), minima, force);
  }
}
