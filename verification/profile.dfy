/** Energy profiles: the distance grid and the interaction energies U(h)
    between a spherical foulant of radius a and a flat membrane, in kT,
    computed point by point along the grid.
 */
module Profile {
  import opened Numerics
  import opened Physics
  import opened ContactEnergy

  /** Number of points of the grid hmin, hmin + dh, ... that do not exceed
      hmax, over exact reals. */
  function GridLength(hmin: real, hmax: real, dh: real): (n: nat)
    requires dh > 0.0
  {
    if hmin <= hmax then ((hmax - hmin) / dh).Floor + 1 else 0
  }

  /** `h` lists the points hmin, hmin + dh, hmin + 2·dh, ... */
  predicate OnGrid(h: seq<real>, hmin: real, dh: real)
  {
    forall i :: 0 <= i < |h| ==> h[i] == hmin + i as real * dh
  }

  /** The grid points from `hmin` in steps of `dh` while they do not exceed
      `hmax`. */
  method DistanceArray(hmin: real, hmax: real, dh: real) returns (h: seq<real>)
    requires dh > 0.0
    ensures |h| == GridLength(hmin, hmax, dh)
    ensures OnGrid(h, hmin, dh)
    ensures forall i :: 0 <= i < |h| ==> h[i] <= hmax
    ensures hmin + |h| as real * dh > hmax
  {
    h := [];
    var d := hmin;
    while d <= hmax
      invariant d == hmin + |h| as real * dh
      invariant |h| <= GridLength(hmin, hmax, dh)
      invariant OnGrid(h, hmin, dh)
      invariant forall i :: 0 <= i < |h| ==> h[i] <= hmax
      decreases GridLength(hmin, hmax, dh) - |h|
    {
      StepsWithinSpan(|h|, hmax - hmin, dh);
      h := h + [d];
      d := d + dh;
    }
    if hmin <= hmax {
      StepsBeyondSpan(|h|, hmax - hmin, dh);
    }
  }

  /** Consecutive grid points are `dh` apart, so a grid with a positive step
      is strictly increasing. */
  lemma GridIncreasing(h: seq<real>, hmin: real, dh: real)
    requires dh > 0.0 && OnGrid(h, hmin, dh)
    ensures forall i :: 0 <= i < |h| - 1 ==> h[i + 1] - h[i] == dh
    ensures StrictlyIncreasing(h)
  {
    forall i, j | 0 <= i < j < |h| ensures h[i] < h[j] {
      StepProduct(i, j, dh);
    }
  }

  /** With a positive step every grid point is at least `hmin`. */
  lemma GridAbove(h: seq<real>, hmin: real, dh: real)
    requires dh > 0.0 && OnGrid(h, hmin, dh)
    ensures forall i :: 0 <= i < |h| ==> h[i] >= hmin
  {
    forall i | 0 <= i < |h| ensures h[i] >= hmin {
      assert i as real * dh >= 0.0;
    }
  }

  lemma StepProduct(i: nat, j: nat, dh: real)
    requires i < j && dh > 0.0
    ensures i as real * dh < j as real * dh
  {
    assert j as real * dh - i as real * dh == (j - i) as real * dh;
  }

  /** `n` steps that stay within `span` number at most ⌊span/dh⌋. */
  lemma StepsWithinSpan(n: nat, span: real, dh: real)
    requires dh > 0.0 && n as real * dh <= span
    ensures n <= (span / dh).Floor
  {
    assert n as real <= span / dh;
  }

  /** `n` steps that overshoot `span >= 0` number more than ⌊span/dh⌋. */
  lemma StepsBeyondSpan(n: nat, span: real, dh: real)
    requires dh > 0.0 && span >= 0.0 && n as real * dh > span
    ensures n >= (span / dh).Floor + 1
  {
    assert n as real > span / dh;
  }

  /** The calculator's grid has 498 points, from 0.15 nm to exactly 25 nm. */
  lemma DefaultGrid()
    ensures GridLength(Hmin, Hmax, Dh) == 498
    ensures Hmin + 497.0 * Dh == Hmax
  {
    assert (Hmax - Hmin) / Dh == 497.0;
  }

  /** The four energy series along the grid. */
  datatype EnergyProfile = EnergyProfile(h: seq<real>, ulw: seq<real>, uab: seq<real>, uel: seq<real>, utot: seq<real>)

  /** U_LW(h) = 2π·ΔG_LW·h₀²·a·10⁻⁶ / h. */
  function LwEnergy(m: MathLib, lw: real, radius: real, d: real): real
    requires d != 0.0
  {
    2.0 * m.pi * lw * (H0 * H0) * radius * 1e-6 / d
  }

  /** U_AB(h) = 2π·a·λ·ΔG_AB·exp((h₀ − h)/λ)·10⁻³. */
  function AbEnergy(m: MathLib, ab: real, radius: real, d: real): real
  {
    2.0 * m.pi * radius * Lambda * ab * m.exp((H0 - d) / Lambda) * 1e-3
  }

  /** The double-layer expression is not evaluated where 1 − exp(−κh) is
      within 10⁻¹⁰ of zero. */
  predicate DoubleLayerDegenerate(m: MathLib, kappa: real, d: real)
  {
    Abs(1.0 - m.exp(-kappa * d)) < 1e-10
  }

  /** U_EL(h) = π·ε_r·ε₀·a·½·(2ζ_mζ_f·ln((1 + e^(−κh))/(1 − e^(−κh)))
      + (ζ_m² + ζ_f²)·ln(1 − e^(−2κh)))·10⁴, and 0 where the expression is
      degenerate. Uncharged surfaces have no double-layer energy at any
      distance. */
  function ElEnergy(m: MathLib, kappa: real, eps: real, zetaM: real, zetaF: real, radius: real, d: real): (r: real)
    ensures DoubleLayerDegenerate(m, kappa, d) ==> r == 0.0
    ensures zetaM == 0.0 && zetaF == 0.0 ==> r == 0.0
  {
    var expKh := m.exp(-kappa * d);
    var exp2Kh := m.exp(-2.0 * kappa * d);
    var denominator := 1.0 - expKh;
    if Abs(denominator) < 1e-10 then 0.0
    else
      var term1 := m.log((1.0 + expKh) / denominator);
      var term2 := m.log(1.0 - exp2Kh);
      m.pi * eps * VacuumPermittivity * radius * 0.5
        * (2.0 * zetaM * zetaF * term1 + (zetaM * zetaM + zetaF * zetaF) * term2) * 1e4
  }

  /** `exp` is positive everywhere. */
  ghost predicate ExpPositive(m: MathLib)
  {
    forall x :: m.exp(x) > 0.0
  }

  /** With a positive π and a positive exponential, U_AB has the sign of
      a·ΔG_AB at every distance, and U_LW that of a·ΔG_LW at every positive
      distance. */
  lemma EnergySigns(m: MathLib, lw: real, ab: real, radius: real, d: real)
    requires m.pi > 0.0 && ExpPositive(m) && d > 0.0
    ensures AbEnergy(m, ab, radius, d) > 0.0 <==> radius * ab > 0.0
    ensures AbEnergy(m, ab, radius, d) < 0.0 <==> radius * ab < 0.0
    ensures LwEnergy(m, lw, radius, d) > 0.0 <==> radius * lw > 0.0
    ensures LwEnergy(m, lw, radius, d) < 0.0 <==> radius * lw < 0.0
  {
    var e := m.exp((H0 - d) / Lambda);
    assert e > 0.0;
    var c := 2.0 * m.pi * Lambda * e * 1e-3;
    assert c > 0.0;
    assert AbEnergy(m, ab, radius, d) == c * (radius * ab);
    ScaledSign(c, radius * ab);
    var k := 2.0 * m.pi * (H0 * H0) * 1e-6 / d;
    assert k > 0.0;
    assert LwEnergy(m, lw, radius, d) == k * (radius * lw);
    ScaledSign(k, radius * lw);
  }

  lemma ScaledSign(c: real, x: real)
    requires c > 0.0
    ensures c * x > 0.0 <==> x > 0.0
    ensures c * x < 0.0 <==> x < 0.0
  {
    if x > 0.0 {
      assert c * x > 0.0;
    } else if x < 0.0 {
      assert c * (-x) > 0.0;
    }
  }

  /** The energies along the calculator's grid. Every series has one entry
      per grid point of the calculator's grid, each entry is the component
      at that distance; U_EL is 0 where the
      double-layer expression is degenerate, and U_TOT is always the sum of
      the three components. */
  method InteractionEnergy(m: MathLib, sys: SystemParams, dG: GibbsEnergies) returns (p: EnergyProfile)
    requires 273.0 <= sys.temperature <= 373.0
    ensures |p.h| == GridLength(Hmin, Hmax, Dh)
    ensures |p.ulw| == |p.h| && |p.uab| == |p.h| && |p.uel| == |p.h| && |p.utot| == |p.h|
    ensures OnGrid(p.h, Hmin, Dh)
    ensures forall i :: 0 <= i < |p.h| ==> p.h[i] >= Hmin && p.ulw[i] == LwEnergy(m, dG.lw, sys.radius, p.h[i])
    ensures forall i :: 0 <= i < |p.h| ==> p.uab[i] == AbEnergy(m, dG.ab, sys.radius, p.h[i])
    ensures forall i :: 0 <= i < |p.h| ==>
              p.uel[i] == ElEnergy(m, DebyeLength(m, sys.ionicStrength, sys.temperature),
                                   WaterDielectric(sys.temperature), sys.zetaM, sys.zetaF, sys.radius, p.h[i])
    ensures forall i :: 0 <= i < |p.h| ==> p.utot[i] == p.ulw[i] + p.uab[i] + p.uel[i]
    ensures forall i :: (0 <= i < |p.h| &&
              DoubleLayerDegenerate(m, DebyeLength(m, sys.ionicStrength, sys.temperature), p.h[i])) ==>
              p.uel[i] == 0.0 && p.utot[i] == p.ulw[i] + p.uab[i]
  {
    var h := DistanceArray(Hmin, Hmax, Dh);
    GridAbove(h, Hmin, Dh);
    var kappa := DebyeLength(m, sys.ionicStrength, sys.temperature);
    var eps := WaterDielectric(sys.temperature);
    var ulw, uab, uel, utot := [], [], [], [];
    for i := 0 to |h|
      invariant |ulw| == i && |uab| == i && |uel| == i && |utot| == i
      invariant forall j :: 0 <= j < i ==> ulw[j] == LwEnergy(m, dG.lw, sys.radius, h[j])
      invariant forall j :: 0 <= j < i ==> uab[j] == AbEnergy(m, dG.ab, sys.radius, h[j])
      invariant forall j :: 0 <= j < i ==> uel[j] == ElEnergy(m, kappa, eps, sys.zetaM, sys.zetaF, sys.radius, h[j])
      invariant forall j :: 0 <= j < i ==> utot[j] == ulw[j] + uab[j] + uel[j]
    {
      var d := h[i];
      var uLw := LwEnergy(m, dG.lw, sys.radius, d);
      var uAb := AbEnergy(m, dG.ab, sys.radius, d);
      var uEl := ElEnergy(m, kappa, eps, sys.zetaM, sys.zetaF, sys.radius, d);
      ulw, uab, uel := ulw + [uLw], uab + [uAb], uel + [uEl];
      if DoubleLayerDegenerate(m, kappa, d) {
        utot := utot + [uLw + uAb];
      } else {
        utot := utot + [uLw + uAb + uEl];
      }
    }
    p := EnergyProfile(h, ulw, uab, uel, utot);
  }

  /** U_LW falls off as 1/h: U_LW(h)·h is the same at every distance. */
  lemma LwInverseLaw(m: MathLib, lw: real, radius: real, d: real)
    requires d != 0.0
    ensures LwEnergy(m, lw, radius, d) * d == 2.0 * m.pi * lw * (H0 * H0) * radius * 1e-6
  {
    QuotientTimesDivisor(2.0 * m.pi * lw * (H0 * H0) * radius * 1e-6, d);
  }

  lemma QuotientTimesDivisor(c: real, d: real)
    requires d != 0.0
    ensures c / d * d == c
  {
  }
}
