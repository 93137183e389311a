/** Physical constants, the model's fixed parameters, and the two
    temperature- and concentration-dependent quantities of the electrolyte:
    the relative permittivity of water and the inverse Debye length.
 */
module Physics {
  import opened Numerics
  import opened SurfaceEnergy

  /** Elementary charge (C). */
  const ElementaryCharge: real := 1.602176634e-19
  /** Vacuum permittivity (F/m). */
  const VacuumPermittivity: real := 8.8541878128e-12
  /** Boltzmann constant (J/K). */
  const Boltzmann: real := 1.380649e-23
  /** Avogadro constant (1/mol). */
  const Avogadro: real := 6.02214076e23

  /** Surface tension of the non-polar probe liquid, diiodomethane (mJ/m²). */
  const DiiodoLw: real := 50.8
  /** The three probe liquids as the solver sees them. */
  const Diiodomethane: Liquid := Liquid(DiiodoLw, 0.0, 0.0)
  const Formamide: Liquid := Liquid(39.0, 2.28, 39.6)
  const Water: Liquid := Liquid(21.8, 25.5, 25.5)

  /** The calculator pairs each polar angle with its liquid, formamide first
      and water second; with these built-in liquids the polar system is far
      from singular (its determinant exceeds 20), so the contact-angle
      inversion never reports an ill-conditioned system, whatever the angles. */
  lemma BuiltInLiquidsWellConditioned(m: MathLib, thetaDiiodo: real, thetaForm: real, thetaWater: real)
    requires SqrtLaws(m)
    ensures m.sqrt(Diiodomethane.lw) > 0.0
    ensures Determinant(PolarSystem(m, thetaForm, thetaWater, Formamide, Water,
                                    LwFromNonPolar(m, thetaDiiodo, Diiodomethane))) > 20.0
    ensures SurfaceEnergyFromContactAngles(m, thetaDiiodo, thetaForm, thetaWater, Diiodomethane, Formamide, Water).Ok?
  {
    RootAbove(m, 0.0, 0.0, 50.8);
    RootAbove(m, 5.0, 25.0, 25.5);
    RootAbove(m, 6.0, 36.0, 39.6);
    SqrtOfSquare(m, 2.0, 4.0);
    SqrtStrictlyIncreasing(m, 2.28, 4.0);
    var w, f, g := m.sqrt(25.5), m.sqrt(39.6), m.sqrt(2.28);
    assert f - g > 4.0;
    assert w * f - g * w == w * (f - g);
    ProductAbove(w, 5.0, f - g, 4.0);
  }

  /** Two probe liquids sharing the same polar components Plus = Minus make
      the system singular: the inversion rejects them as ill-conditioned. */
  lemma IdenticalWaterRejected(m: MathLib, thetaDiiodo: real, thetaWater: real)
    requires SqrtLaws(m)
    ensures m.sqrt(Diiodomethane.lw) > 0.0
    ensures SurfaceEnergyFromContactAngles(m, thetaDiiodo, thetaWater, thetaWater, Diiodomethane, Water, Water).Err?
  {
    RootAbove(m, 0.0, 0.0, 50.8);
    IdenticalPolarLiquids(m, thetaDiiodo, thetaWater, thetaWater, Diiodomethane, Water);
  }

  /** `√w > x` for `x ≥ 0` with `x² = v < w`. */
  lemma RootAbove(m: MathLib, x: real, v: real, w: real)
    requires SqrtLaws(m) && x >= 0.0 && v == x * x && v < w
    ensures m.sqrt(w) > x
  {
    SqrtOfSquare(m, x, v);
    SqrtStrictlyIncreasing(m, v, w);
  }

  lemma ProductAbove(a: real, p: real, b: real, q: real)
    requires a > p >= 0.0 && b > q >= 0.0
    ensures a * b > p * q
  {
    assert a * b - p * q == a * (b - q) + q * (a - p);
    ProductNonNegative(q, a - p);
    assert a * (b - q) > 0.0;
  }

  /** Minimum separation, the contact distance (nm). */
  const H0: real := 0.158
  /** Decay length of the acid-base interaction (nm). */
  const Lambda: real := 0.6
  /** Step, upper and lower end of the distance grid (nm). */
  const Dh: real := 0.05
  const Hmax: real := 25.0
  const Hmin: real := 0.15

  /** Relative permittivity of water at absolute temperature `t` (K), a cubic
      in the Celsius temperature. */
  function WaterDielectric(t: real): real
  {
    var d := t - 273.15;
    87.740 - 0.40008 * d + 9.398e-4 * d * d - 1.410e-6 * d * d * d
  }

  /** Within the temperatures the calculator accepts, the permittivity stays
      above 40, so the Debye radicand never divides by zero. */
  lemma WaterDielectricPositive(t: real)
    requires 273.0 <= t <= 373.0
    ensures WaterDielectric(t) > 40.0
  {
    var d := t - 273.15;
    var sq, cube := d * d, d * d * d;
    assert cube == d * sq;
    PowerBounds(d, sq, cube);
    assert WaterDielectric(t) == 87.740 - 0.40008 * d + 9.398e-4 * sq - 1.410e-6 * cube;
  }

  /** For `d` in [-0.15, 99.85]: `0 <= d² <= 10⁴` and `d³ <= 100·d²`. */
  lemma PowerBounds(d: real, sq: real, cube: real)
    requires -0.15 <= d <= 99.85 && sq == d * d && cube == d * sq
    ensures 0.0 <= sq <= 10000.0 && cube <= 100.0 * sq
  {
    if d >= 0.0 {
      ProductNonNegative(100.0 - d, d);
      ProductNonNegative(100.0 - d, sq);
    } else {
      ProductNonNegative(0.15 + d, -d);
      ProductNonNegative(-d, sq);
    }
  }

  lemma ProductNonNegative(a: real, b: real)
    requires a >= 0.0 && b >= 0.0
    ensures a * b >= 0.0
  {
  }

  /** The radicand of the inverse Debye length: 2·N_A·e²·I / (ε_r·ε₀·k·T),
      with the ionic strength `ionic` in mol/L converted to mol/m³. */
  function DebyeArgument(ionic: real, t: real): (r: real)
    requires 273.0 <= t <= 373.0
    ensures ionic > 0.0 ==> r > 0.0
    ensures ionic == 0.0 ==> r == 0.0
  {
    WaterDielectricPositive(t);
    var eps := WaterDielectric(t);
    var denominator := eps * VacuumPermittivity * Boltzmann * t;
    assert denominator > 0.0;
    2.0 * Avogadro * ElementaryCharge * ElementaryCharge * (ionic * 1000.0) / denominator
  }

  /** Inverse Debye length κ in 1/nm. */
  function DebyeLength(m: MathLib, ionic: real, t: real): real
    requires 273.0 <= t <= 373.0
  {
    m.sqrt(DebyeArgument(ionic, t)) * 1e-9
  }

  /** With a true square root, κ is positive for a positive ionic strength
      and strictly increases with it. */
  lemma DebyeLengthIncreasing(m: MathLib, ionic1: real, ionic2: real, t: real)
    requires SqrtLaws(m) && 0.0 < ionic1 < ionic2 && 273.0 <= t <= 373.0
    ensures 0.0 < DebyeLength(m, ionic1, t) < DebyeLength(m, ionic2, t)
  {
    var a1, a2 := DebyeArgument(ionic1, t), DebyeArgument(ionic2, t);
    ArgumentIncreasing(ionic1, ionic2, t);
    SqrtOf(m, a1);
    SqrtStrictlyIncreasing(m, a1, a2);
  }

  lemma ArgumentIncreasing(ionic1: real, ionic2: real, t: real)
    requires 0.0 < ionic1 < ionic2 && 273.0 <= t <= 373.0
    ensures 0.0 < DebyeArgument(ionic1, t) < DebyeArgument(ionic2, t)
  {
    WaterDielectricPositive(t);
    var denominator := WaterDielectric(t) * VacuumPermittivity * Boltzmann * t;
    var c := 2.0 * Avogadro * ElementaryCharge * ElementaryCharge;
    assert c > 0.0;
    assert c * (ionic1 * 1000.0) < c * (ionic2 * 1000.0);
    QuotientMonotone(c * (ionic1 * 1000.0), c * (ionic2 * 1000.0), denominator);
  }

  lemma QuotientMonotone(p: real, q: real, d: real)
    requires p < q && d > 0.0
    ensures p / d < q / d
  {
  }
}
