/** Free energies of interaction per unit area at the contact distance h₀
    between a membrane and a foulant immersed in water: the
    Lifshitz–van der Waals (LW), acid-base (AB) and electrostatic double-layer
    (EL) components, their sum without EL (adhesion, ADH) and with it (TOT).
    Results are in mJ/m².
 */
module ContactEnergy {
  import opened Numerics
  import opened Utilities
  import opened SurfaceEnergy
  import opened Physics

  /** The parameters the calculator assembles for a run: the membrane's
      surface-energy components, both zeta potentials (mV), the foulant
      radius (nm), the ionic strength (mol/L) and the temperature (K). */
  datatype SystemParams = SystemParams(
    lw: real, plus: real, minus: real,
    zetaM: real, zetaF: real,
    radius: real, ionicStrength: real, temperature: real)

  /** The foulant's surface-energy components and zeta potential. */
  datatype Foulant = Foulant(lw: real, plus: real, minus: real, zetaF: real, radius: real)

  /** The free-energy components. EL, and with it TOT, may be infinite or NaN,
      as the hyperbolic functions and a division by ζ_m² + ζ_f² can make them. */
  datatype GibbsEnergies = GibbsEnergies(lw: real, ab: real, el: XReal, adh: real, tot: XReal)

  /** ΔG_LW = −2(√γ_m − √γ_w)(√γ_f − √γ_w) of the three LW components. */
  function LwContact(m: MathLib, membraneLw: real, foulantLw: real, waterLw: real): real
  {
    -2.0 * (m.sqrt(membraneLw) - m.sqrt(waterLw)) * (m.sqrt(foulantLw) - m.sqrt(waterLw))
  }

  /** With a true square root, ΔG_LW is attractive (≤ 0) when the membrane and
      the foulant both lie on the same side of water in γ_LW, and repulsive
      (≥ 0) when water lies between them; it vanishes when either matches water. */
  lemma LwContactSign(m: MathLib, membraneLw: real, foulantLw: real, waterLw: real)
    requires SqrtLaws(m) && membraneLw >= 0.0 && foulantLw >= 0.0 && waterLw >= 0.0
    ensures ((membraneLw >= waterLw && foulantLw >= waterLw) || (membraneLw <= waterLw && foulantLw <= waterLw))
              ==> LwContact(m, membraneLw, foulantLw, waterLw) <= 0.0
    ensures ((membraneLw >= waterLw && foulantLw <= waterLw) || (membraneLw <= waterLw && foulantLw >= waterLw))
              ==> LwContact(m, membraneLw, foulantLw, waterLw) >= 0.0
    ensures (membraneLw == waterLw || foulantLw == waterLw) ==> LwContact(m, membraneLw, foulantLw, waterLw) == 0.0
  {
    var a := m.sqrt(membraneLw) - m.sqrt(waterLw);
    var b := m.sqrt(foulantLw) - m.sqrt(waterLw);
    RootOrder(m, membraneLw, waterLw);
    RootOrder(m, foulantLw, waterLw);
    SignOfProduct(a, b);
  }

  /** Under the square-root laws, roots of non-negative numbers are ordered as
      the numbers are. */
  lemma RootOrder(m: MathLib, v: real, w: real)
    requires SqrtLaws(m) && v >= 0.0 && w >= 0.0
    ensures v < w ==> m.sqrt(v) < m.sqrt(w)
    ensures v > w ==> m.sqrt(v) > m.sqrt(w)
  {
    if v < w {
      SqrtStrictlyIncreasing(m, v, w);
    } else if w < v {
      SqrtStrictlyIncreasing(m, w, v);
    }
  }

  lemma SignOfProduct(a: real, b: real)
    ensures ((a >= 0.0 && b >= 0.0) || (a <= 0.0 && b <= 0.0)) ==> -2.0 * a * b <= 0.0
    ensures ((a >= 0.0 && b <= 0.0) || (a <= 0.0 && b >= 0.0)) ==> -2.0 * a * b >= 0.0
  {
    if a >= 0.0 && b >= 0.0 {
      assert a * b >= 0.0;
    } else if a <= 0.0 && b <= 0.0 {
      assert (-a) * (-b) >= 0.0;
    }
    if a >= 0.0 && b <= 0.0 {
      assert a * (-b) >= 0.0;
    } else if a <= 0.0 && b >= 0.0 {
      assert (-a) * b >= 0.0;
    }
  }

  /** ΔG_AB as the calculator computes it: the factor of the acceptor term is
      √γ_w⁻, and γ_w⁻ is also what is subtracted inside it. */
  function AcidBaseContact(m: MathLib, water: Liquid, mPlus: real, mMinus: real, fPlus: real, fMinus: real): real
  {
    2.0 * m.sqrt(water.minus) * (m.sqrt(fMinus) + m.sqrt(mMinus) - m.sqrt(water.minus))
    + 2.0 * m.sqrt(water.minus) * (m.sqrt(fPlus) + m.sqrt(mPlus) - m.sqrt(water.minus))
    - 2.0 * GeometricMean(m, fMinus, mPlus)
    - 2.0 * GeometricMean(m, fPlus, mMinus)
  }

  /** The van Oss combining rule for ΔG_AB, with the water acceptor and donor
      components each in their own place. */
  function VanOssAcidBase(m: MathLib, water: Liquid, mPlus: real, mMinus: real, fPlus: real, fMinus: real): real
  {
    2.0 * m.sqrt(water.plus) * (m.sqrt(fMinus) + m.sqrt(mMinus) - m.sqrt(water.minus))
    + 2.0 * m.sqrt(water.minus) * (m.sqrt(fPlus) + m.sqrt(mPlus) - m.sqrt(water.plus))
    - 2.0 * GeometricMean(m, fMinus, mPlus)
    - 2.0 * GeometricMean(m, fPlus, mMinus)
  }

  /** For a liquid whose acceptor and donor components are equal, as those of
      water are in the calculator's parameters (25.5 and 25.5), the computed
      ΔG_AB is the van Oss one; for any other liquid the two differ by
      2(√γ_w⁻ − √γ_w⁺)(√γ_f⁻ + √γ_m⁻ − 2√γ_w⁻). */
  lemma AcidBaseAgreesWithVanOss(m: MathLib, water: Liquid, mPlus: real, mMinus: real, fPlus: real, fMinus: real)
    ensures AcidBaseContact(m, water, mPlus, mMinus, fPlus, fMinus) - VanOssAcidBase(m, water, mPlus, mMinus, fPlus, fMinus)
            == 2.0 * (m.sqrt(water.minus) - m.sqrt(water.plus))
               * (m.sqrt(fMinus) + m.sqrt(mMinus) - 2.0 * m.sqrt(water.minus))
    ensures water.plus == water.minus ==>
              AcidBaseContact(m, water, mPlus, mMinus, fPlus, fMinus) == VanOssAcidBase(m, water, mPlus, mMinus, fPlus, fMinus)
  {
    var wp, wm := m.sqrt(water.plus), m.sqrt(water.minus);
    var fp, fm, mp, mm := m.sqrt(fPlus), m.sqrt(fMinus), m.sqrt(mPlus), m.sqrt(mMinus);
    DifferenceOfAcidBase(wp, wm, fp, fm, mp, mm);
  }

  lemma DifferenceOfAcidBase(wp: real, wm: real, fp: real, fm: real, mp: real, mm: real)
    ensures (2.0 * wm * (fm + mm - wm) + 2.0 * wm * (fp + mp - wm))
            - (2.0 * wp * (fm + mm - wm) + 2.0 * wm * (fp + mp - wp))
            == 2.0 * (wm - wp) * (fm + mm - 2.0 * wm)
  {
  }

  /** ΔG_EL exactly as written:
      (κ·ε₀·ε_r/2)·(ζ_m² + ζ_f²)·(1 − coth + 2·ζ_f·ζ_m·csch/(ζ_m² + ζ_f²))·10⁶,
      with `kappa` the inverse Debye length, `eps` the relative permittivity
      and `pair` coth and csch of κ·h₀. */
  function ElectrostaticContactAsWritten(kappa: real, eps: real, zetaM: real, zetaF: real, pair: HypPair): XReal
  {
    var sum2 := zetaM * zetaM + zetaF * zetaF;
    var inner := XAdd(XSub(Fin(1.0), pair.coth), XDiv(XMul(Fin(2.0 * zetaF * zetaM), pair.csch), Fin(sum2)));
    XMul(XMul(Fin(kappa * VacuumPermittivity * eps / 2.0 * sum2), inner), Fin(1e6))
  }

  /** Two uncharged surfaces (ζ_m = ζ_f = 0, values the calculator accepts)
      make the formula divide 0 by 0: ΔG_EL, and with it ΔG_TOT, is NaN
      whatever κ and the hyperbolic pair are. */
  lemma UnchargedContactIsNaN(kappa: real, eps: real, pair: HypPair, adh: real)
    ensures ElectrostaticContactAsWritten(kappa, eps, 0.0, 0.0, pair) == NaN
    ensures XAdd(Fin(adh), ElectrostaticContactAsWritten(kappa, eps, 0.0, 0.0, pair)) == NaN
  {
    var product := XMul(Fin(2.0 * 0.0 * 0.0), pair.csch);
    assert product == Fin(0.0) || product == NaN;
    var quotient := XDiv(product, Fin(0.0 * 0.0 + 0.0 * 0.0));
    assert quotient == NaN;
  }

  /** ΔG_EL with the uncharged case taken out: 0 when ζ_m² + ζ_f² = 0,
      otherwise the formula as written. */
  function ElectrostaticContact(kappa: real, eps: real, zetaM: real, zetaF: real, pair: HypPair): (r: XReal)
    ensures zetaM * zetaM + zetaF * zetaF != 0.0 ==> r == ElectrostaticContactAsWritten(kappa, eps, zetaM, zetaF, pair)
    ensures zetaM == 0.0 && zetaF == 0.0 ==> r == Fin(0.0)
  {
    if zetaM * zetaM + zetaF * zetaF == 0.0 then Fin(0.0)
    else ElectrostaticContactAsWritten(kappa, eps, zetaM, zetaF, pair)
  }

  /** With finite coth and csch the corrected ΔG_EL is the continuous
      expression (κ·ε₀·ε_r/2)·((ζ_m² + ζ_f²)(1 − coth) + 2ζ_fζ_m·csch)·10⁶,
      which is 0 for uncharged surfaces. */
  lemma ElectrostaticContactClosedForm(kappa: real, eps: real, zetaM: real, zetaF: real, pair: HypPair)
    requires pair.coth.Fin? && pair.csch.Fin?
    ensures ElectrostaticContact(kappa, eps, zetaM, zetaF, pair)
            == Fin(kappa * VacuumPermittivity * eps / 2.0
                   * ((zetaM * zetaM + zetaF * zetaF) * (1.0 - pair.coth.r) + 2.0 * zetaF * zetaM * pair.csch.r)
                   * 1e6)
  {
    var p := kappa * VacuumPermittivity * eps / 2.0;
    var sum2 := zetaM * zetaM + zetaF * zetaF;
    var c, x := pair.coth.r, pair.csch.r;
    if sum2 == 0.0 {
      ZeroSumOfSquares(zetaM, zetaF);
    } else {
      var q := 2.0 * zetaF * zetaM;
      var inner := XAdd(XSub(Fin(1.0), pair.coth), XDiv(XMul(Fin(q), pair.csch), Fin(sum2)));
      assert inner == Fin((1.0 - c) + q * x / sum2);
      ClosedForm(p, sum2, c, q, x);
    }
  }

  lemma ZeroSumOfSquares(a: real, b: real)
    requires a * a + b * b == 0.0
    ensures a == 0.0 && b == 0.0
  {
    assert a * a >= 0.0 && b * b >= 0.0;
    assert Abs(a) * Abs(a) == 0.0 * 0.0 && Abs(b) * Abs(b) == 0.0 * 0.0;
    NonNegativeRootUnique(Abs(a), 0.0);
    NonNegativeRootUnique(Abs(b), 0.0);
  }

  /** `p·s·((1 − c) + q·x/s)·10⁶ = p·(s(1 − c) + q·x)·10⁶` for `s ≠ 0`. */
  lemma ClosedForm(p: real, s: real, c: real, q: real, x: real)
    requires s != 0.0
    ensures p * s * ((1.0 - c) + q * x / s) * 1e6 == p * (s * (1.0 - c) + q * x) * 1e6
  {
    assert s * (q * x / s) == q * x;
    assert s * ((1.0 - c) + q * x / s) == s * (1.0 - c) + q * x;
  }

  /** The five free energies from their three components: ADH leaves EL out,
      TOT adds it, and TOT is not finite when EL is not. */
  function Assemble(lw: real, ab: real, el: XReal): (r: GibbsEnergies)
    ensures r.lw == lw && r.ab == ab && r.el == el && r.adh == lw + ab
    ensures r.tot.Fin? <==> el.Fin?
    ensures el.Fin? ==> r.tot == Fin(lw + ab + el.r)
    ensures !el.Fin? ==> r.tot == el
  {
    XAddFinite(lw + ab, el);
    GibbsEnergies(lw, ab, el, lw + ab, XAdd(Fin(lw + ab), el))
  }

  /** The inverse Debye length κ of a run, from the membrane-side ionic
      strength and temperature. */
  function Kappa(m: MathLib, membrane: SystemParams): real
    requires 273.0 <= membrane.temperature <= 373.0
  {
    DebyeLength(m, membrane.ionicStrength, membrane.temperature)
  }

  /** The free energies at contact, as the calculator computes them. Water
      is the calculator's water. ΔG_EL is the formula as written, so it is
      NaN for uncharged surfaces, and so is TOT. */
  function DeltaG(m: MathLib, membrane: SystemParams, foulant: Foulant): (r: GibbsEnergies)
    requires 273.0 <= membrane.temperature <= 373.0
    ensures r.lw == LwContact(m, membrane.lw, foulant.lw, Water.lw)
    ensures r.ab == AcidBaseContact(m, Water, membrane.plus, membrane.minus, foulant.plus, foulant.minus)
    ensures r.el == ElectrostaticContactAsWritten(
                      Kappa(m, membrane), WaterDielectric(membrane.temperature), membrane.zetaM, foulant.zetaF,
                      Hyperbolics(m, Kappa(m, membrane) * H0))
    ensures r.adh == r.lw + r.ab
    ensures r.tot.Fin? <==> r.el.Fin?
    ensures r.el.Fin? ==> r.tot == Fin(r.lw + r.ab + r.el.r)
    ensures r.el.NaN? ==> r.tot.NaN?
  {
    var kappa := Kappa(m, membrane);
    Assemble(LwContact(m, membrane.lw, foulant.lw, Water.lw),
             AcidBaseContact(m, Water, membrane.plus, membrane.minus, foulant.plus, foulant.minus),
             ElectrostaticContactAsWritten(kappa, WaterDielectric(membrane.temperature),
                                           membrane.zetaM, foulant.zetaF, Hyperbolics(m, kappa * H0)))
  }

  /** As computed, two uncharged surfaces give NaN for ΔG_EL and for ΔG_TOT,
      while LW, AB and ADH stay finite. */
  lemma UnchargedDeltaGIsNaN(m: MathLib, membrane: SystemParams, foulant: Foulant)
    requires 273.0 <= membrane.temperature <= 373.0
    requires membrane.zetaM == 0.0 && foulant.zetaF == 0.0
    ensures DeltaG(m, membrane, foulant).el == NaN
    ensures DeltaG(m, membrane, foulant).tot == NaN
  {
    var kappa := Kappa(m, membrane);
    UnchargedContactIsNaN(kappa, WaterDielectric(membrane.temperature), Hyperbolics(m, kappa * H0),
                          DeltaG(m, membrane, foulant).adh);
  }

  /** The free energies with the uncharged case of ΔG_EL corrected: the same
      as `DeltaG` for charged surfaces, and with ΔG_EL = 0 when both zeta
      potentials are zero. */
  function DeltaGCorrected(m: MathLib, membrane: SystemParams, foulant: Foulant): (r: GibbsEnergies)
    requires 273.0 <= membrane.temperature <= 373.0
    ensures r.lw == DeltaG(m, membrane, foulant).lw && r.ab == DeltaG(m, membrane, foulant).ab
    ensures r.adh == r.lw + r.ab
    ensures r.el == ElectrostaticContact(
                      Kappa(m, membrane), WaterDielectric(membrane.temperature), membrane.zetaM, foulant.zetaF,
                      Hyperbolics(m, Kappa(m, membrane) * H0))
    ensures r.tot.Fin? <==> r.el.Fin?
    ensures r.el.Fin? ==> r.tot == Fin(r.lw + r.ab + r.el.r)
    ensures membrane.zetaM * membrane.zetaM + foulant.zetaF * foulant.zetaF != 0.0 ==> r == DeltaG(m, membrane, foulant)
  {
    var computed := DeltaG(m, membrane, foulant);
    var kappa := Kappa(m, membrane);
    var el := ElectrostaticContact(kappa, WaterDielectric(membrane.temperature),
                                   membrane.zetaM, foulant.zetaF, Hyperbolics(m, kappa * H0));
    if membrane.zetaM * membrane.zetaM + foulant.zetaF * foulant.zetaF != 0.0 then computed
    else Assemble(computed.lw, computed.ab, el)
  }

  /** Corrected, uncharged surfaces contribute no double-layer energy:
      ΔG_EL = 0 and ΔG_TOT = ΔG_ADH. */
  lemma UnchargedDeltaG(m: MathLib, membrane: SystemParams, foulant: Foulant)
    requires 273.0 <= membrane.temperature <= 373.0
    requires membrane.zetaM == 0.0 && foulant.zetaF == 0.0
    ensures DeltaGCorrected(m, membrane, foulant).el == Fin(0.0)
    ensures DeltaGCorrected(m, membrane, foulant).tot == Fin(DeltaGCorrected(m, membrane, foulant).adh)
  {
  }

  /** The calculator's water has equal acceptor and donor components, so the
      ΔG_AB it computes is the van Oss one. */
  lemma DeltaGAcidBaseIsVanOss(m: MathLib, membrane: SystemParams, foulant: Foulant)
    requires 273.0 <= membrane.temperature <= 373.0
    ensures DeltaG(m, membrane, foulant).ab
            == VanOssAcidBase(m, Water, membrane.plus, membrane.minus, foulant.plus, foulant.minus)
  {
    AcidBaseAgreesWithVanOss(m, Water, membrane.plus, membrane.minus, foulant.plus, foulant.minus);
  }

  /** Exchanging the roles of membrane and foulant (their surface-energy
      components and zeta potentials) leaves every free-energy component
      unchanged. */
  lemma DeltaGSymmetric(m: MathLib, membrane: SystemParams, foulant: Foulant)
    requires 273.0 <= membrane.temperature <= 373.0
    ensures var swappedMembrane := membrane.(lw := foulant.lw, plus := foulant.plus, minus := foulant.minus, zetaM := foulant.zetaF);
            var swappedFoulant := foulant.(lw := membrane.lw, plus := membrane.plus, minus := membrane.minus, zetaF := membrane.zetaM);
            DeltaG(m, swappedMembrane, swappedFoulant) == DeltaG(m, membrane, foulant)
  {
    var kappa := Kappa(m, membrane);
    var pair := Hyperbolics(m, kappa * H0);
    var eps := WaterDielectric(membrane.temperature);
    LwContactSymmetric(m, membrane.lw, foulant.lw, Water.lw);
    AcidBaseContactSymmetric(m, Water, membrane.plus, membrane.minus, foulant.plus, foulant.minus);
    ElectrostaticContactSymmetric(kappa, eps, membrane.zetaM, foulant.zetaF, pair);
  }

  lemma LwContactSymmetric(m: MathLib, a: real, b: real, w: real)
    ensures LwContact(m, a, b, w) == LwContact(m, b, a, w)
  {
  }

  lemma AcidBaseContactSymmetric(m: MathLib, water: Liquid, mPlus: real, mMinus: real, fPlus: real, fMinus: real)
    ensures AcidBaseContact(m, water, mPlus, mMinus, fPlus, fMinus) == AcidBaseContact(m, water, fPlus, fMinus, mPlus, mMinus)
  {
    GeometricMeanSymmetric(m, fMinus, mPlus);
    GeometricMeanSymmetric(m, fPlus, mMinus);
  }

  lemma ElectrostaticContactSymmetric(kappa: real, eps: real, zetaM: real, zetaF: real, pair: HypPair)
    ensures ElectrostaticContactAsWritten(kappa, eps, zetaM, zetaF, pair)
            == ElectrostaticContactAsWritten(kappa, eps, zetaF, zetaM, pair)
  {
    assert zetaF * zetaF + zetaM * zetaM == zetaM * zetaM + zetaF * zetaF;
    assert 2.0 * zetaM * zetaF == 2.0 * zetaF * zetaM;
  }
}
