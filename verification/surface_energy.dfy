/** Surface energy solver: the van Oss–Chaudhury–Good three-liquid method.

    The non-polar probe liquid gives the Lifshitz–van der Waals component
    directly; the two polar probe liquids give a 2×2 linear system in the
    square roots of the electron-acceptor (plus) and electron-donor (minus)
    components, solved by Cramer's rule.
 */
module SurfaceEnergy {
  import opened Numerics
  import opened Utilities

  /** Surface-tension components of a probe liquid (mJ/m²). */
  datatype Liquid = Liquid(lw: real, plus: real, minus: real)

  /** The decomposition of one material's surface energy. */
  datatype SurfaceEnergy = SurfaceEnergy(lw: real, plus: real, minus: real, ab: real, total: real)

  /** The polar liquids are too similar in acid-base character. */
  datatype NumericalError = IllConditioned

  /** Smallest determinant magnitude the solver accepts. */
  const DetThreshold: real := 1e-10

  /** `a11·x + a12·y = c1`, `a21·x + a22·y = c2`. */
  datatype LinearSystem = LinearSystem(a11: real, a12: real, a21: real, a22: real, c1: real, c2: real)

  function Determinant(s: LinearSystem): real
  {
    s.a11 * s.a22 - s.a12 * s.a21
  }

  predicate Solves(s: LinearSystem, x: real, y: real)
  {
    s.a11 * x + s.a12 * y == s.c1 && s.a21 * x + s.a22 * y == s.c2
  }

  /** Cramer's rule, refused when the determinant is nearly zero. Otherwise the
      pair returned is the one and only solution of the system. */
  function SolveCramer(s: LinearSystem): (r: Option<(real, real)>)
    ensures r.None? <==> Abs(Determinant(s)) < DetThreshold
    ensures r.Some? ==> Solves(s, r.value.0, r.value.1)
    ensures r.Some? ==> forall x, y :: Solves(s, x, y) ==> x == r.value.0 && y == r.value.1
  {
    var det := Determinant(s);
    if Abs(det) < DetThreshold then None
    else
      var x := (s.c1 * s.a22 - s.c2 * s.a12) / det;
      var y := (s.a11 * s.c2 - s.a21 * s.c1) / det;
      CramerSolves(s, x, y);
      forall x', y' | Solves(s, x', y') ensures x' == x && y' == y {
        CramerUnique(s, x', y');
      }
      Some((x, y))
  }

  lemma CramerSolves(s: LinearSystem, x: real, y: real)
    requires Determinant(s) != 0.0
    requires x == (s.c1 * s.a22 - s.c2 * s.a12) / Determinant(s)
    requires y == (s.a11 * s.c2 - s.a21 * s.c1) / Determinant(s)
    ensures Solves(s, x, y)
  {
    var d := Determinant(s);
    assert x * d == s.c1 * s.a22 - s.c2 * s.a12;
    assert y * d == s.a11 * s.c2 - s.a21 * s.c1;
    assert (s.a11 * x + s.a12 * y) * d == s.c1 * d by {
      calc {
        (s.a11 * x + s.a12 * y) * d;
        s.a11 * (x * d) + s.a12 * (y * d);
        s.a11 * (s.c1 * s.a22 - s.c2 * s.a12) + s.a12 * (s.a11 * s.c2 - s.a21 * s.c1);
        s.c1 * d;
      }
    }
    assert (s.a21 * x + s.a22 * y) * d == s.c2 * d by {
      calc {
        (s.a21 * x + s.a22 * y) * d;
        s.a21 * (x * d) + s.a22 * (y * d);
        s.a21 * (s.c1 * s.a22 - s.c2 * s.a12) + s.a22 * (s.a11 * s.c2 - s.a21 * s.c1);
        s.c2 * d;
      }
    }
    CancelNonZero(s.a11 * x + s.a12 * y, s.c1, d);
    CancelNonZero(s.a21 * x + s.a22 * y, s.c2, d);
  }

  lemma CramerUnique(s: LinearSystem, x: real, y: real)
    requires Determinant(s) != 0.0 && Solves(s, x, y)
    ensures x == (s.c1 * s.a22 - s.c2 * s.a12) / Determinant(s)
    ensures y == (s.a11 * s.c2 - s.a21 * s.c1) / Determinant(s)
  {
    var d := Determinant(s);
    assert x * d == s.c1 * s.a22 - s.c2 * s.a12 by {
      calc {
        s.c1 * s.a22 - s.c2 * s.a12;
        (s.a11 * x + s.a12 * y) * s.a22 - (s.a21 * x + s.a22 * y) * s.a12;
        x * d;
      }
    }
    assert y * d == s.a11 * s.c2 - s.a21 * s.c1 by {
      calc {
        s.a11 * s.c2 - s.a21 * s.c1;
        s.a11 * (s.a21 * x + s.a22 * y) - s.a21 * (s.a11 * x + s.a12 * y);
        y * d;
      }
    }
    DivideBack(x, s.c1 * s.a22 - s.c2 * s.a12, d);
    DivideBack(y, s.a11 * s.c2 - s.a21 * s.c1, d);
  }

  lemma CancelNonZero(a: real, b: real, d: real)
    requires d != 0.0 && a * d == b * d
    ensures a == b
  {
    assert (a - b) * d == 0.0;
  }

  lemma DivideBack(x: real, p: real, d: real)
    requires d != 0.0 && x * d == p
    ensures x == p / d
  {
  }

  /** γ_LW of the solid from the non-polar liquid:
      γ_LW = (γ_l·(1 + cos θ) / (2·√γ_l))². */
  function LwFromNonPolar(m: MathLib, theta: real, liquid: Liquid): (r: real)
    requires m.sqrt(liquid.lw) != 0.0
    ensures r >= 0.0
  {
    var root := liquid.lw * (1.0 + m.cos(Rad(m, theta))) / (2.0 * m.sqrt(liquid.lw));
    root * root
  }

  /** With a true square root, a positive liquid component and a non-negative
      `1 + cos θ`, γ_LW satisfies the Young–Dupré equation of the non-polar
      liquid: γ_l·(1 + cos θ) = 2·√(γ_LW·γ_l). */
  lemma LwSatisfiesYoungDupre(m: MathLib, theta: real, liquid: Liquid)
    requires SqrtLaws(m) && liquid.lw > 0.0 && 1.0 + m.cos(Rad(m, theta)) >= 0.0
    ensures m.sqrt(liquid.lw) != 0.0
    ensures liquid.lw * (1.0 + m.cos(Rad(m, theta))) == 2.0 * GeometricMean(m, liquid.lw, LwFromNonPolar(m, theta, liquid))
  {
    var c := 1.0 + m.cos(Rad(m, theta));
    var s := m.sqrt(liquid.lw);
    SqrtOf(m, liquid.lw);
    var root := liquid.lw * c / (2.0 * s);
    HalfRootArithmetic(liquid.lw, c, s, root);
    GeometricMeanOfSquareRight(m, root, liquid.lw, LwFromNonPolar(m, theta, liquid));
  }

  /** With `s = √γ_l > 0` and `c >= 0`, `root = γ_l·c/(2s)` is non-negative
      and `2·root·s = γ_l·c`. */
  lemma HalfRootArithmetic(lw: real, c: real, s: real, root: real)
    requires lw > 0.0 && s >= 0.0 && s * s == lw && c >= 0.0
    requires root == lw * c / (2.0 * s)
    ensures s != 0.0 && root >= 0.0 && 2.0 * (root * s) == lw * c
  {
    assert s != 0.0;
    assert root == s * c / 2.0 by {
      assert lw * c == (s * c / 2.0) * (2.0 * s);
    }
  }

  /** The 2×2 system of the two polar liquids, in the unknowns √γ⁺ and √γ⁻
      of the solid. */
  function PolarSystem(m: MathLib, thetaWater: real, thetaForm: real, water: Liquid, form: Liquid, lw: real): LinearSystem
  {
    LinearSystem(
      m.sqrt(water.minus), m.sqrt(water.plus),
      m.sqrt(form.plus), m.sqrt(form.minus),
      AdhesionWork(m, thetaWater, water) - GeometricMean(m, water.lw, lw),
      AdhesionWork(m, thetaForm, form) - GeometricMean(m, form.lw, lw))
  }

  /** Half the work of adhesion of a liquid on the solid, γ_l·(1 + cos θ)/2,
      with the liquid's total γ_l = γ_LW + 2·√(γ⁺·γ⁻). */
  function AdhesionWork(m: MathLib, theta: real, liquid: Liquid): real
  {
    (liquid.lw + AcidBase(m, liquid.plus, liquid.minus)) * (1.0 + m.cos(Rad(m, theta))) / 2.0
  }

  /** The acid-base component 2·√(γ⁺·γ⁻). */
  function AcidBase(m: MathLib, plus: real, minus: real): real
  {
    2.0 * GeometricMean(m, plus, minus)
  }

  /** Surface-energy components of a solid from three contact angles (degrees).
      Fails when the polar system is ill-conditioned; otherwise γ⁺ and γ⁻ are
      the squares of the system's solution, γ_AB = 2·√(γ⁺·γ⁻) and
      γ_total = γ_LW + γ_AB. */
  function SurfaceEnergyFromContactAngles(
    m: MathLib, thetaDiiodo: real, thetaWater: real, thetaForm: real,
    diiodo: Liquid, water: Liquid, form: Liquid): (r: Result<SurfaceEnergy, NumericalError>)
    requires m.sqrt(diiodo.lw) != 0.0
    ensures var sys := PolarSystem(m, thetaWater, thetaForm, water, form, LwFromNonPolar(m, thetaDiiodo, diiodo));
            && (r.Err? <==> Abs(Determinant(sys)) < DetThreshold)
            && (r.Ok? ==> exists x, y :: Solves(sys, x, y) && r.value.plus == x * x && r.value.minus == y * y)
    ensures r.Ok? ==>
              && r.value.lw == LwFromNonPolar(m, thetaDiiodo, diiodo)
              && r.value.plus >= 0.0 && r.value.minus >= 0.0
              && r.value.ab == AcidBase(m, r.value.plus, r.value.minus)
              && r.value.total == r.value.lw + r.value.ab
  {
    var lw := LwFromNonPolar(m, thetaDiiodo, diiodo);
    var sys := PolarSystem(m, thetaWater, thetaForm, water, form, lw);
    match SolveCramer(sys)
    case None => Err(IllConditioned)
    case Some((x, y)) =>
      var plus := x * x;
      var minus := y * y;
      var ab := AcidBase(m, plus, minus);
      Ok(SurfaceEnergy(lw, plus, minus, ab, lw + ab))
  }

  /** Under the square-root laws, γ_AB is twice the magnitude of the product of
      the two solved roots, whatever their signs. */
  lemma AcidBaseFromRoots(m: MathLib, x: real, y: real, plus: real, minus: real)
    requires SqrtLaws(m) && plus == x * x && minus == y * y
    ensures AcidBase(m, plus, minus) == 2.0 * Abs(x * y)
  {
    SqrtOfSquare(m, y, minus);
    GeometricMeanOfSquare(m, x, plus, minus);
    assert Abs(x) * Abs(y) == Abs(x * y);
  }

  /** When both solved roots are non-negative (a physically consistent
      measurement) and the square-root laws hold, the stored components
      γ⁺ = x² and γ⁻ = y² satisfy the Young–Dupré equation of the first polar
      liquid: γ_l·(1 + cos θ)/2 = √(γ_LW·γ_l^LW) + √(γ⁺·γ_l⁻) + √(γ⁻·γ_l⁺). */
  lemma PolarYoungDupre(m: MathLib, thetaWater: real, thetaForm: real, water: Liquid, form: Liquid, lw: real,
                        x: real, y: real, plus: real, minus: real)
    requires SqrtLaws(m) && water.plus >= 0.0 && water.minus >= 0.0
    requires x >= 0.0 && y >= 0.0 && plus == x * x && minus == y * y
    requires Solves(PolarSystem(m, thetaWater, thetaForm, water, form, lw), x, y)
    ensures AdhesionWork(m, thetaWater, water)
            == GeometricMean(m, water.lw, lw) + GeometricMean(m, plus, water.minus) + GeometricMean(m, minus, water.plus)
  {
    var sys := PolarSystem(m, thetaWater, thetaForm, water, form, lw);
    RowAsRoots(m, water.minus, water.plus, x, y, sys.c1, plus, minus);
  }

  /** A row `√u·x + √v·y = c` with non-negative `x` and `y` reads
      `c = √(x²·u) + √(y²·v)`. */
  lemma RowAsRoots(m: MathLib, u: real, v: real, x: real, y: real, c: real, plus: real, minus: real)
    requires SqrtLaws(m) && u >= 0.0 && v >= 0.0 && x >= 0.0 && y >= 0.0
    requires plus == x * x && minus == y * y
    requires m.sqrt(u) * x + m.sqrt(v) * y == c
    ensures c == GeometricMean(m, plus, u) + GeometricMean(m, minus, v)
  {
    GeometricMeanOfSquare(m, x, plus, u);
    GeometricMeanOfSquare(m, y, minus, v);
  }

  /** Two identical polar liquids make the system singular exactly when the
      liquid's two polar components are (almost) equal; identical liquids with
      distinct components are accepted. */
  lemma IdenticalPolarLiquids(m: MathLib, thetaDiiodo: real, thetaWater: real, thetaForm: real, diiodo: Liquid, liquid: Liquid)
    requires SqrtLaws(m) && m.sqrt(diiodo.lw) != 0.0
    requires liquid.plus >= 0.0 && liquid.minus >= 0.0
    ensures SurfaceEnergyFromContactAngles(m, thetaDiiodo, thetaWater, thetaForm, diiodo, liquid, liquid).Err?
            <==> Abs(liquid.minus - liquid.plus) < DetThreshold
  {
    var sys := PolarSystem(m, thetaWater, thetaForm, liquid, liquid, LwFromNonPolar(m, thetaDiiodo, diiodo));
    assert Determinant(sys) == liquid.minus - liquid.plus by {
      SqrtOf(m, liquid.minus);
      SqrtOf(m, liquid.plus);
    }
  }
}
