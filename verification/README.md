# XDLVO interaction model in Dafny

This project models the computational core of the XDLVO Theory Calculator. The
calculator is a browser tool for membrane fouling analysis. It works in four stages:

1. From contact angles of three probe liquids (diiodomethane, water, formamide) it
   derives the surface-energy components of a surface. These are the Lifshitz–van der
   Waals part γ_LW, the electron-acceptor part γ⁺, the electron-donor part γ⁻, the
   acid–base part γ_AB and the total.
2. From the membrane and foulant components, the zeta potentials, the ionic strength and
   the temperature, it computes the free energies of adhesion at contact, ΔG_LW, ΔG_AB and
   ΔG_EL.
3. It builds interaction-energy profiles U(h) between a spherical foulant and a flat
   membrane, on the distance grid 0.15 nm … 25 nm.
4. It analyses those profiles: the energy barrier, the primary and secondary minima, the
   force F = −dU/dh and the zero crossings. A small piece of the controller then
   validates inputs, interpolates energy and force at any distance, moves the particle
   in the drag and animation loops, and picks SI prefixes for display.

Modules:

- `Numerics` covers JavaScript numbers, as `XReal` with NaN and ±Infinity, plus the
  square-root and hyperbolic laws.
  - The transcendental functions of `Math` are parameters (`MathLib`).
  - A lemma that needs a property of one of them says so in a `requires` (`SqrtLaws`,
    `HyperbolicLaws`).
- `Utilities` holds the tolerance comparisons, `rad`, the numerically stable `coth`/`csch`
  pair, the closest-index search and `energyAtDistance`.
- `SurfaceEnergy` is the contact-angle inversion: the Young–Dupré equations and the 2×2
  Cramer solve, with its ill-conditioning error as a `Result`.
- `Physics` holds the constants, the water dielectric constant and the inverse Debye
  length κ.
- `ContactEnergy` holds ΔG_LW, ΔG_AB and ΔG_EL at contact.
- `Profile` holds the distance grid and the energy profiles U_LW, U_AB, U_EL and U_TOT.
- `Analysis` holds the barrier, the minima, the force and the zero crossings.
- `Controller` holds input validation, interpolation, and the drag and animation state as
  a class.

Points where the code behaves differently from what its comments or names suggest:

- **Ill-conditioned probe liquids.** The inversion rejects a pair of polar liquids only
  when the determinant of the 2×2 system is within 1e-10 of zero. For two copies of the
  same liquid the determinant is γ⁻ − γ⁺. So the repository's test at
  tests/__tests__/xdlvo-model.test.js:108-117, which repeats a water-like liquid with γ⁺ = γ⁻ = 25.5, is rejected (`Physics.IdenticalWaterRejected`).
  A repeated liquid whose two polar components differ is accepted
  (`SurfaceEnergy.IdenticalPolarLiquids`). The built-in formamide and water are never
  rejected (`Physics.BuiltInLiquidsWellConditioned`).
- **Ties in `findClosestIndex`.** The final comparison at src/xdlvo-model.js:47 uses
  `<=`, so when both ends of the bracket are equally close the lower index is returned
  (`Utilities.FindClosestIndex`).
- **Sign of ΔG_LW.** The source comments call ΔG_LW "always attractive". The formula is
  positive (repulsive) whenever water's γ_LW lies between the membrane's and the foulant's
  (`ContactEnergy.LwContactSign`).
- **ΔG_AB formula.** The code puts √γ_w⁻ where the van Oss formula has √γ_w⁺. The two
  agree exactly for the built-in water, whose γ⁺ equals γ⁻
  (`ContactEnergy.AcidBaseAgreesWithVanOss`, `ContactEnergy.DeltaGAcidBaseIsVanOss`).

## Model

| member | source | states |
|---|---|---|
| Utilities.AlmostEqual | src/xdlvo-model.js:78-80 | a and b are almost equal exactly when a lies strictly within eps of b |
| Utilities.AlmostLE | src/xdlvo-model.js:82-84 | almost-at-most holds exactly when a < b + eps (a < b when eps is not positive) |
| Utilities.AlmostGE | src/xdlvo-model.js:86-88 | almost-at-least holds exactly when a > b − eps (a > b when eps is not positive) |
| Utilities.AlmostBothWays | src/xdlvo-model.js:78-88 | for positive eps, almost ≤ and almost ≥ together are the same as almost equal, and almost-equality is symmetric |
| Utilities.Rad | src/xdlvo-model.js:90-92 | the radian value times 180 equals the degree value times π |
| Utilities.Hyperbolics | src/xdlvo-model.js:52-75 | at 0 both coth and csch are +Infinity; for 0 < \|x\| < 1e-10 the series values satisfy x·coth = 1 + x²/3 and coth − csch = x/2; for \|x\| > 20 coth is ±1 and csch is 0; otherwise coth and csch are finite exactly when tanh and sinh are non-zero, and are then their reciprocals |
| Utilities.HyperbolicsOdd | src/xdlvo-model.js:52-75 | if tanh and sinh are odd and vanish only at 0, then at any x ≠ 0 the pair is finite and negating x negates both values |
| Utilities.FindClosestIndex | src/xdlvo-model.js:36-48 | −1 for an empty array; 0 at or below the first entry; the last index at or above the last entry; otherwise an exact hit or the nearer end of a bracket, ties to the lower; on a non-decreasing array the index is always a nearest one |
| Utilities.NearestWhenBelow | src/xdlvo-model.js:38 | on a non-decreasing array, a target at or below the first entry is nearest to index 0 |
| Utilities.NearestWhenAbove | src/xdlvo-model.js:39 | on a non-decreasing array, a target at or above the last entry is nearest to the last index |
| Utilities.NearestWhenBracketed | src/xdlvo-model.js:41-47 | on a non-decreasing array, the end the search picks from a bracket around the target is a nearest index of the whole array |
| Utilities.EnergyAtDistance | src/xdlvo-model.js:423-426 | the result is 0 or the energy at a grid point within tol of the target; on a sorted grid it is the energy at a nearest point when some point is within tol, and 0 when none is |
| SurfaceEnergy.SolveCramer | src/xdlvo-model.js:131-137 | no solution exactly when \|det\| < 1e-10; otherwise the pair solves the 2×2 system and is its only solution |
| SurfaceEnergy.CramerSolves | src/xdlvo-model.js:136-137 | Cramer's quotients satisfy both equations when det ≠ 0 |
| SurfaceEnergy.CramerUnique | src/xdlvo-model.js:136-137 | any solution of a system with det ≠ 0 equals Cramer's quotients |
| SurfaceEnergy.LwFromNonPolar | src/xdlvo-model.js:112-115 | γ_LW from the non-polar liquid is a square, so it is non-negative |
| SurfaceEnergy.LwSatisfiesYoungDupre | src/xdlvo-model.js:112-115 | the derived γ_LW satisfies the non-polar Young–Dupré equation γ_l(1 + cos θ) = 2√(γ_l·γ_LW) |
| SurfaceEnergy.SurfaceEnergyFromContactAngles | src/xdlvo-model.js:105-145 | an ill-conditioning error exactly when \|det\| < 1e-10; otherwise γ⁺ and γ⁻ are the squares of a solution of the polar system, both non-negative, γ_AB = 2√(γ⁺γ⁻) and the total is γ_LW + γ_AB |
| SurfaceEnergy.AcidBaseFromRoots | src/xdlvo-model.js:139-141 | with γ⁺ = x² and γ⁻ = y², γ_AB = 2\|x·y\| |
| SurfaceEnergy.RowAsRoots | src/xdlvo-model.js:121-129 | one row of the system, solved by non-negative roots, is the polar half of Young–Dupré written with geometric means |
| SurfaceEnergy.PolarYoungDupre | src/xdlvo-model.js:117-129 | non-negative roots that solve the system give components that satisfy the full Young–Dupré equation for water |
| SurfaceEnergy.IdenticalPolarLiquids | src/xdlvo-model.js:126-134 | using the same polar liquid twice fails exactly when its γ⁻ and γ⁺ differ by less than 1e-10 |
| Physics.BuiltInLiquidsWellConditioned | src/xdlvo-controller.js:534-539 | with the built-in diiodomethane, formamide and water, in the order the calculator passes them, √γ_LW of diiodomethane is positive, the determinant exceeds 20 and the inversion succeeds for every three angles |
| Physics.IdenticalWaterRejected | src/xdlvo-model.js:131-134 | the built-in water used as both polar liquids is rejected as ill-conditioned, whatever the angles |
| Physics.WaterDielectricPositive | src/xdlvo-model.js:155-158 | the dielectric polynomial exceeds 40 on 273–373 K |
| Physics.DebyeArgument | src/xdlvo-model.js:173-176 | the radicand of κ is positive for positive ionic strength and 0 for zero ionic strength |
| Physics.ArgumentIncreasing | src/xdlvo-model.js:173-176 | the radicand of κ strictly increases with ionic strength |
| Physics.DebyeLengthIncreasing | src/xdlvo-model.js:168-179 | κ is positive and strictly increases with ionic strength |
| ContactEnergy.LwContactSign | src/xdlvo-model.js:218-219 | ΔG_LW ≤ 0 when the membrane and foulant γ_LW lie on the same side of water's, ≥ 0 when on opposite sides, and 0 when either equals water's |
| ContactEnergy.AcidBaseAgreesWithVanOss | src/xdlvo-model.js:222-225 | ΔG_AB as coded differs from the van Oss formula by 2(√γ_w⁻ − √γ_w⁺)(√γ_f⁻ + √γ_m⁻ − 2√γ_w⁻), so the two agree whenever water's γ⁺ = γ⁻ |
| ContactEnergy.UnchargedContactIsNaN | src/xdlvo-model.js:232-235 | as written, ΔG_EL with ζ_m = ζ_f = 0 is NaN, and so is the total |
| ContactEnergy.ElectrostaticContact | src/xdlvo-model.js:228-235 | agrees with the code whenever ζ_m² + ζ_f² ≠ 0, and is 0 for uncharged surfaces |
| ContactEnergy.ElectrostaticContactClosedForm | src/xdlvo-model.js:235 | with finite coth and csch, ΔG_EL = κε₀ε_r/2·((ζ_m² + ζ_f²)(1 − coth) + 2ζ_fζ_m·csch)·10⁶ |
| ContactEnergy.DeltaG | src/xdlvo-model.js:203-244 | LW and AB are the two contact energies and EL is the electrostatic formula exactly as written; ADH = LW + AB; TOT is finite exactly when EL is, and is then LW + AB + EL; it is NaN when EL is NaN |
| ContactEnergy.UnchargedDeltaGIsNaN | src/xdlvo-model.js:228-242 | as computed, uncharged surfaces (ζ_m = ζ_f = 0) give NaN for both EL and TOT |
| ContactEnergy.DeltaGCorrected | src/xdlvo-model.js:203-244 | the corrected free energies: LW, AB and ADH as computed, EL with the uncharged case set to 0, TOT = LW + AB + EL when EL is finite; identical to `DeltaG` whenever ζ_m² + ζ_f² ≠ 0 |
| ContactEnergy.UnchargedDeltaG | src/xdlvo-model.js:228-242 | with the correction, uncharged surfaces give EL = 0 and TOT = ADH |
| ContactEnergy.DeltaGAcidBaseIsVanOss | src/xdlvo-model.js:222-225 | with the built-in water, ΔG_AB equals the van Oss acid–base free energy |
| ContactEnergy.DeltaGSymmetric | src/xdlvo-model.js:203-244 | swapping the membrane and foulant surface properties leaves every component of ΔG unchanged |
| Profile.DistanceArray | src/xdlvo-model.js:182-187 | the grid is hmin, hmin + dh, …: every point is ≤ hmax, the next step would pass hmax, and there are ⌊(hmax − hmin)/dh⌋ + 1 points |
| Profile.GridIncreasing | src/xdlvo-model.js:185 | consecutive grid points are dh apart, so the grid strictly increases |
| Profile.GridAbove | src/xdlvo-model.js:185 | every grid point is at least hmin |
| Profile.DefaultGrid | src/xdlvo-model.js:27-29 | the default grid has 498 points and its last point is exactly 25 nm |
| Profile.ElEnergy | src/xdlvo-model.js:285-301 | U_EL is 0 where 1 − e^(−κh) is within 1e-10 of 0, and 0 for uncharged surfaces |
| Profile.EnergySigns | src/xdlvo-model.js:277-281 | U_AB has the sign of a·ΔG_AB at every distance, and U_LW that of a·ΔG_LW at every positive distance |
| Profile.LwInverseLaw | src/xdlvo-model.js:277 | U_LW(h)·h is the same at every distance: U_LW falls off as 1/h |
| Profile.InteractionEnergy | src/xdlvo-model.js:256-305 | four series with one entry per point of the default grid; each entry is the component at that distance; U_TOT is the sum of the three; in the degenerate case U_EL = 0 and U_TOT = U_LW + U_AB |
| Analysis.FindBarrier | src/xdlvo-model.js:308-325 | no barrier exactly when there is no interior strict local maximum; otherwise the first-found highest such peak, with its energy and position |
| Analysis.BarrierUnique | src/xdlvo-model.js:308-325 | a profile has exactly one barrier result |
| Analysis.CandidatesMembers | src/xdlvo-model.js:332-343 | the detected points up to n are exactly the reported indices below n: the first point when U[0] < U[1], and the interior strict local minima |
| Analysis.DetectedMembers | src/xdlvo-model.js:332-343 | the detected points are exactly the boundary minimum and the interior strict local minima |
| Analysis.CandidatesIncreasing | src/xdlvo-model.js:338-343 | on a strictly increasing grid, detection already yields positions in increasing order |
| Analysis.InsertPermutes | src/xdlvo-model.js:346 | inserting adds exactly the one element |
| Analysis.InsertSorted | src/xdlvo-model.js:346 | inserting into a position-sorted list keeps it sorted |
| Analysis.SortSortsAndPermutes | src/xdlvo-model.js:346 | sorting by position yields a sorted permutation of the input |
| Analysis.InsertAtEnd | src/xdlvo-model.js:346 | an element not before any other is inserted at the end |
| Analysis.SortKeepsSorted | src/xdlvo-model.js:345-346 | sorting an already-sorted list leaves it unchanged |
| Analysis.FindMinima | src/xdlvo-model.js:329-357 | the minima are the detected points sorted by position, the first labelled primary and the rest secondary; every entry is a reported minimum and every reported minimum is listed; on a strictly increasing grid the order is the detection order |
| Analysis.MinimaSound | src/xdlvo-model.js:329-357 | every listed minimum is a boundary minimum or an interior strict local minimum of the profile |
| Analysis.MinimaComplete | src/xdlvo-model.js:329-357 | every boundary or interior local minimum of the profile is listed |
| Analysis.MinimaOrdered | src/xdlvo-model.js:345-346 | the listed minima are in non-decreasing position order, and in detection order on a strictly increasing grid |
| Analysis.Stencil | src/xdlvo-model.js:367-376 | the difference stencil has two distinct in-range ends enclosing the point |
| Analysis.CalculateForce | src/xdlvo-model.js:361-382 | one force per grid point, each the negated forward, backward or central difference at that point |
| Analysis.ForceOnIncreasingGrid | src/xdlvo-model.js:361-382 | on a strictly increasing grid every force is finite, equals −ΔU/Δh, and is negative exactly when the energy rises across the stencil and positive exactly when it falls |
| Analysis.LinearProfileForce | src/xdlvo-model.js:361-382 | for U = a + c·h the force is −c at every point |
| Analysis.CrossingsMembers | src/xdlvo-model.js:388-397 | the crossings found up to n are exactly the interpolated points of the segments below n whose ends straddle 0 within tolerance |
| Analysis.FindZeroCrossings | src/xdlvo-model.js:385-400 | a value is reported exactly when it is the interpolated point of a segment whose ends straddle 0 within tolerance, in segment order |
| Analysis.CrossingInterpolates | src/xdlvo-model.js:388-396 | across a genuine sign change the segment is reported, and the point is finite, lies in [h1, h2] and makes the linear interpolant vanish |
| Analysis.FlatSegmentCrossing | src/xdlvo-model.js:394-395 | on a flat segment the interpolated crossing is not a finite number |
| Analysis.FindKind | src/xdlvo-model.js:409-410 | the first entry of the requested kind (every earlier entry has another kind), and none exactly when no entry has it |
| Analysis.FindKindOfLabelled | src/xdlvo-model.js:409-410 | in a labelled list the primary is the first entry and the secondary the second, when they exist |
| Analysis.AnalyzeProfile | src/xdlvo-model.js:402-420 | the barrier, minima and force are those of the profile; the primary and secondary minima are the first and second listed minima |
| Controller.ValidateFiniteRange | src/xdlvo-controller.js:112-113 | with finite bounds, a value is accepted exactly when it is a finite number within them |
| Controller.ValidateDefaultBounds | src/xdlvo-controller.js:112-113 | with the default bounds, every number except NaN is accepted, infinities included |
| Controller.ValidatedRanges | src/xdlvo-controller.js:588-608 | an accepted temperature is a finite value within 273–373 K, and a zeta potential of 0 mV is accepted |
| Controller.Lerp | src/xdlvo-controller.js:869-870 | the interpolated value lies between the two end values and equals the left one at the left end |
| Controller.Interpolation | src/xdlvo-controller.js:853-871 | a reference value that meets the interpolation relation: the clamped end value outside the grid, the linear interpolant in a bracket inside it |
| Controller.BracketUnique | src/xdlvo-controller.js:862-866 | on a non-decreasing grid, a distance has at most one bracket |
| Controller.InterpolatesUnique | src/xdlvo-controller.js:853-871 | on a non-decreasing grid, the interpolated value is unique |
| Controller.InterpolateAt | src/xdlvo-controller.js:853-871 | the binary search and lerp return an interpolated value, and on a non-decreasing grid the reference value |
| Controller.Clamp | src/xdlvo-controller.js:842 | the clamped distance lies in [lo, hi], is unchanged inside, and is snapped to the nearer bound outside |
| Controller.Controller.constructor | src/xdlvo-controller.js:410-414 | no results, distance 5 nm, not animating, not dragging |
| Controller.Controller.SetResults | src/xdlvo-controller.js:649 | stores the results and changes nothing else |
| Controller.Controller.GetEnergyAt | src/xdlvo-controller.js:853-871 | 0 without results; otherwise the energy profile interpolated at the distance |
| Controller.Controller.GetForceAt | src/xdlvo-controller.js:874-891 | 0 without results; otherwise the force profile interpolated at the distance |
| Controller.Controller.MouseDown | src/xdlvo-controller.js:824-835 | a press on the particle starts dragging and stops the animation; any other press changes nothing |
| Controller.Controller.MouseUp | src/xdlvo-controller.js:810 | ends dragging and changes nothing else |
| Controller.Controller.MouseMove | src/xdlvo-controller.js:837-849 | while dragging, the distance moves by the pointer offset clamped to [0.15, 25] nm; otherwise nothing changes |
| Controller.Controller.StartAnimation | src/xdlvo-controller.js:977-981 | without results nothing changes; otherwise the first animation step is taken |
| Controller.Controller.StopAnimation | src/xdlvo-controller.js:983-987 | stops the animation and changes nothing else |
| Controller.Controller.ResetAnimation | src/xdlvo-controller.js:989-993 | stops the animation and puts the particle back at 5 nm |
| Controller.Controller.AnimateStep | src/xdlvo-controller.js:998-1012 | while animating with results, the particle moves by force × 0.002 × speed; a step leaving [0.15, 25] nm stops the animation and is clamped |
| Controller.Controller.ExportStep | src/xdlvo-controller.js:1411-1417 | the export step moves the particle by force × speed factor and clamps it to [0.15, 25] nm, without stopping |
| Controller.PrefixTableShape | src/xdlvo-controller.js:894-899 | 17 positive thresholds, each 1000 times the next |
| Controller.SelectPrefix | src/xdlvo-controller.js:901-911 | "0" exactly for zero; otherwise the first prefix whose threshold is at most \|val\|, with the sign kept and \|val\| scaled by it; exponential notation exactly for 0 < \|val\| < 1e-24 |
| Controller.PrefixedMantissa | src/xdlvo-controller.js:903-908 | the scaled value is at least 1, and below 1000 for every prefix but the largest |

## Left out

- The functions of `Math` (cos, sqrt, exp, log, tanh, sinh, π) are parameters. The model
  claims only what follows from the laws stated in a lemma's `requires`, never numeric
  values.
- Floating-point rounding and the sign of zero are not modelled; arithmetic is over exact
  reals.
- Profile.DistanceArray: the source accumulates `d += dh` in binary floating point, which
  can add or drop the last point near hmax. The model's grid is exact, with exactly 498
  points for the defaults.
- Controller.SelectPrefix: the `toPrecision(4)` and `toExponential(3)` string formatting
  is not modelled. The result records the sign, the scaled magnitude and the symbol, or
  the exponential case.
- The user interface is not modelled. That covers DOM reading and writing, canvas drawing
  and the pixel-to-nanometre conversion (the drag offset is a parameter), tooltips, alerts,
  i18n and localStorage.
- Timing is not modelled either: `requestAnimationFrame`, `Date.now`, the MediaRecorder
  video export and its stop conditions.
- The `calculate` orchestration of the controller is not a member of its own. Its
  validation rules are modelled (`Controller.ValidatedRanges`).
- Controller.Controller.SetResults stores the force as finite reals. On a strictly
  increasing grid every force is finite (`Analysis.ForceOnIncreasingGrid`).
- The animation speed is read from a DOM field as a string and coerced by `*`. The model
  takes it as a real parameter.
- Analysis.FindMinima: the provisional `type` labels assigned during detection are not
  modelled, because the relabelling loop always overwrites them.
- Analysis.FindMinima: the in-place `Array.prototype.sort` is modelled as a pure insertion
  sort by position. The model claims a sorted permutation, and the identity on input that
  is already sorted, but not the engine's order for equal positions on unsorted input.
- SurfaceEnergy.SurfaceEnergyFromContactAngles requires √γ_LW of the non-polar liquid to
  be non-zero. With γ_LW = 0 the source divides by zero and yields NaN or Infinity. The
  model does not follow that path.
- Physics.DebyeLength, ContactEnergy.DeltaG and Profile.InteractionEnergy require a
  temperature in 273–373 K. The controller rejects anything else before calling them.
- Profile.InteractionEnergy: energies are real-valued, so a logarithm of a non-positive
  argument (NaN in the source) is whatever the `log` parameter returns.
- Physics.DebyeLengthIncreasing: monotonicity is shown over exact reals under the
  square-root laws only.

## Findings

| source | as written | input that shows it | evidently intended | confidence | as-written member | corrected member |
|---|---|---|---|---|---|---|
| src/xdlvo-model.js:232-235 | ΔG_EL multiplies by ζ_m² + ζ_f² and divides 2ζ_fζ_m·csch by the same sum | ζ_m = ζ_f = 0 mV, which validation accepts (range −200…200 mV): 0/0 makes ΔG_EL NaN, and TOT with it | ΔG_EL = 0 for uncharged surfaces, which is what the closed form (ζ_m² + ζ_f²)(1 − coth) + 2ζ_fζ_m·csch gives | not executed | ContactEnergy.UnchargedDeltaGIsNaN | ContactEnergy.UnchargedDeltaG |

`ContactEnergy.DeltaG` keeps the code's behaviour, NaN included. `ContactEnergy.DeltaGCorrected`
differs from it only in EL and TOT, and only for uncharged surfaces. The energy profiles
(`Profile.InteractionEnergy`) read only ΔG_LW and ΔG_AB, so they are the same under either.
