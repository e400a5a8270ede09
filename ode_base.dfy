/** The right-hand sides of src/ode_base_example.cc: the `pn5` flux, the
    `SchwarzEccFlux` and `KerrEccentricEquatorial` derivative functions, and
    the sort-and-deduplicate step that builds the flux grid coordinates. */
module OdeBase {
  import opened Numeric
  import opened RootSolver
  import opened Separatrix
  import opened Frequencies

  /** `Interpolant::eval` on (y, e). */
  type Interp2 = (real, real) -> real

  /** `TensorInterpolant::eval` on (a, u, w). */
  type Interp3 = (real, real, real) -> real

  /** The floating-point formulas around the guards. Each takes exactly the
      values the source feeds it:
      - `schwarzPdot` / `schwarzEdot`: the PN-plus-interpolant fluxes converted
        to (p, e) rates, from the Edot and Ldot interpolants, epsilon, p, e and
        Omega_phi;
      - `equatorialFrequencies`: `KerrGeoEquatorialCoordinateFrequencies`;
      - `rescaledRadius`: r = (Omega_phi / Omega_phi_sep_circ)^(2/3) (1 + e),
        from a, e, p_sep and Omega_phi;
      - `kerrPdotOut` / `kerrEdotOut`: interpolant times prefactor, from the
        interpolant, a, p, e, p_sep and r_isco;
      - `dpdt` / `dedt` / `dYdt`: the 5PN series on (a, p, e, Y, Nv, ne). */
  datatype FluxFormulas = FluxFormulas(
    schwarzPdot: (Interp2, Interp2, real, real, real, Double) -> Double,
    schwarzEdot: (Interp2, Interp2, real, real, real, Double) -> Double,
    equatorialFrequencies: (real, real, real, real) -> CoordinateFrequencies,
    rescaledRadius: (real, real, real, Double) -> Double,
    kerrPdotOut: (Interp3, real, real, real, real, real) -> Double,
    kerrEdotOut: (Interp3, real, real, real, real, real) -> Double,
    dpdt: (real, real, real, real, int, int) -> Double,
    dedt: (real, real, real, real, int, int) -> Double,
    dYdt: (real, real, real, real, int, int) -> Double)

  /** The six values a derivative function writes through its out-pointers. */
  datatype Outputs = Outputs(pdot: Double, edot: Double, xdot: Double,
                             omegaPhi: Double, omegaTheta: Double, omegaR: Double)
  {
    function WithRates(p: Double, e: Double, x: Double): Outputs
    {
      this.(pdot := p, edot := e, xdot := x)
    }

    function WithFrequencies(f: CoordinateFrequencies): Outputs
    {
      this.(omegaPhi := f.omegaPhi, omegaTheta := f.omegaTheta, omegaR := f.omegaR)
    }

    predicate SameRates(other: Outputs)
    {
      pdot == other.pdot && edot == other.edot && xdot == other.xdot
    }

    predicate SameFrequencies(other: Outputs)
    {
      omegaPhi == other.omegaPhi && omegaTheta == other.omegaTheta && omegaR == other.omegaR
    }
  }

  /** What a call leaves behind: the out-values, and the exception if one
      escaped. */
  datatype Effect = Returned(after: Outputs) | Threw(after: Outputs, error: Error)

  /** How a derivative method ended. */
  datatype Completion = Normal | Thrown(error: Error)

  function EffectOf(c: Completion, after: Outputs): Effect
  {
    if c.Normal? then Returned(after) else Threw(after, c.error)
  }

  const EquatorialInclination: real := 1.0
  const KerrEccentricityThreshold: real := 0.000001

  /** The three rates of `pn5` from the 5PN series with the truncation
      orders (Nv, ne) = (10, 10) for pdot, (10, 8) for edot, (7, 10) for
      Ydot, each scaled by epsilon. */
  function Pn5Rates(lib: FluxFormulas, s: Outputs, epsilon: real, a: real, p: real, e: real, y: real): Outputs
  {
    s.WithRates(Mul(Finite(epsilon), lib.dpdt(a, p, e, y, 10, 10)),
                Mul(Finite(epsilon), lib.dedt(a, p, e, y, 10, 8)),
                Mul(Finite(epsilon), lib.dYdt(a, p, e, y, 7, 10)))
  }

  /** `pn5`: equatorial frequencies at x = Y when |Y| = 1, otherwise the
      generic frequencies at x = Y_to_xI(a, p, e, Y); then the three rates. */
  function Pn5Effect(eng: Engine, k: GeodesicKernels, lib: FluxFormulas, before: Outputs,
                     epsilon: real, a: real, p: real, e: real, y: real): Effect
  {
    if Abs(y) == EquatorialInclination then
      Returned(Pn5Rates(lib, before.WithFrequencies(lib.equatorialFrequencies(a, p, e, y)), epsilon, a, p, e, y))
    else
      match YToXI(eng, a, p, e, y)
      case Err(err) => Threw(before, err)
      case Ok(x) =>
        match KerrGeoCoordinateFrequencies(k, a, p, e, x)
        case Err(err) => Threw(before, err)
        case Ok(f) => Returned(Pn5Rates(lib, before.WithFrequencies(f), epsilon, a, p, e, y))
  }

  /** `SchwarzEccFlux::deriv_func` given its two interpolants. */
  function SchwarzEccEffect(k: GeodesicKernels, lib: FluxFormulas, edotInterp: Interp2, ldotInterp: Interp2,
                            before: Outputs, epsilon: real, p: real, e: real): Effect
  {
    if 6.0 + 2.0 * e > p then Returned(before.WithRates(Zero, Zero, Zero))
    else
      match k.schwarzschild(p, e)
      case Err(err) => Threw(before, err)
      case Ok(phiR) =>
        var s := before.(omegaPhi := phiR.0, omegaR := phiR.1, omegaTheta := phiR.0);
        var pdot := lib.schwarzPdot(edotInterp, ldotInterp, epsilon, p, e, phiR.0);
        var edot := if e > 0.0 then lib.schwarzEdot(edotInterp, ldotInterp, epsilon, p, e, phiR.0) else Zero;
        Returned(s.WithRates(pdot, edot, Zero))
  }

  /** `KerrEccentricEquatorial::deriv_func` given its two interpolants. */
  function KerrEccEqEffect(m: MathKernels, eng: Engine, lib: FluxFormulas, pdotInterp: Interp3, edotInterp: Interp3,
                           before: Outputs, epsilon: real, a: real, p: real, e: real, x: real): Effect
  {
    match GetSeparatrix(m, eng, a, e, x)
    case Err(err) => Threw(before, err)
    case Ok(pSep) =>
      if e < 0.0 || p < pSep then Returned(before.WithRates(Zero, Zero, Zero))
      else
        var f := lib.equatorialFrequencies(a, p, e, x);
        var s := before.WithFrequencies(f);
        if lib.rescaledRadius(a, e, pSep, f.omegaPhi).NaN? then Threw(s, NanRescaledRadius)
        else
          match GetSeparatrix(m, eng, a, 0.0, x)
          case Err(err) => Threw(s, err)
          case Ok(risco) =>
            var pdotOut := lib.kerrPdotOut(pdotInterp, a, p, e, pSep, risco);
            var edotOut := lib.kerrEdotOut(edotInterp, a, p, e, pSep, risco);
            if e > KerrEccentricityThreshold then
              Returned(s.WithRates(Mul(Finite(epsilon), pdotOut), Mul(Finite(epsilon), edotOut), Zero))
            else
              Returned(s.WithRates(Mul(Finite(epsilon), pdotOut), Zero, Zero))
  }

  /** The out-pointer targets of a derivative call. */
  class DerivSlots {
    var pdot: Double
    var edot: Double
    var xdot: Double
    var omegaPhi: Double
    var omegaTheta: Double
    var omegaR: Double

    function Value(): Outputs
      reads this
    {
      Outputs(pdot, edot, xdot, omegaPhi, omegaTheta, omegaR)
    }

    constructor (init: Outputs)
      ensures Value() == init
    {
      pdot, edot, xdot := init.pdot, init.edot, init.xdot;
      omegaPhi, omegaTheta, omegaR := init.omegaPhi, init.omegaTheta, init.omegaR;
    }

    method SetRates(p: Double, e: Double, x: Double)
      modifies this
      ensures Value() == old(Value()).WithRates(p, e, x)
    {
      pdot, edot, xdot := p, e, x;
    }

    method SetFrequencies(f: CoordinateFrequencies)
      modifies this
      ensures Value() == old(Value()).WithFrequencies(f)
    {
      omegaPhi, omegaTheta, omegaR := f.omegaPhi, f.omegaTheta, f.omegaR;
    }
  }

  /** `pn5`: writes the frequencies, then the three rates. */
  method Pn5(eng: Engine, k: GeodesicKernels, lib: FluxFormulas, out: DerivSlots,
             epsilon: real, a: real, p: real, e: real, y: real)
    returns (c: Completion)
    modifies out
    ensures EffectOf(c, out.Value()) == Pn5Effect(eng, k, lib, old(out.Value()), epsilon, a, p, e, y)
  {
    if Abs(y) == EquatorialInclination {
      var x := y;
      out.SetFrequencies(lib.equatorialFrequencies(a, p, e, x));
    } else {
      var x := YToXI(eng, a, p, e, y);
      if x.Err? {
        return Thrown(x.error);
      }
      var f := KerrGeoCoordinateFrequencies(k, a, p, e, x.value);
      if f.Err? {
        return Thrown(f.error);
      }
      out.SetFrequencies(f.value);
    }
    var nv, ne := 10, 10;
    out.pdot := Mul(Finite(epsilon), lib.dpdt(a, p, e, y, nv, ne));
    nv, ne := 10, 8;
    out.edot := Mul(Finite(epsilon), lib.dedt(a, p, e, y, nv, ne));
    nv, ne := 7, 10;
    out.xdot := Mul(Finite(epsilon), lib.dYdt(a, p, e, y, nv, ne));
    c := Normal;
  }

  /** The Schwarzschild eccentric flux model with its Edot and Ldot
      interpolants over (log(p - 2e - 2.1), e). */
  class SchwarzEccFlux {
    const edotInterp: Interp2
    const ldotInterp: Interp2

    constructor (edot: Interp2, ldot: Interp2)
      ensures edotInterp == edot && ldotInterp == ldot
    {
      edotInterp, ldotInterp := edot, ldot;
    }

    /** `deriv_func`: early return below 6 + 2e, otherwise frequencies and
        rates. */
    method DerivFunc(k: GeodesicKernels, lib: FluxFormulas, out: DerivSlots,
                     epsilon: real, a: real, p: real, e: real, x: real)
      returns (c: Completion)
      modifies out
      ensures EffectOf(c, out.Value()) == SchwarzEccEffect(k, lib, edotInterp, ldotInterp, old(out.Value()), epsilon, p, e)
    {
      if 6.0 + 2.0 * e > p {
        out.SetRates(Zero, Zero, Zero);
        return Normal;
      }
      var phiR := k.schwarzschild(p, e);
      if phiR.Err? {
        return Thrown(phiR.error);
      }
      out.omegaPhi := phiR.value.0;
      out.omegaR := phiR.value.1;
      out.omegaTheta := out.omegaPhi;
      out.pdot := lib.schwarzPdot(edotInterp, ldotInterp, epsilon, p, e, out.omegaPhi);
      if e > 0.0 {
        out.edot := lib.schwarzEdot(edotInterp, ldotInterp, epsilon, p, e, out.omegaPhi);
      } else {
        out.edot := Zero;
      }
      out.xdot := Zero;
      c := Normal;
    }
  }

  /** The Kerr eccentric equatorial flux model with its pdot and edot tensor
      interpolants over (a, u, w). */
  class KerrEccentricEquatorial {
    const pdotInterp: Interp3
    const edotInterp: Interp3

    constructor (pdot: Interp3, edot: Interp3)
      ensures pdotInterp == pdot && edotInterp == edot
    {
      pdotInterp, edotInterp := pdot, edot;
    }

    /** `deriv_func`: separatrix guard, frequencies, NaN check on the
        rescaled radius, then the rates with the eccentricity threshold. */
    method DerivFunc(m: MathKernels, eng: Engine, lib: FluxFormulas, out: DerivSlots,
                     epsilon: real, a: real, p: real, e: real, x: real)
      returns (c: Completion)
      modifies out
      ensures EffectOf(c, out.Value())
        == KerrEccEqEffect(m, eng, lib, pdotInterp, edotInterp, old(out.Value()), epsilon, a, p, e, x)
    {
      var pSep := GetSeparatrix(m, eng, a, e, x);
      if pSep.Err? {
        return Thrown(pSep.error);
      }
      if e < 0.0 || p < pSep.value {
        out.SetRates(Zero, Zero, Zero);
        return Normal;
      }
      out.SetFrequencies(lib.equatorialFrequencies(a, p, e, x));
      var r := lib.rescaledRadius(a, e, pSep.value, out.omegaPhi);
      if r.NaN? {
        return Thrown(NanRescaledRadius);
      }
      var risco := GetSeparatrix(m, eng, a, 0.0, x);
      if risco.Err? {
        return Thrown(risco.error);
      }
      var pdotOut := lib.kerrPdotOut(pdotInterp, a, p, e, pSep.value, risco.value);
      var edotOut := lib.kerrEdotOut(edotInterp, a, p, e, pSep.value, risco.value);
      if e > KerrEccentricityThreshold {
        out.pdot := Mul(Finite(epsilon), pdotOut);
        out.edot := Mul(Finite(epsilon), edotOut);
      } else {
        out.edot := Zero;
        out.pdot := Mul(Finite(epsilon), pdotOut);
      }
      out.xdot := Zero;
      c := Normal;
    }
  }

  // Properties of the three right-hand sides.

  /** Below the Schwarzschild separatrix (6 + 2e > p) the three rates are
      zeroed and no frequency is written; at p = 6 + 2e the guard does not
      fire and the frequencies are computed. */
  lemma SchwarzEccSeparatrixGuard(k: GeodesicKernels, lib: FluxFormulas, ei: Interp2, li: Interp2,
                                  before: Outputs, epsilon: real, p: real, e: real)
    ensures var eff := SchwarzEccEffect(k, lib, ei, li, before, epsilon, p, e);
            && (6.0 + 2.0 * e > p ==> eff == Returned(Outputs(Zero, Zero, Zero, before.omegaPhi, before.omegaTheta, before.omegaR)))
            && (6.0 + 2.0 * e <= p && k.schwarzschild(p, e).Ok? ==>
                  eff.Returned? && (eff.after.omegaPhi, eff.after.omegaR) == k.schwarzschild(p, e).value)
  {
  }

  /** Past the guard Omega_theta equals Omega_phi, xdot is 0, and edot is 0
      whenever e <= 0. */
  lemma SchwarzEccRates(k: GeodesicKernels, lib: FluxFormulas, ei: Interp2, li: Interp2,
                        before: Outputs, epsilon: real, p: real, e: real)
    requires 6.0 + 2.0 * e <= p
    requires SchwarzEccEffect(k, lib, ei, li, before, epsilon, p, e).Returned?
    ensures var o := SchwarzEccEffect(k, lib, ei, li, before, epsilon, p, e).after;
            && o.omegaTheta == o.omegaPhi
            && o.xdot == Zero
            && (e <= 0.0 ==> o.edot == Zero)
            && (e > 0.0 ==> o.edot == lib.schwarzEdot(ei, li, epsilon, p, e, o.omegaPhi))
            && o.pdot == lib.schwarzPdot(ei, li, epsilon, p, e, o.omegaPhi)
  {
  }

  /** With e < 0 or p below the separatrix, the Kerr model zeroes the three
      rates and leaves the frequencies as they were. */
  lemma KerrEccEqSeparatrixGuard(m: MathKernels, eng: Engine, lib: FluxFormulas, pi: Interp3, ei: Interp3,
                                 before: Outputs, epsilon: real, a: real, p: real, e: real, x: real)
    requires GetSeparatrix(m, eng, a, e, x).Ok?
    requires e < 0.0 || p < GetSeparatrix(m, eng, a, e, x).value
    ensures KerrEccEqEffect(m, eng, lib, pi, ei, before, epsilon, a, p, e, x)
      == Returned(Outputs(Zero, Zero, Zero, before.omegaPhi, before.omegaTheta, before.omegaR))
  {
  }

  /** A NaN rescaled radius past the guard throws, after the frequencies were
      written and before any rate was. */
  lemma KerrEccEqNanFailFast(m: MathKernels, eng: Engine, lib: FluxFormulas, pi: Interp3, ei: Interp3,
                             before: Outputs, epsilon: real, a: real, p: real, e: real, x: real)
    requires GetSeparatrix(m, eng, a, e, x).Ok?
    requires var pSep := GetSeparatrix(m, eng, a, e, x).value;
             e >= 0.0 && p >= pSep
             && lib.rescaledRadius(a, e, pSep, lib.equatorialFrequencies(a, p, e, x).omegaPhi).NaN?
    ensures var eff := KerrEccEqEffect(m, eng, lib, pi, ei, before, epsilon, a, p, e, x);
            && eff.Threw? && eff.error == NanRescaledRadius
            && eff.after.SameRates(before)
            && eff.after == before.WithFrequencies(lib.equatorialFrequencies(a, p, e, x))
  {
  }

  /** A normal return past the guard scales pdot_out by epsilon, scales
      edot_out only above e = 1e-6 (edot is 0 otherwise), and sets xdot = 0. */
  lemma KerrEccEqRates(m: MathKernels, eng: Engine, lib: FluxFormulas, pi: Interp3, ei: Interp3,
                       before: Outputs, epsilon: real, a: real, p: real, e: real, x: real)
    requires GetSeparatrix(m, eng, a, e, x).Ok? && GetSeparatrix(m, eng, a, 0.0, x).Ok?
    requires var pSep := GetSeparatrix(m, eng, a, e, x).value;
             e >= 0.0 && p >= pSep
             && !lib.rescaledRadius(a, e, pSep, lib.equatorialFrequencies(a, p, e, x).omegaPhi).NaN?
    ensures var pSep := GetSeparatrix(m, eng, a, e, x).value;
            var risco := GetSeparatrix(m, eng, a, 0.0, x).value;
            var eff := KerrEccEqEffect(m, eng, lib, pi, ei, before, epsilon, a, p, e, x);
            && eff.Returned?
            && eff.after.pdot == Mul(Finite(epsilon), lib.kerrPdotOut(pi, a, p, e, pSep, risco))
            && (e > KerrEccentricityThreshold ==>
                  eff.after.edot == Mul(Finite(epsilon), lib.kerrEdotOut(ei, a, p, e, pSep, risco)))
            && (e <= KerrEccentricityThreshold ==> eff.after.edot == Zero)
            && eff.after.xdot == Zero
            && eff.after.SameFrequencies(before.WithFrequencies(lib.equatorialFrequencies(a, p, e, x)))
  {
  }

  /** No thrown exception leaves a partly written rate behind: a throw from
      any of the three right-hand sides keeps the old pdot, edot and xdot. */
  lemma ThrowsLeaveRatesUntouched(m: MathKernels, eng: Engine, k: GeodesicKernels, lib: FluxFormulas,
                                  ei2: Interp2, li2: Interp2, pi3: Interp3, ei3: Interp3,
                                  before: Outputs, epsilon: real, a: real, p: real, e: real, x: real)
    ensures var eff := Pn5Effect(eng, k, lib, before, epsilon, a, p, e, x);
            eff.Threw? ==> eff.after == before
    ensures var eff := SchwarzEccEffect(k, lib, ei2, li2, before, epsilon, p, e);
            eff.Threw? ==> eff.after == before
    ensures var eff := KerrEccEqEffect(m, eng, lib, pi3, ei3, before, epsilon, a, p, e, x);
            eff.Threw? ==> eff.after.SameRates(before)
  {
  }

  /** Every normal return of either flux model sets xdot to 0. */
  lemma FluxModelsKeepInclinationFixed(m: MathKernels, eng: Engine, k: GeodesicKernels, lib: FluxFormulas,
                                       ei2: Interp2, li2: Interp2, pi3: Interp3, ei3: Interp3,
                                       before: Outputs, epsilon: real, a: real, p: real, e: real, x: real)
    ensures var eff := SchwarzEccEffect(k, lib, ei2, li2, before, epsilon, p, e);
            eff.Returned? ==> eff.after.xdot == Zero
    ensures var eff := KerrEccEqEffect(m, eng, lib, pi3, ei3, before, epsilon, a, p, e, x);
            eff.Returned? ==> eff.after.xdot == Zero
  {
  }

  /** `pn5` takes the equatorial frequencies at x = Y exactly when |Y| = 1;
      otherwise its frequencies are the generic ones at x = Y_to_xI(Y). */
  lemma Pn5Dispatch(eng: Engine, k: GeodesicKernels, lib: FluxFormulas, before: Outputs,
                    epsilon: real, a: real, p: real, e: real, y: real)
    ensures var eff := Pn5Effect(eng, k, lib, before, epsilon, a, p, e, y);
            && (Abs(y) == 1.0 ==>
                  eff.Returned? && eff.after.SameFrequencies(before.WithFrequencies(lib.equatorialFrequencies(a, p, e, y))))
            && (Abs(y) != 1.0 && eff.Returned? ==>
                  && YToXI(eng, a, p, e, y).Ok?
                  && KerrGeoCoordinateFrequencies(k, a, p, e, YToXI(eng, a, p, e, y).value).Ok?
                  && eff.after.SameFrequencies(before.WithFrequencies(
                       KerrGeoCoordinateFrequencies(k, a, p, e, YToXI(eng, a, p, e, y).value).value)))
            && (eff.Returned? ==> eff.after == Pn5Rates(lib, eff.after, epsilon, a, p, e, y))
  {
  }

  /** With a bracket-keeping solver, `pn5` throws only from the generic
      frequency routine, never from `Y_to_xI`. */
  lemma Pn5ThrowsOnlyFromFrequencies(eng: Engine, k: GeodesicKernels, lib: FluxFormulas, before: Outputs,
                                     epsilon: real, a: real, p: real, e: real, y: real)
    requires KeepsBracket(eng)
    ensures var eff := Pn5Effect(eng, k, lib, before, epsilon, a, p, e, y);
            eff.Threw? ==>
              && Abs(y) != 1.0
              && YToXI(eng, a, p, e, y).Ok?
              && KerrGeoCoordinateFrequencies(k, a, p, e, YToXI(eng, a, p, e, y).value) == Err(eff.error)
  {
    InclinationWithinBracket(eng, a, p, e, y);
  }

  // The flux grid coordinates.

  /** The distinct values of a vector. */
  function Elements(s: seq<real>): set<real>
  {
    set x | x in s
  }

  lemma {:induction false} ElementsOfAppend(s: seq<real>, x: real)
    ensures Elements(s + [x]) == Elements(s) + {x}
  {
    assert forall y :: y in s + [x] <==> y in s || y == x;
  }

  /** Two orderings of the same multiset hold the same values. */
  lemma {:induction false} ElementsOfPermutation(s: seq<real>, t: seq<real>)
    requires multiset(s) == multiset(t)
    ensures Elements(s) == Elements(t)
  {
    assert forall y :: y in s <==> y in multiset(s);
    assert forall y :: y in t <==> y in multiset(t);
  }

  /** Prepending a value no larger than the head keeps a vector sorted. */
  lemma ConsNonDecreasing(h: real, rest: seq<real>)
    requires NonDecreasing(rest) && rest != [] && h <= rest[0]
    ensures NonDecreasing([h] + rest)
  {
    var r := [h] + rest;
    forall i, j | 0 <= i < j < |r| ensures r[i] <= r[j] {
      if i == 0 {
        assert rest[0] <= rest[j - 1];
      } else {
        assert r[i] == rest[i - 1] && r[j] == rest[j - 1];
      }
    }
  }

  /** `s` with `x` inserted before its first element not below `x`. */
  function Insert(x: real, s: seq<real>): (r: seq<real>)
    requires NonDecreasing(s)
    ensures NonDecreasing(r)
    ensures multiset(r) == multiset(s) + multiset{x}
    ensures |r| == |s| + 1 && (r[0] == x || (s != [] && r[0] == s[0]))
  {
    if s == [] || x <= s[0] then
      assert NonDecreasing([x] + s) by {
        if s != [] { ConsNonDecreasing(x, s); }
      }
      [x] + s
    else
      assert s == [s[0]] + s[1..];
      var rest := Insert(x, s[1..]);
      assert |s| > 1 ==> s[0] <= s[1];
      ConsNonDecreasing(s[0], rest);
      [s[0]] + rest
  }

  /** The ascending order `std::sort` produces. */
  function Sort(s: seq<real>): (r: seq<real>)
    ensures NonDecreasing(r)
    ensures multiset(r) == multiset(s)
  {
    if s == [] then []
    else
      assert s == [s[0]] + s[1..];
      Insert(s[0], Sort(s[1..]))
  }

  /** One step of `std::unique`: a value equal to the last kept one is
      dropped, a larger one is appended; either way the kept prefix holds the
      values seen so far and stays strictly increasing. */
  lemma UniqueStep(kept: seq<real>, seen: seq<real>, next: real)
    requires kept != [] && StrictlyIncreasing(kept)
    requires Elements(kept) == Elements(seen) && kept[|kept| - 1] <= next
    ensures kept[|kept| - 1] != next ==>
      StrictlyIncreasing(kept + [next]) && Elements(kept + [next]) == Elements(seen + [next])
    ensures kept[|kept| - 1] == next ==> Elements(kept) == Elements(seen + [next])
  {
    ElementsOfAppend(kept, next);
    ElementsOfAppend(seen, next);
  }

  /** `std::unique` followed by `erase` on a sorted vector: collapses each
      run of equal elements to its first, in place, and shrinks the vector
      to the `n` elements kept. */
  method EraseUnique(v: array<real>) returns (n: nat)
    requires NonDecreasing(v[..])
    modifies v
    ensures n <= v.Length
    ensures StrictlyIncreasing(v[..n])
    ensures Elements(v[..n]) == Elements(old(v[..]))
  {
    if v.Length == 0 {
      return 0;
    }
    ghost var orig := v[..];
    var result := 0;
    var first := 1;
    while first < v.Length
      invariant 0 <= result < first <= v.Length
      invariant v[first..] == orig[first..]
      invariant StrictlyIncreasing(v[..result + 1])
      invariant v[result] == orig[first - 1]
      invariant Elements(v[..result + 1]) == Elements(orig[..first])
    {
      ghost var kept := v[..result + 1];
      var next := v[first];
      assert next == orig[first];
      assert orig[..first + 1] == orig[..first] + [next];
      UniqueStep(kept, orig[..first], next);
      if v[result] != next {
        result := result + 1;
        v[result] := next;
        assert v[..result + 1] == kept + [next];
      }
      first := first + 1;
    }
    assert orig[..first] == orig;
    n := result + 1;
  }

  /** One parsed line of the flux file: y, e, Edot, Ldot. */
  datatype FluxRow = FluxRow(y: real, e: real, edot: real, ldot: real)

  /** The coordinates and values `load_and_interpolate_flux_data` hands to
      the two interpolants. */
  datatype FluxGrid = FluxGrid(ys: seq<real>, es: seq<real>, edots: seq<real>, ldots: seq<real>)

  /** Sorts a coordinate vector and removes its duplicates. */
  method SortUnique(values: seq<real>) returns (r: seq<real>)
    ensures StrictlyIncreasing(r)
    ensures Elements(r) == Elements(values)
  {
    var sorted := Sort(values);
    var v := new real[|sorted|](i requires 0 <= i < |sorted| => sorted[i]);
    assert v[..] == sorted;
    var n := EraseUnique(v);
    r := v[..n];
    ElementsOfPermutation(sorted, values);
  }

  /** The grid-building part of `load_and_interpolate_flux_data`: one push per
      line into each vector, then sort and deduplicate the two coordinate
      vectors. */
  method LoadFluxGrid(rows: seq<FluxRow>) returns (grid: FluxGrid)
    ensures StrictlyIncreasing(grid.ys) && StrictlyIncreasing(grid.es)
    ensures forall y :: y in grid.ys <==> exists i :: 0 <= i < |rows| && rows[i].y == y
    ensures forall e :: e in grid.es <==> exists i :: 0 <= i < |rows| && rows[i].e == e
    ensures |grid.edots| == |grid.ldots| == |rows|
    ensures forall i :: 0 <= i < |rows| ==> grid.edots[i] == rows[i].edot && grid.ldots[i] == rows[i].ldot
  {
    var ys, es, edots, ldots := [], [], [], [];
    var i := 0;
    while i < |rows|
      invariant 0 <= i <= |rows|
      invariant |ys| == |es| == |edots| == |ldots| == i
      invariant forall j :: 0 <= j < i ==>
        ys[j] == rows[j].y && es[j] == rows[j].e && edots[j] == rows[j].edot && ldots[j] == rows[j].ldot
    {
      ys := ys + [rows[i].y];
      es := es + [rows[i].e];
      edots := edots + [rows[i].edot];
      ldots := ldots + [rows[i].ldot];
      i := i + 1;
    }
    var uniqueYs := SortUnique(ys);
    var uniqueEs := SortUnique(es);
    grid := FluxGrid(uniqueYs, uniqueEs, edots, ldots);
    forall y
      ensures y in grid.ys <==> exists j :: 0 <= j < |rows| && rows[j].y == y
    {
      assert y in grid.ys <==> y in Elements(ys);
      if exists j :: 0 <= j < |rows| && rows[j].y == y {
        var j :| 0 <= j < |rows| && rows[j].y == y;
        assert ys[j] == y;
      }
    }
    forall e
      ensures e in grid.es <==> exists j :: 0 <= j < |rows| && rows[j].e == e
    {
      assert e in grid.es <==> e in Elements(es);
      if exists j :: 0 <= j < |rows| && rows[j].e == e {
        var j :| 0 <= j < |rows| && rows[j].e == e;
        assert es[j] == e;
      }
    }
  }
}
