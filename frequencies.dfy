/** Range checking and fundamental-frequency dispatch of src/Utility.cc:
    `sanity_check`, `KerrGeoCoordinateFrequencies` and its vectorized loop. */
module Frequencies {
  import opened Numeric

  /** `sanity_check(a, p, e, Y)`: 1 for a parameter set outside the physical
      ranges, 0 otherwise. */
  function SanityCheck(a: real, p: real, e: real, y: real): (res: int)
    ensures res == 0 || res == 1
    ensures res == 1 <==> (p < 0.0 || e < 0.0 || e > 1.0 || y < -1.0 || y > 1.0 || a < 0.0 || a > 1.0)
    ensures res == 0 <==> (p >= 0.0 && 0.0 <= e <= 1.0 && -1.0 <= y <= 1.0 && 0.0 <= a <= 1.0)
  {
    if p < 0.0 then 1
    else if e > 1.0 || e < 0.0 then 1
    else if y > 1.0 || y < -1.0 then 1
    else if a > 1.0 || a < 0.0 then 1
    else 0
  }

  /** The Mino-time frequencies Gamma, Upsilon_phi, Upsilon_theta, Upsilon_r. */
  datatype MinoFrequencies = MinoFrequencies(gamma: Double, upsilonPhi: Double, upsilonTheta: Double, upsilonR: Double)

  /** The coordinate-time frequencies Omega_phi, Omega_theta, Omega_r. */
  datatype CoordinateFrequencies = CoordinateFrequencies(omegaPhi: Double, omegaTheta: Double, omegaR: Double)

  /** The closed-form geodesic routines, each of which can throw from a GSL
      elliptic-integral wrapper: `KerrGeoMinoFrequencies`,
      `KerrEqGeoMinoFrequencies` (both on (a, p, e, x)) and
      `SchwarzschildGeoCoordinateFrequencies` (on (p, e), giving
      (Omega_phi, Omega_r)). */
  datatype GeodesicKernels = GeodesicKernels(
    mino: (real, real, real, real) -> Result<MinoFrequencies>,
    equatorialMino: (real, real, real, real) -> Result<MinoFrequencies>,
    schwarzschild: (real, real) -> Result<(Double, Double)>)

  /** The Mino-time routine `KerrGeoCoordinateFrequencies` calls. */
  function MinoFor(k: GeodesicKernels, a: real, p: real, e: real, x: real): Result<MinoFrequencies>
  {
    if Abs(x) == 1.0 then k.equatorialMino(a, p, e, x) else k.mino(a, p, e, x)
  }

  /** True when the NaN guard fires: Upsilon_phi, Gamma or Upsilon_r is NaN. */
  predicate NanGuardFires(mf: MinoFrequencies)
  {
    mf.upsilonPhi.NaN? || mf.gamma.NaN? || mf.upsilonR.NaN?
  }

  /** `KerrGeoCoordinateFrequencies(a, p, e, x)`. */
  function KerrGeoCoordinateFrequencies(k: GeodesicKernels, a: real, p: real, e: real, x: real): Result<CoordinateFrequencies>
  {
    var mf :- MinoFor(k, a, p, e, x);
    if NanGuardFires(mf) then Err(NanInFrequencies)
    else Ok(CoordinateFrequencies(Div(mf.upsilonPhi, mf.gamma), Div(mf.upsilonTheta, mf.gamma), Div(mf.upsilonR, mf.gamma)))
  }

  /** Exactly |x| = 1 selects the equatorial routine: the result does not
      depend on the other routine at all. */
  lemma DispatchOnInclination(k1: GeodesicKernels, k2: GeodesicKernels, a: real, p: real, e: real, x: real)
    requires Abs(x) == 1.0 ==> k1.equatorialMino == k2.equatorialMino
    requires Abs(x) != 1.0 ==> k1.mino == k2.mino
    ensures KerrGeoCoordinateFrequencies(k1, a, p, e, x) == KerrGeoCoordinateFrequencies(k2, a, p, e, x)
  {
  }

  /** The NaN guard: the routine throws "Nan in fundamental frequencies"
      exactly when Upsilon_phi, Gamma or Upsilon_r is NaN; otherwise each
      output is its Upsilon divided by Gamma. */
  lemma NanGuard(k: GeodesicKernels, a: real, p: real, e: real, x: real)
    requires MinoFor(k, a, p, e, x).Ok?
    ensures var mf := MinoFor(k, a, p, e, x).value;
            var r := KerrGeoCoordinateFrequencies(k, a, p, e, x);
            && (r == Err(NanInFrequencies) <==> NanGuardFires(mf))
            && (r.Ok? <==> !NanGuardFires(mf))
            && (r.Ok? ==> r.value == CoordinateFrequencies(
                  Div(mf.upsilonPhi, mf.gamma), Div(mf.upsilonTheta, mf.gamma), Div(mf.upsilonR, mf.gamma)))
  {
  }

  /** A kernel throw propagates unchanged. */
  lemma KernelThrowPropagates(k: GeodesicKernels, a: real, p: real, e: real, x: real)
    requires MinoFor(k, a, p, e, x).Err?
    ensures KerrGeoCoordinateFrequencies(k, a, p, e, x) == Err(MinoFor(k, a, p, e, x).error)
  {
  }

  /** Dividing by a finite nonzero Gamma produces NaN only from a NaN. */
  lemma DivByFiniteNonzero(u: Double, g: Double)
    requires g.Finite? && g.v != 0.0
    ensures Div(u, g).NaN? <==> u.NaN?
    ensures u.Finite? ==> Div(u, g) == Finite(u.v / g.v)
  {
  }

  /** Upsilon_theta is not checked: a NaN there passes through to Omega_theta
      while the routine returns normally. With a finite nonzero Gamma, the
      checked outputs Omega_phi and Omega_r are never NaN. */
  lemma ThetaIsUnchecked(k: GeodesicKernels, a: real, p: real, e: real, x: real)
    requires MinoFor(k, a, p, e, x).Ok?
    requires var mf := MinoFor(k, a, p, e, x).value;
             mf.gamma.Finite? && mf.gamma.v != 0.0 && !NanGuardFires(mf)
    ensures var r := KerrGeoCoordinateFrequencies(k, a, p, e, x);
            && r.Ok?
            && !r.value.omegaPhi.NaN? && !r.value.omegaR.NaN?
            && (r.value.omegaTheta.NaN? <==> MinoFor(k, a, p, e, x).value.upsilonTheta.NaN?)
  {
    var mf := MinoFor(k, a, p, e, x).value;
    DivByFiniteNonzero(mf.upsilonPhi, mf.gamma);
    DivByFiniteNonzero(mf.upsilonTheta, mf.gamma);
    DivByFiniteNonzero(mf.upsilonR, mf.gamma);
  }

  /** One element of `KerrGeoCoordinateFrequenciesVectorized`: nonzero spin
      takes the Kerr routine, zero spin the Schwarzschild one with
      Omega_theta set to Omega_phi. */
  function ElementFrequencies(k: GeodesicKernels, a: real, p: real, e: real, x: real): Result<CoordinateFrequencies>
  {
    if a != 0.0 then KerrGeoCoordinateFrequencies(k, a, p, e, x)
    else
      var phiR :- k.schwarzschild(p, e);
      Ok(CoordinateFrequencies(phiR.0, phiR.0, phiR.1))
  }

  /** Zero spin takes the Schwarzschild path, where Omega_theta equals
      Omega_phi and x is ignored; nonzero spin takes the Kerr routine. */
  lemma ElementDispatch(k: GeodesicKernels, a: real, p: real, e: real, x: real, x2: real)
    ensures a != 0.0 ==> ElementFrequencies(k, a, p, e, x) == KerrGeoCoordinateFrequencies(k, a, p, e, x)
    ensures a == 0.0 ==> ElementFrequencies(k, a, p, e, x) == ElementFrequencies(k, a, p, e, x2)
    ensures a == 0.0 && ElementFrequencies(k, a, p, e, x).Ok? ==>
      var r := ElementFrequencies(k, a, p, e, x).value;
      r.omegaTheta == r.omegaPhi && (r.omegaPhi, r.omegaR) == k.schwarzschild(p, e).value
  {
  }

  /** `KerrGeoCoordinateFrequenciesVectorized`: element i of each output is
      computed from element i of each input. A throw at element i stops the
      loop with that element's outputs unwritten. */
  method KerrGeoCoordinateFrequenciesVectorized(
    k: GeodesicKernels,
    omegaPhi: array<Double>, omegaTheta: array<Double>, omegaR: array<Double>,
    a: array<real>, p: array<real>, e: array<real>, x: array<real>, length: int)
    returns (outcome: BatchOutcome)
    requires omegaPhi != omegaTheta && omegaPhi != omegaR && omegaTheta != omegaR
    requires length <= omegaPhi.Length && length <= omegaTheta.Length && length <= omegaR.Length
    requires length <= a.Length && length <= p.Length && length <= e.Length && length <= x.Length
    modifies omegaPhi, omegaTheta, omegaR
    ensures outcome.ThrewAt? ==>
      && outcome.index < length
      && ElementFrequencies(k, a[outcome.index], p[outcome.index], e[outcome.index], x[outcome.index])
           == Err(outcome.error)
    ensures forall i :: 0 <= i < Done(outcome, length) ==>
      ElementFrequencies(k, a[i], p[i], e[i], x[i]) == Ok(CoordinateFrequencies(omegaPhi[i], omegaTheta[i], omegaR[i]))
    ensures forall i :: Done(outcome, length) <= i < omegaPhi.Length ==> omegaPhi[i] == old(omegaPhi[i])
    ensures forall i :: Done(outcome, length) <= i < omegaTheta.Length ==> omegaTheta[i] == old(omegaTheta[i])
    ensures forall i :: Done(outcome, length) <= i < omegaR.Length ==> omegaR[i] == old(omegaR[i])
  {
    var i := 0;
    while i < length
      invariant 0 <= i <= Done(Completed, length)
      invariant forall j :: 0 <= j < i ==>
        ElementFrequencies(k, a[j], p[j], e[j], x[j]) == Ok(CoordinateFrequencies(omegaPhi[j], omegaTheta[j], omegaR[j]))
      invariant forall j :: i <= j < omegaPhi.Length ==> omegaPhi[j] == old(omegaPhi[j])
      invariant forall j :: i <= j < omegaTheta.Length ==> omegaTheta[j] == old(omegaTheta[j])
      invariant forall j :: i <= j < omegaR.Length ==> omegaR[j] == old(omegaR[j])
    {
      if a[i] != 0.0 {
        var r := KerrGeoCoordinateFrequencies(k, a[i], p[i], e[i], x[i]);
        if r.Err? {
          return ThrewAt(i, r.error);
        }
        omegaPhi[i] := r.value.omegaPhi;
        omegaTheta[i] := r.value.omegaTheta;
        omegaR[i] := r.value.omegaR;
      } else {
        var phiR := k.schwarzschild(p[i], e[i]);
        if phiR.Err? {
          return ThrewAt(i, phiR.error);
        }
        omegaPhi[i] := phiR.value.0;
        omegaR[i] := phiR.value.1;
        omegaTheta[i] := omegaPhi[i];
      }
      i := i + 1;
    }
    outcome := Completed;
  }
}
