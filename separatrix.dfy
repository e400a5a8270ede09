/** The separatrix finder of src/Utility.cc (`get_separatrix`), the
    inclination conversion `Y_to_xI`, and their element-wise batch loops. */
module Separatrix {
  import opened Numeric
  import opened RootSolver

  /** `sqrt` and `pow(., 1./3.)` as the closed forms use them. */
  datatype MathKernels = MathKernels(sqrt: real -> real, cbrt: real -> real)

  /** The square-root kernel returns the non-negative square root on
      non-negative arguments. */
  ghost predicate SqrtSound(m: MathKernels)
  {
    forall y: real {:trigger m.sqrt(y)} :: y >= 0.0 ==> m.sqrt(y) >= 0.0 && m.sqrt(y) * m.sqrt(y) == y
  }

  /** The cube-root kernel returns the non-negative cube root on non-negative
      arguments. */
  ghost predicate CbrtSound(m: MathKernels)
  {
    forall y: real {:trigger m.cbrt(y)} :: y >= 0.0 ==> m.cbrt(y) >= 0.0 && m.cbrt(y) * m.cbrt(y) * m.cbrt(y) == y
  }

  /** Lower end of the polar bracket, 1 + sqrt(3) + sqrt(3 + 2 sqrt(3)). */
  function PolarLower(m: MathKernels): real
  {
    1.0 + m.sqrt(3.0) + m.sqrt(3.0 + 2.0 * m.sqrt(3.0))
  }

  const PolarUpper: real := 8.0
  const RetrogradeUpper: real := 12.0

  /** The closed form for circular equatorial orbits: the depressed-cubic
      construction z1, z2, with the root's sign flipped for prograde (x > 0)
      versus retrograde orbits. */
  function CircularEquatorial(m: MathKernels, a: real, x: real): real
  {
    var sign := if x > 0.0 then -1.0 else 1.0;
    3.0 + Z2(m, a) + sign * m.sqrt((3.0 - Z1(m, a)) * (3.0 + Z1(m, a) + 2.0 * Z2(m, a)))
  }

  function Z1(m: MathKernels, a: real): real
  {
    1.0 + m.cbrt(1.0 - a * a) * (m.cbrt(1.0 + a) + m.cbrt(1.0 - a))
  }

  function Z2(m: MathKernels, a: real): real
  {
    m.sqrt(3.0 * a * a + Z1(m, a) * Z1(m, a))
  }

  /** The polar solve every generic case starts with. */
  function PolarSolve(m: MathKernels, eng: Engine, a: real, e: real, x: real): Result<real>
  {
    var s :- SolverSpec(eng, SeparatrixPolar, Params(a, 0.0, e, x, 0.0), PolarLower(m), PolarUpper);
    Ok(s.root)
  }

  /** The equatorial solve that gives prograde orbits their lower bracket end. */
  function EquatorialSolve(eng: Engine, a: real, e: real, x: real): Result<real>
  {
    var s :- SolverSpec(eng, SeparatrixEquat, Params(a, 0.0, e, x, 0.0), 1.0 + e, 6.0 + 2.0 * e);
    Ok(s.root)
  }

  /** The full-polynomial solve on a given bracket. */
  function FullSolve(eng: Engine, a: real, e: real, x: real, lo: real, hi: real): Result<real>
  {
    var s :- SolverSpec(eng, SeparatrixFull, Params(a, 0.0, e, x, 0.0), lo, hi);
    Ok(s.root)
  }

  /** `get_separatrix(a, e, x)`. */
  function GetSeparatrix(m: MathKernels, eng: Engine, a: real, e: real, x: real): Result<real>
  {
    if a == 0.0 then Ok(6.0 + 2.0 * e)
    else if e == 0.0 && Abs(x) == 1.0 then Ok(CircularEquatorial(m, a, x))
    else
      var polar :- PolarSolve(m, eng, a, e, x);
      if x == 0.0 then Ok(polar)
      else if x > 0.0 then
        var equat :- EquatorialSolve(eng, a, e, x);
        FullSolve(eng, a, e, x, equat, polar)
      else FullSolve(eng, a, e, x, polar, RetrogradeUpper)
  }

  /** Zero spin gives 6 + 2e whatever e, x and the solver are. */
  lemma SchwarzschildSeparatrix(m: MathKernels, eng: Engine, a: real, e: real, x: real)
    requires a == 0.0
    ensures GetSeparatrix(m, eng, a, e, x) == Ok(6.0 + 2.0 * e)
  {
  }

  /** Circular equatorial orbits with spin use the closed form and call no
      solver: the result is the same for any two engines. */
  lemma CircularEquatorialIgnoresSolver(m: MathKernels, eng1: Engine, eng2: Engine, a: real, e: real, x: real)
    requires a != 0.0 && e == 0.0 && Abs(x) == 1.0
    ensures GetSeparatrix(m, eng1, a, e, x) == GetSeparatrix(m, eng2, a, e, x) == Ok(CircularEquatorial(m, a, x))
  {
  }

  lemma CubeStrictlyMonotone(p: real, q: real)
    requires 0.0 <= p < q
    ensures p * p * p < q * q * q
  {
    assert q * q * q - p * p * p == (q - p) * (q * q + q * p + p * p);
    assert q * q + q * p + p * p > 0.0;
  }

  /** Non-negative cube roots multiply: cbrt(u v) = cbrt(u) cbrt(v). */
  lemma CbrtOfProduct(m: MathKernels, u: real, v: real)
    requires CbrtSound(m)
    requires u >= 0.0 && v >= 0.0
    ensures m.cbrt(u * v) == m.cbrt(u) * m.cbrt(v)
  {
    var cu, cv, cw := m.cbrt(u), m.cbrt(v), m.cbrt(u * v);
    NonNegProduct(u, v);
    assert cu >= 0.0 && cv >= 0.0 && cw >= 0.0;
    CubeOfProduct(cu, cv, u, v);
    NonNegProduct(cu, cv);
    if cw < cu * cv {
      CubeStrictlyMonotone(cw, cu * cv);
    } else if cw > cu * cv {
      CubeStrictlyMonotone(cu * cv, cw);
    }
  }

  lemma CubeOfProduct(p: real, q: real, u: real, v: real)
    requires p * p * p == u && q * q * q == v
    ensures (p * q) * (p * q) * (p * q) == u * v
  {
    assert (p * q) * (p * q) * (p * q) == (p * p * p) * (q * q * q);
  }

  lemma NonNegProduct(p: real, q: real)
    requires p >= 0.0 && q >= 0.0
    ensures p * q >= 0.0
  {
  }

  lemma SquareNonNeg(p: real)
    ensures p * p >= 0.0
  {
  }

  /** Two non-negative reals whose cubes sum to 2 satisfy
      0 <= u v (u + v) <= 2, since (u + v)^3 <= 4 (u^3 + v^3) = 8. */
  lemma CubeRootPairBound(u: real, v: real)
    requires u >= 0.0 && v >= 0.0 && u * u * u + v * v * v == 2.0
    ensures 0.0 <= u * v * (u + v) <= 2.0
  {
    var s := u + v;
    var w := u * v * s;
    NonNegProduct(u, v);
    NonNegProduct(u * v, s);
    var d := (u - v) * (u - v);
    SquareNonNeg(u - v);
    NonNegProduct(s, d);
    assert s * d == u * u * u + v * v * v - w;
  }

  /** The z1 bound on plain reals: with c = u v, u^3 = 1 + a, v^3 = 1 - a,
      1 <= 1 + c (u + v) <= 3. */
  lemma Z1Bound(a: real, c: real, u: real, v: real)
    requires u >= 0.0 && v >= 0.0 && c == u * v
    requires u * u * u == 1.0 + a && v * v * v == 1.0 - a
    ensures 1.0 <= 1.0 + c * (u + v) <= 3.0
  {
    CubeRootPairBound(u, v);
    assert c * (u + v) == u * v * (u + v);
  }

  /** For spin in [0, 1], z1 of the circular closed form lies in [1, 3]. */
  lemma CircularZ1AtMostThree(m: MathKernels, a: real)
    requires CbrtSound(m)
    requires 0.0 <= a <= 1.0
    ensures 1.0 <= Z1(m, a) <= 3.0
  {
    var u, v := m.cbrt(1.0 + a), m.cbrt(1.0 - a);
    var prod := (1.0 + a) * (1.0 - a);
    assert prod == 1.0 - a * a;
    CbrtOfProduct(m, 1.0 + a, 1.0 - a);
    assert m.cbrt(prod) == m.cbrt(1.0 - a * a);
    assert u * u * u == 1.0 + a && v * v * v == 1.0 - a && u >= 0.0 && v >= 0.0;
    Z1Bound(a, m.cbrt(1.0 - a * a), u, v);
  }

  /** With z1 in [1, 3] and z2 >= 0, (3 - z1)(3 + z1 + 2 z2) >= 0. */
  lemma DiscriminantNonNeg(z1: real, z2: real)
    requires 1.0 <= z1 <= 3.0 && z2 >= 0.0
    ensures (3.0 - z1) * (3.0 + z1 + 2.0 * z2) >= 0.0
  {
    NonNegProduct(3.0 - z1, 3.0 + z1 + 2.0 * z2);
  }

  /** For circular equatorial orbits the prograde separatrix is never above
      the retrograde one: the sign flip subtracts rather than adds the same
      non-negative square root. */
  lemma ProgradeNotAboveRetrograde(m: MathKernels, a: real)
    requires SqrtSound(m) && CbrtSound(m)
    requires 0.0 < a <= 1.0
    ensures CircularEquatorial(m, a, 1.0) <= CircularEquatorial(m, a, -1.0)
  {
    CircularZ1AtMostThree(m, a);
    SquareNonNeg(a);
    SquareNonNeg(Z1(m, a));
    assert Z2(m, a) >= 0.0;
    DiscriminantNonNeg(Z1(m, a), Z2(m, a));
  }

  lemma SquareMonotone(p: real, q: real)
    requires 0.0 <= p <= q
    ensures p * p <= q * q
  {
    assert q * q - p * p == (q - p) * (q + p);
    NonNegProduct(q - p, q + p);
  }

  /** Non-negative reals compare as their squares do. */
  lemma SquareLess(p: real, q: real)
    requires 0.0 <= p && 0.0 <= q && p * p < q * q
    ensures p < q
  {
    if q <= p {
      SquareMonotone(q, p);
    }
  }

  /** The polar bracket [1 + sqrt(3) + sqrt(3 + 2 sqrt(3)), 8] is ordered and
      its lower end lies between 5 and 6. */
  lemma PolarBracketOrdered(m: MathKernels)
    requires SqrtSound(m)
    ensures 5.0 < PolarLower(m) < 6.0 < PolarUpper
  {
    var r3 := m.sqrt(3.0);
    assert r3 * r3 == 3.0 && r3 >= 0.0;
    SquareLess(r3, 2.0);
    SquareLess(1.7, r3);
    var t := m.sqrt(3.0 + 2.0 * r3);
    assert t * t == 3.0 + 2.0 * r3 && t >= 0.0;
    SquareLess(t, 3.0);
    SquareLess(2.5, t);
  }

  /** Every generic case runs the polar solve first: if it throws, so does
      `get_separatrix`, and a polar orbit (x = 0) returns its root. */
  lemma PolarSolveComesFirst(m: MathKernels, eng: Engine, a: real, e: real, x: real)
    requires a != 0.0 && !(e == 0.0 && Abs(x) == 1.0)
    ensures PolarSolve(m, eng, a, e, x).Err? ==> GetSeparatrix(m, eng, a, e, x).Err?
    ensures x == 0.0 ==> GetSeparatrix(m, eng, a, e, x) == PolarSolve(m, eng, a, e, x)
  {
  }

  /** The generic brackets: prograde orbits solve the full polynomial between
      the equatorial and polar roots, retrograde orbits between the polar root
      and 12. */
  lemma GenericBrackets(m: MathKernels, eng: Engine, a: real, e: real, x: real)
    requires a != 0.0 && !(e == 0.0 && Abs(x) == 1.0) && x != 0.0
    requires PolarSolve(m, eng, a, e, x).Ok?
    ensures x > 0.0 && EquatorialSolve(eng, a, e, x).Ok? ==>
      GetSeparatrix(m, eng, a, e, x)
        == FullSolve(eng, a, e, x, EquatorialSolve(eng, a, e, x).value, PolarSolve(m, eng, a, e, x).value)
    ensures x > 0.0 && EquatorialSolve(eng, a, e, x).Err? ==> GetSeparatrix(m, eng, a, e, x).Err?
    ensures x < 0.0 ==>
      GetSeparatrix(m, eng, a, e, x) == FullSolve(eng, a, e, x, PolarSolve(m, eng, a, e, x).value, RetrogradeUpper)
  {
  }

  /** With a bracket-keeping solver, the generic separatrix orders the orbit
      families: a polar orbit's value is in the polar bracket, a retrograde
      orbit's is at least the polar root, a prograde orbit's is at most the
      polar root and at least the equatorial one. Only a prograde orbit whose
      equatorial root exceeds the polar root can make it throw. */
  lemma GenericSeparatrixOrdering(m: MathKernels, eng: Engine, a: real, e: real, x: real)
    requires KeepsBracket(eng) && SqrtSound(m)
    requires a != 0.0 && !(e == 0.0 && Abs(x) == 1.0)
    requires e >= 0.0
    ensures PolarSolve(m, eng, a, e, x).Ok?
    ensures var polar := PolarSolve(m, eng, a, e, x).value;
            var sep := GetSeparatrix(m, eng, a, e, x);
            && PolarLower(m) <= polar <= PolarUpper
            && (x == 0.0 ==> sep == Ok(polar))
            && (x < 0.0 ==> sep.Ok? && polar <= sep.value <= RetrogradeUpper)
            && (x > 0.0 ==> (EquatorialSolve(eng, a, e, x).Ok?
                  && 1.0 + e <= EquatorialSolve(eng, a, e, x).value <= 6.0 + 2.0 * e))
            && (x > 0.0 && EquatorialSolve(eng, a, e, x).value <= polar ==>
                  sep.Ok? && EquatorialSolve(eng, a, e, x).value <= sep.value <= polar)
  {
    PolarInBracket(m, eng, a, e, x);
    var polar := PolarSolve(m, eng, a, e, x).value;
    if x < 0.0 {
      FullInBracket(eng, a, e, x, polar, RetrogradeUpper);
    } else if x > 0.0 {
      EquatorialInBracket(eng, a, e, x);
      var equat := EquatorialSolve(eng, a, e, x).value;
      if equat <= polar {
        FullInBracket(eng, a, e, x, equat, polar);
      }
    }
  }

  lemma PolarInBracket(m: MathKernels, eng: Engine, a: real, e: real, x: real)
    requires KeepsBracket(eng) && SqrtSound(m)
    ensures PolarSolve(m, eng, a, e, x).Ok?
    ensures PolarLower(m) <= PolarSolve(m, eng, a, e, x).value <= PolarUpper
  {
    PolarBracketOrdered(m);
    SolverStaysInBracket(eng, SeparatrixPolar, Params(a, 0.0, e, x, 0.0), PolarLower(m), PolarUpper);
  }

  lemma EquatorialInBracket(eng: Engine, a: real, e: real, x: real)
    requires KeepsBracket(eng) && e >= 0.0
    ensures EquatorialSolve(eng, a, e, x).Ok?
    ensures 1.0 + e <= EquatorialSolve(eng, a, e, x).value <= 6.0 + 2.0 * e
  {
    SolverStaysInBracket(eng, SeparatrixEquat, Params(a, 0.0, e, x, 0.0), 1.0 + e, 6.0 + 2.0 * e);
  }

  lemma FullInBracket(eng: Engine, a: real, e: real, x: real, lo: real, hi: real)
    requires KeepsBracket(eng) && lo <= hi
    ensures FullSolve(eng, a, e, x, lo, hi).Ok?
    ensures lo <= FullSolve(eng, a, e, x, lo, hi).value <= hi
  {
    SolverStaysInBracket(eng, SeparatrixFull, Params(a, 0.0, e, x, 0.0), lo, hi);
  }

  /** `get_separatrix_vector`: element i of the output is `get_separatrix` of
      element i of the inputs. A throw at element i stops the loop with the
      earlier elements written. The output may alias an input. */
  method GetSeparatrixVector(m: MathKernels, eng: Engine, separatrix: array<real>,
                             a: array<real>, e: array<real>, x: array<real>, length: int)
    returns (outcome: BatchOutcome)
    requires length <= separatrix.Length && length <= a.Length && length <= e.Length && length <= x.Length
    modifies separatrix
    ensures outcome.ThrewAt? ==>
      && outcome.index < length
      && GetSeparatrix(m, eng, old(a[outcome.index]), old(e[outcome.index]), old(x[outcome.index]))
           == Err(outcome.error)
    ensures forall k :: 0 <= k < Done(outcome, length) ==>
      GetSeparatrix(m, eng, old(a[k]), old(e[k]), old(x[k])) == Ok(separatrix[k])
    ensures forall k :: Done(outcome, length) <= k < separatrix.Length ==> separatrix[k] == old(separatrix[k])
  {
    var i := 0;
    while i < length
      invariant 0 <= i <= Done(Completed, length)
      invariant forall k :: i <= k < a.Length ==> a[k] == old(a[k])
      invariant forall k :: i <= k < e.Length ==> e[k] == old(e[k])
      invariant forall k :: i <= k < x.Length ==> x[k] == old(x[k])
      invariant forall k :: 0 <= k < i ==> GetSeparatrix(m, eng, old(a[k]), old(e[k]), old(x[k])) == Ok(separatrix[k])
      invariant forall k :: i <= k < separatrix.Length ==> separatrix[k] == old(separatrix[k])
    {
      var r := GetSeparatrix(m, eng, a[i], e[i], x[i]);
      if r.Err? {
        return ThrewAt(i, r.error);
      }
      separatrix[i] := r.value;
      i := i + 1;
    }
    outcome := Completed;
  }

  const YLim: real := 0.998

  /** The search bracket `Y_to_xI` uses for |Y| <= 0.998: Y +- 0.15 clamped
      to [-0.998, 0.998]. */
  function InclinationBracket(y: real): (b: (real, real))
    requires Abs(y) <= YLim
    ensures -YLim <= b.0 <= y <= b.1 <= YLim
    ensures y - 0.15 <= b.0 && b.1 <= y + 0.15
  {
    (Max(y - 0.15, -YLim), Min(y + 0.15, YLim))
  }

  /** `Y_to_xI(a, p, e, Y)`: the inclination x whose Y = L / sqrt(L^2 + Q)
      matches, or Y itself when |Y| > 0.998. */
  function YToXI(eng: Engine, a: real, p: real, e: real, y: real): Result<real>
  {
    if Abs(y) > YLim then Ok(y)
    else
      var b := InclinationBracket(y);
      var s :- SolverSpec(eng, InclinationEquation, Params(a, p, e, 0.0, y), b.0, b.1);
      Ok(s.root)
  }

  /** With a bracket-keeping solver `Y_to_xI` never throws, passes Y through
      above 0.998 in magnitude, and otherwise returns an x within 0.15 of Y
      and inside [-0.998, 0.998]. */
  lemma InclinationWithinBracket(eng: Engine, a: real, p: real, e: real, y: real)
    requires KeepsBracket(eng)
    ensures YToXI(eng, a, p, e, y).Ok?
    ensures Abs(y) > YLim ==> YToXI(eng, a, p, e, y).value == y
    ensures Abs(y) <= YLim ==>
      var x := YToXI(eng, a, p, e, y).value;
      -YLim <= x <= YLim && Abs(x - y) <= 0.15
  {
    if Abs(y) <= YLim {
      var b := InclinationBracket(y);
      SolverStaysInBracket(eng, InclinationEquation, Params(a, p, e, 0.0, y), b.0, b.1);
    }
  }

  /** `Y_to_xI_vector`: element-wise `Y_to_xI`, the output may alias an input. */
  method YToXIVector(eng: Engine, x: array<real>, a: array<real>, p: array<real>, e: array<real>,
                     y: array<real>, length: int)
    returns (outcome: BatchOutcome)
    requires length <= x.Length && length <= a.Length && length <= p.Length && length <= e.Length && length <= y.Length
    modifies x
    ensures outcome.ThrewAt? ==>
      && outcome.index < length
      && YToXI(eng, old(a[outcome.index]), old(p[outcome.index]), old(e[outcome.index]), old(y[outcome.index]))
           == Err(outcome.error)
    ensures forall k :: 0 <= k < Done(outcome, length) ==>
      YToXI(eng, old(a[k]), old(p[k]), old(e[k]), old(y[k])) == Ok(x[k])
    ensures forall k :: Done(outcome, length) <= k < x.Length ==> x[k] == old(x[k])
  {
    var i := 0;
    while i < length
      invariant 0 <= i <= Done(Completed, length)
      invariant forall k :: i <= k < a.Length ==> a[k] == old(a[k])
      invariant forall k :: i <= k < p.Length ==> p[k] == old(p[k])
      invariant forall k :: i <= k < e.Length ==> e[k] == old(e[k])
      invariant forall k :: i <= k < y.Length ==> y[k] == old(y[k])
      invariant forall k :: 0 <= k < i ==> YToXI(eng, old(a[k]), old(p[k]), old(e[k]), old(y[k])) == Ok(x[k])
      invariant forall k :: i <= k < x.Length ==> x[k] == old(x[k])
    {
      var r := YToXI(eng, a[i], p[i], e[i], y[i]);
      if r.Err? {
        return ThrewAt(i, r.error);
      }
      x[i] := r.value;
      i := i + 1;
    }
    outcome := Completed;
  }
}
