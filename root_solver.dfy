/** The bracketed root solver of src/Utility.cc (`solver`): a bounded
    do-while loop around GSL's Brent iteration with a warn-versus-throw exit
    policy. The Brent step itself is an abstract engine; the stopping test is
    GSL's interval convergence test. */
module RootSolver {
  import opened Numeric

  const MaxIter: nat := 1000
  const EpsRel: real := 0.001
  const EpsAbs: real := 0.0

  /** The `params_holder` record handed to the objective function. */
  datatype Params = Params(a: real, p: real, e: real, x: real, y: real)

  /** Which objective function the solver is bracketing a root of. */
  datatype Objective =
    | SeparatrixFull      // separatrix_polynomial_full
    | SeparatrixPolar     // separatrix_polynomial_polar
    | SeparatrixEquat     // separatrix_polynomial_equat
    | InclinationEquation // Y_to_xI_eq

  /** What the loop reads from the GSL solver object after each iteration:
      the current estimate and bracket, plus the solver's private memory. */
  datatype SolverState = SolverState(
    objective: Objective, params: Params,
    root: real, lower: real, upper: real,
    memory: seq<real>)

  /** The GSL Brent solver: `gsl_root_fsolver_set` and one
      `gsl_root_fsolver_iterate` step. The status code of `iterate` is not
      part of the engine because the loop overwrites it unread. */
  datatype Engine = Engine(
    start: (Objective, Params, real, real) -> SolverState,
    iterate: SolverState -> SolverState)

  /** GSL status codes as the loop sees them. */
  datatype Status = Success | Continue | BadTolerance | InvalidInterval

  /** The minimum GSL's interval test scales `epsRel` by: min(|lo|, |hi|)
      when the interval lies strictly on one side of the origin, 0 when it
      touches or straddles it. */
  function ToleranceMin(lo: real, hi: real): (m: real)
    ensures m >= 0.0
    ensures m <= Abs(lo) && m <= Abs(hi)
    ensures m == 0.0 <==> !((lo > 0.0 && hi > 0.0) || (lo < 0.0 && hi < 0.0))
  {
    if (lo > 0.0 && hi > 0.0) || (lo < 0.0 && hi < 0.0) then Min(Abs(lo), Abs(hi)) else 0.0
  }

  /** GSL's interval convergence test (`gsl_root_test_interval`, with the
      error handler off so that failures come back as status codes): a
      negative tolerance is rejected first, then an inverted interval, and
      otherwise the interval has converged exactly when
      |hi - lo| < epsAbs + epsRel * ToleranceMin(lo, hi). */
  function TestInterval(lo: real, hi: real, epsAbs: real, epsRel: real): (st: Status)
    ensures st == BadTolerance <==> epsRel < 0.0 || epsAbs < 0.0
    ensures st == InvalidInterval <==> epsRel >= 0.0 && epsAbs >= 0.0 && lo > hi
    ensures st == Success <==>
      epsRel >= 0.0 && epsAbs >= 0.0 && lo <= hi && Abs(hi - lo) < epsAbs + epsRel * ToleranceMin(lo, hi)
    ensures st == Continue <==>
      epsRel >= 0.0 && epsAbs >= 0.0 && lo <= hi && Abs(hi - lo) >= epsAbs + epsRel * ToleranceMin(lo, hi)
    ensures st == Success ==> Abs(hi - lo) < epsAbs + epsRel * Min(Abs(lo), Abs(hi))
  {
    if epsRel < 0.0 || epsAbs < 0.0 then BadTolerance
    else if lo > hi then InvalidInterval
    else if Abs(hi - lo) < epsAbs + epsRel * ToleranceMin(lo, hi) then Success
    else Continue
  }

  /** The solver state after `k` passes of the loop body. */
  function Run(eng: Engine, s0: SolverState, k: nat): SolverState
  {
    if k == 0 then s0 else eng.iterate(Run(eng, s0, k - 1))
  }

  /** The status computed at the end of the `k`-th pass. */
  function StatusAfter(eng: Engine, s0: SolverState, k: nat): Status
  {
    var s := Run(eng, s0, k);
    TestInterval(s.lower, s.upper, EpsAbs, EpsRel)
  }

  /** The pass on which the do-while loop stops, searching from pass `k`. */
  function ExitFrom(eng: Engine, s0: SolverState, k: nat): nat
    requires 1 <= k <= MaxIter
    decreases MaxIter - k
  {
    if StatusAfter(eng, s0, k) != Continue || k == MaxIter then k
    else ExitFrom(eng, s0, k + 1)
  }

  /** The number of passes the loop makes from the initial state. */
  function Iterations(eng: Engine, s0: SolverState): nat
  {
    ExitFrom(eng, s0, 1)
  }

  /** A returned root, and whether the iteration-cap warning was printed. */
  datatype Solution = Solution(root: real, warned: bool)

  /** What `solver` returns or throws, as a function of its inputs. */
  function SolverSpec(eng: Engine, f: Objective, params: Params, xLo: real, xHi: real): Result<Solution>
  {
    var s0 := eng.start(f, params, xLo, xHi);
    var n := Iterations(eng, s0);
    var s := Run(eng, s0, n);
    if StatusAfter(eng, s0, n) == Success then Ok(Solution(s.root, false))
    else if n == MaxIter then Ok(Solution(s.root, true))
    else Err(BrentSolverFailed)
  }

  /** Characterises the exit pass: every earlier pass reported Continue, and
      the exit pass either did not or hit the cap. */
  lemma {:induction false} ExitFromIsFirstStop(eng: Engine, s0: SolverState, k: nat, n: nat)
    requires 1 <= k <= n <= MaxIter
    requires forall j :: k <= j < n ==> StatusAfter(eng, s0, j) == Continue
    requires StatusAfter(eng, s0, n) != Continue || n == MaxIter
    ensures ExitFrom(eng, s0, k) == n
    decreases n - k
  {
    if k < n {
      ExitFromIsFirstStop(eng, s0, k + 1, n);
    }
  }

  /** The loop body runs at least once and at most MaxIter times; every pass
      before the last one saw Continue, and the last one stopped the loop. */
  lemma {:induction false} ExitFromBounds(eng: Engine, s0: SolverState, k: nat)
    requires 1 <= k <= MaxIter
    ensures k <= ExitFrom(eng, s0, k) <= MaxIter
    ensures forall j :: k <= j < ExitFrom(eng, s0, k) ==> StatusAfter(eng, s0, j) == Continue
    ensures var n := ExitFrom(eng, s0, k); StatusAfter(eng, s0, n) != Continue || n == MaxIter
    decreases MaxIter - k
  {
    if StatusAfter(eng, s0, k) != Continue || k == MaxIter {
    } else {
      ExitFromBounds(eng, s0, k + 1);
    }
  }

  /** The exit policy: a success status returns the estimate silently; a
      non-success status returns it with a warning exactly when the cap was
      reached, and throws otherwise. A throw means the final interval was
      inverted, the only non-success, non-continue status the test yields. */
  lemma ExitPolicy(eng: Engine, f: Objective, params: Params, xLo: real, xHi: real)
    ensures var s0 := eng.start(f, params, xLo, xHi);
            var n := Iterations(eng, s0);
            var s := Run(eng, s0, n);
            && 1 <= n <= MaxIter
            && ((SolverSpec(eng, f, params, xLo, xHi) == Ok(Solution(s.root, false)))
                <==> StatusAfter(eng, s0, n) == Success)
            && ((SolverSpec(eng, f, params, xLo, xHi) == Ok(Solution(s.root, true)))
                <==> (StatusAfter(eng, s0, n) != Success && n == MaxIter))
            && (SolverSpec(eng, f, params, xLo, xHi).Err?
                <==> (n < MaxIter && s.lower > s.upper))
  {
    var s0 := eng.start(f, params, xLo, xHi);
    ExitFromBounds(eng, s0, 1);
  }

  /** A value returned without warning comes from an interval that met the
      relative tolerance 0.001 and lies on one side of the origin. */
  lemma ConvergedMeetsTolerance(eng: Engine, f: Objective, params: Params, xLo: real, xHi: real)
    requires SolverSpec(eng, f, params, xLo, xHi).Ok?
    requires !SolverSpec(eng, f, params, xLo, xHi).value.warned
    ensures var s0 := eng.start(f, params, xLo, xHi);
            var s := Run(eng, s0, Iterations(eng, s0));
            && s.root == SolverSpec(eng, f, params, xLo, xHi).value.root
            && s.lower <= s.upper
            && ((s.lower > 0.0 && s.upper > 0.0) || (s.lower < 0.0 && s.upper < 0.0))
            && s.upper - s.lower < EpsRel * Min(Abs(s.lower), Abs(s.upper))
  {
  }

  /** An interval that contains the origin never passes the test with a zero
      absolute tolerance, so such a search can only end on the cap. */
  lemma StraddlingIntervalNeverConverges(lo: real, hi: real)
    requires lo <= 0.0 <= hi
    ensures TestInterval(lo, hi, EpsAbs, EpsRel) == Continue
  {
  }

  /** `s` is inside [lo, hi] with its estimate inside its own bracket. */
  predicate Nested(s: SolverState, lo: real, hi: real)
  {
    lo <= s.lower <= s.root <= s.upper <= hi
  }

  /** The bracketing guarantee of Brent's method: `start` installs the given
      interval and each step keeps a sub-interval holding the estimate. */
  ghost predicate KeepsBracket(eng: Engine)
  {
    && (forall f, params, lo: real, hi: real {:trigger eng.start(f, params, lo, hi)} ::
          lo <= hi ==> Nested(eng.start(f, params, lo, hi), lo, hi))
    && (forall s: SolverState {:trigger eng.iterate(s)} ::
          s.lower <= s.root <= s.upper ==> Nested(eng.iterate(s), s.lower, s.upper))
  }

  lemma {:induction false} RunStaysNested(eng: Engine, s0: SolverState, k: nat, lo: real, hi: real)
    requires KeepsBracket(eng)
    requires Nested(s0, lo, hi)
    ensures Nested(Run(eng, s0, k), lo, hi)
  {
    if k > 0 {
      RunStaysNested(eng, s0, k - 1, lo, hi);
      var prev := Run(eng, s0, k - 1);
      assert Nested(eng.iterate(prev), prev.lower, prev.upper);
    }
  }

  /** With a bracket-keeping engine and an ordered bracket the solver never
      throws, and what it returns lies inside the bracket it was given. */
  lemma SolverStaysInBracket(eng: Engine, f: Objective, params: Params, xLo: real, xHi: real)
    requires KeepsBracket(eng)
    requires xLo <= xHi
    ensures SolverSpec(eng, f, params, xLo, xHi).Ok?
    ensures xLo <= SolverSpec(eng, f, params, xLo, xHi).value.root <= xHi
  {
    var s0 := eng.start(f, params, xLo, xHi);
    assert Nested(s0, xLo, xHi);
    var n := Iterations(eng, s0);
    ExitFromBounds(eng, s0, 1);
    RunStaysNested(eng, s0, n, xLo, xHi);
  }

  /** `solver`: iterate at least once, stop on a non-Continue status or at
      the cap, then apply the warn-versus-throw policy. */
  method Solver(eng: Engine, f: Objective, params: Params, xLo: real, xHi: real)
    returns (res: Result<Solution>)
    ensures res == SolverSpec(eng, f, params, xLo, xHi)
  {
    var s := eng.start(f, params, xLo, xHi);
    ghost var s0 := s;
    var iter: nat := 0;
    var status := Continue;
    var r, lo, hi := 0.0, xLo, xHi;
    while true
      invariant 0 <= iter < MaxIter
      invariant s == Run(eng, s0, iter)
      invariant forall j :: 1 <= j <= iter ==> StatusAfter(eng, s0, j) == Continue
      decreases MaxIter - iter
    {
      iter := iter + 1;
      s := eng.iterate(s);
      r := s.root;
      lo := s.lower;
      hi := s.upper;
      status := TestInterval(lo, hi, EpsAbs, EpsRel);
      if !(status == Continue && iter < MaxIter) {
        break;
      }
    }
    ExitFromIsFirstStop(eng, s0, 1, iter);
    if status != Success {
      if iter == MaxIter {
        res := Ok(Solution(r, true));
      } else {
        res := Err(BrentSolverFailed);
      }
    } else {
      res := Ok(Solution(r, false));
    }
  }
}
