/** IEEE-style double values where the source inspects NaN or divides, and the
    error outcomes the modelled routines raise or throw. */
module Numeric {

  /** A double as far as the modelled control logic can observe it: a finite
      value, an infinity of either sign, or NaN. Signed zero is not modelled. */
  datatype Double = Finite(v: real) | Infinite(positive: bool) | NaN

  const Zero: Double := Finite(0.0)

  /** The outcome of an operation that can raise (Python) or throw (C++). */
  datatype Error =
    | BrentSolverFailed          // std::invalid_argument "In Utility.cc Brent root solver failed"
    | EllipticIntegralFailed     // std::invalid_argument from a GSL elliptic-integral wrapper
    | NanInFrequencies           // std::invalid_argument "Nan in fundamental frequencies"
    | NanRescaledRadius          // std::exception() thrown by KerrEccentricEquatorial
    | MissingFundFreqArgs        // ValueError: sensitivity weighting without fund_freq_args
    | EmptyPowerAxis             // IndexError: cumsum[:, -1] on a row with no modes
    | KnotsTooShort              // ValueError: t must have length greater than 2
    | KnotsTooShortAlongTime     // ValueError: ... along time axis
    | KnotsBadDimension          // ValueError: t must be 1 or 2 dimensions
    | OutsideDomainForDerivative // ValueError: points outside the domain with deriv_order != 0
    | BadDerivativeOrder         // ValueError: deriv_order must be within 0 <= deriv_order <= 3
    | UnboundLocalInds           // UnboundLocalError: local `inds` read before assignment
    | BroadcastMismatch          // ValueError: operands could not be broadcast together
    | BinOverflow                // OverflowError/ValueError converting inf/nan to int

  datatype Result<T> = Ok(value: T) | Err(error: Error) {
    predicate IsFailure() { Err? }
    function PropagateFailure<U>(): Result<U> requires Err? { Err(error) }
    function Extract(): T requires Ok? { value }
  }

  /** How a batch loop over elements ended: every element done, or the
      element at `index` threw and stopped the loop. */
  datatype BatchOutcome = Completed | ThrewAt(index: nat, error: Error)

  /** The number of elements a batch loop of `length` finished. */
  function Done(outcome: BatchOutcome, length: int): nat
  {
    if outcome.ThrewAt? then outcome.index else if length < 0 then 0 else length
  }

  /** IEEE division on the three kinds of value (zero treated as +0). */
  function Div(x: Double, y: Double): (r: Double)
    ensures x.NaN? || y.NaN? ==> r.NaN?
    ensures x.Finite? && y.Finite? && y.v != 0.0 ==> r == Finite(x.v / y.v)
    ensures x.Finite? && y.Finite? && y.v == 0.0 ==> (r.NaN? <==> x.v == 0.0)
    ensures x.Infinite? && y.Infinite? ==> r.NaN?
  {
    match (x, y)
    case (NaN, _) => NaN
    case (_, NaN) => NaN
    case (Finite(u), Finite(w)) =>
      if w != 0.0 then Finite(u / w)
      else if u == 0.0 then NaN
      else Infinite(u > 0.0)
    case (Finite(_), Infinite(_)) => Zero
    case (Infinite(pu), Finite(w)) => Infinite(pu == (w >= 0.0))
    case (Infinite(_), Infinite(_)) => NaN
  }

  /** IEEE multiplication on the three kinds of value (zero treated as +0). */
  function Mul(x: Double, y: Double): (r: Double)
    ensures x.NaN? || y.NaN? ==> r.NaN?
    ensures x.Finite? && y.Finite? ==> r == Finite(x.v * y.v)
    ensures (x == Zero && y.Infinite?) || (x.Infinite? && y == Zero) ==> r.NaN?
  {
    if x.NaN? || y.NaN? then NaN
    else if x.Finite? && y.Finite? then Finite(x.v * y.v)
    else if x.Finite? then (if x.v == 0.0 then NaN else Infinite(y.positive == (x.v > 0.0)))
    else if y.Finite? then (if y.v == 0.0 then NaN else Infinite(x.positive == (y.v > 0.0)))
    else Infinite(x.positive == y.positive)
  }

  /** Knots, grids and other real sequences in ascending order. */
  predicate NonDecreasing(s: seq<real>)
  {
    forall i, j :: 0 <= i < j < |s| ==> s[i] <= s[j]
  }

  predicate StrictlyIncreasing(s: seq<real>)
  {
    forall i, j :: 0 <= i < j < |s| ==> s[i] < s[j]
  }

  /** The indices 0, 1, ..., n - 1 in order (`arange(n)`). */
  function Range(n: nat): (r: seq<nat>)
    ensures |r| == n && forall i :: 0 <= i < n ==> r[i] == i
  {
    seq(n, i requires 0 <= i < n => i)
  }

  function Abs(x: real): real { if x < 0.0 then -x else x }

  function Max(x: real, y: real): real { if x > y then x else y }

  function Min(x: real, y: real): real { if x < y then x else y }
}
