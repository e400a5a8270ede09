/** Spline lookup and evaluation of few/summation/interpolatedmodesum.py
    (`CubicSplineInterpolant`) and the frequency-bin window of
    `TFInterpolatedModeSum.sum`.

    A spline family holds `ninterps` splines over knot rows of a common
    `length`; each knot k < length - 1 starts a segment with value y and
    coefficients c1, c2, c3. The fit itself happens in compiled code and is
    not modelled: the coefficients are data here. */
module InterpolatedModeSum {
  import opened Numeric

  // Validating the knots.

  /** The constructor's check of the shape of `t`: a vector needs two knots,
      a matrix two knots along its time axis, and no other rank is allowed.
      On success, the number of knots per spline. */
  function CheckKnotShape(shape: seq<nat>): (r: Result<nat>)
    ensures r.Ok? <==> (|shape| == 1 && shape[0] >= 2) || (|shape| == 2 && shape[1] >= 2)
    ensures r.Ok? ==> r.value >= 2 && r.value == shape[|shape| - 1]
    ensures r == Err(KnotsBadDimension) <==> |shape| != 1 && |shape| != 2
    ensures r == Err(KnotsTooShort) <==> |shape| == 1 && shape[0] < 2
    ensures r == Err(KnotsTooShortAlongTime) <==> |shape| == 2 && shape[1] < 2
  {
    if |shape| == 1 then
      (if shape[0] < 2 then Err(KnotsTooShort) else Ok(shape[0]))
    else if |shape| == 2 then
      (if shape[1] < 2 then Err(KnotsTooShortAlongTime) else Ok(shape[1]))
    else Err(KnotsBadDimension)
  }

  // Locating a point among the knots.

  /** `rows` rows of `width` entries each. */
  predicate Grid<T>(s: seq<seq<T>>, rows: nat, width: nat)
  {
    |s| == rows && forall i :: 0 <= i < rows ==> |s[i]| == width
  }

  /** Knot rows as the constructor accepts them: at least two knots each. */
  predicate Knots(t: seq<seq<real>>, length: nat)
  {
    length >= 2 && Grid(t, |t|, length)
  }

  predicate AscendingRows(t: seq<seq<real>>)
  {
    forall i :: 0 <= i < |t| ==> NonDecreasing(t[i])
  }

  /** `searchsorted(t, v, side="right")` as numpy computes it: a binary
      search over [lo, hi) that moves right past every knot not above v. */
  function SearchRight(t: seq<real>, v: real, lo: nat, hi: nat): (r: nat)
    requires lo <= hi <= |t|
    ensures lo <= r <= hi
    decreases hi - lo
  {
    if lo == hi then lo
    else
      var mid := lo + (hi - lo) / 2;
      if t[mid] <= v then SearchRight(t, v, mid + 1, hi) else SearchRight(t, v, lo, mid)
  }

  /** On ascending knots the search stops where the knots pass v, provided
      the knots outside [lo, hi) are already on the right sides. */
  lemma {:induction false} SearchRightSplits(t: seq<real>, v: real, lo: nat, hi: nat)
    requires NonDecreasing(t)
    requires lo <= hi <= |t|
    requires forall k :: 0 <= k < lo ==> t[k] <= v
    requires forall k :: hi <= k < |t| ==> t[k] > v
    ensures forall k :: 0 <= k < SearchRight(t, v, lo, hi) ==> t[k] <= v
    ensures forall k :: SearchRight(t, v, lo, hi) <= k < |t| ==> t[k] > v
    decreases hi - lo
  {
    if lo < hi {
      var mid := lo + (hi - lo) / 2;
      if t[mid] <= v {
        SearchRightSplits(t, v, mid + 1, hi);
      } else {
        SearchRightSplits(t, v, lo, mid);
      }
    }
  }

  function Searchsorted(t: seq<real>, v: real): (r: nat)
    ensures r <= |t|
  {
    SearchRight(t, v, 0, |t|)
  }

  /** On ascending knots `searchsorted` counts the knots not above v. */
  lemma SearchsortedSplits(t: seq<real>, v: real)
    requires NonDecreasing(t)
    ensures forall k :: 0 <= k < Searchsorted(t, v) ==> t[k] <= v
    ensures forall k :: Searchsorted(t, v) <= k < |t| ==> t[k] > v
  {
    SearchRightSplits(t, v, 0, |t|);
  }

  /** The segment `_get_inds` gives point v: one less than the knots not
      above it, except that the last knot belongs to the last segment. */
  function SegmentIndex(t: seq<real>, v: real): (ind: int)
    requires |t| >= 2
    ensures -1 <= ind <= |t| - 1
  {
    if v == t[|t| - 1] then |t| - 2 else Searchsorted(t, v) - 1
  }

  /** Point v lies in the segment it was given. */
  predicate Bracketed(t: seq<real>, v: real)
    requires |t| >= 2
  {
    var ind := SegmentIndex(t, v);
    0 <= ind <= |t| - 2 && t[ind] <= v <= t[ind + 1]
  }

  /** A point within the knot range on ascending knots gets a real segment,
      and the segment holds it. */
  lemma SegmentBracketsPoint(t: seq<real>, v: real)
    requires |t| >= 2 && NonDecreasing(t)
    requires t[0] <= v <= t[|t| - 1]
    ensures Bracketed(t, v)
    ensures v < t[|t| - 1] ==> v < t[SegmentIndex(t, v) + 1]
  {
    SearchsortedSplits(t, v);
  }

  /** A point left of the knots gets index -1, one right of them gets
      length - 1: neither is a segment. */
  lemma SegmentOutsideDomain(t: seq<real>, v: real)
    requires |t| >= 2 && NonDecreasing(t)
    ensures v < t[0] ==> SegmentIndex(t, v) == -1
    ensures v > t[|t| - 1] ==> SegmentIndex(t, v) == |t| - 1
  {
    SearchsortedSplits(t, v);
  }

  /** On strictly increasing knots, knot k below the last one starts the
      segment it is looked up in. */
  lemma KnotStartsItsSegment(t: seq<real>, k: nat)
    requires |t| >= 2 && StrictlyIncreasing(t)
    requires k <= |t| - 2
    ensures SegmentIndex(t, t[k]) == k
  {
    SearchsortedSplits(t, t[k]);
    assert t[k] < t[|t| - 1] && t[k] < t[k + 1];
  }

  /** A point is bracketed exactly when it lies within the knot range. */
  lemma BracketedIffInside(t: seq<real>, v: real)
    requires |t| >= 2 && NonDecreasing(t)
    ensures Bracketed(t, v) <==> t[0] <= v <= t[|t| - 1]
  {
    SegmentOutsideDomain(t, v);
    if t[0] <= v <= t[|t| - 1] {
      SegmentBracketsPoint(t, v);
    }
  }

  // Flags and warnings of `_get_inds`.

  /** `tnew < t[:, 0]`: the points left of their spline's knots. */
  function LeftOfDomain(t: seq<seq<real>>, length: nat, tnew: seq<seq<real>>, width: nat): (flags: seq<seq<bool>>)
    requires Knots(t, length) && Grid(tnew, |t|, width)
    ensures Grid(flags, |t|, width)
    ensures forall i, j :: 0 <= i < |t| && 0 <= j < width ==> (flags[i][j] <==> tnew[i][j] < t[i][0])
  {
    seq(|t|, i requires 0 <= i < |t| => seq(width, j requires 0 <= j < width => tnew[i][j] < t[i][0]))
  }

  /** `tnew > t[:, -1]`: the points right of their spline's knots. */
  function RightOfDomain(t: seq<seq<real>>, length: nat, tnew: seq<seq<real>>, width: nat): (flags: seq<seq<bool>>)
    requires Knots(t, length) && Grid(tnew, |t|, width)
    ensures Grid(flags, |t|, width)
    ensures forall i, j :: 0 <= i < |t| && 0 <= j < width ==> (flags[i][j] <==> tnew[i][j] > t[i][length - 1])
  {
    seq(|t|, i requires 0 <= i < |t| => seq(width, j requires 0 <= j < width => tnew[i][j] > t[i][length - 1]))
  }

  /** `xp.any(flags)`. */
  predicate AnyFlag(flags: seq<seq<bool>>)
  {
    exists i, j | 0 <= i < |flags| && 0 <= j < |flags[i]| :: flags[i][j]
  }

  /** The warning condition as written: some index below 0 or at least the
      number of knots. */
  predicate WarningAsWritten(t: seq<seq<real>>, length: nat, tnew: seq<seq<real>>, width: nat)
    requires Knots(t, length) && Grid(tnew, |t|, width)
  {
    exists i, j | 0 <= i < |t| && 0 <= j < width ::
      SegmentIndex(t[i], tnew[i][j]) < 0 || SegmentIndex(t[i], tnew[i][j]) >= length
  }

  /** On ascending knots the warning as written fires exactly when some point
      is left of its knots: a point right of them gets index length - 1,
      which the test lets through. */
  lemma WarningAsWrittenOnlyLeft(t: seq<seq<real>>, length: nat, tnew: seq<seq<real>>, width: nat)
    requires Knots(t, length) && Grid(tnew, |t|, width) && AscendingRows(t)
    ensures WarningAsWritten(t, length, tnew, width) <==>
      exists i, j | 0 <= i < |t| && 0 <= j < width :: tnew[i][j] < t[i][0]
  {
    forall i, j | 0 <= i < |t| && 0 <= j < width
      ensures SegmentIndex(t[i], tnew[i][j]) < 0 <==> tnew[i][j] < t[i][0]
    {
      SegmentOutsideDomain(t[i], tnew[i][j]);
      if t[i][0] <= tnew[i][j] <= t[i][length - 1] {
        SegmentBracketsPoint(t[i], tnew[i][j]);
      }
    }
  }

  /** A point right of the only knot segment [0, 1] draws no warning. */
  lemma WarningMissesRightSide()
    ensures !WarningAsWritten([[0.0, 1.0]], 2, [[2.0]], 1)
    ensures RightOfDomain([[0.0, 1.0]], 2, [[2.0]], 1)[0][0]
  {
    assert SegmentIndex([0.0, 1.0], 2.0) == 1 by {
      assert SearchRight([0.0, 1.0], 2.0, 2, 2) == 2;
      assert SearchRight([0.0, 1.0], 2.0, 0, 2) == SearchRight([0.0, 1.0], 2.0, 2, 2);
    }
  }

  /** The out-of-bounds condition the message describes: some point lies
      outside its spline's knots. On ascending knots this is exactly some
      point not lying in the segment it was given. */
  predicate DomainWarning(t: seq<seq<real>>, length: nat, tnew: seq<seq<real>>, width: nat)
    requires Knots(t, length) && Grid(tnew, |t|, width)
  {
    AnyFlag(LeftOfDomain(t, length, tnew, width)) || AnyFlag(RightOfDomain(t, length, tnew, width))
  }

  /** The corrected warning fires on either side, and on ascending knots
      exactly when some point is not bracketed by its segment. */
  lemma DomainWarningIffUnbracketed(t: seq<seq<real>>, length: nat, tnew: seq<seq<real>>, width: nat)
    requires Knots(t, length) && Grid(tnew, |t|, width)
    ensures DomainWarning(t, length, tnew, width) <==>
      exists i, j | 0 <= i < |t| && 0 <= j < width :: tnew[i][j] < t[i][0] || tnew[i][j] > t[i][length - 1]
    ensures AscendingRows(t) ==> (DomainWarning(t, length, tnew, width) <==>
      exists i, j | 0 <= i < |t| && 0 <= j < width :: !Bracketed(t[i], tnew[i][j]))
  {
    var left := LeftOfDomain(t, length, tnew, width);
    var right := RightOfDomain(t, length, tnew, width);
    if AscendingRows(t) {
      forall i, j | 0 <= i < |t| && 0 <= j < width
        ensures Bracketed(t[i], tnew[i][j]) <==> !(left[i][j] || right[i][j])
      {
        BracketedIffInside(t[i], tnew[i][j]);
      }
    }
  }

  /** `_get_inds`: the segment of every point, row by row with the end value
      patched, the left and right flags, and whether the warning is issued. */
  method GetInds(t: seq<seq<real>>, length: nat, tnew: seq<seq<real>>, width: nat)
    returns (inds: array2<int>, badLeft: seq<seq<bool>>, badRight: seq<seq<bool>>, warned: bool)
    requires Knots(t, length) && Grid(tnew, |t|, width)
    ensures fresh(inds) && inds.Length0 == |t| && inds.Length1 == width
    ensures forall i, j :: 0 <= i < |t| && 0 <= j < width ==> inds[i, j] == SegmentIndex(t[i], tnew[i][j])
    ensures badLeft == LeftOfDomain(t, length, tnew, width)
    ensures badRight == RightOfDomain(t, length, tnew, width)
    ensures warned == WarningAsWritten(t, length, tnew, width)
  {
    inds := new int[|t|, width];
    for i := 0 to |t|
      invariant forall i', j :: 0 <= i' < i && 0 <= j < width ==> inds[i', j] == SegmentIndex(t[i'], tnew[i'][j])
    {
      for j := 0 to width
        invariant forall i', j' :: 0 <= i' < i && 0 <= j' < width ==> inds[i', j'] == SegmentIndex(t[i'], tnew[i'][j'])
        invariant forall j' :: 0 <= j' < j ==> inds[i, j'] == Searchsorted(t[i], tnew[i][j']) - 1
      {
        inds[i, j] := Searchsorted(t[i], tnew[i][j]) - 1;
      }
      for j := 0 to width
        invariant forall i', j' :: 0 <= i' < i && 0 <= j' < width ==> inds[i', j'] == SegmentIndex(t[i'], tnew[i'][j'])
        invariant forall j' :: 0 <= j' < j ==> inds[i, j'] == SegmentIndex(t[i], tnew[i][j'])
        invariant forall j' :: j <= j' < width ==> inds[i, j'] == Searchsorted(t[i], tnew[i][j']) - 1
      {
        if tnew[i][j] == t[i][length - 1] {
          inds[i, j] := length - 2;
        }
      }
    }
    badLeft := LeftOfDomain(t, length, tnew, width);
    badRight := RightOfDomain(t, length, tnew, width);
    warned := false;
    for i := 0 to |t|
      invariant warned <==> exists i', j | 0 <= i' < i && 0 <= j < width :: inds[i', j] < 0 || inds[i', j] >= length
    {
      for j := 0 to width
        invariant warned <==>
          (exists i', j' | 0 <= i' < i && 0 <= j' < width :: inds[i', j'] < 0 || inds[i', j'] >= length)
          || (exists j' | 0 <= j' < j :: inds[i, j'] < 0 || inds[i, j'] >= length)
      {
        warned := warned || inds[i, j] < 0 || inds[i, j] >= length;
      }
    }
  }

  // Evaluating the splines.

  /** A fitted spline family: the knots and, per spline and knot, the value
      y and the coefficients c1, c2, c3 of the segment starting there. */
  datatype Spline = Spline(
    length: nat,
    t: seq<seq<real>>, y: seq<seq<real>>,
    c1: seq<seq<real>>, c2: seq<seq<real>>, c3: seq<seq<real>>)

  predicate ValidSpline(sp: Spline)
  {
    && Knots(sp.t, sp.length)
    && Grid(sp.y, |sp.t|, sp.length)
    && Grid(sp.c1, |sp.t|, sp.length)
    && Grid(sp.c2, |sp.t|, sp.length)
    && Grid(sp.c3, |sp.t|, sp.length)
  }

  /** Python indexing: a negative index counts from the end. */
  function At(s: seq<real>, k: int): real
    requires -|s| <= k < |s|
  {
    if k < 0 then s[|s| + k] else s[k]
  }

  /** The cubic `y + c1 x + c2 x^2 + c3 x^3` of a segment (order 0) and the
      derivative formulas of orders 1 to 3, as the evaluation writes them. */
  function SegmentFormula(order: nat, y: real, c1: real, c2: real, c3: real, x: real): real
    requires order <= 3
  {
    var x2 := x * x;
    var x3 := x2 * x;
    if order == 0 then y + c1 * x + c2 * x2 + c3 * x3
    else if order == 1 then c1 + 2.0 * c2 * x + 3.0 * c3 * x2
    else if order == 2 then 2.0 * c2 + 6.0 * c3 * x
    else 6.0 * c3
  }

  /** A polynomial by its coefficients, lowest degree first. */
  function PolyEval(cs: seq<real>, x: real): real
  {
    if cs == [] then 0.0 else cs[0] + x * PolyEval(cs[1..], x)
  }

  /** The formal derivative of a polynomial. */
  function Derivative(cs: seq<real>): (d: seq<real>)
    ensures |cs| > 0 ==> |d| == |cs| - 1
  {
    if |cs| <= 1 then [] else seq(|cs| - 1, k requires 0 <= k < |cs| - 1 => (k + 1) as real * cs[k + 1])
  }

  function NthDerivative(cs: seq<real>, n: nat): seq<real>
  {
    if n == 0 then cs else Derivative(NthDerivative(cs, n - 1))
  }

  /** Constant, linear, quadratic and cubic coefficient lists in expanded
      form. */
  lemma PolyEvalLow(a: real, b: real, c: real, d: real, x: real)
    ensures PolyEval([d], x) == d
    ensures PolyEval([c, d], x) == c + d * x
    ensures PolyEval([b, c, d], x) == b + c * x + d * (x * x)
    ensures PolyEval([a, b, c, d], x) == a + b * x + c * (x * x) + d * (x * x * x)
  {
    assert [d][1..] == [];
    assert [c, d][1..] == [d];
    assert [b, c, d][1..] == [c, d];
    assert [a, b, c, d][1..] == [b, c, d];
    assert x * (c + d * x) == c * x + d * (x * x);
    assert x * (b + c * x + d * (x * x)) == b * x + c * (x * x) + d * (x * x * x);
  }

  /** The formulas of orders 1, 2 and 3 are the successive formal derivatives
      of the segment's cubic. */
  lemma FormulasAreDerivatives(order: nat, y: real, c1: real, c2: real, c3: real, x: real)
    requires order <= 3
    ensures SegmentFormula(order, y, c1, c2, c3, x) == PolyEval(NthDerivative([y, c1, c2, c3], order), x)
  {
    DerivativesOfCubic(y, c1, c2, c3);
    PolyEvalLow(y, c1, c2, c3, x);
    PolyEvalLow(0.0, c1, 2.0 * c2, 3.0 * c3, x);
    PolyEvalLow(0.0, 0.0, 2.0 * c2, 6.0 * c3, x);
    PolyEvalLow(0.0, 0.0, 0.0, 6.0 * c3, x);
    assert 2.0 * c2 * x == (2.0 * c2) * x && 3.0 * c3 * (x * x) == (3.0 * c3) * (x * x);
    assert 6.0 * c3 * x == (6.0 * c3) * x;
  }

  lemma DerivativesOfCubic(y: real, c1: real, c2: real, c3: real)
    ensures NthDerivative([y, c1, c2, c3], 1) == [c1, 2.0 * c2, 3.0 * c3]
    ensures NthDerivative([y, c1, c2, c3], 2) == [2.0 * c2, 6.0 * c3]
    ensures NthDerivative([y, c1, c2, c3], 3) == [6.0 * c3]
  {
    var cs := [y, c1, c2, c3];
    var d1 := Derivative(cs);
    assert d1[0] == c1 && d1[1] == 2.0 * c2 && d1[2] == 3.0 * c3;
    assert NthDerivative(cs, 1) == d1 == [c1, 2.0 * c2, 3.0 * c3];
    var d2 := Derivative(d1);
    assert d2[0] == 2.0 * c2 && d2[1] == 6.0 * c3;
    assert NthDerivative(cs, 2) == d2 == [2.0 * c2, 6.0 * c3];
    var d3 := Derivative(d2);
    assert d3[0] == 6.0 * c3;
    assert NthDerivative(cs, 3) == d3 == [6.0 * c3];
  }

  /** The formula of spline i at point v, from the point's segment; an index
      of -1 reads the last knot, as Python indexing does. */
  function SegmentValue(sp: Spline, i: nat, v: real, order: nat): real
    requires ValidSpline(sp) && i < |sp.t| && order <= 3
  {
    var ind := SegmentIndex(sp.t[i], v);
    SegmentFormula(order, At(sp.y[i], ind), At(sp.c1[i], ind), At(sp.c2[i], ind), At(sp.c3[i], ind),
                   v - At(sp.t[i], ind))
  }

  /** The output at one point: for order 0 a point right of the knots takes
      the last y, else one left of them the first y (the right patch is
      applied last); otherwise the formula of its segment. */
  function PointValue(sp: Spline, i: nat, v: real, order: nat): real
    requires ValidSpline(sp) && i < |sp.t| && order <= 3
  {
    if order == 0 && v > sp.t[i][sp.length - 1] then sp.y[i][sp.length - 1]
    else if order == 0 && v < sp.t[i][0] then sp.y[i][0]
    else SegmentValue(sp, i, v, order)
  }

  /** The intended evaluation: derivatives refuse any point outside the
      knots, then an order outside 0..3 is refused, and otherwise every point
      of every spline is evaluated. */
  function EvaluateSpec(sp: Spline, tnew: seq<seq<real>>, width: nat, order: int): Result<seq<seq<real>>>
    requires ValidSpline(sp) && Grid(tnew, |sp.t|, width)
  {
    if order != 0 && DomainWarning(sp.t, sp.length, tnew, width) then Err(OutsideDomainForDerivative)
    else if order < 0 || order > 3 then Err(BadDerivativeOrder)
    else Ok(seq(|tnew|, i requires 0 <= i < |tnew| =>
              seq(width, j requires 0 <= j < width => PointValue(sp, i, tnew[i][j], order as nat))))
  }

  /** The error cases of the evaluation, and that it succeeds otherwise. */
  lemma EvaluateErrors(sp: Spline, tnew: seq<seq<real>>, width: nat, order: int)
    requires ValidSpline(sp) && Grid(tnew, |sp.t|, width)
    ensures var r := EvaluateSpec(sp, tnew, width, order);
            && (r == Err(OutsideDomainForDerivative) <==>
                  order != 0 && exists i, j | 0 <= i < |sp.t| && 0 <= j < width ::
                    tnew[i][j] < sp.t[i][0] || tnew[i][j] > sp.t[i][sp.length - 1])
            && (r == Err(BadDerivativeOrder) <==>
                  (order < 0 || order > 3) && !DomainWarning(sp.t, sp.length, tnew, width))
            && (r.Ok? <==> 0 <= order <= 3 && (order == 0 || !DomainWarning(sp.t, sp.length, tnew, width)))
  {
    DomainWarningIffUnbracketed(sp.t, sp.length, tnew, width);
  }

  /** What the evaluation yields at a point: on ascending knots, a point
      inside the knots gets its bracketing segment's formula in the offset
      from that segment's first knot (all orders); for order 0 a point right
      of the knots gets the last y and one left of them the first y. */
  lemma EvaluatePointwise(sp: Spline, tnew: seq<seq<real>>, width: nat, order: int, i: nat, j: nat)
    requires ValidSpline(sp) && Grid(tnew, |sp.t|, width) && AscendingRows(sp.t)
    requires i < |sp.t| && j < width
    requires EvaluateSpec(sp, tnew, width, order).Ok?
    ensures 0 <= order <= 3
    ensures var out := EvaluateSpec(sp, tnew, width, order).value;
            var t, v, L := sp.t[i], tnew[i][j], sp.length;
            var ind := SegmentIndex(t, v);
            && Grid(out, |sp.t|, width)
            && (t[0] <= v <= t[L - 1] ==>
                  && 0 <= ind <= L - 2 && t[ind] <= v <= t[ind + 1]
                  && out[i][j] == PolyEval(NthDerivative([sp.y[i][ind], sp.c1[i][ind], sp.c2[i][ind], sp.c3[i][ind]], order as nat),
                                           v - t[ind]))
            && (order == 0 && v > t[L - 1] ==> out[i][j] == sp.y[i][L - 1])
            && (order == 0 && v < t[0] ==> out[i][j] == sp.y[i][0])
  {
    var t, v, L := sp.t[i], tnew[i][j], sp.length;
    if t[0] <= v <= t[L - 1] {
      SegmentBracketsPoint(t, v);
      var ind := SegmentIndex(t, v);
      FormulasAreDerivatives(order as nat, sp.y[i][ind], sp.c1[i][ind], sp.c2[i][ind], sp.c3[i][ind], v - t[ind]);
    }
  }

  /** On strictly increasing knots the order-0 evaluation reproduces y at
      every knot: the last one through the patch-free last segment only when
      the fit is continuous there, the others exactly. */
  lemma EvaluateInterpolatesKnots(sp: Spline, tnew: seq<seq<real>>, width: nat, i: nat, j: nat, k: nat)
    requires ValidSpline(sp) && Grid(tnew, |sp.t|, width)
    requires i < |sp.t| && j < width && StrictlyIncreasing(sp.t[i])
    requires k <= sp.length - 2 && tnew[i][j] == sp.t[i][k]
    ensures EvaluateSpec(sp, tnew, width, 0).Ok?
    ensures EvaluateSpec(sp, tnew, width, 0).value[i][j] == sp.y[i][k]
  {
    KnotStartsItsSegment(sp.t[i], k);
  }

  /** `_get_inds` followed by the evaluation block, as intended: the segment
      formula at every point, then the edge patches in place for order 0;
      derivatives refuse out-of-domain points and bad orders. */
  method Evaluate(sp: Spline, tnew: seq<seq<real>>, width: nat, order: int) returns (res: Result<seq<seq<real>>>)
    requires ValidSpline(sp) && Grid(tnew, |sp.t|, width)
    ensures res == EvaluateSpec(sp, tnew, width, order)
  {
    var inds, badLeft, badRight, warned := GetInds(sp.t, sp.length, tnew, width);
    assert DomainWarning(sp.t, sp.length, tnew, width) == (AnyFlag(badLeft) || AnyFlag(badRight));
    if order != 0 {
      if AnyFlag(badRight) || AnyFlag(badLeft) {
        return Err(OutsideDomainForDerivative);
      }
      if order > 3 || order < 0 {
        return Err(BadDerivativeOrder);
      }
    }
    var out := FillSegments(sp, tnew, width, inds, order as nat);
    if order == 0 {
      PatchEdges(out, badLeft, sp.y, 0);
      PatchEdges(out, badRight, sp.y, sp.length - 1);
    }
    res := Ok(Contents(out));
    SpecFromPoints(sp, tnew, width, order, res.value);
  }

  /** `y + c1 x + ...` (or a derivative) at every point, from the segment
      indices `_get_inds` found. */
  method FillSegments(sp: Spline, tnew: seq<seq<real>>, width: nat, inds: array2<int>, order: nat)
    returns (out: array2<real>)
    requires ValidSpline(sp) && Grid(tnew, |sp.t|, width) && order <= 3
    requires inds.Length0 == |tnew| && inds.Length1 == width
    requires forall i, j :: 0 <= i < |tnew| && 0 <= j < width ==> inds[i, j] == SegmentIndex(sp.t[i], tnew[i][j])
    ensures fresh(out) && out.Length0 == |tnew| && out.Length1 == width
    ensures forall i, j :: 0 <= i < |tnew| && 0 <= j < width ==> out[i, j] == SegmentValue(sp, i, tnew[i][j], order)
  {
    out := new real[|tnew|, width];
    for i := 0 to |tnew|
      invariant forall i', j :: 0 <= i' < i && 0 <= j < width ==> out[i', j] == SegmentValue(sp, i', tnew[i'][j], order)
    {
      for j := 0 to width
        invariant forall i', j' :: 0 <= i' < i && 0 <= j' < width ==> out[i', j'] == SegmentValue(sp, i', tnew[i'][j'], order)
        invariant forall j' :: 0 <= j' < j ==> out[i, j'] == SegmentValue(sp, i, tnew[i][j'], order)
      {
        var ind := inds[i, j];
        out[i, j] := SegmentFormula(order, At(sp.y[i], ind), At(sp.c1[i], ind), At(sp.c2[i], ind),
                                    At(sp.c3[i], ind), tnew[i][j] - At(sp.t[i], ind));
      }
    }
  }

  /** Rows holding the point value everywhere are the successful evaluation. */
  lemma SpecFromPoints(sp: Spline, tnew: seq<seq<real>>, width: nat, order: int, rows: seq<seq<real>>)
    requires ValidSpline(sp) && Grid(tnew, |sp.t|, width)
    requires 0 <= order <= 3 && (order != 0 ==> !DomainWarning(sp.t, sp.length, tnew, width))
    requires Grid(rows, |tnew|, width)
    requires forall i, j :: 0 <= i < |tnew| && 0 <= j < width ==> rows[i][j] == PointValue(sp, i, tnew[i][j], order as nat)
    ensures EvaluateSpec(sp, tnew, width, order) == Ok(rows)
  {
    assert EvaluateSpec(sp, tnew, width, order).Ok?;
    var spec := EvaluateSpec(sp, tnew, width, order).value;
    assert |spec| == |rows|;
    forall i | 0 <= i < |tnew| ensures rows[i] == spec[i] {
      assert |spec[i]| == width;
      assert forall j :: 0 <= j < width ==> rows[i][j] == spec[i][j];
    }
    assert rows == spec;
  }

  /** `out[flags] = tile(y[:, k])[flags]`: flagged entries of row i take the
      knot-k value of spline i; the rest are left as they were. */
  method PatchEdges(out: array2<real>, flags: seq<seq<bool>>, y: seq<seq<real>>, k: nat)
    requires Grid(flags, out.Length0, out.Length1)
    requires |y| == out.Length0 && forall i :: 0 <= i < |y| ==> k < |y[i]|
    modifies out
    ensures forall i, j :: 0 <= i < out.Length0 && 0 <= j < out.Length1 ==>
      out[i, j] == if flags[i][j] then y[i][k] else old(out[i, j])
  {
    for i := 0 to out.Length0
      invariant forall i', j :: 0 <= i' < out.Length0 && 0 <= j < out.Length1 ==>
        out[i', j] == if i' < i && flags[i'][j] then y[i'][k] else old(out[i', j])
    {
      for j := 0 to out.Length1
        invariant forall i', j' :: 0 <= i' < out.Length0 && 0 <= j' < out.Length1 ==>
          out[i', j'] == if (i' < i || (i' == i && j' < j)) && flags[i'][j'] then y[i'][k] else old(out[i', j'])
      {
        if flags[i][j] {
          out[i, j] := y[i][k];
        }
      }
    }
  }

  /** The rows of a matrix. */
  function Contents(a: array2<real>): (s: seq<seq<real>>)
    reads a
    ensures Grid(s, a.Length0, a.Length1)
    ensures forall i, j :: 0 <= i < a.Length0 && 0 <= j < a.Length1 ==> s[i][j] == a[i, j]
  {
    seq(a.Length0, i reads a requires 0 <= i < a.Length0 =>
      seq(a.Length1, j reads a requires 0 <= j < a.Length1 => a[i, j]))
  }

  /** `CubicSplineInterpolant.__call__` as written. The edge flags compare
      the (rows x width) points with one row of `length` knots, which numpy
      broadcasts only when width is 1 or `length`; otherwise that comparison
      raises. When it broadcasts, the out-of-bounds test reads the local
      `inds` before any assignment to it and raises. Either way the
      evaluation block is never reached. */
  function CallAsWritten(sp: Spline, tnew: seq<seq<real>>, width: nat, order: int): Result<seq<seq<real>>>
    requires ValidSpline(sp) && Grid(tnew, |sp.t|, width)
  {
    if width != 1 && width != sp.length then Err(BroadcastMismatch)
    else Err(UnboundLocalInds)
  }

  /** Every call as written raises: a broadcast error exactly when the point
      width matches neither 1 nor the knot count, the unbound-local error
      otherwise. Even where the intended evaluation succeeds, for instance
      any order-0 call, the call as written does not return its value. */
  lemma CallAsWrittenNeverEvaluates(sp: Spline, tnew: seq<seq<real>>, width: nat, order: int)
    requires ValidSpline(sp) && Grid(tnew, |sp.t|, width)
    ensures CallAsWritten(sp, tnew, width, order).Err?
    ensures CallAsWritten(sp, tnew, width, order) == Err(BroadcastMismatch) <==> width != 1 && width != sp.length
    ensures CallAsWritten(sp, tnew, width, order) == Err(UnboundLocalInds) <==> width == 1 || width == sp.length
    ensures EvaluateSpec(sp, tnew, width, 0).Ok?
    ensures CallAsWritten(sp, tnew, width, 0) != EvaluateSpec(sp, tnew, width, 0)
  {
  }

  // The frequency-bin window of the time-frequency sum.

  /** `int(x)`: truncation toward zero. */
  function Truncate(x: real): int
  {
    if x >= 0.0 then x.Floor else -((-x).Floor)
  }

  /** `int(abs(freq_mode) / df)`: the bin holding a mode's frequency. A zero
      bin width makes the quotient infinite or NaN, which `int` rejects. */
  function MaxBin(freq: real, df: real): (r: Result<int>)
    ensures r.Err? <==> df == 0.0
    ensures df > 0.0 ==>
      && r.Ok? && r.value >= 0
      && r.value as real * df <= Abs(freq) < (r.value + 1) as real * df
  {
    var q := Div(Finite(Abs(freq)), Finite(df));
    if q.Finite? then
      BinBounds(Abs(freq), df);
      Ok(Truncate(q.v))
    else Err(BinOverflow)
  }

  /** The floor of a non-negative quotient brackets the dividend. */
  lemma BinBounds(a: real, df: real)
    requires a >= 0.0
    ensures df > 0.0 ==> (a / df).Floor >= 0
    ensures df > 0.0 ==> (a / df).Floor as real * df <= a
    ensures df > 0.0 ==> a < ((a / df).Floor + 1) as real * df
  {
    if df <= 0.0 {
      return;
    }
    var q := a / df;
    var n := q.Floor;
    var m := (n + 1) as real;
    assert n as real <= q < m;
    DivMulCancel(a, df);
    MulMonotone(n as real, q, df);
    MulMonotone(q, m, df);
    assert q * df < m * df;
    assert a < m * df;
  }

  lemma DivMulCancel(a: real, df: real)
    requires df > 0.0
    ensures (a / df) * df == a
  {
  }

  lemma MulMonotone(x: real, y: real, c: real)
    requires x <= y && c > 0.0
    ensures x * c <= y * c
    ensures x < y ==> x * c < y * c
  {
  }

  /** The bins lo..hi that lie in [0, numFreq - 1), ascending. */
  function WindowBins(lo: int, hi: int, numFreq: nat): (r: seq<nat>)
    ensures forall b: nat :: b in r <==> lo <= b <= hi && b < numFreq - 1
    ensures forall j, k :: 0 <= j < k < |r| ==> r[j] < r[k]
    ensures forall j :: 0 <= j < |r| ==> r[j] <= hi
    ensures |r| <= if hi < lo then 0 else hi - lo + 1
    decreases hi - lo
  {
    if hi < lo then []
    else
      var rest := WindowBins(lo, hi - 1, numFreq);
      if 0 <= hi < numFreq - 1 then rest + [hi] else rest
  }

  /** The bins a mode's DFT is added to: every bin for a negative
      `num_left_right`, else `max_bin - num_left_right ..
      max_bin + num_left_right` kept within [0, num_frequencies - 1). */
  function BinWindow(maxBin: int, numLeftRight: int, numFreq: nat): seq<nat>
  {
    if numLeftRight < 0 then Range(numFreq)
    else WindowBins(maxBin - numLeftRight, maxBin + numLeftRight, numFreq)
  }

  /** The window is ascending without repeats, holds exactly the bins within
      `num_left_right` of the mode's bin that lie below num_frequencies - 1,
      and has at most 2 num_left_right + 1 of them. */
  lemma BinWindowContents(maxBin: int, numLeftRight: int, numFreq: nat)
    requires numLeftRight >= 0
    ensures var w := BinWindow(maxBin, numLeftRight, numFreq);
            && (forall j, k :: 0 <= j < k < |w| ==> w[j] < w[k])
            && (forall b: nat :: b in w <==> Abs((b - maxBin) as real) <= numLeftRight as real && b < numFreq - 1)
            && |w| <= 2 * numLeftRight + 1
  {
    var w := BinWindow(maxBin, numLeftRight, numFreq);
    forall b: nat ensures b in w <==> Abs((b - maxBin) as real) <= numLeftRight as real && b < numFreq - 1 {
      assert Abs((b - maxBin) as real) <= numLeftRight as real <==>
             maxBin - numLeftRight <= b <= maxBin + numLeftRight;
    }
  }

  /** A mode whose bin lies below the last bin always contributes to its own
      bin. */
  lemma ModeBinInWindow(maxBin: int, numLeftRight: int, numFreq: nat)
    requires 0 <= maxBin < numFreq - 1
    ensures maxBin in BinWindow(maxBin, numLeftRight, numFreq)
  {
    if numLeftRight < 0 {
      assert Range(numFreq)[maxBin] == maxBin;
    }
  }

  /** The last bin, num_frequencies - 1, is reached only through the
      full-range branch: the window excludes it even when it is the mode's
      own bin. */
  lemma LastBinOnlyInFullRange(maxBin: int, numLeftRight: int, numFreq: nat)
    requires numFreq > 0
    ensures numFreq - 1 in BinWindow(maxBin, numLeftRight, numFreq) <==> numLeftRight < 0
  {
    if numLeftRight < 0 {
      assert Range(numFreq)[numFreq - 1] == numFreq - 1;
    }
  }
}
