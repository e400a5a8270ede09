# Orbital evolution core of FastEMRIWaveforms, modelled in Dafny

This project models the parts of FastEMRIWaveforms that decide control flow
around the numerical kernels:

- the bracketed Brent root solver and its warn-or-throw exit policy;
- the separatrix finder and its vector form;
- the inclination conversion `Y_to_xI` and its vector form;
- the range check `sanity_check`;
- the NaN guard and dispatch of `KerrGeoCoordinateFrequencies`, and its
  vector form;
- the right-hand sides `pn5`, `SchwarzEccFlux::deriv_func` and
  `KerrEccentricEquatorial::deriv_func`;
- the grid building in `load_and_interpolate_flux_data`;
- the power-based `ModeSelector`;
- the segment lookup and evaluation of `CubicSplineInterpolant`;
- the frequency-bin window of `TFInterpolatedModeSum.sum`.

The floating-point kernels are parameters: records of function values such
as `MathKernels`, `GeodesicKernels` and `FluxFormulas`. This covers the
elliptic-integral frequencies, PN series, interpolants, `sqrt` and `cbrt`.
The GSL Brent step is an abstract `Engine`. The convergence test is GSL's
documented interval test. Doubles are modelled as
`Numeric.Double = Finite | Infinite | NaN` where the code tests for NaN or
divides; elsewhere they are `real`. A throw or raise becomes
`Numeric.Result.Err`. Element-wise loops that stop on a throw return a
`BatchOutcome`.

Files and modules:

| file | module | models |
|---|---|---|
| `numeric.dfy` | `Numeric` | doubles, errors, results, ordering predicates |
| `root_solver.dfy` | `RootSolver` | `solver` |
| `separatrix.dfy` | `Separatrix` | `get_separatrix`, `get_separatrix_vector`, `Y_to_xI`, `Y_to_xI_vector` |
| `frequencies.dfy` | `Frequencies` | `sanity_check`, `KerrGeoCoordinateFrequencies`, `KerrGeoCoordinateFrequenciesVectorized` |
| `ode_base.dfy` | `OdeBase` | `pn5`, the two `deriv_func`s, flux-grid sort/unique |
| `mode_selection.dfy` | `ModeSelection` | `ModeSelector.__init__`, `ModeSelector.__call__` |
| `interpolated_mode_sum.dfy` | `InterpolatedModeSum` | knot validation, `_get_inds`, spline evaluation, bin window |

Two behaviours of the code shape the model:

- The return status of `gsl_root_fsolver_set` is ignored
  (src/Utility.cc:388). The solver throws only when the last interval test
  before the cap reports neither success nor continue (src/Utility.cc:401,
  411-422). With the tolerances used, that means an inverted interval.
  `RootSolver.ExitPolicy` states this.
- `sanity_check` returns 1 for every out-of-range case before its `printf`
  branch, and that branch's `res == 1` test never holds. Nothing is printed
  (src/Utility.cc:17-30).

## Model

| member | source | states |
|---|---|---|
| RootSolver.TestInterval | src/Utility.cc:401 | With GSL's error handler off (line 375), the test reports a bad tolerance iff a tolerance is negative. Otherwise it reports an invalid interval iff lo > hi. Otherwise it succeeds iff \|hi - lo\| < epsabs + epsrel·m, and continues iff not. Here m is min(\|lo\|,\|hi\|) for an interval strictly on one side of 0, and 0 otherwise. |
| RootSolver.ToleranceMin | src/Utility.cc:401 | The minimum GSL scales epsrel by is non-negative and at most \|lo\| and \|hi\|. It is 0 exactly when the interval touches or straddles 0. |
| RootSolver.ExitFromIsFirstStop | src/Utility.cc:394-405 | The do-while loop stops at the first pass whose status is not "continue", or at pass 1000. |
| RootSolver.ExitFromBounds | src/Utility.cc:394-405 | The loop runs at least once and at most 1000 times. Every pass before the last reported "continue". |
| RootSolver.ExitPolicy | src/Utility.cc:411-426 | The solver returns silently iff the last status is success. It returns with the warning iff it stopped at the cap without success. It throws iff it stopped below the cap on an inverted interval. |
| RootSolver.ConvergedMeetsTolerance | src/Utility.cc:392-405 | A root returned without warning comes from an ordered interval on one side of 0 whose width is below 0.001·min(\|lo\|,\|hi\|). |
| RootSolver.StraddlingIntervalNeverConverges | src/Utility.cc:401 | With zero absolute tolerance, an interval containing 0 never passes the test. |
| RootSolver.RunStaysNested | src/Utility.cc:396-400 | With a bracket-keeping engine, every iterate stays inside the starting bracket. |
| RootSolver.SolverStaysInBracket | src/Utility.cc:373-426 | With a bracket-keeping engine and lo <= hi, the solver never throws and returns a root inside [lo, hi]. |
| RootSolver.SolverSpec | src/Utility.cc:373-426 | `solver` as a function of the engine and bracket: run the loop to its exit pass, then return silently, warn or throw. It has no contract of its own. `ExitPolicy`, `ConvergedMeetsTolerance` and `SolverStaysInBracket` characterise it, and `Solver` is proved equal to it. |
| RootSolver.Solver | src/Utility.cc:373-426 | The loop returns, warns or throws exactly as `SolverSpec` describes. |
| Separatrix.GetSeparatrix | src/Utility.cc:429-494 | `get_separatrix`: the a = 0 and circular-equatorial closed forms, then the polar solve, then the prograde or retrograde full solve. It has no contract of its own. `SchwarzschildSeparatrix`, `CircularEquatorialIgnoresSolver`, `PolarSolveComesFirst`, `GenericBrackets` and `GenericSeparatrixOrdering` characterise it. |
| Separatrix.SchwarzschildSeparatrix | src/Utility.cc:433-437 | Zero spin gives 6 + 2e for every e, x and solver. |
| Separatrix.CircularEquatorialIgnoresSolver | src/Utility.cc:438-458 | Spinning circular equatorial orbits use the closed form and no solver: any two engines give the same value. |
| Separatrix.CircularZ1AtMostThree | src/Utility.cc:440-441 | For spin in [0, 1], z1 = 1 + (1-a²)^⅓((1+a)^⅓ + (1-a)^⅓) lies in [1, 3]. The closed form's square root therefore has a non-negative argument. |
| Separatrix.ProgradeNotAboveRetrograde | src/Utility.cc:445-456 | For 0 < a <= 1, the prograde closed-form separatrix is never above the retrograde one. |
| Separatrix.PolarBracketOrdered | src/Utility.cc:466-467 | The polar bracket satisfies 5 < 1 + √3 + √(3 + 2√3) < 6 < 8. |
| Separatrix.PolarSolveComesFirst | src/Utility.cc:471-472 | Every generic case runs the polar solve first. A polar throw propagates. x = 0 returns the polar root. |
| Separatrix.GenericBrackets | src/Utility.cc:474-490 | Prograde orbits solve the full polynomial between the equatorial root and the polar root. Retrograde orbits solve it between the polar root and 12. A throw from the equatorial solve propagates. |
| Separatrix.GenericSeparatrixOrdering | src/Utility.cc:459-493 | With a bracket-keeping solver: the polar root lies in its bracket; retrograde values lie between the polar root and 12; the equatorial root lies in [1+e, 6+2e]; and a prograde value lies between the equatorial and polar roots whenever they are ordered. |
| Separatrix.GetSeparatrixVector | src/Utility.cc:496-506 | Element k is `get_separatrix` of element k of the inputs. A throw at element i leaves elements i.. untouched. Outputs may alias inputs. |
| Separatrix.YToXI | src/Utility.cc:527-547 | `Y_to_xI`: pass-through above \|Y\| = 0.998, otherwise a solve on the clamped bracket. It has no contract of its own. `InclinationBracket` and `InclinationWithinBracket` characterise it. |
| Separatrix.InclinationBracket | src/Utility.cc:538-542 | The bracket is Y ± 0.15 clamped to ±0.998. It contains Y. |
| Separatrix.InclinationWithinBracket | src/Utility.cc:528-547 | With a bracket-keeping solver, `Y_to_xI` never throws. It passes \|Y\| > 0.998 through unchanged. Otherwise it returns an x within 0.15 of Y and inside ±0.998. |
| Separatrix.YToXIVector | src/Utility.cc:549-559 | Element-wise `Y_to_xI`. A throw stops the loop with later elements untouched. |
| Frequencies.SanityCheck | src/Utility.cc:17-30 | Returns 1 exactly when p < 0, e is outside [0,1], Y is outside [-1,1] or a is outside [0,1]. Returns 0 otherwise. |
| Frequencies.KerrGeoCoordinateFrequencies | src/Utility.cc:260-284 | The \|x\| = 1 dispatch, the NaN guard and the division by Γ. It has no contract of its own. `DispatchOnInclination`, `NanGuard`, `KernelThrowPropagates` and `ThetaIsUnchecked` characterise it. |
| Frequencies.DispatchOnInclination | src/Utility.cc:265-272 | Exactly \|x\| = 1 uses the equatorial Mino routine; any other x uses the generic one. The result depends only on the routine selected. |
| Frequencies.NanGuard | src/Utility.cc:275-283 | The routine throws "Nan in fundamental frequencies" iff Υφ, Γ or Υr is NaN. Otherwise each Ω is its Υ divided by Γ. |
| Frequencies.KernelThrowPropagates | src/Utility.cc:265-272 | A throw from the Mino-time routine propagates unchanged. |
| Frequencies.ThetaIsUnchecked | src/Utility.cc:275-282 | With a finite nonzero Γ, Ωφ and Ωr are never NaN. Ωθ is NaN exactly when Υθ is, and the call still returns. |
| Frequencies.ElementFrequencies | src/Utility.cc:313-322 | One element of the vectorized loop. It has no contract of its own. `ElementDispatch` characterises it, and `KerrGeoCoordinateFrequenciesVectorized` is proved against it. |
| Frequencies.ElementDispatch | src/Utility.cc:313-322 | Nonzero spin uses the Kerr routine. Zero spin uses the Schwarzschild one: it ignores x and sets Ωθ = Ωφ. |
| Frequencies.KerrGeoCoordinateFrequenciesVectorized | src/Utility.cc:304-324 | Element i of each output is `ElementFrequencies` of element i of the inputs. A throw at element i leaves elements i.. of every output untouched. |
| OdeBase.Pn5Effect | src/ode_base_example.cc:33-62 | What `pn5` writes and whether it throws, from the outputs it found. It has no contract of its own. `Pn5Dispatch`, `Pn5ThrowsOnlyFromFrequencies` and `ThrowsLeaveRatesUntouched` characterise it. |
| OdeBase.SchwarzEccEffect | src/ode_base_example.cc:128-172 | What `SchwarzEccFlux::deriv_func` writes and whether it throws. It has no contract of its own. `SchwarzEccSeparatrixGuard`, `SchwarzEccRates`, `ThrowsLeaveRatesUntouched` and `FluxModelsKeepInclinationFixed` characterise it. |
| OdeBase.KerrEccEqEffect | src/ode_base_example.cc:249-333 | What `KerrEccentricEquatorial::deriv_func` writes and whether it throws. It has no contract of its own. `KerrEccEqSeparatrixGuard`, `KerrEccEqNanFailFast`, `KerrEccEqRates`, `ThrowsLeaveRatesUntouched` and `FluxModelsKeepInclinationFixed` characterise it. |
| OdeBase.Pn5 | src/ode_base_example.cc:33-62 | The method writes frequencies and then rates exactly as `Pn5Effect` describes, from the state it found. |
| OdeBase.SchwarzEccFlux.DerivFunc | src/ode_base_example.cc:128-172 | The method's writes, return and throw are exactly those of `SchwarzEccEffect`. |
| OdeBase.KerrEccentricEquatorial.DerivFunc | src/ode_base_example.cc:249-333 | The method's writes, return and throw are exactly those of `KerrEccEqEffect`. |
| OdeBase.SchwarzEccSeparatrixGuard | src/ode_base_example.cc:132-138 | When 6 + 2e > p, the rates are zeroed, the frequencies are left as they were, and the method returns. |
| OdeBase.SchwarzEccRates | src/ode_base_example.cc:140-171 | Past the guard: Ωθ = Ωφ, xdot = 0, and edot = 0 exactly when e <= 0. Otherwise edot and pdot come from the flux formulas. |
| OdeBase.KerrEccEqSeparatrixGuard | src/ode_base_example.cc:254-262 | With e < 0 or p below `get_separatrix(a, e, x)`, the rates are zeroed and the frequencies are untouched. |
| OdeBase.KerrEccEqNanFailFast | src/ode_base_example.cc:269-287 | Past the guard, a NaN rescaled radius throws after the frequencies were written and before any rate is. |
| OdeBase.KerrEccEqRates | src/ode_base_example.cc:294-328 | On a normal return, pdot = ε·pdot_out. edot = ε·edot_out when e > 1e-6 and 0 otherwise. xdot = 0. |
| OdeBase.ThrowsLeaveRatesUntouched | src/ode_base_example.cc:33-333 | No throw from `pn5` or from either flux model changes a rate. |
| OdeBase.FluxModelsKeepInclinationFixed | src/ode_base_example.cc:128-333 | Every normal return of either flux model sets xdot to 0 (lines 136, 171, 260 and 328). |
| OdeBase.Pn5Dispatch | src/ode_base_example.cc:40-47 | `pn5` uses the equatorial frequencies at x = Y exactly when \|Y\| = 1. Otherwise it converts Y with `Y_to_xI`. |
| OdeBase.Pn5ThrowsOnlyFromFrequencies | src/ode_base_example.cc:44-47 | With a bracket-keeping solver, `pn5` throws only from the generic frequency routine, at x = `Y_to_xI(Y)`. |
| OdeBase.Insert | src/ode_base_example.cc:95 | Insertion keeps the vector ascending and adds exactly one copy of the value. |
| OdeBase.Sort | src/ode_base_example.cc:95 | `std::sort` output is ascending and a permutation of its input. |
| OdeBase.EraseUnique | src/ode_base_example.cc:96 | `unique` followed by `erase` on a sorted vector leaves a strictly increasing prefix with exactly the input's values. |
| OdeBase.SortUnique | src/ode_base_example.cc:95-99 | The coordinate vector becomes strictly increasing and keeps exactly its distinct values. |
| OdeBase.LoadFluxGrid | src/ode_base_example.cc:80-99 | ys and es are strictly increasing and hold exactly the values that occur in the rows. Edots and Ldots keep one entry per row, in row order. |
| ModeSelection.IndicesWhere | few/utils/modeselector.py:81-82 | The selected column indices are exactly those whose mask entry matches, in increasing order. |
| ModeSelection.IndicesPartition | few/utils/modeselector.py:80-82 | The m > 0 count plus the m = 0 count is the number of columns. |
| ModeSelection.NewModeSelector | few/utils/modeselector.py:79-82 | num_m_zero_up = len(mask) = num_m_1_up + num_m0, where the two counts are the true and false entries of the mask. |
| ModeSelection.ConstructorIsValid | few/utils/modeselector.py:79-82 | Every constructed selector satisfies the count invariant the call relies on. |
| ModeSelection.ArgsortDesc | few/utils/modeselector.py:196 | The ranking is a permutation of the column indices, ordered by non-increasing power. |
| ModeSelection.ArgsortCoversColumns | few/utils/modeselector.py:196 | Every column appears in the ranking. |
| ModeSelection.SumPrefixMonotone | few/utils/modeselector.py:198 | With non-negative powers, the cumulative sum never decreases along a row. |
| ModeSelection.KeepRule | few/utils/modeselector.py:201-204 | Sorted position j is kept iff j = 0 or the j largest powers sum to less than total·(1 - eps). |
| ModeSelection.KeptPositionsArePrefix | few/utils/modeselector.py:201-204 | With non-negative powers, the kept positions form a prefix of the descending order. |
| ModeSelection.KeptPowerReachesTarget | few/utils/modeselector.py:196-204 | The kept prefix is the shortest one whose power reaches total·(1 - eps). |
| ModeSelection.KeepMask | few/utils/modeselector.py:201-204 | The mask filled in place has the cumulative sums' shape. Entry (r, j) is the keep rule on row r's cumulative sums: column 0 kept, column j kept iff cumsum[j-1] < cumsum[-1]·(1 - eps). |
| ModeSelection.StrongestModeKept | few/utils/modeselector.py:196-207 | A row's top-ranked column has maximal power and is always kept. |
| ModeSelection.FlattenMember | few/utils/modeselector.py:207 | A column is in `temp` iff some row keeps it. |
| ModeSelection.RemapLandsOnPartner | few/utils/modeselector.py:211-213 | Every power column remaps to a Teukolsky column. m >= 0 columns stay in place. Under the canonical layout, the m < 0 partner of m > 0 column num_m0 + i lands on that column. |
| ModeSelection.UniqueSortedDistinct | few/utils/modeselector.py:216 | `unique` is strictly increasing and holds exactly the input's values. |
| ModeSelection.YlmKeepLayout | few/utils/modeselector.py:221-226 | The ylm index list has two entries per kept mode: the mode itself, then the same index below num_m0 (an m = 0 mode) or the index + num_m_1_up otherwise (the m < 0 partner). All entries lie within the ylm vector. |
| ModeSelection.KeepModes | few/utils/modeselector.py:207-216 | Every kept mode is a Teukolsky column. |
| ModeSelection.Call | few/utils/modeselector.py:159-234 | `ModeSelector.__call__` on a given power matrix: the missing-argument error, then the keep rule, remap, unique and output indexing. It has no contract of its own. `CallErrors`, `KeepModesCharacterised`, `StrongestModesKept` and `CallSelectsConsistently` characterise it. |
| ModeSelection.CallErrors | few/utils/modeselector.py:159-204 | A missing fund_freq_args under sensitivity weighting raises first. An empty mode axis fails at the total-power lookup (line 204). Otherwise the call succeeds. |
| ModeSelection.UniqueOfRemappedRows | few/utils/modeselector.py:207-216 | `unique` of the remapped flattened rows is strictly increasing and holds exactly the remapped entries of the rows. |
| ModeSelection.KeepModesCharacterised | few/utils/modeselector.py:196-216 | keep_modes is strictly increasing and holds exactly the remapped columns kept in some row. |
| ModeSelection.StrongestModesKept | few/utils/modeselector.py:196-216 | Each row's strongest mode survives, folded onto its Teukolsky column. |
| ModeSelection.CallSelectsConsistently | few/utils/modeselector.py:216-234 | Output position j is Teukolsky column keep[j] in every row and entry keep[j] of every mode-index array. The ylms are keep[j] and then its partner. |
| InterpolatedModeSum.CheckKnotShape | few/summation/interpolatedmodesum.py:109-123 | Accepts exactly a vector of >= 2 knots or a matrix with >= 2 knots along time. Raises the matching error for each other case. On success returns the knot count. |
| InterpolatedModeSum.SearchRightSplits | few/summation/interpolatedmodesum.py:193 | On ascending knots, the binary search ends where the knots pass v. |
| InterpolatedModeSum.Searchsorted | few/summation/interpolatedmodesum.py:193 | `searchsorted(side="right")` as numpy's binary search. The result is at most the knot count. `SearchsortedSplits` gives its meaning on ascending knots. |
| InterpolatedModeSum.SearchsortedSplits | few/summation/interpolatedmodesum.py:193 | On ascending knots, `searchsorted(side="right")` counts the knots not above v. |
| InterpolatedModeSum.SegmentIndex | few/summation/interpolatedmodesum.py:193-196 | Every index lies in [-1, len - 1]. |
| InterpolatedModeSum.SegmentBracketsPoint | few/summation/interpolatedmodesum.py:192-196 | On ascending knots with t[0] <= v <= t[-1], the index lies in [0, len-2] and t[ind] <= v <= t[ind+1]. |
| InterpolatedModeSum.SegmentOutsideDomain | few/summation/interpolatedmodesum.py:192-196 | A point left of the knots gets -1. A point right of them gets len - 1. |
| InterpolatedModeSum.KnotStartsItsSegment | few/summation/interpolatedmodesum.py:193-196 | On strictly increasing knots, knot k <= len-2 is looked up in segment k. |
| InterpolatedModeSum.BracketedIffInside | few/summation/interpolatedmodesum.py:193-200 | A point is bracketed by its segment iff it lies within the knot range. |
| InterpolatedModeSum.LeftOfDomain | few/summation/interpolatedmodesum.py:199 | Flag (i, j) is set iff tnew[i][j] < t[i][0]. |
| InterpolatedModeSum.RightOfDomain | few/summation/interpolatedmodesum.py:200 | Flag (i, j) is set iff tnew[i][j] > t[i][-1]. |
| InterpolatedModeSum.WarningAsWritten | few/summation/interpolatedmodesum.py:202-205 | The out-of-bounds test as written: some index below 0 or at least the knot count. It has no contract of its own. `WarningAsWrittenOnlyLeft` and `WarningMissesRightSide` characterise it. |
| InterpolatedModeSum.WarningAsWrittenOnlyLeft | few/summation/interpolatedmodesum.py:202-205 | On ascending knots, the warning as written fires iff some point is left of its knots. |
| InterpolatedModeSum.WarningMissesRightSide | few/summation/interpolatedmodesum.py:199-205 | For t = [0, 1] and tnew = [2], the point is flagged right of the domain, but no warning is issued. |
| InterpolatedModeSum.DomainWarningIffUnbracketed | few/summation/interpolatedmodesum.py:199-205 | The corrected warning fires iff some point is outside its knots. On ascending knots, that is iff some point is not bracketed by its segment. |
| InterpolatedModeSum.GetInds | few/summation/interpolatedmodesum.py:181-206 | The loop fills every index with `searchsorted - 1` and patches the last knot to len-2. It returns both flag matrices and the warning as written. |
| InterpolatedModeSum.FormulasAreDerivatives | few/summation/interpolatedmodesum.py:315-320 | The order-1, 2 and 3 formulas are the successive formal derivatives of the order-0 cubic. |
| InterpolatedModeSum.EvaluateSpec | few/summation/interpolatedmodesum.py:268-324 | The intended evaluation: the two errors, then every point's value. It has no contract of its own. `EvaluateErrors`, `EvaluatePointwise` and `EvaluateInterpolatesKnots` characterise it, and `Evaluate` is proved equal to it. |
| InterpolatedModeSum.EvaluateErrors | few/summation/interpolatedmodesum.py:309-322 | A nonzero order with any out-of-domain point raises the domain error. Otherwise an order outside 0..3 raises the order error. Otherwise evaluation succeeds. |
| InterpolatedModeSum.EvaluatePointwise | few/summation/interpolatedmodesum.py:279-307 | On ascending knots, an in-domain point gets the order-th derivative of its bracketing segment's cubic at the offset from the segment start. For order 0, right points get the last y and left points the first y. |
| InterpolatedModeSum.EvaluateInterpolatesKnots | few/summation/interpolatedmodesum.py:298-299 | On strictly increasing knots, order 0 at knot k <= len-2 returns y[k]. |
| InterpolatedModeSum.Evaluate | few/summation/interpolatedmodesum.py:268-324 | The method (index lookup, formula fill, in-place edge patches) returns exactly `EvaluateSpec`. |
| InterpolatedModeSum.FillSegments | few/summation/interpolatedmodesum.py:274-299 | Every entry is its segment's formula, read through Python's negative indexing. |
| InterpolatedModeSum.PatchEdges | few/summation/interpolatedmodesum.py:301-307 | Flagged entries take the edge y of their spline. Every other entry is unchanged. |
| InterpolatedModeSum.CallAsWritten | few/summation/interpolatedmodesum.py:238-266 | `__call__` as written: the broadcast error at line 241, else the unbound-local error at line 244. It has no contract of its own. `CallAsWrittenNeverEvaluates` characterises it. |
| InterpolatedModeSum.CallAsWrittenNeverEvaluates | few/summation/interpolatedmodesum.py:238-266 | Every call as written raises: a broadcast error at line 241 exactly when the point width is neither 1 nor the knot count, the unbound-local error at line 244 otherwise. Even when the intended order-0 evaluation succeeds, `__call__` as written does not return its value. |
| InterpolatedModeSum.MaxBin | few/summation/interpolatedmodesum.py:650 | The bin is rejected iff df = 0. For df > 0 it is the n >= 0 with n·df <= \|f\| < (n+1)·df. |
| InterpolatedModeSum.WindowBins | few/summation/interpolatedmodesum.py:657-660 | The window holds exactly the bins in [lo, hi] that lie in [0, num_frequencies-1). They are ascending and number at most hi-lo+1. |
| InterpolatedModeSum.BinWindow | few/summation/interpolatedmodesum.py:652-661 | Every bin for a negative num_left_right, otherwise the filtered window around max_bin. It has no contract of its own. `BinWindowContents`, `ModeBinInWindow` and `LastBinOnlyInFullRange` characterise it. |
| InterpolatedModeSum.BinWindowContents | few/summation/interpolatedmodesum.py:652-661 | For num_left_right >= 0, the window is strictly increasing and holds exactly the bins within num_left_right of max_bin that lie below num_frequencies-1. It has at most 2·num_left_right+1 bins. |
| InterpolatedModeSum.ModeBinInWindow | few/summation/interpolatedmodesum.py:652-660 | A mode bin in [0, num_frequencies-1) is always in its own window. |
| InterpolatedModeSum.LastBinOnlyInFullRange | few/summation/interpolatedmodesum.py:652-660 | The last bin is reached iff num_left_right < 0. |

## Left out

- The floating-point kernels are parameters and their bodies are not modelled: elliptic integrals, `KerrGeoMinoFrequencies`, `KerrEqGeoMinoFrequencies`, `SchwarzschildGeoCoordinateFrequencies`, the constants of motion, the separatrix polynomials, the 5PN series, the flux formulas and the interpolants.
- `KerrGeoEquatorialCoordinateFrequencies` is not part of this model. It is a kernel that returns normally.
- Rounding is not modelled: values are exact reals. NaN is modelled only where the code tests for it or divides.
- `sqrt` and `cbrt` are kernels. Their soundness is a hypothesis (`SqrtSound`, `CbrtSound`) where a lemma needs it.
- Frequencies.SanityCheck: NaN inputs are not modelled. The code lets them pass because every comparison with NaN is false.
- `abs(x) == 1.0` and `abs(Y)` are read as the floating-point absolute value.
- The GSL Brent step is an abstract engine. Its bracketing property is the hypothesis `KeepsBracket`. The status returned by `gsl_root_fsolver_iterate` is overwritten unread, so it is not modelled.
- The solver's diagnostic output on reaching the cap is not modelled. Freeing the GSL solver is not modelled either, and a throw skips it.
- RootSolver.ExitPolicy: on reaching the cap, the diagnostic `printf` at src/Utility.cc:417 evaluates `get_separatrix(a, e, r)` as an argument. That is a nested separatrix solve with x = r. It can throw, for example when its prograde bracket [equatorial root, polar root] is inverted, and it can itself reach the cap and recurse. A throw there replaces the warning. `SolverSpec`, `Solver` and `ExitPolicy` leave this call out: their warn-and-return outcome assumes the call returns.
- The OpenMP loops in the vector routines are modelled as sequential loops. An element that throws stops the loop at that element. Under OpenMP an escaping exception terminates the process instead.
- Frequencies.KerrGeoCoordinateFrequenciesVectorized: requires the three output arrays to be distinct. The code does not check this; passing one array twice would make later writes overwrite earlier ones.
- File reading and parsing are not modelled. This covers `load_and_interpolate_flux_data`, `fill_vector` and the interpolant constructors. `LoadFluxGrid` starts from the parsed rows.
- Building the interpolants from the grid is not modelled, and neither are the flux model constructors and destructors.
- The power matrix in `ModeSelector.__call__` is an input: `abs` of the Teukolsky modes with their conjugate partners, squared. The sensitivity weighting is modelled only through its missing-argument error.
- `NeuralModeSelector` is not part of this model, and neither is GPU dispatch.
- ModeSelection.ArgsortDesc: equal powers are ranked in decreasing column order, which is what `argsort(...)[::-1]` gives for numpy's default sort on short rows. For long rows, numpy's tie order depends on its sort algorithm. Ties do not change the kept powers or `SortedPowers`.
- The `CubicSplineInterpolant` constructor is not modelled beyond its knot-shape check. It references undefined names, overwrites the tiled knots and runs the tridiagonal fit in compiled code. The spline coefficients are data here.
- For a 1-D `tnew`, the tiling sits in the unreachable part of `__call__`. The model takes one row of points per spline. `squeeze` is not modelled.
- InterpolatedModeSum.Searchsorted: models numpy's binary search. Its result is characterised only for ascending knots, the only case numpy defines.
- InterpolatedModeSum.MaxBin: the bin bounds are stated only for a positive bin width. For a negative width, the result is the truncated quotient.
- The STFT accumulation of `TFInterpolatedModeSum.sum` is not modelled. This covers `get_DFT`, `DirichletKernel` and the complex arithmetic. Only the bin index and the window that selects the bins are.
- The window filter keeps bins below `num_frequencies - 1`, while the full range includes that last bin. The model states this asymmetry (`LastBinOnlyInFullRange`) and does not change it.

## Findings

| source | as written | input that shows it | evidently intended | confidence | as-written member | corrected member |
|---|---|---|---|---|---|---|
| few/summation/interpolatedmodesum.py:244 | `__call__` reads the local `inds` before anything assigns it and returns at line 266, so the evaluation at lines 268-324 is unreachable. Every call raises: `ValueError` at line 241 when the point width and the knot count do not broadcast, `UnboundLocalError` at line 244 otherwise. | t = [0, 1], tnew = [0.5], deriv_order = 0 | call `_get_inds`, then evaluate and patch as at lines 268-324 | not executed | InterpolatedModeSum.CallAsWrittenNeverEvaluates | InterpolatedModeSum.Evaluate |
| few/summation/interpolatedmodesum.py:202 | The out-of-bounds warning tests `inds < 0` or `inds >= len(t)`, but a point right of the knots gets index len(t) - 1, so only left-side points warn. | t = [0, 1], tnew = [2] | warn when any point lies outside its spline's knots, on either side | not executed | InterpolatedModeSum.WarningMissesRightSide | InterpolatedModeSum.DomainWarningIffUnbracketed |
