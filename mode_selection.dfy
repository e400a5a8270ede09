/** Power-based mode filtering of few/utils/modeselector.py (`ModeSelector`).

    Teukolsky modes come with m >= 0 only; the columns are ordered m = 0
    first, then m > 0, and `m0mask` marks the m > 0 columns. The power matrix
    appends one column per masked column for its m < 0 partner, so it has
    numMZeroUp + numM1Up columns; the ylm vector follows the same
    m = 0, m > 0, m < 0 layout. */
module ModeSelection {
  import opened Numeric

  // Counting the mask.

  /** `arange(len(mask))[mask == b]`: the column indices whose mask entry is
      `b`, in increasing order. */
  function IndicesWhere(mask: seq<bool>, b: bool): (r: seq<nat>)
    ensures forall j :: 0 <= j < |r| ==> r[j] < |mask| && mask[r[j]] == b
    ensures forall i :: 0 <= i < |mask| && mask[i] == b ==> i in r
    ensures forall j, k :: 0 <= j < k < |r| ==> r[j] < r[k]
  {
    if mask == [] then []
    else
      var n := |mask| - 1;
      IndicesWhere(mask[..n], b) + (if mask[n] == b then [n] else [])
  }

  /** Every column is either masked or not. */
  lemma {:induction false} IndicesPartition(mask: seq<bool>)
    ensures |IndicesWhere(mask, true)| + |IndicesWhere(mask, false)| == |mask|
  {
    if mask != [] {
      IndicesPartition(mask[..|mask| - 1]);
    }
  }

  /** The selector's stored state. */
  datatype ModeSelector = ModeSelector(
    m0mask: seq<bool>, numMZeroUp: nat, numM1Up: nat, numM0: nat, hasSensitivity: bool)

  /** `ModeSelector.__init__`: the number of m >= 0 modes, of m > 0 modes
      (mask true) and of m = 0 modes (mask false). */
  function NewModeSelector(m0mask: seq<bool>, hasSensitivity: bool): (ms: ModeSelector)
    ensures ms.m0mask == m0mask && ms.hasSensitivity == hasSensitivity
    ensures ms.numMZeroUp == |m0mask|
    ensures ms.numMZeroUp == ms.numM1Up + ms.numM0
    ensures forall i :: 0 <= i < |m0mask| && m0mask[i] ==> i in IndicesWhere(m0mask, true)
    ensures ms.numM1Up == |IndicesWhere(m0mask, true)| && ms.numM0 == |IndicesWhere(m0mask, false)|
  {
    IndicesPartition(m0mask);
    ModeSelector(m0mask, |m0mask|, |IndicesWhere(m0mask, true)|, |IndicesWhere(m0mask, false)|, hasSensitivity)
  }

  /** A selector as the constructor builds it. */
  predicate ValidSelector(ms: ModeSelector)
  {
    && ms.numMZeroUp == |ms.m0mask| == ms.numM1Up + ms.numM0
    && ms.numM1Up == |IndicesWhere(ms.m0mask, true)|
    && ms.numM0 == |IndicesWhere(ms.m0mask, false)|
  }

  /** The constructor builds a valid selector. */
  lemma ConstructorIsValid(m0mask: seq<bool>, hasSensitivity: bool)
    ensures ValidSelector(NewModeSelector(m0mask, hasSensitivity))
  {
  }

  /** The layout the column ordering promises: the m = 0 columns first, then
      the m > 0 ones. */
  predicate CanonicalMask(ms: ModeSelector)
  {
    forall i :: 0 <= i < |ms.m0mask| ==> (ms.m0mask[i] <==> i >= ms.numM0)
  }

  // Ranking one row of the power matrix.

  predicate Descending(row: seq<real>, order: seq<nat>)
    requires forall j :: 0 <= j < |order| ==> order[j] < |row|
  {
    forall i, j :: 0 <= i < j < |order| ==> row[order[i]] >= row[order[j]]
  }

  /** Prepending a column at least as strong as the head keeps an order
      descending. */
  lemma ConsDescending(row: seq<real>, h: nat, rest: seq<nat>)
    requires h < |row| && forall j :: 0 <= j < |rest| ==> rest[j] < |row|
    requires Descending(row, rest)
    requires rest != [] ==> row[h] >= row[rest[0]]
    ensures Descending(row, [h] + rest)
  {
    var r := [h] + rest;
    forall i, j | 0 <= i < j < |r| ensures row[r[i]] >= row[r[j]] {
      if i == 0 {
        if j > 1 {
          assert row[rest[0]] >= row[rest[j - 1]];
        }
      } else {
        assert r[i] == rest[i - 1] && r[j] == rest[j - 1];
      }
    }
  }

  /** Inserts column `c` before the first entry of a descending order whose
      power is not above `c`'s, so that equal powers keep decreasing column
      order. */
  function InsertDesc(row: seq<real>, c: nat, order: seq<nat>): (r: seq<nat>)
    requires c < |row| && forall j :: 0 <= j < |order| ==> order[j] < |row|
    requires Descending(row, order)
    ensures |r| == |order| + 1 && forall j :: 0 <= j < |r| ==> r[j] < |row|
    ensures multiset(r) == multiset(order) + multiset{c}
    ensures r[0] == c || (order != [] && r[0] == order[0])
    ensures Descending(row, r)
  {
    if order == [] || row[order[0]] <= row[c] then
      ConsDescending(row, c, order);
      [c] + order
    else
      assert order == [order[0]] + order[1..];
      var rest := InsertDesc(row, c, order[1..]);
      assert |order| > 1 ==> row[order[0]] >= row[order[1]];
      ConsDescending(row, order[0], rest);
      [order[0]] + rest
  }

  /** `argsort(row)[::-1]` over the first `n` columns: the column indices by
      decreasing power. */
  function ArgsortDesc(row: seq<real>, n: nat): (order: seq<nat>)
    requires n <= |row|
    ensures |order| == n && forall j :: 0 <= j < n ==> order[j] < |row|
    ensures multiset(order) == multiset(Range(n))
    ensures Descending(row, order)
  {
    if n == 0 then []
    else
      assert Range(n) == Range(n - 1) + [n - 1];
      InsertDesc(row, n - 1, ArgsortDesc(row, n - 1))
  }

  /** The ranking visits every column exactly once. */
  lemma ArgsortCoversColumns(row: seq<real>, c: nat)
    requires c < |row|
    ensures c in ArgsortDesc(row, |row|)
  {
    assert c in multiset(Range(|row|)) by {
      assert Range(|row|)[c] == c;
    }
  }

  /** `sort(row)[::-1]`: the powers in decreasing order. */
  function SortedPowers(row: seq<real>): (s: seq<real>)
    ensures |s| == |row|
  {
    var order := ArgsortDesc(row, |row|);
    seq(|row|, j requires 0 <= j < |row| => row[order[j]])
  }

  // Cumulative power and the keep rule.

  function Sum(s: seq<real>): real
  {
    if s == [] then 0.0 else Sum(s[..|s| - 1]) + s[|s| - 1]
  }

  /** `cumsum(row)`: entry j is the total of the first j + 1 values. */
  function Cumsum(s: seq<real>): (c: seq<real>)
    ensures |c| == |s|
  {
    seq(|s|, j requires 0 <= j < |s| => Sum(s[..j + 1]))
  }

  /** Partial sums of non-negative values grow with the prefix. */
  lemma {:induction false} SumPrefixMonotone(s: seq<real>, i: nat, j: nat)
    requires forall k :: 0 <= k < |s| ==> s[k] >= 0.0
    requires i <= j <= |s|
    ensures Sum(s[..i]) <= Sum(s[..j])
    decreases j - i
  {
    if i < j {
      SumPrefixMonotone(s, i, j - 1);
      assert s[..j][..j - 1] == s[..j - 1];
    }
  }

  /** The power to reach, `total * (1 - eps)`. */
  function Target(total: real, eps: real): real
  {
    total * (1.0 - eps)
  }

  lemma TargetAtMostTotal(total: real, eps: real)
    requires total >= 0.0 && eps >= 0.0
    ensures Target(total, eps) <= total
  {
    assert total - Target(total, eps) == total * eps;
  }

  /** `inds_keep` for one row of the cumulative sum: position 0 always, and
      position j >= 1 while the power before it is below total (1 - eps). */
  function KeepFromCumsum(cumsum: seq<real>, eps: real): (keep: seq<bool>)
    ensures |keep| == |cumsum|
  {
    seq(|cumsum|, j requires 0 <= j < |cumsum| =>
      j == 0 || cumsum[j - 1] < Target(cumsum[|cumsum| - 1], eps))
  }

  /** The keep flags of a row of sorted powers. */
  function KeepFlags(sorted: seq<real>, eps: real): (keep: seq<bool>)
    ensures |keep| == |sorted|
  {
    KeepFromCumsum(Cumsum(sorted), eps)
  }

  lemma CumsumEntry(s: seq<real>, j: nat)
    requires j < |s|
    ensures Cumsum(s)[j] == Sum(s[..j + 1])
  {
  }

  lemma CumsumLast(s: seq<real>)
    requires |s| > 0
    ensures Cumsum(s)[|s| - 1] == Sum(s)
  {
    assert s[..|s|] == s;
  }

  /** The rule in terms of the sorted powers: position j is kept exactly when
      j = 0 or the j largest powers add up to less than total (1 - eps). */
  lemma KeepRule(sorted: seq<real>, eps: real, j: nat)
    requires j < |sorted|
    ensures KeepFlags(sorted, eps)[j] <==> (j == 0 || Sum(sorted[..j]) < Target(Sum(sorted), eps))
  {
    CumsumLast(sorted);
    if j > 0 {
      CumsumEntry(sorted, j - 1);
    }
  }

  /** With non-negative powers the kept positions form a prefix of the
      descending order. */
  lemma KeptPositionsArePrefix(sorted: seq<real>, eps: real, i: nat, j: nat)
    requires forall k :: 0 <= k < |sorted| ==> sorted[k] >= 0.0
    requires i <= j < |sorted| && KeepFlags(sorted, eps)[j]
    ensures KeepFlags(sorted, eps)[i]
  {
    KeepRule(sorted, eps, i);
    KeepRule(sorted, eps, j);
    if i > 0 {
      SumPrefixMonotone(sorted, i, j);
    }
  }

  /** The kept prefix is the shortest one reaching the target: the powers
      kept add up to at least total (1 - eps), and dropping the last kept
      position would fall short of it. */
  lemma KeptPowerReachesTarget(sorted: seq<real>, eps: real, count: nat)
    requires forall k :: 0 <= k < |sorted| ==> sorted[k] >= 0.0
    requires 0.0 <= eps
    requires 0 < count <= |sorted|
    requires forall j :: 0 <= j < count ==> KeepFlags(sorted, eps)[j]
    requires count < |sorted| ==> !KeepFlags(sorted, eps)[count]
    ensures Sum(sorted[..count]) >= Target(Sum(sorted), eps)
    ensures count > 1 ==> Sum(sorted[..count - 1]) < Target(Sum(sorted), eps)
  {
    assert sorted[..|sorted|] == sorted;
    if count < |sorted| {
      KeepRule(sorted, eps, count);
    } else {
      SumPrefixMonotone(sorted, 0, |sorted|);
      assert sorted[..0] == [];
      TargetAtMostTotal(Sum(sorted), eps);
    }
    if count > 1 {
      KeepRule(sorted, eps, count - 1);
    }
  }

  /** `inds_keep = full(shape, True); inds_keep[:, 1:] = cumsum[:, :-1] <
      cumsum[:, -1] * (1 - eps)` over a matrix of cumulative sums. */
  method KeepMask(cumsum: seq<seq<real>>, width: nat, eps: real) returns (keep: array2<bool>)
    requires width > 0 && forall r :: 0 <= r < |cumsum| ==> |cumsum[r]| == width
    ensures keep.Length0 == |cumsum| && keep.Length1 == width
    ensures forall r, j :: 0 <= r < |cumsum| && 0 <= j < width ==> keep[r, j] == KeepFromCumsum(cumsum[r], eps)[j]
  {
    keep := new bool[|cumsum|, width]((r, j) => true);
    var r := 0;
    while r < |cumsum|
      invariant 0 <= r <= |cumsum|
      invariant forall r', j :: 0 <= r' < r && 0 <= j < width ==> keep[r', j] == KeepFromCumsum(cumsum[r'], eps)[j]
      invariant forall r', j :: r <= r' < |cumsum| && 0 <= j < width ==> keep[r', j]
    {
      var j := 1;
      while j < width
        invariant 1 <= j <= width
        invariant forall r', j' :: 0 <= r' < r && 0 <= j' < width ==> keep[r', j'] == KeepFromCumsum(cumsum[r'], eps)[j']
        invariant forall j' :: 1 <= j' < j ==> keep[r, j'] == KeepFromCumsum(cumsum[r], eps)[j']
        invariant forall r', j' :: r <= r' < |cumsum| && j <= j' < width ==> keep[r', j']
        invariant keep[r, 0]
        invariant forall r', j' :: r < r' < |cumsum| && 0 <= j' < width ==> keep[r', j']
      {
        keep[r, j] := cumsum[r][j - 1] < Target(cumsum[r][width - 1], eps);
        j := j + 1;
      }
      r := r + 1;
    }
  }

  /** `order[keep]` for one row. */
  function Select(order: seq<nat>, keep: seq<bool>): (r: seq<nat>)
    requires |order| == |keep|
    ensures forall x :: x in r ==> x in order
  {
    if order == [] then []
    else (if keep[0] then [order[0]] else []) + Select(order[1..], keep[1..])
  }

  /** The columns a row keeps, strongest first. */
  function KeptColumns(row: seq<real>, eps: real): (r: seq<nat>)
    ensures forall x :: x in r ==> x < |row|
  {
    var order := ArgsortDesc(row, |row|);
    Select(order, KeepFlags(SortedPowers(row), eps))
  }

  /** In every non-empty row the strongest column is kept. */
  lemma StrongestModeKept(row: seq<real>, eps: real)
    requires |row| > 0
    ensures var top := ArgsortDesc(row, |row|)[0];
            top in KeptColumns(row, eps) && forall c :: 0 <= c < |row| ==> row[c] <= row[top]
  {
    var order := ArgsortDesc(row, |row|);
    forall c | 0 <= c < |row| ensures row[c] <= row[order[0]] {
      ArgsortCoversColumns(row, c);
      var p :| 0 <= p < |order| && order[p] == c;
      if p > 0 {
        assert row[order[0]] >= row[order[p]];
      }
    }
  }

  /** `temp = inds_sort[inds_keep]`: the kept columns of all rows, row by
      row. */
  function Flatten(rows: seq<seq<nat>>): (r: seq<nat>)
  {
    if rows == [] then [] else Flatten(rows[..|rows| - 1]) + rows[|rows| - 1]
  }

  lemma {:induction false} FlattenMember(rows: seq<seq<nat>>, x: nat)
    ensures x in Flatten(rows) <==> exists r :: 0 <= r < |rows| && x in rows[r]
  {
    if rows != [] {
      FlattenMember(rows[..|rows| - 1], x);
      var init := rows[..|rows| - 1];
      assert forall r :: 0 <= r < |init| ==> init[r] == rows[r];
    }
  }

  // Folding m < 0 onto m > 0, and the ylm index list.

  /** Column t of the power matrix as a teukolsky column: m >= 0 columns stay,
      appended m < 0 columns move back by numM1Up. */
  function Remap(t: nat, numMZeroUp: nat, numM1Up: nat): nat
    requires numM1Up <= numMZeroUp
  {
    if t < numMZeroUp then t else t - numM1Up
  }

  /** Every power column remaps into the teukolsky columns [0, numMZeroUp),
      and under the canonical layout the m < 0 partner of the m > 0 column
      numM0 + i lands on that very column. */
  lemma RemapLandsOnPartner(ms: ModeSelector, t: nat, i: nat)
    requires ValidSelector(ms)
    requires t < ms.numMZeroUp + ms.numM1Up
    ensures Remap(t, ms.numMZeroUp, ms.numM1Up) < ms.numMZeroUp
    ensures t < ms.numMZeroUp ==> Remap(t, ms.numMZeroUp, ms.numM1Up) == t
    ensures CanonicalMask(ms) && i < ms.numM1Up ==>
      Remap(ms.numMZeroUp + i, ms.numMZeroUp, ms.numM1Up) == ms.numM0 + i && ms.m0mask[ms.numM0 + i]
  {
  }

  /** The naturals below `n` that are in `values`, ascending. */
  function Enumerate(n: nat, values: set<nat>): (r: seq<nat>)
    ensures forall j, k :: 0 <= j < k < |r| ==> r[j] < r[k]
    ensures forall x :: x in r <==> x < n && x in values
    ensures forall j :: 0 <= j < |r| ==> r[j] < n
  {
    if n == 0 then []
    else Enumerate(n - 1, values) + (if n - 1 in values then [n - 1] else [])
  }

  /** One more than the largest value, 0 for none. */
  function Bound(s: seq<nat>): (b: nat)
    ensures forall x :: x in s ==> x < b
  {
    if s == [] then 0
    else
      var b := Bound(s[..|s| - 1]);
      assert forall x :: x in s ==> x in s[..|s| - 1] || x == s[|s| - 1];
      if s[|s| - 1] < b then b else s[|s| - 1] + 1
  }

  /** `np.unique`: the distinct values, ascending. */
  function Unique(s: seq<nat>): (r: seq<nat>)
  {
    Enumerate(Bound(s), set x | x in s)
  }

  /** `np.unique` yields a strictly increasing list of exactly the values of
      its input. */
  lemma UniqueSortedDistinct(s: seq<nat>)
    ensures forall j, k :: 0 <= j < k < |Unique(s)| ==> Unique(s)[j] < Unique(s)[k]
    ensures forall x :: x in Unique(s) <==> x in s
  {
  }

  /** `temp2`: m = 0 modes keep their index into the ylms, m > 0 modes also
      point at their m < 0 ylm, numM1Up further on. */
  function Temp2(keepModes: seq<nat>, numM0: nat, numM1Up: nat): (r: seq<nat>)
    ensures |r| == |keepModes|
  {
    seq(|keepModes|, j requires 0 <= j < |keepModes| =>
      if keepModes[j] < numM0 then keepModes[j] else keepModes[j] + numM1Up)
  }

  /** `ylmkeep = concatenate([keep_modes, temp2])`. */
  function YlmKeep(keepModes: seq<nat>, numM0: nat, numM1Up: nat): seq<nat>
  {
    keepModes + Temp2(keepModes, numM0, numM1Up)
  }

  /** The ylm index list has two entries per kept mode: the mode's own ylm,
      then the ylm of the same m = 0 mode again or of the m > 0 mode's
      m < 0 partner; all within the ylm vector. */
  lemma YlmKeepLayout(ms: ModeSelector, keepModes: seq<nat>)
    requires ValidSelector(ms)
    requires forall j :: 0 <= j < |keepModes| ==> keepModes[j] < ms.numMZeroUp
    ensures var yk := YlmKeep(keepModes, ms.numM0, ms.numM1Up);
            && |yk| == 2 * |keepModes|
            && (forall j :: 0 <= j < |yk| ==> yk[j] < ms.numMZeroUp + ms.numM1Up)
            && (forall j :: 0 <= j < |keepModes| ==> yk[j] == keepModes[j])
            && (forall j :: 0 <= j < |keepModes| && keepModes[j] < ms.numM0 ==> yk[|keepModes| + j] == keepModes[j])
            && (forall j :: 0 <= j < |keepModes| && keepModes[j] >= ms.numM0 ==>
                  yk[|keepModes| + j] == keepModes[j] + ms.numM1Up)
  {
  }

  // The whole call.

  /** What `__call__` returns: the kept teukolsky columns, the kept ylms and
      the kept entries of each mode-index array. */
  datatype Selected<A, Y> = Selected(teuk: seq<seq<A>>, ylms: seq<Y>, modeinds: seq<seq<int>>)

  /** The kept columns of each row. */
  function KeptRows(power: seq<seq<real>>, eps: real): (rows: seq<seq<nat>>)
    ensures |rows| == |power| && forall r :: 0 <= r < |power| ==> rows[r] == KeptColumns(power[r], eps)
    ensures forall r, x :: 0 <= r < |power| && x in rows[r] ==> x < |power[r]|
  {
    seq(|power|, r requires 0 <= r < |power| => KeptColumns(power[r], eps))
  }

  /** `temp` after the remap: each kept column folded onto its teukolsky
      column. */
  function RemappedColumns(temp: seq<nat>, numMZeroUp: nat, numM1Up: nat): (r: seq<nat>)
    requires numM1Up <= numMZeroUp
    ensures |r| == |temp| && forall i :: 0 <= i < |temp| ==> r[i] == Remap(temp[i], numMZeroUp, numM1Up)
  {
    seq(|temp|, i requires 0 <= i < |temp| => Remap(temp[i], numMZeroUp, numM1Up))
  }

  /** `keep_modes`: the remapped, deduplicated columns kept across all rows. */
  function KeepModes(ms: ModeSelector, power: seq<seq<real>>, eps: real): (keep: seq<nat>)
    requires ValidSelector(ms)
    requires forall r :: 0 <= r < |power| ==> |power[r]| == ms.numMZeroUp + ms.numM1Up
    ensures forall j :: 0 <= j < |keep| ==> keep[j] < ms.numMZeroUp
  {
    var rows := KeptRows(power, eps);
    FlattenBelow(rows, ms.numMZeroUp + ms.numM1Up);
    var temp := Flatten(rows);
    UniqueRemappedInRange(temp, ms.numMZeroUp, ms.numM1Up);
    Unique(RemappedColumns(temp, ms.numMZeroUp, ms.numM1Up))
  }

  /** Flattening rows of columns below `width` gives columns below `width`. */
  lemma FlattenBelow(rows: seq<seq<nat>>, width: nat)
    requires forall r, x :: 0 <= r < |rows| && x in rows[r] ==> x < width
    ensures forall t :: t in Flatten(rows) ==> t < width
  {
    forall t | t in Flatten(rows) ensures t < width {
      FlattenMember(rows, t);
    }
  }

  /** Remapping columns of the power matrix and deduplicating them gives
      teukolsky columns. */
  lemma UniqueRemappedInRange(temp: seq<nat>, numMZeroUp: nat, numM1Up: nat)
    requires numM1Up <= numMZeroUp
    requires forall t :: t in temp ==> t < numMZeroUp + numM1Up
    ensures var u := Unique(RemappedColumns(temp, numMZeroUp, numM1Up));
            forall j :: 0 <= j < |u| ==> u[j] < numMZeroUp
  {
    var remapped := RemappedColumns(temp, numMZeroUp, numM1Up);
    assert forall i :: 0 <= i < |remapped| ==> remapped[i] < numMZeroUp by {
      forall i | 0 <= i < |remapped| ensures remapped[i] < numMZeroUp {
        assert temp[i] in temp;
      }
    }
    UniqueSortedDistinct(remapped);
    var u := Unique(remapped);
    forall j | 0 <= j < |u| ensures u[j] < numMZeroUp {
      assert u[j] in u;
      var i :| 0 <= i < |remapped| && remapped[i] == u[j];
    }
  }

  /** `ModeSelector.__call__` on the power matrix (after any noise
      weighting). */
  function Call<A, Y>(ms: ModeSelector, teuk: seq<seq<A>>, ylms: seq<Y>, modeinds: seq<seq<int>>,
                      power: seq<seq<real>>, fundFreqArgsGiven: bool, eps: real): Result<Selected<A, Y>>
    requires ValidSelector(ms)
    requires |power| == |teuk|
    requires forall r :: 0 <= r < |teuk| ==> |teuk[r]| == ms.numMZeroUp
    requires forall r :: 0 <= r < |power| ==> |power[r]| == ms.numMZeroUp + ms.numM1Up
    requires |ylms| == ms.numMZeroUp + ms.numM1Up
    requires forall i :: 0 <= i < |modeinds| ==> |modeinds[i]| == ms.numMZeroUp
  {
    if ms.hasSensitivity && !fundFreqArgsGiven then Err(MissingFundFreqArgs)
    else if ms.numMZeroUp + ms.numM1Up == 0 then Err(EmptyPowerAxis)
    else
      var keep := KeepModes(ms, power, eps);
      var ylmkeep := YlmKeep(keep, ms.numM0, ms.numM1Up);
      YlmKeepLayout(ms, keep);
      Ok(Selected(
        seq(|teuk|, r requires 0 <= r < |teuk| => seq(|keep|, j requires 0 <= j < |keep| => teuk[r][keep[j]])),
        seq(|ylmkeep|, j requires 0 <= j < |ylmkeep| => ylms[ylmkeep[j]]),
        seq(|modeinds|, i requires 0 <= i < |modeinds| => seq(|keep|, j requires 0 <= j < |keep| => modeinds[i][keep[j]]))))
  }

  /** The error paths: missing frequency arguments under noise weighting is
      reported first; an empty mode axis fails on the total-power lookup. */
  lemma CallErrors<A, Y>(ms: ModeSelector, teuk: seq<seq<A>>, ylms: seq<Y>, modeinds: seq<seq<int>>,
                         power: seq<seq<real>>, fundFreqArgsGiven: bool, eps: real)
    requires ValidSelector(ms)
    requires |power| == |teuk|
    requires forall r :: 0 <= r < |teuk| ==> |teuk[r]| == ms.numMZeroUp
    requires forall r :: 0 <= r < |power| ==> |power[r]| == ms.numMZeroUp + ms.numM1Up
    requires |ylms| == ms.numMZeroUp + ms.numM1Up
    requires forall i :: 0 <= i < |modeinds| ==> |modeinds[i]| == ms.numMZeroUp
    ensures var res := Call(ms, teuk, ylms, modeinds, power, fundFreqArgsGiven, eps);
            && (res == Err(MissingFundFreqArgs) <==> ms.hasSensitivity && !fundFreqArgsGiven)
            && (res == Err(EmptyPowerAxis) <==> !(ms.hasSensitivity && !fundFreqArgsGiven) && |ms.m0mask| == 0)
            && (res.Ok? <==> !(ms.hasSensitivity && !fundFreqArgsGiven) && |ms.m0mask| > 0)
  {
  }

  /** `np.unique` of the remapped flattened rows holds exactly the remapped
      entries of the rows, ascending. */
  lemma UniqueOfRemappedRows(rows: seq<seq<nat>>, numMZeroUp: nat, numM1Up: nat)
    requires numM1Up <= numMZeroUp
    ensures var u := Unique(RemappedColumns(Flatten(rows), numMZeroUp, numM1Up));
            && (forall j, k :: 0 <= j < k < |u| ==> u[j] < u[k])
            && (forall c :: c in u <==>
                  exists r, t :: 0 <= r < |rows| && t in rows[r] && c == Remap(t, numMZeroUp, numM1Up))
  {
    var temp := Flatten(rows);
    var remapped := RemappedColumns(temp, numMZeroUp, numM1Up);
    UniqueSortedDistinct(remapped);
    forall c
      ensures c in remapped <==>
        exists r, t :: 0 <= r < |rows| && t in rows[r] && c == Remap(t, numMZeroUp, numM1Up)
    {
      if c in remapped {
        var i :| 0 <= i < |remapped| && remapped[i] == c;
        FlattenMember(rows, temp[i]);
        assert temp[i] in temp;
      }
      if exists r, t :: 0 <= r < |rows| && t in rows[r] && c == Remap(t, numMZeroUp, numM1Up) {
        var r, t :| 0 <= r < |rows| && t in rows[r] && c == Remap(t, numMZeroUp, numM1Up);
        FlattenMember(rows, t);
        var i :| 0 <= i < |temp| && temp[i] == t;
        assert remapped[i] == c;
      }
    }
  }

  /** `keep_modes` is the deduplicated remap of the flattened kept rows. */
  lemma KeepModesUnfold(ms: ModeSelector, power: seq<seq<real>>, eps: real)
    requires ValidSelector(ms)
    requires forall r :: 0 <= r < |power| ==> |power[r]| == ms.numMZeroUp + ms.numM1Up
    ensures KeepModes(ms, power, eps)
            == Unique(RemappedColumns(Flatten(KeptRows(power, eps)), ms.numMZeroUp, ms.numM1Up))
  {
  }

  /** The kept modes are strictly increasing and are exactly the remapped
      kept columns of all rows. */
  lemma KeepModesCharacterised(ms: ModeSelector, power: seq<seq<real>>, eps: real)
    requires ValidSelector(ms)
    requires forall r :: 0 <= r < |power| ==> |power[r]| == ms.numMZeroUp + ms.numM1Up
    ensures var keep := KeepModes(ms, power, eps);
            && (forall j, k :: 0 <= j < k < |keep| ==> keep[j] < keep[k])
            && (forall c :: c in keep <==>
                  exists r, t :: 0 <= r < |power| && t in KeptColumns(power[r], eps)
                                 && c == Remap(t, ms.numMZeroUp, ms.numM1Up))
  {
    var rows := KeptRows(power, eps);
    KeepModesUnfold(ms, power, eps);
    UniqueOfRemappedRows(rows, ms.numMZeroUp, ms.numM1Up);
  }

  /** Each row's strongest mode survives selection, folded onto its
      teukolsky column. */
  lemma StrongestModesKept(ms: ModeSelector, power: seq<seq<real>>, eps: real)
    requires ValidSelector(ms)
    requires forall r :: 0 <= r < |power| ==> |power[r]| == ms.numMZeroUp + ms.numM1Up
    requires ms.numMZeroUp + ms.numM1Up > 0
    ensures forall r :: 0 <= r < |power| ==>
              Remap(ArgsortDesc(power[r], |power[r]|)[0], ms.numMZeroUp, ms.numM1Up) in KeepModes(ms, power, eps)
  {
    KeepModesCharacterised(ms, power, eps);
    forall r | 0 <= r < |power|
      ensures Remap(ArgsortDesc(power[r], |power[r]|)[0], ms.numMZeroUp, ms.numM1Up) in KeepModes(ms, power, eps)
    {
      StrongestModeKept(power[r], eps);
    }
  }

  /** On success every output is indexed by the same kept modes: kept
      position j is teukolsky column keep[j], mode-index entry keep[j], and
      ylm keep[j] followed by the ylm of its partner. */
  lemma CallSelectsConsistently<A, Y>(ms: ModeSelector, teuk: seq<seq<A>>, ylms: seq<Y>, modeinds: seq<seq<int>>,
                                      power: seq<seq<real>>, fundFreqArgsGiven: bool, eps: real)
    requires ValidSelector(ms)
    requires |power| == |teuk|
    requires forall r :: 0 <= r < |teuk| ==> |teuk[r]| == ms.numMZeroUp
    requires forall r :: 0 <= r < |power| ==> |power[r]| == ms.numMZeroUp + ms.numM1Up
    requires |ylms| == ms.numMZeroUp + ms.numM1Up
    requires forall i :: 0 <= i < |modeinds| ==> |modeinds[i]| == ms.numMZeroUp
    requires Call(ms, teuk, ylms, modeinds, power, fundFreqArgsGiven, eps).Ok?
    ensures var out := Call(ms, teuk, ylms, modeinds, power, fundFreqArgsGiven, eps).value;
            var keep := KeepModes(ms, power, eps);
            && |out.teuk| == |teuk| && |out.modeinds| == |modeinds| && |out.ylms| == 2 * |keep|
            && (forall r :: 0 <= r < |teuk| ==> |out.teuk[r]| == |keep|)
            && (forall r, j :: 0 <= r < |teuk| && 0 <= j < |keep| ==> out.teuk[r][j] == teuk[r][keep[j]])
            && (forall i, j :: 0 <= i < |modeinds| && 0 <= j < |keep| ==> out.modeinds[i][j] == modeinds[i][keep[j]])
            && (forall j :: 0 <= j < |keep| ==> out.ylms[j] == ylms[keep[j]])
            && (forall j :: 0 <= j < |keep| ==>
                  out.ylms[|keep| + j] == ylms[if keep[j] < ms.numM0 then keep[j] else keep[j] + ms.numM1Up])
  {
  }
}
