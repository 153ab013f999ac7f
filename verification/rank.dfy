/**
 * Ranking of signals (`Signals_Accessor.rank`, `rank_partitions`, `first`,
 * `nst`, `from_nst`).  Each column is ranked by one top-to-bottom scan that
 * keeps a counter and a flag recording whether a row without a signal has
 * been seen; a reset row zeroes the counter before the row itself is ranked.
 */
module Ranking {
  import opened Results
  import opened Signals

  /** The per-column state of the rank scan. */
  datatype RankState = RankState(count: nat, falseSeen: bool)

  /**
   * One row of `rank`: the value written at the row and the state for the
   * next row.  A signal is counted unless `afterFalse` holds and no row
   * without a signal has been seen; a row without a signal zeroes the counter
   * unless `allowGaps` holds.
   */
  function RankStep(s: RankState, signal: bool, reset: bool, afterFalse: bool, allowGaps: bool): (nat, RankState) {
    var count := if reset then 0 else s.count;
    if signal && (s.falseSeen || !afterFalse) then (count + 1, RankState(count + 1, s.falseSeen))
    else if signal then (0, RankState(count, s.falseSeen))
    else (0, RankState(if allowGaps then count else 0, true))
  }

  /** The state of the rank scan before row `i`. */
  function RankStateBefore(a: Column, reset: Column, afterFalse: bool, allowGaps: bool, i: nat): RankState
    requires |reset| == |a| && i <= |a|
  {
    if i == 0 then RankState(0, false)
    else RankStep(RankStateBefore(a, reset, afterFalse, allowGaps, i - 1), a[i - 1], reset[i - 1], afterFalse, allowGaps).1
  }

  /** Row `i` holds a signal that the scan counts. */
  predicate Counted(a: Column, afterFalse: bool, i: nat)
    requires i < |a|
  {
    a[i] && (!afterFalse || FalseBefore(a, i))
  }

  /** The scan's flag records exactly whether a row without a signal came before row `i`. */
  lemma {:induction false} RankFalseSeen(a: Column, reset: Column, afterFalse: bool, allowGaps: bool, i: nat)
    requires |reset| == |a| && i <= |a|
    ensures RankStateBefore(a, reset, afterFalse, allowGaps, i).falseSeen == FalseBefore(a, i)
  {
    if i > 0 {
      RankFalseSeen(a, reset, afterFalse, allowGaps, i - 1);
      if !a[i - 1] {
        assert FalseBefore(a, i) by { assert 0 <= i - 1 < i && !a[i - 1]; }
      } else if FalseBefore(a, i) {
        var j :| 0 <= j < i && !a[j];
        assert j < i - 1;
      }
    }
  }

  /**
   * `rank` of one column: a positive rank exactly at the counted signals,
   * 0 everywhere else.
   */
  function Rank(a: Column, reset: Column, afterFalse: bool, allowGaps: bool): (r: seq<nat>)
    requires |reset| == |a|
    ensures |r| == |a|
    ensures forall i :: 0 <= i < |a| ==> (r[i] > 0 <==> Counted(a, afterFalse, i))
  {
    assert forall i :: 0 <= i <= |a| ==> RankStateBefore(a, reset, afterFalse, allowGaps, i).falseSeen == FalseBefore(a, i) by {
      forall i | 0 <= i <= |a| {
        RankFalseSeen(a, reset, afterFalse, allowGaps, i);
      }
    }
    seq(|a|, i requires 0 <= i < |a| =>
      RankStep(RankStateBefore(a, reset, afterFalse, allowGaps, i), a[i], reset[i], afterFalse, allowGaps).0)
  }

  /** Row `i` of the ranks is the step output of the scan state before it. */
  lemma RankAt(a: Column, reset: Column, afterFalse: bool, allowGaps: bool, i: nat)
    requires |reset| == |a| && i < |a|
    ensures Rank(a, reset, afterFalse, allowGaps)[i] ==
      RankStep(RankStateBefore(a, reset, afterFalse, allowGaps, i), a[i], reset[i], afterFalse, allowGaps).0
  {
  }

  /** Ranking one more row appends that row's step output to the ranks so far. */
  lemma RankPrefixStep(a: Column, reset: Column, afterFalse: bool, allowGaps: bool, i: nat)
    requires |reset| == |a| && i < |a|
    ensures var step := RankStep(RankStateBefore(a, reset, afterFalse, allowGaps, i), a[i], reset[i], afterFalse, allowGaps);
      && Rank(a, reset, afterFalse, allowGaps)[..i + 1] == Rank(a, reset, afterFalse, allowGaps)[..i] + [step.0]
      && RankStateBefore(a, reset, afterFalse, allowGaps, i + 1) == step.1
  {
    var expected := Rank(a, reset, afterFalse, allowGaps);
    assert expected[..i + 1] == expected[..i] + [expected[i]];
  }

  /** The body of the rank kernel's loop: one row, in place on the counter and the flag. */
  method RankRow(count: nat, falseSeen: bool, signal: bool, reset: bool, afterFalse: bool, allowGaps: bool)
    returns (value: nat, count': nat, falseSeen': bool)
    ensures (value, RankState(count', falseSeen')) == RankStep(RankState(count, falseSeen), signal, reset, afterFalse, allowGaps)
  {
    value, count', falseSeen' := 0, count, falseSeen;
    if reset {
      count' := 0;
    }
    if signal {
      if falseSeen || !afterFalse {
        count' := count' + 1;
        value := count';
      }
    } else {
      falseSeen' := true;
      if !allowGaps {
        count' := 0;
      }
    }
  }

  /** The rank kernel as a loop over the rows, agreeing with `Rank`. */
  method RankKernel(a: Column, reset: Column, afterFalse: bool, allowGaps: bool) returns (r: seq<nat>)
    requires |reset| == |a|
    ensures r == Rank(a, reset, afterFalse, allowGaps)
  {
    ghost var expected := Rank(a, reset, afterFalse, allowGaps);
    r := [];
    var count: nat := 0;
    var falseSeen := false;
    for i := 0 to |a|
      invariant RankState(count, falseSeen) == RankStateBefore(a, reset, afterFalse, allowGaps, i)
      invariant r == expected[..i]
    {
      RankPrefixStep(a, reset, afterFalse, allowGaps, i);
      var value;
      value, count, falseSeen := RankRow(count, falseSeen, a[i], reset[i], afterFalse, allowGaps);
      r := r + [value];
    }
  }

  /** The column every reset-free call uses: no row resets the counter. */
  function NoReset(a: Column): (reset: Column)
    ensures |reset| == |a|
    ensures forall i :: 0 <= i < |a| ==> !reset[i]
  {
    NoSignals(|a|)
  }

  /** Under the default options the counter before row `i` is the length of the run of signals ending just above `i`. */
  lemma {:induction false} RankDefaultCount(a: Column, i: nat)
    requires i <= |a|
    ensures RankStateBefore(a, NoReset(a), false, false, i).count <= i
    ensures forall j :: i - RankStateBefore(a, NoReset(a), false, false, i).count <= j < i ==> a[j]
    ensures RankStateBefore(a, NoReset(a), false, false, i).count == i
         || !a[i - RankStateBefore(a, NoReset(a), false, false, i).count - 1]
  {
    if i > 0 {
      RankDefaultCount(a, i - 1);
    }
  }

  /**
   * `r` gives every signal of `a` its 1-based position in its partition: the
   * `r[i]` rows ending at `i` all hold signals and the row above them does
   * not (or they reach row 0); rows without a signal get 0.
   */
  ghost predicate PositionsInPartitions(a: Column, r: seq<nat>)
    requires |r| == |a|
  {
    && (forall i :: 0 <= i < |a| && !a[i] ==> r[i] == 0)
    && (forall i :: 0 <= i < |a| && a[i] ==> 1 <= r[i] <= i + 1)
    && (forall i, j :: 0 <= i < |a| && a[i] && i - r[i] < j <= i ==> a[j])
    && (forall i :: 0 <= i < |a| && a[i] && r[i] <= i ==> !a[i - r[i]])
  }

  /** One signal row of `RankIsPositionInPartition`. */
  lemma RankDefaultRow(a: Column, i: nat)
    requires i < |a| && a[i]
    ensures 1 <= Rank(a, NoReset(a), false, false)[i] <= i + 1
    ensures forall j :: i - Rank(a, NoReset(a), false, false)[i] < j <= i ==> a[j]
    ensures Rank(a, NoReset(a), false, false)[i] <= i ==> !a[i - Rank(a, NoReset(a), false, false)[i]]
  {
    var c := RankStateBefore(a, NoReset(a), false, false, i).count;
    RankDefaultCount(a, i);
    RankAt(a, NoReset(a), false, false, i);
    assert !NoReset(a)[i];
    assert forall j :: i - (c + 1) < j <= i ==> a[j] by {
      assert forall j :: i - c <= j < i ==> a[j];
    }
  }

  /** `rank()` gives every signal its 1-based position in its partition. */
  lemma RankIsPositionInPartition(a: Column)
    ensures PositionsInPartitions(a, Rank(a, NoReset(a), false, false))
  {
    forall i | 0 <= i < |a| && a[i] {
      RankDefaultRow(a, i);
    }
  }

  /** With `allowGaps` and no reset, the counter before row `i` is the number of signals above `i`. */
  lemma {:induction false} RankGapsCount(a: Column, i: nat)
    requires i <= |a|
    ensures RankStateBefore(a, NoReset(a), false, true, i).count == CountUpTo(a, i)
  {
    if i > 0 {
      RankGapsCount(a, i - 1);
    }
  }

  /** `rank(allow_gaps=True)` numbers the signals of a column 1, 2, 3, ... across gaps. */
  lemma RankAllowGapsCountsSignals(a: Column)
    ensures forall i :: 0 <= i < |a| ==>
      Rank(a, NoReset(a), false, true)[i] == if a[i] then CountUpTo(a, i + 1) else 0
  {
    forall i | 0 <= i < |a| {
      RankGapsCount(a, i);
    }
  }

  /** Resetting at every row without a signal turns the gap-tolerant scan into the default one, state for state. */
  lemma {:induction false} ResetByNegationState(a: Column, afterFalse: bool, i: nat)
    requires i <= |a|
    ensures RankStateBefore(a, Not(a), afterFalse, true, i) == RankStateBefore(a, NoReset(a), afterFalse, false, i)
  {
    if i > 0 {
      ResetByNegationState(a, afterFalse, i - 1);
    }
  }

  /** `rank(reset_by=~signals, allow_gaps=True)` equals `rank()`, with or without `after_false`. */
  lemma RankResetByNegationIsDefault(a: Column, afterFalse: bool)
    ensures Rank(a, Not(a), afterFalse, true) == Rank(a, NoReset(a), afterFalse, false)
  {
    forall i | 0 <= i < |a|
      ensures Rank(a, Not(a), afterFalse, true)[i] == Rank(a, NoReset(a), afterFalse, false)[i]
    {
      ResetByNegationState(a, afterFalse, i);
    }
  }

  /**
   * The row where counting last restarted before row `n`: the last row below
   * `n` that `reset` marks, or row 0 when there is none.
   */
  function LastResetUpTo(reset: Column, n: nat): (r: nat)
    requires n <= |reset|
    ensures n == 0 ==> r == 0
    ensures n > 0 ==> r < n
    ensures r > 0 ==> reset[r]
    ensures forall k :: r < k < n ==> !reset[k]
  {
    if n == 0 then 0
    else if reset[n - 1] then n - 1
    else LastResetUpTo(reset, n - 1)
  }

  /** With `allowGaps` and any reset column, the counter before row `i` is the number of signals from the last reset row up to `i`. */
  lemma {:induction false} RankGapsResetCount(a: Column, reset: Column, i: nat)
    requires |reset| == |a| && i <= |a|
    ensures RankStateBefore(a, reset, false, true, i).count == CountUpTo(a, i) - CountUpTo(a, LastResetUpTo(reset, i))
  {
    if i > 0 {
      RankGapsResetCount(a, reset, i - 1);
    }
  }

  /**
   * `rank(reset_by=..., allow_gaps=True)`: a signal's rank is the number of
   * signals from the last reset row at or above it down to the signal itself.
   */
  lemma RankAllowGapsCountsSinceReset(a: Column, reset: Column)
    requires |reset| == |a|
    ensures forall i :: 0 <= i < |a| ==>
      Rank(a, reset, false, true)[i] == if a[i] then CountUpTo(a, i + 1) - CountUpTo(a, LastResetUpTo(reset, i + 1)) else 0
  {
    forall i | 0 <= i < |a| {
      RankGapsResetCount(a, reset, i);
    }
  }

  /**
   * The `v` rows ending just above row `n` all hold signals, reach no higher
   * than row `lo`, and cannot be extended upwards: they start at `lo` or the
   * row above them holds no signal.
   */
  ghost predicate ClippedRun(a: Column, lo: nat, n: nat, v: nat)
    requires lo <= n <= |a|
  {
    && v <= n - lo
    && (forall j :: n - v <= j < n ==> a[j])
    && (v == n - lo || !a[n - v - 1])
  }

  /** `ClippedRun` pins down a single length. */
  lemma ClippedRunUnique(a: Column, lo: nat, n: nat, v: nat, w: nat)
    requires lo <= n <= |a|
    requires ClippedRun(a, lo, n, v) && ClippedRun(a, lo, n, w)
    ensures v == w
  {
  }

  /** Under the default options and any reset column, the counter before row `i` is the run of signals above `i`, cut at the last reset row. */
  lemma {:induction false} RankResetCount(a: Column, reset: Column, i: nat)
    requires |reset| == |a| && i <= |a|
    ensures ClippedRun(a, LastResetUpTo(reset, i), i, RankStateBefore(a, reset, false, false, i).count)
  {
    if i > 0 {
      RankResetCount(a, reset, i - 1);
    }
  }

  /**
   * `rank(reset_by=...)`: a signal's rank is the length of the run of
   * signals ending at it, cut at the last reset row at or above it; rows
   * without a signal get 0.
   */
  lemma RankCountsRunSinceReset(a: Column, reset: Column)
    requires |reset| == |a|
    ensures forall i :: 0 <= i < |a| && !a[i] ==> Rank(a, reset, false, false)[i] == 0
    ensures forall i :: 0 <= i < |a| && a[i] ==> ClippedRun(a, LastResetUpTo(reset, i + 1), i + 1, Rank(a, reset, false, false)[i])
  {
    forall i | 0 <= i < |a| && a[i]
      ensures ClippedRun(a, LastResetUpTo(reset, i + 1), i + 1, Rank(a, reset, false, false)[i])
    {
      RankResetRow(a, reset, i);
    }
  }

  /** One signal row of `RankCountsRunSinceReset`. */
  lemma RankResetRow(a: Column, reset: Column, i: nat)
    requires |reset| == |a| && i < |a| && a[i]
    ensures ClippedRun(a, LastResetUpTo(reset, i + 1), i + 1, Rank(a, reset, false, false)[i])
  {
    RankResetCount(a, reset, i + 1);
    RankAt(a, reset, false, false, i);
    assert Rank(a, reset, false, false)[i] == RankStateBefore(a, reset, false, false, i + 1).count;
  }

  /** Before the first row without a signal, the `afterFalse` scan stays in its initial state. */
  lemma {:induction false} AfterFalseLeadingState(a: Column, reset: Column, allowGaps: bool, i: nat)
    requires |reset| == |a| && i <= FirstFalse(a)
    ensures RankStateBefore(a, reset, true, allowGaps, i) == RankState(0, false)
  {
    if i > 0 {
      AfterFalseLeadingState(a, reset, allowGaps, i - 1);
    }
  }

  /** From the first row without a signal on, the `afterFalse` scan is the plain scan of the remaining rows. */
  lemma {:induction false} AfterFalseShiftState(a: Column, reset: Column, allowGaps: bool, i: nat)
    requires |reset| == |a| && FirstFalse(a) <= i <= |a|
    ensures RankStateBefore(a, reset, true, allowGaps, i)
         == RankStateBefore(a[FirstFalse(a)..], reset[FirstFalse(a)..], false, allowGaps, i - FirstFalse(a))
  {
    var f := FirstFalse(a);
    if i == f {
      AfterFalseLeadingState(a, reset, allowGaps, i);
    } else {
      AfterFalseShiftState(a, reset, allowGaps, i - 1);
      RankFalseSeen(a, reset, true, allowGaps, i - 1);
      assert a[f..][i - 1 - f] == a[i - 1] && reset[f..][i - 1 - f] == reset[i - 1];
      if i - 1 > f {
        assert FalseBefore(a, i - 1) by { assert !a[f]; }
      }
    }
  }

  /** One row of `RankAfterFalseSkipsLeadingRun`. */
  lemma AfterFalseRow(a: Column, reset: Column, allowGaps: bool, i: nat)
    requires |reset| == |a| && FirstFalse(a) <= i < |a|
    ensures Rank(a, reset, true, allowGaps)[i] == Rank(a[FirstFalse(a)..], reset[FirstFalse(a)..], false, allowGaps)[i - FirstFalse(a)]
  {
    var f := FirstFalse(a);
    AfterFalseShiftState(a, reset, allowGaps, i);
    RankFalseSeen(a, reset, true, allowGaps, i);
    assert a[f..][i - f] == a[i] && reset[f..][i - f] == reset[i];
    if i > f {
      assert FalseBefore(a, i) by { assert !a[f]; }
    }
  }

  /**
   * `rank(after_false=True)` gives 0 to the leading run of signals (the rows
   * before the first row without one) and ranks the remaining rows exactly
   * as a plain `rank` of those rows would.
   */
  lemma RankAfterFalseSkipsLeadingRun(a: Column, reset: Column, allowGaps: bool)
    requires |reset| == |a|
    ensures forall i :: 0 <= i < FirstFalse(a) ==> Rank(a, reset, true, allowGaps)[i] == 0
    ensures forall i :: FirstFalse(a) <= i < |a| ==>
      Rank(a, reset, true, allowGaps)[i] == Rank(a[FirstFalse(a)..], reset[FirstFalse(a)..], false, allowGaps)[i - FirstFalse(a)]
  {
    forall i | FirstFalse(a) <= i < |a| {
      AfterFalseRow(a, reset, allowGaps, i);
    }
  }

  /** `nst(n)` of one column: the rows whose rank is exactly `n`. */
  function Nst(a: Column, reset: Column, afterFalse: bool, allowGaps: bool, n: int): (r: Column)
    requires |reset| == |a|
    ensures |r| == |a|
  {
    var ranks := Rank(a, reset, afterFalse, allowGaps);
    seq(|a|, i requires 0 <= i < |a| => ranks[i] == n)
  }

  /** `first()` of one column: the rows whose rank is 1. */
  function First(a: Column, reset: Column, afterFalse: bool, allowGaps: bool): (r: Column)
    requires |reset| == |a|
    ensures |r| == |a|
  {
    Nst(a, reset, afterFalse, allowGaps, 1)
  }

  /** `from_nst(n)` of one column: the rows whose rank is at least `n`. */
  function FromNst(a: Column, reset: Column, afterFalse: bool, allowGaps: bool, n: int): (r: Column)
    requires |reset| == |a|
    ensures |r| == |a|
  {
    var ranks := Rank(a, reset, afterFalse, allowGaps);
    seq(|a|, i requires 0 <= i < |a| => ranks[i] >= n)
  }

  /** `first()` marks exactly the rows that start a partition. */
  lemma FirstMarksPartitionStarts(a: Column)
    ensures forall i :: 0 <= i < |a| ==> First(a, NoReset(a), false, false)[i] == RunStart(a, i)
  {
    RankIsPositionInPartition(a);
    forall i | 0 <= i < |a|
      ensures First(a, NoReset(a), false, false)[i] == RunStart(a, i)
    {
      var r := Rank(a, NoReset(a), false, false);
      if a[i] && r[i] > 1 {
        assert a[i - 1];
      }
    }
  }

  /** `from_nst(1)` marks exactly the counted signals; with the default options that is the input itself. */
  lemma FromNstOneMarksCounted(a: Column, reset: Column, afterFalse: bool, allowGaps: bool)
    requires |reset| == |a|
    ensures forall i :: 0 <= i < |a| ==> FromNst(a, reset, afterFalse, allowGaps, 1)[i] == Counted(a, afterFalse, i)
  {
  }

  /** `nst(0)` marks the complement of the counted signals, and `from_nst(n)` for `n <= 0` marks every row. */
  lemma NstZeroIsComplement(a: Column, reset: Column, afterFalse: bool, allowGaps: bool, n: int)
    requires |reset| == |a| && n <= 0
    ensures forall i :: 0 <= i < |a| ==> Nst(a, reset, afterFalse, allowGaps, 0)[i] == !Counted(a, afterFalse, i)
    ensures forall i :: 0 <= i < |a| ==> FromNst(a, reset, afterFalse, allowGaps, n)[i]
  {
  }

  /** `nst(n, allow_gaps=True)` marks the `n`-th signal of the column (counting from 1), if there is one. */
  lemma NstWithGapsIsNthSignal(a: Column, n: int)
    requires n >= 1
    ensures forall i :: 0 <= i < |a| ==> Nst(a, NoReset(a), false, true, n)[i] == (a[i] && CountUpTo(a, i + 1) == n)
  {
    RankAllowGapsCountsSignals(a);
  }

  /** The reset column of column `j`: the matching column of `resetBy`, or no reset at all. */
  function ResetColumn(m: Matrix, resetBy: Option<Matrix>, j: nat): (reset: Column)
    requires j < |m|
    requires resetBy.Some? ==> SameShape(m, resetBy.value)
    ensures |reset| == |m[j]|
  {
    if resetBy.Some? then resetBy.value[j] else NoReset(m[j])
  }

  /** `rank` of a matrix: every column ranked on its own. */
  function RankSignals(m: Matrix, resetBy: Option<Matrix>, afterFalse: bool, allowGaps: bool): (r: seq<seq<nat>>)
    requires resetBy.Some? ==> SameShape(m, resetBy.value)
    ensures SameShape(r, m)
  {
    seq(|m|, j requires 0 <= j < |m| => Rank(m[j], ResetColumn(m, resetBy, j), afterFalse, allowGaps))
  }

  /** `nst(n)` of a matrix. */
  function NstSignals(m: Matrix, resetBy: Option<Matrix>, afterFalse: bool, allowGaps: bool, n: int): (r: Matrix)
    requires resetBy.Some? ==> SameShape(m, resetBy.value)
    ensures SameShape(r, m)
  {
    seq(|m|, j requires 0 <= j < |m| => Nst(m[j], ResetColumn(m, resetBy, j), afterFalse, allowGaps, n))
  }

  /** `first()` of a matrix. */
  function FirstSignals(m: Matrix, resetBy: Option<Matrix>, afterFalse: bool, allowGaps: bool): (r: Matrix)
    requires resetBy.Some? ==> SameShape(m, resetBy.value)
    ensures SameShape(r, m)
  {
    NstSignals(m, resetBy, afterFalse, allowGaps, 1)
  }

  /** `from_nst(n)` of a matrix. */
  function FromNstSignals(m: Matrix, resetBy: Option<Matrix>, afterFalse: bool, allowGaps: bool, n: int): (r: Matrix)
    requires resetBy.Some? ==> SameShape(m, resetBy.value)
    ensures SameShape(r, m)
  {
    seq(|m|, j requires 0 <= j < |m| => FromNst(m[j], ResetColumn(m, resetBy, j), afterFalse, allowGaps, n))
  }
}
