/**
 * Partition ranking (`Signals_Accessor.rank_partitions`): every cell of a
 * partition gets the 1-based index of that partition in its column.  The scan
 * is the one of `Rank` with one more flag, whether the row above was a
 * counted signal; a reset restarts the numbering at 1.
 */
module PartitionRank {
  import opened Results
  import opened Signals
  import opened Ranking

  /** The per-column state of the partition-rank scan. */
  datatype PartitionState = PartitionState(count: nat, falseSeen: bool, inRun: bool)

  /**
   * One row of `rank_partitions`: a counted signal opens a new partition
   * (incrementing the counter) unless it continues the current one; a reset
   * zeroes the counter first, so the row it falls on is numbered 1.
   */
  function PartitionStep(s: PartitionState, signal: bool, reset: bool, afterFalse: bool): (nat, PartitionState) {
    var count := if reset then 0 else s.count;
    if signal && (s.falseSeen || !afterFalse) then
      var count' := if s.inRun && !reset then count else count + 1;
      (count', PartitionState(count', s.falseSeen, true))
    else if signal then (0, PartitionState(count, s.falseSeen, false))
    else (0, PartitionState(count, true, false))
  }

  /** The state of the partition-rank scan before row `i`. */
  function PartitionStateBefore(a: Column, reset: Column, afterFalse: bool, i: nat): PartitionState
    requires |reset| == |a| && i <= |a|
  {
    if i == 0 then PartitionState(0, false, false)
    else PartitionStep(PartitionStateBefore(a, reset, afterFalse, i - 1), a[i - 1], reset[i - 1], afterFalse).1
  }

  /**
   * The scan's flag records exactly whether a row without a signal came
   * before row `i`, and inside a partition the counter is positive.
   */
  lemma {:induction false} PartitionFalseSeen(a: Column, reset: Column, afterFalse: bool, i: nat)
    requires |reset| == |a| && i <= |a|
    ensures PartitionStateBefore(a, reset, afterFalse, i).falseSeen == FalseBefore(a, i)
    ensures PartitionStateBefore(a, reset, afterFalse, i).inRun ==> PartitionStateBefore(a, reset, afterFalse, i).count > 0
  {
    if i > 0 {
      PartitionFalseSeen(a, reset, afterFalse, i - 1);
      if !a[i - 1] {
        assert FalseBefore(a, i) by { assert 0 <= i - 1 < i && !a[i - 1]; }
      } else if FalseBefore(a, i) {
        var j :| 0 <= j < i && !a[j];
        assert j < i - 1;
      }
    }
  }

  /**
   * `rank_partitions` of one column: a positive value exactly at the counted
   * signals, 0 everywhere else.
   */
  function RankPartitions(a: Column, reset: Column, afterFalse: bool): (r: seq<nat>)
    requires |reset| == |a|
    ensures |r| == |a|
    ensures forall i :: 0 <= i < |a| ==> (r[i] > 0 <==> Counted(a, afterFalse, i))
  {
    assert forall i :: 0 <= i <= |a| ==>
      && PartitionStateBefore(a, reset, afterFalse, i).falseSeen == FalseBefore(a, i)
      && (PartitionStateBefore(a, reset, afterFalse, i).inRun ==> PartitionStateBefore(a, reset, afterFalse, i).count > 0)
    by {
      forall i | 0 <= i <= |a| {
        PartitionFalseSeen(a, reset, afterFalse, i);
      }
    }
    seq(|a|, i requires 0 <= i < |a| =>
      PartitionStep(PartitionStateBefore(a, reset, afterFalse, i), a[i], reset[i], afterFalse).0)
  }

  /** Ranking one more row appends that row's step output to the values so far. */
  lemma PartitionPrefixStep(a: Column, reset: Column, afterFalse: bool, i: nat)
    requires |reset| == |a| && i < |a|
    ensures var step := PartitionStep(PartitionStateBefore(a, reset, afterFalse, i), a[i], reset[i], afterFalse);
      && RankPartitions(a, reset, afterFalse)[..i + 1] == RankPartitions(a, reset, afterFalse)[..i] + [step.0]
      && PartitionStateBefore(a, reset, afterFalse, i + 1) == step.1
  {
    var expected := RankPartitions(a, reset, afterFalse);
    assert expected[..i + 1] == expected[..i] + [expected[i]];
  }

  /** The body of the partition-rank kernel's loop: one row, in place on the scan state. */
  method PartitionRow(count: nat, falseSeen: bool, inRun: bool, signal: bool, reset: bool, afterFalse: bool)
    returns (value: nat, count': nat, falseSeen': bool, inRun': bool)
    ensures (value, PartitionState(count', falseSeen', inRun'))
         == PartitionStep(PartitionState(count, falseSeen, inRun), signal, reset, afterFalse)
  {
    value, count', falseSeen', inRun' := 0, count, falseSeen, false;
    if reset {
      count' := 0;
    }
    if signal {
      if falseSeen || !afterFalse {
        if !inRun || reset {
          count' := count' + 1;
        }
        value := count';
        inRun' := true;
      }
    } else {
      falseSeen' := true;
    }
  }

  /** The partition-rank kernel as a loop over the rows, agreeing with `RankPartitions`. */
  method RankPartitionsKernel(a: Column, reset: Column, afterFalse: bool) returns (r: seq<nat>)
    requires |reset| == |a|
    ensures r == RankPartitions(a, reset, afterFalse)
  {
    ghost var expected := RankPartitions(a, reset, afterFalse);
    r := [];
    var count: nat := 0;
    var falseSeen, inRun := false, false;
    for i := 0 to |a|
      invariant PartitionState(count, falseSeen, inRun) == PartitionStateBefore(a, reset, afterFalse, i)
      invariant r == expected[..i]
    {
      PartitionPrefixStep(a, reset, afterFalse, i);
      var value;
      value, count, falseSeen, inRun := PartitionRow(count, falseSeen, inRun, a[i], reset[i], afterFalse);
      r := r + [value];
    }
  }

  /**
   * Under the default options the counter before row `i` is the number of
   * partitions seen so far, and the run flag says whether row `i - 1` holds a
   * signal.
   */
  lemma {:induction false} PartitionDefaultCount(a: Column, i: nat)
    requires i <= |a|
    ensures PartitionStateBefore(a, NoReset(a), false, i).count == RunStartsUpTo(a, i)
    ensures PartitionStateBefore(a, NoReset(a), false, i).inRun == (i > 0 && a[i - 1])
  {
    if i > 0 {
      PartitionDefaultCount(a, i - 1);
    }
  }

  /** One row of `RankPartitionsNumbersRuns`. */
  lemma PartitionDefaultRow(a: Column, i: nat)
    requires i < |a|
    ensures RankPartitions(a, NoReset(a), false)[i] == if a[i] then RunStartsUpTo(a, i + 1) else 0
  {
    PartitionDefaultCount(a, i);
  }

  /**
   * `rank_partitions()` gives every signal the number of partitions that
   * start at or above its row, which is the index of its own partition.
   */
  lemma RankPartitionsNumbersRuns(a: Column)
    ensures forall i :: 0 <= i < |a| ==>
      RankPartitions(a, NoReset(a), false)[i] == if a[i] then RunStartsUpTo(a, i + 1) else 0
  {
    forall i | 0 <= i < |a| {
      PartitionDefaultRow(a, i);
    }
  }

  /** Two adjacent signals share one partition and so one value. */
  lemma RankPartitionsConstantOnRuns(a: Column, i: nat)
    requires 0 < i < |a| && a[i - 1] && a[i]
    ensures RankPartitions(a, NoReset(a), false)[i - 1] == RankPartitions(a, NoReset(a), false)[i]
  {
    RankPartitionsNumbersRuns(a);
  }

  /** The largest value of a sequence of naturals (0 for the empty sequence). */
  function MaxOf(s: seq<nat>): nat {
    if |s| == 0 then 0
    else
      var m := MaxOf(s[..|s| - 1]);
      if s[|s| - 1] > m then s[|s| - 1] else m
  }

  /** Extending a prefix by one value raises its maximum to that value if larger. */
  lemma MaxOfPrefix(s: seq<nat>, n: nat)
    requires 0 < n <= |s|
    ensures MaxOf(s[..n]) == if s[n - 1] > MaxOf(s[..n - 1]) then s[n - 1] else MaxOf(s[..n - 1])
  {
    assert s[..n][..n - 1] == s[..n - 1];
  }

  /** The running maximum of the values over the first `n` rows is the number of partitions in them. */
  lemma {:induction false} MaxPrefixIsRunCount(a: Column, n: nat)
    requires n <= |a|
    ensures MaxOf(RankPartitions(a, NoReset(a), false)[..n]) == RunStartsUpTo(a, n)
  {
    if n > 0 {
      var r := RankPartitions(a, NoReset(a), false);
      MaxPrefixIsRunCount(a, n - 1);
      PartitionDefaultRow(a, n - 1);
      MaxOfPrefix(r, n);
    }
  }

  /** The column maximum of `rank_partitions()` is the number of partitions in the column. */
  lemma RankPartitionsMaxIsRunCount(a: Column)
    ensures MaxOf(RankPartitions(a, NoReset(a), false)) == |Runs(a)|
  {
    MaxPrefixIsRunCount(a, |a|);
    assert RankPartitions(a, NoReset(a), false)[..|a|] == RankPartitions(a, NoReset(a), false);
  }

  /** `rank_partitions(reset_by=signals)` numbers every partition 1: each signal row restarts the count. */
  lemma RankPartitionsResetBySignals(a: Column, afterFalse: bool)
    ensures forall i :: 0 <= i < |a| ==>
      RankPartitions(a, a, afterFalse)[i] == if Counted(a, afterFalse, i) then 1 else 0
  {
  }

  /**
   * The number of rows in `[lo, hi)` that start a partition when row `lo`
   * is taken as the top of the column: a signal whose row is `lo` or whose
   * row above holds no signal.
   */
  function StartsIn(a: Column, lo: nat, hi: nat): (r: nat)
    requires lo <= hi <= |a|
    ensures r <= hi - lo
  {
    if hi == lo then 0
    else StartsIn(a, lo, hi - 1) + (if a[hi - 1] && (hi - 1 == lo || !a[hi - 2]) then 1 else 0)
  }

  /** With any reset column, the counter before row `i` is the number of partition starts from the last reset row up to `i`. */
  lemma {:induction false} PartitionResetCount(a: Column, reset: Column, i: nat)
    requires |reset| == |a| && i <= |a|
    ensures PartitionStateBefore(a, reset, false, i).count == StartsIn(a, LastResetUpTo(reset, i), i)
    ensures PartitionStateBefore(a, reset, false, i).inRun == (i > 0 && a[i - 1])
  {
    if i > 0 {
      PartitionResetCount(a, reset, i - 1);
    }
  }

  /** One row of `RankPartitionsCountsSinceReset`. */
  lemma PartitionResetRow(a: Column, reset: Column, i: nat)
    requires |reset| == |a| && i < |a|
    ensures RankPartitions(a, reset, false)[i] == if a[i] then StartsIn(a, LastResetUpTo(reset, i + 1), i + 1) else 0
  {
    PartitionResetCount(a, reset, i);
    PartitionResetCount(a, reset, i + 1);
  }

  /**
   * `rank_partitions(reset_by=...)`: every signal gets the number of
   * partitions that start between the last reset row at or above it and its
   * own row, a reset inside a partition starting a new one.
   */
  lemma RankPartitionsCountsSinceReset(a: Column, reset: Column)
    requires |reset| == |a|
    ensures forall i :: 0 <= i < |a| ==>
      RankPartitions(a, reset, false)[i] == if a[i] then StartsIn(a, LastResetUpTo(reset, i + 1), i + 1) else 0
  {
    forall i | 0 <= i < |a| {
      PartitionResetRow(a, reset, i);
    }
  }

  /** Before the first row without a signal, the `afterFalse` scan stays in its initial state. */
  lemma {:induction false} PartitionLeadingState(a: Column, reset: Column, i: nat)
    requires |reset| == |a| && i <= FirstFalse(a)
    ensures PartitionStateBefore(a, reset, true, i) == PartitionState(0, false, false)
  {
    if i > 0 {
      PartitionLeadingState(a, reset, i - 1);
    }
  }

  /** From the first row without a signal on, the `afterFalse` scan is the plain scan of the remaining rows. */
  lemma {:induction false} PartitionShiftState(a: Column, reset: Column, i: nat)
    requires |reset| == |a| && FirstFalse(a) <= i <= |a|
    ensures PartitionStateBefore(a, reset, true, i)
         == PartitionStateBefore(a[FirstFalse(a)..], reset[FirstFalse(a)..], false, i - FirstFalse(a))
  {
    var f := FirstFalse(a);
    if i == f {
      PartitionLeadingState(a, reset, i);
    } else {
      PartitionShiftState(a, reset, i - 1);
      PartitionFalseSeen(a, reset, true, i - 1);
      assert a[f..][i - 1 - f] == a[i - 1] && reset[f..][i - 1 - f] == reset[i - 1];
      if i - 1 > f {
        assert FalseBefore(a, i - 1) by { assert !a[f]; }
      }
    }
  }

  /** One row of `RankPartitionsAfterFalse`. */
  lemma PartitionAfterFalseRow(a: Column, reset: Column, i: nat)
    requires |reset| == |a| && FirstFalse(a) <= i < |a|
    ensures RankPartitions(a, reset, true)[i] == RankPartitions(a[FirstFalse(a)..], reset[FirstFalse(a)..], false)[i - FirstFalse(a)]
  {
    var f := FirstFalse(a);
    PartitionShiftState(a, reset, i);
    PartitionFalseSeen(a, reset, true, i);
    assert a[f..][i - f] == a[i] && reset[f..][i - f] == reset[i];
    if i > f {
      assert FalseBefore(a, i) by { assert !a[f]; }
    }
  }

  /**
   * `rank_partitions(after_false=True)` gives 0 to the leading partition (the
   * rows before the first row without a signal) and numbers the remaining
   * partitions from 1, as a plain `rank_partitions` of the remaining rows would.
   */
  lemma RankPartitionsAfterFalse(a: Column, reset: Column)
    requires |reset| == |a|
    ensures forall i :: 0 <= i < FirstFalse(a) ==> RankPartitions(a, reset, true)[i] == 0
    ensures forall i :: FirstFalse(a) <= i < |a| ==>
      RankPartitions(a, reset, true)[i] == RankPartitions(a[FirstFalse(a)..], reset[FirstFalse(a)..], false)[i - FirstFalse(a)]
  {
    forall i | FirstFalse(a) <= i < |a| {
      PartitionAfterFalseRow(a, reset, i);
    }
  }

  /** `rank_partitions` of a matrix: every column ranked on its own. */
  function RankPartitionsSignals(m: Matrix, resetBy: Option<Matrix>, afterFalse: bool): (r: seq<seq<nat>>)
    requires resetBy.Some? ==> SameShape(m, resetBy.value)
    ensures SameShape(r, m)
  {
    seq(|m|, j requires 0 <= j < |m| => RankPartitions(m[j], ResetColumn(m, resetBy, j), afterFalse))
  }
}
