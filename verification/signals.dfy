/**
 * The shared data representation: a signal matrix is a sequence of columns,
 * every column an independent, time-ordered sequence of markers.  This module
 * also defines the column facts every operation is specified with: the number
 * of signals, their row indices, the next signal after a row, and the
 * partitions (maximal runs of consecutive signals).
 */
module Signals {

  /** One column: row `i` holds whether a signal occurs at time step `i`. */
  type Column = seq<bool>

  /** A boolean matrix, stored as its columns; no operation reads across columns. */
  type Matrix = seq<Column>

  /** A half-open row range `[from, to)`. */
  datatype Span = Span(from: nat, to: nat)

  /** Every column of `m` has `rows` rows. */
  predicate IsShape<T>(m: seq<seq<T>>, rows: nat) {
    forall j :: 0 <= j < |m| ==> |m[j]| == rows
  }

  /** `m` and `n` have the same number of columns and matching column lengths. */
  predicate SameShape<T, U>(m: seq<seq<T>>, n: seq<seq<U>>) {
    |m| == |n| && forall j :: 0 <= j < |m| ==> |m[j]| == |n[j]|
  }

  /** A column of `n` rows without any signal. */
  function NoSignals(n: nat): (c: Column)
    ensures |c| == n
    ensures forall i :: 0 <= i < n ==> !c[i]
  {
    seq(n, i => false)
  }

  /** The elementwise negation of a column (`~signals`). */
  function Not(c: Column): (r: Column)
    ensures |r| == |c|
    ensures forall i :: 0 <= i < |c| ==> r[i] == !c[i]
  {
    seq(|c|, i requires 0 <= i < |c| => !c[i])
  }

  /** Number of signals among the first `n` rows of `c`. */
  function CountUpTo(c: Column, n: nat): (r: nat)
    requires n <= |c|
    ensures r <= n
  {
    if n == 0 then 0 else CountUpTo(c, n - 1) + (if c[n - 1] then 1 else 0)
  }

  /** Number of signals in `c` (the per-column value of `num_signals`). */
  function Count(c: Column): nat {
    CountUpTo(c, |c|)
  }

  /** Row indices of the signals among the first `n` rows, in increasing order. */
  function SignalsUpTo(c: Column, n: nat): (r: seq<nat>)
    requires n <= |c|
    ensures |r| == CountUpTo(c, n)
  {
    if n == 0 then []
    else
      var prev := SignalsUpTo(c, n - 1);
      if c[n - 1] then prev + [n - 1] else prev
  }

  /** The indices are exactly the signal rows below `n`, each once, in increasing order. */
  lemma {:induction false} SignalsUpToAreSignals(c: Column, n: nat)
    requires n <= |c|
    ensures forall k :: 0 <= k < |SignalsUpTo(c, n)| ==> SignalsUpTo(c, n)[k] < n && c[SignalsUpTo(c, n)[k]]
    ensures forall k, l :: 0 <= k < l < |SignalsUpTo(c, n)| ==> SignalsUpTo(c, n)[k] < SignalsUpTo(c, n)[l]
    ensures forall i :: 0 <= i < n && c[i] ==> i in SignalsUpTo(c, n)
  {
    if n > 0 {
      SignalsUpToAreSignals(c, n - 1);
    }
  }

  /** Row indices of all signals of `c`, in increasing order. */
  function SignalIndices(c: Column): (r: seq<nat>)
    ensures |r| == Count(c)
    ensures forall k :: 0 <= k < |r| ==> r[k] < |c| && c[r[k]]
    ensures forall k, l :: 0 <= k < l < |r| ==> r[k] < r[l]
    ensures forall i :: 0 <= i < |c| && c[i] ==> i in r
  {
    SignalsUpToAreSignals(c, |c|);
    SignalsUpTo(c, |c|)
  }

  /** The set of rows holding a signal. */
  function SignalSet(c: Column): set<nat> {
    set i: nat | i < |c| && c[i]
  }

  /** The first signal at or after row `i`, or `|c|` when there is none. */
  function NextSignal(c: Column, i: nat): (r: nat)
    requires i <= |c|
    ensures i <= r <= |c|
    ensures r < |c| ==> c[r]
    ensures forall k :: i <= k < r ==> !c[k]
    decreases |c| - i
  {
    if i == |c| || c[i] then i else NextSignal(c, i + 1)
  }

  /** Some row before `i` holds no signal. */
  predicate FalseBefore(c: Column, i: nat)
    requires i <= |c|
  {
    exists j :: 0 <= j < i && !c[j]
  }

  /** The first row without a signal, or `|c|` when every row holds one. */
  function FirstFalse(c: Column): (f: nat)
    ensures f <= |c|
    ensures forall j :: 0 <= j < f ==> c[j]
    ensures f < |c| ==> !c[f]
  {
    NextSignal(Not(c), 0)
  }

  /** Row `i` starts a partition: it holds a signal and the row before does not. */
  predicate RunStart(c: Column, i: nat)
    requires i < |c|
  {
    c[i] && (i == 0 || !c[i - 1])
  }

  /** Number of rows among the first `n` that start a partition. */
  function RunStartsUpTo(c: Column, n: nat): nat
    requires n <= |c|
  {
    if n == 0 then 0 else RunStartsUpTo(c, n - 1) + (if RunStart(c, n - 1) then 1 else 0)
  }

  /** Row `i` lies inside one of `spans`. */
  ghost predicate InSomeSpan(spans: seq<Span>, i: nat) {
    exists k :: 0 <= k < |spans| && spans[k].from <= i < spans[k].to
  }

  /**
   * `r` lists the partitions (maximal runs of signals) among the first `n`
   * rows of `c`, as spans `[first row, one past the last row)` in time order.
   */
  ghost predicate PartitionsOf(c: Column, n: nat, r: seq<Span>)
    requires n <= |c|
  {
    && (forall k :: 0 <= k < |r| ==> r[k].from < r[k].to <= n)
    && (forall k, i :: 0 <= k < |r| && r[k].from <= i < r[k].to ==> c[i])
    && (forall k :: 0 <= k < |r| ==> r[k].from == 0 || !c[r[k].from - 1])
    && (forall k :: 0 <= k < |r| ==> r[k].to == n || !c[r[k].to])
    && (forall k, l :: 0 <= k < l < |r| ==> r[k].to < r[l].from)
    && (forall i {:trigger InSomeSpan(r, i)} :: 0 <= i < n && c[i] ==> InSomeSpan(r, i))
    && (n > 0 && c[n - 1] ==> |r| > 0 && r[|r| - 1].to == n)
  }

  /** A row without a signal closes the partitions seen so far. */
  lemma PartitionsSkipFalse(c: Column, n: nat, r: seq<Span>)
    requires n < |c| && !c[n]
    requires PartitionsOf(c, n, r)
    ensures PartitionsOf(c, n + 1, r)
  {
    forall i | 0 <= i < n + 1 && c[i]
      ensures InSomeSpan(r, i)
    {
      assert i < n;
      assert InSomeSpan(r, i);
    }
  }

  /** The spans stay in place, maximal and ordered when a new partition opens at `n`. */
  lemma StartKeepsSpans(c: Column, n: nat, r: seq<Span>)
    requires n < |c| && c[n] && (n == 0 || !c[n - 1])
    requires PartitionsOf(c, n, r)
    ensures var r' := r + [Span(n, n + 1)]; forall k :: 0 <= k < |r'| ==> r'[k].from < r'[k].to <= n + 1
    ensures var r' := r + [Span(n, n + 1)]; forall k, i :: 0 <= k < |r'| && r'[k].from <= i < r'[k].to ==> c[i]
    ensures var r' := r + [Span(n, n + 1)]; forall k :: 0 <= k < |r'| ==> r'[k].from == 0 || !c[r'[k].from - 1]
    ensures var r' := r + [Span(n, n + 1)]; forall k :: 0 <= k < |r'| ==> r'[k].to == n + 1 || !c[r'[k].to]
    ensures var r' := r + [Span(n, n + 1)]; forall k, l :: 0 <= k < l < |r'| ==> r'[k].to < r'[l].from
  {
    var r' := r + [Span(n, n + 1)];
    forall k | 0 <= k < |r|
      ensures r[k].to < n
    {
      assert c[r[k].to - 1];
    }
    assert forall k :: 0 <= k < |r| ==> r'[k] == r[k];
  }

  /** A signal right after a row without one starts a new partition. */
  lemma PartitionsStart(c: Column, n: nat, r: seq<Span>)
    requires n < |c| && c[n] && (n == 0 || !c[n - 1])
    requires PartitionsOf(c, n, r)
    ensures PartitionsOf(c, n + 1, r + [Span(n, n + 1)])
  {
    var r' := r + [Span(n, n + 1)];
    StartKeepsSpans(c, n, r);
    forall i | 0 <= i < n + 1 && c[i]
      ensures InSomeSpan(r', i)
    {
      if i < n {
        assert InSomeSpan(r, i);
        var k :| 0 <= k < |r| && r[k].from <= i < r[k].to;
        assert r'[k] == r[k];
      } else {
        assert r'[|r|].from <= i < r'[|r|].to;
      }
    }
  }

  /** The spans stay in place, maximal and ordered when the last one grows to cover `n`. */
  lemma ExtendKeepsSpans(c: Column, n: nat, r: seq<Span>)
    requires 0 < n < |c| && c[n] && c[n - 1]
    requires PartitionsOf(c, n, r)
    ensures |r| > 0
    ensures var r' := r[..|r| - 1] + [Span(r[|r| - 1].from, n + 1)]; forall k :: 0 <= k < |r'| ==> r'[k].from < r'[k].to <= n + 1
    ensures var r' := r[..|r| - 1] + [Span(r[|r| - 1].from, n + 1)]; forall k, i :: 0 <= k < |r'| && r'[k].from <= i < r'[k].to ==> c[i]
    ensures var r' := r[..|r| - 1] + [Span(r[|r| - 1].from, n + 1)]; forall k :: 0 <= k < |r'| ==> r'[k].from == 0 || !c[r'[k].from - 1]
    ensures var r' := r[..|r| - 1] + [Span(r[|r| - 1].from, n + 1)]; forall k :: 0 <= k < |r'| ==> r'[k].to == n + 1 || !c[r'[k].to]
    ensures var r' := r[..|r| - 1] + [Span(r[|r| - 1].from, n + 1)]; forall k, l :: 0 <= k < l < |r'| ==> r'[k].to < r'[l].from
  {
    var last := r[|r| - 1];
    var r' := r[..|r| - 1] + [Span(last.from, n + 1)];
    assert forall k :: 0 <= k < |r| - 1 ==> r'[k] == r[k];
    forall k | 0 <= k < |r'|
      ensures r'[k].to == n + 1 || !c[r'[k].to]
    {
      if k < |r| - 1 {
        assert r[k].to < last.from;
      }
    }
  }

  /** A signal right after another one extends the last partition. */
  lemma PartitionsExtend(c: Column, n: nat, r: seq<Span>)
    requires 0 < n < |c| && c[n] && c[n - 1]
    requires PartitionsOf(c, n, r)
    ensures |r| > 0
    ensures PartitionsOf(c, n + 1, r[..|r| - 1] + [Span(r[|r| - 1].from, n + 1)])
  {
    ExtendKeepsSpans(c, n, r);
    var last := r[|r| - 1];
    var r' := r[..|r| - 1] + [Span(last.from, n + 1)];
    forall i | 0 <= i < n + 1 && c[i]
      ensures InSomeSpan(r', i)
    {
      if i < n {
        assert InSomeSpan(r, i);
        var k :| 0 <= k < |r| && r[k].from <= i < r[k].to;
        if k < |r| - 1 {
          assert r'[k] == r[k];
        } else {
          assert r'[|r| - 1].from <= i < r'[|r| - 1].to;
        }
      } else {
        assert r'[|r| - 1].from <= i < r'[|r| - 1].to;
      }
    }
  }

  /** Total number of rows covered by `spans`. */
  function TotalLength(spans: seq<Span>): int {
    if |spans| == 0 then 0
    else TotalLength(spans[..|spans| - 1]) + (spans[|spans| - 1].to - spans[|spans| - 1].from)
  }

  /** Appending a span adds its length. */
  lemma TotalLengthAppend(spans: seq<Span>, x: Span)
    ensures TotalLength(spans + [x]) == TotalLength(spans) + (x.to - x.from)
  {
    assert (spans + [x])[..|spans|] == spans;
  }

  /** Growing the last span by one row adds one to the total length. */
  lemma TotalLengthExtendLast(spans: seq<Span>, to: nat)
    requires |spans| > 0 && spans[|spans| - 1].to + 1 == to
    ensures TotalLength(spans[..|spans| - 1] + [Span(spans[|spans| - 1].from, to)]) == TotalLength(spans) + 1
  {
    var init := spans[..|spans| - 1];
    var last := spans[|spans| - 1];
    assert spans == init + [last];
    TotalLengthAppend(init, last);
    TotalLengthAppend(init, Span(last.from, to));
  }

  /** The scan over row `n - 1` when it holds no signal. */
  lemma SkipStep(c: Column, n: nat, prev: seq<Span>)
    requires 0 < n <= |c| && !c[n - 1]
    requires PartitionsOf(c, n - 1, prev)
    ensures PartitionsOf(c, n, prev)
  {
    PartitionsSkipFalse(c, n - 1, prev);
  }

  /** The scan over row `n - 1` when it continues the partition of row `n - 2`. */
  lemma GrowStep(c: Column, n: nat, prev: seq<Span>)
    requires 1 < n <= |c| && c[n - 1] && c[n - 2]
    requires PartitionsOf(c, n - 1, prev)
    ensures |prev| > 0
    ensures PartitionsOf(c, n, prev[..|prev| - 1] + [Span(prev[|prev| - 1].from, n)])
    ensures TotalLength(prev[..|prev| - 1] + [Span(prev[|prev| - 1].from, n)]) == TotalLength(prev) + 1
  {
    PartitionsExtend(c, n - 1, prev);
    TotalLengthExtendLast(prev, n);
  }

  /** The scan over row `n - 1` when it opens a partition. */
  lemma OpenStep(c: Column, n: nat, prev: seq<Span>)
    requires 0 < n <= |c| && c[n - 1] && (n == 1 || !c[n - 2])
    requires PartitionsOf(c, n - 1, prev)
    ensures PartitionsOf(c, n, prev + [Span(n - 1, n)])
    ensures TotalLength(prev + [Span(n - 1, n)]) == TotalLength(prev) + 1
  {
    PartitionsStart(c, n - 1, prev);
    TotalLengthAppend(prev, Span(n - 1, n));
  }

  /**
   * One row of the partition scan, row `n - 1`: a signal after a non-signal
   * opens a span, a signal after a signal extends it.
   */
  function RunsStep(c: Column, n: nat, prev: seq<Span>): (r: seq<Span>)
    requires 0 < n <= |c|
    requires PartitionsOf(c, n - 1, prev)
    ensures PartitionsOf(c, n, r)
    ensures TotalLength(r) == TotalLength(prev) + (if c[n - 1] then 1 else 0)
    ensures |r| == |prev| + (if RunStart(c, n - 1) then 1 else 0)
  {
    if !c[n - 1] then
      SkipStep(c, n, prev);
      prev
    else if n > 1 && c[n - 2] then
      GrowStep(c, n, prev);
      prev[..|prev| - 1] + [Span(prev[|prev| - 1].from, n)]
    else
      OpenStep(c, n, prev);
      prev + [Span(n - 1, n)]
  }

  /**
   * The partitions among the first `n` rows, in time order; their lengths
   * add up to the number of signals in those rows.
   */
  function RunsUpTo(c: Column, n: nat): (r: seq<Span>)
    requires n <= |c|
    ensures PartitionsOf(c, n, r)
    ensures TotalLength(r) == CountUpTo(c, n)
    ensures |r| == RunStartsUpTo(c, n)
  {
    if n == 0 then [] else RunsStep(c, n, RunsUpTo(c, n - 1))
  }

  /** The partitions of the whole column, in time order. */
  function Runs(c: Column): seq<Span> {
    RunsUpTo(c, |c|)
  }

  /** The index of column `j` of block `k` when blocks of `n` columns are placed side by side. */
  lemma BlockIndex(k: nat, j: nat, n: nat, blocks: nat)
    requires k < blocks && j < n
    ensures k * n + j < blocks * n
    ensures k < blocks - 1 ==> k * n + j < (blocks - 1) * n
    ensures k == blocks - 1 ==> k * n + j - (blocks - 1) * n == j
  {
    assert (k + 1) * n == k * n + n;
    if k < blocks - 1 {
      assert (k + 1) * n <= (blocks - 1) * n;
    }
    assert blocks * n == (blocks - 1) * n + n;
  }
}
