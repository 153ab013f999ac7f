/**
 * Map/reduce over spans (`Signals_Accessor.map_reduce_between`,
 * `map_reduce_partitions`, `num_signals`, `avg_distance`, `avg_distance_to`).
 * Every column yields a sequence of spans; the map callable turns each span
 * into a number and the reduce callable turns the column's numbers into its
 * result.
 */
module Reduce {
  import opened Results
  import opened Signals

  /** `map_func_nb(col, from_i, to_i)`. */
  type MapFunc = (nat, nat, nat) -> real

  /** `reduce_func_nb(col, mapped)`; `R` is the type of one column's result. */
  type ReduceFunc<R> = (nat, seq<real>) -> R

  /** Why a map/reduce call is rejected. */
  datatype ReduceError = MissingMapFunc | MissingReduceFunc

  /** Spans between consecutive entries of a sequence of row indices. */
  function Consecutive(xs: seq<nat>): (r: seq<Span>)
    ensures |r| == if |xs| == 0 then 0 else |xs| - 1
    ensures forall k :: 0 <= k < |r| ==> r[k].from == xs[k] && r[k].to == xs[k + 1]
  {
    seq(if |xs| == 0 then 0 else |xs| - 1, k requires 0 <= k < |xs| - 1 => Span(xs[k], xs[k + 1]))
  }

  /** The spans between consecutive signals of one column (`map_reduce_between` without `other`). */
  function BetweenSpans(c: Column): (r: seq<Span>)
    ensures |r| == if Count(c) == 0 then 0 else Count(c) - 1
  {
    Consecutive(SignalIndices(c))
  }

  /** No signal lies strictly between two consecutive signal indices. */
  lemma NoSignalBetween(c: Column, k: nat, i: nat)
    requires k + 1 < |SignalIndices(c)|
    requires SignalIndices(c)[k] < i < SignalIndices(c)[k + 1]
    ensures !c[i]
  {
  }

  /**
   * One span per signal except the last, from that signal to the next one:
   * both ends are signals, nothing between them is, and every span starts
   * where the previous one ended.
   */
  lemma BetweenSpansAreConsecutiveSignals(c: Column)
    ensures forall k :: 0 <= k < |BetweenSpans(c)| ==>
      BetweenSpans(c)[k].from < BetweenSpans(c)[k].to < |c| && c[BetweenSpans(c)[k].from] && c[BetweenSpans(c)[k].to]
    ensures forall k, i :: 0 <= k < |BetweenSpans(c)| && BetweenSpans(c)[k].from < i < BetweenSpans(c)[k].to ==> !c[i]
    ensures forall k :: 0 < k < |BetweenSpans(c)| ==> BetweenSpans(c)[k - 1].to == BetweenSpans(c)[k].from
  {
    var r := BetweenSpans(c);
    forall k, i | 0 <= k < |r| && r[k].from < i < r[k].to
      ensures !c[i]
    {
      NoSignalBetween(c, k, i);
    }
  }

  /**
   * For every signal `xs[k]` of a column, the span to the first strictly
   * later signal of `b`; signals with no later signal in `b` are skipped.
   */
  function MatchLater(xs: seq<nat>, b: Column): (r: seq<Span>)
    requires forall k :: 0 <= k < |xs| ==> xs[k] < |b|
    ensures |r| <= |xs|
  {
    if |xs| == 0 then []
    else
      var to := NextSignal(b, xs[0] + 1);
      (if to < |b| then [Span(xs[0], to)] else []) + MatchLater(xs[1..], b)
  }

  /** Every matched span runs from an entry of `xs` to the next later signal of `b`. */
  lemma {:induction false} MatchLaterSound(xs: seq<nat>, b: Column)
    requires forall k :: 0 <= k < |xs| ==> xs[k] < |b|
    ensures forall s :: s in MatchLater(xs, b) ==> s.from in xs && s.to == NextSignal(b, s.from + 1) && s.to < |b|
  {
    if |xs| > 0 {
      MatchLaterSound(xs[1..], b);
      forall s | s in MatchLater(xs[1..], b)
        ensures s.from in xs
      {
        assert s.from in xs[1..];
      }
    }
  }

  /** Every entry of `xs` with a later signal in `b` is matched. */
  lemma {:induction false} MatchLaterComplete(xs: seq<nat>, b: Column, k: nat)
    requires forall k :: 0 <= k < |xs| ==> xs[k] < |b|
    requires k < |xs| && NextSignal(b, xs[k] + 1) < |b|
    ensures Span(xs[k], NextSignal(b, xs[k] + 1)) in MatchLater(xs, b)
    decreases k
  {
    if k > 0 {
      assert xs[1..][k - 1] == xs[k];
      MatchLaterComplete(xs[1..], b, k - 1);
    }
  }

  /**
   * Matched spans keep the order of `xs`: when the entries are strictly
   * increasing, so are the spans' starts, and no entry is matched twice.
   */
  lemma {:induction false} MatchLaterOrdered(xs: seq<nat>, b: Column)
    requires forall k :: 0 <= k < |xs| ==> xs[k] < |b|
    requires forall k, l :: 0 <= k < l < |xs| ==> xs[k] < xs[l]
    ensures forall k, l :: 0 <= k < l < |MatchLater(xs, b)| ==> MatchLater(xs, b)[k].from < MatchLater(xs, b)[l].from
  {
    if |xs| > 0 {
      var tail := MatchLater(xs[1..], b);
      MatchLaterOrdered(xs[1..], b);
      MatchLaterSound(xs[1..], b);
      forall s | s in tail
        ensures xs[0] < s.from
      {
        var m :| 0 <= m < |xs[1..]| && xs[1..][m] == s.from;
        assert xs[m + 1] == s.from;
      }
    }
  }

  /** The spans of column `c` against column `b` (`map_reduce_between` with `other`). */
  function BetweenTwoSpans(c: Column, b: Column): (r: seq<Span>)
    requires |b| == |c|
    ensures |r| <= Count(c)
  {
    MatchLater(SignalIndices(c), b)
  }

  /**
   * A span `(i, t)` is produced exactly when `i` is a signal of `c` and `t`
   * is the first signal of `b` strictly after `i`.
   */
  lemma BetweenTwoSpansMatchNext(c: Column, b: Column)
    requires |b| == |c|
    ensures forall s: Span :: s in BetweenTwoSpans(c, b) <==>
      s.from < |c| && c[s.from] && s.to == NextSignal(b, s.from + 1) && s.to < |b|
    ensures forall k, l :: 0 <= k < l < |BetweenTwoSpans(c, b)| ==> BetweenTwoSpans(c, b)[k].from < BetweenTwoSpans(c, b)[l].from
  {
    var idx := SignalIndices(c);
    MatchLaterSound(idx, b);
    MatchLaterOrdered(idx, b);
    forall s: Span | s.from < |c| && c[s.from] && s.to == NextSignal(b, s.from + 1) && s.to < |b|
      ensures s in BetweenTwoSpans(c, b)
    {
      assert s.from in idx;
      var m :| 0 <= m < |idx| && idx[m] == s.from;
      MatchLaterComplete(idx, b, m);
    }
  }

  /** The map callable applied to every span of column `col`. */
  function MapSpans(col: nat, spans: seq<Span>, mapFunc: MapFunc): (r: seq<real>)
    ensures |r| == |spans|
    ensures forall k :: 0 <= k < |spans| ==> r[k] == mapFunc(col, spans[k].from, spans[k].to)
  {
    seq(|spans|, k requires 0 <= k < |spans| => mapFunc(col, spans[k].from, spans[k].to))
  }

  /**
   * `map_reduce_between`: without `other`, the spans between consecutive
   * signals of each column; with `other`, the span from each signal to the
   * next later signal of the same column of `other`.  A missing callable is
   * rejected whatever the matrices hold.
   */
  function MapReduceBetween<R>(m: Matrix, other: Option<Matrix>, mapFunc: Option<MapFunc>, reduceFunc: Option<ReduceFunc<R>>)
    : (r: Result<seq<R>, ReduceError>)
    requires other.Some? ==> SameShape(m, other.value)
    ensures mapFunc.None? <==> r == Failure(MissingMapFunc)
    ensures mapFunc.Some? && reduceFunc.None? <==> r == Failure(MissingReduceFunc)
    ensures r.Success? ==> |r.value| == |m|
  {
    if mapFunc.None? then Failure(MissingMapFunc)
    else if reduceFunc.None? then Failure(MissingReduceFunc)
    else
      Success(seq(|m|, j requires 0 <= j < |m| =>
        var spans := if other.Some? then BetweenTwoSpans(m[j], other.value[j]) else BetweenSpans(m[j]);
        reduceFunc.value(j, MapSpans(j, spans, mapFunc.value))))
  }

  /**
   * `map_reduce_partitions`: every partition of a column is one span
   * `[first row, one past the last row)`.  A missing callable is rejected
   * whatever the matrix holds.
   */
  function MapReducePartitions<R>(m: Matrix, mapFunc: Option<MapFunc>, reduceFunc: Option<ReduceFunc<R>>)
    : (r: Result<seq<R>, ReduceError>)
    ensures mapFunc.None? <==> r == Failure(MissingMapFunc)
    ensures mapFunc.Some? && reduceFunc.None? <==> r == Failure(MissingReduceFunc)
    ensures r.Success? ==> |r.value| == |m|
  {
    if mapFunc.None? then Failure(MissingMapFunc)
    else if reduceFunc.None? then Failure(MissingReduceFunc)
    else Success(seq(|m|, j requires 0 <= j < |m| => reduceFunc.value(j, MapSpans(j, Runs(m[j]), mapFunc.value))))
  }

  /** `distance_map_nb`: the length `to_i - from_i` of a span. */
  function DistanceMap(col: nat, from: nat, to: nat): real {
    to as real - from as real
  }

  /** Sum of a sequence of numbers. */
  function Sum(xs: seq<real>): real {
    if |xs| == 0 then 0.0 else Sum(xs[..|xs| - 1]) + xs[|xs| - 1]
  }

  /** `mean_reduce_nb`: the mean of a column's values; `None` stands for the NaN of an empty column. */
  function MeanReduce(col: nat, xs: seq<real>): (r: Option<real>)
    ensures r.None? <==> |xs| == 0
  {
    if |xs| == 0 then None else Some(Sum(xs) / |xs| as real)
  }

  /** `num_signals`: the number of signals in every column. */
  function NumSignals(m: Matrix): (r: seq<nat>)
    ensures |r| == |m|
    ensures forall j :: 0 <= j < |m| ==> r[j] == |SignalIndices(m[j])|
  {
    seq(|m|, j requires 0 <= j < |m| => Count(m[j]))
  }

  /** `avg_distance`: the mean distance between consecutive signals of every column. */
  function AvgDistance(m: Matrix): (r: seq<Option<real>>)
    ensures |r| == |m|
  {
    seq(|m|, j requires 0 <= j < |m| => MeanReduce(j, MapSpans(j, BetweenSpans(m[j]), DistanceMap)))
  }

  /** `avg_distance` is `map_reduce_between` with the distance map and the mean reduction. */
  lemma AvgDistanceIsMapReduceBetween(m: Matrix)
    ensures MapReduceBetween(m, None, Some(DistanceMap), Some(MeanReduce)) == Success(AvgDistance(m))
  {
    var r := MapReduceBetween(m, None, Some(DistanceMap), Some(MeanReduce)).value;
    assert forall j :: 0 <= j < |m| ==> r[j] == AvgDistance(m)[j];
    assert r == AvgDistance(m);
  }

  /** `avg_distance_to`: the mean distance from every signal to the next later signal of `other`. */
  function AvgDistanceTo(m: Matrix, other: Matrix): (r: seq<Option<real>>)
    requires SameShape(m, other)
    ensures |r| == |m|
  {
    seq(|m|, j requires 0 <= j < |m| => MeanReduce(j, MapSpans(j, BetweenTwoSpans(m[j], other[j]), DistanceMap)))
  }

  /** `avg_distance_to` is `map_reduce_between` against `other` with the distance map and the mean reduction. */
  lemma AvgDistanceToIsMapReduceBetween(m: Matrix, other: Matrix)
    requires SameShape(m, other)
    ensures MapReduceBetween(m, Some(other), Some(DistanceMap), Some(MeanReduce)) == Success(AvgDistanceTo(m, other))
  {
    var r := MapReduceBetween(m, Some(other), Some(DistanceMap), Some(MeanReduce)).value;
    assert forall j :: 0 <= j < |m| ==> r[j] == AvgDistanceTo(m, other)[j];
    assert r == AvgDistanceTo(m, other);
  }

  /** The distances between consecutive entries of `xs` add up to the spread from the first to the last. */
  lemma {:induction false} DistancesTelescope(col: nat, xs: seq<nat>)
    requires |xs| > 0
    ensures Sum(MapSpans(col, Consecutive(xs), DistanceMap)) == xs[|xs| - 1] as real - xs[0] as real
  {
    if |xs| > 1 {
      var ys := xs[..|xs| - 1];
      DistancesTelescope(col, ys);
      var d := MapSpans(col, Consecutive(xs), DistanceMap);
      assert d[..|d| - 1] == MapSpans(col, Consecutive(ys), DistanceMap);
    }
  }

  /**
   * `avg_distance` of a column is the spread between its first and last
   * signal divided by the number of gaps, and NaN (`None`) with fewer than
   * two signals.
   */
  lemma AvgDistanceIsSpreadOverGaps(m: Matrix, j: nat)
    requires j < |m|
    ensures Count(m[j]) < 2 <==> AvgDistance(m)[j].None?
    ensures Count(m[j]) >= 2 ==>
      AvgDistance(m)[j] == Some((SignalIndices(m[j])[Count(m[j]) - 1] as real - SignalIndices(m[j])[0] as real) / (Count(m[j]) - 1) as real)
  {
    var idx := SignalIndices(m[j]);
    if |idx| > 0 {
      DistancesTelescope(j, idx);
    }
  }

  /** `AvgDistanceIsSpreadOverGaps` for a column whose signal rows are known. */
  lemma AvgDistanceFromIndices(m: Matrix, j: nat, first: nat, last: nat, n: nat)
    requires j < |m| && n >= 2
    requires |SignalIndices(m[j])| == n && SignalIndices(m[j])[0] == first && SignalIndices(m[j])[n - 1] == last
    ensures AvgDistance(m)[j] == Some((last as real - first as real) / (n - 1) as real)
  {
    AvgDistanceIsSpreadOverGaps(m, j);
  }

  /** The lengths of a sequence of spans add up to their total length. */
  lemma {:induction false} DistancesAddUpToTotalLength(col: nat, spans: seq<Span>)
    ensures Sum(MapSpans(col, spans, DistanceMap)) == TotalLength(spans) as real
  {
    if |spans| > 0 {
      var init := spans[..|spans| - 1];
      DistancesAddUpToTotalLength(col, init);
      var d := MapSpans(col, spans, DistanceMap);
      assert d[..|d| - 1] == MapSpans(col, init, DistanceMap);
    }
  }

  /**
   * The mean partition length of every column: `map_reduce_partitions` with
   * `distance_map_nb` and `mean_reduce_nb`, the documentation's example.
   */
  function MeanPartitionLength(m: Matrix): (r: seq<Option<real>>)
    ensures |r| == |m|
  {
    seq(|m|, j requires 0 <= j < |m| => MeanReduce(j, MapSpans(j, Runs(m[j]), DistanceMap)))
  }

  /** `MeanPartitionLength` is `map_reduce_partitions` with the distance map and the mean reduction. */
  lemma MeanPartitionLengthIsMapReducePartitions(m: Matrix)
    ensures MapReducePartitions(m, Some(DistanceMap), Some(MeanReduce)) == Success(MeanPartitionLength(m))
  {
    var r := MapReducePartitions(m, Some(DistanceMap), Some(MeanReduce)).value;
    assert forall j :: 0 <= j < |m| ==> r[j] == MeanPartitionLength(m)[j];
    assert r == MeanPartitionLength(m);
  }

  /** Spans that are never empty cover at least one row each. */
  lemma {:induction false} TotalLengthAtLeastCount(spans: seq<Span>)
    requires forall k :: 0 <= k < |spans| ==> spans[k].from < spans[k].to
    ensures TotalLength(spans) >= |spans|
  {
    if |spans| > 0 {
      TotalLengthAtLeastCount(spans[..|spans| - 1]);
    }
  }

  /** A column has partitions exactly when it has signals. */
  lemma RunsExistIffSignals(c: Column)
    ensures |Runs(c)| > 0 <==> Count(c) > 0
  {
    TotalLengthAtLeastCount(Runs(c));
  }

  /**
   * The mean partition length of a column is its number of signals divided
   * by its number of partitions, and NaN (`None`) without signals.
   */
  lemma MeanPartitionLengthIsSignalsPerRun(m: Matrix, j: nat)
    requires j < |m|
    ensures Count(m[j]) == 0 <==> MeanPartitionLength(m)[j].None?
    ensures Count(m[j]) > 0 ==> MeanPartitionLength(m)[j] == Some(Count(m[j]) as real / |Runs(m[j])| as real)
  {
    DistancesAddUpToTotalLength(j, Runs(m[j]));
    RunsExistIffSignals(m[j]);
  }

  /** `MeanPartitionLengthIsSignalsPerRun` for a column whose counts are known. */
  lemma MeanPartitionFromCounts(m: Matrix, j: nat, signals: nat, runs: nat)
    requires j < |m| && signals > 0
    requires Count(m[j]) == signals && |Runs(m[j])| == runs
    ensures MeanPartitionLength(m)[j] == Some(signals as real / runs as real)
  {
    MeanPartitionLengthIsSignalsPerRun(m, j);
  }
}
