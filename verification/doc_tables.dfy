/**
 * The worked tables of the `Signals_Accessor` documentation, re-derived
 * from the model.  All of them use the same 5-row, 3-column input: the
 * signal matrix `Sig` (columns a, b, c) and the price matrix `Ts`.
 */
module DocTables {
  import opened Results
  import opened Signals
  import opened Ranking
  import opened PartitionRank
  import opened Reduce

  /** The documentation's `signals` frame, column by column. */
  const Sig: Matrix := [[false, true, true, false, true], [true, false, true, true, false], [true, true, false, true, true]]

  /** The documentation's `ts` frame, column by column. */
  const Ts: seq<seq<real>> := [[1.0, 2.0, 3.0, 4.0, 5.0], [5.0, 4.0, 3.0, 2.0, 1.0], [1.0, 2.0, 3.0, 2.0, 1.0]]

  /** `signals.vbt.signals.rank()`. */
  lemma RankTable()
    ensures RankSignals(Sig, None, false, false) == [[0, 1, 2, 0, 1], [1, 0, 1, 2, 0], [1, 2, 0, 1, 2]]
  {
    var r := RankSignals(Sig, None, false, false);
    assert r[0] == [0, 1, 2, 0, 1];
    assert r[1] == [1, 0, 1, 2, 0];
    assert r[2] == [1, 2, 0, 1, 2];
  }

  /** `signals.vbt.signals.rank(after_false=True)`. */
  lemma RankAfterFalseTable()
    ensures RankSignals(Sig, None, true, false) == [[0, 1, 2, 0, 1], [0, 0, 1, 2, 0], [0, 0, 0, 1, 2]]
  {
    var r := RankSignals(Sig, None, true, false);
    assert r[0] == [0, 1, 2, 0, 1];
    assert r[1] == [0, 0, 1, 2, 0];
    assert r[2] == [0, 0, 0, 1, 2];
  }

  /** `signals.vbt.signals.rank(allow_gaps=True)`. */
  lemma RankAllowGapsTable()
    ensures RankSignals(Sig, None, false, true) == [[0, 1, 2, 0, 3], [1, 0, 2, 3, 0], [1, 2, 0, 3, 4]]
  {
    var r := RankSignals(Sig, None, false, true);
    assert r[0] == [0, 1, 2, 0, 3];
    assert r[1] == [1, 0, 2, 3, 0];
    assert r[2] == [1, 2, 0, 3, 4];
  }

  /** `~signals`. */
  function NotSig(): (r: Matrix)
    ensures SameShape(r, Sig)
  {
    seq(3, j requires 0 <= j < 3 => Not(Sig[j]))
  }

  /** `signals.vbt.signals.rank(reset_by=~signals, allow_gaps=True)`. */
  lemma RankResetByNegationTable()
    ensures RankSignals(Sig, Some(NotSig()), false, true) == [[0, 1, 2, 0, 1], [1, 0, 1, 2, 0], [1, 2, 0, 1, 2]]
  {
    var r := RankSignals(Sig, Some(NotSig()), false, true);
    assert r[0] == [0, 1, 2, 0, 1];
    assert r[1] == [1, 0, 1, 2, 0];
    assert r[2] == [1, 2, 0, 1, 2];
  }

  /** `signals.vbt.signals.rank_partitions()`. */
  lemma RankPartitionsTable()
    ensures RankPartitionsSignals(Sig, None, false) == [[0, 1, 1, 0, 2], [1, 0, 2, 2, 0], [1, 1, 0, 2, 2]]
  {
    var r := RankPartitionsSignals(Sig, None, false);
    assert r[0] == [0, 1, 1, 0, 2];
    assert r[1] == [1, 0, 2, 2, 0];
    assert r[2] == [1, 1, 0, 2, 2];
  }

  /** `signals.vbt.signals.rank_partitions(after_false=True)`. */
  lemma RankPartitionsAfterFalseTable()
    ensures RankPartitionsSignals(Sig, None, true) == [[0, 1, 1, 0, 2], [0, 0, 1, 1, 0], [0, 0, 0, 1, 1]]
  {
    var r := RankPartitionsSignals(Sig, None, true);
    assert r[0] == [0, 1, 1, 0, 2];
    assert r[1] == [0, 0, 1, 1, 0];
    assert r[2] == [0, 0, 0, 1, 1];
  }

  /** `signals.vbt.signals.rank_partitions(reset_by=signals)`. */
  lemma RankPartitionsResetBySignalsTable()
    ensures RankPartitionsSignals(Sig, Some(Sig), false) == [[0, 1, 1, 0, 1], [1, 0, 1, 1, 0], [1, 1, 0, 1, 1]]
  {
    var r := RankPartitionsSignals(Sig, Some(Sig), false);
    assert r[0] == [0, 1, 1, 0, 1];
    assert r[1] == [1, 0, 1, 1, 0];
    assert r[2] == [1, 1, 0, 1, 1];
  }

  /** `signals.vbt.signals.num_signals`. */
  lemma NumSignalsTable()
    ensures NumSignals(Sig) == [3, 3, 4]
  {
  }

  /** The signal rows of column a. */
  lemma SigIndicesA(c: Column)
    requires c == [false, true, true, false, true]
    ensures SignalIndices(c) == [1, 2, 4]
  {
    assert |c| == 5;
    assert SignalsUpTo(c, 0) == [];
    assert SignalsUpTo(c, 1) == [];
    assert SignalsUpTo(c, 2) == [1];
    assert SignalsUpTo(c, 3) == [1, 2];
    assert SignalsUpTo(c, 4) == [1, 2];
    assert SignalsUpTo(c, 5) == [1, 2, 4];
  }

  /** The signal rows of column b. */
  lemma SigIndicesB(c: Column)
    requires c == [true, false, true, true, false]
    ensures SignalIndices(c) == [0, 2, 3]
  {
    assert |c| == 5;
    assert SignalsUpTo(c, 0) == [];
    assert SignalsUpTo(c, 1) == [0];
    assert SignalsUpTo(c, 2) == [0];
    assert SignalsUpTo(c, 3) == [0, 2];
    assert SignalsUpTo(c, 4) == [0, 2, 3];
    assert SignalsUpTo(c, 5) == [0, 2, 3];
  }

  /** The signal rows of column c. */
  lemma SigIndicesC(c: Column)
    requires c == [true, true, false, true, true]
    ensures SignalIndices(c) == [0, 1, 3, 4]
  {
    assert |c| == 5;
    assert SignalsUpTo(c, 0) == [];
    assert SignalsUpTo(c, 1) == [0];
    assert SignalsUpTo(c, 2) == [0, 1];
    assert SignalsUpTo(c, 3) == [0, 1];
    assert SignalsUpTo(c, 4) == [0, 1, 3];
    assert SignalsUpTo(c, 5) == [0, 1, 3, 4];
  }

  /** A three-column row spelled out entry by entry. */
  lemma Three<T>(r: seq<T>, a: T, b: T, c: T)
    requires |r| == 3 && r[0] == a && r[1] == b && r[2] == c
    ensures r == [a, b, c]
  {
  }

  /** `map_reduce_between` with `distance_map_nb` and `mean_reduce_nb`, that is `avg_distance`. */
  lemma AvgDistanceTable()
    ensures AvgDistance(Sig) == [Some(1.5), Some(1.5), Some(4.0 / 3.0)]
  {
    SigIndicesA(Sig[0]);
    SigIndicesB(Sig[1]);
    SigIndicesC(Sig[2]);
    AvgDistanceOf(Sig);
  }

  /** The quotients the documentation prints for the mean distances and partition lengths. */
  lemma DocQuotients()
    ensures (4 as real - 1 as real) / (3 - 1) as real == 1.5
    ensures (3 as real - 0 as real) / (3 - 1) as real == 1.5
    ensures (4 as real - 0 as real) / (4 - 1) as real == 4.0 / 3.0
    ensures 3 as real / 2 as real == 1.5 && 4 as real / 2 as real == 2.0
  {
  }

  /** The mean distances of any three columns whose signals sit where those of a, b and c do. */
  lemma AvgDistanceOf(m: Matrix)
    requires |m| == 3
    requires SignalIndices(m[0]) == [1, 2, 4] && SignalIndices(m[1]) == [0, 2, 3] && SignalIndices(m[2]) == [0, 1, 3, 4]
    ensures AvgDistance(m) == [Some(1.5), Some(1.5), Some(4.0 / 3.0)]
  {
    AvgDistanceFromIndices(m, 0, 1, 4, 3);
    AvgDistanceFromIndices(m, 1, 0, 3, 3);
    AvgDistanceFromIndices(m, 2, 0, 4, 4);
    DocQuotients();
    Three(AvgDistance(m), Some(1.5), Some(1.5), Some(4.0 / 3.0));
  }

  /** Signals and partitions of a column: `signals` rows in `runs` runs. */
  predicate Tally(c: Column, signals: nat, runs: nat) {
    Count(c) == signals && |Runs(c)| == runs
  }

  /** Column a has 3 signals in 2 partitions. */
  lemma TallyA(c: Column)
    requires c == [false, true, true, false, true]
    ensures Tally(c, 3, 2)
  {
    assert |c| == 5;
    assert CountUpTo(c, 1) == 0 && RunStartsUpTo(c, 1) == 0;
    assert CountUpTo(c, 2) == 1 && RunStartsUpTo(c, 2) == 1;
    assert CountUpTo(c, 3) == 2 && RunStartsUpTo(c, 3) == 1;
    assert CountUpTo(c, 4) == 2 && RunStartsUpTo(c, 4) == 1;
    assert CountUpTo(c, 5) == 3 && RunStartsUpTo(c, 5) == 2;
    assert |Runs(c)| == RunStartsUpTo(c, 5);
  }

  /** Column b has 3 signals in 2 partitions. */
  lemma TallyB(c: Column)
    requires c == [true, false, true, true, false]
    ensures Tally(c, 3, 2)
  {
    assert |c| == 5;
    assert CountUpTo(c, 1) == 1 && RunStartsUpTo(c, 1) == 1;
    assert CountUpTo(c, 2) == 1 && RunStartsUpTo(c, 2) == 1;
    assert CountUpTo(c, 3) == 2 && RunStartsUpTo(c, 3) == 2;
    assert CountUpTo(c, 4) == 3 && RunStartsUpTo(c, 4) == 2;
    assert CountUpTo(c, 5) == 3 && RunStartsUpTo(c, 5) == 2;
    assert |Runs(c)| == RunStartsUpTo(c, 5);
  }

  /** Column c has 4 signals in 2 partitions. */
  lemma TallyC(c: Column)
    requires c == [true, true, false, true, true]
    ensures Tally(c, 4, 2)
  {
    assert |c| == 5;
    assert CountUpTo(c, 1) == 1 && RunStartsUpTo(c, 1) == 1;
    assert CountUpTo(c, 2) == 2 && RunStartsUpTo(c, 2) == 1;
    assert CountUpTo(c, 3) == 2 && RunStartsUpTo(c, 3) == 1;
    assert CountUpTo(c, 4) == 3 && RunStartsUpTo(c, 4) == 2;
    assert CountUpTo(c, 5) == 4 && RunStartsUpTo(c, 5) == 2;
    assert |Runs(c)| == RunStartsUpTo(c, 5);
  }

  /** `map_reduce_partitions` with `distance_map_nb` and `mean_reduce_nb`: the mean partition length. */
  lemma MeanPartitionLengthTable()
    ensures MapReducePartitions(Sig, Some(DistanceMap), Some(MeanReduce)) == Success([Some(1.5), Some(1.5), Some(2.0)])
  {
    TallyA(Sig[0]);
    TallyB(Sig[1]);
    TallyC(Sig[2]);
    MeanPartitionLengthOf(Sig);
    MeanPartitionLengthIsMapReducePartitions(Sig);
  }

  /** The mean partition lengths of any three columns tallied like a, b and c. */
  lemma MeanPartitionLengthOf(m: Matrix)
    requires |m| == 3 && Tally(m[0], 3, 2) && Tally(m[1], 3, 2) && Tally(m[2], 4, 2)
    ensures MeanPartitionLength(m) == [Some(1.5), Some(1.5), Some(2.0)]
  {
    var r := MeanPartitionLength(m);
    MeanPartitionFromCounts(m, 0, 3, 2);
    MeanPartitionFromCounts(m, 1, 3, 2);
    MeanPartitionFromCounts(m, 2, 4, 2);
    DocQuotients();
    Three(r, Some(1.5), Some(1.5), Some(2.0));
  }
}
