# Signal engine of `Signals_Accessor`, modelled in Dafny

This project models the signal engine behind vectorbt's `Signals_Accessor`
(`vectorbt/signals/accessors.py`). A signal matrix is a boolean frame. Each
column is an independent, time-ordered sequence of rows, and a `True` cell
is a signal. The model stores a matrix column by column (`Matrix =
seq<Column>`, `Column = seq<bool>`) and lifts every per-column scan to the
matrix.

The model covers five groups of operations:

- **Ranking** (`rank`, `rank_partitions`, `first`, `nst`, `from_nst`) in
  `rank.dfy` and `rank_partitions.dfy`. Each is a per-row state machine
  written as a pure step function plus the state before each row. A loop
  kernel is proved equal to it.
- **Span map/reduce** (`map_reduce_between`, with and without `other`,
  `map_reduce_partitions`, `num_signals`, `avg_distance`,
  `avg_distance_to`) in `reduce.dfy`, over the spans of `signals.dfy`.
  The map and reduce callables are Dafny function values. A missing
  callable is a `Failure`.
- **Span-driven generation** (`generate`, `generate_after`,
  `generate_iteratively`, `generate_random`, `generate_random_after`) in
  `generate.dfy`. Choice functions are total functions
  `(col, from, until) -> set<nat>`. The caller must ensure that every row
  they name lies in `[from, until)`. The seeded draws are constraints
  only: a draw is any choice function that places a permitted count of
  spaced rows.
- **Stop exits** (`generate_stop_loss`, `generate_take_profit`) in
  `stops.dfy`. Stops are fixed or trailing, relative or absolute, and
  first-only or every-hit. Prices and stops are exact reals. The trailing
  reference price is a separate definition, `StopExits.RunningMax`. No
  worked table in the documentation covers it, so its scenario lemma uses
  a hand-made price path.
- **Boolean combinators** (`AND`, `OR`, `XOR`, with and without `concat`)
  in `combine.dfy`.

The tables printed in the docstrings are proved as lemmas on the
documentation's `signals` and `ts` frames: `doc_tables.dfy`,
`gen_tables.dfy`, `stop_tables.dfy` and `combine_tables.dfy`.

The scanning kernels (`vectorbt/signals/nb.py`) are not part of this
model. Their per-row behaviour is reconstructed from the documented
semantics. The docstring tables are proved against that reconstruction,
but they cover only some options.

## Model

| member | source | states |
|---|---|---|
| Signals.SignalIndices | vectorbt/signals/accessors.py:379-381 | the signal rows of a column, strictly increasing, each a signal, and every signal among them; one per counted signal |
| Signals.NextSignal | vectorbt/signals/accessors.py:385-390 | the first signal at or after a row, or the column length when none: no signal is skipped |
| Signals.RunsUpTo | vectorbt/signals/accessors.py:394-416 | the maximal runs of a column prefix as (first row, one past the last row): they partition the signals, their lengths add up to the signal count, one run per run start |
| Ranking.Rank | vectorbt/signals/accessors.py:439-485 | a rank is positive exactly on the cells that count (every signal, or with `after_false` only signals after the first False) |
| Ranking.RankKernel | vectorbt/signals/accessors.py:480-484 | the row-by-row loop with its two state variables computes the functional rank |
| Ranking.RankDefaultRow | vectorbt/signals/accessors.py:446-452 | the default rank of a signal is its 1-based position in its run: the rank-many rows up to it are signals and the row before them is not |
| Ranking.RankIsPositionInPartition | vectorbt/signals/accessors.py:446-452 | every cell of the default rank is its position in its maximal run, 0 off signals |
| Ranking.RankAllowGapsCountsSignals | vectorbt/signals/accessors.py:460-466 | with `allow_gaps` the rank of a signal is the number of signals up to and including it |
| Ranking.RankResetByNegationIsDefault | vectorbt/signals/accessors.py:467-473 | resetting by the negated signals with gaps allowed gives the plain rank |
| Ranking.LastResetUpTo | vectorbt/signals/accessors.py:475-484 | the row where counting last restarted before a row: the last `reset_by` row above it, or row 0, with no reset row in between |
| Ranking.RankAllowGapsCountsSinceReset | vectorbt/signals/accessors.py:475-484 | for any `reset_by`, with `allow_gaps` the rank of a signal is the number of signals from the last reset row at or above it through itself |
| Ranking.RankCountsRunSinceReset | vectorbt/signals/accessors.py:475-484 | for any `reset_by`, the rank of a signal is the length of the run of signals ending at it, cut at the last reset row at or above it; 0 off signals |
| Ranking.RankAfterFalseSkipsLeadingRun | vectorbt/signals/accessors.py:453-459 | with `after_false` the leading run of Trues ranks 0 and the rest ranks as the column from its first False |
| Ranking.FirstMarksPartitionStarts | vectorbt/signals/accessors.py:526-528 | `first` marks exactly the first row of every run |
| Ranking.FromNstOneMarksCounted | vectorbt/signals/accessors.py:534-536 | `from_nst(1)` marks exactly the counted signals |
| Ranking.NstZeroIsComplement | vectorbt/signals/accessors.py:530-536 | `nst(0)` marks the cells that do not count, and `from_nst(n)` for n <= 0 marks every cell |
| Ranking.NstWithGapsIsNthSignal | vectorbt/signals/accessors.py:530-532 | with `allow_gaps`, `nst(n)` marks the n-th signal of the column and nothing else |
| PartitionRank.RankPartitions | vectorbt/signals/accessors.py:487-525 | a partition rank is positive exactly on the counted signals |
| PartitionRank.RankPartitionsKernel | vectorbt/signals/accessors.py:521-524 | the row-by-row loop with its three state variables computes the functional partition rank |
| PartitionRank.RankPartitionsNumbersRuns | vectorbt/signals/accessors.py:494-500 | every signal gets the 1-based index of its run, every other cell 0 |
| PartitionRank.RankPartitionsConstantOnRuns | vectorbt/signals/accessors.py:494-500 | two adjacent signals share their partition rank |
| PartitionRank.RankPartitionsMaxIsRunCount | vectorbt/signals/accessors.py:494-500 | the largest partition rank of a column is its number of runs |
| PartitionRank.RankPartitionsAfterFalse | vectorbt/signals/accessors.py:501-507 | with `after_false` the leading run ranks 0 and the rest ranks as the column from its first False |
| PartitionRank.RankPartitionsCountsSinceReset | vectorbt/signals/accessors.py:515-524 | for any `reset_by`, a signal gets the number of partitions starting between the last reset row at or above it and itself, a reset inside a run starting a new partition |
| PartitionRank.RankPartitionsResetBySignals | vectorbt/signals/accessors.py:508-514 | resetting by the signals themselves ranks every counted signal 1 |
| Reduce.MapReduceBetween | vectorbt/signals/accessors.py:374-375 | a missing map callable, then a missing reduce callable, is rejected whatever the matrices hold; otherwise one result per column |
| Reduce.MapReducePartitions | vectorbt/signals/accessors.py:411-412 | the same two rejections, and one result per column |
| Reduce.BetweenSpansAreConsecutiveSignals | vectorbt/signals/accessors.py:379-381 | the spans of `map_reduce_between` run from a signal to the next signal, with no signal inside, each starting where the previous ended |
| Reduce.MatchLaterSound | vectorbt/signals/accessors.py:385-390 | every matched span starts at a signal and ends at the next later signal of `other` |
| Reduce.MatchLaterComplete | vectorbt/signals/accessors.py:385-390 | every signal with a later signal in `other` is matched to it |
| Reduce.MatchLaterOrdered | vectorbt/signals/accessors.py:385-390 | matched spans keep the order of the signals: their starts strictly increase, so no signal is matched twice |
| Reduce.BetweenTwoSpansMatchNext | vectorbt/signals/accessors.py:385-390 | with `other`, a span is produced exactly for a signal of the column and the next later signal of `other`, when there is one, once per signal and in row order |
| Reduce.NumSignals | vectorbt/signals/accessors.py:419-422 | the count per column equals the number of its signal rows |
| Reduce.AvgDistanceIsMapReduceBetween | vectorbt/signals/accessors.py:424-430 | `avg_distance` is `map_reduce_between` with the distance map and the mean reduction |
| Reduce.AvgDistanceToIsMapReduceBetween | vectorbt/signals/accessors.py:432-437 | `avg_distance_to` is `map_reduce_between` against `other` with the same callables |
| Reduce.AvgDistanceIsSpreadOverGaps | vectorbt/signals/accessors.py:360-372 | the average distance is (last signal − first signal) / (signals − 1), and NaN with fewer than two signals |
| Reduce.DistancesTelescope | vectorbt/signals/accessors.py:364-368 | the distances between consecutive signals add up to the spread from the first to the last |
| Reduce.MeanPartitionLengthIsMapReducePartitions | vectorbt/signals/accessors.py:401-416 | the documentation's mean partition length is `map_reduce_partitions` with the distance map and the mean reduction |
| Reduce.MeanPartitionLengthIsSignalsPerRun | vectorbt/signals/accessors.py:397-409 | the mean run length is signals / runs, and NaN exactly when the column has no signal |
| Reduce.DistancesAddUpToTotalLength | vectorbt/signals/accessors.py:401-404 | the distances of the runs add up to their total length |
| Reduce.RunsExistIffSignals | vectorbt/signals/accessors.py:394-416 | a column has runs exactly when it has signals |
| Generation.NormalizeShape | vectorbt/signals/accessors.py:127-130 | a bare number or a 1-tuple becomes (n, 1); a 2-tuple is kept; any other tuple is rejected |
| Generation.MarkRoundTrip | vectorbt/signals/accessors.py:132 | marking a set of in-range rows and reading the signals back gives the set |
| Generation.Generate | vectorbt/signals/accessors.py:103-136 | success exactly for a valid shape; the frame has that shape; column j holds exactly the rows the choice names on (j, 0, rows) |
| Generation.AfterColumnChosen | vectorbt/signals/accessors.py:221-242 | a row is generated after the signals exactly when the choice names it on the gap after some signal |
| Generation.GenerateAfterOnlyInGaps | vectorbt/signals/accessors.py:221-242 | `generate_after` never marks a row that is itself a signal |
| Generation.AfterColumnDependsOnOfferedRanges | vectorbt/signals/accessors.py:221-242 | only the choice's answers on the gaps after signals matter |
| Generation.GenerateAfterArangeFillsGaps | vectorbt/signals/accessors.py:226-239 | with `np.arange` a row is marked exactly when it is not a signal and lies after the first signal |
| Generation.Arange | vectorbt/signals/accessors.py:226-228 | `np.arange(from_i, to_i)` holds exactly the rows in the range |
| Generation.SpacedFitsCapacity | vectorbt/signals/accessors.py:145-157 | rows at least `min_space + 1` apart in a range never outnumber its capacity |
| Generation.GenerateRandom | vectorbt/signals/accessors.py:158-171 | an `n_prob` of the wrong length is rejected first; otherwise success exactly for a valid shape |
| Generation.GenerateDrawsPlacements | vectorbt/signals/accessors.py:139-171 | given a draw assumed to place a permitted count with the required spacing, every column of the frame is one such placement |
| Generation.GenerateRandomMinSpaceLaw | vectorbt/signals/accessors.py:145-157 | given the same assumption about the draw, two signals of one column of a random frame are more than `min_space` rows apart |
| Generation.GenerateRandomAfter | vectorbt/signals/accessors.py:258-265 | rejected exactly when `n_prob` has the wrong length; otherwise the frame keeps the shape and is `generate_after` with the draw |
| Generation.AfterGapMarks | vectorbt/signals/accessors.py:221-242 | the rows `generate_after` marks in the range after a signal are exactly the rows chosen for that range |
| Generation.GenerateRandomAfterPlacements | vectorbt/signals/accessors.py:244-265 | given a draw assumed to place a permitted count with the required spacing, the rows marked after each signal, up to the next signal, are one such placement |
| Generation.PlacementOfOneInNarrowRange | vectorbt/signals/accessors.py:244-257 | one signal placed in a gap of at most one row is that row |
| Generation.RandomAfterOneFillsNarrowGaps | vectorbt/signals/accessors.py:247-257 | when every gap after a signal is at most one row wide, `generate_random_after(1)` equals `generate_after` with `np.arange` for every seed |
| Generation.Iterate | vectorbt/signals/accessors.py:174-219 | the entries and exits of one column lie at or after the start row and never share a row |
| Generation.ExitsFollowEntries | vectorbt/signals/accessors.py:183-206 | every exit comes strictly after some entry |
| Generation.GenerateIteratively | vectorbt/signals/accessors.py:174-219 | success exactly for a valid shape; entries and exits share the shape and never a cell |
| Generation.GenerateIterativelyExitAfterEntry | vectorbt/signals/accessors.py:183-206 | every exit of a column has an entry strictly before it |
| StopExits.Threshold | vectorbt/signals/accessors.py:267-268 | for non-negative prices and stops, the loss threshold lies at or below the reference and the profit threshold at or above it |
| StopExits.RunningMax | vectorbt/signals/accessors.py:306 | the trailing reference is the highest price from the entry up to the row, and it is attained |
| StopExits.StopScanMarksExits | vectorbt/signals/accessors.py:267-309 | the scan after an entry marks exactly the rows that cross the stop, and with `first` only the earliest of them |
| StopExits.StopChoiceIsBounded | vectorbt/signals/accessors.py:267-309 | the stop scan names only rows of the gap it is offered |
| StopExits.StopColumnsAreExits | vectorbt/signals/accessors.py:267-309 | a row is a stop exit exactly when it is not an entry, lies after an entry, and crosses the stop of the most recent entry (first crossing only with `first`) |
| StopExits.FirstExitOncePerEntry | vectorbt/signals/accessors.py:267-268 | with `first`, an entry lies between any two exits of a column |
| StopExits.StopBlocksInOrder | vectorbt/signals/accessors.py:305-308 | column j of the k-th output block is the exit column of the k-th stop |
| StopExits.GenerateStopLoss | vectorbt/signals/accessors.py:267-309 | one block of columns per stop value |
| StopExits.GenerateTakeProfit | vectorbt/signals/accessors.py:311-350 | one block of columns per stop value |
| Combinators.Combine | vectorbt/signals/accessors.py:539-544 | two equally shaped frames combined cell by cell |
| Combinators.AndIsAll | vectorbt/signals/accessors.py:539-544 | AND over several frames is true exactly where all are true |
| Combinators.OrIsAny | vectorbt/signals/accessors.py:546-566 | OR over several frames is true exactly where any is true |
| Combinators.XorIsParity | vectorbt/signals/accessors.py:568-572 | folded XOR is true exactly where an odd number of frames are true |
| Combinators.CombineEachInOrder | vectorbt/signals/accessors.py:551-566 | with `concat`, block k is the receiver combined with the k-th other |
| Combinators.CombineAllSplit | vectorbt/signals/accessors.py:539-572 | folding the others in two batches equals folding them at once |
| DocTables.RankTable | vectorbt/signals/accessors.py:446-452 | the printed `rank()` table |
| DocTables.RankAfterFalseTable | vectorbt/signals/accessors.py:453-459 | the printed `rank(after_false=True)` table |
| DocTables.RankAllowGapsTable | vectorbt/signals/accessors.py:460-466 | the printed `rank(allow_gaps=True)` table |
| DocTables.RankResetByNegationTable | vectorbt/signals/accessors.py:467-473 | the printed `rank(reset_by=~signals, allow_gaps=True)` table |
| DocTables.RankPartitionsTable | vectorbt/signals/accessors.py:494-500 | the printed `rank_partitions()` table |
| DocTables.RankPartitionsAfterFalseTable | vectorbt/signals/accessors.py:501-507 | the printed `rank_partitions(after_false=True)` table |
| DocTables.RankPartitionsResetBySignalsTable | vectorbt/signals/accessors.py:508-514 | the printed `rank_partitions(reset_by=signals)` table |
| DocTables.NumSignalsTable | vectorbt/signals/accessors.py:419-422 | the documentation frame has 3, 3 and 4 signals |
| DocTables.AvgDistanceTable | vectorbt/signals/accessors.py:364-372 | the printed average distances 1.5, 1.5 and 4/3 |
| DocTables.MeanPartitionLengthTable | vectorbt/signals/accessors.py:401-409 | the printed mean partition lengths 1.5, 1.5 and 2.0 |
| GenerationTables.GenerateTable | vectorbt/signals/accessors.py:114-126 | `generate((5, 3))` with the printed draw gives the printed frame |
| GenerationTables.GenerateRandomTable | vectorbt/signals/accessors.py:148-157 | `generate_random((5, 3), [1, 2], min_space=1)` succeeds for every seed, and each printed column is an outcome the draw allows |
| GenerationTables.GenerateAfterTable | vectorbt/signals/accessors.py:226-239 | the printed `generate_after` table with `np.arange` |
| GenerationTables.GenerateRandomAfterTable | vectorbt/signals/accessors.py:247-257 | `generate_random_after(1)` gives the printed table for every seed |
| GenerationTables.IterateFromRowAlternates | vectorbt/signals/accessors.py:183-206 | taking the first offered row in turn alternates entries and exits row by row |
| GenerationTables.GenerateIterativelyTable | vectorbt/signals/accessors.py:183-206 | the printed entries (rows 0, 2, 4) and exits (rows 1, 3) |
| StopTables.StopLossTable | vectorbt/signals/accessors.py:280-287 | the printed `generate_stop_loss(ts, [0.1, 0.2])` table, including the inclusive exit of price 4 after entry price 5 at stop 0.2 |
| StopTables.TakeProfitTable | vectorbt/signals/accessors.py:323-330 | the printed `generate_take_profit(ts, [0.1, 0.2])` table |
| StopTables.FixedStopScenario | vectorbt/signals/accessors.py:267-268 | entry at 10 and a 10% stop: rows at 9 and 8 exit without `first`, only the row at 9 with it |
| StopTables.TrailingStopScenario | vectorbt/signals/accessors.py:306 | a trailing 10% stop after a peak of 12 exits first at 9, not at 11 |
| CombineTables.OrConcatTable | vectorbt/signals/accessors.py:551-566 | the printed `OR(ts > 1, ts > 2, concat=True)` table |

## Left out

- The scanning kernels in `vectorbt/signals/nb.py` are not part of this model. Their row-by-row behaviour is reconstructed from the documented semantics. The docstring tables check it only for the options they print. `map_reduce_between` with `other`, a general `reset_by`, trailing or absolute stops, `first=False` and `min_space` rest on the reconstruction alone.
- The seeded NumPy generator and the `n_prob` weights: a draw is any choice function that places a count from `n_range` with the required spacing. `n_prob` is checked only for its length, and which count is drawn is not modelled.
- Generation.GenerateRandom: an empty `n_range` has no draw satisfying `Generation.RandomDraw`, so it is excluded. When a count does not fit, the draw places as many rows as fit, `min(n, capacity)`.
- Bit-exact reproducibility per seed is not modelled. The model states only what every seed must satisfy.
- Choice functions that return rows outside the offered range are excluded by the precondition `Generation.Bounded`. Whether the kernels guard against such rows is unknown here, since `nb.py` is not part of this model.
- Shapes other than a number, a 1-tuple or a 2-tuple become a `BadShape` failure. The source passes them on to the kernel.
- Broadcasting (`reshape_fns.broadcast`, `broadcast_to_array_of`), pandas wrapping (`wrap`, `wrap_reduced`, Series versus DataFrame results) and column labels (`as_columns`, `index_from_values`, `combine_indexes`, the `stop_loss`/`trail_stop`/`take_profit` level names) are foreign library code. The model takes already-shaped matrices and returns bare ones.
- StopExits.GenerateStopLoss: one scalar stop per configuration. A 3-D `stops` array with a different value per row or column is not modelled.
- StopExits.GenerateTakeProfit: one scalar stop per configuration, as for the stop loss. A 3-D `stops` array (accessors.py:315-316) with a different value per row or column is not modelled.
- The extra positional `*args` that `generate`, `generate_iteratively`, `generate_after` (accessors.py:103-136, 174-242), `map_reduce_between` and `map_reduce_partitions` (accessors.py:352-416) forward to `choice_func_nb`, `map_func_nb` and `reduce_func_nb` are dropped. The callables take only (col, from, to) or their own inputs, and any extra argument is captured in the Dafny function value.
- Floating point: prices, stops, distances and means are exact reals. IEEE rounding of thresholds is not modelled, and NaN is `None`.
- The bool dtype check of the constructor (accessors.py:65) is the type `bool`. The numba checks (`assert_numba_func`) have no counterpart, since Dafny function values are always callable.
- `empty`, `empty_like`, the attached `shuffle_nb`/`fshift_nb` kernels, and plotting (accessors.py:588-747) are left out. They are constructors, unseen kernels and UI.
