/**
 * The worked tables of `generate_stop_loss` and `generate_take_profit`,
 * and three single-entry scenarios (a fixed stop with and without `first`,
 * and a trailing stop), re-derived from the model.
 * The documentation's tables hold for every stop between 0 and 0.2, so
 * each column lemma is stated for that whole range.
 */
module StopTables {
  import opened Signals
  import opened Generation
  import opened StopExits
  import opened DocTables

  /** `out` marks exactly the stop exits of entry column `c` over prices `p`. */
  predicate StopsAt(rule: StopRule, c: Column, p: seq<real>, stop: real, out: Column)
    requires |p| == |c|
  {
    |out| == |c| && forall i :: 0 <= i < |c| ==> (out[i] <==> IsStopExit(rule, c, p, stop, i))
  }

  /** A column whose stop exits are known is that column of `StopColumns`. */
  lemma StopColumnFrom(entries: Matrix, prices: seq<seq<real>>, stop: real, rule: StopRule, j: nat, out: Column)
    requires SameShape(entries, prices) && j < |entries|
    requires StopsAt(rule, entries[j], prices[j], stop, out)
    ensures StopColumns(entries, prices, stop, rule)[j] == out
  {
    forall i | 0 <= i < |out|
      ensures StopColumns(entries, prices, stop, rule)[j][i] == out[i]
    {
      StopColumnsAreExits(entries, prices, stop, rule, j, i);
    }
  }

  /** The rule of `generate_stop_loss` with its defaults. */
  const LossRule := StopRule(Loss, false, true, true)

  /** The rule of `generate_take_profit` with its defaults. */
  const ProfitRule := StopRule(Profit, false, true, true)

  /** No exits at all. */
  const NoExits: Column := [false, false, false, false, false]

  /** Column a only rises, so a stop loss never fires. */
  lemma LossColumnA(c: Column, p: seq<real>, stop: real)
    requires c == [false, true, true, false, true] && p == [1.0, 2.0, 3.0, 4.0, 5.0] && 0.0 <= stop
    ensures StopsAt(LossRule, c, p, stop, NoExits)
  {
    assert LastSignalBefore(c, 3) == 2;
  }

  /** Column b falls from every entry: the rows after entries 0 and 3 cross a stop of at most 20%. */
  lemma LossColumnB(c: Column, p: seq<real>, stop: real)
    requires c == [true, false, true, true, false] && p == [5.0, 4.0, 3.0, 2.0, 1.0] && 0.0 <= stop <= 0.2
    ensures StopsAt(LossRule, c, p, stop, [false, true, false, false, true])
  {
    assert LastSignalBefore(c, 1) == 0;
    assert LastSignalBefore(c, 4) == 3;
  }

  /** Column c rises after its only entry with room after it. */
  lemma LossColumnC(c: Column, p: seq<real>, stop: real)
    requires c == [true, true, false, true, true] && p == [1.0, 2.0, 3.0, 2.0, 1.0] && 0.0 <= stop
    ensures StopsAt(LossRule, c, p, stop, NoExits)
  {
    assert LastSignalBefore(c, 2) == 1;
  }

  /** Column a rises by a third after the entry at row 2. */
  lemma ProfitColumnA(c: Column, p: seq<real>, stop: real)
    requires c == [false, true, true, false, true] && p == [1.0, 2.0, 3.0, 4.0, 5.0] && 0.0 <= stop <= 0.2
    ensures StopsAt(ProfitRule, c, p, stop, [false, false, false, true, false])
  {
    assert LastSignalBefore(c, 3) == 2;
  }

  /** Column b only falls, so a take profit never fires. */
  lemma ProfitColumnB(c: Column, p: seq<real>, stop: real)
    requires c == [true, false, true, true, false] && p == [5.0, 4.0, 3.0, 2.0, 1.0] && 0.0 <= stop
    ensures StopsAt(ProfitRule, c, p, stop, NoExits)
  {
    assert LastSignalBefore(c, 1) == 0;
    assert LastSignalBefore(c, 4) == 3;
  }

  /** Column c rises by half after the entry at row 1. */
  lemma ProfitColumnC(c: Column, p: seq<real>, stop: real)
    requires c == [true, true, false, true, true] && p == [1.0, 2.0, 3.0, 2.0, 1.0] && 0.0 <= stop <= 0.2
    ensures StopsAt(ProfitRule, c, p, stop, [false, false, true, false, false])
  {
    assert LastSignalBefore(c, 2) == 1;
  }

  /** Every column of `outs` marks exactly the stop exits of its column of `entries`. */
  predicate AllStopsAt(rule: StopRule, entries: Matrix, prices: seq<seq<real>>, stop: real, outs: Matrix)
    requires SameShape(entries, prices)
  {
    |outs| == |entries| && forall j :: 0 <= j < |entries| ==> StopsAt(rule, entries[j], prices[j], stop, outs[j])
  }

  /** Two stop values over three columns whose exits `outs` do not depend on which of the two is used. */
  lemma TwoBlocks(entries: Matrix, prices: seq<seq<real>>, stops: seq<real>, rule: StopRule, outs: Matrix)
    requires SameShape(entries, prices) && |entries| == 3 && |stops| == 2
    requires AllStopsAt(rule, entries, prices, stops[0], outs) && AllStopsAt(rule, entries, prices, stops[1], outs)
    ensures StopBlocks(entries, prices, stops, rule) == outs + outs
  {
    var r := StopBlocks(entries, prices, stops, rule);
    forall n | 0 <= n < 6
      ensures r[n] == (outs + outs)[n]
    {
      var k := if n < 3 then 0 else 1;
      var j := n - 3 * k;
      assert n == k * 3 + j;
      StopBlocksInOrder(entries, prices, stops, rule, k, j);
      StopColumnFrom(entries, prices, stops[k], rule, j, outs[j]);
    }
  }

  /** The stop loss exits of the documentation's frame. */
  const LossOuts: Matrix := [NoExits, [false, true, false, false, true], NoExits]

  /** The take profit exits of the documentation's frame. */
  const ProfitOuts: Matrix := [[false, false, false, true, false], NoExits, [false, false, true, false, false]]

  /** Any stop loss between 0 and 20% gives the exits `LossOuts`. */
  lemma LossAt(stop: real)
    requires 0.0 <= stop <= 0.2
    ensures AllStopsAt(LossRule, Sig, Ts, stop, LossOuts)
  {
    LossColumnA(Sig[0], Ts[0], stop);
    LossColumnB(Sig[1], Ts[1], stop);
    LossColumnC(Sig[2], Ts[2], stop);
  }

  /** Any take profit between 0 and 20% gives the exits `ProfitOuts`. */
  lemma ProfitAt(stop: real)
    requires 0.0 <= stop <= 0.2
    ensures AllStopsAt(ProfitRule, Sig, Ts, stop, ProfitOuts)
  {
    ProfitColumnA(Sig[0], Ts[0], stop);
    ProfitColumnB(Sig[1], Ts[1], stop);
    ProfitColumnC(Sig[2], Ts[2], stop);
  }

  /** Stop losses of 10% and 20% below `ts`: only column b exits, after its entries at rows 0 and 3. */
  lemma StopLossTable()
    ensures GenerateStopLoss(Sig, Ts, [0.1, 0.2], false, true, true) ==
      [NoExits, [false, true, false, false, true], NoExits, NoExits, [false, true, false, false, true], NoExits]
  {
    LossAt(0.1);
    LossAt(0.2);
    TwoBlocks(Sig, Ts, [0.1, 0.2], LossRule, LossOuts);
  }

  /** Take profits of 10% and 20% above `ts`: column a exits at row 3 and column c at row 2. */
  lemma TakeProfitTable()
    ensures GenerateTakeProfit(Sig, Ts, [0.1, 0.2], true, true) ==
      [[false, false, false, true, false], NoExits, [false, false, true, false, false],
       [false, false, false, true, false], NoExits, [false, false, true, false, false]]
  {
    ProfitAt(0.1);
    ProfitAt(0.2);
    TwoBlocks(Sig, Ts, [0.1, 0.2], ProfitRule, ProfitOuts);
  }

  /** One stop value over a single column. */
  lemma OneBlock(entries: Matrix, prices: seq<seq<real>>, stop: real, rule: StopRule, out: Column)
    requires SameShape(entries, prices) && |entries| == 1
    requires StopsAt(rule, entries[0], prices[0], stop, out)
    ensures StopBlocks(entries, prices, [stop], rule) == [out]
  {
    StopBlocksInOrder(entries, prices, [stop], rule, 0, 0);
    StopColumnFrom(entries, prices, stop, rule, 0, out);
  }

  /** The single entry of the stop scenarios. */
  const OneEntry: Column := [true, false, false, false, false]

  /** Entry at 10 with a 10% stop loss: the threshold is 9, reached at rows 1 and 2. */
  lemma FixedStopColumn(c: Column, p: seq<real>, first: bool)
    requires c == OneEntry && p == [10.0, 9.0, 8.0, 11.0, 12.0]
    ensures StopsAt(StopRule(Loss, false, true, first), c, p, 0.1, [false, true, !first, false, false])
  {
    var rule := StopRule(Loss, false, true, first);
    assert NextSignal(c, 0) == 0;
    assert Qualifies(rule, p, 0.1, 0, 1) && Qualifies(rule, p, 0.1, 0, 2);
    assert !Qualifies(rule, p, 0.1, 0, 3) && !Qualifies(rule, p, 0.1, 0, 4);
    forall i | 1 <= i < 5
      ensures LastSignalBefore(c, i) == 0
    {
      LastSignalBeforeUnique(c, 0, i);
    }
  }

  /**
   * The fixed stop scenario: every row at or below the threshold exits when
   * `first` is off, and only the first of them when it is on.
   */
  lemma FixedStopScenario()
    ensures GenerateStopLoss([OneEntry], [[10.0, 9.0, 8.0, 11.0, 12.0]], [0.1], false, true, false) == [[false, true, true, false, false]]
    ensures GenerateStopLoss([OneEntry], [[10.0, 9.0, 8.0, 11.0, 12.0]], [0.1], false, true, true) == [[false, true, false, false, false]]
  {
    var prices := [[10.0, 9.0, 8.0, 11.0, 12.0]];
    FixedStopColumn(OneEntry, prices[0], false);
    OneBlock([OneEntry], prices, 0.1, StopRule(Loss, false, true, false), [false, true, true, false, false]);
    FixedStopColumn(OneEntry, prices[0], true);
    OneBlock([OneEntry], prices, 0.1, StopRule(Loss, false, true, true), [false, true, false, false, false]);
  }

  /** Entry at 10, peak 12 at row 1: the trailing threshold rises to 10.8 and row 3 at 9 is the first below it. */
  lemma TrailingStopColumn(c: Column, p: seq<real>)
    requires c == OneEntry && p == [10.0, 12.0, 11.0, 9.0, 8.0]
    ensures StopsAt(StopRule(Loss, true, true, true), c, p, 0.1, [false, false, false, true, false])
  {
    var rule := StopRule(Loss, true, true, true);
    assert NextSignal(c, 0) == 0;
    assert RunningMax(p, 0, 1) == 12.0;
    assert RunningMax(p, 0, 2) == 12.0;
    assert RunningMax(p, 0, 3) == 12.0;
    assert RunningMax(p, 0, 4) == 12.0;
    assert !Qualifies(rule, p, 0.1, 0, 1) && !Qualifies(rule, p, 0.1, 0, 2);
    assert Qualifies(rule, p, 0.1, 0, 3) && Qualifies(rule, p, 0.1, 0, 4);
    forall i | 1 <= i < 5
      ensures LastSignalBefore(c, i) == 0
    {
      LastSignalBeforeUnique(c, 0, i);
    }
  }

  /** The trailing stop scenario: a trailing 10% stop loss exits only at row 3. */
  lemma TrailingStopScenario()
    ensures GenerateStopLoss([OneEntry], [[10.0, 12.0, 11.0, 9.0, 8.0]], [0.1], true, true, true) == [[false, false, false, true, false]]
  {
    var prices := [[10.0, 12.0, 11.0, 9.0, 8.0]];
    TrailingStopColumn(OneEntry, prices[0]);
    OneBlock([OneEntry], prices, 0.1, StopRule(Loss, true, true, true), [false, false, false, true, false]);
  }
}
