/**
 * Exit signals derived from entries and a price path
 * (`Signals_Accessor.generate_stop_loss`, `generate_take_profit`).  In the
 * range after every entry (up to the next entry) a row is an exit when its
 * price crosses the threshold set by the entry's stop; with `first` only the
 * first such row of the range is kept.  One block of columns is produced per
 * stop value, in the given order.
 */
module StopExits {
  import opened Signals
  import opened Generation

  /** Stop loss exits below the reference price, take profit above it. */
  datatype Side = Loss | Profit

  /**
   * The policy flags of one stop call.  `trailing` is only ever set for a
   * stop loss; `relative` reads the stop as a fraction of the reference
   * price instead of an absolute price distance.
   */
  datatype StopRule = StopRule(side: Side, trailing: bool, relative: bool, first: bool)

  /** The price an exit must reach: below `reference` for a loss, above it for a profit. */
  function Threshold(rule: StopRule, reference: real, stop: real): (t: real)
    ensures stop >= 0.0 && reference >= 0.0 && rule.side == Loss ==> t <= reference
    ensures stop >= 0.0 && reference >= 0.0 && rule.side == Profit ==> t >= reference
  {
    match rule.side
    case Loss => if rule.relative then reference * (1.0 - stop) else reference - stop
    case Profit => if rule.relative then reference * (1.0 + stop) else reference + stop
  }

  /** The price reaches the threshold; the bound itself counts. */
  predicate Hit(rule: StopRule, reference: real, stop: real, price: real) {
    match rule.side
    case Loss => price <= Threshold(rule, reference, stop)
    case Profit => price >= Threshold(rule, reference, stop)
  }

  /** The larger of two prices. */
  function MaxReal(a: real, b: real): real {
    if a >= b then a else b
  }

  /**
   * Trailing reference price: the highest price from the entry row `entry`
   * up to and including row `i`, built row by row as the running maximum.
   */
  function RunningMax(p: seq<real>, entry: nat, i: nat): (r: real)
    requires entry <= i < |p|
    ensures forall k :: entry <= k <= i ==> p[k] <= r
    ensures exists k :: entry <= k <= i && p[k] == r
    decreases i - entry
  {
    if i == entry then p[entry] else MaxReal(RunningMax(p, entry, i - 1), p[i])
  }

  /** The reference price at row `i` for the entry at row `entry`. */
  function Reference(rule: StopRule, p: seq<real>, entry: nat, i: nat): real
    requires entry <= i < |p|
  {
    if rule.trailing then RunningMax(p, entry, i) else p[entry]
  }

  /** Row `i` crosses the stop of the entry at row `entry`. */
  predicate Qualifies(rule: StopRule, p: seq<real>, stop: real, entry: nat, i: nat)
    requires entry <= i < |p|
  {
    Hit(rule, Reference(rule, p, entry, i), stop, p[i])
  }

  /**
   * Row `i` is an exit for the entry at row `entry`: it qualifies and, with
   * `first`, no earlier row after the entry qualified.
   */
  predicate ExitFor(rule: StopRule, p: seq<real>, stop: real, entry: nat, i: nat)
    requires entry < i < |p|
  {
    Qualifies(rule, p, stop, entry, i) && (rule.first ==> forall y :: entry < y < i ==> !Qualifies(rule, p, stop, entry, y))
  }

  /**
   * The exit scan over rows `[i, until)` after the entry at row `entry`, with
   * the running peak `peak` of the rows before `i` as its state.  With
   * `first` the scan stops at the first exit.
   */
  function StopScan(rule: StopRule, p: seq<real>, stop: real, entry: nat, i: nat, until: nat, peak: real): (r: set<nat>)
    requires entry < i <= until <= |p|
    ensures forall x :: (x in r ==> i <= x < until)
    decreases until - i
  {
    if i == until then {}
    else
      var peak' := MaxReal(peak, p[i]);
      var reference := if rule.trailing then peak' else p[entry];
      if Hit(rule, reference, stop, p[i]) then {i} + (if rule.first then {} else StopScan(rule, p, stop, entry, i + 1, until, peak'))
      else StopScan(rule, p, stop, entry, i + 1, until, peak')
  }

  /**
   * The scan, started with the peak of the rows up to `i - 1`, marks exactly
   * the rows of `[i, until)` that are exits for the entry in the sense of
   * `ExitFor`, given that no row of `[entry + 1, i)` qualified when `first`
   * is set.
   */
  lemma {:induction false} StopScanMarksExits(rule: StopRule, p: seq<real>, stop: real, entry: nat, i: nat, until: nat, x: nat)
    requires entry < i <= until <= |p|
    requires rule.first ==> forall y :: entry < y < i ==> !Qualifies(rule, p, stop, entry, y)
    ensures x in StopScan(rule, p, stop, entry, i, until, RunningMax(p, entry, i - 1)) <==> i <= x < until && ExitFor(rule, p, stop, entry, x)
    decreases until - i
  {
    if i < until {
      var peak' := MaxReal(RunningMax(p, entry, i - 1), p[i]);
      assert peak' == RunningMax(p, entry, i);
      if Qualifies(rule, p, stop, entry, i) {
        if !rule.first {
          StopScanMarksExits(rule, p, stop, entry, i + 1, until, x);
        }
      } else {
        StopScanMarksExits(rule, p, stop, entry, i + 1, until, x);
      }
    }
  }

  /**
   * The choice function the stop kernels hand to `generate_after`: over the
   * range `[from, until)` after the entry at row `from - 1`, the exit rows of
   * that entry in column `col` of the prices.
   */
  function StopChoice(prices: seq<seq<real>>, stop: real, rule: StopRule): Choice {
    (col: nat, from: nat, until: nat) =>
      if col < |prices| && 1 <= from <= until <= |prices[col]| then StopScan(rule, prices[col], stop, from - 1, from, until, prices[col][from - 1])
      else {}
  }

  /** The stop choice names only offered rows. */
  lemma StopChoiceIsBounded(prices: seq<seq<real>>, stop: real, rule: StopRule)
    ensures Bounded(StopChoice(prices, stop, rule))
  {
  }

  /** The exit column of one stop value. */
  function StopColumns(entries: Matrix, prices: seq<seq<real>>, stop: real, rule: StopRule): (r: Matrix)
    ensures SameShape(r, entries)
  {
    GenerateAfter(entries, StopChoice(prices, stop, rule))
  }

  /**
   * Reference definition of a stop exit: row `i` holds no entry, some entry
   * precedes it, and `i` is an exit for the last entry before it.
   */
  predicate IsStopExit(rule: StopRule, c: Column, p: seq<real>, stop: real, i: nat)
    requires |p| == |c| && i < |c|
  {
    !c[i] && NextSignal(c, 0) < i && ExitFor(rule, p, stop, LastSignalBefore(c, i), i)
  }

  /** The last signal before `i` is the only signal with no signal between it and `i`. */
  lemma LastSignalBeforeUnique(c: Column, s: nat, i: nat)
    requires s < i <= |c| && c[s]
    requires forall k :: s < k < i ==> !c[k]
    ensures NextSignal(c, 0) < i && LastSignalBefore(c, i) == s
  {
  }

  /** One column of the stop output is `generate_after` over that column with the stop choice. */
  lemma StopColumnIsAfterColumn(entries: Matrix, prices: seq<seq<real>>, stop: real, rule: StopRule, j: nat)
    requires j < |entries|
    ensures StopColumns(entries, prices, stop, rule)[j] == AfterColumn(j, entries[j], StopChoice(prices, stop, rule))
  {
  }

  /** A marked row is a stop exit. */
  lemma StopColumnSound(entries: Matrix, prices: seq<seq<real>>, stop: real, rule: StopRule, j: nat, i: nat)
    requires SameShape(entries, prices)
    requires j < |entries| && i < |entries[j]|
    requires AfterColumn(j, entries[j], StopChoice(prices, stop, rule))[i]
    ensures IsStopExit(rule, entries[j], prices[j], stop, i)
  {
    var c := entries[j];
    var choice := StopChoice(prices, stop, rule);
    AfterColumnSound(j, c, choice, i);
    var s :| 0 <= s < |c| && c[s] && i in choice(j, s + 1, NextSignal(c, s + 1));
    var until := NextSignal(c, s + 1);
    assert i in StopScan(rule, prices[j], stop, s, s + 1, until, prices[j][s]);
    StopScanMarksExits(rule, prices[j], stop, s, s + 1, until, i);
    LastSignalBeforeUnique(c, s, i);
  }

  /** A stop exit is marked. */
  lemma StopColumnComplete(entries: Matrix, prices: seq<seq<real>>, stop: real, rule: StopRule, j: nat, i: nat)
    requires SameShape(entries, prices)
    requires j < |entries| && i < |entries[j]|
    requires IsStopExit(rule, entries[j], prices[j], stop, i)
    ensures AfterColumn(j, entries[j], StopChoice(prices, stop, rule))[i]
  {
    var c := entries[j];
    var s := LastSignalBefore(c, i);
    var until := NextSignal(c, s + 1);
    StopScanMarksExits(rule, prices[j], stop, s, s + 1, until, i);
    assert i in StopChoice(prices, stop, rule)(j, s + 1, until);
    AfterColumnComplete(j, c, StopChoice(prices, stop, rule), i, s);
  }

  /**
   * A row of the stop output is set exactly when it is a stop exit in the
   * sense of `IsStopExit`.
   */
  lemma StopColumnsAreExits(entries: Matrix, prices: seq<seq<real>>, stop: real, rule: StopRule, j: nat, i: nat)
    requires SameShape(entries, prices)
    requires j < |entries| && i < |entries[j]|
    ensures StopColumns(entries, prices, stop, rule)[j][i] <==> IsStopExit(rule, entries[j], prices[j], stop, i)
  {
    StopColumnIsAfterColumn(entries, prices, stop, rule, j);
    if StopColumns(entries, prices, stop, rule)[j][i] {
      StopColumnSound(entries, prices, stop, rule, j, i);
    }
    if IsStopExit(rule, entries[j], prices[j], stop, i) {
      StopColumnComplete(entries, prices, stop, rule, j, i);
    }
  }

  /**
   * With `first`, an entry gets at most one exit: between any two exits of
   * a column lies an entry.
   */
  lemma FirstExitOncePerEntry(entries: Matrix, prices: seq<seq<real>>, stop: real, rule: StopRule, j: nat, x: nat, y: nat)
    requires SameShape(entries, prices)
    requires rule.first
    requires j < |entries| && x < y < |entries[j]|
    requires StopColumns(entries, prices, stop, rule)[j][x] && StopColumns(entries, prices, stop, rule)[j][y]
    ensures exists e :: x < e < y && entries[j][e]
  {
    var c := entries[j];
    StopColumnsAreExits(entries, prices, stop, rule, j, x);
    StopColumnsAreExits(entries, prices, stop, rule, j, y);
    if forall e :: x < e < y ==> !c[e] {
      var s := LastSignalBefore(c, x);
      LastSignalBeforeUnique(c, s, y);
      assert false;
    }
  }

  /**
   * All configurations: one block of `|entries|` columns per stop value, in
   * the order of `stops`.
   */
  function StopBlocks(entries: Matrix, prices: seq<seq<real>>, stops: seq<real>, rule: StopRule): (r: Matrix)
    ensures |r| == |stops| * |entries|
  {
    if |stops| == 0 then []
    else
      var r := StopBlocks(entries, prices, stops[..|stops| - 1], rule) + StopColumns(entries, prices, stops[|stops| - 1], rule);
      assert |stops| * |entries| == (|stops| - 1) * |entries| + |entries|;
      r
  }

  /** Column `j` of block `k` is column `j` of the output for the `k`-th stop value. */
  lemma {:induction false} StopBlocksInOrder(entries: Matrix, prices: seq<seq<real>>, stops: seq<real>, rule: StopRule, k: nat, j: nat)
    requires k < |stops| && j < |entries|
    ensures k * |entries| + j < |StopBlocks(entries, prices, stops, rule)|
    ensures StopBlocks(entries, prices, stops, rule)[k * |entries| + j] == StopColumns(entries, prices, stops[k], rule)[j]
  {
    var n := |stops|;
    var init := stops[..n - 1];
    BlockIndex(k, j, |entries|, n);
    if k < n - 1 {
      StopBlocksInOrder(entries, prices, init, rule, k, j);
      assert init[k] == stops[k];
    }
  }

  /** `generate_stop_loss`: exits below the (optionally trailing) reference price. */
  function GenerateStopLoss(entries: Matrix, prices: seq<seq<real>>, stops: seq<real>, trailing: bool, relative: bool, first: bool)
    : (r: Matrix)
    requires SameShape(entries, prices)
    ensures |r| == |stops| * |entries|
  {
    StopBlocks(entries, prices, stops, StopRule(Loss, trailing, relative, first))
  }

  /** `generate_take_profit`: exits above the entry price; there is no trailing variant. */
  function GenerateTakeProfit(entries: Matrix, prices: seq<seq<real>>, stops: seq<real>, relative: bool, first: bool)
    : (r: Matrix)
    requires SameShape(entries, prices)
    ensures |r| == |stops| * |entries|
  {
    StopBlocks(entries, prices, stops, StopRule(Profit, false, relative, first))
  }
}
