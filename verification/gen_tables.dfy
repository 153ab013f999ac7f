/**
 * The worked tables of the generation methods of `Signals_Accessor`,
 * re-derived from the model on the documentation's 5-row, 3-column frame.
 * Random draws are not reproduced: where the documentation prints the
 * outcome of a seeded draw, the lemma shows that the printed outcome is
 * one the model allows, or that every allowed draw gives it.
 */
module GenerationTables {
  import opened Results
  import opened Signals
  import opened Generation
  import opened DocTables

  /** A column is the marking of its own signal rows. */
  lemma ColumnIsMarkOfSignals(c: Column)
    ensures c == Mark(|c|, SignalSet(c))
  {
  }

  /** A choice that picks row 2 in columns a and c and row 4 in column b, as the printed draw of `generate` did. */
  function DocPick(col: nat, from: nat, until: nat): set<nat> {
    var row := if col == 1 then 4 else 2;
    if from <= row < until then {row} else {}
  }

  /** `DocPick` names only offered rows. */
  lemma DocPickIsBounded()
    ensures Bounded(DocPick)
  {
  }

  /** `generate((5, 3), choice_func_nb)` with the printed draw. */
  lemma GenerateTable()
    ensures Bounded(DocPick) && Generate(Dims([5, 3]), DocPick) ==
      Success([[false, false, true, false, false], [false, false, false, false, true], [false, false, true, false, false]])
  {
    DocPickIsBounded();
    assert NormalizeShape(Dims([5, 3])) == Success((5, 3));
    var m := Generate(Dims([5, 3]), DocPick).value;
    assert |m| == 3 && IsShape(m, 5);
    forall j | 0 <= j < 3
      ensures m[j] == Mark(5, DocPick(j, 0, 5))
    {
      ColumnIsMarkOfSignals(m[j]);
    }
    assert m[0] == [false, false, true, false, false];
    assert m[1] == [false, false, false, false, true];
    assert m[2] == [false, false, true, false, false];
    Three(m, m[0], m[1], m[2]);
  }

  /** The table printed for `generate_random((5, 3), [1, 2], n_prob=[0.3, 0.7], min_space=1, seed=42)`. */
  const RandomTable: Matrix := [[true, false, true, false, false], [false, true, false, true, false], [false, false, false, true, false]]

  /** Five rows with one free row between signals hold at most three signals. */
  lemma CapacityOfFiveRows()
    ensures Capacity(5, 1) == 3
  {
    assert Capacity(0, 1) == 0;
    assert Capacity(1, 1) == 1;
    assert Capacity(3, 1) == 2;
  }

  /** Column a of the printed table: two signals two rows apart. */
  lemma RandomColumnA(c: Column)
    requires c == [true, false, true, false, false]
    ensures DrawnColumn(c, [1, 2], 1)
  {
    assert SignalSet(c) == {0, 2};
    CapacityOfFiveRows();
    assert RandomPlacement(SignalSet(c), 0, |c|, [1, 2][1], 1);
  }

  /** Column b of the printed table: two signals two rows apart. */
  lemma RandomColumnB(c: Column)
    requires c == [false, true, false, true, false]
    ensures DrawnColumn(c, [1, 2], 1)
  {
    assert SignalSet(c) == {1, 3};
    CapacityOfFiveRows();
    assert RandomPlacement(SignalSet(c), 0, |c|, [1, 2][1], 1);
  }

  /** Column c of the printed table: a single signal. */
  lemma RandomColumnC(c: Column)
    requires c == [false, false, false, true, false]
    ensures DrawnColumn(c, [1, 2], 1)
  {
    assert SignalSet(c) == {3};
    CapacityOfFiveRows();
    assert RandomPlacement(SignalSet(c), 0, |c|, [1, 2][0], 1);
  }

  /**
   * `generate_random((5, 3), [1, 2], n_prob=[0.3, 0.7], min_space=1)`
   * succeeds with a 5 x 3 frame for every seed, and the printed frame is
   * one the draw may produce: each column holds one or two signals with a
   * free row between them.
   */
  lemma GenerateRandomTable(draw: Choice)
    requires RandomDraw(draw, [1, 2], 1)
    ensures GenerateRandom(Dims([5, 3]), [1, 2], Some([0.3, 0.7]), Some(1), draw).Success?
    ensures |GenerateRandom(Dims([5, 3]), [1, 2], Some([0.3, 0.7]), Some(1), draw).value| == 3
    ensures forall j :: 0 <= j < 3 ==> DrawnColumn(RandomTable[j], [1, 2], 1)
  {
    assert NormalizeShape(Dims([5, 3])) == Success((5, 3));
    RandomColumnA(RandomTable[0]);
    RandomColumnB(RandomTable[1]);
    RandomColumnC(RandomTable[2]);
  }

  /** The frame printed for `generate_after` with `np.arange(from_i, to_i)`, and for `generate_random_after(1)`. */
  const FilledTable: Matrix := [[false, false, false, true, false], [false, true, false, false, true], [false, false, true, false, false]]

  /** `filled` marks every non-signal row of `c` after its first signal. */
  predicate FilledBy(c: Column, filled: Column) {
    |filled| == |c| && forall i :: 0 <= i < |c| ==> (filled[i] <==> !c[i] && NextSignal(c, 0) < i)
  }

  /** Filling the gaps of a column with `np.arange` marks every non-signal row after the first signal. */
  lemma FillColumn(m: Matrix, j: nat, filled: Column)
    requires j < |m| && FilledBy(m[j], filled)
    ensures GenerateAfter(m, Arange)[j] == filled
  {
    forall i | 0 <= i < |filled|
      ensures GenerateAfter(m, Arange)[j][i] == filled[i]
    {
      GenerateAfterArangeFillsGaps(m, j, i);
    }
  }

  /** Column a filled. */
  lemma FilledA(c: Column)
    requires c == [false, true, true, false, true]
    ensures FilledBy(c, [false, false, false, true, false])
  {
    assert NextSignal(c, 0) == 1;
  }

  /** Column b filled. */
  lemma FilledB(c: Column)
    requires c == [true, false, true, true, false]
    ensures FilledBy(c, [false, true, false, false, true])
  {
    assert NextSignal(c, 0) == 0;
  }

  /** Column c filled. */
  lemma FilledC(c: Column)
    requires c == [true, true, false, true, true]
    ensures FilledBy(c, [false, false, true, false, false])
  {
    assert NextSignal(c, 0) == 0;
  }

  /** `generate_after` with `np.arange(from_i, to_i)` fills every gap between signals. */
  lemma GenerateAfterTable()
    ensures GenerateAfter(Sig, Arange) == FilledTable
  {
    FilledA(Sig[0]);
    FilledB(Sig[1]);
    FilledC(Sig[2]);
    FilledOf(Sig);
  }

  /** The filled frame of any three columns filled like a, b and c. */
  lemma FilledOf(m: Matrix)
    requires |m| == 3
    requires FilledBy(m[0], FilledTable[0]) && FilledBy(m[1], FilledTable[1]) && FilledBy(m[2], FilledTable[2])
    ensures GenerateAfter(m, Arange) == FilledTable
  {
    FillColumn(m, 0, FilledTable[0]);
    FillColumn(m, 1, FilledTable[1]);
    FillColumn(m, 2, FilledTable[2]);
    var r := GenerateAfter(m, Arange);
    Three(r, r[0], r[1], r[2]);
  }

  /** Every gap after a signal of the documentation's frame is at most one row wide. */
  lemma SigGapsAreNarrow()
    ensures forall j, s :: 0 <= j < |Sig| && 0 <= s < |Sig[j]| && Sig[j][s] ==> NextSignal(Sig[j], s + 1) <= s + 2
  {
  }

  /**
   * `generate_random_after(1)`: whatever the seed, one signal after each
   * signal lands on the only free row of its gap, which is the frame
   * `generate_after` fills with `np.arange`.
   */
  lemma GenerateRandomAfterTable(draw: Choice)
    requires RandomDraw(draw, [1], 0)
    ensures GenerateRandomAfter(Sig, [1], None, None, draw) == Success(FilledTable)
  {
    SigGapsAreNarrow();
    RandomAfterOneFillsNarrowGaps(Sig, None, None, draw);
    GenerateAfterTable();
  }

  /** The choice of the iterative example: the first offered row. */
  function FromRow(col: nat, from: nat, until: nat): set<nat> {
    if from < until then {from} else {}
  }

  /** `FromRow` names only offered rows. */
  lemma FromRowIsBounded()
    ensures Bounded(FromRow)
  {
  }

  /** One turn of `Iterate` whose choice names the single row `p`. */
  lemma IterateSingleStep(col: nat, rows: nat, pos: nat, entryTurn: bool, choice1: Choice, choice2: Choice, p: nat)
    requires Bounded(choice1) && Bounded(choice2)
    requires pos <= p < rows
    requires (if entryTurn then choice1(col, pos, rows) else choice2(col, pos, rows)) == {p}
    ensures Iterate(col, rows, pos, entryTurn, choice1, choice2).0 ==
      (if entryTurn then {p} else {}) + Iterate(col, rows, p + 1, !entryTurn, choice1, choice2).0
    ensures Iterate(col, rows, pos, entryTurn, choice1, choice2).1 ==
      (if entryTurn then {} else {p}) + Iterate(col, rows, p + 1, !entryTurn, choice1, choice2).1
  {
    assert LargestIn({p}, rows) == p;
  }

  /**
   * Taking the first offered row in turn alternates entries and exits row
   * by row from `pos`: the rows an even distance from `pos` go to the
   * side whose turn it is.
   */
  lemma {:induction false} IterateFromRowAlternates(col: nat, rows: nat, pos: nat, entryTurn: bool, i: nat)
    ensures Bounded(FromRow)
    ensures i in Iterate(col, rows, pos, entryTurn, FromRow, FromRow).0 <==> pos <= i < rows && ((i - pos) % 2 == 0 <==> entryTurn)
    ensures i in Iterate(col, rows, pos, entryTurn, FromRow, FromRow).1 <==> pos <= i < rows && ((i - pos) % 2 == 0 <==> !entryTurn)
    decreases rows - pos
  {
    FromRowIsBounded();
    if pos < rows {
      IterateSingleStep(col, rows, pos, entryTurn, FromRow, FromRow, pos);
      IterateFromRowAlternates(col, rows, pos + 1, !entryTurn, i);
      if pos < i {
        assert (i - pos) % 2 == 0 <==> (i - (pos + 1)) % 2 != 0;
      }
    }
  }

  /** `c` holds signals exactly on the rows of parity `odd`. */
  predicate Alternates(c: Column, odd: bool) {
    forall i :: 0 <= i < |c| ==> (c[i] <==> (i % 2 == 1) == odd)
  }

  /** The five-row column that alternates with parity `odd`. */
  lemma ParityColumn(c: Column, odd: bool)
    requires |c| == 5 && Alternates(c, odd)
    ensures c == if odd then [false, true, false, true, false] else [true, false, true, false, true]
  {
    assert c[0] == !odd && c[1] == odd && c[2] == !odd && c[3] == odd && c[4] == !odd;
  }

  /** The marked entries and exits of one column of the iterative example alternate from row 0. */
  lemma AlternatingMarks(col: nat, rows: nat)
    ensures Bounded(FromRow)
    ensures Alternates(Mark(rows, Iterate(col, rows, 0, true, FromRow, FromRow).0), false)
    ensures Alternates(Mark(rows, Iterate(col, rows, 0, true, FromRow, FromRow).1), true)
  {
    FromRowIsBounded();
    var r := Iterate(col, rows, 0, true, FromRow, FromRow);
    forall i | 0 <= i < rows
      ensures (Mark(rows, r.0)[i] <==> i % 2 == 0) && (Mark(rows, r.1)[i] <==> i % 2 == 1)
    {
      IterateFromRowAlternates(col, rows, 0, true, i);
    }
  }

  /** One column of the iterative example: entries on the even rows, exits on the odd ones. */
  lemma AlternatingColumn(col: nat, rows: nat)
    requires rows == 5
    ensures Bounded(FromRow)
    ensures Mark(rows, Iterate(col, rows, 0, true, FromRow, FromRow).0) == [true, false, true, false, true]
    ensures Mark(rows, Iterate(col, rows, 0, true, FromRow, FromRow).1) == [false, true, false, true, false]
  {
    AlternatingMarks(col, rows);
    var r := Iterate(col, rows, 0, true, FromRow, FromRow);
    ParityColumn(Mark(rows, r.0), false);
    ParityColumn(Mark(rows, r.1), true);
  }

  /** `generate_iteratively((5, 3), first row, first row)`: alternating entries and exits in every column. */
  lemma GenerateIterativelyTable()
    ensures Bounded(FromRow) && GenerateIteratively(Dims([5, 3]), FromRow, FromRow) ==
      Success(([[true, false, true, false, true], [true, false, true, false, true], [true, false, true, false, true]],
               [[false, true, false, true, false], [false, true, false, true, false], [false, true, false, true, false]]))
  {
    FromRowIsBounded();
    assert NormalizeShape(Dims([5, 3])) == Success((5, 3));
    var r := GenerateIteratively(Dims([5, 3]), FromRow, FromRow).value;
    var rows := NormalizeShape(Dims([5, 3])).value.0;
    forall j | 0 <= j < 3
      ensures r.0[j] == [true, false, true, false, true] && r.1[j] == [false, true, false, true, false]
    {
      AlternatingColumn(j, rows);
    }
    Three(r.0, r.0[0], r.0[1], r.0[2]);
    Three(r.1, r.1[0], r.1[1], r.1[2]);
  }
}
