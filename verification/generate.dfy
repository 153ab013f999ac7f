/**
 * Span-driven signal generation (`Signals_Accessor.generate`,
 * `generate_after`, `generate_iteratively`, `generate_random`,
 * `generate_random_after`).  A choice function is a caller-supplied,
 * deterministic callable `(col, from_i, to_i)` that names the rows of
 * `[from_i, to_i)` to mark.
 */
module Generation {
  import opened Results
  import opened Signals

  /** `choice_func_nb(col, from_i, to_i)`: the rows to mark. */
  type Choice = (nat, nat, nat) -> set<nat>

  /** The caller's obligation: every row a choice function names lies inside the offered range. */
  ghost predicate Bounded(choice: Choice) {
    forall col: nat, from: nat, until: nat, i: nat :: i in choice(col, from, until) ==> from <= i < until
  }

  /** Why a generation call is rejected. */
  datatype GenError = BadShape | ProbLengthMismatch

  /** The `shape` argument: a bare row count or a tuple of dimensions. */
  datatype ShapeArg = Rows(n: nat) | Dims(dims: seq<nat>)

  /**
   * The shape as `(rows, columns)`: a bare number and a 1-tuple mean one
   * column; a 2-tuple is taken as is; any other tuple is rejected.
   */
  function NormalizeShape(shape: ShapeArg): (r: Result<(nat, nat), GenError>)
    ensures r.Success? <==> shape.Rows? || |shape.dims| in {1, 2}
    ensures r.Success? && shape.Rows? ==> r.value == (shape.n, 1)
    ensures r.Success? && shape.Dims? ==> r.value.0 == shape.dims[0]
    ensures r.Success? && shape.Dims? && |shape.dims| == 2 ==> r.value.1 == shape.dims[1]
    ensures r.Success? && shape.Dims? && |shape.dims| == 1 ==> r.value.1 == 1
  {
    match shape
    case Rows(n) => Success((n, 1))
    case Dims(dims) =>
      if |dims| == 1 then Success((dims[0], 1))
      else if |dims| == 2 then Success((dims[0], dims[1]))
      else Failure(BadShape)
  }

  /** A column of `rows` rows with a signal exactly at the rows in `s`. */
  function Mark(rows: nat, s: set<nat>): (c: Column)
    ensures |c| == rows
  {
    seq(rows, i requires 0 <= i < rows => i in s)
  }

  /** Row `i` of a marked column is set exactly when `i` is in the set. */
  lemma MarkAt(rows: nat, s: set<nat>, i: nat)
    requires i < rows
    ensures Mark(rows, s)[i] == (i in s)
  {
  }

  /** Marking a set of in-range rows and reading the signals back gives the set. */
  lemma MarkRoundTrip(rows: nat, s: set<nat>)
    requires forall i :: i in s ==> i < rows
    ensures SignalSet(Mark(rows, s)) == s
  {
  }

  /** `generate`: column `j` holds the rows `choice(j, 0, rows)`. */
  function Generate(shape: ShapeArg, choice: Choice): (r: Result<Matrix, GenError>)
    requires Bounded(choice)
    ensures r.Success? <==> NormalizeShape(shape).Success?
    ensures r.Success? ==> IsShape(r.value, NormalizeShape(shape).value.0) && |r.value| == NormalizeShape(shape).value.1
    ensures r.Success? ==> forall j :: 0 <= j < |r.value| ==> SignalSet(r.value[j]) == choice(j, 0, |r.value[j]|)
  {
    match NormalizeShape(shape)
    case Failure(e) => Failure(e)
    case Success(dims) =>
      var m := seq(dims.1, j requires 0 <= j < dims.1 => Mark(dims.0, choice(j, 0, dims.0)));
      assert forall j :: 0 <= j < |m| ==> SignalSet(m[j]) == choice(j, 0, dims.0) by {
        forall j | 0 <= j < |m|
          ensures SignalSet(m[j]) == choice(j, 0, dims.0)
        {
          MarkRoundTrip(dims.0, choice(j, 0, dims.0));
        }
      }
      Success(m)
  }

  /** The range after each signal: from the next row up to the next signal, or to the end. */
  function AfterSpans(c: Column): (r: seq<Span>)
    ensures |r| == Count(c)
  {
    var idx := SignalIndices(c);
    seq(|idx|, k requires 0 <= k < |idx| => Span(idx[k] + 1, NextSignal(c, idx[k] + 1)))
  }

  /** The rows a choice function names over the ranges `spans` of column `col`. */
  function Chosen(col: nat, spans: seq<Span>, choice: Choice): set<nat> {
    if |spans| == 0 then {}
    else Chosen(col, spans[..|spans| - 1], choice) + choice(col, spans[|spans| - 1].from, spans[|spans| - 1].to)
  }

  /** Every row named over one of the ranges is chosen. */
  lemma {:induction false} ChosenContains(col: nat, spans: seq<Span>, choice: Choice, k: nat, i: nat)
    requires k < |spans| && i in choice(col, spans[k].from, spans[k].to)
    ensures i in Chosen(col, spans, choice)
  {
    if k < |spans| - 1 {
      ChosenContains(col, spans[..|spans| - 1], choice, k, i);
    }
  }

  /** Every chosen row was named over one of the ranges. */
  lemma {:induction false} ChosenFrom(col: nat, spans: seq<Span>, choice: Choice, i: nat) returns (k: nat)
    requires i in Chosen(col, spans, choice)
    ensures k < |spans| && i in choice(col, spans[k].from, spans[k].to)
  {
    var n := |spans| - 1;
    if i in choice(col, spans[n].from, spans[n].to) {
      k := n;
    } else {
      k := ChosenFrom(col, spans[..n], choice, i);
    }
  }

  /** One column of `generate_after`. */
  function AfterColumn(col: nat, c: Column, choice: Choice): (r: Column)
    ensures |r| == |c|
  {
    Mark(|c|, Chosen(col, AfterSpans(c), choice))
  }

  /** `generate_after`: a fresh matrix with the rows chosen in the range after every signal. */
  function GenerateAfter(m: Matrix, choice: Choice): (r: Matrix)
    ensures SameShape(r, m)
  {
    seq(|m|, j requires 0 <= j < |m| => AfterColumn(j, m[j], choice))
  }

  /** The range offered after signal `s` reaches up to the next signal and excludes it. */
  lemma AfterSpanOfSignal(c: Column, s: nat) returns (k: nat)
    requires s < |c| && c[s]
    ensures k < |AfterSpans(c)| && AfterSpans(c)[k] == Span(s + 1, NextSignal(c, s + 1))
  {
    var idx := SignalIndices(c);
    assert s in idx;
    k :| 0 <= k < |idx| && idx[k] == s;
  }

  /** Every offered range starts right after a signal `s` and ends at the next one. */
  lemma AfterSpanIsOfSignal(c: Column, k: nat) returns (s: nat)
    requires k < |AfterSpans(c)|
    ensures s < |c| && c[s] && AfterSpans(c)[k] == Span(s + 1, NextSignal(c, s + 1))
  {
    s := SignalIndices(c)[k];
  }

  /** A row marked by `generate_after` was named in the range after some signal. */
  lemma AfterColumnSound(col: nat, c: Column, choice: Choice, i: nat)
    requires i < |c| && AfterColumn(col, c, choice)[i]
    ensures exists s :: 0 <= s < |c| && c[s] && i in choice(col, s + 1, NextSignal(c, s + 1))
  {
    var k := ChosenFrom(col, AfterSpans(c), choice, i);
    var s := AfterSpanIsOfSignal(c, k);
    assert c[s] && i in choice(col, s + 1, NextSignal(c, s + 1));
  }

  /** A row named in the range after a signal is marked by `generate_after`. */
  lemma AfterColumnComplete(col: nat, c: Column, choice: Choice, i: nat, s: nat)
    requires i < |c| && s < |c| && c[s] && i in choice(col, s + 1, NextSignal(c, s + 1))
    ensures AfterColumn(col, c, choice)[i]
  {
    var k := AfterSpanOfSignal(c, s);
    AfterColumnHas(col, c, choice, k, i);
  }

  /** A row named over the `k`-th offered range is marked by `generate_after`. */
  lemma AfterColumnHas(col: nat, c: Column, choice: Choice, k: nat, i: nat)
    requires i < |c| && k < |AfterSpans(c)|
    requires i in choice(col, AfterSpans(c)[k].from, AfterSpans(c)[k].to)
    ensures AfterColumn(col, c, choice)[i]
  {
    ChosenContains(col, AfterSpans(c), choice, k, i);
    MarkAt(|c|, Chosen(col, AfterSpans(c), choice), i);
  }

  /**
   * A row of the `generate_after` output is set exactly when the choice
   * function names it in the range after some signal `s`.
   */
  lemma AfterColumnChosen(col: nat, c: Column, choice: Choice, i: nat)
    requires i < |c|
    ensures AfterColumn(col, c, choice)[i] <==>
      exists s :: 0 <= s < |c| && c[s] && i in choice(col, s + 1, NextSignal(c, s + 1))
  {
    if AfterColumn(col, c, choice)[i] {
      AfterColumnSound(col, c, choice, i);
    }
    if s :| 0 <= s < |c| && c[s] && i in choice(col, s + 1, NextSignal(c, s + 1)) {
      AfterColumnComplete(col, c, choice, i, s);
    }
  }

  /**
   * With a bounded choice function, `generate_after` never marks a row that
   * holds a signal, nor a row before the first signal: every output row lies
   * strictly after a signal and before the next one.
   */
  lemma GenerateAfterOnlyInGaps(m: Matrix, choice: Choice, j: nat, i: nat)
    requires Bounded(choice)
    requires j < |m| && i < |m[j]|
    requires GenerateAfter(m, choice)[j][i]
    ensures !m[j][i]
    ensures exists s :: 0 <= s < i && m[j][s] && forall k :: s < k <= i ==> !m[j][k]
  {
    var c := m[j];
    assert GenerateAfter(m, choice)[j] == AfterColumn(j, c, choice);
    AfterColumnSound(j, c, choice, i);
    var s :| 0 <= s < |c| && c[s] && i in choice(j, s + 1, NextSignal(c, s + 1));
    assert s + 1 <= i < NextSignal(c, s + 1);
  }

  /** The choice function that names every offered row (`np.arange(from_i, to_i)`). */
  function Arange(col: nat, from: nat, until: nat): (r: set<nat>)
    ensures forall i :: (i in r <==> from <= i < until)
    decreases (until as int) - (from as int)
  {
    if from >= until then {} else {from} + Arange(col, from + 1, until)
  }

  /**
   * `generate_after` with `Arange` fills every row without a signal that
   * comes after the first signal, and nothing else.
   */
  lemma GenerateAfterArangeFillsGaps(m: Matrix, j: nat, i: nat)
    requires j < |m| && i < |m[j]|
    ensures GenerateAfter(m, Arange)[j][i] <==> !m[j][i] && NextSignal(m[j], 0) < i
  {
    var c := m[j];
    assert GenerateAfter(m, Arange)[j] == AfterColumn(j, c, Arange);
    if AfterColumn(j, c, Arange)[i] {
      AfterColumnSound(j, c, Arange, i);
      var s :| 0 <= s < |c| && c[s] && i in Arange(j, s + 1, NextSignal(c, s + 1));
      assert s < i;
    }
    if !c[i] && NextSignal(c, 0) < i {
      var s := LastSignalBefore(c, i);
      assert NextSignal(c, s + 1) > i;
      AfterColumnComplete(j, c, Arange, i, s);
    }
  }

  /** The last signal strictly before row `i`, given that there is one. */
  function LastSignalBefore(c: Column, i: nat): (s: nat)
    requires i <= |c| && NextSignal(c, 0) < i
    ensures s < i && c[s]
    ensures forall k :: s < k < i ==> !c[k]
    decreases i
  {
    if c[i - 1] then i - 1 else LastSignalBefore(c, i - 1)
  }

  /** Two choice functions that agree on every range offered after a signal give the same `generate_after` column. */
  lemma AfterColumnDependsOnOfferedRanges(col: nat, c: Column, choice1: Choice, choice2: Choice)
    requires forall s :: 0 <= s < |c| && c[s] ==>
      choice1(col, s + 1, NextSignal(c, s + 1)) == choice2(col, s + 1, NextSignal(c, s + 1))
    ensures AfterColumn(col, c, choice1) == AfterColumn(col, c, choice2)
  {
    forall i | 0 <= i < |c|
      ensures AfterColumn(col, c, choice1)[i] == AfterColumn(col, c, choice2)[i]
    {
      AfterColumnChosen(col, c, choice1, i);
      AfterColumnChosen(col, c, choice2, i);
    }
  }

  /** Number of rows in `[from, until)`. */
  function Width(from: nat, until: nat): nat {
    if until <= from then 0 else until - from
  }

  /** The smaller of two counts. */
  function Min(a: nat, b: nat): nat {
    if a <= b then a else b
  }

  /**
   * How many rows of a range of `width` rows can be marked when marks must
   * be `minSpace + 1` rows apart: the first row, then as many as fit in the
   * rows left after the gap.
   */
  function Capacity(width: nat, minSpace: nat): nat
    decreases width
  {
    if width == 0 then 0 else 1 + Capacity(Width(minSpace + 1, width), minSpace)
  }

  /** A wider range holds at least as many marks. */
  lemma {:induction false} CapacityMonotone(w1: nat, w2: nat, minSpace: nat)
    requires w1 <= w2
    ensures Capacity(w1, minSpace) <= Capacity(w2, minSpace)
    decreases w2
  {
    if w1 > 0 {
      CapacityMonotone(Width(minSpace + 1, w1), Width(minSpace + 1, w2), minSpace);
    }
  }

  /** Any two marked rows are at least `minSpace + 1` rows apart. */
  ghost predicate Spaced(s: set<nat>, minSpace: nat) {
    forall a, b :: a in s && b in s && a < b ==> b - a >= minSpace + 1
  }

  /**
   * What one random draw over `[from, until)` promises: rows inside the range,
   * spaced by `min_space`, and as many as drawn (`n`) unless fewer fit.
   */
  ghost predicate RandomPlacement(s: set<nat>, from: nat, until: nat, n: nat, minSpace: nat) {
    (forall i :: i in s ==> from <= i < until) && Spaced(s, minSpace) && |s| == Min(n, Capacity(Width(from, until), minSpace))
  }

  /** A choice function standing for the seeded draw: every call places a count taken from `nRange`. */
  ghost predicate RandomDraw(draw: Choice, nRange: seq<nat>, minSpace: nat) {
    forall col: nat, from: nat, until: nat :: exists k :: 0 <= k < |nRange| && RandomPlacement(draw(col, from, until), from, until, nRange[k], minSpace)
  }

  /** A choice function assumed to behave as `RandomDraw` names only offered rows. */
  lemma RandomDrawIsBounded(draw: Choice, nRange: seq<nat>, minSpace: nat)
    requires RandomDraw(draw, nRange, minSpace)
    ensures Bounded(draw)
  {
    forall col: nat, from: nat, until: nat, i: nat | i in draw(col, from, until)
      ensures from <= i < until
    {
      var k :| 0 <= k < |nRange| && RandomPlacement(draw(col, from, until), from, until, nRange[k], minSpace);
    }
  }

  /** The smallest element of a non-empty set of rows below `until`. */
  function SmallestIn(s: set<nat>, from: nat, until: nat): (r: nat)
    requires exists i :: i in s && from <= i < until
    requires forall i :: i in s ==> from <= i
    ensures r in s && (forall i :: i in s ==> r <= i)
    decreases (until as int) - (from as int)
  {
    if from in s then from else SmallestIn(s, from + 1, until)
  }

  /** Dropping rows from a spaced set keeps it spaced. */
  lemma SpacedSubset(s: set<nat>, t: set<nat>, minSpace: nat)
    requires Spaced(s, minSpace) && t <= s
    ensures Spaced(t, minSpace)
  {
  }

  /**
   * No spaced set inside `[from, until)` has more than `Capacity` rows, so a
   * placement of `Min(n, Capacity)` rows places as many as fit.
   */
  lemma {:induction false} SpacedFitsCapacity(s: set<nat>, from: nat, until: nat, minSpace: nat)
    requires forall i :: i in s ==> from <= i < until
    requires Spaced(s, minSpace)
    ensures |s| <= Capacity(Width(from, until), minSpace)
    decreases |s|
  {
    if s != {} {
      var x :| x in s;
      var m := SmallestIn(s, from, until);
      var rest := s - {m};
      forall i | i in rest
        ensures m + minSpace + 1 <= i < until
      {
        assert m < i;
      }
      SpacedSubset(s, rest, minSpace);
      SpacedFitsCapacity(rest, m + minSpace + 1, until, minSpace);
      assert Width(minSpace + 1, Width(from, until)) == Width(from + minSpace + 1, until);
      CapacityMonotone(Width(m + minSpace + 1, until), Width(from + minSpace + 1, until), minSpace);
    }
  }

  /** The `min_space` argument; `None` allows adjacent rows. */
  function MinSpace(minSpace: Option<nat>): nat {
    if minSpace.Some? then minSpace.value else 0
  }

  /** The signals of column `c` are one random placement over all its rows. */
  ghost predicate DrawnColumn(c: Column, nRange: seq<nat>, minSpace: nat) {
    exists k :: 0 <= k < |nRange| && RandomPlacement(SignalSet(c), 0, |c|, nRange[k], minSpace)
  }

  /**
   * Every column `generate` builds from a choice function that behaves as
   * `RandomDraw` is one placement.  The placement law of each call is the
   * `RandomDraw` assumption about the seeded choice kernel, not something
   * proved of it here; what is proved is that `generate` keeps it.
   */
  lemma GenerateDrawsPlacements(shape: ShapeArg, nRange: seq<nat>, minSpace: nat, draw: Choice, m: Matrix)
    requires RandomDraw(draw, nRange, minSpace)
    requires Bounded(draw)
    requires Generate(shape, draw) == Success(m)
    ensures forall j :: 0 <= j < |m| ==> DrawnColumn(m[j], nRange, minSpace)
  {
    forall j | 0 <= j < |m|
      ensures DrawnColumn(m[j], nRange, minSpace)
    {
      var k :| 0 <= k < |nRange| && RandomPlacement(draw(j, 0, |m[j]|), 0, |m[j]|, nRange[k], minSpace);
      assert SignalSet(m[j]) == draw(j, 0, |m[j]|);
    }
  }

  /**
   * `generate_random`: `n_prob`, when given, must have one weight per entry
   * of `n_range`; that is checked before the shape is used.  Every column is
   * one random draw over all its rows.
   */
  function GenerateRandom(shape: ShapeArg, nRange: seq<nat>, nProb: Option<seq<real>>, minSpace: Option<nat>, draw: Choice)
    : (r: Result<Matrix, GenError>)
    requires RandomDraw(draw, nRange, MinSpace(minSpace))
    ensures nProb.Some? && |nProb.value| != |nRange| ==> r == Failure(ProbLengthMismatch)
    ensures r.Success? <==> (nProb.None? || |nProb.value| == |nRange|) && NormalizeShape(shape).Success?
    ensures r.Success? ==> forall j :: 0 <= j < |r.value| ==> DrawnColumn(r.value[j], nRange, MinSpace(minSpace))
  {
    if nProb.Some? && |nProb.value| != |nRange| then Failure(ProbLengthMismatch)
    else
      RandomDrawIsBounded(draw, nRange, MinSpace(minSpace));
      var r := Generate(shape, draw);
      if r.Success? then
        GenerateDrawsPlacements(shape, nRange, MinSpace(minSpace), draw, r.value);
        r
      else r
  }

  /**
   * `generate_random_after`: the same `n_prob` check, then one random draw
   * in the range after every signal.
   */
  function GenerateRandomAfter(m: Matrix, nRange: seq<nat>, nProb: Option<seq<real>>, minSpace: Option<nat>, draw: Choice)
    : (r: Result<Matrix, GenError>)
    requires RandomDraw(draw, nRange, MinSpace(minSpace))
    ensures r.Failure? <==> nProb.Some? && |nProb.value| != |nRange|
    ensures r.Failure? ==> r.error == ProbLengthMismatch
    ensures r.Success? ==> SameShape(r.value, m)
    ensures r.Success? ==> r.value == GenerateAfter(m, draw)
  {
    if nProb.Some? && |nProb.value| != |nRange| then Failure(ProbLengthMismatch)
    else Success(GenerateAfter(m, draw))
  }

  /** A placement in a range of at most one row is that row, if any. */
  lemma PlacementOfOneInNarrowRange(s: set<nat>, from: nat, until: nat, minSpace: nat)
    requires until <= from + 1
    requires RandomPlacement(s, from, until, 1, minSpace)
    ensures s == Arange(0, from, until)
  {
    if from < until {
      var x :| x in s;
      assert x == from;
      assert s - {x} == {} by {
        assert |s - {x}| == 0;
      }
    } else {
      assert s == {};
    }
  }

  /**
   * When no range after a signal is wider than one row, drawing one row per
   * range (`generate_random_after(1)`) marks the same rows as `Arange`.
   */
  lemma RandomAfterOneFillsNarrowGaps(m: Matrix, nProb: Option<seq<real>>, minSpace: Option<nat>, draw: Choice)
    requires RandomDraw(draw, [1], MinSpace(minSpace))
    requires nProb.None? || |nProb.value| == 1
    requires forall j, s :: 0 <= j < |m| && 0 <= s < |m[j]| && m[j][s] ==> NextSignal(m[j], s + 1) <= s + 2
    ensures GenerateRandomAfter(m, [1], nProb, minSpace, draw) == Success(GenerateAfter(m, Arange))
  {
    forall j | 0 <= j < |m|
      ensures AfterColumn(j, m[j], draw) == AfterColumn(j, m[j], Arange)
    {
      var c := m[j];
      forall s | 0 <= s < |c| && c[s]
        ensures draw(j, s + 1, NextSignal(c, s + 1)) == Arange(j, s + 1, NextSignal(c, s + 1))
      {
        var until := NextSignal(c, s + 1);
        var k :| 0 <= k < 1 && RandomPlacement(draw(j, s + 1, until), s + 1, until, [1][k], MinSpace(minSpace));
        PlacementOfOneInNarrowRange(draw(j, s + 1, until), s + 1, until, MinSpace(minSpace));
      }
      AfterColumnDependsOnOfferedRanges(j, c, draw, Arange);
    }
    assert GenerateAfter(m, draw) == GenerateAfter(m, Arange);
  }

  /** The rows in `[from, until)` that `out` marks. */
  function MarksIn(out: Column, from: nat, until: nat): (r: set<nat>)
    requires until <= |out|
    ensures forall i :: i in r <==> from <= i < until && out[i]
  {
    set i: nat | from <= i < until && out[i]
  }

  /**
   * With a bounded choice function, the rows `generate_after` marks in the
   * range after signal `s` are exactly the rows chosen for that range: the
   * ranges after different signals do not overlap.
   */
  lemma AfterGapMarks(col: nat, c: Column, choice: Choice, s: nat)
    requires Bounded(choice)
    requires s < |c| && c[s]
    ensures MarksIn(AfterColumn(col, c, choice), s + 1, NextSignal(c, s + 1)) == choice(col, s + 1, NextSignal(c, s + 1))
  {
    var until := NextSignal(c, s + 1);
    var chosen := choice(col, s + 1, until);
    var marks := MarksIn(AfterColumn(col, c, choice), s + 1, until);
    forall i | i in chosen
      ensures i in marks
    {
      AfterColumnComplete(col, c, choice, i, s);
    }
    forall i | i in marks
      ensures i in chosen
    {
      AfterColumnSound(col, c, choice, i);
      var t :| 0 <= t < |c| && c[t] && i in choice(col, t + 1, NextSignal(c, t + 1));
      assert t + 1 <= i < NextSignal(c, t + 1);
      if t < s {
        assert false;
      } else if s < t {
        assert false;
      }
    }
  }

  /**
   * `generate_random_after`: in every column, the rows marked in the range
   * after each signal are one random placement over that range, with a
   * count taken from `nRange`; nothing is marked outside these ranges
   * (`GenerateAfterOnlyInGaps`).  As for `generate_random`, the law of each
   * single draw is the `RandomDraw` assumption about the seeded kernel.
   */
  lemma GenerateRandomAfterPlacements(m: Matrix, nRange: seq<nat>, nProb: Option<seq<real>>, minSpace: Option<nat>, draw: Choice, j: nat, s: nat)
    requires RandomDraw(draw, nRange, MinSpace(minSpace))
    requires GenerateRandomAfter(m, nRange, nProb, minSpace, draw).Success?
    requires j < |m| && s < |m[j]| && m[j][s]
    ensures exists k :: 0 <= k < |nRange| &&
              RandomPlacement(MarksIn(GenerateRandomAfter(m, nRange, nProb, minSpace, draw).value[j], s + 1, NextSignal(m[j], s + 1)),
                              s + 1, NextSignal(m[j], s + 1), nRange[k], MinSpace(minSpace))
  {
    var until := NextSignal(m[j], s + 1);
    RandomDrawIsBounded(draw, nRange, MinSpace(minSpace));
    assert GenerateRandomAfter(m, nRange, nProb, minSpace, draw).value[j] == AfterColumn(j, m[j], draw);
    AfterGapMarks(j, m[j], draw, s);
    var k :| 0 <= k < |nRange| && RandomPlacement(draw(j, s + 1, until), s + 1, until, nRange[k], MinSpace(minSpace));
  }

  /** The largest element of `s` below `bound`, given that there is one. */
  function LargestIn(s: set<nat>, bound: nat): (r: nat)
    requires exists i :: i in s && i < bound
    ensures r in s && r < bound && (forall i :: i in s && i < bound ==> i <= r)
    decreases bound
  {
    if bound - 1 in s then bound - 1 else LargestIn(s, bound - 1)
  }

  /**
   * One column of `generate_iteratively` from row `pos`: on the entry turn
   * `choice1` names entries in `[pos, rows)`, otherwise `choice2` names
   * exits; the next turn starts one past the largest named row, and the
   * column ends when a call names nothing or `pos` reaches `rows`.
   * The result is (entries, exits).
   */
  function Iterate(col: nat, rows: nat, pos: nat, entryTurn: bool, choice1: Choice, choice2: Choice): (r: (set<nat>, set<nat>))
    requires Bounded(choice1) && Bounded(choice2)
    ensures forall i :: i in r.0 ==> pos <= i < rows
    ensures forall i :: i in r.1 ==> pos <= i < rows
    ensures r.0 !! r.1
    decreases rows - pos
  {
    if pos >= rows then ({}, {})
    else
      var picked := if entryTurn then choice1(col, pos, rows) else choice2(col, pos, rows);
      if picked == {} then ({}, {})
      else
        assert exists i :: i in picked && i < rows;
        var next := LargestIn(picked, rows) + 1;
        var rest := Iterate(col, rows, next, !entryTurn, choice1, choice2);
        if entryTurn then (picked + rest.0, rest.1) else (rest.0, picked + rest.1)
  }

  /**
   * Starting on the entry turn, every exit comes strictly after some entry
   * of the same column.
   */
  lemma {:induction false} ExitsFollowEntries(col: nat, rows: nat, pos: nat, choice1: Choice, choice2: Choice)
    requires Bounded(choice1) && Bounded(choice2)
    ensures forall x :: x in Iterate(col, rows, pos, true, choice1, choice2).1 ==>
      exists e :: e in Iterate(col, rows, pos, true, choice1, choice2).0 && e < x
    decreases rows - pos
  {
    var r := Iterate(col, rows, pos, true, choice1, choice2);
    if pos < rows && choice1(col, pos, rows) != {} {
      var entries := choice1(col, pos, rows);
      var x0 :| x0 in entries;
      var next := LargestIn(entries, rows) + 1;
      var r1 := Iterate(col, rows, next, false, choice1, choice2);
      assert r == (entries + r1.0, r1.1);
      if next < rows && choice2(col, next, rows) != {} {
        var exits := choice2(col, next, rows);
        var y0 :| y0 in exits;
        var next2 := LargestIn(exits, rows) + 1;
        var r2 := Iterate(col, rows, next2, true, choice1, choice2);
        assert r1 == (r2.0, exits + r2.1);
        ExitsFollowEntries(col, rows, next2, choice1, choice2);
        forall x | x in r.1
          ensures exists e :: e in r.0 && e < x
        {
          if x in exits {
            assert LargestIn(entries, rows) in r.0;
          } else {
            var e :| e in r2.0 && e < x;
            assert e in r.0;
          }
        }
      }
    }
  }

  /**
   * `generate_iteratively`: entries and exits alternate in every column,
   * starting with entries at row 0.
   */
  function GenerateIteratively(shape: ShapeArg, choice1: Choice, choice2: Choice): (r: Result<(Matrix, Matrix), GenError>)
    requires Bounded(choice1) && Bounded(choice2)
    ensures r.Success? <==> NormalizeShape(shape).Success?
    ensures r.Success? ==> SameShape(r.value.0, r.value.1) && |r.value.0| == NormalizeShape(shape).value.1
    ensures r.Success? ==> IsShape(r.value.0, NormalizeShape(shape).value.0)
    ensures r.Success? ==> forall j, i :: 0 <= j < |r.value.0| && 0 <= i < |r.value.0[j]| ==> !(r.value.0[j][i] && r.value.1[j][i])
  {
    match NormalizeShape(shape)
    case Failure(e) => Failure(e)
    case Success(dims) =>
      var rows := dims.0;
      var entries := seq(dims.1, j requires 0 <= j < dims.1 => Mark(rows, Iterate(j, rows, 0, true, choice1, choice2).0));
      var exits := seq(dims.1, j requires 0 <= j < dims.1 => Mark(rows, Iterate(j, rows, 0, true, choice1, choice2).1));
      Success((entries, exits))
  }

  /** In every column of `generate_iteratively`, each exit comes strictly after some entry. */
  lemma GenerateIterativelyExitAfterEntry(shape: ShapeArg, choice1: Choice, choice2: Choice, j: nat, x: nat)
    requires Bounded(choice1) && Bounded(choice2)
    requires GenerateIteratively(shape, choice1, choice2).Success?
    requires j < |GenerateIteratively(shape, choice1, choice2).value.1|
    requires x < |GenerateIteratively(shape, choice1, choice2).value.1[j]|
    requires GenerateIteratively(shape, choice1, choice2).value.1[j][x]
    ensures exists e :: 0 <= e < x && GenerateIteratively(shape, choice1, choice2).value.0[j][e]
  {
    var rows := NormalizeShape(shape).value.0;
    var r := Iterate(j, rows, 0, true, choice1, choice2);
    ExitsFollowEntries(j, rows, 0, choice1, choice2);
    var e :| e in r.0 && e < x;
    assert GenerateIteratively(shape, choice1, choice2).value.0[j][e];
  }

  /**
   * Min-space law: any two signals of a `generate_random` column are at
   * least `min_space + 1` rows apart, given that the seeded choice kernel
   * behaves as `RandomDraw` (an assumption about the kernel, not a proof of it).
   */
  lemma GenerateRandomMinSpaceLaw(shape: ShapeArg, nRange: seq<nat>, nProb: Option<seq<real>>, minSpace: Option<nat>, draw: Choice,
                                  j: nat, a: nat, b: nat)
    requires RandomDraw(draw, nRange, MinSpace(minSpace))
    requires GenerateRandom(shape, nRange, nProb, minSpace, draw).Success?
    requires j < |GenerateRandom(shape, nRange, nProb, minSpace, draw).value|
    requires a < b < |GenerateRandom(shape, nRange, nProb, minSpace, draw).value[j]|
    requires GenerateRandom(shape, nRange, nProb, minSpace, draw).value[j][a]
    requires GenerateRandom(shape, nRange, nProb, minSpace, draw).value[j][b]
    ensures b - a >= MinSpace(minSpace) + 1
  {
    var c := GenerateRandom(shape, nRange, nProb, minSpace, draw).value[j];
    assert DrawnColumn(c, nRange, MinSpace(minSpace));
    assert a in SignalSet(c) && b in SignalSet(c);
  }
}
