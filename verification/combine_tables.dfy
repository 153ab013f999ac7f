/**
 * The worked table of `Signals_Accessor.OR` with `concat=True`, re-derived
 * from the model on the documentation's frame.
 */
module CombineTables {
  import opened Signals
  import opened Combinators
  import opened DocTables

  /** `ts > x`, cell by cell. */
  function Above(ts: seq<seq<real>>, x: real): (r: Matrix)
    ensures |r| == |ts| && forall j :: 0 <= j < |ts| ==> |r[j]| == |ts[j]|
  {
    seq(|ts|, j requires 0 <= j < |ts| => seq(|ts[j]|, i requires 0 <= i < |ts[j]| => ts[j][i] > x))
  }

  /** Two OR blocks whose results `outs` are the same for both others. */
  lemma OrTwoBlocks(m: Matrix, others: seq<Matrix>, outs: Matrix)
    requires AllShaped(m, others) && |m| == 3 && |others| == 2 && |outs| == 3
    requires forall j :: 0 <= j < 3 ==> |outs[j]| == |m[j]|
    requires forall k, j, i :: 0 <= k < 2 && 0 <= j < 3 && 0 <= i < |m[j]| ==> (outs[j][i] <==> m[j][i] || others[k][j][i])
    ensures CombineEach(Or, m, others) == outs + outs
  {
    var r := CombineEach(Or, m, others);
    forall n | 0 <= n < 6
      ensures r[n] == (outs + outs)[n]
    {
      var k := if n < 3 then 0 else 1;
      var j := n - 3 * k;
      assert n == k * 3 + j;
      CombineEachInOrder(Or, m, others, k, j);
      var c := Combine(Or, m, others[k]);
      assert forall i :: 0 <= i < |m[j]| ==> c[j][i] == outs[j][i];
    }
  }

  /** `signals.vbt.signals.OR(ts > 1, ts > 2, concat=True)`. */
  lemma OrConcatTable()
    ensures AllShaped(Sig, [Above(Ts, 1.0), Above(Ts, 2.0)])
    ensures CombineEach(Or, Sig, [Above(Ts, 1.0), Above(Ts, 2.0)]) ==
      [[false, true, true, true, true], [true, true, true, true, false], [true, true, true, true, true],
       [false, true, true, true, true], [true, true, true, true, false], [true, true, true, true, true]]
  {
    var others := [Above(Ts, 1.0), Above(Ts, 2.0)];
    var outs := [[false, true, true, true, true], [true, true, true, true, false], [true, true, true, true, true]];
    assert AllShaped(Sig, others);
    OrTwoBlocks(Sig, others, outs);
  }
}
