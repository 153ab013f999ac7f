/**
 * Boolean algebra across signal matrices (`Signals_Accessor.AND`, `OR`,
 * `XOR`).  Without `concat` the others are folded into the receiver one by
 * one; with `concat` the receiver is combined with each of them separately
 * and the results are placed side by side.
 */
module Combinators {
  import opened Signals

  /** The elementwise operation. */
  datatype BoolOp = And | Or | Xor

  /** The operation on two cells. */
  function Apply(op: BoolOp, a: bool, b: bool): bool {
    match op
    case And => a && b
    case Or => a || b
    case Xor => a != b
  }

  /** Two equally shaped matrices combined cell by cell. */
  function Combine(op: BoolOp, a: Matrix, b: Matrix): (r: Matrix)
    requires SameShape(a, b)
    ensures SameShape(r, a)
    ensures forall j, i :: 0 <= j < |a| && 0 <= i < |a[j]| ==> r[j][i] == Apply(op, a[j][i], b[j][i])
  {
    seq(|a|, j requires 0 <= j < |a| => seq(|a[j]|, i requires 0 <= i < |a[j]| => Apply(op, a[j][i], b[j][i])))
  }

  /** Every matrix of `others` has the shape of `m`. */
  predicate AllShaped(m: Matrix, others: seq<Matrix>) {
    forall k :: 0 <= k < |others| ==> SameShape(m, others[k])
  }

  /** `combine_with_multiple` without `concat`: `op(...op(op(m, o1), o2)..., on)`. */
  function CombineAll(op: BoolOp, m: Matrix, others: seq<Matrix>): (r: Matrix)
    requires AllShaped(m, others)
    ensures SameShape(r, m)
    decreases |others|
  {
    if |others| == 0 then m
    else
      var init := others[..|others| - 1];
      assert AllShaped(m, init) by {
        assert forall k :: 0 <= k < |init| ==> init[k] == others[k];
      }
      Combine(op, CombineAll(op, m, init), others[|others| - 1])
  }

  /** `combine_with_multiple` with `concat`: the blocks `op(m, o1), ..., op(m, on)` side by side. */
  function CombineEach(op: BoolOp, m: Matrix, others: seq<Matrix>): (r: Matrix)
    requires AllShaped(m, others)
    ensures |r| == |others| * |m|
    decreases |others|
  {
    if |others| == 0 then []
    else
      var init := others[..|others| - 1];
      assert AllShaped(m, init) by {
        assert forall k :: 0 <= k < |init| ==> init[k] == others[k];
      }
      var r := CombineEach(op, m, init) + Combine(op, m, others[|others| - 1]);
      assert |others| * |m| == (|others| - 1) * |m| + |m|;
      r
  }

  /** `AND`: a cell is set when it is set in the receiver and in every other matrix. */
  lemma {:induction false} AndIsAll(m: Matrix, others: seq<Matrix>, j: nat, i: nat)
    requires AllShaped(m, others)
    requires j < |m| && i < |m[j]|
    ensures CombineAll(And, m, others)[j][i] <==> m[j][i] && forall k :: 0 <= k < |others| ==> others[k][j][i]
    decreases |others|
  {
    if |others| > 0 {
      var init := others[..|others| - 1];
      AndIsAll(m, init, j, i);
      assert forall k :: 0 <= k < |init| ==> init[k] == others[k];
    }
  }

  /** `OR`: a cell is set when it is set in the receiver or in some other matrix. */
  lemma {:induction false} OrIsAny(m: Matrix, others: seq<Matrix>, j: nat, i: nat)
    requires AllShaped(m, others)
    requires j < |m| && i < |m[j]|
    ensures CombineAll(Or, m, others)[j][i] <==> m[j][i] || exists k :: 0 <= k < |others| && others[k][j][i]
    decreases |others|
  {
    if |others| > 0 {
      var init := others[..|others| - 1];
      OrIsAny(m, init, j, i);
      assert forall k :: 0 <= k < |init| ==> init[k] == others[k];
    }
  }

  /** Number of the matrices in `ms` whose cell `(j, i)` is set. */
  function CountSet(ms: seq<Matrix>, j: nat, i: nat): nat
    requires forall k :: 0 <= k < |ms| ==> j < |ms[k]| && i < |ms[k][j]|
  {
    if |ms| == 0 then 0 else CountSet(ms[..|ms| - 1], j, i) + (if ms[|ms| - 1][j][i] then 1 else 0)
  }

  /** `XOR`: a cell is set when an odd number of the receiver and the others have it set. */
  lemma {:induction false} XorIsParity(m: Matrix, others: seq<Matrix>, j: nat, i: nat)
    requires AllShaped(m, others)
    requires j < |m| && i < |m[j]|
    ensures CombineAll(Xor, m, others)[j][i] <==> CountSet([m] + others, j, i) % 2 == 1
    decreases |others|
  {
    if |others| > 0 {
      var init := others[..|others| - 1];
      XorIsParity(m, init, j, i);
      assert ([m] + others)[..|others|] == [m] + init;
    }
  }

  /** Block `k` of the `concat` form is the receiver combined with the `k`-th other matrix alone. */
  lemma {:induction false} CombineEachInOrder(op: BoolOp, m: Matrix, others: seq<Matrix>, k: nat, j: nat)
    requires AllShaped(m, others)
    requires k < |others| && j < |m|
    ensures k * |m| + j < |CombineEach(op, m, others)|
    ensures CombineEach(op, m, others)[k * |m| + j] == Combine(op, m, others[k])[j]
    decreases |others|
  {
    var n := |others|;
    var init := others[..n - 1];
    BlockIndex(k, j, |m|, n);
    if k < n - 1 {
      assert AllShaped(m, init) by {
        assert forall l :: 0 <= l < |init| ==> init[l] == others[l];
      }
      CombineEachInOrder(op, m, init, k, j);
      assert init[k] == others[k];
    }
  }

  /** Folding the others in two batches, `a` and then `b`, is folding `a + b` at once. */
  lemma {:induction false} CombineAllSplit(op: BoolOp, m: Matrix, a: seq<Matrix>, b: seq<Matrix>)
    requires AllShaped(m, a + b)
    ensures AllShaped(m, a) && AllShaped(CombineAll(op, m, a), b)
    ensures CombineAll(op, CombineAll(op, m, a), b) == CombineAll(op, m, a + b)
    decreases |b|
  {
    assert forall k :: 0 <= k < |a| ==> a[k] == (a + b)[k];
    assert forall k :: 0 <= k < |b| ==> b[k] == (a + b)[|a| + k];
    if |b| == 0 {
      assert a + b == a;
    } else {
      var binit := b[..|b| - 1];
      assert (a + b)[..|a + b| - 1] == a + binit;
      assert (a + b)[|a + b| - 1] == b[|b| - 1];
      CombineAllSplit(op, m, a, binit);
    }
  }
}
