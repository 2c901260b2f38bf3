/** The shape constraint both selection circuits put on their output mask
    `sel_out`: for each adjacent pair, `sel_out[i+1] == sel_out[i] * sel_out[i+1]`,
    which forbids a one after a zero. */
module Mask {
  import opened Field
  import opened Compaction

  /** Once the mask is zero it stays zero. */
  predicate ZeroStaysZero(s: seq<F>) {
    forall i, j :: 0 <= i < j < |s| && s[i] == 0 ==> s[j] == 0
  }

  /** The constraints of the adjacent-pair loop, one per pair, in order. */
  function MonotoneConstraints(s: seq<F>): (cs: seq<Constraint>)
    ensures |s| > 0 ==> |cs| == |s| - 1
    ensures |s| == 0 ==> cs == []
  {
    if |s| == 0 then []
    else seq(|s| - 1, i requires 0 <= i < |s| - 1 => Equal(s[i + 1], Mul(s[i], s[i + 1])))
  }

  /** What the pair constraints enforce on any witness, bit or not. */
  lemma MonotoneConstraintsSound(s: seq<F>)
    requires Satisfied(MonotoneConstraints(s))
    ensures ZeroStaysZero(s)
  {
    var cs := MonotoneConstraints(s);
    forall i, j | 0 <= i < j < |s| && s[i] == 0
      ensures s[j] == 0
    {
      ZeroPropagates(s, i, j);
    }
  }

  lemma {:induction false} ZeroPropagates(s: seq<F>, i: nat, j: nat)
    requires Satisfied(MonotoneConstraints(s))
    requires i < j < |s| && s[i] == 0
    ensures s[j] == 0
    decreases j - i
  {
    var cs := MonotoneConstraints(s);
    assert Holds(cs[i]);
    assert s[i + 1] == Mul(s[i], s[i + 1]);
    if i + 1 < j {
      ZeroPropagates(s, i + 1, j);
    }
  }

  /** For a 0/1 mask the converse holds: no one after a zero satisfies every pair. */
  lemma MonotoneConstraintsComplete(s: seq<F>)
    requires AllBits(s) && ZeroStaysZero(s)
    ensures Satisfied(MonotoneConstraints(s))
  {
    var cs := MonotoneConstraints(s);
    forall k | 0 <= k < |cs| ensures Holds(cs[k]) {
      assert cs[k] == Equal(s[k + 1], Mul(s[k], s[k + 1]));
      assert IsBit(s[k]) && IsBit(s[k + 1]);
      MulBits(s[k], s[k + 1]);
      assert s[k] == 0 ==> s[k + 1] == 0;
    }
  }

  /** The host `sel_out` is ones then zeros. */
  lemma SelOutShape(sel: seq<F>)
    ensures ZeroStaysZero(SelOut(sel))
  {
  }
}
