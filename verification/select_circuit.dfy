/** `select` of examples/select.rs: host-side left push of `x` by the mask
    `sel`, and the constraints that prove the result is a masked
    permutation of the input.  The source fixes the width at ten; the model
    takes any width `n`.

    Emitted, in order: the two grand-product equalities (`out` against the
    products `x[i] * sel[i]`, and `sel` against `sel_out`), the adjacent-pair
    constraints on `sel_out`, then for each slot `sel_out[i]^2 == sel_out[i]`
    and `out[i] * sel_out[i] == out[i]`.  The mask `sel` itself is not
    bit-constrained here; only the permutation with `sel_out` ties it down. */
module SelectCircuit {
  import opened Field
  import opened Poseidon
  import opened Compaction
  import opened GrandProduct
  import opened Mask

  /** What one call computes: the mask it was given, the witness columns and
      the challenge.  The constraints emitted over it are `Emitted`. */
  datatype SelectTrace = SelectTrace(
    sel: seq<F>,
    out: seq<F>,
    selOut: seq<F>,
    prods: seq<F>,
    challenge: F)

  predicate TraceShape(t: SelectTrace) {
    |t.sel| == |t.out| == |t.selOut| == |t.prods|
  }

  /** The gate products `x[i] * sel[i]`. */
  function Products(x: seq<F>, sel: seq<F>): (r: seq<F>)
    requires |x| == |sel|
    ensures |r| == |x|
    ensures forall i :: 0 <= i < |x| && IsBit(sel[i]) ==> r[i] == (if sel[i] == 1 then x[i] else 0)
  {
    seq(|x|, i requires 0 <= i < |x| => Mul(x[i], sel[i]))
  }

  /** The Fiat-Shamir challenge: one sponge fed `out`, `prods`, `sel`, `sel_out`. */
  function Challenge(hash: HashFn, out: seq<F>, prods: seq<F>, sel: seq<F>, selOut: seq<F>): (c: F)
    ensures c == hash(StandardConfig, out + prods + sel + selOut)
  {
    var sponge := Update(Update(Update(Update(New(StandardConfig), out), prods), sel), selOut);
    assert sponge.absorbed == out + prods + sel + selOut;
    Squeeze(hash, sponge)
  }

  /** Per slot: `sel_out[i]` is idempotent, and `out[i]` survives multiplication by it. */
  function SlotConstraints(out: seq<F>, selOut: seq<F>): (cs: seq<Constraint>)
    requires |out| == |selOut|
    ensures |cs| == 2 * |out|
  {
    seq(2 * |out|, k requires 0 <= k < 2 * |out| =>
      if k % 2 == 0 then Equal(selOut[k / 2], Mul(selOut[k / 2], selOut[k / 2]))
      else Equal(out[k / 2], Mul(out[k / 2], selOut[k / 2])))
  }

  lemma SlotConstraintsSound(out: seq<F>, selOut: seq<F>)
    requires |out| == |selOut|
    requires Satisfied(SlotConstraints(out, selOut))
    ensures forall i :: 0 <= i < |out| ==> Mul(selOut[i], selOut[i]) == selOut[i]
    ensures forall i :: 0 <= i < |out| && selOut[i] == 0 ==> out[i] == 0
  {
    var slots := SlotConstraints(out, selOut);
    forall i | 0 <= i < |out|
      ensures Mul(selOut[i], selOut[i]) == selOut[i]
      ensures selOut[i] == 0 ==> out[i] == 0
    {
      assert Holds(slots[2 * i]);
      assert Holds(slots[2 * i + 1]);
    }
  }

  lemma SlotConstraintsComplete(out: seq<F>, selOut: seq<F>)
    requires |out| == |selOut|
    requires AllBits(selOut)
    requires forall i :: 0 <= i < |out| && selOut[i] == 0 ==> out[i] == 0
    ensures Satisfied(SlotConstraints(out, selOut))
  {
    var slots := SlotConstraints(out, selOut);
    forall k | 0 <= k < |slots| ensures Holds(slots[k]) {
      var i := k / 2;
      assert IsBit(selOut[i]);
    }
  }

  /** The constraints `select` emits for a witness `out`, `sel_out` over the
      products `prods`, once the challenge `c` is drawn. */
  function SelectConstraintsAt(c: F, sel: seq<F>, prods: seq<F>, out: seq<F>, selOut: seq<F>): (cs: seq<Constraint>)
    requires |sel| == |prods| == |out| == |selOut|
  {
    [ PermutationCheck(out, prods, c), PermutationCheck(sel, selOut, c) ]
    + MonotoneConstraints(selOut)
    + SlotConstraints(out, selOut)
  }

  /** The constraints emitted over a trace. */
  function Emitted(t: SelectTrace): (cs: seq<Constraint>)
    requires TraceShape(t)
  {
    SelectConstraintsAt(t.challenge, t.sel, t.prods, t.out, t.selOut)
  }

  /** `select`: the host witness and its challenge.  An empty
      input would underflow `out.len() - 1`. */
  function Select(hash: HashFn, x: seq<F>, sel: seq<F>): (r: Result<SelectTrace>)
    requires |x| == |sel|
    ensures r.Err? <==> |x| == 0
    ensures r.Err? ==> r.error == SubtractionUnderflow
    ensures r.Ok? ==> TraceShape(r.value) && r.value.sel == sel && |r.value.out| == |x|
  {
    if |x| == 0 then Err(SubtractionUnderflow)
    else
      var out := LeftPush(x, sel, 0);
      var selOut := SelOut(sel);
      var prods := Products(x, sel);
      Ok(SelectTrace(sel, out, selOut, prods, Challenge(hash, out, prods, sel, selOut)))
  }

  /** The host witness: the selected inputs in their original order, then
      zeros; `sel_out` marks exactly the copied slots. */
  lemma SelectOutput(hash: HashFn, x: seq<F>, sel: seq<F>)
    requires |x| == |sel| > 0
    ensures var t := Select(hash, x, sel).value;
      && (forall j :: 0 <= j < CountOnes(sel) ==> t.out[j] == x[OnesIndices(sel)[j]])
      && (forall j :: CountOnes(sel) <= j < |x| ==> t.out[j] == 0)
      && (forall j :: 0 <= j < |x| ==> (t.selOut[j] == 1 <==> j < CountOnes(sel)))
      && (forall j :: 0 <= j < |x| ==> (t.selOut[j] == 0 <==> CountOnes(sel) <= j))
  {
    assert Select(hash, x, sel).value.out == LeftPush(x, sel, 0);
    assert Select(hash, x, sel).value.selOut == SelOut(sel);
    LeftPushPicksOnes(x, sel, 0);
  }

  /** What a satisfying witness must look like, whatever produced it and
      whatever the challenge: once `sel_out` is zero it stays zero, a zero
      slot of `sel_out` holds zero in `out`, every `sel_out[i]` squares to
      itself, and both grand products agree at that challenge. */
  lemma SelectConstraintsSound(c: F, sel: seq<F>, prods: seq<F>, out: seq<F>, selOut: seq<F>)
    requires |sel| == |prods| == |out| == |selOut|
    requires Satisfied(SelectConstraintsAt(c, sel, prods, out, selOut))
    ensures ZeroStaysZero(selOut)
    ensures forall i :: 0 <= i < |out| && selOut[i] == 0 ==> out[i] == 0
    ensures forall i :: 0 <= i < |out| ==> Mul(selOut[i], selOut[i]) == selOut[i]
    ensures Holds(PermutationCheck(out, prods, c))
    ensures Holds(PermutationCheck(sel, selOut, c))
  {
    var head := [ PermutationCheck(out, prods, c), PermutationCheck(sel, selOut, c) ];
    var mono := MonotoneConstraints(selOut);
    var slots := SlotConstraints(out, selOut);
    assert SelectConstraintsAt(c, sel, prods, out, selOut) == head + mono + slots;
    SatisfiedAppend(head + mono, slots);
    SatisfiedAppend(head, mono);
    assert Holds(head[0]) && Holds(head[1]);
    MonotoneConstraintsSound(selOut);
    SlotConstraintsSound(out, selOut);
  }

  /** Completeness for any witness: a 0/1, ones-then-zeros `sel_out` that
      zeroes the padding of `out`, with `out` a permutation of the products
      and `sel_out` a permutation of `sel`, satisfies every constraint at
      every challenge. */
  lemma SelectConstraintsComplete(c: F, sel: seq<F>, prods: seq<F>, out: seq<F>, selOut: seq<F>)
    requires |sel| == |prods| == |out| == |selOut|
    requires AllBits(selOut) && ZeroStaysZero(selOut)
    requires forall i :: 0 <= i < |out| && selOut[i] == 0 ==> out[i] == 0
    requires multiset(out) == multiset(prods)
    requires multiset(sel) == multiset(selOut)
    ensures Satisfied(SelectConstraintsAt(c, sel, prods, out, selOut))
  {
    var head := [ PermutationCheck(out, prods, c), PermutationCheck(sel, selOut, c) ];
    var mono := MonotoneConstraints(selOut);
    var slots := SlotConstraints(out, selOut);
    PermutationCheckComplete(out, prods, c);
    PermutationCheckComplete(sel, selOut, c);
    assert Satisfied(head);
    MonotoneConstraintsComplete(selOut);
    SlotConstraintsComplete(out, selOut);
    SatisfiedAppend(head, mono);
    SatisfiedAppend(head + mono, slots);
    assert SelectConstraintsAt(c, sel, prods, out, selOut) == head + mono + slots;
  }

  /** On a 0/1 mask the products are the input masked with zeros. */
  lemma ProductsMasked(x: seq<F>, sel: seq<F>)
    requires |x| == |sel|
    requires AllBits(sel)
    ensures Products(x, sel) == MaskedWith(x, sel, 0)
  {
    var p, m := Products(x, sel), MaskedWith(x, sel, 0);
    forall i | 0 <= i < |x| ensures p[i] == m[i] {
      assert IsBit(sel[i]);
    }
  }

  /** The host witness of a 0/1 mask satisfies the constraints at every challenge. */
  lemma HostWitnessComplete(c: F, x: seq<F>, sel: seq<F>)
    requires |x| == |sel|
    requires AllBits(sel)
    ensures Satisfied(SelectConstraintsAt(c, sel, Products(x, sel), LeftPush(x, sel, 0), SelOut(sel)))
  {
    ProductsMasked(x, sel);
    LeftPushPermutesMasked(x, sel, 0);
    SelOutPermutesMask(sel);
    SelOutShape(sel);
    SelectConstraintsComplete(c, sel, Products(x, sel), LeftPush(x, sel, 0), SelOut(sel));
  }

  /** Completeness of `select`: for a 0/1 mask the host witness satisfies
      every emitted constraint, whatever the hash (so whatever the challenge). */
  lemma SelectComplete(hash: HashFn, x: seq<F>, sel: seq<F>)
    requires |x| == |sel| > 0
    requires AllBits(sel)
    ensures Satisfied(Emitted(Select(hash, x, sel).value))
  {
    var t := Select(hash, x, sel).value;
    assert t.sel == sel && t.out == LeftPush(x, sel, 0) && t.selOut == SelOut(sel) && t.prods == Products(x, sel);
    HostWitnessComplete(t.challenge, x, sel);
  }

  /** An all-ones mask returns the input and an all-ones `sel_out`. */
  lemma SelectAllOnes(hash: HashFn, x: seq<F>, sel: seq<F>)
    requires |x| == |sel| > 0
    requires forall i :: 0 <= i < |sel| ==> sel[i] == 1
    ensures Select(hash, x, sel).value.out == x
    ensures Select(hash, x, sel).value.selOut == sel
  {
    var t := Select(hash, x, sel).value;
    assert t.out == LeftPush(x, sel, 0) && t.selOut == SelOut(sel);
    CompactAllOnes(x, sel);
    assert t.selOut == sel;
  }

  /** An all-zeros mask returns zeros and an all-zeros `sel_out`. */
  lemma SelectAllZeros(hash: HashFn, x: seq<F>, sel: seq<F>)
    requires |x| == |sel| > 0
    requires forall i :: 0 <= i < |sel| ==> sel[i] == 0
    ensures Select(hash, x, sel).value.out == Repeat(0, |x|)
    ensures Select(hash, x, sel).value.selOut == sel
  {
    var t := Select(hash, x, sel).value;
    assert t.out == LeftPush(x, sel, 0) && t.selOut == SelOut(sel);
    CompactNoOnes(x, sel);
    assert t.selOut == sel;
  }

  /** Input [3, 0, 5, 0, 7] under mask [1, 0, 1, 0, 1]: the host witness of
      `select` is [3, 5, 7, 0, 0] with `sel_out` [1, 1, 1, 0, 0]. */
  lemma SelectExample()
    ensures LeftPush([3, 0, 5, 0, 7], [1, 0, 1, 0, 1], 0 as F) == [3, 5, 7, 0, 0]
    ensures SelOut([1, 0, 1, 0, 1]) == [1, 1, 1, 0, 0]
  {
    var x: seq<F> := [3, 0, 5, 0, 7];
    var sel: seq<F> := [1, 0, 1, 0, 1];
    assert x[..4] == [3, 0, 5, 0] && sel[..4] == [1, 0, 1, 0];
    assert x[..4][..3] == [3, 0, 5] && sel[..4][..3] == [1, 0, 1];
    assert x[..4][..3][..2] == [3, 0] && sel[..4][..3][..2] == [1, 0];
    assert x[..4][..3][..2][..1] == [3] && sel[..4][..3][..2][..1] == [1];
    assert Compact(x[..4][..3][..2][..1], sel[..4][..3][..2][..1]) == [3];
    assert Compact(x[..4][..3][..2], sel[..4][..3][..2]) == [3];
    assert Compact(x[..4][..3], sel[..4][..3]) == [3, 5];
    assert Compact(x[..4], sel[..4]) == [3, 5];
    assert Compact(x, sel) == [3, 5, 7];
  }
}
