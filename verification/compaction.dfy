/** Left-push compaction, the host computation shared by every selection
    circuit: the elements whose mask entry is one, in their original order,
    followed by padding up to the input length.

    The host code tests `sel[i] == 1` exactly, so a mask entry other than
    zero or one is treated like zero here. */
module Compaction {
  import opened Field

  function Repeat<T>(v: T, n: nat): (r: seq<T>)
    ensures |r| == n
    ensures forall i :: 0 <= i < n ==> r[i] == v
  {
    seq(n, _ => v)
  }

  /** How many mask entries equal one. */
  function CountOnes(sel: seq<F>): (k: nat)
    ensures k <= |sel|
    decreases |sel|
  {
    if |sel| == 0 then 0
    else CountOnes(sel[..|sel| - 1]) + (if sel[|sel| - 1] == 1 then 1 else 0)
  }

  /** The selected elements, scanning left to right as the host loops do. */
  function Compact<T>(xs: seq<T>, sel: seq<F>): (r: seq<T>)
    requires |xs| == |sel|
    ensures |r| == CountOnes(sel)
    decreases |xs|
  {
    if |xs| == 0 then []
    else
      Compact(xs[..|xs| - 1], sel[..|sel| - 1])
      + (if sel[|sel| - 1] == 1 then [xs[|xs| - 1]] else [])
  }

  /** The positions of the ones of a mask, in increasing order. */
  function OnesIndices(sel: seq<F>): (idx: seq<nat>)
    ensures |idx| == CountOnes(sel)
    ensures forall j :: 0 <= j < |idx| ==> idx[j] < |sel| && sel[idx[j]] == 1
    ensures forall j, j' :: 0 <= j < j' < |idx| ==> idx[j] < idx[j']
    ensures forall i :: 0 <= i < |sel| && sel[i] == 1 ==> i in idx
    decreases |sel|
  {
    if |sel| == 0 then []
    else
      var front := OnesIndices(sel[..|sel| - 1]);
      assert forall i :: 0 <= i < |sel| - 1 ==> sel[..|sel| - 1][i] == sel[i];
      front + (if sel[|sel| - 1] == 1 then [|sel| - 1] else [])
  }

  /** Order preservation: the j-th output is the input at the j-th one of the mask. */
  lemma {:induction false} CompactPicksOnes<T>(xs: seq<T>, sel: seq<F>)
    requires |xs| == |sel|
    ensures forall j :: 0 <= j < CountOnes(sel) ==> Compact(xs, sel)[j] == xs[OnesIndices(sel)[j]]
    decreases |xs|
  {
    if |xs| > 0 {
      var n := |xs|;
      CompactPicksOnes(xs[..n - 1], sel[..n - 1]);
      var k' := CountOnes(sel[..n - 1]);
      forall j | 0 <= j < CountOnes(sel)
        ensures Compact(xs, sel)[j] == xs[OnesIndices(sel)[j]]
      {
        if j < k' {
          assert Compact(xs, sel)[j] == Compact(xs[..n - 1], sel[..n - 1])[j];
          assert OnesIndices(sel)[j] == OnesIndices(sel[..n - 1])[j];
          assert OnesIndices(sel)[j] < n - 1;
        }
      }
    }
  }

  /** `out`: the selected elements, then `pad` up to the input length. */
  function LeftPush<T>(xs: seq<T>, sel: seq<F>, pad: T): (r: seq<T>)
    requires |xs| == |sel|
    ensures |r| == |xs|
    ensures r[..CountOnes(sel)] == Compact(xs, sel)
    ensures forall j :: CountOnes(sel) <= j < |xs| ==> r[j] == pad
  {
    Compact(xs, sel) + Repeat(pad, |xs| - CountOnes(sel))
  }

  /** The left push in terms of positions: slot `j` below the count holds
      the input at the `j`-th one of the mask, every later slot the padding. */
  lemma LeftPushPicksOnes<T>(xs: seq<T>, sel: seq<F>, pad: T)
    requires |xs| == |sel|
    ensures forall j :: 0 <= j < CountOnes(sel) ==> LeftPush(xs, sel, pad)[j] == xs[OnesIndices(sel)[j]]
    ensures forall j :: CountOnes(sel) <= j < |xs| ==> LeftPush(xs, sel, pad)[j] == pad
  {
    var r, k := LeftPush(xs, sel, pad), CountOnes(sel);
    CompactPicksOnes(xs, sel);
    forall j | 0 <= j < k ensures r[j] == xs[OnesIndices(sel)[j]] {
      assert r[j] == r[..k][j];
    }
  }

  /** `sel_out`: as many ones as the mask has, then zeros. */
  function SelOut(sel: seq<F>): (r: seq<F>)
    ensures |r| == |sel|
    ensures forall j :: 0 <= j < |sel| ==> (r[j] == 1 <==> j < CountOnes(sel))
    ensures AllBits(r)
  {
    Repeat(1, CountOnes(sel)) + Repeat(0, |sel| - CountOnes(sel))
  }

  /** The candidates of the permutation argument: each input where the mask
      is one, the placeholder elsewhere. */
  function MaskedWith<T>(xs: seq<T>, sel: seq<F>, pad: T): (r: seq<T>)
    requires |xs| == |sel|
    ensures |r| == |xs|
    ensures forall i :: 0 <= i < |xs| ==> r[i] == (if sel[i] == 1 then xs[i] else pad)
  {
    seq(|xs|, i requires 0 <= i < |xs| => if sel[i] == 1 then xs[i] else pad)
  }

  lemma RepeatSnoc<T>(v: T, n: nat)
    ensures multiset(Repeat(v, n + 1)) == multiset(Repeat(v, n)) + multiset{v}
  {
    assert Repeat(v, n + 1) == Repeat(v, n) + [v];
  }

  lemma CompactSnoc<T>(xs: seq<T>, sel: seq<F>, a: T, s: F)
    requires |xs| == |sel|
    ensures Compact(xs + [a], sel + [s]) == Compact(xs, sel) + (if s == 1 then [a] else [])
    ensures CountOnes(sel + [s]) == CountOnes(sel) + (if s == 1 then 1 else 0)
  {
    assert (xs + [a])[..|xs|] == xs;
    assert (sel + [s])[..|sel|] == sel;
  }

  /** Appending one element to the input appends one candidate: the element
      itself when its mask entry is one, the padding otherwise. */
  lemma LeftPushSnoc<T>(xs: seq<T>, sel: seq<F>, pad: T, a: T, s: F)
    requires |xs| == |sel|
    ensures multiset(LeftPush(xs + [a], sel + [s], pad))
         == multiset(LeftPush(xs, sel, pad)) + multiset{if s == 1 then a else pad}
  {
    var k := CountOnes(sel);
    var c := Compact(xs, sel);
    var r := Repeat(pad, |xs| - k);
    CompactSnoc(xs, sel, a, s);
    assert LeftPush(xs, sel, pad) == c + r;
    if s == 1 {
      assert LeftPush(xs + [a], sel + [s], pad) == c + [a] + r;
      assert multiset(c + [a] + r) == multiset(c) + multiset{a} + multiset(r);
    } else {
      assert LeftPush(xs + [a], sel + [s], pad) == c + Repeat(pad, |xs| - k + 1);
      RepeatSnoc(pad, |xs| - k);
      assert multiset(c + Repeat(pad, |xs| - k + 1)) == multiset(c) + multiset(r) + multiset{pad};
    }
  }

  lemma MaskedWithSnoc<T>(xs: seq<T>, sel: seq<F>, pad: T, a: T, s: F)
    requires |xs| == |sel|
    ensures MaskedWith(xs + [a], sel + [s], pad) == MaskedWith(xs, sel, pad) + [if s == 1 then a else pad]
  {
  }

  /** The left-pushed output is a permutation of the masked candidates. */
  lemma {:induction false} LeftPushPermutesMasked<T>(xs: seq<T>, sel: seq<F>, pad: T)
    requires |xs| == |sel|
    ensures multiset(LeftPush(xs, sel, pad)) == multiset(MaskedWith(xs, sel, pad))
    decreases |xs|
  {
    var n := |xs|;
    if n == 0 {
      assert LeftPush(xs, sel, pad) == [];
      assert MaskedWith(xs, sel, pad) == [];
    } else {
      var xs', sel' := xs[..n - 1], sel[..n - 1];
      LeftPushPermutesMasked(xs', sel', pad);
      assert xs == xs' + [xs[n - 1]] && sel == sel' + [sel[n - 1]];
      PermutesMaskedSnoc(xs', sel', pad, xs[n - 1], sel[n - 1]);
    }
  }

  /** The induction step of `LeftPushPermutesMasked`: one more element. */
  lemma PermutesMaskedSnoc<T>(xs: seq<T>, sel: seq<F>, pad: T, a: T, s: F)
    requires |xs| == |sel|
    requires multiset(LeftPush(xs, sel, pad)) == multiset(MaskedWith(xs, sel, pad))
    ensures multiset(LeftPush(xs + [a], sel + [s], pad)) == multiset(MaskedWith(xs + [a], sel + [s], pad))
  {
    var v := if s == 1 then a else pad;
    LeftPushSnoc(xs, sel, pad, a, s);
    MaskedWithSnoc(xs, sel, pad, a, s);
    var m := MaskedWith(xs, sel, pad);
    assert multiset(m + [v]) == multiset(m) + multiset{v};
  }

  lemma CountOnesSnoc(sel: seq<F>, s: F)
    ensures CountOnes(sel + [s]) == CountOnes(sel) + (if s == 1 then 1 else 0)
  {
    assert (sel + [s])[..|sel|] == sel;
  }

  /** Appending a bit to the mask adds that bit to `sel_out`, as a multiset. */
  lemma SelOutSnoc(sel: seq<F>, s: F)
    requires IsBit(s)
    ensures multiset(SelOut(sel + [s])) == multiset(SelOut(sel)) + multiset{s}
  {
    var n, k := |sel|, CountOnes(sel);
    CountOnesSnoc(sel, s);
    var ones, zeros := Repeat(1 as F, k), Repeat(0 as F, n - k);
    assert SelOut(sel) == ones + zeros;
    if s == 1 {
      RepeatSnoc(1 as F, k);
      assert SelOut(sel + [s]) == Repeat(1, k + 1) + zeros;
    } else {
      RepeatSnoc(0 as F, n - k);
      assert SelOut(sel + [s]) == ones + Repeat(0, n - k + 1);
    }
  }

  /** For a 0/1 mask, `sel_out` is a permutation of the mask. */
  lemma {:induction false} SelOutPermutesMask(sel: seq<F>)
    requires AllBits(sel)
    ensures multiset(SelOut(sel)) == multiset(sel)
    decreases |sel|
  {
    var n := |sel|;
    if n > 0 {
      var sel', s := sel[..n - 1], sel[n - 1];
      assert AllBits(sel') by {
        forall i | 0 <= i < |sel'| ensures IsBit(sel'[i]) {
          assert sel'[i] == sel[i];
        }
      }
      SelOutPermutesMask(sel');
      assert sel == sel' + [s];
      assert IsBit(s);
      SelOutSnoc(sel', s);
      assert multiset(sel' + [s]) == multiset(sel') + multiset{s};
    }
  }

  /** An all-ones mask keeps every element. */
  lemma {:induction false} CompactAllOnes<T>(xs: seq<T>, sel: seq<F>)
    requires |xs| == |sel|
    requires forall i :: 0 <= i < |sel| ==> sel[i] == 1
    ensures Compact(xs, sel) == xs
    ensures CountOnes(sel) == |sel|
    decreases |xs|
  {
    if |xs| > 0 {
      CompactAllOnes(xs[..|xs| - 1], sel[..|sel| - 1]);
      assert xs == xs[..|xs| - 1] + [xs[|xs| - 1]];
    }
  }

  /** A mask without ones keeps nothing. */
  lemma {:induction false} CompactNoOnes<T>(xs: seq<T>, sel: seq<F>)
    requires |xs| == |sel|
    requires forall i :: 0 <= i < |sel| ==> sel[i] != 1
    ensures Compact(xs, sel) == []
    ensures CountOnes(sel) == 0
    decreases |xs|
  {
    if |xs| > 0 {
      CompactNoOnes(xs[..|xs| - 1], sel[..|sel| - 1]);
    }
  }

  /** Compaction commutes with applying a function to every element. */
  lemma {:induction false} CompactMap<T, U>(xs: seq<T>, ys: seq<U>, sel: seq<F>, f: T -> U)
    requires |xs| == |sel| == |ys|
    requires forall i :: 0 <= i < |xs| ==> ys[i] == f(xs[i])
    ensures |Compact(ys, sel)| == |Compact(xs, sel)|
    ensures forall j :: 0 <= j < |Compact(xs, sel)| ==> Compact(ys, sel)[j] == f(Compact(xs, sel)[j])
  {
    CompactPicksOnes(xs, sel);
    CompactPicksOnes(ys, sel);
  }

  /** The number of ones is the multiplicity of one in the mask. */
  lemma {:induction false} CountOnesMultiset(sel: seq<F>)
    ensures CountOnes(sel) == multiset(sel)[1]
    decreases |sel|
  {
    if |sel| > 0 {
      var front := sel[..|sel| - 1];
      CountOnesMultiset(front);
      assert sel == front + [sel[|sel| - 1]];
      assert multiset(sel) == multiset(front) + multiset{sel[|sel| - 1]};
    }
  }
}
