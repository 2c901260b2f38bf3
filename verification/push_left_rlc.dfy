/** examples/push_left_rlc.rs: host-side left push of `arr` by `indices`,
    next to a random-linear-combination accumulator over the input.

    Per element the circuit computes `intermediate = i * (gamma - 1) + 1`
    (gamma under a one, one under a zero) and folds
    `rlc := rlc * intermediate + a`.  The accumulator ends as
    `sum_j arr[j] * prod_{k > j} intermediate[k]` in the field.  Nothing
    ties `output` to `rlc` by a constraint, and `rlc` is not made public. */
module PushLeftRlcCircuit {
  import opened Field
  import opened Compaction

  /** What one call computes. */
  datatype RlcTrace = RlcTrace(output: seq<F>, intermediates: seq<F>, rlc: F, public: seq<F>)

  /** `mul_add(i, gamma - 1, 1)` per element. */
  function Intermediates(idx: seq<F>, gamma: F): (r: seq<F>)
    ensures |r| == |idx|
    ensures forall j :: 0 <= j < |idx| && idx[j] == 1 ==> r[j] == gamma
    ensures forall j :: 0 <= j < |idx| && idx[j] == 0 ==> r[j] == 1
  {
    var gm1 := Sub(gamma, 1);
    assert gm1 + 1 == gamma || (gamma == 0 && gm1 == P - 1);
    seq(|idx|, j requires 0 <= j < |idx| => MulAdd(idx[j], gm1, 1))
  }

  /** The accumulator after folding every element: `rlc * w + a`, from zero. */
  function Rlc(a: seq<F>, w: seq<F>): F
    requires |a| == |w|
    decreases |a|
  {
    if |a| == 0 then 0
    else
      var n := |a|;
      MulAdd(Rlc(a[..n - 1], w[..n - 1]), w[n - 1], a[n - 1])
  }

  /** `some_algorithm_in_zk`: fails on inputs of different lengths. */
  function PushLeftRlc(arr: seq<U64>, indices: seq<U64>, gamma: U64): (r: Result<RlcTrace>)
    ensures r.Err? <==> |arr| != |indices|
    ensures r.Err? ==> r.error == LengthMismatch
    ensures r.Ok? ==> |r.value.output| == |arr| && |r.value.intermediates| == |arr|
    ensures r.Ok? ==> |r.value.public| == 3 * |arr| + 1
  {
    if |arr| != |indices| then Err(LengthMismatch)
    else
      var a, idx, g := FromU64s(arr), FromU64s(indices), FromU64(gamma);
      var w := Intermediates(idx, g);
      var output := LeftPush(a, idx, 0);
      Ok(RlcTrace(output, w, Rlc(a, w), a + idx + [g] + output))
  }

  /** The output: the elements under a one, in their original order, then
      zeros, a rearrangement of the input masked by the indices. */
  lemma PushLeftRlcOutput(arr: seq<U64>, indices: seq<U64>, gamma: U64)
    requires |arr| == |indices|
    ensures var t := PushLeftRlc(arr, indices, gamma).value;
      var a, idx := FromU64s(arr), FromU64s(indices);
      && (forall j :: 0 <= j < CountOnes(idx) ==> t.output[j] == a[OnesIndices(idx)[j]])
      && (forall j :: CountOnes(idx) <= j < |arr| ==> t.output[j] == 0)
      && multiset(t.output) == multiset(MaskedWith(a, idx, 0))
  {
    var a, idx := FromU64s(arr), FromU64s(indices);
    assert PushLeftRlc(arr, indices, gamma).value.output == LeftPush(a, idx, 0);
    LeftPushPicksOnes(a, idx, 0);
    LeftPushPermutesMasked(a, idx, 0);
  }

  /** The public list is the input, the indices, gamma, then the output. */
  lemma PushLeftRlcPublic(arr: seq<U64>, indices: seq<U64>, gamma: U64)
    requires |arr| == |indices|
    ensures var t := PushLeftRlc(arr, indices, gamma).value;
      var n := |arr|;
      && t.public[..n] == FromU64s(arr)
      && t.public[n..2 * n] == FromU64s(indices)
      && t.public[2 * n] == FromU64(gamma)
      && t.public[2 * n + 1..] == t.output
  {
    var t := PushLeftRlc(arr, indices, gamma).value;
    var a, idx, g := FromU64s(arr), FromU64s(indices), FromU64(gamma);
    assert t.public == a + idx + [g] + t.output;
    PublicLayout(a, idx, g, t.output);
  }

  lemma PublicLayout(a: seq<F>, idx: seq<F>, g: F, out: seq<F>)
    requires |a| == |idx|
    ensures var s, n := a + idx + [g] + out, |a|;
      s[..n] == a && s[n..2 * n] == idx && s[2 * n] == g && s[2 * n + 1..] == out
  {
    var s, n := a + idx + [g] + out, |a|;
    assert s[..n] == a;
    assert s[n..2 * n] == idx;
    assert s[2 * n + 1..] == out;
  }

  // ---------------------------------------------------------------------
  // Closed form of the accumulator, in the field.

  /** The product of `w[k]` for `lo <= k < hi`. */
  function Prod(w: seq<F>, lo: nat, hi: nat): F
    requires hi <= |w|
    decreases hi
  {
    if hi <= lo then 1 else Mul(Prod(w, lo, hi - 1), w[hi - 1])
  }

  /** `sum_{j < m} a[j] * prod_{j < k < hi} w[k]`. */
  function Weighted(a: seq<F>, w: seq<F>, m: nat, hi: nat): F
    requires m <= |a| && hi <= |w|
    decreases m
  {
    if m == 0 then 0 else Add(Weighted(a, w, m - 1, hi), Mul(a[m - 1], Prod(w, m, hi)))
  }

  lemma Distribute(x: int, y: int, z: int)
    ensures (x + y) * z == x * z + y * z
  {
  }

  lemma Rotate3(x: int, y: int, z: int)
    ensures x * y * z == y * z * x
  {
  }

  /** Extending the range of every weight by one more factor `w[hi]`. */
  lemma {:induction false} WeightedExtend(a: seq<F>, w: seq<F>, m: nat, hi: nat)
    requires m <= hi < |w| && m <= |a|
    ensures Mul(Weighted(a, w, m, hi), w[hi]) == Weighted(a, w, m, hi + 1)
    decreases m
  {
    if m > 0 {
      var rest, pr, am, wh := Weighted(a, w, m - 1, hi), Prod(w, m, hi), a[m - 1], w[hi];
      var u := Mul(am, pr);
      WeightedExtend(a, w, m - 1, hi);
      assert Prod(w, m, hi + 1) == Mul(pr, wh);
      // (rest + am * pr) * wh == rest * wh + am * (pr * wh), in the field.
      assert Mul(Add(rest, u), wh) == (rest * wh + u * wh) % P by {
        var sum := rest + u;
        SplitProduct(sum, wh);
        ModOfSplit(sum * wh, sum / P * wh, sum % P * wh);
        Distribute(rest, u, wh);
        ModCongruent(sum * wh, rest * wh + u * wh);
      }
      assert Mul(u, wh) == (am * pr * wh) % P by {
        var ap := am * pr;
        SplitProduct(ap, wh);
        ModOfSplit(ap * wh, ap / P * wh, ap % P * wh);
      }
      assert Mul(am, Mul(pr, wh)) == (am * pr * wh) % P by {
        var pw := pr * wh;
        SplitProduct(pw, am);
        ModOfSplit(pw * am, pw / P * am, pw % P * am);
        Rotate3(am, pr, wh);
        ModCongruent(am * pr * wh, pw * am);
      }
      ModAddBoth(rest * wh, u * wh);
    }
  }

  /** One `mul_add` step is a field product followed by a field sum. */
  lemma MulAddSplits(x: F, y: F, z: F, lhs: F, rhs: F)
    requires lhs == MulAdd(x, y, z) && rhs == Add(Mul(x, y), z)
    ensures lhs == rhs
  {
    ModAddLeft(x * y, z);
  }

  /** The accumulator is the weighted sum of the input. */
  lemma {:induction false} RlcClosedForm(a: seq<F>, w: seq<F>)
    requires |a| == |w|
    ensures Rlc(a, w) == Weighted(a, w, |a|, |a|)
    decreases |a|
  {
    var n := |a|;
    if n > 0 {
      var a', w' := a[..n - 1], w[..n - 1];
      var x := Weighted(a, w, n - 1, n - 1);
      RlcClosedForm(a', w');
      WeightedPrefix(a, w, n - 1);
      WeightedLast(a, w);
      MulAddSplits(x, w[n - 1], a[n - 1], Rlc(a, w), Weighted(a, w, n, n));
    }
  }

  /** The full weighted sum is the one over all but the last entry, times the
      last weight, plus the last entry. */
  lemma WeightedLast(a: seq<F>, w: seq<F>)
    requires 0 < |a| == |w|
    ensures Weighted(a, w, |a|, |a|) == Add(Mul(Weighted(a, w, |a| - 1, |a| - 1), w[|a| - 1]), a[|a| - 1])
  {
    var n := |a|;
    WeightedExtend(a, w, n - 1, n - 1);
    var last := a[n - 1];
    assert Prod(w, n, n) == 1;
    assert Mul(last, 1) == last by {
      assert last * 1 == last;
    }
  }

  /** The weighted sum of a prefix only reads the prefix. */
  lemma {:induction false} WeightedPrefix(a: seq<F>, w: seq<F>, m: nat)
    requires m <= |a| == |w|
    ensures Weighted(a[..m], w[..m], m, m) == Weighted(a, w, m, m)
  {
    WeightedPrefixAt(a, w, m, m, m);
  }

  lemma {:induction false} WeightedPrefixAt(a: seq<F>, w: seq<F>, m: nat, j: nat, hi: nat)
    requires j <= hi <= m <= |a| == |w|
    ensures Weighted(a[..m], w[..m], j, hi) == Weighted(a, w, j, hi)
    decreases j
  {
    if j > 0 {
      WeightedPrefixAt(a, w, m, j - 1, hi);
      ProdPrefix(w, m, j, hi);
      assert a[..m][j - 1] == a[j - 1];
    }
  }

  lemma {:induction false} ProdPrefix(w: seq<F>, m: nat, lo: nat, hi: nat)
    requires hi <= m <= |w|
    ensures Prod(w[..m], lo, hi) == Prod(w, lo, hi)
    decreases hi
  {
    if hi > lo {
      ProdPrefix(w, m, lo, hi - 1);
      assert w[..m][hi - 1] == w[hi - 1];
    }
  }

  // ---------------------------------------------------------------------
  // The two extreme masks.

  /** With every weight one the accumulator is the plain sum, reduced. */
  lemma {:induction false} RlcUnitWeights(a: seq<F>, w: seq<F>)
    requires |a| == |w|
    requires forall j :: 0 <= j < |w| ==> w[j] == 1
    ensures Rlc(a, w) == Sum(a) % P
    decreases |a|
  {
    var n := |a|;
    if n > 0 {
      RlcUnitWeights(a[..n - 1], w[..n - 1]);
      ModAddLeft(Sum(a[..n - 1]), a[n - 1]);
    }
  }

  /** `x^e` in the field. */
  function Pow(x: F, e: nat): F
    decreases e
  {
    if e == 0 then 1 else Mul(Pow(x, e - 1), x)
  }

  /** `sum_{j < m} a[j] * g^(hi - 1 - j)`. */
  function PowerSum(a: seq<F>, g: F, m: nat, hi: nat): F
    requires m <= |a| && m <= hi
    decreases m
  {
    if m == 0 then 0 else Add(PowerSum(a, g, m - 1, hi), Mul(a[m - 1], Pow(g, hi - m)))
  }

  lemma {:induction false} ProdConstant(w: seq<F>, g: F, lo: nat, hi: nat)
    requires lo <= hi <= |w|
    requires forall j :: 0 <= j < |w| ==> w[j] == g
    ensures Prod(w, lo, hi) == Pow(g, hi - lo)
    decreases hi
  {
    if hi > lo {
      ProdConstant(w, g, lo, hi - 1);
    }
  }

  lemma {:induction false} WeightedConstant(a: seq<F>, w: seq<F>, g: F, m: nat, hi: nat)
    requires m <= hi <= |w| && m <= |a|
    requires forall j :: 0 <= j < |w| ==> w[j] == g
    ensures Weighted(a, w, m, hi) == PowerSum(a, g, m, hi)
    decreases m
  {
    if m > 0 {
      WeightedConstant(a, w, g, m - 1, hi);
      ProdConstant(w, g, m, hi);
    }
  }

  /** All indices zero: every intermediate is one and the accumulator is
      the sum of the input, reduced. */
  lemma PushLeftRlcAllZero(arr: seq<U64>, indices: seq<U64>, gamma: U64)
    requires |arr| == |indices|
    requires forall j :: 0 <= j < |indices| ==> indices[j] == 0
    ensures PushLeftRlc(arr, indices, gamma).value.rlc == Sum(FromU64s(arr)) % P
  {
    var a, idx := FromU64s(arr), FromU64s(indices);
    var w := Intermediates(idx, FromU64(gamma));
    assert PushLeftRlc(arr, indices, gamma).value.rlc == Rlc(a, w);
    RlcUnitWeights(a, w);
  }

  /** All indices one: every intermediate is gamma and the accumulator is
      `sum_j arr[j] * gamma^(n-1-j)` in the field. */
  lemma PushLeftRlcAllOne(arr: seq<U64>, indices: seq<U64>, gamma: U64)
    requires |arr| == |indices|
    requires forall j :: 0 <= j < |indices| ==> indices[j] == 1
    ensures PushLeftRlc(arr, indices, gamma).value.rlc
         == PowerSum(FromU64s(arr), FromU64(gamma), |arr|, |arr|)
  {
    var a, idx, g := FromU64s(arr), FromU64s(indices), FromU64(gamma);
    var w := Intermediates(idx, g);
    assert PushLeftRlc(arr, indices, gamma).value.rlc == Rlc(a, w);
    RlcClosedForm(a, w);
    WeightedConstant(a, w, g, |a|, |a|);
  }

  /** The accumulator of the circuit in closed form, for any indices. */
  lemma PushLeftRlcClosedForm(arr: seq<U64>, indices: seq<U64>, gamma: U64)
    requires |arr| == |indices|
    ensures var t := PushLeftRlc(arr, indices, gamma).value;
      t.rlc == Weighted(FromU64s(arr), t.intermediates, |arr|, |arr|)
  {
    var a, idx, g := FromU64s(arr), FromU64s(indices), FromU64(gamma);
    var w := Intermediates(idx, g);
    assert PushLeftRlc(arr, indices, gamma).value.rlc == Rlc(a, w);
    RlcClosedForm(a, w);
  }

  /** The fold as the source loop runs it, element by element. */
  method Accumulate(a: seq<F>, w: seq<F>) returns (rlc: F)
    requires |a| == |w|
    ensures rlc == Weighted(a, w, |a|, |a|)
  {
    rlc := 0;
    var j := 0;
    while j < |a|
      invariant 0 <= j <= |a|
      invariant rlc == Rlc(a[..j], w[..j])
    {
      assert a[..j + 1][..j] == a[..j] && w[..j + 1][..j] == w[..j];
      rlc := MulAdd(rlc, w[j], a[j]);
      j := j + 1;
    }
    assert a[..j] == a && w[..j] == w;
    RlcClosedForm(a, w);
  }
}
