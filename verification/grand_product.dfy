/** The grand-product argument: the running products of `challenge + v`
    over two columns, whose last entries are constrained equal.

    Completeness is the direction proved here: when the two columns hold the
    same multiset of values, their products agree for EVERY challenge.  The
    converse holds only with high probability over the challenge and is not
    a statement about all inputs. */
module GrandProduct {
  import opened Field

  /** The accumulator column: one, then each entry times `gamma + arr[i]`. */
  function RunningProduct(arr: seq<F>, gamma: F): (acc: seq<F>)
    ensures |acc| == |arr| + 1
    ensures acc[0] == 1
    decreases |arr|
  {
    if |arr| == 0 then [1]
    else
      var acc := RunningProduct(arr[..|arr| - 1], gamma);
      acc + [Mul(acc[|arr| - 1], Add(gamma, arr[|arr| - 1]))]
  }

  /** Each accumulator entry multiplies the previous one by `gamma + arr[i]`.
      Stated per index: as a quantified postcondition of `RunningProduct` it
      would fire on every indexed column in scope. */
  lemma {:induction false} RunningProductStep(arr: seq<F>, gamma: F, i: nat)
    requires i < |arr|
    ensures RunningProduct(arr, gamma)[i + 1] == Mul(RunningProduct(arr, gamma)[i], Add(gamma, arr[i]))
    decreases |arr|
  {
    var front := arr[..|arr| - 1];
    if i < |arr| - 1 {
      RunningProductStep(front, gamma, i);
      assert RunningProduct(arr, gamma)[i + 1] == RunningProduct(front, gamma)[i + 1];
      assert RunningProduct(arr, gamma)[i] == RunningProduct(front, gamma)[i];
      assert front[i] == arr[i];
    }
  }

  /** The last accumulator entry, the value the permutation check compares. */
  function GrandProduct(arr: seq<F>, gamma: F): F
  {
    RunningProduct(arr, gamma)[|arr|]
  }

  lemma GrandProductSnoc(s: seq<F>, x: F, gamma: F)
    ensures GrandProduct(s + [x], gamma) == Mul(GrandProduct(s, gamma), Add(gamma, x))
  {
    assert (s + [x])[..|s|] == s;
  }

  /** Taking one factor out of the middle of the product. */
  lemma {:induction false} GrandProductRemove(before: seq<F>, x: F, after: seq<F>, gamma: F)
    ensures GrandProduct(before + [x] + after, gamma)
         == Mul(GrandProduct(before + after, gamma), Add(gamma, x))
    decreases |after|
  {
    if |after| == 0 {
      assert before + [x] + after == before + [x];
      assert before + after == before;
      GrandProductSnoc(before, x, gamma);
    } else {
      var after', y := after[..|after| - 1], after[|after| - 1];
      GrandProductRemove(before, x, after', gamma);
      assert before + [x] + after == (before + [x] + after') + [y];
      assert before + after == (before + after') + [y];
      GrandProductSnoc(before + [x] + after', y, gamma);
      GrandProductSnoc(before + after', y, gamma);
      var r, gx, gy := GrandProduct(before + after', gamma), Add(gamma, x), Add(gamma, y);
      assert Mul(Mul(r, gx), gy) == Mul(Mul(r, gy), gx) by {
        var rx, ry := r * gx, r * gy;
        SplitProduct(rx, gy);
        ModOfSplit(rx * gy, rx / P * gy, rx % P * gy);
        SplitProduct(ry, gx);
        ModOfSplit(ry * gx, ry / P * gx, ry % P * gx);
        Swap3(r, gx, gy);
        ModCongruent(rx * gy, ry * gx);
      }
    }
  }

  lemma Swap3(r: int, u: int, v: int)
    ensures r * u * v == r * v * u
  {
  }

  lemma MultisetRemove(a: seq<F>, b: seq<F>, j: nat)
    requires |a| > 0 && j < |b| && b[j] == a[|a| - 1]
    requires multiset(a) == multiset(b)
    ensures multiset(a[..|a| - 1]) == multiset(b[..j] + b[j + 1..])
  {
    var x := b[j];
    assert a == a[..|a| - 1] + [x];
    assert b == b[..j] + [x] + b[j + 1..];
    var ma, mb := multiset(a[..|a| - 1]), multiset(b[..j] + b[j + 1..]);
    assert multiset(a) == ma + multiset{x};
    assert multiset(b) == mb + multiset{x};
    assert ma == (ma + multiset{x}) - multiset{x};
    assert mb == (mb + multiset{x}) - multiset{x};
  }

  /** Completeness of the permutation check: equal multisets give equal
      grand products whatever the challenge. */
  lemma {:induction false} GrandProductsAgree(a: seq<F>, b: seq<F>, gamma: F)
    requires multiset(a) == multiset(b)
    ensures |a| == |b|
    ensures GrandProduct(a, gamma) == GrandProduct(b, gamma)
    decreases |a|
  {
    assert |a| == |multiset(a)| == |multiset(b)| == |b|;
    if |a| > 0 {
      var a', x := a[..|a| - 1], a[|a| - 1];
      assert x in multiset(b);
      var j :| 0 <= j < |b| && b[j] == x;
      var before, after := b[..j], b[j + 1..];
      MultisetRemove(a, b, j);
      GrandProductsAgree(a', before + after, gamma);
      assert a == a' + [x];
      GrandProductSnoc(a', x, gamma);
      assert b == before + [x] + after;
      GrandProductRemove(before, x, after, gamma);
    }
  }

  /** The one constraint a permutation check emits: the last entries of the
      two accumulator columns are equal. */
  function PermutationCheck(a: seq<F>, b: seq<F>, gamma: F): Constraint
  {
    Equal(GrandProduct(a, gamma), GrandProduct(b, gamma))
  }

  lemma PermutationCheckComplete(a: seq<F>, b: seq<F>, gamma: F)
    requires multiset(a) == multiset(b)
    ensures Holds(PermutationCheck(a, b, gamma))
  {
    GrandProductsAgree(a, b, gamma);
  }
}
