/** The table model of examples/merkle_db.rs: rows and a head that hash
    through one generic `hash_row`, the per-row hash list of a table, the
    standalone permutation check, and the pieces of constraint the table
    `select` emits (bit checks, the running sum of the two masks). */
module MerkleDb {
  import opened Field
  import opened Poseidon
  import opened Compaction
  import opened GrandProduct

  datatype TableRow = TableRow(fields: seq<F>, maxFields: nat)

  datatype TableHead = TableHead(names: seq<F>, maxFields: nat)

  /** Anything `hash_row` accepts: a head hashes its names, a row its fields. */
  datatype Hashable = HeadItem(head: TableHead) | RowItem(row: TableRow)
  {
    function Fields(): seq<F> {
      match this
      case HeadItem(h) => h.names
      case RowItem(r) => r.fields
    }
  }

  datatype Table = Table(head: TableHead, rows: seq<TableRow>, maxRowsBits: nat, maxFields: nat)

  /** A table with one hash per entry: entry 0 for the head, entry i+1 for row i. */
  datatype TableWithHashes = TableWithHashes(
    head: TableHead,
    rows: seq<TableRow>,
    hashes: seq<F>,
    maxRowsBits: nat,
    maxFields: nat)

  /** `TableRow::zero`: `max_fields` zero fields. */
  function ZeroRow(maxFields: nat): (r: TableRow)
    ensures |r.fields| == maxFields
    ensures forall i :: 0 <= i < maxFields ==> r.fields[i] == 0
    ensures r.maxFields == maxFields
  {
    TableRow(seq(maxFields, _ => 0), maxFields)
  }

  /** `hash_row`: the item's values through a fresh standard sponge. */
  function HashRow(hash: HashFn, item: Hashable): (r: F)
    ensures r == hash(StandardConfig, item.Fields())
  {
    Squeeze(hash, Update(New(StandardConfig), item.Fields()))
  }

  /** Entry 0 is the head hash and entry i+1 the hash of row i. */
  predicate WellHashed(hash: HashFn, t: TableWithHashes) {
    && |t.hashes| == |t.rows| + 1
    && t.hashes[0] == HashRow(hash, HeadItem(t.head))
    && forall i :: 0 <= i < |t.rows| ==> t.hashes[i + 1] == HashRow(hash, RowItem(t.rows[i]))
  }

  function RowHashes(hash: HashFn, rows: seq<TableRow>): (r: seq<F>)
    ensures |r| == |rows|
    ensures forall i :: 0 <= i < |rows| ==> r[i] == HashRow(hash, RowItem(rows[i]))
  {
    seq(|rows|, i requires 0 <= i < |rows| => HashRow(hash, RowItem(rows[i])))
  }

  /** `Table::hash`: the head hash, then each row's hash, beside the unchanged table. */
  function TableHash(hash: HashFn, t: Table): (r: TableWithHashes)
  {
    TableWithHashes(t.head, t.rows, [HashRow(hash, HeadItem(t.head))] + RowHashes(hash, t.rows),
                    t.maxRowsBits, t.maxFields)
  }

  /** A table whose hash list is the head hash followed by its rows' hashes
      is well hashed. */
  lemma RehashedWellHashed(hash: HashFn, head: TableHead, rows: seq<TableRow>, h0: F, maxRowsBits: nat, maxFields: nat)
    requires h0 == HashRow(hash, HeadItem(head))
    ensures WellHashed(hash, TableWithHashes(head, rows, [h0] + RowHashes(hash, rows), maxRowsBits, maxFields))
  {
    var hs := [h0] + RowHashes(hash, rows);
    forall i | 0 <= i < |rows| ensures hs[i + 1] == HashRow(hash, RowItem(rows[i])) {
      assert hs[i + 1] == RowHashes(hash, rows)[i];
    }
  }

  /** `Table::hash` produces a well-hashed table and copies everything else. */
  lemma TableHashWellHashed(hash: HashFn, t: Table)
    ensures WellHashed(hash, TableHash(hash, t))
    ensures |TableHash(hash, t).hashes| == |t.rows| + 1
    ensures TableHash(hash, t).head == t.head && TableHash(hash, t).rows == t.rows
    ensures TableHash(hash, t).maxRowsBits == t.maxRowsBits
    ensures TableHash(hash, t).maxFields == t.maxFields
  {
    var r := TableHash(hash, t);
    forall i | 0 <= i < |t.rows| ensures r.hashes[i + 1] == HashRow(hash, RowItem(t.rows[i])) {
      assert r.hashes[i + 1] == RowHashes(hash, t.rows)[i];
    }
  }

  // ---------------------------------------------------------------------
  // constrain_permutation

  /** The challenge: one standard sponge fed both columns. */
  function PermutationChallenge(hash: HashFn, arr1: seq<F>, arr2: seq<F>): (c: F)
    ensures c == hash(StandardConfig, arr1 + arr2)
  {
    Squeeze(hash, Update(Update(New(StandardConfig), arr1), arr2))
  }

  /** `constrain_permutation`: panics on columns of different lengths,
      otherwise emits the equality of the two grand products' last entries. */
  function ConstrainPermutation(hash: HashFn, arr1: seq<F>, arr2: seq<F>): (r: Result<Constraint>)
    ensures r.Err? <==> |arr1| != |arr2|
    ensures r.Err? ==> r.error == LengthMismatch
  {
    if |arr1| != |arr2| then Err(LengthMismatch)
    else Ok(PermutationCheck(arr1, arr2, PermutationChallenge(hash, arr1, arr2)))
  }

  /** Completeness: two columns holding the same multiset pass the check
      whatever the hash, hence whatever the challenge. */
  lemma ConstrainPermutationComplete(hash: HashFn, arr1: seq<F>, arr2: seq<F>)
    requires multiset(arr1) == multiset(arr2)
    ensures ConstrainPermutation(hash, arr1, arr2).Ok?
    ensures Holds(ConstrainPermutation(hash, arr1, arr2).value)
  {
    GrandProductsAgree(arr1, arr2, PermutationChallenge(hash, arr1, arr2));
  }

  /** The accumulators `constrain_permutation` builds start at one, grow by one
      entry per element, and multiply in `challenge + arr[i]` at each step;
      only their last entries meet in the emitted constraint. */
  lemma ConstrainPermutationAccumulators(hash: HashFn, arr1: seq<F>, arr2: seq<F>)
    requires |arr1| == |arr2|
    ensures var c := hash(StandardConfig, arr1 + arr2);
      var g1, g2 := RunningProduct(arr1, c), RunningProduct(arr2, c);
      && |g1| == |g2| == |arr1| + 1
      && g1[0] == 1 && g2[0] == 1
      && (forall i :: 0 <= i < |arr1| ==> g1[i + 1] == Mul(g1[i], Add(c, arr1[i])))
      && (forall i :: 0 <= i < |arr2| ==> g2[i + 1] == Mul(g2[i], Add(c, arr2[i])))
      && ConstrainPermutation(hash, arr1, arr2) == Ok(Equal(g1[|arr1|], g2[|arr1|]))
  {
    var c := hash(StandardConfig, arr1 + arr2);
    var g1, g2 := RunningProduct(arr1, c), RunningProduct(arr2, c);
    forall i | 0 <= i < |arr1| ensures g1[i + 1] == Mul(g1[i], Add(c, arr1[i])) {
      RunningProductStep(arr1, c, i);
    }
    forall i | 0 <= i < |arr2| ensures g2[i + 1] == Mul(g2[i], Add(c, arr2[i])) {
      RunningProductStep(arr2, c, i);
    }
  }

  // ---------------------------------------------------------------------
  // Constraint pieces of the table `select`.

  /** Per slot, `assert_bit(sel[i])` then `assert_bit(sel_out[i])`. */
  function BitConstraints(sel: seq<F>, selOut: seq<F>): (cs: seq<Constraint>)
    requires |sel| == |selOut|
    ensures |cs| == 2 * |sel|
  {
    seq(2 * |sel|, k requires 0 <= k < 2 * |sel| =>
      if k % 2 == 0 then Bit(sel[k / 2]) else Bit(selOut[k / 2]))
  }

  lemma BitConstraintsHold(sel: seq<F>, selOut: seq<F>)
    requires |sel| == |selOut|
    ensures Satisfied(BitConstraints(sel, selOut)) <==> AllBits(sel) && AllBits(selOut)
  {
    var cs := BitConstraints(sel, selOut);
    if Satisfied(cs) {
      forall i | 0 <= i < |sel| ensures IsBit(sel[i]) && IsBit(selOut[i]) {
        assert Holds(cs[2 * i]) && Holds(cs[2 * i + 1]);
      }
    }
    if AllBits(sel) && AllBits(selOut) {
      forall k | 0 <= k < |cs| ensures Holds(cs[k]) {
        assert IsBit(sel[k / 2]) && IsBit(selOut[k / 2]);
      }
    }
  }

  /** The running sum: add `sel[i]`, subtract `sel_out[i]`, slot by slot. */
  function CmlSum(sel: seq<F>, selOut: seq<F>): F
    requires |sel| == |selOut|
    decreases |sel|
  {
    if |sel| == 0 then 0
    else
      var n := |sel|;
      Sub(Add(CmlSum(sel[..n - 1], selOut[..n - 1]), sel[n - 1]), selOut[n - 1])
  }

  lemma ModAddSub(x: int, a: int, b: int)
    ensures (((x % P) + a) % P - b) % P == (x + a - b) % P
  {
    ModAddLeft(x, a);
    ModAddLeft(x + a, -b);
  }

  /** The running sum is the difference of the two column sums, reduced. */
  lemma {:induction false} CmlSumClosedForm(sel: seq<F>, selOut: seq<F>)
    requires |sel| == |selOut|
    ensures CmlSum(sel, selOut) == (Sum(sel) - Sum(selOut)) % P
    decreases |sel|
  {
    if |sel| > 0 {
      var n := |sel|;
      CmlSumClosedForm(sel[..n - 1], selOut[..n - 1]);
      ModAddSub(Sum(sel[..n - 1]) - Sum(selOut[..n - 1]), sel[n - 1], selOut[n - 1]);
    }
  }

  /** The sum of a 0/1 column counts its ones. */
  lemma {:induction false} SumOfBits(s: seq<F>)
    requires AllBits(s)
    ensures Sum(s) == CountOnes(s)
    decreases |s|
  {
    if |s| > 0 {
      var front := s[..|s| - 1];
      assert AllBits(front) by {
        forall i | 0 <= i < |front| ensures IsBit(front[i]) {
          assert front[i] == s[i];
        }
      }
      SumOfBits(front);
      assert IsBit(s[|s| - 1]);
    }
  }

  /** The `assert_is_const(cml_sum, 0)` constraint holds whenever the two
      0/1 masks have the same number of ones. */
  lemma CmlSumZero(sel: seq<F>, selOut: seq<F>)
    requires |sel| == |selOut|
    requires AllBits(sel) && AllBits(selOut)
    requires CountOnes(sel) == CountOnes(selOut)
    ensures CmlSum(sel, selOut) == 0
  {
    CmlSumClosedForm(sel, selOut);
    SumOfBits(sel);
    SumOfBits(selOut);
  }

  /** Conversely, on 0/1 masks a zero running sum means equally many ones
      (the counts are below P, so the reduction loses nothing). */
  lemma CmlSumZeroSound(sel: seq<F>, selOut: seq<F>)
    requires |sel| == |selOut| < P
    requires AllBits(sel) && AllBits(selOut)
    requires CmlSum(sel, selOut) == 0
    ensures CountOnes(sel) == CountOnes(selOut)
  {
    CmlSumClosedForm(sel, selOut);
    SumOfBits(sel);
    SumOfBits(selOut);
    var d := CountOnes(sel) - CountOnes(selOut);
    assert -P < d < P;
    if d < 0 {
      ModUnique(d, -1, d + P);
    } else {
      ModUnique(d, 0, d);
    }
  }
}
