/** The table-level `select` of examples/merkle_db.rs, transcribed as it is
    written (`Select`), next to a corrected version (`SelectFixed`).

    As written, the routine
    - seeds `sel_out` with the head hash, so every later index of `sel_out`
      is shifted by one and its first bit constraint falls on a hash;
    - builds the permutation candidates from `hashes[i]`, whose entry 0 is
      the head hash, so the candidates are off by one against the rows;
    - hashes the padding from `out[i-1]`, which at the first padding slot is
      the last selected row;
    - asks every slot of `out_hash` to survive multiplication by `sel_out`,
      which forces the hash of the zero row to be zero;
    - panics when no row is selected (`i - 1` at `i == 0`) and when the table
      has no rows (`rows.len() - 1`).
    The corrected version keeps the structure and the emitted constraint
    kinds, and repairs each of these; its completeness is proved below. */
module TableSelect {
  import opened Field
  import opened Poseidon
  import opened Compaction
  import opened GrandProduct
  import opened Mask
  import opened MerkleDb

  /** What one call computes: the returned table, the mask as the loops read
      it (`sel` cut to the row count), `sel_out`, the zero-row hash, the
      permutation candidates `hash_prod` and the output hashes `out_hash`.
      The constraints emitted over it are `Emitted` (as written) and
      `EmittedFixed` (corrected). */
  datatype SelectTrace = SelectTrace(
    table: TableWithHashes,
    mask: seq<F>,
    selOut: seq<F>,
    hashZero: F,
    hashProd: seq<F>,
    outHash: seq<F>)

  predicate TraceShape(t: SelectTrace) {
    |t.mask| == |t.hashProd| == |t.outHash| <= |t.selOut|
  }

  /** The emitted constraints, in source order: the permutation check, the
      interleaved bit checks, the running sum pinned to zero, the adjacent
      pairs of `sel_out`, then one constraint per slot of `out_hash`. */
  function TableConstraints(perm: Constraint, sel: seq<F>, selOut: seq<F>, slots: seq<Constraint>): (cs: seq<Constraint>)
    requires |sel| == |selOut|
  {
    [perm] + BitConstraints(sel, selOut) + [IsConst(CmlSum(sel, selOut), 0)]
    + MonotoneConstraints(selOut) + slots
  }

  /** The list is satisfied exactly when each of its parts is. */
  lemma TableConstraintsSatisfied(perm: Constraint, sel: seq<F>, selOut: seq<F>, slots: seq<Constraint>)
    requires |sel| == |selOut|
    ensures Satisfied(TableConstraints(perm, sel, selOut, slots))
        <==> && Holds(perm)
             && AllBits(sel) && AllBits(selOut)
             && CmlSum(sel, selOut) == 0
             && Satisfied(MonotoneConstraints(selOut))
             && Satisfied(slots)
  {
    var a := [perm];
    var b := BitConstraints(sel, selOut);
    var c := [IsConst(CmlSum(sel, selOut), 0)];
    var d := MonotoneConstraints(selOut);
    assert TableConstraints(perm, sel, selOut, slots) == a + b + c + d + slots;
    SatisfiedAppend(a + b + c + d, slots);
    SatisfiedAppend(a + b + c, d);
    SatisfiedAppend(a + b, c);
    SatisfiedAppend(a, b);
    BitConstraintsHold(sel, selOut);
    assert Satisfied(a) <==> Holds(perm) by {
      assert a[0] == perm;
    }
    assert Satisfied(c) <==> CmlSum(sel, selOut) == 0 by {
      assert Holds(c[0]) <==> CmlSum(sel, selOut) == 0;
    }
  }

  // ---------------------------------------------------------------------
  // As written

  /** Per slot as written: `out_hash[i] * sel_out[i] == out_hash[i]`. */
  function HashSlotConstraints(outHash: seq<F>, selOut: seq<F>): (cs: seq<Constraint>)
    requires |outHash| == |selOut|
    ensures |cs| == |outHash|
  {
    seq(|outHash|, i requires 0 <= i < |outHash| => Equal(Mul(outHash[i], selOut[i]), outHash[i]))
  }

  /** The padding hashes as written: slot i, from k on, hashes `out[i-1]`. */
  function PaddingHashes(hash: HashFn, out: seq<TableRow>, k: nat): (r: seq<F>)
    requires 0 < k <= |out|
    ensures |r| == |out| - k
    ensures forall j :: 0 <= j < |out| - k ==> r[j] == HashRow(hash, RowItem(out[k + j - 1]))
  {
    RowHashes(hash, out[k - 1..|out| - 1])
  }

  /** True when some mask entry the loop reads is neither zero nor one. */
  predicate ReadsNonBit(sel: seq<F>, n: nat) {
    exists i :: 0 <= i < n && i < |sel| && !IsBit(sel[i])
  }

  lemma NoNonBit(sel: seq<F>, n: nat)
    requires n <= |sel|
    ensures !ReadsNonBit(sel, n) <==> AllBits(sel[..n])
  {
    var s := sel[..n];
    if !ReadsNonBit(sel, n) {
      forall i | 0 <= i < n ensures IsBit(s[i]) {
        assert s[i] == sel[i];
      }
    } else {
      var i :| 0 <= i < n && i < |sel| && !IsBit(sel[i]);
      assert s[i] == sel[i];
    }
  }

  /** The host witness of `select` once every check has passed: `s` is the
      mask cut to the table's rows, with at least one one. */
  function Host(hash: HashFn, tw: TableWithHashes, s: seq<F>): (t: SelectTrace)
    requires 0 < |s| == |tw.rows| <= |tw.hashes|
    requires CountOnes(s) > 0
    ensures TraceShape(t) && t.mask == s && t.table.hashes == t.outHash
    ensures t.table.head == tw.head
    ensures t.table.maxRowsBits == tw.maxRowsBits
    ensures t.table.maxFields == tw.maxFields
    ensures |t.table.rows| == |t.outHash| == |tw.rows|
    ensures |t.selOut| == |tw.rows| + 1
  {
    var n := |tw.rows|;
    var k := CountOnes(s);
    var zr := ZeroRow(tw.maxFields);
    var hz := HashRow(hash, RowItem(zr));
    var out := LeftPush(tw.rows, s, zr);
    var outHash := RowHashes(hash, Compact(tw.rows, s)) + PaddingHashes(hash, out, k);
    var selOut := [tw.hashes[0]] + Repeat(1, k) + Repeat(0, n - k);
    var hashProd := seq(n, i requires 0 <= i < n => Choose(tw.hashes[i], hz, s[i]));
    SelectTrace(TableWithHashes(tw.head, out, outHash, tw.maxRowsBits, tw.maxFields),
                s, selOut, hz, hashProd, outHash)
  }

  /** The constraints `select` emits over its witness, as written: the checks
      on `sel_out` read its first `n` entries, head-hash seed included. */
  function Emitted(hash: HashFn, t: SelectTrace): (cs: seq<Constraint>)
    requires TraceShape(t)
  {
    var n := |t.mask|;
    TableConstraints(ConstrainPermutation(hash, t.hashProd, t.outHash).value,
                     t.mask, t.selOut[..n], HashSlotConstraints(t.outHash, t.selOut[..n]))
  }

  /** The emitted constraints hold exactly when the permutation check holds,
      the mask and the first `n` entries of `sel_out` are bits with equal
      running sums, those entries never rise after a zero, and every output
      hash survives multiplication by its `sel_out` entry. */
  lemma EmittedSatisfied(hash: HashFn, t: SelectTrace)
    requires TraceShape(t)
    ensures var n := |t.mask|;
      var so := t.selOut[..n];
      Satisfied(Emitted(hash, t)) <==>
        && Holds(ConstrainPermutation(hash, t.hashProd, t.outHash).value)
        && AllBits(t.mask) && AllBits(so)
        && CmlSum(t.mask, so) == 0
        && Satisfied(MonotoneConstraints(so))
        && Satisfied(HashSlotConstraints(t.outHash, so))
  {
    var n := |t.mask|;
    var so := t.selOut[..n];
    TableConstraintsSatisfied(ConstrainPermutation(hash, t.hashProd, t.outHash).value,
                              t.mask, so, HashSlotConstraints(t.outHash, so));
  }

  /** The table `select` as written.  The panics, in the order the code
      reaches them: `hashes[0]` of an empty hash list; a mask entry that is
      not a bit, or a mask shorter than the rows; `out[i-1]` when nothing was
      selected; `hashes[i]` past a short hash list; `rows.len() - 1` on an
      empty table. */
  function Select(hash: HashFn, tw: TableWithHashes, sel: seq<F>): (r: Result<SelectTrace>)
    ensures |tw.hashes| == 0 ==> r == Err(IndexOutOfBounds)
    ensures |tw.hashes| > 0 && ReadsNonBit(sel, |tw.rows|) ==> r == Err(NotABit)
    ensures |tw.hashes| > 0 && !ReadsNonBit(sel, |tw.rows|) && |sel| < |tw.rows| ==> r == Err(IndexOutOfBounds)
    ensures (0 < |tw.hashes| && 0 < |tw.rows| <= |sel| && AllBits(sel[..|tw.rows|])
             && CountOnes(sel[..|tw.rows|]) == 0) ==> r == Err(SubtractionUnderflow)
    ensures (0 < |tw.hashes| < |tw.rows| <= |sel| && AllBits(sel[..|tw.rows|])
             && CountOnes(sel[..|tw.rows|]) > 0) ==> r == Err(IndexOutOfBounds)
    ensures 0 < |tw.hashes| && |tw.rows| == 0 ==> r == Err(SubtractionUnderflow)
    ensures r.Ok? <==>
      && 0 < |tw.rows| <= |sel| && |tw.rows| <= |tw.hashes|
      && AllBits(sel[..|tw.rows|]) && CountOnes(sel[..|tw.rows|]) > 0
  {
    var n := |tw.rows|;
    if |tw.hashes| == 0 then Err(IndexOutOfBounds)
    else if ReadsNonBit(sel, n) then Err(NotABit)
    else if |sel| < n then Err(IndexOutOfBounds)
    else
      NoNonBit(sel, n);
      var k := CountOnes(sel[..n]);
      if k == 0 && n > 0 then Err(SubtractionUnderflow)
      else if |tw.hashes| < n then Err(IndexOutOfBounds)
      else if n == 0 then Err(SubtractionUnderflow)
      else Ok(Host(hash, tw, sel[..n]))
  }

  /** The rows `select` returns: the selected rows in their original order,
      then zero rows. */
  lemma SelectRows(hash: HashFn, tw: TableWithHashes, sel: seq<F>)
    requires Select(hash, tw, sel).Ok?
    ensures var s := sel[..|tw.rows|];
      var out := Select(hash, tw, sel).value.table.rows;
      && (forall j :: 0 <= j < CountOnes(s) ==> out[j] == tw.rows[OnesIndices(s)[j]])
      && (forall j :: CountOnes(s) <= j < |out| ==> out[j] == ZeroRow(tw.maxFields))
  {
    var s := sel[..|tw.rows|];
    var out := LeftPush(tw.rows, s, ZeroRow(tw.maxFields));
    assert Select(hash, tw, sel).value.table.rows == out;
    CompactPicksOnes(tw.rows, s);
    assert forall j :: 0 <= j < CountOnes(s) ==> out[j] == out[..CountOnes(s)][j];
  }

  /** The masks as written: `sel_out` is the head hash, then one one per
      selected row, then zeros; the candidate at slot i is `hashes[i]` when
      `sel[i]` is one and the zero-row hash otherwise. */
  lemma SelectMasks(hash: HashFn, tw: TableWithHashes, sel: seq<F>)
    requires Select(hash, tw, sel).Ok?
    ensures var s := sel[..|tw.rows|];
      var t := Select(hash, tw, sel).value;
      && t.hashZero == HashRow(hash, RowItem(ZeroRow(tw.maxFields)))
      && t.selOut[0] == tw.hashes[0]
      && (forall j :: 1 <= j <= |tw.rows| ==> (t.selOut[j] == 1 <==> j <= CountOnes(s)))
      && (forall j :: 1 <= j <= |tw.rows| ==> (t.selOut[j] == 0 <==> CountOnes(s) < j))
      && (forall i :: 0 <= i < |tw.rows| ==> t.hashProd[i] == (if s[i] == 1 then tw.hashes[i] else t.hashZero))
  {
    var n := |tw.rows|;
    var s := sel[..n];
    var k := CountOnes(s);
    var t := Host(hash, tw, s);
    var ones, zeros := Repeat(1 as F, k), Repeat(0 as F, n - k);
    assert t.selOut == [tw.hashes[0]] + ones + zeros;
    forall j | 1 <= j <= n ensures (t.selOut[j] == 1 <==> j <= k) && (t.selOut[j] == 0 <==> k < j) {
      if j <= k {
        assert t.selOut[j] == ones[j - 1];
      } else {
        assert t.selOut[j] == zeros[j - 1 - k];
      }
    }
    assert t.hashZero == HashRow(hash, RowItem(ZeroRow(tw.maxFields)));
    forall i | 0 <= i < n ensures t.hashProd[i] == (if s[i] == 1 then tw.hashes[i] else t.hashZero) {
      assert IsBit(s[i]);
    }
  }

  /** The first `k` output hashes are the hashes of the selected rows. */
  lemma SelectHashes(hash: HashFn, tw: TableWithHashes, sel: seq<F>)
    requires Select(hash, tw, sel).Ok?
    ensures var t := Select(hash, tw, sel).value;
      forall j :: 0 <= j < CountOnes(sel[..|tw.rows|]) ==>
        t.table.hashes[j] == HashRow(hash, RowItem(t.table.rows[j]))
  {
    var n := |tw.rows|;
    var s := sel[..n];
    var k := CountOnes(s);
    var t := Host(hash, tw, s);
    var out := LeftPush(tw.rows, s, ZeroRow(tw.maxFields));
    var c := Compact(tw.rows, s);
    assert t.table.rows == out;
    assert t.table.hashes == RowHashes(hash, c) + PaddingHashes(hash, out, k);
    forall j | 0 <= j < k ensures t.table.hashes[j] == HashRow(hash, RowItem(out[j])) {
      assert out[j] == out[..k][j] == c[j];
      assert t.table.hashes[j] == RowHashes(hash, c)[j];
    }
  }

  // Findings about the code as written.

  /** The head hash seeds `sel_out`, and the bit check on `sel_out[0]` falls
      on it: a satisfied circuit needs a head hash of zero or one. */
  lemma SelectSeedForcesBit(hash: HashFn, tw: TableWithHashes, sel: seq<F>)
    requires Select(hash, tw, sel).Ok?
    requires Satisfied(Emitted(hash, Select(hash, tw, sel).value))
    ensures IsBit(tw.hashes[0])
  {
    var n := |tw.rows|;
    var t := Select(hash, tw, sel).value;
    assert t.selOut[0] == tw.hashes[0] by {
      SelectMasks(hash, tw, sel);
    }
    EmittedSatisfied(hash, t);
    assert t.selOut[..n][0] == t.selOut[0];
  }

  /** With two or more padding slots, the last slot holds the zero-row hash
      and a zero in `sel_out`, so its constraint forces that hash to be zero. */
  lemma SelectPaddingForcesZeroHash(hash: HashFn, tw: TableWithHashes, sel: seq<F>)
    requires Select(hash, tw, sel).Ok?
    requires CountOnes(sel[..|tw.rows|]) + 1 < |tw.rows|
    requires Satisfied(Emitted(hash, Select(hash, tw, sel).value))
    ensures HashRow(hash, RowItem(ZeroRow(tw.maxFields))) == 0
  {
    var t := Select(hash, tw, sel).value;
    EmittedSatisfied(hash, t);
    PaddingSlotZero(hash, tw, sel);
  }

  /** The slot constraints alone already force the zero-row hash to zero
      once there are two or more padding slots. */
  lemma PaddingSlotZero(hash: HashFn, tw: TableWithHashes, sel: seq<F>)
    requires Select(hash, tw, sel).Ok?
    requires CountOnes(sel[..|tw.rows|]) + 1 < |tw.rows|
    requires var t := Select(hash, tw, sel).value;
      Satisfied(HashSlotConstraints(t.outHash, t.selOut[..|tw.rows|]))
    ensures HashRow(hash, RowItem(ZeroRow(tw.maxFields))) == 0
  {
    var n := |tw.rows|;
    var t := Select(hash, tw, sel).value;
    LastPaddingSlot(hash, tw, sel);
    assert t.selOut[..n][n - 1] == t.selOut[n - 1];
    HashSlotZero(t.outHash, t.selOut[..n], n - 1);
  }

  /** With two or more padding slots, the last slot's `sel_out` entry is zero
      and its output hash is the zero-row hash. */
  lemma LastPaddingSlot(hash: HashFn, tw: TableWithHashes, sel: seq<F>)
    requires Select(hash, tw, sel).Ok?
    requires CountOnes(sel[..|tw.rows|]) + 1 < |tw.rows|
    ensures var t, n := Select(hash, tw, sel).value, |tw.rows|;
      && t.selOut[n - 1] == 0
      && t.outHash[n - 1] == t.hashZero == HashRow(hash, RowItem(ZeroRow(tw.maxFields)))
  {
    var n := |tw.rows|;
    var k := CountOnes(sel[..n]);
    SelectPaddingHashes(hash, tw, sel);
    SelectMasks(hash, tw, sel);
    assert 1 <= n - 1 <= n && k < n - 1;
  }

  /** A slot whose `sel_out` entry is zero must hold zero in `out_hash`. */
  lemma HashSlotZero(outHash: seq<F>, selOut: seq<F>, i: nat)
    requires |outHash| == |selOut| && i < |outHash|
    requires Satisfied(HashSlotConstraints(outHash, selOut))
    requires selOut[i] == 0
    ensures outHash[i] == 0
  {
    assert Holds(HashSlotConstraints(outHash, selOut)[i]);
  }

  /** The padding hashes as written: the first padding slot repeats the hash
      of the last selected row, and only the later ones hash a zero row. */
  lemma SelectPaddingHashes(hash: HashFn, tw: TableWithHashes, sel: seq<F>)
    requires Select(hash, tw, sel).Ok?
    ensures var k := CountOnes(sel[..|tw.rows|]);
      var t := Select(hash, tw, sel).value;
      && (k < |tw.rows| ==> t.outHash[k] == t.outHash[k - 1])
      && (forall j :: k < j < |tw.rows| ==> t.outHash[j] == t.hashZero)
  {
    HostPaddingHashes(hash, tw, sel[..|tw.rows|]);
  }

  lemma HostPaddingHashes(hash: HashFn, tw: TableWithHashes, s: seq<F>)
    requires 0 < |s| == |tw.rows| <= |tw.hashes|
    requires CountOnes(s) > 0
    ensures var k := CountOnes(s);
      var t := Host(hash, tw, s);
      && (k < |tw.rows| ==> t.outHash[k] == t.outHash[k - 1])
      && (forall j :: k < j < |tw.rows| ==> t.outHash[j] == t.hashZero)
  {
    var zr := ZeroRow(tw.maxFields);
    var t := Host(hash, tw, s);
    assert t.hashZero == HashRow(hash, RowItem(zr));
    assert t.outHash == RowHashes(hash, Compact(tw.rows, s)) + PaddingHashes(hash, LeftPush(tw.rows, s, zr), CountOnes(s));
    PaddingLayout(hash, tw.rows, s, zr);
  }

  /** The output hashes as the loop lays them out: the hash of the last
      selected row repeats at the first padding slot. */
  lemma PaddingLayout(hash: HashFn, rows: seq<TableRow>, s: seq<F>, zr: TableRow)
    requires |rows| == |s| && CountOnes(s) > 0
    ensures var n, k := |rows|, CountOnes(s);
      var out := LeftPush(rows, s, zr);
      var oh := RowHashes(hash, Compact(rows, s)) + PaddingHashes(hash, out, k);
      && (k < n ==> oh[k] == oh[k - 1])
      && (forall j :: k < j < n ==> oh[j] == HashRow(hash, RowItem(zr)))
  {
    var n, k := |rows|, CountOnes(s);
    var out := LeftPush(rows, s, zr);
    var c := Compact(rows, s);
    var front := RowHashes(hash, c);
    var pad := PaddingHashes(hash, out, k);
    var oh := front + pad;
    if k < n {
      assert oh[k] == oh[k - 1] by {
        assert oh[k] == pad[0] == HashRow(hash, RowItem(out[k - 1]));
        assert out[k - 1] == out[..k][k - 1] == c[k - 1];
        assert oh[k - 1] == front[k - 1];
      }
    }
    forall j | k < j < n ensures oh[j] == HashRow(hash, RowItem(zr)) {
      assert oh[j] == pad[j - k] == HashRow(hash, RowItem(out[j - 1]));
      assert out[j - 1] == zr;
    }
  }

  /** The candidate at slot 0 is the head hash whenever row 0 is selected,
      although the head is never among the output rows. */
  lemma SelectCandidatesShifted(hash: HashFn, tw: TableWithHashes, sel: seq<F>)
    requires Select(hash, tw, sel).Ok?
    requires WellHashed(hash, tw)
    requires sel[0] == 1
    ensures Select(hash, tw, sel).value.hashProd[0] == HashRow(hash, HeadItem(tw.head))
  {
    SelectMasks(hash, tw, sel);
    assert sel[..|tw.rows|][0] == sel[0];
  }

  /** Selecting nothing from a non-empty table panics at `out[i-1]`. */
  lemma SelectNothingPanics(hash: HashFn, tw: TableWithHashes, sel: seq<F>)
    requires |tw.hashes| > 0 && 0 < |tw.rows| <= |sel|
    requires forall i :: 0 <= i < |tw.rows| ==> sel[i] == 0
    ensures Select(hash, tw, sel) == Err(SubtractionUnderflow)
  {
    var s := sel[..|tw.rows|];
    assert !ReadsNonBit(sel, |tw.rows|);
    assert forall i :: 0 <= i < |s| ==> s[i] != 1;
    CompactNoOnes(s, s);
  }

  /** An empty table panics at `rows.len() - 1`. */
  lemma SelectEmptyPanics(hash: HashFn, tw: TableWithHashes, sel: seq<F>)
    requires |tw.hashes| > 0 && |tw.rows| == 0
    ensures Select(hash, tw, sel) == Err(SubtractionUnderflow)
  {
    assert !ReadsNonBit(sel, 0);
  }

  /** A concrete instance: with a hash that returns 2 everywhere, a one-row
      table with a well-formed hash list and the mask [1] yields a host
      witness that violates its own constraints. */
  lemma SelectRejectsHonestWitness(hash: HashFn, tw: TableWithHashes, sel: seq<F>)
    requires forall cfg: PoseidonConfig, v: seq<F> :: hash(cfg, v) == 2
    requires tw == TableWithHashes(TableHead([1], 1), [TableRow([5], 1)], [2, 2], 1, 1)
    requires sel == [1]
    ensures WellHashed(hash, tw)
    ensures Select(hash, tw, sel).Ok?
    ensures !Satisfied(Emitted(hash, Select(hash, tw, sel).value))
  {
    assert sel[..1] == [1];
    assert CountOnes(sel) == 1 by {
      assert sel[..0] == [];
    }
    assert Select(hash, tw, sel).Ok?;
    if Satisfied(Emitted(hash, Select(hash, tw, sel).value)) {
      SelectSeedForcesBit(hash, tw, sel);
      assert false;
    }
  }

  // ---------------------------------------------------------------------
  // Corrected

  /** Per slot, corrected: `out_hash[i] - hash_zero` survives multiplication
      by `sel_out[i]`, so only the padding sentinel may sit under a zero. */
  function SentinelSlotConstraints(outHash: seq<F>, selOut: seq<F>, hz: F): (cs: seq<Constraint>)
    requires |outHash| == |selOut|
    ensures |cs| == |outHash|
  {
    seq(|outHash|, i requires 0 <= i < |outHash| =>
      Equal(Mul(Sub(outHash[i], hz), selOut[i]), Sub(outHash[i], hz)))
  }

  lemma SentinelSlotConstraintsSound(outHash: seq<F>, selOut: seq<F>, hz: F)
    requires |outHash| == |selOut|
    requires Satisfied(SentinelSlotConstraints(outHash, selOut, hz))
    ensures forall i :: 0 <= i < |outHash| && selOut[i] == 0 ==> outHash[i] == hz
  {
    var cs := SentinelSlotConstraints(outHash, selOut, hz);
    forall i | 0 <= i < |outHash| && selOut[i] == 0 ensures outHash[i] == hz {
      assert Holds(cs[i]);
      assert Sub(outHash[i], hz) == 0;
    }
  }

  lemma SentinelSlotConstraintsComplete(outHash: seq<F>, selOut: seq<F>, hz: F)
    requires |outHash| == |selOut|
    requires AllBits(selOut)
    requires forall i :: 0 <= i < |outHash| && selOut[i] == 0 ==> outHash[i] == hz
    ensures Satisfied(SentinelSlotConstraints(outHash, selOut, hz))
  {
    var cs := SentinelSlotConstraints(outHash, selOut, hz);
    forall i | 0 <= i < |cs| ensures Holds(cs[i]) {
      assert IsBit(selOut[i]);
    }
  }

  /** The corrected host witness: candidates from `hashes[i+1]`, padding
      hashes from the zero row, `sel_out` without a seed, and the returned
      hash list keeps the head hash in front. */
  function HostFixed(hash: HashFn, tw: TableWithHashes, s: seq<F>): (t: SelectTrace)
    requires |s| == |tw.rows| < |tw.hashes|
    ensures TraceShape(t) && t.mask == s
    ensures t.table.head == tw.head
    ensures t.table.maxRowsBits == tw.maxRowsBits
    ensures t.table.maxFields == tw.maxFields
    ensures |t.table.rows| == |t.selOut| == |t.outHash| == |tw.rows|
    ensures t.table.hashes == [tw.hashes[0]] + t.outHash
  {
    var n := |tw.rows|;
    var zr := ZeroRow(tw.maxFields);
    var hz := HashRow(hash, RowItem(zr));
    var out := LeftPush(tw.rows, s, zr);
    var outHash := RowHashes(hash, out);
    var hashProd := seq(n, i requires 0 <= i < n => Choose(tw.hashes[i + 1], hz, s[i]));
    SelectTrace(TableWithHashes(tw.head, out, [tw.hashes[0]] + outHash, tw.maxRowsBits, tw.maxFields),
                s, SelOut(s), hz, hashProd, outHash)
  }

  /** The corrected constraints: the slot constraint allows the zero-row hash
      under a zero of `sel_out`. */
  function EmittedFixed(hash: HashFn, t: SelectTrace): (cs: seq<Constraint>)
    requires TraceShape(t) && |t.selOut| == |t.mask|
  {
    TableConstraints(ConstrainPermutation(hash, t.hashProd, t.outHash).value,
                     t.mask, t.selOut, SentinelSlotConstraints(t.outHash, t.selOut, t.hashZero))
  }

  /** The corrected `select`: the same mask and length checks, and no panic
      for an empty selection or an empty table. */
  function SelectFixed(hash: HashFn, tw: TableWithHashes, sel: seq<F>): (r: Result<SelectTrace>)
    ensures ReadsNonBit(sel, |tw.rows|) ==> r == Err(NotABit)
    ensures r.Ok? <==> |tw.rows| <= |sel| && |tw.rows| < |tw.hashes| && AllBits(sel[..|tw.rows|])
    ensures r.Ok? ==> r.value == HostFixed(hash, tw, sel[..|tw.rows|])
  {
    var n := |tw.rows|;
    if ReadsNonBit(sel, n) then Err(NotABit)
    else if |sel| < n then Err(IndexOutOfBounds)
    else if |tw.hashes| < n + 1 then Err(IndexOutOfBounds)
    else
      NoNonBit(sel, n);
      Ok(HostFixed(hash, tw, sel[..n]))
  }

  /** The corrected output: the selected rows in order then zero rows;
      `sel_out` is one exactly on the copied slots; a zero of `sel_out` sits
      over the zero-row hash. */
  lemma SelectFixedRows(hash: HashFn, tw: TableWithHashes, sel: seq<F>)
    requires SelectFixed(hash, tw, sel).Ok?
    ensures var s := sel[..|tw.rows|];
      var t := SelectFixed(hash, tw, sel).value;
      && (forall j :: 0 <= j < CountOnes(s) ==> t.table.rows[j] == tw.rows[OnesIndices(s)[j]])
      && (forall j :: CountOnes(s) <= j < |tw.rows| ==> t.table.rows[j] == ZeroRow(tw.maxFields))
      && (forall j :: 0 <= j < |tw.rows| ==> (t.selOut[j] == 1 <==> j < CountOnes(s)))
      && (forall j :: 0 <= j < |tw.rows| && t.selOut[j] == 0 ==> t.outHash[j] == t.hashZero)
  {
    var s := sel[..|tw.rows|];
    var t := HostFixed(hash, tw, s);
    var zr := ZeroRow(tw.maxFields);
    var out := LeftPush(tw.rows, s, zr);
    assert t.table.rows == out && t.outHash == RowHashes(hash, out);
    assert t.selOut == SelOut(s) && t.hashZero == HashRow(hash, RowItem(zr));
    CompactPicksOnes(tw.rows, s);
    assert forall j :: 0 <= j < CountOnes(s) ==> out[j] == out[..CountOnes(s)][j];
  }

  /** The corrected `select` maps a well-hashed table to a well-hashed table. */
  lemma SelectFixedPreservesHashes(hash: HashFn, tw: TableWithHashes, sel: seq<F>)
    requires SelectFixed(hash, tw, sel).Ok?
    requires WellHashed(hash, tw)
    ensures WellHashed(hash, SelectFixed(hash, tw, sel).value.table)
  {
    HostFixedPreservesHashes(hash, tw, sel[..|tw.rows|]);
  }

  lemma HostFixedPreservesHashes(hash: HashFn, tw: TableWithHashes, s: seq<F>)
    requires |s| == |tw.rows|
    requires WellHashed(hash, tw)
    ensures WellHashed(hash, HostFixed(hash, tw, s).table)
  {
    var t := HostFixed(hash, tw, s).table;
    RehashedWellHashed(hash, t.head, t.rows, tw.hashes[0], t.maxRowsBits, t.maxFields);
  }

  /** Hashing the left-pushed rows is left-pushing the row hashes, with the
      zero-row hash as padding. */
  lemma HashesOfLeftPush(hash: HashFn, rows: seq<TableRow>, hs: seq<F>, s: seq<F>, zr: TableRow)
    requires |rows| == |s| == |hs|
    requires forall i :: 0 <= i < |rows| ==> hs[i] == HashRow(hash, RowItem(rows[i]))
    ensures RowHashes(hash, LeftPush(rows, s, zr)) == LeftPush(hs, s, HashRow(hash, RowItem(zr)))
  {
    var k := CountOnes(s);
    var out := LeftPush(rows, s, zr);
    var hz := HashRow(hash, RowItem(zr));
    var lhs := RowHashes(hash, out);
    var rhs := LeftPush(hs, s, hz);
    CompactMap(rows, hs, s, (row: TableRow) => HashRow(hash, RowItem(row)));
    forall j | 0 <= j < |rows| ensures lhs[j] == rhs[j] {
      if j < k {
        assert out[j] == out[..k][j];
        assert rhs[j] == rhs[..k][j];
      }
    }
  }

  /** The corrected candidates are a permutation of the corrected output
      hashes when the input table is well hashed and the mask is 0/1. */
  lemma SelectFixedPermutation(hash: HashFn, tw: TableWithHashes, sel: seq<F>)
    requires SelectFixed(hash, tw, sel).Ok?
    requires WellHashed(hash, tw)
    ensures var t := SelectFixed(hash, tw, sel).value;
      multiset(t.hashProd) == multiset(t.outHash)
  {
    var n := |tw.rows|;
    var s := sel[..n];
    var t := HostFixed(hash, tw, s);
    var zr := ZeroRow(tw.maxFields);
    var hz := HashRow(hash, RowItem(zr));
    var hs := tw.hashes[1..n + 1];
    assert t.hashProd == MaskedWith(hs, s, hz) by {
      forall i | 0 <= i < n ensures t.hashProd[i] == MaskedWith(hs, s, hz)[i] {
        assert IsBit(s[i]);
      }
    }
    assert t.outHash == RowHashes(hash, LeftPush(tw.rows, s, zr));
    HashesOfLeftPush(hash, tw.rows, hs, s, zr);
    LeftPushPermutesMasked(hs, s, hz);
  }

  /** For every hash function and every 0/1 mask over a well-hashed table,
      the corrected host witness satisfies every constraint it emits. */
  lemma SelectFixedComplete(hash: HashFn, tw: TableWithHashes, sel: seq<F>)
    requires WellHashed(hash, tw)
    requires |tw.rows| <= |sel| && AllBits(sel[..|tw.rows|])
    ensures SelectFixed(hash, tw, sel).Ok?
    ensures Satisfied(EmittedFixed(hash, SelectFixed(hash, tw, sel).value))
  {
    var s := sel[..|tw.rows|];
    var t := SelectFixed(hash, tw, sel).value;
    SelectFixedPermutation(hash, tw, sel);
    ConstrainPermutationComplete(hash, t.hashProd, t.outHash);
    SelectFixedRows(hash, tw, sel);
    assert t.selOut == SelOut(s);
    SelOutPermutesMask(s);
    assert CountOnes(t.selOut) == CountOnes(s) by {
      CountOnesMultiset(s);
      CountOnesMultiset(t.selOut);
    }
    CmlSumZero(s, t.selOut);
    MonotoneConstraintsComplete(t.selOut);
    SentinelSlotConstraintsComplete(t.outHash, t.selOut, t.hashZero);
    TableConstraintsSatisfied(ConstrainPermutation(hash, t.hashProd, t.outHash).value,
                              s, t.selOut, SentinelSlotConstraints(t.outHash, t.selOut, t.hashZero));
  }

  /** What the corrected constraints enforce on any witness: 0/1 masks with
      equally many ones, `sel_out` ones then zeros, the zero-row hash under
      every zero of `sel_out`, and agreeing grand products. */
  lemma SelectFixedSound(perm: Constraint, sel: seq<F>, selOut: seq<F>, outHash: seq<F>, hz: F)
    requires |sel| == |selOut| == |outHash| < P
    requires Satisfied(TableConstraints(perm, sel, selOut, SentinelSlotConstraints(outHash, selOut, hz)))
    ensures Holds(perm)
    ensures AllBits(sel) && AllBits(selOut)
    ensures CountOnes(sel) == CountOnes(selOut)
    ensures ZeroStaysZero(selOut)
    ensures forall i :: 0 <= i < |outHash| && selOut[i] == 0 ==> outHash[i] == hz
  {
    TableConstraintsSatisfied(perm, sel, selOut, SentinelSlotConstraints(outHash, selOut, hz));
    CmlSumZeroSound(sel, selOut);
    MonotoneConstraintsSound(selOut);
    SentinelSlotConstraintsSound(outHash, selOut, hz);
  }
}
