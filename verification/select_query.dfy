/** examples/select_query.rs: a column `db` filtered by a 0/1 column
    `indices` slot by slot (`out[i] = db[i] * indices[i]`, zero where the
    index is zero), with the whole column committed by a Poseidon sponge
    of 57 partial rounds. */
module QueryCircuit {
  import opened Field
  import opened Poseidon
  import opened Compaction

  /** What one call computes: the filtered column, the commitment, the
      public list and the emitted constraints. */
  datatype QueryTrace = QueryTrace(out: seq<F>, commitment: F, public: seq<F>, constraints: seq<Constraint>)

  /** `assert_bit` on every index. */
  function BitChecks(idx: seq<F>): (cs: seq<Constraint>)
    ensures |cs| == |idx|
    ensures Satisfied(cs) <==> AllBits(idx)
  {
    var cs := seq(|idx|, i requires 0 <= i < |idx| => Bit(idx[i]));
    assert forall i :: 0 <= i < |idx| ==> (Holds(cs[i]) <==> IsBit(idx[i]));
    cs
  }

  /** `out[i] = db[i] * indices[i]`: on a 0/1 index the entry itself or zero. */
  function Filter(d: seq<F>, idx: seq<F>): (out: seq<F>)
    requires |d| == |idx|
    ensures |out| == |d|
    ensures forall i :: 0 <= i < |d| && idx[i] == 1 ==> out[i] == d[i]
    ensures forall i :: 0 <= i < |d| && idx[i] == 0 ==> out[i] == 0
  {
    seq(|d|, i requires 0 <= i < |d| => Mul(d[i], idx[i]))
  }

  /** `select_query`: fails on inputs of different lengths. */
  function SelectQuery(hash: HashFn, db: seq<U64>, indices: seq<U64>): (r: Result<QueryTrace>)
    ensures r.Err? <==> |db| != |indices|
    ensures r.Err? ==> r.error == LengthMismatch
    ensures r.Ok? ==> |r.value.out| == |db| && |r.value.public| == 3 * |db| + 1
    ensures r.Ok? ==> r.value.commitment == hash(QueryConfig, FromU64s(db))
  {
    if |db| != |indices| then Err(LengthMismatch)
    else
      var d, idx := FromU64s(db), FromU64s(indices);
      var out := Filter(d, idx);
      var h := Squeeze(hash, Update(New(QueryConfig), d));
      Ok(QueryTrace(out, h, d + idx + out + [h], BitChecks(idx)))
  }

  /** On a 0/1 index column the output keeps the selected entries in place
      and zeroes the rest: it is the input masked by the indices. */
  lemma SelectQueryMasks(hash: HashFn, db: seq<U64>, indices: seq<U64>)
    requires |db| == |indices|
    requires AllBits(FromU64s(indices))
    ensures var t := SelectQuery(hash, db, indices).value;
      var d, idx := FromU64s(db), FromU64s(indices);
      && (forall i :: 0 <= i < |d| ==> t.out[i] == (if idx[i] == 1 then d[i] else 0))
      && t.out == MaskedWith(d, idx, 0)
  {
    var t := SelectQuery(hash, db, indices).value;
    var d, idx := FromU64s(db), FromU64s(indices);
    assert t.out == Filter(d, idx);
    forall i | 0 <= i < |d| ensures t.out[i] == (if idx[i] == 1 then d[i] else 0) {
      assert IsBit(idx[i]);
    }
  }

  /** Slicing a list laid out as three equal-length blocks and one value. */
  lemma Blocks<T>(a: seq<T>, b: seq<T>, c: seq<T>, x: T)
    requires |a| == |b| == |c|
    ensures var s, n := a + b + c + [x], |a|;
      s[..n] == a && s[n..2 * n] == b && s[2 * n..3 * n] == c && s[3 * n] == x
  {
    var s, n := a + b + c + [x], |a|;
    assert s[..n] == a;
    assert s[n..2 * n] == b;
    assert s[2 * n..3 * n] == c;
  }

  /** The public list: the input, the indices, the output, the commitment. */
  lemma SelectQueryPublic(hash: HashFn, db: seq<U64>, indices: seq<U64>)
    requires |db| == |indices|
    ensures var t := SelectQuery(hash, db, indices).value;
      var n := |db|;
      && t.public[..n] == FromU64s(db)
      && t.public[n..2 * n] == FromU64s(indices)
      && t.public[2 * n..3 * n] == t.out
      && t.public[3 * n] == hash(QueryConfig, FromU64s(db))
  {
    var t := SelectQuery(hash, db, indices).value;
    var d, idx := FromU64s(db), FromU64s(indices);
    assert t.public == d + idx + t.out + [t.commitment];
    Blocks(d, idx, t.out, t.commitment);
  }
}
