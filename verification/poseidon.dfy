/** The Poseidon sponge as the circuits use it: `new`, any number of
    `update` calls, then one `squeeze`.

    The permutation itself is not modelled.  A hash is a total function
    `HashFn` of the sponge configuration and the absorbed values, passed in
    by the caller, so every property proved here holds for every such
    function; `update` only buffers its input, so squeezing after several
    updates hashes their concatenation. */
module Poseidon {
  import opened Field

  /** Construction parameters `T`, `RATE`, `R_F` and `R_P`. */
  datatype PoseidonConfig = PoseidonConfig(width: nat, rate: nat, fullRounds: nat, partialRounds: nat)

  /** The parameters of select.rs and merkle_db.rs. */
  const StandardConfig: PoseidonConfig := PoseidonConfig(3, 2, 8, 56)

  /** The parameters of select_query.rs, whose partial round count is 57. */
  const QueryConfig: PoseidonConfig := PoseidonConfig(3, 2, 8, 57)

  type HashFn = (PoseidonConfig, seq<F>) -> F

  datatype Sponge = Sponge(config: PoseidonConfig, absorbed: seq<F>)

  /** `PoseidonChip::new`. */
  function New(config: PoseidonConfig): (s: Sponge)
    ensures s.config == config && s.absorbed == []
  {
    Sponge(config, [])
  }

  /** `update`: appends the values to what the sponge has absorbed. */
  function Update(s: Sponge, values: seq<F>): (s': Sponge)
    ensures s'.config == s.config
    ensures |s'.absorbed| == |s.absorbed| + |values|
    ensures s'.absorbed[..|s.absorbed|] == s.absorbed
    ensures s'.absorbed[|s.absorbed|..] == values
  {
    Sponge(s.config, s.absorbed + values)
  }

  /** `squeeze`: one output for everything absorbed so far. */
  function Squeeze(hash: HashFn, s: Sponge): F
  {
    hash(s.config, s.absorbed)
  }

  /** Several `update` calls, one per chunk, in order. */
  function UpdateAll(s: Sponge, chunks: seq<seq<F>>): (s': Sponge)
    ensures s'.config == s.config
    ensures s'.absorbed == s.absorbed + Concat(chunks)
    decreases |chunks|
  {
    if |chunks| == 0 then s
    else
      assert Concat(chunks) == chunks[0] + Concat(chunks[1..]);
      UpdateAll(Update(s, chunks[0]), chunks[1..])
  }

  /** The chunks laid end to end. */
  function Concat(chunks: seq<seq<F>>): (r: seq<F>)
    decreases |chunks|
  {
    if |chunks| == 0 then [] else chunks[0] + Concat(chunks[1..])
  }

  lemma {:induction false} ConcatLength(chunks: seq<seq<F>>, width: nat)
    requires forall i :: 0 <= i < |chunks| ==> |chunks[i]| == width
    ensures |Concat(chunks)| == |chunks| * width
    decreases |chunks|
  {
    if |chunks| > 0 {
      ConcatLength(chunks[1..], width);
    }
  }

  /** Hashing a sequence with a fresh sponge in one `update`. */
  function HashOf(hash: HashFn, config: PoseidonConfig, values: seq<F>): (r: F)
    ensures r == hash(config, values)
  {
    Squeeze(hash, Update(New(config), values))
  }

  /** Updating a fresh sponge chunk by chunk hashes the concatenation. */
  lemma SqueezeAfterUpdates(hash: HashFn, config: PoseidonConfig, chunks: seq<seq<F>>)
    ensures Squeeze(hash, UpdateAll(New(config), chunks)) == hash(config, Concat(chunks))
  {
    assert New(config).absorbed + Concat(chunks) == Concat(chunks);
  }
}
