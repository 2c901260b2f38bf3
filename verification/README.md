# Verifiable selection and Merkle commitment over a table, in Dafny

This project models the circuit-building code of a SQL-style prover written
against halo2-lib. Each routine builds two things:

- a witness on the host, such as a compacted column, a Merkle tree or a
  filtered table;
- the constraints that a proof of that witness must satisfy.

The model has five parts:

- **The field and its gates.** Field elements are integers modulo the BN254
  scalar modulus `P`. `add`, `sub`, `mul`, `mul_add` and `select` are reduced
  arithmetic. Each emitted `constrain_equal`, `assert_bit` or
  `assert_is_const` becomes a `Constraint` value. A list of constraints is
  `Satisfied` when every one holds.
- **Poseidon.** The sponge is an uninterpreted function
  `(config, values) -> F`. `update` only buffers its input, so squeezing
  after several updates hashes the concatenation of everything absorbed.
  The configuration carries `T`, `RATE`, `R_F` and `R_P`, so the 57-round
  sponge of the query example is a different function from the 56-round
  sponge used everywhere else.
- **Compaction.** This is the left push shared by every example: the
  selected entries in their original order, then padding. The companion
  `sel_out` mask is that many ones followed by zeros.
- **The grand-product permutation check.** It is proved complete: equal
  multisets give equal products of `(challenge + v)` for every challenge.
- **The circuits.**
  - Merkle commitment: `merkelize` in examples/select.rs.
  - Selection with its constraints: `select` in examples/select.rs.
  - The table layer of examples/merkle_db.rs.
  - The masked query of examples/select_query.rs.
  - The left push with a random linear combination in
    examples/push_left_rlc.rs.

Rust panics become `Err` values of a `Result` type. These come from a failed
`assert!`, an index out of bounds and a `usize` subtraction below zero. In
each case the model keeps the order in which the source would hit them.

The table-level `select` of examples/merkle_db.rs is modelled twice:

- `TableSelect.Select` is the code as written.
- `TableSelect.SelectFixed` is a corrected version.

The discrepancies between the two are listed under "Findings".

## Model

| member | source | states |
|---|---|---|
| Poseidon.SqueezeAfterUpdates | examples/select.rs:126-131 | a fresh sponge fed several chunks squeezes to the hash of their concatenation |
| Field.Choose | examples/merkle_db.rs:207 | the gate `select(a, b, s)` yields `a` under a one and `b` under a zero |
| MerkleTree.HashRow | examples/select.rs:99-107 | a row hashes to the 56-round Poseidon of exactly its fields |
| MerkleTree.HashHead | examples/select.rs:110-118 | a head hashes to the 56-round Poseidon of exactly its names |
| MerkleTree.HashTwo | examples/select.rs:134-143 | two nodes hash to the Poseidon of the pair, in that order |
| MerkleTree.HashTable | examples/select.rs:121-132 | the table hash is the Poseidon of the head names followed by every row's fields, row by row |
| MerkleTree.Merkelize | examples/select.rs:155-160 | fails with too-many-rows exactly when there are more than `2^k - 1` rows; otherwise the tree has depth `k + 1` and `2^depth - 1` nodes |
| MerkleTree.LeafLayer | examples/select.rs:162-169 | the leaf layer has exactly `2^k` entries: the head hash, each row's hash in order, then zeros |
| MerkleTree.NextLayerEntry | examples/select.rs:171-177 | entry `j` of the next layer is `hash_two` of entries `2j` and `2j+1` of the layer below |
| MerkleTree.LayersStep | examples/select.rs:171-177 | each layer above the leaves is the next layer built from the one below it |
| MerkleTree.HalvingSizes | examples/select.rs:171-177 | when every layer has half the entries of the one below and the leaves number `2^(c-1)`, layer `i` has `2^(c-1-i)` entries |
| MerkleTree.LayersPaired | examples/select.rs:171-177 | every layer holds `hash_two` of the adjacent pairs of the layer below |
| MerkleTree.LayersHalve | examples/select.rs:171-177 | every layer has half as many entries as the one below, down to a single top entry |
| MerkleTree.MerkelizeLayers | examples/select.rs:162-177 | the layers are `k + 1` halving levels: the leaves as above, each upper layer pairing up the one below, and one root entry on top |
| MerkleTree.RootFirstIndex | examples/select.rs:179-185 | flattening the layers root first puts entry `j` of level `l` (counted from the root) at index `2^l - 1 + j` |
| MerkleTree.RootFirstLength | examples/select.rs:179-185 | the flattened tree of `d` halving layers has `2^d - 1` nodes |
| MerkleTree.RootFirstSplit | examples/select.rs:179-185 | the flattened tree ends with the leaf layer, after the `2^(d-1) - 1` nodes above it |
| MerkleTree.NodeOnLayer | examples/select.rs:179-185 | node `i = 2^l - 1 + j` (entry `j` of level `l` below the root) is `hash_two` of nodes `2i+1` and `2i+2`, when the level below hashes its pairs into level `l` |
| MerkleTree.MerkelizeHeap | examples/select.rs:179-185 | the node list is a heap: every interior node `i` is `hash_two(nodes[2i+1], nodes[2i+2])` |
| MerkleTree.MerkelizeSplit | examples/select.rs:162-185 | the node list is `2^k - 1` interior nodes followed by the leaf layer |
| MerkleTree.MerkelizeLeaves | examples/select.rs:162-185 | the node list has `2^(k+1) - 1` entries and its last `2^k` are the leaf layer: the head hash at `2^k - 1`, then the row hashes in order, then zeros |
| Compaction.OnesIndices | examples/select.rs:202-207 | the positions of the ones in a mask, strictly increasing, each holding a one, and every one listed |
| Compaction.CompactPicksOnes | examples/select.rs:202-207 | the `j`-th kept element is the input at the `j`-th one of the mask |
| Compaction.LeftPushPicksOnes | examples/select.rs:200-211 | slot `j` of the left push holds the input at the `j`-th one of the mask while `j` is below the number of ones, and the padding from there on |
| Compaction.LeftPush | examples/select.rs:200-211 | the output keeps the input's length; its first `#ones` entries are the selected ones in order and the rest are padding |
| Compaction.SelOut | examples/select.rs:200-211 | `sel_out` is 0/1, and entry `j` is one exactly when `j` is below the number of selected entries |
| Compaction.LeftPushPermutesMasked | examples/select.rs:214-216 | the left push is a rearrangement of the input masked by the selection, with padding where the mask is not one |
| Compaction.SelOutSnoc | examples/select.rs:200-211 | appending a bit to the mask adds exactly that bit to `sel_out`, counted as a multiset |
| Compaction.SelOutPermutesMask | examples/select.rs:200-211 | on a 0/1 mask, `sel_out` is a rearrangement of the mask |
| Compaction.CompactAllOnes | examples/select.rs:202-207 | an all-ones mask keeps everything |
| Compaction.CompactNoOnes | examples/select.rs:202-207 | a mask with no ones keeps nothing |
| GrandProduct.RunningProductStep | examples/select.rs:247-295 | each accumulator entry is the previous one times `challenge + v` |
| GrandProduct.GrandProductSnoc | examples/select.rs:247-295 | appending a value multiplies the last accumulator entry by `challenge + v` |
| GrandProduct.GrandProductRemove | examples/select.rs:247-295 | the last accumulator entry of a column is that of the column without one value, times `challenge + v`, wherever the value sits |
| GrandProduct.GrandProductsAgree | examples/select.rs:297-298 | two columns with the same multiset of values end their accumulators equal, whatever the challenge |
| GrandProduct.PermutationCheckComplete | examples/select.rs:297-298 | the final equality constraint holds for every challenge when the columns are permutations of each other |
| Mask.MonotoneConstraintsSound | examples/select.rs:301-312 | if the adjacent-pair constraints hold, a zero in `sel_out` is followed only by zeros |
| Mask.MonotoneConstraintsComplete | examples/select.rs:301-312 | conversely, a 0/1 column in which zeros never return to one satisfies them |
| Mask.SelOutShape | examples/select.rs:200-211 | the host `sel_out` never goes back from zero to one |
| SelectCircuit.Products | examples/select.rs:214-216 | on a 0/1 selector, `prods[i]` is `x[i]` or zero |
| SelectCircuit.ProductsMasked | examples/select.rs:214-216 | on a 0/1 selector, `prods` is `x` masked by the selector with zero padding |
| SelectCircuit.Challenge | examples/select.rs:222-228 | the challenge is the Poseidon of `out`, `prods`, `sel`, `sel_out`, in that order |
| SelectCircuit.SlotConstraintsSound | examples/select.rs:316-336 | the per-slot constraints force `sel_out[i]` to be idempotent and `out[i]` to vanish where `sel_out[i]` is zero |
| SelectCircuit.SlotConstraintsComplete | examples/select.rs:316-336 | a 0/1 `sel_out` whose zeros sit over zeros of `out` satisfies them |
| SelectCircuit.Select | examples/select.rs:301 | fails, by the `len - 1` underflow, exactly on an empty input; otherwise all witness columns keep the input's length |
| SelectCircuit.SelectOutput | examples/select.rs:200-211 | `out` lists the selected `x` in order and then zeros; `sel_out` is one exactly below the selection count and zero exactly from it on |
| SelectCircuit.SelectConstraintsSound | examples/select.rs:297-336 | for any challenge and any witness columns, satisfied constraints give both final product equalities (`out` against `prods`, `sel` against `sel_out`), the monotone shape, idempotent `sel_out` and `out` zero where `sel_out` is |
| SelectCircuit.SelectConstraintsComplete | examples/select.rs:297-336 | any witness with a 0/1 monotone `sel_out` over the zeros of `out`, `out` a rearrangement of `prods` and `sel_out` of `sel`, satisfies every emitted constraint, for every challenge |
| SelectCircuit.HostWitnessComplete | examples/select.rs:200-336 | on a 0/1 selector, the host columns (products, left push, `sel_out`) satisfy every emitted constraint for every challenge |
| SelectCircuit.SelectComplete | examples/select.rs:200-336 | for a 0/1 selector the host witness satisfies every emitted constraint |
| SelectCircuit.SelectAllOnes | examples/select.rs:200-211 | selecting everything returns the input and an all-ones mask |
| SelectCircuit.SelectAllZeros | examples/select.rs:200-211 | selecting nothing returns zeros and an all-zero mask |
| SelectCircuit.SelectExample | examples/select.rs:200-211 | `[3,0,5,0,7]` under `[1,0,1,0,1]` pushes to `[3,5,7,0,0]` with mask `[1,1,1,0,0]` |
| MerkleDb.ZeroRow | examples/merkle_db.rs:33-39 | the zero row has exactly `max_fields` fields, all zero |
| MerkleDb.HashRow | examples/merkle_db.rs:128-136 | a head or a row hashes to the 56-round Poseidon of its values |
| MerkleDb.RowHashes | examples/merkle_db.rs:82-84 | one hash per row, position by position |
| MerkleDb.RehashedWellHashed | examples/merkle_db.rs:79-92 | any table whose hash list is the head hash followed by its rows' hashes is well hashed |
| MerkleDb.TableHashWellHashed | examples/merkle_db.rs:79-92 | `Table::hash` lists the head hash then each row's hash (`rows + 1` entries) and copies head, rows and both bounds unchanged |
| MerkleDb.PermutationChallenge | examples/merkle_db.rs:146-150 | the challenge is the Poseidon of the first column followed by the second |
| MerkleDb.ConstrainPermutation | examples/merkle_db.rs:143 | panics exactly when the columns differ in length |
| MerkleDb.ConstrainPermutationAccumulators | examples/merkle_db.rs:152-170 | each accumulator starts at one, has `n + 1` entries, multiplies in `challenge + arr[i]` at step `i`, and only the last entries are constrained equal |
| MerkleDb.ConstrainPermutationComplete | examples/merkle_db.rs:138-171 | columns with equal multisets pass the check whatever the hash |
| MerkleDb.BitConstraintsHold | examples/merkle_db.rs:215-218 | the interleaved bit checks hold exactly when both masks are 0/1 |
| MerkleDb.CmlSumClosedForm | examples/merkle_db.rs:220-225 | the running sum is `sum(sel) - sum(sel_out)` reduced modulo P |
| MerkleDb.SumOfBits | examples/merkle_db.rs:220-225 | on a 0/1 column the sum counts its ones |
| MerkleDb.CmlSumZero | examples/merkle_db.rs:219-225 | 0/1 masks with equally many ones pass `assert_is_const(cml_sum, 0)` |
| MerkleDb.CmlSumZeroSound | examples/merkle_db.rs:219-225 | on 0/1 masks shorter than P, a zero running sum means equally many ones |
| TableSelect.TableConstraintsSatisfied | examples/merkle_db.rs:210-235 | the emitted list holds exactly when the permutation, bit, running-sum, monotone and slot constraints each hold |
| TableSelect.PaddingHashes | examples/merkle_db.rs:195-199 | padding slot `k + j` is hashed from `out[k + j - 1]` |
| TableSelect.NoNonBit | examples/merkle_db.rs:187 | the loop meets no non-bit exactly when the first `n` mask entries are 0/1 |
| TableSelect.Host | examples/merkle_db.rs:237-243 | the returned table keeps head and both bounds, has `rows.len()` rows and hashes, its hashes are `out_hash`, and `sel_out` has `rows.len() + 1` entries |
| TableSelect.EmittedSatisfied | examples/merkle_db.rs:210-235 | the constraints of a trace hold exactly when the permutation check, both bit checks, the zero running sum, the monotone pairs and the `out_hash` slots hold over the first `rows.len()` entries |
| TableSelect.Select | examples/merkle_db.rs:183-227 | the failure cases in the order the code meets them (missing head hash, non-bit, short mask, nothing selected, missing row hash, empty table); success exactly for a non-empty table, a long-enough 0/1 mask with a one, and enough hashes |
| TableSelect.SelectRows | examples/merkle_db.rs:186-199 | the returned rows are the selected rows in order, then zero rows |
| TableSelect.SelectMasks | examples/merkle_db.rs:183-208 | `hash_zero` is the zero row's hash, `sel_out[0]` is the head hash, `sel_out[j]` for `j >= 1` is one up to the count and zero after it, and `hash_prod[i]` is `hashes[i]` under a one and `hash_zero` under a zero |
| TableSelect.SelectHashes | examples/merkle_db.rs:188-192 | the first `#selected` output hashes are the hashes of the returned rows |
| TableSelect.SelectSeedForcesBit | examples/merkle_db.rs:183 | satisfying the emitted constraints forces the head hash to be 0 or 1 |
| TableSelect.SelectPaddingForcesZeroHash | examples/merkle_db.rs:232-235 | with two or more padding slots, satisfying the constraints forces the zero row's hash to be zero |
| TableSelect.HashSlotZero | examples/merkle_db.rs:232-235 | a slot constraint over a zero `sel_out` forces that `out_hash` entry to zero |
| TableSelect.SelectPaddingHashes | examples/merkle_db.rs:195-199 | the first padding hash repeats the last selected row's hash; later ones are `hash_zero` |
| TableSelect.PaddingLayout | examples/merkle_db.rs:186-199 | in the hash list the loops build, the slot after the last selected row repeats that row's hash and every later slot is the zero row's hash |
| TableSelect.SelectCandidatesShifted | examples/merkle_db.rs:205-208 | on a well-hashed table with the first row selected, candidate 0 is the head hash |
| TableSelect.SelectNothingPanics | examples/merkle_db.rs:195-197 | a non-empty table with nothing selected hits the `i - 1` underflow |
| TableSelect.SelectEmptyPanics | examples/merkle_db.rs:227 | a table with no rows hits the `len - 1` underflow |
| TableSelect.SelectRejectsHonestWitness | examples/merkle_db.rs:183-218 | a concrete well-hashed one-row table whose honest trace fails the emitted constraints |
| TableSelect.SentinelSlotConstraintsSound | examples/merkle_db.rs:231-235 | the corrected slot constraints force `out_hash` to `hash_zero` wherever `sel_out` is zero |
| TableSelect.SentinelSlotConstraintsComplete | examples/merkle_db.rs:231-235 | a 0/1 `sel_out` with `hash_zero` at its zeros satisfies them |
| TableSelect.HostFixed | examples/merkle_db.rs:181-208 | the corrected witness keeps head and bounds, has one output hash per row, and prefixes the head hash to them |
| TableSelect.SelectFixed | examples/merkle_db.rs:173-244 | the corrected routine fails only on a non-bit, a short mask or missing hashes, and succeeds with nothing selected or on an empty table |
| TableSelect.SelectFixedRows | examples/merkle_db.rs:186-199 | selected rows in order then zero rows; `sel_out` is one exactly below the count; padding slots carry `hash_zero` |
| TableSelect.HashesOfLeftPush | examples/merkle_db.rs:186-199 | hashing the pushed rows is pushing the row hashes with `hash_zero` as padding |
| TableSelect.SelectFixedPreservesHashes | examples/merkle_db.rs:237-243 | the corrected output of a well-hashed table is again well hashed |
| TableSelect.HostFixedPreservesHashes | examples/merkle_db.rs:186-199 | the corrected witness of a well-hashed table, for any mask, returns a well-hashed table |
| TableSelect.SelectFixedPermutation | examples/merkle_db.rs:205-210 | the corrected candidates are a rearrangement of the output hashes |
| TableSelect.SelectFixedComplete | examples/merkle_db.rs:173-244 | on a well-hashed table and a 0/1 mask the corrected routine succeeds and its honest trace satisfies every emitted constraint, for every hash |
| TableSelect.SelectFixedSound | examples/merkle_db.rs:210-235 | satisfied corrected constraints give the permutation equality, 0/1 masks with equally many ones, the monotone shape and `hash_zero` at every zero slot |
| PushLeftRlcCircuit.Intermediates | examples/push_left_rlc.rs:40-47 | `i * (gamma - 1) + 1` is gamma under a one and one under a zero |
| PushLeftRlcCircuit.PushLeftRlc | examples/push_left_rlc.rs:30-52 | fails exactly when the lengths differ; otherwise the output keeps the input's length and the public list has `3n + 1` entries |
| PushLeftRlcCircuit.PushLeftRlcOutput | examples/push_left_rlc.rs:33-51 | the output is the entries under a one, in order, then zeros, and a rearrangement of the masked input |
| PushLeftRlcCircuit.PushLeftRlcPublic | examples/push_left_rlc.rs:33-52 | the public list is the input, the indices, gamma, then the output |
| PushLeftRlcCircuit.WeightedExtend | examples/push_left_rlc.rs:48 | one more fold step multiplies every earlier weight by the new intermediate |
| PushLeftRlcCircuit.RlcClosedForm | examples/push_left_rlc.rs:41-48 | the accumulator is `sum_j a[j] * prod_{k > j} w[k]`, computed in the field |
| PushLeftRlcCircuit.RlcUnitWeights | examples/push_left_rlc.rs:41-48 | with every weight one the accumulator is the plain sum, reduced |
| PushLeftRlcCircuit.PushLeftRlcClosedForm | examples/push_left_rlc.rs:41-49 | the circuit's `rlc` is the weighted sum over its own intermediates, in the field |
| PushLeftRlcCircuit.PushLeftRlcAllZero | examples/push_left_rlc.rs:43-49 | all indices zero: `rlc` is the sum of the input, reduced |
| PushLeftRlcCircuit.PushLeftRlcAllOne | examples/push_left_rlc.rs:43-49 | all indices one: `rlc` is `sum_j arr[j] * gamma^(n-1-j)` in the field, the input read as a polynomial at gamma |
| PushLeftRlcCircuit.Accumulate | examples/push_left_rlc.rs:41-49 | the loop as written computes the closed form |
| QueryCircuit.BitChecks | examples/select_query.rs:42-44 | the emitted checks hold exactly when every index is 0 or 1 |
| QueryCircuit.Filter | examples/select_query.rs:46-49 | `db[i] * indices[i]` is `db[i]` under a one and zero under a zero |
| QueryCircuit.SelectQuery | examples/select_query.rs:36-52 | fails exactly when the lengths differ; otherwise `out` has the input's length, the public list `3n + 1` entries, and the published hash is the 57-round Poseidon of `db` |
| QueryCircuit.SelectQueryMasks | examples/select_query.rs:46-49 | on 0/1 indices the output is the input masked by the indices |
| QueryCircuit.SelectQueryPublic | examples/select_query.rs:54-57 | the public list is `db`, the indices, `out`, then the hash |

## Left out

- `main`, command-line parsing, `run`, logging and every `println!` are
  orchestration. `rlc` in examples/push_left_rlc.rs is only printed, so the
  model returns it as a value.
- The serde input structs, `strings_to_table` and `from_str_vartime`
  parsing only load witnesses. Tables are given directly as sequences.
- Poseidon internals are not modelled, and neither is collision
  resistance. The sponge is an uninterpreted function of its configuration
  and absorbed values.
- Soundness of the grand-product argument is not modelled. It rests on
  Fiat–Shamir and the Schwartz–Zippel bound, which are probabilistic. Only
  completeness is proved, together with the definitional facts about the
  accumulators.
- SelectCircuit.SlotConstraintsSound: concludes that `sel_out[i]` is
  idempotent, not that it is 0 or 1. The step from one to the other needs
  `P` to be prime, which is not proved here.
- MerkleDb.CmlSumZeroSound: requires the masks to be shorter than `P`. That
  holds for any table the code can build, but the source states no such
  limit.
- TableSelect.SelectFixedSound: states what satisfied constraints imply
  about the masks and slots. It does not derive that the rows are a
  permutation, which is the probabilistic part above.
- MerkleTree.Merkelize: `1 << max_rows_bits` is computed over unbounded
  integers. A shift past the width of `usize` is not modelled.
- The fixed width 10 of `select` in examples/select.rs is generalised to
  any length `n`. The `out.len() - 1` underflow then appears at `n = 0`.
- A `usize` underflow is modelled as a panic (`Err(SubtractionUnderflow)`).
  A debug build panics at the subtraction itself. A release build wraps,
  and the wrapped index then reads out of bounds (`out[usize::MAX]` in
  examples/merkle_db.rs:197, `sel_out[1]` of a one-entry vector at
  examples/merkle_db.rs:227, `sel_out[0]` of an empty vector at
  examples/select.rs:301), so both builds fail; only the kind of panic
  differs, and the model records the debug-build kind.
- The padding of `output` in examples/push_left_rlc.rs is one unconstrained
  witness cell loaded as zero. It is modelled as the value zero. Nothing
  ties `output` or `rlc` to the inputs by a constraint, and the model emits
  none.
- The commented-out trait impls at examples/select.rs:41-58 and :67-74 are
  not modelled.
- examples/template.rs and examples/less_than.rs are not part of this
  model. They wrap range-check gates whose semantics are not shown.
- examples/halo2_lib.rs is not part of this model. It is a gate-API
  tutorial.
- examples/push_left.rs is not part of this model. It only loads
  witnesses.
- examples/circuit_generator.py is not part of this model. It emits
  strings.
- GrandProduct.RunningProduct, MerkleTree.NextLayer and MerkleTree.Layers
  state only their lengths (and, for Layers, the leaf layer) in their own
  contracts. Their step-by-step behaviour is stated by RunningProductStep,
  NextLayerEntry and LayersStep.

## Findings

Each finding is about the table-level `select` in
examples/merkle_db.rs. The as-written behaviour is `TableSelect.Select`,
with its trace and its emitted constraints. The corrected behaviour is
`TableSelect.SelectFixed`.

| source | as written | input that shows it | evidently intended | confidence | as-written member | corrected member |
|---|---|---|---|---|---|---|
| examples/merkle_db.rs:183 | `sel_out` starts with the head hash, so `assert_bit(sel_out[0])` checks a hash and every later mask entry is shifted by one | a one-row table whose hashes are all 2, selecting that row: the table is well hashed and the call succeeds, but `assert_bit(2)` fails (`SelectRejectsHonestWitness`) | `sel_out` holds only the mask; the head hash is carried separately in the returned hashes | high (not executed) | TableSelect.SelectSeedForcesBit | TableSelect.SelectFixedComplete |
| examples/merkle_db.rs:207 | the candidates read `table.hashes[i]`, whose entry 0 is the head hash, so they are shifted by one against the rows | any well-hashed table with the first row selected: candidate 0 is the head hash, not row 0's hash | `table.hashes[i + 1]` | high (not executed) | TableSelect.SelectCandidatesShifted | TableSelect.SelectFixedPermutation |
| examples/merkle_db.rs:197 | the first padding slot is hashed from `out[i - 1]`, the last selected row | three rows with only the first selected: `out_hash[1]` repeats row 0's hash although `out[1]` is the zero row | hash `out[i]` | high (not executed) | TableSelect.SelectPaddingHashes | TableSelect.SelectFixedRows |
| examples/merkle_db.rs:232-235 | `out_hash[i] * sel_out[i] == out_hash[i]` forces every padding hash to zero | any table with at least two padding slots whose zero-row hash is not zero | padding slots equal `hash_zero`: `(out_hash[i] - hash_zero) * sel_out[i] == out_hash[i] - hash_zero` | high (not executed) | TableSelect.SelectPaddingForcesZeroHash | TableSelect.SentinelSlotConstraintsSound |
| examples/merkle_db.rs:195-197 | with nothing selected, `i - 1` at `i == 0` underflows | a non-empty table and an all-zero mask | return a table of zero rows | medium (not executed) | TableSelect.SelectNothingPanics | TableSelect.SelectFixed |
| examples/merkle_db.rs:227 | `rows.len() - 1` underflows on a table without rows | a table with a head and no rows | return the empty table | medium (not executed) | TableSelect.SelectEmptyPanics | TableSelect.SelectFixedComplete |
