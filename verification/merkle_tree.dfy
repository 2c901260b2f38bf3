/** The table model of examples/select.rs and its commitments: row, head and
    whole-table hashes, the two-to-one node hash, and `merkelize`, which
    builds a perfect binary tree over the row hashes and stores it in heap
    order (root at index 0, children of node i at 2i+1 and 2i+2). */
module MerkleTree {
  import opened Field
  import opened Poseidon

  datatype TableRow = TableRow(fields: seq<F>, maxFieldsBits: nat)

  datatype TableHead = TableHead(names: seq<F>, maxFieldsBits: nat)

  /** At most 2^maxRowsBits - 1 rows: the head takes the first leaf. */
  datatype Table = Table(head: TableHead, rows: seq<TableRow>, maxRowsBits: nat)

  datatype Tree = Tree(nodes: seq<F>, depth: nat)

  function Pow2(n: nat): (r: nat)
    ensures r >= 1
  {
    if n == 0 then 1 else 2 * Pow2(n - 1)
  }

  lemma Pow2Double(n: nat)
    ensures Pow2(n + 1) == 2 * Pow2(n)
  {
  }

  lemma {:induction false} Pow2Monotone(a: nat, b: nat)
    requires a <= b
    ensures Pow2(a) <= Pow2(b)
    decreases b - a
  {
    if a < b {
      Pow2Monotone(a, b - 1);
    }
  }

  // ---------------------------------------------------------------------
  // Hashing: each call uses a fresh sponge with the standard parameters.

  function HashRow(hash: HashFn, row: TableRow): (r: F)
    ensures r == hash(StandardConfig, row.fields)
  {
    HashOf(hash, StandardConfig, row.fields)
  }

  function HashHead(hash: HashFn, head: TableHead): (r: F)
    ensures r == hash(StandardConfig, head.names)
  {
    HashOf(hash, StandardConfig, head.names)
  }

  /** The node hash: exactly two values through a fresh sponge. */
  function HashTwo(hash: HashFn, a: F, b: F): (r: F)
    ensures r == hash(StandardConfig, [a, b])
  {
    HashOf(hash, StandardConfig, [a, b])
  }

  function RowFields(rows: seq<TableRow>): (r: seq<seq<F>>)
    ensures |r| == |rows|
    ensures forall i :: 0 <= i < |rows| ==> r[i] == rows[i].fields
  {
    seq(|rows|, i requires 0 <= i < |rows| => rows[i].fields)
  }

  /** `hash_table`: the head names, then each row, through ONE sponge; the
      result is the hash of all of them laid end to end. */
  function HashTable(hash: HashFn, t: Table): (r: F)
    ensures r == hash(StandardConfig, t.head.names + Concat(RowFields(t.rows)))
  {
    var chunks := [t.head.names] + RowFields(t.rows);
    SqueezeAfterUpdates(hash, StandardConfig, chunks);
    assert chunks[1..] == RowFields(t.rows);
    Squeeze(hash, UpdateAll(New(StandardConfig), chunks))
  }

  // ---------------------------------------------------------------------
  // Tree layers.

  function RowHashes(hash: HashFn, rows: seq<TableRow>): (r: seq<F>)
    ensures |r| == |rows|
    ensures forall i :: 0 <= i < |rows| ==> r[i] == HashRow(hash, rows[i])
  {
    seq(|rows|, i requires 0 <= i < |rows| => HashRow(hash, rows[i]))
  }

  /** Layer 0: the head hash, the row hashes, then literal zeros up to 2^k. */
  function LeafLayer(hash: HashFn, t: Table): (r: seq<F>)
    requires |t.rows| <= Pow2(t.maxRowsBits) - 1
    ensures |r| == Pow2(t.maxRowsBits)
    ensures r[0] == HashHead(hash, t.head)
    ensures forall i :: 0 <= i < |t.rows| ==> r[i + 1] == HashRow(hash, t.rows[i])
    ensures forall j :: |t.rows| < j < |r| ==> r[j] == 0
  {
    [HashHead(hash, t.head)] + RowHashes(hash, t.rows)
    + seq(Pow2(t.maxRowsBits) - 1 - |t.rows|, _ => 0)
  }

  /** The layer above: entry j hashes entries 2j and 2j+1. */
  function NextLayer(hash: HashFn, layer: seq<F>): (r: seq<F>)
    ensures |r| == |layer| / 2
  {
    seq(|layer| / 2, j requires 0 <= j < |layer| / 2 => HashTwo(hash, layer[2 * j], layer[2 * j + 1]))
  }

  /** Stated per entry rather than as a quantified postcondition of
      `NextLayer`, which would chain through every layer of a tree. */
  lemma NextLayerEntry(hash: HashFn, layer: seq<F>, j: nat)
    requires j < |layer| / 2
    ensures NextLayer(hash, layer)[j] == HashTwo(hash, layer[2 * j], layer[2 * j + 1])
  {
  }

  /** `count` layers, leaves first, each built from the one below. */
  function Layers(hash: HashFn, leaves: seq<F>, count: nat): (ls: seq<seq<F>>)
    ensures |ls| == count
    ensures count > 0 ==> ls[0] == leaves
    decreases count
  {
    if count == 0 then []
    else [leaves] + Layers(hash, NextLayer(hash, leaves), count - 1)
  }

  /** Layer i + 1 of a stack of `count` is built from the next layer's stack. */
  lemma LayersTail(hash: HashFn, leaves: seq<F>, count: nat, i: nat)
    requires 0 < i < count
    ensures Layers(hash, leaves, count)[i] == Layers(hash, NextLayer(hash, leaves), count - 1)[i - 1]
  {
  }

  /** Each layer above the leaves is built from the one below it. */
  lemma {:induction false} LayersStep(hash: HashFn, leaves: seq<F>, count: nat, i: nat)
    requires i + 1 < count
    ensures Layers(hash, leaves, count)[i + 1] == NextLayer(hash, Layers(hash, leaves, count)[i])
    decreases i
  {
    var next := NextLayer(hash, leaves);
    LayersTail(hash, leaves, count, i + 1);
    if i > 0 {
      LayersStep(hash, next, count - 1, i - 1);
      LayersTail(hash, leaves, count, i);
    }
  }

  /** Layer i of `count` has 2^(count-1-i) entries. */
  predicate Halving(ls: seq<seq<F>>) {
    forall i :: 0 <= i < |ls| ==> |ls[i]| == Pow2(|ls| - 1 - i)
  }

  /** A stack whose layers each halve the one below, over 2^(n-1) leaves,
      has 2^(n-1-i) entries on layer i. */
  lemma {:induction false} HalvingSizes(ls: seq<seq<F>>, i: nat)
    requires |ls| > 0 && |ls[0]| == Pow2(|ls| - 1)
    requires forall l :: 0 < l < |ls| ==> |ls[l]| == |ls[l - 1]| / 2
    requires i < |ls|
    ensures |ls[i]| == Pow2(|ls| - 1 - i)
    decreases i
  {
    if i > 0 {
      HalvingSizes(ls, i - 1);
      var e := |ls| - 1 - i;
      assert |ls| - 1 - (i - 1) == e + 1;
      Pow2Double(e);
    }
  }

  lemma LayersHalve(hash: HashFn, leaves: seq<F>, count: nat)
    requires count > 0 && |leaves| == Pow2(count - 1)
    ensures Halving(Layers(hash, leaves, count))
  {
    var ls := Layers(hash, leaves, count);
    forall l | 0 < l < |ls| ensures |ls[l]| == |ls[l - 1]| / 2 {
      LayersStep(hash, leaves, count, l - 1);
    }
    forall i | 0 <= i < |ls| ensures |ls[i]| == Pow2(|ls| - 1 - i) {
      HalvingSizes(ls, i);
    }
  }

  /** The layers laid out root first: the nodes of the tree in heap order. */
  function RootFirst(ls: seq<seq<F>>): seq<F>
    decreases |ls|
  {
    if |ls| == 0 then [] else RootFirst(ls[1..]) + ls[0]
  }

  lemma {:induction false} RootFirstLength(ls: seq<seq<F>>)
    requires Halving(ls)
    ensures |RootFirst(ls)| == Pow2(|ls|) - 1
    decreases |ls|
  {
    if |ls| > 0 {
      assert Halving(ls[1..]) by {
        forall i | 0 <= i < |ls[1..]| ensures |ls[1..][i]| == Pow2(|ls[1..]| - 1 - i) {
          assert ls[1..][i] == ls[i + 1];
        }
      }
      RootFirstLength(ls[1..]);
    }
  }

  /** Entry j of the layer l steps below the root sits at index 2^l - 1 + j. */
  lemma {:induction false} RootFirstIndex(ls: seq<seq<F>>, l: nat, j: nat)
    requires Halving(ls)
    requires l < |ls| && j < Pow2(l)
    ensures Pow2(l) - 1 + j < |RootFirst(ls)|
    ensures RootFirst(ls)[Pow2(l) - 1 + j] == ls[|ls| - 1 - l][j]
    decreases |ls|
  {
    var rest := ls[1..];
    assert Halving(rest) by {
      forall i | 0 <= i < |rest| ensures |rest[i]| == Pow2(|rest| - 1 - i) {
        assert rest[i] == ls[i + 1];
      }
    }
    RootFirstLength(rest);
    RootFirstLength(ls);
    if l == |ls| - 1 {
      assert |RootFirst(rest)| == Pow2(l) - 1;
    } else {
      RootFirstIndex(rest, l, j);
      assert rest[|rest| - 1 - l] == ls[|ls| - 1 - l];
    }
  }

  /** `RootFirstIndex` at a heap index given by name. */
  lemma RootFirstAt(ls: seq<seq<F>>, l: nat, j: nat, idx: nat)
    requires Halving(ls)
    requires l < |ls| && j < Pow2(l) && idx == Pow2(l) - 1 + j
    ensures idx < |RootFirst(ls)| && RootFirst(ls)[idx] == ls[|ls| - 1 - l][j]
  {
    RootFirstIndex(ls, l, j);
  }

  /** The layer (counted from the root) that heap index i falls in. */
  function Level(i: nat): (l: nat)
    ensures Pow2(l) - 1 <= i < Pow2(l + 1) - 1
  {
    if i == 0 then 0 else 1 + Level((i - 1) / 2)
  }

  // ---------------------------------------------------------------------
  // merkelize

  /** `merkelize`: fails when the rows do not fit beside the head in 2^k
      leaves; otherwise the tree of depth k+1 in heap order. */
  function Merkelize(hash: HashFn, t: Table): (r: Result<Tree>)
    ensures r.Err? <==> |t.rows| > Pow2(t.maxRowsBits) - 1
    ensures r.Err? ==> r.error == TooManyRows
    ensures r.Ok? ==> r.value.depth == t.maxRowsBits + 1
    ensures r.Ok? ==> |r.value.nodes| == Pow2(r.value.depth) - 1
  {
    if |t.rows| > Pow2(t.maxRowsBits) - 1 then Err(TooManyRows)
    else
      var depth := t.maxRowsBits + 1;
      var ls := Layers(hash, LeafLayer(hash, t), depth);
      LayersHalve(hash, LeafLayer(hash, t), depth);
      RootFirstLength(ls);
      Ok(Tree(RootFirst(ls), depth))
  }

  /** `upper` holds the node hashes of the adjacent pairs of `lower`. */
  predicate PairsHashed(hash: HashFn, lower: seq<F>, upper: seq<F>) {
    && |upper| == |lower| / 2
    && forall j :: 0 <= j < |upper| ==> upper[j] == HashTwo(hash, lower[2 * j], lower[2 * j + 1])
  }

  lemma NextLayerHashesPairs(hash: HashFn, layer: seq<F>)
    ensures PairsHashed(hash, layer, NextLayer(hash, layer))
  {
    forall j | 0 <= j < |layer| / 2
      ensures NextLayer(hash, layer)[j] == HashTwo(hash, layer[2 * j], layer[2 * j + 1])
    {
      NextLayerEntry(hash, layer, j);
    }
  }

  /** The layers `merkelize` builds: depth k+1; the leaves are the head hash,
      the row hashes in order, then zeros; each layer halves the one below
      and hashes its pairs; the top layer is a single root. */
  lemma MerkelizeLayers(hash: HashFn, t: Table)
    requires |t.rows| <= Pow2(t.maxRowsBits) - 1
    ensures var ls := Layers(hash, LeafLayer(hash, t), t.maxRowsBits + 1);
      && |ls| == t.maxRowsBits + 1
      && |ls[0]| == Pow2(t.maxRowsBits)
      && ls[0][0] == HashHead(hash, t.head)
      && (forall i :: 0 <= i < |t.rows| ==> ls[0][i + 1] == HashRow(hash, t.rows[i]))
      && (forall j :: |t.rows| < j < |ls[0]| ==> ls[0][j] == 0)
      && Halving(ls)
      && (forall i :: 1 <= i < |ls| ==> PairsHashed(hash, ls[i - 1], ls[i]))
      && |ls[t.maxRowsBits]| == 1
  {
    var leaves := LeafLayer(hash, t);
    LayersHalve(hash, leaves, t.maxRowsBits + 1);
    LayersPaired(hash, leaves, t.maxRowsBits + 1);
  }

  /** Every layer of a stack hashes the pairs of the layer below. */
  lemma LayersPaired(hash: HashFn, leaves: seq<F>, count: nat)
    ensures var ls := Layers(hash, leaves, count);
      forall i :: 1 <= i < |ls| ==> PairsHashed(hash, ls[i - 1], ls[i])
  {
    var ls := Layers(hash, leaves, count);
    forall i | 1 <= i < |ls| ensures PairsHashed(hash, ls[i - 1], ls[i]) {
      LayersStep(hash, leaves, count, i - 1);
      NextLayerHashesPairs(hash, ls[i - 1]);
    }
  }

  /** The stored tree is a heap: every interior node hashes its two children. */
  lemma MerkelizeHeap(hash: HashFn, t: Table)
    requires |t.rows| <= Pow2(t.maxRowsBits) - 1
    ensures Merkelize(hash, t).Ok?
    ensures var nodes := Merkelize(hash, t).value.nodes;
      && |nodes| == 2 * Pow2(t.maxRowsBits) - 1
      && (forall i :: 0 <= i < Pow2(t.maxRowsBits) - 1 ==>
            nodes[i] == HashTwo(hash, nodes[2 * i + 1], nodes[2 * i + 2]))
  {
    var ls := Layers(hash, LeafLayer(hash, t), t.maxRowsBits + 1);
    MerkelizeLayers(hash, t);
    MerkelizeNodes(hash, t);
    HeapInterior(hash, ls, t.maxRowsBits);
  }

  /** The last 2^k nodes of the stored tree are the leaf layer: the head
      hash, the row hashes in order, then zeros. */
  lemma MerkelizeLeaves(hash: HashFn, t: Table)
    requires |t.rows| <= Pow2(t.maxRowsBits) - 1
    ensures Merkelize(hash, t).Ok?
    ensures |Merkelize(hash, t).value.nodes| == 2 * Pow2(t.maxRowsBits) - 1
    ensures Merkelize(hash, t).value.nodes[Pow2(t.maxRowsBits) - 1..] == LeafLayer(hash, t)
  {
    var upper := MerkelizeSplit(hash, t);
    var leaves := LeafLayer(hash, t);
    assert (upper + leaves)[|upper|..] == leaves;
  }

  /** The stored nodes end with the leaf layer, after the 2^k - 1 nodes above it. */
  lemma MerkelizeSplit(hash: HashFn, t: Table) returns (upper: seq<F>)
    requires |t.rows| <= Pow2(t.maxRowsBits) - 1
    ensures Merkelize(hash, t).Ok?
    ensures |upper| == Pow2(t.maxRowsBits) - 1
    ensures Merkelize(hash, t).value.nodes == upper + LeafLayer(hash, t)
  {
    var ls := Layers(hash, LeafLayer(hash, t), t.maxRowsBits + 1);
    MerkelizeNodes(hash, t);
    upper := RootFirstSplit(ls);
  }

  /** The root-first layout ends with the bottom layer, after 2^(n-1) - 1
      nodes above it. */
  lemma RootFirstSplit(ls: seq<seq<F>>) returns (upper: seq<F>)
    requires |ls| > 0 && Halving(ls)
    ensures |upper| == Pow2(|ls| - 1) - 1
    ensures RootFirst(ls) == upper + ls[0]
  {
    var rest := ls[1..];
    upper := RootFirst(rest);
    assert Halving(rest) by {
      forall i | 0 <= i < |rest| ensures |rest[i]| == Pow2(|rest| - 1 - i) {
        assert rest[i] == ls[i + 1];
      }
    }
    RootFirstLength(rest);
  }

  /** The stored nodes are the layers over the leaf layer, root first, and
      those layers halve. */
  lemma MerkelizeNodes(hash: HashFn, t: Table)
    requires |t.rows| <= Pow2(t.maxRowsBits) - 1
    ensures Merkelize(hash, t).Ok?
    ensures var ls := Layers(hash, LeafLayer(hash, t), t.maxRowsBits + 1);
      && Halving(ls)
      && Merkelize(hash, t).value.nodes == RootFirst(ls)
  {
    LayersHalve(hash, LeafLayer(hash, t), t.maxRowsBits + 1);
  }

  lemma HeapInterior(hash: HashFn, ls: seq<seq<F>>, k: nat)
    requires |ls| == k + 1 && Halving(ls)
    requires forall l :: 1 <= l < |ls| ==> PairsHashed(hash, ls[l - 1], ls[l])
    ensures |RootFirst(ls)| == 2 * Pow2(k) - 1
    ensures forall i :: 0 <= i < Pow2(k) - 1 ==>
      RootFirst(ls)[i] == HashTwo(hash, RootFirst(ls)[2 * i + 1], RootFirst(ls)[2 * i + 2])
  {
    RootFirstLength(ls);
    forall i | 0 <= i < Pow2(k) - 1
      ensures RootFirst(ls)[i] == HashTwo(hash, RootFirst(ls)[2 * i + 1], RootFirst(ls)[2 * i + 2])
    {
      InteriorNode(hash, ls, k, i);
    }
  }

  /** One interior node of the heap: it sits on some layer l below the root
      and its children are entries 2j and 2j+1 of layer l+1. */
  lemma InteriorNode(hash: HashFn, ls: seq<seq<F>>, k: nat, i: nat)
    requires |ls| == k + 1 && Halving(ls)
    requires forall l :: 1 <= l < |ls| ==> PairsHashed(hash, ls[l - 1], ls[l])
    requires i < Pow2(k) - 1
    ensures 2 * i + 2 < |RootFirst(ls)|
    ensures RootFirst(ls)[i] == HashTwo(hash, RootFirst(ls)[2 * i + 1], RootFirst(ls)[2 * i + 2])
  {
    var l := Level(i);
    if l >= k {
      Pow2Monotone(k, l);
      assert false;
    }
    Pow2Double(l);
    assert PairsHashed(hash, ls[(k - l) - 1], ls[k - l]);
    NodeOnLayer(hash, ls, l, i - (Pow2(l) - 1), i);
  }

  /** Node i, entry j of layer l below the root, hashes entries 2j and
      2j+1 of layer l+1. */
  lemma NodeOnLayer(hash: HashFn, ls: seq<seq<F>>, l: nat, j: nat, i: nat)
    requires Halving(ls) && l + 1 < |ls|
    requires PairsHashed(hash, ls[|ls| - 2 - l], ls[|ls| - 1 - l])
    requires j < Pow2(l) && i == Pow2(l) - 1 + j && Pow2(l + 1) == 2 * Pow2(l)
    ensures 2 * i + 2 < |RootFirst(ls)|
    ensures RootFirst(ls)[i] == HashTwo(hash, RootFirst(ls)[2 * i + 1], RootFirst(ls)[2 * i + 2])
  {
    var up, low := ls[|ls| - 1 - l], ls[|ls| - 2 - l];
    assert |up| == Pow2(l);
    RootFirstAt(ls, l, j, i);
    RootFirstAt(ls, l + 1, 2 * j, 2 * i + 1);
    RootFirstAt(ls, l + 1, 2 * j + 1, 2 * i + 2);
    assert up[j] == HashTwo(hash, low[2 * j], low[2 * j + 1]);
  }
}
