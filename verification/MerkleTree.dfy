/**
 * The snapshot Merkle tree: leaves are hashes of a 32-byte address followed by a minimal
 * big-endian balance, pairs are sorted before hashing, and an odd last node moves up
 * unchanged. The hash is a parameter. Since no function into 32 bytes is injective on all
 * byte strings, the results that need injectivity ask for it on the finite set of byte
 * strings that the computation in question really hashes.
 */
module MerkleTree {
  import opened Encoding
  import opened Wrappers

  type Hasher = Bytes -> Digest

  datatype AddressVotingPower = AddressVotingPower(address: Digest, balance: nat)

  // ----- Leaves -----

  function LeafInput(x: AddressVotingPower): Bytes {
    x.address + ToBigEndian(x.balance)
  }

  function LeafDigest(h: Hasher, x: AddressVotingPower): Digest {
    h(LeafInput(x))
  }

  function LeafDigests(h: Hasher, leaves: seq<AddressVotingPower>): seq<Digest> {
    seq(|leaves|, i requires 0 <= i < |leaves| => LeafDigest(h, leaves[i]))
  }

  lemma LeafInputInjective(x: AddressVotingPower, y: AddressVotingPower)
    ensures LeafInput(x) == LeafInput(y) <==> x == y
  {
    if LeafInput(x) == LeafInput(y) {
      assert LeafInput(x)[..32] == x.address && LeafInput(y)[..32] == y.address;
      assert LeafInput(x)[32..] == ToBigEndian(x.balance) && LeafInput(y)[32..] == ToBigEndian(y.balance);
      BigEndianInjective(x.balance, y.balance);
    }
  }

  /** A leaf is hashed from 64 bytes, like a pair of nodes, just when its balance takes 32 bytes. */
  lemma LeafInputLength(x: AddressVotingPower)
    ensures |LeafInput(x)| == 64 <==> Pow256(31) <= x.balance < Pow256(32)
  {
    BigEndianLength(x.balance, 31);
    BigEndianLength(x.balance, 32);
  }

  // ----- Layers -----

  function PairInput(a: Digest, b: Digest): Bytes {
    if Precedes(b, a) then b + a else a + b
  }

  lemma PairInputSymmetric(a: Digest, b: Digest)
    ensures PairInput(a, b) == PairInput(b, a)
  {
    PrecedesTotal(a, b);
  }

  lemma PairInputDetermines(a: Digest, b: Digest, c: Digest, d: Digest)
    requires PairInput(a, b) == PairInput(c, d)
    ensures (a == c && b == d) || (a == d && b == c)
  {
    var p, q := PairInput(a, b), PairInput(c, d);
    assert p[..32] == q[..32] && p[32..] == q[32..];
    assert (a + b)[..32] == a && (a + b)[32..] == b && (b + a)[..32] == b && (b + a)[32..] == a;
    assert (c + d)[..32] == c && (c + d)[32..] == d && (d + c)[..32] == d && (d + c)[32..] == c;
  }

  /**
   * In the order of bytes the first does not come after the second: there is no first byte to
   * differ that is greater.
   */
  ghost predicate NotAfter(a: Digest, b: Digest) {
    !exists k :: 0 <= k < 32 && a[k] > b[k] && forall j | 0 <= j < k :: a[j] == b[j]
  }

  /** The 64 bytes that two nodes are hashed from: one after the other, the smaller first. */
  ghost predicate IsPairOf(input: Bytes, a: Digest, b: Digest) {
    (input == a + b || input == b + a) && NotAfter(input[..32], input[32..])
  }

  lemma {:induction false} PrecedesAt(a: Bytes, b: Bytes)
    requires |a| == |b|
    ensures Precedes(b, a) <==> exists k :: 0 <= k < |a| && a[k] > b[k] && forall j | 0 <= j < k :: a[j] == b[j]
  {
    if a != [] {
      PrecedesAt(a[1..], b[1..]);
      if Precedes(b, a) && a[0] == b[0] {
        var k :| 0 <= k < |a[1..]| && a[1..][k] > b[1..][k] && forall j | 0 <= j < k :: a[1..][j] == b[1..][j];
        assert a[k + 1] > b[k + 1];
        forall j | 0 <= j < k + 1
          ensures a[j] == b[j]
        {
          assert j > 0 ==> a[1..][j - 1] == b[1..][j - 1];
        }
      }
      if k :| 0 <= k < |a| && a[k] > b[k] && forall j | 0 <= j < k :: a[j] == b[j] {
        if k > 0 {
          assert a[1..][k - 1] > b[1..][k - 1];
          assert forall j | 0 <= j < k - 1 :: a[1..][j] == b[1..][j];
        }
      }
    }
  }

  /** Those bytes, and no others, are what a pair is hashed from. */
  lemma PairInputIs(a: Digest, b: Digest, input: Bytes)
    ensures input == PairInput(a, b) <==> IsPairOf(input, a, b)
  {
    assert (a + b)[..32] == a && (a + b)[32..] == b && (b + a)[..32] == b && (b + a)[32..] == a;
    PrecedesAt(a, b);
    PrecedesAt(b, a);
    PrecedesTotal(a, b);
  }

  function NextLayer(h: Hasher, nodes: seq<Digest>): (next: seq<Digest>)
    ensures |next| == (|nodes| + 1) / 2
  {
    if |nodes| <= 1 then nodes
    else [h(PairInput(nodes[0], nodes[1]))] + NextLayer(h, nodes[2..])
  }

  lemma {:induction false} NextLayerAt(h: Hasher, nodes: seq<Digest>, i: nat)
    requires i < |NextLayer(h, nodes)|
    ensures NextLayer(h, nodes)[i] ==
            if 2 * i + 1 < |nodes| then h(PairInput(nodes[2 * i], nodes[2 * i + 1])) else nodes[2 * i]
  {
    if i != 0 {
      NextLayerAt(h, nodes[2..], i - 1);
    }
  }

  /** From the leaf digests up to the layer that holds the root alone. */
  function Layers(h: Hasher, nodes: seq<Digest>): (layers: seq<seq<Digest>>)
    ensures layers != [] && layers[0] == nodes
    decreases |nodes|
  {
    if |nodes| <= 1 then [nodes] else [nodes] + Layers(h, NextLayer(h, nodes))
  }

  /** Each pair of nodes has its hash in the layer above, and an odd last node is there itself. */
  ghost predicate IsLayerAbove(h: Hasher, below: seq<Digest>, above: seq<Digest>) {
    && |above| == (|below| + 1) / 2
    && forall i | 0 <= i < |above| ::
         if 2 * i + 1 < |below|
         then exists input :: IsPairOf(input, below[2 * i], below[2 * i + 1]) && above[i] == h(input)
         else above[i] == below[2 * i]
  }

  /** The tree over these leaves, layer by layer up to a single node. */
  ghost predicate IsTree(h: Hasher, leaves: seq<AddressVotingPower>, layers: seq<seq<Digest>>) {
    && layers != []
    && |layers[0]| == |leaves|
    && (forall i | 0 <= i < |leaves| :: layers[0][i] == h(leaves[i].address + ToBigEndian(leaves[i].balance)))
    && (forall k | 0 <= k < |layers| - 1 :: |layers[k]| > 1 && IsLayerAbove(h, layers[k], layers[k + 1]))
    && |layers[|layers| - 1]| == if leaves == [] then 0 else 1
  }

  lemma NextLayerIsAbove(h: Hasher, nodes: seq<Digest>)
    ensures IsLayerAbove(h, nodes, NextLayer(h, nodes))
  {
    var above := NextLayer(h, nodes);
    forall i | 0 <= i < |above|
      ensures if 2 * i + 1 < |nodes|
              then exists input :: IsPairOf(input, nodes[2 * i], nodes[2 * i + 1]) && above[i] == h(input)
              else above[i] == nodes[2 * i]
    {
      NextLayerAt(h, nodes, i);
      if 2 * i + 1 < |nodes| {
        PairInputIs(nodes[2 * i], nodes[2 * i + 1], PairInput(nodes[2 * i], nodes[2 * i + 1]));
      }
    }
  }

  lemma {:induction false} LayersAreAbove(h: Hasher, nodes: seq<Digest>)
    ensures var layers := Layers(h, nodes);
      && (forall k | 0 <= k < |layers| - 1 :: |layers[k]| > 1 && IsLayerAbove(h, layers[k], layers[k + 1]))
      && |layers[|layers| - 1]| == if nodes == [] then 0 else 1
    decreases |nodes|
  {
    if |nodes| > 1 {
      var next := NextLayer(h, nodes);
      LayersAreAbove(h, next);
      NextLayerIsAbove(h, nodes);
      var layers, rest := Layers(h, nodes), Layers(h, next);
      forall k | 0 <= k < |layers| - 1
        ensures |layers[k]| > 1 && IsLayerAbove(h, layers[k], layers[k + 1])
      {
        if k > 0 {
          assert layers[k] == rest[k - 1] && layers[k + 1] == rest[k];
        }
      }
    }
  }

  lemma LayersAreTree(h: Hasher, leaves: seq<AddressVotingPower>)
    ensures IsTree(h, leaves, Layers(h, LeafDigests(h, leaves)))
  {
    LayersAreAbove(h, LeafDigests(h, leaves));
  }

  /** The top of the last layer; an empty tree has the empty root. */
  function TopOf(layers: seq<seq<Digest>>): Bytes
    requires layers != []
  {
    var top := layers[|layers| - 1];
    if top == [] then [] else top[0]
  }

  function Root(h: Hasher, nodes: seq<Digest>): (root: Digest)
    requires nodes != []
    ensures TopOf(Layers(h, nodes)) == root
    decreases |nodes|
  {
    if |nodes| == 1 then nodes[0] else Root(h, NextLayer(h, nodes))
  }

  // ----- Proofs -----

  /** The siblings met on the way up from position i; a promoted node has none. */
  function ProofFrom(layers: seq<seq<Digest>>, i: nat): seq<Digest> {
    if layers == [] then []
    else
      var pair := if i % 2 == 1 then i - 1 else i + 1;
      (if pair < |layers[0]| then [layers[0][pair]] else []) + ProofFrom(layers[1..], i / 2)
  }

  function FoldProof(h: Hasher, node: Digest, proof: seq<Digest>): Digest
    decreases |proof|
  {
    if proof == [] then node else FoldProof(h, h(PairInput(node, proof[0])), proof[1..])
  }

  /** The last of several equal digests, where a search that goes through all of them ends. */
  function IndexOf(nodes: seq<Digest>, d: Digest): (r: Option<nat>)
    ensures IsPositionOf(nodes, d, r)
    ensures r.Some? ==> d !in nodes[r.value + 1..]
  {
    if nodes == [] then None
    else
      var n := |nodes| - 1;
      assert nodes == nodes[..n] + [nodes[n]];
      if nodes[n] == d then Some(n)
      else
        var r := IndexOf(nodes[..n], d);
        assert r.Some? ==> nodes[r.value + 1..] == nodes[..n][r.value + 1..] + [nodes[n]];
        r
  }

  /** Any place of the digest, and none if it is not there. */
  predicate IsPositionOf(nodes: seq<Digest>, d: Digest, i: Option<nat>) {
    (i.None? ==> d !in nodes) && (i.Some? ==> i.value < |nodes| && nodes[i.value] == d)
  }

  /** The proof of the leaf at this place, and the empty proof if there is none. */
  function ProofAt(layers: seq<seq<Digest>>, i: Option<nat>): seq<Digest> {
    if i.None? then [] else ProofFrom(layers, i.value)
  }

  function ProofOf(layers: seq<seq<Digest>>, d: Digest): seq<Digest>
    requires layers != []
  {
    ProofAt(layers, IndexOf(layers[0], d))
  }

  lemma {:induction false} ProofFoldsToRoot(h: Hasher, nodes: seq<Digest>, i: nat)
    requires i < |nodes|
    ensures FoldProof(h, nodes[i], ProofFrom(Layers(h, nodes), i)) == Root(h, nodes)
    decreases |nodes|
  {
    var layers := Layers(h, nodes);
    if |nodes| == 1 {
      assert layers[1..] == [];
    } else {
      var next := NextLayer(h, nodes);
      assert layers[1..] == Layers(h, next);
      ProofFoldsToRoot(h, next, i / 2);
      FoldFirstStep(h, nodes, i, ProofFrom(Layers(h, next), i / 2));
    }
  }

  lemma FoldFirstStep(h: Hasher, nodes: seq<Digest>, i: nat, rest: seq<Digest>)
    requires i < |nodes| && |nodes| > 1
    ensures var pair := if i % 2 == 1 then i - 1 else i + 1;
      FoldProof(h, nodes[i], (if pair < |nodes| then [nodes[pair]] else []) + rest) ==
      FoldProof(h, NextLayer(h, nodes)[i / 2], rest)
  {
    NextLayerAt(h, nodes, i / 2);
    var pair := if i % 2 == 1 then i - 1 else i + 1;
    if pair < |nodes| {
      PairInputSymmetric(nodes[i], nodes[pair]);
      assert ([nodes[pair]] + rest)[1..] == rest;
    } else {
      assert [] + rest == rest;
    }
  }

  // ----- Depth -----

  function Pow2(k: nat): nat {
    if k == 0 then 1 else 2 * Pow2(k - 1)
  }

  /** The number of layers above the leaves is the logarithm of their number, rounded up. */
  lemma {:induction false} DepthIsLogarithm(h: Hasher, nodes: seq<Digest>)
    requires nodes != []
    ensures var depth := |Layers(h, nodes)| - 1;
      |nodes| <= Pow2(depth) && (depth > 0 ==> Pow2(depth - 1) < |nodes|)
    decreases |nodes|
  {
    if |nodes| > 1 {
      DepthIsLogarithm(h, NextLayer(h, nodes));
    }
  }

  lemma {:induction false} ProofWithinDepth(h: Hasher, nodes: seq<Digest>, i: nat)
    requires i < |nodes|
    ensures |ProofFrom(Layers(h, nodes), i)| <= |Layers(h, nodes)| - 1
    decreases |nodes|
  {
    var layers := Layers(h, nodes);
    if |nodes| == 1 {
      assert layers[1..] == [];
    } else {
      assert layers[1..] == Layers(h, NextLayer(h, nodes));
      ProofWithinDepth(h, NextLayer(h, nodes), i / 2);
    }
  }

  // ----- What a proof that reaches the root shows -----

  ghost predicate CollisionFree(h: Hasher, inputs: set<Bytes>) {
    forall a, b | a in inputs && b in inputs && h(a) == h(b) :: a == b
  }

  ghost function LeafInputs(leaves: seq<AddressVotingPower>): set<Bytes> {
    set x | x in leaves :: LeafInput(x)
  }

  ghost function LayerInputs(nodes: seq<Digest>): set<Bytes> {
    set i | 0 <= i < |nodes| / 2 :: PairInput(nodes[2 * i], nodes[2 * i + 1])
  }

  /** Every byte string hashed to build the layers above these nodes. */
  ghost function TreeInputs(h: Hasher, nodes: seq<Digest>): set<Bytes>
    decreases |nodes|
  {
    if |nodes| <= 1 then {} else LayerInputs(nodes) + TreeInputs(h, NextLayer(h, nodes))
  }

  /** Every byte string hashed while folding a proof. */
  ghost function FoldInputs(h: Hasher, node: Digest, proof: seq<Digest>): set<Bytes>
    decreases |proof|
  {
    if proof == [] then {}
    else {PairInput(node, proof[0])} + FoldInputs(h, h(PairInput(node, proof[0])), proof[1..])
  }

  ghost function TreeNodes(h: Hasher, nodes: seq<Digest>): set<Digest>
    decreases |nodes|
  {
    (set d | d in nodes) + if |nodes| <= 1 then {} else TreeNodes(h, NextLayer(h, nodes))
  }

  ghost predicate IsInnerNode(h: Hasher, nodes: seq<Digest>, d: Digest, a: Digest, b: Digest) {
    && a in TreeNodes(h, nodes) && b in TreeNodes(h, nodes)
    && PairInput(a, b) in TreeInputs(h, nodes) && d == h(PairInput(a, b))
  }

  lemma {:induction false} RootIsNode(h: Hasher, nodes: seq<Digest>)
    requires nodes != []
    ensures Root(h, nodes) in TreeNodes(h, nodes)
    decreases |nodes|
  {
    if |nodes| > 1 {
      RootIsNode(h, NextLayer(h, nodes));
    }
  }

  lemma {:induction false} NodeIsLeafOrInner(h: Hasher, nodes: seq<Digest>, d: Digest)
    requires d in TreeNodes(h, nodes)
    ensures d in nodes || exists a, b :: IsInnerNode(h, nodes, d, a, b)
    decreases |nodes|
  {
    if d !in nodes {
      var next := NextLayer(h, nodes);
      NodeIsLeafOrInner(h, next, d);
      if d in next {
        var i :| 0 <= i < |next| && next[i] == d;
        NextLayerAt(h, nodes, i);
        assert PairInput(nodes[2 * i], nodes[2 * i + 1]) in LayerInputs(nodes);
        assert IsInnerNode(h, nodes, d, nodes[2 * i], nodes[2 * i + 1]);
      } else {
        var a, b :| IsInnerNode(h, next, d, a, b);
        assert IsInnerNode(h, nodes, d, a, b);
      }
    }
  }

  lemma {:induction false} InnerNodeChildren(h: Hasher, nodes: seq<Digest>, a: Digest, b: Digest, inputs: set<Bytes>)
    requires CollisionFree(h, inputs)
    requires TreeInputs(h, nodes) <= inputs && PairInput(a, b) in inputs
    requires h(PairInput(a, b)) in TreeNodes(h, nodes) && h(PairInput(a, b)) !in nodes
    ensures a in TreeNodes(h, nodes) && b in TreeNodes(h, nodes)
  {
    var d := h(PairInput(a, b));
    NodeIsLeafOrInner(h, nodes, d);
    var x, y :| IsInnerNode(h, nodes, d, x, y);
    PairInputDetermines(a, b, x, y);
  }

  /** A pair of nodes never hashes to a leaf, when no leaf is hashed from 64 bytes. */
  lemma PairIsNoLeaf(h: Hasher, leaves: seq<AddressVotingPower>, a: Digest, b: Digest, inputs: set<Bytes>)
    requires CollisionFree(h, inputs)
    requires LeafInputs(leaves) <= inputs && PairInput(a, b) in inputs
    requires forall x | x in leaves :: !(Pow256(31) <= x.balance < Pow256(32))
    ensures h(PairInput(a, b)) !in LeafDigests(h, leaves)
  {
    if h(PairInput(a, b)) in LeafDigests(h, leaves) {
      var i :| 0 <= i < |leaves| && LeafDigests(h, leaves)[i] == h(PairInput(a, b));
      assert leaves[i] in leaves;
      assert LeafInput(leaves[i]) in inputs;
      LeafInputLength(leaves[i]);
      assert false;
    }
  }

  lemma {:induction false} FoldStaysInTree(h: Hasher, leaves: seq<AddressVotingPower>, node: Digest,
                                           proof: seq<Digest>, inputs: set<Bytes>)
    requires CollisionFree(h, inputs)
    requires LeafInputs(leaves) + TreeInputs(h, LeafDigests(h, leaves)) + FoldInputs(h, node, proof) <= inputs
    requires forall x | x in leaves :: !(Pow256(31) <= x.balance < Pow256(32))
    requires FoldProof(h, node, proof) in TreeNodes(h, LeafDigests(h, leaves))
    ensures node in TreeNodes(h, LeafDigests(h, leaves))
    decreases |proof|
  {
    if proof != [] {
      var up := h(PairInput(node, proof[0]));
      FoldStaysInTree(h, leaves, up, proof[1..], inputs);
      assert PairInput(node, proof[0]) in inputs;
      PairIsNoLeaf(h, leaves, node, proof[0], inputs);
      InnerNodeChildren(h, LeafDigests(h, leaves), node, proof[0], inputs);
    }
  }

  /** One proof takes different nodes to different results. */
  lemma {:induction false} FoldInjective(h: Hasher, a: Digest, b: Digest, proof: seq<Digest>, inputs: set<Bytes>)
    requires CollisionFree(h, inputs)
    requires FoldInputs(h, a, proof) + FoldInputs(h, b, proof) <= inputs
    requires FoldProof(h, a, proof) == FoldProof(h, b, proof)
    ensures a == b
    decreases |proof|
  {
    if proof != [] {
      var p, q := PairInput(a, proof[0]), PairInput(b, proof[0]);
      FoldInjective(h, h(p), h(q), proof[1..], inputs);
      assert p in inputs && q in inputs;
      PairInputDetermines(a, proof[0], b, proof[0]);
    }
  }

  /**
   * Soundness against every proof, whoever made it: a leaf whose digest folds to the root
   * through any sequence of nodes is a leaf of the tree.
   */
  lemma AnyProofShowsMembership(h: Hasher, leaves: seq<AddressVotingPower>, x: AddressVotingPower, proof: seq<Digest>)
    requires leaves != []
    requires CollisionFree(h, LeafInputs([x] + leaves) + TreeInputs(h, LeafDigests(h, leaves)) +
                              FoldInputs(h, LeafDigest(h, x), proof))
    requires forall y | y in [x] + leaves :: !(Pow256(31) <= y.balance < Pow256(32))
    requires FoldProof(h, LeafDigest(h, x), proof) == Root(h, LeafDigests(h, leaves))
    ensures x in leaves
  {
    var nodes := LeafDigests(h, leaves);
    var inputs := LeafInputs([x] + leaves) + TreeInputs(h, nodes) + FoldInputs(h, LeafDigest(h, x), proof);
    LeafInputsOf(x, leaves);
    assert x in [x] + leaves;
    RootIsNode(h, nodes);
    FoldStaysInTree(h, leaves, LeafDigest(h, x), proof, inputs);
    LeafNodeIsLeaf(h, nodes, x, inputs);
    DigestInLeaves(h, leaves, x, inputs);
  }

  lemma LeafInputsOf(x: AddressVotingPower, leaves: seq<AddressVotingPower>)
    ensures LeafInputs([x] + leaves) == LeafInputs(leaves) + {LeafInput(x)}
  {
    assert x in [x] + leaves;
    assert forall y | y in leaves :: y in [x] + leaves;
  }

  lemma LeafNodeIsLeaf(h: Hasher, nodes: seq<Digest>, x: AddressVotingPower, inputs: set<Bytes>)
    requires CollisionFree(h, inputs) && TreeInputs(h, nodes) <= inputs && LeafInput(x) in inputs
    requires !(Pow256(31) <= x.balance < Pow256(32))
    requires LeafDigest(h, x) in TreeNodes(h, nodes)
    ensures LeafDigest(h, x) in nodes
  {
    NodeIsLeafOrInner(h, nodes, LeafDigest(h, x));
    if LeafDigest(h, x) !in nodes {
      var a, b :| IsInnerNode(h, nodes, LeafDigest(h, x), a, b);
      LeafInputLength(x);
      assert false;
    }
  }

  lemma LeafDigestIn(h: Hasher, leaves: seq<AddressVotingPower>, x: AddressVotingPower)
    ensures x in leaves ==> LeafDigest(h, x) in LeafDigests(h, leaves)
  {
    if x in leaves {
      var i :| 0 <= i < |leaves| && leaves[i] == x;
      assert LeafDigests(h, leaves)[i] == LeafDigest(h, x);
    }
  }

  lemma DigestInLeaves(h: Hasher, leaves: seq<AddressVotingPower>, x: AddressVotingPower, inputs: set<Bytes>)
    requires CollisionFree(h, inputs) && LeafInputs(leaves) <= inputs && LeafInput(x) in inputs
    ensures LeafDigest(h, x) in LeafDigests(h, leaves) <==> x in leaves
  {
    if LeafDigest(h, x) in LeafDigests(h, leaves) {
      var i :| 0 <= i < |leaves| && LeafDigests(h, leaves)[i] == LeafDigest(h, x);
      assert leaves[i] in leaves;
      LeafInputInjective(x, leaves[i]);
    }
    LeafDigestIn(h, leaves, x);
  }

  // ----- What verifyProof answers -----

  /** The answer when the proof is taken from this place. */
  predicate VerifiesAt(h: Hasher, layers: seq<seq<Digest>>, x: AddressVotingPower, i: Option<nat>)
    requires layers != []
  {
    TopOf(layers) != [] && FoldProof(h, LeafDigest(h, x), ProofAt(layers, i)) == TopOf(layers)
  }

  predicate Verifies(h: Hasher, layers: seq<seq<Digest>>, x: AddressVotingPower)
    requires layers != []
  {
    VerifiesAt(h, layers, x, IndexOf(layers[0], LeafDigest(h, x)))
  }

  /** The 64 bytes the root is hashed from. */
  ghost function RootInput(h: Hasher, nodes: seq<Digest>): (input: Bytes)
    requires |nodes| >= 2
    ensures input in TreeInputs(h, nodes) && h(input) == Root(h, nodes) && |input| == 64
    decreases |nodes|
  {
    if |nodes| == 2 then
      assert PairInput(nodes[2 * 0], nodes[2 * 0 + 1]) in LayerInputs(nodes);
      PairInput(nodes[0], nodes[1])
    else RootInput(h, NextLayer(h, nodes))
  }

  /** A digest that is no leaf is the root exactly when it is hashed from the bytes the root is hashed from. */
  lemma RootByInput(h: Hasher, nodes: seq<Digest>, input: Bytes, inputs: set<Bytes>)
    requires CollisionFree(h, inputs) && TreeInputs(h, nodes) <= inputs && input in inputs
    requires nodes != [] && h(input) !in nodes
    ensures h(input) == Root(h, nodes) <==> |nodes| >= 2 && input == RootInput(h, nodes)
  {
    if |nodes| >= 2 {
      var top := RootInput(h, nodes);
    }
  }

  /** What is accepted, of all byte strings whose digest is looked up. */
  lemma DigestVerifies(h: Hasher, nodes: seq<Digest>, input: Bytes, i: Option<nat>, inputs: set<Bytes>)
    requires IsPositionOf(nodes, h(input), i)
    requires CollisionFree(h, inputs) && TreeInputs(h, nodes) <= inputs && input in inputs
    ensures var layers := Layers(h, nodes);
      TopOf(layers) != [] && FoldProof(h, h(input), ProofAt(layers, i)) == TopOf(layers) <==>
      h(input) in nodes || (|nodes| >= 2 && input == RootInput(h, nodes))
  {
    if nodes == [] {
      assert Layers(h, nodes) == [nodes];
    } else if i.Some? {
      ProofFoldsToRoot(h, nodes, i.value);
    } else {
      RootByInput(h, nodes, input, inputs);
    }
  }

  /**
   * With no bound on balances, and from whichever of several equal leaves the proof is taken,
   * `verifyProof` accepts the leaves of the tree and, beside them, only a leaf that serializes
   * to the very bytes the root is hashed from.
   */
  lemma VerifiesExactly(h: Hasher, leaves: seq<AddressVotingPower>, x: AddressVotingPower, i: Option<nat>)
    requires IsPositionOf(LeafDigests(h, leaves), LeafDigest(h, x), i)
    requires CollisionFree(h, LeafInputs([x] + leaves) + TreeInputs(h, LeafDigests(h, leaves)))
    ensures VerifiesAt(h, Layers(h, LeafDigests(h, leaves)), x, i) <==>
            x in leaves || (|leaves| >= 2 && LeafInput(x) == RootInput(h, LeafDigests(h, leaves)))
  {
    var inputs := LeafInputs([x] + leaves) + TreeInputs(h, LeafDigests(h, leaves));
    LeafInputsOf(x, leaves);
    DigestInLeaves(h, leaves, x, inputs);
    DigestVerifies(h, LeafDigests(h, leaves), LeafInput(x), i, inputs);
  }

  /**
   * Such a leaf exists exactly when the 33rd of the 64 bytes, where its balance would begin, is
   * not zero, since a balance is written without leading zeros.
   */
  lemma RootLeafExists(h: Hasher, nodes: seq<Digest>)
    requires |nodes| >= 2
    ensures (exists x: AddressVotingPower :: LeafInput(x) == RootInput(h, nodes)) <==> RootInput(h, nodes)[32] != 0
  {
    var input := RootInput(h, nodes);
    var address, balance := input[..32], input[32..];
    if input[32] != 0 {
      var x := AddressVotingPower(address, FromBigEndian(balance));
      FromBigEndianRoundTrip(balance);
      assert LeafInput(x) == input;
    }
    forall x: AddressVotingPower | LeafInput(x) == input
      ensures input[32] != 0
    {
      assert input[32..] == ToBigEndian(x.balance);
      NoLeadingZero(x.balance);
    }
  }

  /** `verifyProof` is exactly membership, duplicates and any number of leaves included. */
  lemma VerifiesIsMembership(h: Hasher, leaves: seq<AddressVotingPower>, x: AddressVotingPower, i: Option<nat>)
    requires IsPositionOf(LeafDigests(h, leaves), LeafDigest(h, x), i)
    requires CollisionFree(h, LeafInputs([x] + leaves) + TreeInputs(h, LeafDigests(h, leaves)))
    requires !(Pow256(31) <= x.balance < Pow256(32))
    ensures VerifiesAt(h, Layers(h, LeafDigests(h, leaves)), x, i) <==> x in leaves
  {
    VerifiesExactly(h, leaves, x, i);
    LeafInputLength(x);
  }

  // ----- Proofs as text and as bytes -----

  function HexNode(d: Bytes): string {
    "0x" + ToHex(d)
  }

  function HexNodes(proof: seq<Digest>): (nodes: seq<string>)
    ensures |nodes| == |proof|
    ensures forall i | 0 <= i < |proof| :: nodes[i] == HexNode(proof[i])
  {
    seq(|proof|, i requires 0 <= i < |proof| => HexNode(proof[i]))
  }

  function Flatten(proof: seq<Digest>): (b: Bytes)
    ensures |b| == 32 * |proof|
  {
    if proof == [] then [] else proof[0] + Flatten(proof[1..])
  }

  /** The reader's side of a proof buffer: consecutive blocks of 32 bytes. */
  function Chunks(b: Bytes): seq<Digest> {
    if |b| < 32 then [] else [b[..32]] + Chunks(b[32..])
  }

  lemma {:induction false} ChunksOfFlatten(proof: seq<Digest>)
    ensures Chunks(Flatten(proof)) == proof
  {
    if proof != [] {
      ChunksOfFlatten(proof[1..]);
      assert Flatten(proof)[..32] == proof[0];
      assert Flatten(proof)[32..] == Flatten(proof[1..]);
    }
  }

  /** The nodes follow each other. */
  lemma {:induction false} FlattenAt(proof: seq<Digest>, i: nat, j: nat)
    requires i < |proof| && j < 32
    ensures Flatten(proof)[32 * i + j] == proof[i][j]
  {
    if i > 0 {
      FlattenAt(proof[1..], i - 1, j);
    }
  }

  lemma {:induction false} FlattenSnoc(proof: seq<Digest>, d: Digest)
    ensures Flatten(proof + [d]) == Flatten(proof) + d
  {
    if proof == [] {
      assert [d][1..] == [];
    } else {
      FlattenSnoc(proof[1..], d);
      assert (proof + [d])[1..] == proof[1..] + [d];
    }
  }

  // ----- The utility class -----

  class MerkleTreeUtils {
    const hash: Hasher
    const tree: seq<seq<Digest>>
    const leaves: seq<AddressVotingPower>

    ghost predicate Valid() {
      tree == Layers(hash, LeafDigests(hash, leaves))
    }

    constructor (hash: Hasher, leaves: seq<AddressVotingPower>)
      ensures Valid() && this.hash == hash && this.leaves == leaves
      ensures IsTree(hash, leaves, tree)
    {
      this.hash := hash;
      this.leaves := leaves;
      tree := Layers(hash, LeafDigests(hash, leaves));
      LayersAreTree(hash, leaves);
    }

    /** The hexadecimal text of the single node of the last layer; an empty tree has none. */
    function GetRootHash(): (root: string)
      requires Valid()
      ensures leaves == [] ==> root == "0x"
      ensures leaves != [] ==> |tree[|tree| - 1]| == 1 && root == "0x" + ToHex(tree[|tree| - 1][0])
    {
      LayersAreTree(hash, leaves);
      HexNode(TopOf(tree))
    }

    method VerifyProof(leaf: AddressVotingPower) returns (ok: bool)
      requires Valid()
      ensures ok <==> Verifies(hash, tree, leaf)
      ensures CollisionFree(hash, LeafInputs([leaf] + leaves) + TreeInputs(hash, LeafDigests(hash, leaves))) &&
              !(Pow256(31) <= leaf.balance < Pow256(32))
              ==> (ok <==> leaf in leaves)
    {
      var root := TopOf(tree);
      var leafHash := LeafDigest(hash, leaf);
      var proof := ProofOf(tree, leafHash);
      ok := root != [] && FoldProof(hash, leafHash, proof) == root;
      if CollisionFree(hash, LeafInputs([leaf] + leaves) + TreeInputs(hash, LeafDigests(hash, leaves))) &&
         !(Pow256(31) <= leaf.balance < Pow256(32))
      {
        VerifiesIsMembership(hash, leaves, leaf, IndexOf(tree[0], LeafDigest(hash, leaf)));
      }
    }

    function GetProof(leaf: AddressVotingPower): seq<string>
      requires Valid()
    {
      HexNodes(ProofOf(tree, LeafDigest(hash, leaf)))
    }

    /** The logarithm of the number of leaves, rounded up. */
    function GetDepth(): (depth: nat)
      requires Valid()
      ensures |leaves| <= Pow2(depth) && (depth > 0 ==> Pow2(depth - 1) < |leaves|)
    {
      if leaves != [] then DepthIsLogarithm(hash, LeafDigests(hash, leaves)); |tree| - 1 else |tree| - 1
    }

    /** The first leaf of this address. */
    function GetUserLeaf(address: Digest): (r: Option<AddressVotingPower>)
      ensures r.None? <==> forall x | x in leaves :: x.address != address
      ensures r.Some? ==> exists i :: 0 <= i < |leaves| && leaves[i] == r.value && r.value.address == address
                                      && forall j | 0 <= j < i :: leaves[j].address != address
    {
      FindLeaf(leaves, address)
    }

    static method ConcatProof(proof: seq<string>, ghost nodes: seq<Digest>) returns (s: string)
      requires proof == HexNodes(nodes)
      ensures s == ToHex(Flatten(nodes))
    {
      s := "";
      for i := 0 to |proof|
        invariant s == ToHex(Flatten(nodes[..i]))
      {
        s := s + proof[i][2..];
        FlattenSnoc(nodes[..i], nodes[i]);
        HexConcat(Flatten(nodes[..i]), nodes[i]);
        assert nodes[..i + 1] == nodes[..i] + [nodes[i]];
      }
      assert nodes[..|proof|] == nodes;
    }

    /** 32 bytes for each node of a proof no longer than the tree is deep, and nothing is lost. */
    method GetProofBuffer(leaf: AddressVotingPower) returns (buffer: Bytes)
      requires Valid()
      ensures buffer == Flatten(ProofOf(tree, LeafDigest(hash, leaf)))
      ensures Chunks(buffer) == ProofOf(tree, LeafDigest(hash, leaf)) && |buffer| == 32 * |Chunks(buffer)|
      ensures |Chunks(buffer)| <= GetDepth()
      ensures leaf in leaves ==> FoldProof(hash, LeafDigest(hash, leaf), Chunks(buffer)) == TopOf(tree)
    {
      ghost var nodes := LeafDigests(hash, leaves);
      ghost var nodesOfProof := ProofOf(tree, LeafDigest(hash, leaf));
      var proof := GetProof(leaf);
      var hex := ConcatProof(proof, nodesOfProof);
      buffer := FromHex(hex);
      HexRoundTrip(Flatten(nodesOfProof));
      ChunksOfFlatten(nodesOfProof);
      LeafDigestIn(hash, leaves, leaf);
      ghost var i := IndexOf(nodes, LeafDigest(hash, leaf));
      if i.Some? {
        ProofFoldsToRoot(hash, nodes, i.value);
        ProofWithinDepth(hash, nodes, i.value);
      }
    }
  }

  function FindLeaf(leaves: seq<AddressVotingPower>, address: Digest): (r: Option<AddressVotingPower>)
    ensures r.None? <==> forall x | x in leaves :: x.address != address
    ensures r.Some? ==> exists i :: 0 <= i < |leaves| && leaves[i] == r.value && r.value.address == address
                                    && forall j | 0 <= j < i :: leaves[j].address != address
  {
    if leaves == [] then None
    else if leaves[0].address == address then Some(leaves[0])
    else
      assert leaves == [leaves[0]] + leaves[1..];
      FindLeaf(leaves[1..], address)
  }
}
