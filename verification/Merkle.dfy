// The Merkle tree with odd-node promotion: building, proving, verifying.

module Merkle {
  import opened Bytes
  import opened Records

  function HashLeaf(h: Hash, data: Bytes): Digest {
    h(EncodeLeaf(data))
  }

  function HashPair(h: Hash, left: Digest, right: Digest): Digest {
    h(EncodeInternal(left, right))
  }

  function CommitRoot(h: Hash, leafCount: nat, subtree: Digest): Digest {
    h(EncodeRoot(leafCount, subtree))
  }

  // ---- the level fold ------------------------------------------------------

  // One level up: neighbours are paired, an odd last node is promoted as it is.
  function FoldLevel(h: Hash, level: seq<Digest>): (r: seq<Digest>)
    ensures |level| <= |r| + |r| <= |level| + 1
  {
    if |level| < 2 then level
    else [HashPair(h, level[0], level[1])] + FoldLevel(h, level[2..])
  }

  function FoldToRoot(h: Hash, level: seq<Digest>): Digest
    decreases |level|
  {
    if |level| == 0 then ZERO_DIGEST
    else if |level| == 1 then level[0]
    else FoldToRoot(h, FoldLevel(h, level))
  }

  // How many times a level of n nodes is folded before one is left.
  function Folds(n: nat): nat {
    if n <= 1 then 0 else 1 + Folds((n + 1) / 2)
  }

  lemma {:induction false} FoldLevelAt(h: Hash, level: seq<Digest>, i: nat)
    requires 2 * i < |level|
    ensures FoldLevel(h, level)[i] ==
            if 2 * i + 1 < |level| then HashPair(h, level[2 * i], level[2 * i + 1]) else level[2 * i]
  {
    if |level| >= 2 && i > 0 {
      FoldLevelAt(h, level[2..], i - 1);
    }
  }

  // The loop form of one level, as `build`, `generate_proof` and
  // `fold_to_root` all write it.
  method FoldLevelLoop(h: Hash, level: seq<Digest>) returns (next: seq<Digest>)
    ensures next == FoldLevel(h, level)
  {
    next := [];
    var i := 0;
    while i + 1 < |level|
      invariant 0 <= i <= |level| && i == 2 * |next|
      invariant forall j :: 0 <= j < |next| ==> next[j] == FoldLevel(h, level)[j]
    {
      FoldLevelAt(h, level, |next|);
      next := next + [HashPair(h, level[i], level[i + 1])];
      i := i + 2;
    }
    if i < |level| {
      FoldLevelAt(h, level, |next|);
      next := next + [level[i]];
    }
  }

  // `fold_to_root`.
  method FoldToRootLoop(h: Hash, leaves: seq<Digest>) returns (root: Digest)
    requires |leaves| > 0
    ensures root == FoldToRoot(h, leaves)
  {
    var current := leaves;
    while |current| > 1
      invariant |current| > 0
      invariant FoldToRoot(h, current) == FoldToRoot(h, leaves)
      decreases |current|
    {
      current := FoldLevelLoop(h, current);
    }
    root := current[0];
  }

  // ---- the tree that is committed to --------------------------------------

  datatype Tree = Leaf(data: Bytes) | Node(left: Tree, right: Tree)

  function TreeHash(h: Hash, t: Tree): Digest {
    match t
    case Leaf(data) => HashLeaf(h, data)
    case Node(l, r) => HashPair(h, TreeHash(h, l), TreeHash(h, r))
  }

  // Every string hashed while hashing the tree.
  function TreeInputs(h: Hash, t: Tree): set<Bytes> {
    match t
    case Leaf(data) => {EncodeLeaf(data)}
    case Node(l, r) =>
      {EncodeInternal(TreeHash(h, l), TreeHash(h, r))} + TreeInputs(h, l) + TreeInputs(h, r)
  }

  function Leaves(t: Tree): (r: seq<Bytes>)
    ensures |r| > 0
  {
    match t
    case Leaf(data) => [data]
    case Node(l, r) => Leaves(l) + Leaves(r)
  }

  function Forest(ts: seq<Tree>): seq<Bytes> {
    if ts == [] then [] else Leaves(ts[0]) + Forest(ts[1..])
  }

  function PairTrees(ts: seq<Tree>): (r: seq<Tree>)
    ensures |ts| <= |r| + |r| <= |ts| + 1
  {
    if |ts| < 2 then ts else [Node(ts[0], ts[1])] + PairTrees(ts[2..])
  }

  function FoldTrees(ts: seq<Tree>): Tree
    requires |ts| > 0
    decreases |ts|
  {
    if |ts| == 1 then ts[0] else FoldTrees(PairTrees(ts))
  }

  function LeafTrees(data: seq<Bytes>): (r: seq<Tree>) {
    seq(|data|, i requires 0 <= i < |data| => Leaf(data[i]))
  }

  function HashAll(h: Hash, ts: seq<Tree>): (r: seq<Digest>) {
    seq(|ts|, i requires 0 <= i < |ts| => TreeHash(h, ts[i]))
  }

  function LeafHashes(h: Hash, data: seq<Bytes>): (r: seq<Digest>) {
    seq(|data|, i requires 0 <= i < |data| => HashLeaf(h, data[i]))
  }

  // The tree over a nonempty list of encoded records.
  function TreeOf(data: seq<Bytes>): Tree
    requires |data| > 0
  {
    FoldTrees(LeafTrees(data))
  }

  lemma {:induction false} PairTreesHash(h: Hash, ts: seq<Tree>)
    ensures HashAll(h, PairTrees(ts)) == FoldLevel(h, HashAll(h, ts))
  {
    if |ts| >= 2 {
      PairTreesHash(h, ts[2..]);
      assert HashAll(h, ts)[2..] == HashAll(h, ts[2..]);
      assert HashAll(h, PairTrees(ts)) ==
             [HashPair(h, TreeHash(h, ts[0]), TreeHash(h, ts[1]))] + HashAll(h, PairTrees(ts[2..]));
    }
  }

  lemma {:induction false} FoldTreesHash(h: Hash, ts: seq<Tree>)
    requires |ts| > 0
    ensures FoldToRoot(h, HashAll(h, ts)) == TreeHash(h, FoldTrees(ts))
    decreases |ts|
  {
    if |ts| > 1 {
      PairTreesHash(h, ts);
      FoldTreesHash(h, PairTrees(ts));
    }
  }

  // The iterated level fold over leaf hashes is the hash of one tree.
  lemma {:induction false} RootIsTreeHash(h: Hash, data: seq<Bytes>)
    requires |data| > 0
    ensures FoldToRoot(h, LeafHashes(h, data)) == TreeHash(h, TreeOf(data))
  {
    FoldTreesHash(h, LeafTrees(data));
    assert HashAll(h, LeafTrees(data)) == LeafHashes(h, data);
  }

  lemma {:induction false} PairTreesForest(ts: seq<Tree>)
    ensures Forest(PairTrees(ts)) == Forest(ts)
  {
    if |ts| >= 2 {
      PairTreesForest(ts[2..]);
      assert PairTrees(ts)[1..] == PairTrees(ts[2..]);
      assert Forest(ts) == Leaves(ts[0]) + Forest(ts[1..]);
      assert ts[1..][1..] == ts[2..];
      assert Forest(ts[1..]) == Leaves(ts[1]) + Forest(ts[2..]);
    }
  }

  lemma {:induction false} FoldTreesLeaves(ts: seq<Tree>)
    requires |ts| > 0
    ensures Leaves(FoldTrees(ts)) == Forest(ts)
    decreases |ts|
  {
    if |ts| == 1 {
      assert Forest(ts[1..]) == [];
    } else {
      FoldTreesLeaves(PairTrees(ts));
      PairTreesForest(ts);
    }
  }

  lemma {:induction false} ForestOfLeaves(data: seq<Bytes>)
    ensures Forest(LeafTrees(data)) == data
  {
    if data != [] {
      ForestOfLeaves(data[1..]);
      assert LeafTrees(data)[1..] == LeafTrees(data[1..]);
    }
  }

  // Read left to right, the tree's leaves are the input list: nothing is
  // dropped, repeated or reordered by promotion.
  lemma {:induction false} TreeLeaves(data: seq<Bytes>)
    requires |data| > 0
    ensures Leaves(TreeOf(data)) == data
  {
    FoldTreesLeaves(LeafTrees(data));
    ForestOfLeaves(data);
  }

  // ---- the shape of section 2.1 of RFC 6962 --------------------------------

  ghost predicate IsPowerOfTwo(n: nat) {
    n == 1 || (n % 2 == 0 && n > 0 && IsPowerOfTwo(n / 2))
  }

  // The largest power of two strictly below n.
  function SplitPoint(n: nat): (k: nat)
    requires n >= 2
    ensures 0 < k < n <= 2 * k
    ensures IsPowerOfTwo(k)
  {
    if n == 2 then 1 else 2 * SplitPoint((n + 1) / 2)
  }

  function SplitTree(ts: seq<Tree>): Tree
    requires |ts| > 0
    decreases |ts|
  {
    if |ts| == 1 then ts[0]
    else
      var k := SplitPoint(|ts|);
      Node(SplitTree(ts[..k]), SplitTree(ts[k..]))
  }

  // The Merkle Tree Hash of RFC 6962, with this system's node hashing.
  function MerkleTreeHash(h: Hash, data: seq<Bytes>): Digest
    requires |data| > 0
    decreases |data|
  {
    if |data| == 1 then HashLeaf(h, data[0])
    else
      var k := SplitPoint(|data|);
      HashPair(h, MerkleTreeHash(h, data[..k]), MerkleTreeHash(h, data[k..]))
  }

  lemma {:induction false} PairTreesConcat(a: seq<Tree>, b: seq<Tree>, k: nat)
    requires |a| == 2 * k
    ensures PairTrees(a + b) == PairTrees(a) + PairTrees(b)
  {
    if a == [] {
      assert a + b == b;
    } else {
      PairTreesConcat(a[2..], b, k - 1);
      assert (a + b)[2..] == a[2..] + b;
      var first := [Node(a[0], a[1])];
      assert PairTrees(a + b) == first + PairTrees(a[2..] + b);
      assert first + (PairTrees(a[2..]) + PairTrees(b)) == (first + PairTrees(a[2..])) + PairTrees(b);
    }
  }

  // Pairing one level first does not change what the recursive split builds.
  lemma {:induction false} SplitAfterPairing(ts: seq<Tree>)
    requires |ts| > 0
    ensures SplitTree(PairTrees(ts)) == SplitTree(ts)
    decreases |ts|
  {
    if |ts| == 2 {
      assert ts[..1] == [ts[0]] && ts[1..] == [ts[1]];
      assert PairTrees(ts[2..]) == [];
    } else if |ts| > 2 {
      var k := SplitPoint(|ts|);
      var a, b := ts[..k], ts[k..];
      assert ts == a + b;
      PairTreesConcat(a, b, k / 2);
      var ps := PairTrees(ts);
      assert SplitPoint(|ps|) == k / 2 == |PairTrees(a)|;
      assert ps[..k / 2] == PairTrees(a) && ps[k / 2..] == PairTrees(b);
      SplitAfterPairing(a);
      SplitAfterPairing(b);
    }
  }

  lemma {:induction false} FoldIsSplit(ts: seq<Tree>)
    requires |ts| > 0
    ensures FoldTrees(ts) == SplitTree(ts)
    decreases |ts|
  {
    if |ts| > 1 {
      FoldIsSplit(PairTrees(ts));
      SplitAfterPairing(ts);
    }
  }

  lemma {:induction false} SplitTreeHash(h: Hash, data: seq<Bytes>)
    requires |data| > 0
    ensures TreeHash(h, SplitTree(LeafTrees(data))) == MerkleTreeHash(h, data)
    decreases |data|
  {
    if |data| > 1 {
      var k := SplitPoint(|data|);
      SplitTreeHash(h, data[..k]);
      SplitTreeHash(h, data[k..]);
      assert LeafTrees(data)[..k] == LeafTrees(data[..k]);
      assert LeafTrees(data)[k..] == LeafTrees(data[k..]);
    }
  }

  // For every leaf count, the iterative pairwise fold with promotion computes
  // the recursive Merkle Tree Hash.
  lemma {:induction false} FoldIsMerkleTreeHash(h: Hash, data: seq<Bytes>)
    requires |data| > 0
    ensures FoldToRoot(h, LeafHashes(h, data)) == MerkleTreeHash(h, data)
  {
    RootIsTreeHash(h, data);
    FoldIsSplit(LeafTrees(data));
    SplitTreeHash(h, data);
  }

  // ---- binding -------------------------------------------------------------

  // Trees with equal hashes are equal, or the hash collides on what was hashed.
  lemma {:induction false} TreeBinding(h: Hash, s: Tree, t: Tree, inputs: set<Bytes>)
    requires TreeHash(h, s) == TreeHash(h, t)
    requires TreeInputs(h, s) <= inputs && TreeInputs(h, t) <= inputs
    ensures s == t || Collides(h, inputs)
  {
    match (s, t) {
      case (Leaf(a), Leaf(b)) =>
        EqualOrCollides(h, inputs, EncodeLeaf(a), EncodeLeaf(b));
        if EncodeLeaf(a) == EncodeLeaf(b) {
          ConcatSplit([DOMAIN_LEAF], a, [DOMAIN_LEAF], b);
        }
      case (Node(l1, r1), Node(l2, r2)) =>
        var a, b := EncodeInternal(TreeHash(h, l1), TreeHash(h, r1)), EncodeInternal(TreeHash(h, l2), TreeHash(h, r2));
        EqualOrCollides(h, inputs, a, b);
        if a == b {
          EncodeInternalInjective(TreeHash(h, l1), TreeHash(h, r1), TreeHash(h, l2), TreeHash(h, r2));
          TreeBinding(h, l1, l2, inputs);
          TreeBinding(h, r1, r2, inputs);
        }
      case (Leaf(a), Node(l, r)) =>
        LeafNodeCollide(h, a, l, r, inputs);
      case (Node(l, r), Leaf(a)) =>
        LeafNodeCollide(h, a, l, r, inputs);
    }
  }

  lemma {:induction false} LeafNodeCollide(h: Hash, data: Bytes, l: Tree, r: Tree, inputs: set<Bytes>)
    requires HashLeaf(h, data) == HashPair(h, TreeHash(h, l), TreeHash(h, r))
    requires EncodeLeaf(data) in inputs
    requires EncodeInternal(TreeHash(h, l), TreeHash(h, r)) in inputs
    ensures Collides(h, inputs)
  {
    var x, y := EncodeLeaf(data), EncodeInternal(TreeHash(h, l), TreeHash(h, r));
    assert x[0] == DOMAIN_LEAF && y[0] == DOMAIN_INTERNAL;
    EqualOrCollides(h, inputs, x, y);
  }

  // The committed root of a batch; an empty batch has none.
  function RootOf(h: Hash, data: seq<Bytes>): Option<Digest> {
    if data == [] then None
    else Some(CommitRoot(h, |data|, FoldToRoot(h, LeafHashes(h, data))))
  }

  // Every string hashed while computing that root.
  function RootInputs(h: Hash, data: seq<Bytes>): set<Bytes> {
    if data == [] then {}
    else {EncodeRoot(|data|, FoldToRoot(h, LeafHashes(h, data)))} + TreeInputs(h, TreeOf(data))
  }

  // A root binds the leaf count, every leaf and their order.
  lemma {:induction false} RootBinding(h: Hash, a: seq<Bytes>, b: seq<Bytes>, inputs: set<Bytes>)
    requires a != [] && b != [] && RootOf(h, a) == RootOf(h, b)
    requires RootInputs(h, a) <= inputs && RootInputs(h, b) <= inputs
    ensures a == b || Collides(h, inputs)
  {
    var sa, sb := FoldToRoot(h, LeafHashes(h, a)), FoldToRoot(h, LeafHashes(h, b));
    EqualOrCollides(h, inputs, EncodeRoot(|a|, sa), EncodeRoot(|b|, sb));
    if EncodeRoot(|a|, sa) == EncodeRoot(|b|, sb) {
      EncodeRootInjective(|a|, sa, |b|, sb);
      RootIsTreeHash(h, a);
      RootIsTreeHash(h, b);
      TreeBinding(h, TreeOf(a), TreeOf(b), inputs);
      TreeLeaves(a);
      TreeLeaves(b);
    }
  }
}
