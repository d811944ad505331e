// `MerkleTree::build`, inclusion proofs, and their soundness and completeness.

module MerkleProofs {
  import opened Bytes
  import opened Codec
  import opened Records
  import opened Merkle

  // ---- building -----------------------------------------------------------

  datatype MerkleNode = MerkleNode(
    level: nat, position: nat, hash: Digest,
    leftChild: Option<Digest>, rightChild: Option<Digest>)

  datatype MerkleTree = MerkleTree(
    root: Option<Digest>, leafHashes: seq<Digest>, leafCount: nat,
    internalNodes: seq<MerkleNode>, height: nat)

  function EncodeAll(records: seq<EnergyRecord>): (r: seq<Bytes>) {
    seq(|records|, i requires 0 <= i < |records| => EncodeRecord(records[i]))
  }

  function LeafNode(h: Hash, leaves: seq<Digest>, i: nat): MerkleNode
    requires i < |leaves|
  {
    MerkleNode(0, i % U32_LIMIT, leaves[i], None, None)
  }

  // The node stored for pair i of a level.
  function PairNode(h: Hash, level: seq<Digest>, levelNum: nat, i: nat): MerkleNode
    requires 2 * i + 1 < |level|
  {
    MerkleNode(levelNum, i, HashPair(h, level[2 * i], level[2 * i + 1]),
               Some(level[2 * i]), Some(level[2 * i + 1]))
  }

  function LeafNodes(h: Hash, leaves: seq<Digest>): (r: seq<MerkleNode>) {
    seq(|leaves|, i requires 0 <= i < |leaves| => LeafNode(h, leaves, i))
  }

  function PairNodes(h: Hash, level: seq<Digest>, levelNum: nat): (r: seq<MerkleNode>) {
    seq(|level| / 2, i requires 0 <= i < |level| / 2 => PairNode(h, level, levelNum, i))
  }

  // All nodes stored above a level, bottom up.
  function NodesAbove(h: Hash, level: seq<Digest>, levelNum: nat): seq<MerkleNode>
    decreases |level|
  {
    if |level| <= 1 then []
    else PairNodes(h, level, levelNum + 1) + NodesAbove(h, FoldLevel(h, level), levelNum + 1)
  }

  // n leaves need n - 1 joins, whatever is promoted along the way.
  lemma {:induction false} NodesAboveCount(h: Hash, level: seq<Digest>, levelNum: nat)
    requires |level| > 0
    ensures |NodesAbove(h, level, levelNum)| == |level| - 1
    decreases |level|
  {
    if |level| > 1 {
      NodesAboveCount(h, FoldLevel(h, level), levelNum + 1);
    }
  }

  // A stored pair node holds the hash of its two stored children.
  ghost predicate Joins(h: Hash, n: MerkleNode) {
    n.leftChild.Some? && n.rightChild.Some? && n.hash == HashPair(h, n.leftChild.value, n.rightChild.value)
  }

  // All nodes above the leaves are such nodes, the last one being the root.
  lemma {:induction false} NodesJoin(h: Hash, level: seq<Digest>, levelNum: nat)
    requires |level| > 0
    ensures
      var nodes := NodesAbove(h, level, levelNum);
      && (forall n :: n in nodes ==> Joins(h, n) && n.level > levelNum)
      && (|level| > 1 ==> nodes != [] && nodes[|nodes| - 1].hash == FoldToRoot(h, level))
    decreases |level|
  {
    hide PairNode, FoldLevel;
    if |level| > 1 {
      var up := FoldLevel(h, level);
      NodesJoin(h, up, levelNum + 1);
      var pairs := PairNodes(h, level, levelNum + 1);
      forall i | 0 <= i < |pairs|
        ensures Joins(h, pairs[i]) && pairs[i].level == levelNum + 1
      {
        PairNodeJoins(h, level, levelNum + 1, i);
      }
      if |up| == 1 {
        assert |level| == 2;
        PairNodeJoins(h, level, levelNum + 1, 0);
        FoldLevelAt(h, level, 0);
      }
    }
  }

  lemma {:induction false} PairNodeJoins(h: Hash, level: seq<Digest>, levelNum: nat, i: nat)
    requires 2 * i + 1 < |level|
    ensures
      var n := PairNode(h, level, levelNum, i);
      && Joins(h, n) && n.level == levelNum && n.position == i
      && n.leftChild == Some(level[2 * i]) && n.rightChild == Some(level[2 * i + 1])
      && n.hash == FoldLevel(h, level)[i]
  {
    FoldLevelAt(h, level, i);
  }

  function Pow2(n: nat): (r: nat)
    ensures r > 0
  {
    if n == 0 then 1 else 2 * Pow2(n - 1)
  }

  // The number of folds is the ceiling of log2 of the leaf count.
  lemma {:induction false} FoldsIsLog(n: nat)
    requires n > 0
    ensures n <= Pow2(Folds(n))
    ensures n > 1 ==> Pow2(Folds(n) - 1) < n
  {
    if n == 2 {
      assert Folds(2) == 1 && Pow2(0) == 1 && Pow2(1) == 2;
    } else if n > 2 {
      FoldsIsLog((n + 1) / 2);
    }
  }

  // The first loops of `build`: leaf hashes and their level-0 nodes.
  method BuildLeaves(h: Hash, records: seq<EnergyRecord>) returns (leaves: seq<Digest>, nodes: seq<MerkleNode>)
    ensures leaves == LeafHashes(h, EncodeAll(records))
    ensures nodes == LeafNodes(h, leaves)
  {
    leaves := [];
    for i := 0 to |records|
      invariant leaves == LeafHashes(h, EncodeAll(records))[..i]
    {
      leaves := leaves + [HashLeaf(h, EncodeRecord(records[i]))];
    }
    nodes := [];
    for pos := 0 to |leaves|
      invariant nodes == LeafNodes(h, leaves)[..pos]
    {
      nodes := nodes + [MerkleNode(0, pos % U32_LIMIT, leaves[pos], None, None)];
    }
  }

  // One round of the outer loop of `build`.  `overflows` reports that the
  // checked 32-bit position counter has run over, at which point the program
  // stops; what is built beyond that is only what it would have built.
  method BuildLevel(h: Hash, current: seq<Digest>, levelNum: nat)
    returns (next: seq<Digest>, nodes: seq<MerkleNode>, overflows: bool)
    ensures next == FoldLevel(h, current)
    ensures nodes == PairNodes(h, current, levelNum)
    ensures overflows <==> |current| >= 2 * U32_LIMIT
  {
    next, nodes, overflows := [], [], false;
    var i, pos := 0, 0;
    while i + 1 < |current|
      invariant 0 <= i <= |current| && i == 2 * pos && |next| == pos
      invariant forall j :: 0 <= j < pos ==> next[j] == FoldLevel(h, current)[j]
      invariant nodes == PairNodes(h, current, levelNum)[..pos]
      invariant overflows <==> pos >= U32_LIMIT
    {
      FoldLevelAt(h, current, pos);
      var parent := HashPair(h, current[i], current[i + 1]);
      next := next + [parent];
      nodes := nodes + [MerkleNode(levelNum, pos, parent, Some(current[i]), Some(current[i + 1]))];
      overflows := overflows || pos == U32_LIMIT - 1;
      i, pos := i + 2, pos + 1;
    }
    if i < |current| {
      FoldLevelAt(h, current, pos);
      next := next + [current[i]];
    }
  }

  lemma {:induction false} NodesAboveStep(h: Hash, before: seq<MerkleNode>, level: seq<Digest>, levelNum: nat)
    requires |level| > 1
    ensures before + NodesAbove(h, level, levelNum)
            == (before + PairNodes(h, level, levelNum + 1)) + NodesAbove(h, FoldLevel(h, level), levelNum + 1)
  {
  }

  lemma {:induction false} NodesAboveDone(h: Hash, before: seq<MerkleNode>, level: seq<Digest>, levelNum: nat)
    ensures [] + NodesAbove(h, level, levelNum) == NodesAbove(h, level, levelNum)
    ensures |level| <= 1 ==> before + NodesAbove(h, level, levelNum) == before
  {
  }

  lemma {:induction false} FoldsStep(n: nat, up: nat)
    ensures n <= 1 ==> Folds(n) == 0
    ensures n > 1 && n <= up + up <= n + 1 ==> Folds(n) == 1 + Folds(up)
  {
    assert n <= up + up <= n + 1 ==> up == (n + 1) / 2;
  }

  // The outer loop of `build`; the lowest level is the longest, so an overflow
  // happens there or nowhere.
  method BuildLevels(h: Hash, leaves: seq<Digest>) returns (nodes: seq<MerkleNode>, levelNum: nat, overflows: bool)
    requires |leaves| > 0
    ensures nodes == NodesAbove(h, leaves, 0)
    ensures levelNum == Folds(|leaves|)
    ensures overflows <==> |leaves| >= 2 * U32_LIMIT
  {
    hide NodesAbove, PairNodes, FoldLevel, Folds;
    nodes, levelNum, overflows := [], 0, false;
    var current := leaves;
    NodesAboveDone(h, [], leaves, 0);
    while |current| > 1
      invariant 0 < |current| <= |leaves|
      invariant nodes + NodesAbove(h, current, levelNum) == NodesAbove(h, leaves, 0)
      invariant levelNum + Folds(|current|) == Folds(|leaves|)
      invariant overflows <==> |current| < |leaves| && |leaves| >= 2 * U32_LIMIT
      decreases |current|
    {
      NodesAboveStep(h, nodes, current, levelNum);
      levelNum := levelNum + 1;
      var next, added, stop := BuildLevel(h, current, levelNum);
      overflows := overflows || stop;
      FoldsStep(|current|, |next|);
      nodes := nodes + added;
      current := next;
    }
    NodesAboveDone(h, nodes, current, levelNum);
    FoldsStep(|current|, 0);
  }

  // Fewer than 2^33 leaves have at most 33 levels above them, so the level
  // counter cannot overflow first.
  lemma {:induction false} FewLevels(n: nat)
    requires 0 < n < 2 * U32_LIMIT
    ensures Folds(n) <= 33
  {
    FoldsIsLog(n);
    if Folds(n) > 33 {
      Pow2Monotone(33, Folds(n) - 1);
      Pow2Of33();
    }
  }

  lemma {:induction false} Pow2Monotone(a: nat, b: nat)
    requires a <= b
    ensures Pow2(a) <= Pow2(b)
  {
    if a < b {
      Pow2Monotone(a, b - 1);
    }
  }

  lemma {:induction false} Pow2Of33()
    ensures Pow2(33) == 2 * U32_LIMIT
  {
    assert Pow2(8) == 256;
    assert Pow2(16) == 65536;
    assert Pow2(24) == 65536 * 256;
    assert Pow2(32) == 65536 * 65536;
  }

  method Build(h: Hash, records: seq<EnergyRecord>) returns (t: MerkleTree, overflows: bool)
    ensures t.leafHashes == LeafHashes(h, EncodeAll(records))
    ensures t.leafCount == |records|
    ensures t.root == RootOf(h, EncodeAll(records))
    ensures records == [] ==> t.internalNodes == [] && t.height == 0
    ensures records != [] ==>
      && t.internalNodes == LeafNodes(h, t.leafHashes) + NodesAbove(h, t.leafHashes, 0)
      && |t.internalNodes| == 2 * |records| - 1
      && t.height == Folds(|records|) + 1
    ensures overflows <==> |records| >= 2 * U32_LIMIT
    ensures !overflows ==> t.height <= 34
  {
    hide NodesAbove, Folds, FoldToRoot;
    if records == [] {
      return MerkleTree(None, [], 0, [], 0), false;
    }
    var leaves, nodes := BuildLeaves(h, records);
    var inner, levelNum, stop := BuildLevels(h, leaves);
    NodesAboveCount(h, leaves, 0);
    if |records| < 2 * U32_LIMIT {
      FewLevels(|records|);
    }
    var subtree := FoldToRootLoop(h, leaves);
    t := MerkleTree(Some(CommitRoot(h, |leaves|, subtree)), leaves, |leaves|, nodes + inner, levelNum + 1);
    overflows := stop;
  }

  // ---- proofs ---------------------------------------------------------------

  datatype MerkleProof = MerkleProof(
    leafHash: Digest, hashes: seq<Digest>, directions: seq<bool>,
    leafIndex: nat, leafCount: nat)

  datatype Step = Step(sibling: Digest, isLeft: bool)

  // The paired walk of hashes and directions; the longer list is cut short.
  function Zip(hashes: seq<Digest>, directions: seq<bool>): (r: seq<Step>)
    ensures |r| == if |hashes| < |directions| then |hashes| else |directions|
  {
    var n := if |hashes| < |directions| then |hashes| else |directions|;
    seq(n, i requires 0 <= i < n => Step(hashes[i], directions[i]))
  }

  function ParentInput(child: Digest, s: Step): Bytes {
    if s.isLeft then EncodeInternal(s.sibling, child) else EncodeInternal(child, s.sibling)
  }

  // The digest reached from `start` by climbing the whole path.
  function Climb(h: Hash, start: Digest, path: seq<Step>): Digest {
    if path == [] then start
    else h(ParentInput(Climb(h, start, path[..|path| - 1]), path[|path| - 1]))
  }

  function ClimbInputs(h: Hash, start: Digest, path: seq<Step>): set<Bytes> {
    if path == [] then {}
    else
      var init := path[..|path| - 1];
      {ParentInput(Climb(h, start, init), path[|path| - 1])} + ClimbInputs(h, start, init)
  }

  predicate Verifies(h: Hash, p: MerkleProof, root: Digest) {
    CommitRoot(h, p.leafCount, Climb(h, p.leafHash, Zip(p.hashes, p.directions))) == root
  }

  method Verify(h: Hash, p: MerkleProof, root: Digest) returns (ok: bool)
    ensures ok <==> Verifies(h, p, root)
  {
    ghost var path := Zip(p.hashes, p.directions);
    var current, i := p.leafHash, 0;
    while i < |p.hashes| && i < |p.directions|
      invariant 0 <= i <= |path|
      invariant current == Climb(h, p.leafHash, path[..i])
    {
      assert path[..i + 1][..i] == path[..i] && path[..i + 1][i] == Step(p.hashes[i], p.directions[i]);
      if p.directions[i] {
        current := HashPair(h, p.hashes[i], current);
      } else {
        current := HashPair(h, current, p.hashes[i]);
      }
      i := i + 1;
    }
    assert path[..i] == path;
    ok := CommitRoot(h, p.leafCount, current) == root;
  }

  predicate PromotedOdd(n: nat, index: nat) {
    n % 2 == 1 && index == n - 1
  }

  function SiblingIndex(index: nat): nat {
    if index % 2 == 0 then index + 1 else index - 1
  }

  // The step collected at one level; a promoted odd node contributes none.
  function LevelSteps(level: seq<Digest>, index: nat): (r: seq<Step>)
    requires index < |level|
    ensures |r| <= 1
  {
    if |level| <= 1 || PromotedOdd(|level|, index) then []
    else [Step(level[SiblingIndex(index)], index % 2 == 1)]
  }

  // The steps collected from one level upwards.
  function ProofPath(h: Hash, level: seq<Digest>, index: nat): (r: seq<Step>)
    requires index < |level|
    decreases |level|
  {
    if |level| <= 1 then []
    else LevelSteps(level, index) + ProofPath(h, FoldLevel(h, level), index / 2)
  }

  lemma {:induction false} ProofPathStep(h: Hash, before: seq<Step>, level: seq<Digest>, index: nat)
    requires index < |level| && |level| > 1
    ensures before + ProofPath(h, level, index)
            == (before + LevelSteps(level, index)) + ProofPath(h, FoldLevel(h, level), index / 2)
  {
  }

  lemma {:induction false} ZipSnoc(hashes: seq<Digest>, directions: seq<bool>, hash: Digest, direction: bool)
    requires |hashes| == |directions|
    ensures Zip(hashes + [hash], directions + [direction]) == Zip(hashes, directions) + [Step(hash, direction)]
  {
  }

  // The first half of the loop body of `generate_proof`.
  method PushSibling(current: seq<Digest>, index: nat, hashes: seq<Digest>, directions: seq<bool>)
    returns (hashes': seq<Digest>, directions': seq<bool>)
    requires index < |current| && |current| > 1 && |hashes| == |directions|
    ensures |hashes'| == |directions'|
    ensures Zip(hashes', directions') == Zip(hashes, directions) + LevelSteps(current, index)
  {
    hashes', directions' := hashes, directions;
    if !PromotedOdd(|current|, index) {
      var sibling := SiblingIndex(index);
      ZipSnoc(hashes, directions, current[sibling], index % 2 == 1);
      hashes', directions' := hashes + [current[sibling]], directions + [index % 2 == 1];
    }
  }

  method GenerateProof(h: Hash, t: MerkleTree, leafIndex: nat) returns (r: Option<MerkleProof>)
    requires |t.leafHashes| == t.leafCount
    ensures r.None? <==> leafIndex >= t.leafCount
    ensures r.Some? ==>
      && r.value.leafHash == t.leafHashes[leafIndex]
      && r.value.leafIndex == leafIndex && r.value.leafCount == t.leafCount
      && |r.value.hashes| == |r.value.directions|
      && Zip(r.value.hashes, r.value.directions) == ProofPath(h, t.leafHashes, leafIndex)
  {
    if leafIndex >= t.leafCount {
      return None;
    }
    var hashes: seq<Digest>, directions: seq<bool> := [], [];
    var index, current := leafIndex, t.leafHashes;
    while |current| > 1
      invariant 0 <= index < |current| && |hashes| == |directions|
      invariant Zip(hashes, directions) + ProofPath(h, current, index) == ProofPath(h, t.leafHashes, leafIndex)
      decreases |current|
    {
      ProofPathStep(h, Zip(hashes, directions), current, index);
      hashes, directions := PushSibling(current, index, hashes, directions);
      current := FoldLevelLoop(h, current);
      index := index / 2;
    }
    r := Some(MerkleProof(t.leafHashes[leafIndex], hashes, directions, leafIndex, t.leafCount));
  }

  // ---- completeness ---------------------------------------------------------

  lemma {:induction false} ClimbConcat(h: Hash, start: Digest, a: seq<Step>, b: seq<Step>)
    ensures Climb(h, start, a + b) == Climb(h, Climb(h, start, a), b)
    decreases |b|
  {
    if b == [] {
      assert a + b == a;
    } else {
      var n := |b| - 1;
      ClimbConcat(h, start, a, b[..n]);
      assert (a + b)[..|a + b| - 1] == a + b[..n];
    }
  }

  lemma {:induction false} ClimbOne(h: Hash, start: Digest, s: Step)
    ensures Climb(h, start, [s]) == h(ParentInput(start, s))
  {
    assert [s][..0] == [];
  }

  lemma {:induction false} LevelStepsCases(level: seq<Digest>, k: nat, d: nat)
    requires d <= 1 && 2 * k + d < |level| && |level| > 1
    ensures LevelSteps(level, 2 * k + d) ==
            if 2 * k + 1 == |level| then [] else [Step(level[2 * k + 1 - d], d == 1)]
  {
    assert (2 * k + d) % 2 == d;
  }

  // The lone last node 2k, the left node 2k and the right node 2k + 1 all climb
  // to node k of the next level.
  lemma {:induction false} PromotedClimbs(h: Hash, level: seq<Digest>, k: nat)
    requires 2 * k + 1 == |level| && |level| > 1
    ensures Climb(h, level[2 * k], LevelSteps(level, 2 * k)) == FoldLevel(h, level)[k]
  {
    FoldLevelAt(h, level, k);
    LevelStepsCases(level, k, 0);
  }

  lemma {:induction false} LeftClimbs(h: Hash, level: seq<Digest>, k: nat)
    requires 2 * k + 1 < |level|
    ensures Climb(h, level[2 * k], LevelSteps(level, 2 * k)) == FoldLevel(h, level)[k]
  {
    FoldLevelAt(h, level, k);
    LevelStepsCases(level, k, 0);
    ClimbOne(h, level[2 * k], Step(level[2 * k + 1], false));
  }

  lemma {:induction false} RightClimbs(h: Hash, level: seq<Digest>, k: nat)
    requires 2 * k + 1 < |level|
    ensures Climb(h, level[2 * k + 1], LevelSteps(level, 2 * k + 1)) == FoldLevel(h, level)[k]
  {
    FoldLevelAt(h, level, k);
    LevelStepsCases(level, k, 1);
    ClimbOne(h, level[2 * k + 1], Step(level[2 * k], true));
  }

  lemma {:induction false} LevelStepsClimb(h: Hash, level: seq<Digest>, index: nat)
    requires index < |level| && |level| > 1
    ensures Climb(h, level[index], LevelSteps(level, index)) == FoldLevel(h, level)[index / 2]
  {
    var k := index / 2;
    assert index == 2 * k || index == 2 * k + 1;
    if 2 * k + 1 == |level| {
      PromotedClimbs(h, level, k);
    } else if index == 2 * k {
      LeftClimbs(h, level, k);
    } else {
      RightClimbs(h, level, k);
    }
  }

  lemma {:induction false} PathUnfold(h: Hash, level: seq<Digest>, index: nat)
    requires index < |level|
    ensures |level| == 1 ==> Climb(h, level[index], ProofPath(h, level, index)) == FoldToRoot(h, level)
    ensures |level| == 1 ==> ProofPath(h, level, index) == []
    ensures |level| > 1 ==> index / 2 < |FoldLevel(h, level)| < |level|
    ensures |level| > 1 ==>
      ProofPath(h, level, index) == LevelSteps(level, index) + ProofPath(h, FoldLevel(h, level), index / 2)
    ensures |level| > 1 ==> FoldToRoot(h, level) == FoldToRoot(h, FoldLevel(h, level))
  {
    hide FoldLevel, LevelSteps;
  }

  lemma {:induction false} ProofPathClimbs(h: Hash, level: seq<Digest>, index: nat)
    requires index < |level|
    ensures Climb(h, level[index], ProofPath(h, level, index)) == FoldToRoot(h, level)
    ensures |ProofPath(h, level, index)| <= Folds(|level|)
    decreases |level|
  {
    hide FoldLevel, LevelSteps, ProofPath, Climb, Folds, FoldToRoot;
    PathUnfold(h, level, index);
    FoldsStep(|level|, |FoldLevel(h, level)|);
    if |level| > 1 {
      var up := FoldLevel(h, level);
      ProofPathClimbs(h, up, index / 2);
      LevelStepsClimb(h, level, index);
      ClimbConcat(h, level[index], LevelSteps(level, index), ProofPath(h, up, index / 2));
    }
  }

  // Every proof generated from a built tree verifies against that tree's root,
  // and is no longer than the tree is high.
  lemma {:induction false} ProofComplete(h: Hash, data: seq<Bytes>, index: nat, p: MerkleProof)
    requires index < |data|
    requires p.leafHash == HashLeaf(h, data[index]) && p.leafCount == |data|
    requires Zip(p.hashes, p.directions) == ProofPath(h, LeafHashes(h, data), index)
    ensures RootOf(h, data).Some? && Verifies(h, p, RootOf(h, data).value)
    ensures |Zip(p.hashes, p.directions)| <= Folds(|data|)
    ensures |data| <= Pow2(Folds(|data|))
  {
    ProofPathClimbs(h, LeafHashes(h, data), index);
    FoldsIsLog(|data|);
  }

  // `build`, then `generate_proof`, then `verify`, for every record list and
  // every valid index.
  method ProveAndVerify(h: Hash, records: seq<EnergyRecord>, index: nat) returns (ok: bool, length: nat, height: nat)
    requires index < |records|
    ensures ok
    ensures length <= height - 1
    ensures |records| <= Pow2(height - 1)
  {
    hide ProofPath, Folds, Pow2, NodesAbove, LeafNodes, Verifies, Zip;
    var t, _ := Build(h, records);
    var r := GenerateProof(h, t, index);
    ProofComplete(h, EncodeAll(records), index, r.value);
    ok := Verify(h, r.value, t.root.value);
    length, height := |r.value.hashes|, t.height;
  }

  // ---- soundness --------------------------------------------------------------

  // The subtree a path addresses: its last step is the one next to the root.
  function SubtreeAt(t: Tree, path: seq<Step>): Option<Tree> {
    if path == [] then Some(t)
    else if t.Leaf? then None
    else
      var n := |path| - 1;
      SubtreeAt(if path[n].isLeft then t.right else t.left, path[..n])
  }

  lemma {:induction false} SubtreeLeaf(t: Tree, path: seq<Step>, data: Bytes)
    requires SubtreeAt(t, path) == Some(Leaf(data))
    ensures data in Leaves(t)
    decreases |path|
  {
    if path == [] {
      assert Leaves(t)[0] == data;
    } else {
      var n := |path| - 1;
      var child := if path[n].isLeft then t.right else t.left;
      SubtreeLeaf(child, path[..n], data);
      assert data in Leaves(child) ==> data in Leaves(t);
    }
  }

  // A path of any length that climbs from a leaf hash to a tree's hash ends at
  // exactly that leaf: paths that stop short of a leaf or go past one would
  // confuse the leaf and internal domains.
  lemma {:induction false} ClimbSound(h: Hash, t: Tree, data: Bytes, path: seq<Step>, inputs: set<Bytes>)
    requires Climb(h, HashLeaf(h, data), path) == TreeHash(h, t)
    requires TreeInputs(h, t) <= inputs
    requires EncodeLeaf(data) in inputs && ClimbInputs(h, HashLeaf(h, data), path) <= inputs
    ensures SubtreeAt(t, path) == Some(Leaf(data)) || Collides(h, inputs)
    decreases |path|
  {
    var start := HashLeaf(h, data);
    if path == [] {
      match t {
        case Leaf(other) =>
          EqualOrCollides(h, inputs, EncodeLeaf(data), EncodeLeaf(other));
          if EncodeLeaf(data) == EncodeLeaf(other) {
            ConcatSplit([DOMAIN_LEAF], data, [DOMAIN_LEAF], other);
          }
        case Node(l, r) =>
          LeafNodeCollide(h, data, l, r, inputs);
      }
    } else {
      var n := |path| - 1;
      var below := Climb(h, start, path[..n]);
      var x := ParentInput(below, path[n]);
      assert x in ClimbInputs(h, start, path);
      match t {
        case Leaf(other) =>
          var y := EncodeLeaf(other);
          assert x[0] == DOMAIN_INTERNAL && y[0] == DOMAIN_LEAF;
          EqualOrCollides(h, inputs, x, y);
        case Node(l, r) =>
          var y := EncodeInternal(TreeHash(h, l), TreeHash(h, r));
          EqualOrCollides(h, inputs, x, y);
          if x == y {
            if path[n].isLeft {
              EncodeInternalInjective(path[n].sibling, below, TreeHash(h, l), TreeHash(h, r));
              ClimbSound(h, r, data, path[..n], inputs);
            } else {
              EncodeInternalInjective(below, path[n].sibling, TreeHash(h, l), TreeHash(h, r));
              ClimbSound(h, l, data, path[..n], inputs);
            }
          }
      }
    }
  }

  // Every string hashed while verifying a proof for a record.
  function VerifyInputs(h: Hash, p: MerkleProof, data: Bytes): set<Bytes> {
    var path := Zip(p.hashes, p.directions);
    {EncodeLeaf(data), EncodeRoot(p.leafCount, Climb(h, p.leafHash, path))} + ClimbInputs(h, p.leafHash, path)
  }

  // If any proof for record r verifies against the root of a tree over
  // `records`, then r's encoding is the leaf its directions address, it is
  // among the encodings of `records`, and the proof claims the right leaf
  // count; or the hash collides on strings hashed by the two parties.
  lemma {:induction false} ProofSound(h: Hash, records: seq<EnergyRecord>, p: MerkleProof, r: EnergyRecord, inputs: set<Bytes>)
    requires records != []
    requires p.leafHash == HashLeaf(h, EncodeRecord(r))
    requires Verifies(h, p, RootOf(h, EncodeAll(records)).value)
    requires inputs == RootInputs(h, EncodeAll(records)) + VerifyInputs(h, p, EncodeRecord(r))
    ensures Collides(h, inputs) ||
            (&& SubtreeAt(TreeOf(EncodeAll(records)), Zip(p.hashes, p.directions)) == Some(Leaf(EncodeRecord(r)))
             && EncodeRecord(r) in EncodeAll(records)
             && p.leafCount % U64_LIMIT == |records| % U64_LIMIT)
  {
    var data, path := EncodeAll(records), Zip(p.hashes, p.directions);
    var reached, subtree := Climb(h, p.leafHash, path), FoldToRoot(h, LeafHashes(h, data));
    EqualOrCollides(h, inputs, EncodeRoot(p.leafCount, reached), EncodeRoot(|data|, subtree));
    if EncodeRoot(p.leafCount, reached) == EncodeRoot(|data|, subtree) {
      EncodeRootInjective(p.leafCount, reached, |data|, subtree);
      U64LeModulo(p.leafCount, |data|);
      RootIsTreeHash(h, data);
      ClimbSound(h, TreeOf(data), EncodeRecord(r), path, inputs);
      if SubtreeAt(TreeOf(data), path) == Some(Leaf(EncodeRecord(r))) {
        SubtreeLeaf(TreeOf(data), path, EncodeRecord(r));
        TreeLeaves(data);
      }
    }
  }
}
