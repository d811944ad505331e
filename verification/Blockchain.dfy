// Hash-linked blocks: construction, verification, and what a head root binds.

module Blocks {
  import opened Bytes
  import opened Records
  import opened Merkle
  import opened MerkleProofs

  // The stored copies of the tree (leaf hashes, nodes, height) are fixed by
  // `records` through `Build` and take no part in verification; they are not
  // repeated here.
  datatype Block = Block(
    blockNumber: U64, vmName: Bytes,
    merkleRoot: Digest, prevChainedRoot: Digest, chainedRoot: Digest,
    recordCount: U32, timestamp: Bytes, records: seq<EnergyRecord>)

  // An empty batch has the all-zero Merkle root.
  function BatchRoot(h: Hash, records: seq<EnergyRecord>): Digest {
    match RootOf(h, EncodeAll(records))
    case Some(root) => root
    case None => ZERO_DIGEST
  }

  function ChainedRoot(h: Hash, prev: Digest, merkle: Digest): Digest {
    h(EncodeChainedRoot(prev, merkle))
  }

  function MakeBlock(h: Hash, number: U64, vm: Bytes, prev: Digest, records: seq<EnergyRecord>, timestamp: Bytes): Block {
    var root := BatchRoot(h, records);
    Block(number, vm, root, prev, ChainedRoot(h, prev, root), |records| % U32_LIMIT, timestamp, records)
  }

  // `Block::new`.
  method NewBlock(h: Hash, number: U64, vm: Bytes, prev: Digest, records: seq<EnergyRecord>, timestamp: Bytes)
    returns (b: Block)
    ensures b == MakeBlock(h, number, vm, prev, records, timestamp)
    ensures BlockVerdict(h, b) == BlockValid
  {
    var tree, _ := Build(h, records);
    var root := if tree.root.Some? then tree.root.value else ZERO_DIGEST;
    b := Block(number, vm, root, prev, ChainedRoot(h, prev, root), |records| % U32_LIMIT, timestamp, records);
  }

  datatype BlockVerifyResult =
    | BlockValid
    | MerkleRootMismatch(stored: Digest, computed: Digest)
    | ChainedRootMismatch(stored: Digest, computed: Digest)
    | RecordCountMismatch(storedCount: nat, actualCount: nat)

  // `Block::verify`.
  function BlockVerdict(h: Hash, b: Block): BlockVerifyResult {
    var root := BatchRoot(h, b.records);
    if root != b.merkleRoot then MerkleRootMismatch(b.merkleRoot, root)
    else
      var chained := ChainedRoot(h, b.prevChainedRoot, b.merkleRoot);
      if chained != b.chainedRoot then ChainedRootMismatch(b.chainedRoot, chained)
      else if |b.records| % U32_LIMIT != b.recordCount
      then RecordCountMismatch(b.recordCount, |b.records| % U32_LIMIT)
      else BlockValid
  }

  // A block verifies exactly when it is the block that `Block::new` makes of its
  // own number, tenant, predecessor, records and time.
  lemma {:induction false} BlockVerdictExact(h: Hash, b: Block)
    ensures BlockVerdict(h, b) == BlockValid <==>
      b == MakeBlock(h, b.blockNumber, b.vmName, b.prevChainedRoot, b.records, b.timestamp)
  {
    hide BatchRoot;
  }

  datatype ChainVerifyResult =
    | ChainValid(blockCount: nat)
    | BlockInvalid(blockNumber: nat, reason: BlockVerifyResult)
    | ChainBroken(blockNumber: nat, expectedPrev: Digest, actualPrev: Digest)
    | BlockNumberGap(expected: nat, actual: nat)

  // The root a chain ends in; the empty chain ends in the all-zero digest.
  function HeadRoot(blocks: seq<Block>): Digest {
    if blocks == [] then ZERO_DIGEST else blocks[|blocks| - 1].chainedRoot
  }

  // Block i is sound, carries number i and continues its predecessor.
  ghost predicate LinkedAt(h: Hash, blocks: seq<Block>, i: nat)
    requires i < |blocks|
  {
    && BlockVerdict(h, blocks[i]) == BlockValid
    && blocks[i].prevChainedRoot == HeadRoot(blocks[..i])
    && blocks[i].blockNumber == i % U64_LIMIT
  }

  ghost predicate IsChain(h: Hash, blocks: seq<Block>) {
    forall i :: 0 <= i < |blocks| ==> LinkedAt(h, blocks, i)
  }

  // The complaint `verify_blockchain` makes about a block that is not linked.
  ghost function Complaint(h: Hash, blocks: seq<Block>, i: nat): ChainVerifyResult
    requires i < |blocks|
  {
    var b, prev := blocks[i], HeadRoot(blocks[..i]);
    if BlockVerdict(h, b) != BlockValid then BlockInvalid(b.blockNumber, BlockVerdict(h, b))
    else if b.prevChainedRoot != prev then ChainBroken(b.blockNumber, prev, b.prevChainedRoot)
    else BlockNumberGap(i % U64_LIMIT, b.blockNumber)
  }

  // Every complaint names what is there and what would be right: with that in its
  // place the block fits, or has at most what is checked later against it.
  lemma {:induction false} ComplaintNamesRepair(h: Hash, blocks: seq<Block>, i: nat)
    requires i < |blocks| && !LinkedAt(h, blocks, i)
    ensures
      var b := blocks[i];
      match Complaint(h, blocks, i)
      case ChainValid(_) => false
      case BlockNumberGap(e, a) =>
        a == b.blockNumber != e && e < U64_LIMIT && LinkedAt(h, blocks[i := b.(blockNumber := e)], i)
      case ChainBroken(n, e, a) =>
        && n == b.blockNumber && a == b.prevChainedRoot != e
        && (n == i % U64_LIMIT ==>
              LinkedAt(h, blocks[i := MakeBlock(h, n, b.vmName, e, b.records, b.timestamp)], i))
      case BlockInvalid(n, reason) => n == b.blockNumber && NamesRepair(h, b, reason)
  {
    hide BlockVerdict, BatchRoot;
    var b := blocks[i];
    var complaint := Complaint(h, blocks, i);
    match complaint {
      case BlockInvalid(_, _) => VerdictNamesRepair(h, b);
      case ChainBroken(n, e, _) =>
        var c := MakeBlock(h, n, b.vmName, e, b.records, b.timestamp);
        BlockVerdictExact(h, c);
        assert blocks[i := c][..i] == blocks[..i];
      case BlockNumberGap(e, _) =>
        var c := b.(blockNumber := e);
        BlockVerdictExact(h, b);
        BlockVerdictExact(h, c);
        assert blocks[i := c][..i] == blocks[..i];
    }
  }

  ghost predicate NamesRepair(h: Hash, b: Block, reason: BlockVerifyResult) {
    match reason
    case BlockValid => false
    case MerkleRootMismatch(s, c) =>
      s == b.merkleRoot != c && !BlockVerdict(h, b.(merkleRoot := c)).MerkleRootMismatch?
    case ChainedRootMismatch(s, c) =>
      && s == b.chainedRoot != c
      && var verdict := BlockVerdict(h, b.(chainedRoot := c));
         verdict.BlockValid? || verdict.RecordCountMismatch?
    case RecordCountMismatch(s, c) =>
      s == b.recordCount != c && c < U32_LIMIT && BlockVerdict(h, b.(recordCount := c)).BlockValid?
  }

  lemma {:induction false} VerdictNamesRepair(h: Hash, b: Block)
    requires BlockVerdict(h, b) != BlockValid
    ensures NamesRepair(h, b, BlockVerdict(h, b))
  {
    hide BatchRoot;
  }

  // `verify_blockchain` accepts exactly the chains, and otherwise reports the
  // first block that is not linked.
  method VerifyBlockchain(h: Hash, blocks: seq<Block>) returns (r: ChainVerifyResult)
    ensures r.ChainValid? <==> IsChain(h, blocks)
    ensures r.ChainValid? ==> r.blockCount == |blocks|
    ensures !r.ChainValid? ==> exists i ::
      && 0 <= i < |blocks| && !LinkedAt(h, blocks, i)
      && (forall j :: 0 <= j < i ==> LinkedAt(h, blocks, j))
      && r == Complaint(h, blocks, i)
  {
    hide BlockVerdict;
    var prev := ZERO_DIGEST;
    for i := 0 to |blocks|
      invariant prev == HeadRoot(blocks[..i])
      invariant forall j :: 0 <= j < i ==> LinkedAt(h, blocks, j)
    {
      var b := blocks[i];
      var verdict := BlockVerdict(h, b);
      assert blocks[..i + 1][|blocks[..i + 1]| - 1] == b;
      if !verdict.BlockValid? {
        assert !LinkedAt(h, blocks, i);
        return BlockInvalid(b.blockNumber, verdict);
      }
      if b.prevChainedRoot != prev {
        assert !LinkedAt(h, blocks, i);
        return ChainBroken(b.blockNumber, prev, b.prevChainedRoot);
      }
      if b.blockNumber != i % U64_LIMIT {
        assert !LinkedAt(h, blocks, i);
        return BlockNumberGap(i % U64_LIMIT, b.blockNumber);
      }
      prev := b.chainedRoot;
    }
    r := ChainValid(|blocks|);
  }

  // ---- what a head root binds ------------------------------------------------

  // Every string hashed while verifying a chain.
  function BlockInputs(h: Hash, b: Block): set<Bytes> {
    {EncodeChainedRoot(b.prevChainedRoot, b.merkleRoot)} + RootInputs(h, EncodeAll(b.records))
  }

  function ChainInputs(h: Hash, blocks: seq<Block>): set<Bytes> {
    if blocks == [] then {}
    else ChainInputs(h, blocks[..|blocks| - 1]) + BlockInputs(h, blocks[|blocks| - 1])
  }

  lemma {:induction false} IsChainPrefix(h: Hash, blocks: seq<Block>)
    requires blocks != [] && IsChain(h, blocks)
    ensures IsChain(h, blocks[..|blocks| - 1])
    ensures LinkedAt(h, blocks, |blocks| - 1)
  {
    var init := blocks[..|blocks| - 1];
    forall i | 0 <= i < |init|
      ensures LinkedAt(h, init, i)
    {
      assert LinkedAt(h, blocks, i);
      assert init[..i] == blocks[..i];
    }
  }

  lemma {:induction false} BatchRootBinding(h: Hash, a: seq<EnergyRecord>, b: seq<EnergyRecord>, inputs: set<Bytes>)
    requires BatchRoot(h, a) == BatchRoot(h, b)
    requires RootInputs(h, EncodeAll(a)) <= inputs && RootInputs(h, EncodeAll(b)) <= inputs
    ensures EncodeAll(a) == EncodeAll(b) || Collides(h, inputs) || Hits(h, inputs, ZERO_DIGEST)
  {
    if a != [] && b != [] {
      RootBinding(h, EncodeAll(a), EncodeAll(b), inputs);
    } else if a != [] {
      NonemptyZeroRoot(h, a, inputs);
    } else if b != [] {
      NonemptyZeroRoot(h, b, inputs);
    }
  }

  lemma {:induction false} NonemptyZeroRoot(h: Hash, a: seq<EnergyRecord>, inputs: set<Bytes>)
    requires a != [] && BatchRoot(h, a) == ZERO_DIGEST && RootInputs(h, EncodeAll(a)) <= inputs
    ensures Hits(h, inputs, ZERO_DIGEST)
  {
    var data := EncodeAll(a);
    var x := EncodeRoot(|data|, FoldToRoot(h, LeafHashes(h, data)));
    assert x in RootInputs(h, data) && h(x) == ZERO_DIGEST;
  }

  ghost predicate SameEncodedRecords(a: seq<Block>, b: seq<Block>) {
    |a| == |b| && forall i :: 0 <= i < |a| ==> EncodeAll(a[i].records) == EncodeAll(b[i].records)
  }

  // Two accepted chains with the same head have the same length and, block by
  // block, the same encoded records in the same order; or the hash collides on,
  // or reaches the all-zero digest from, strings the two verifications hashed.
  lemma {:induction false} ChainBinding(h: Hash, a: seq<Block>, b: seq<Block>, inputs: set<Bytes>)
    requires IsChain(h, a) && IsChain(h, b) && HeadRoot(a) == HeadRoot(b)
    requires ChainInputs(h, a) <= inputs && ChainInputs(h, b) <= inputs
    ensures SameEncodedRecords(a, b) || Collides(h, inputs) || Hits(h, inputs, ZERO_DIGEST)
    decreases |a|
  {
    hide BatchRoot, RootInputs;
    if a != [] {
      IsChainPrefix(h, a);
    }
    if b != [] {
      IsChainPrefix(h, b);
    }
    if a != [] && b != [] {
      var x, y := a[|a| - 1], b[|b| - 1];
      var ex, ey := EncodeChainedRoot(x.prevChainedRoot, x.merkleRoot), EncodeChainedRoot(y.prevChainedRoot, y.merkleRoot);
      EqualOrCollides(h, inputs, ex, ey);
      if ex == ey {
        EncodeChainedRootInjective(x.prevChainedRoot, x.merkleRoot, y.prevChainedRoot, y.merkleRoot);
        ChainBinding(h, a[..|a| - 1], b[..|b| - 1], inputs);
        BatchRootBinding(h, x.records, y.records, inputs);
      }
    } else if a != [] {
      var x := a[|a| - 1];
      assert EncodeChainedRoot(x.prevChainedRoot, x.merkleRoot) in inputs;
    } else if b != [] {
      var y := b[|b| - 1];
      assert EncodeChainedRoot(y.prevChainedRoot, y.merkleRoot) in inputs;
    }
  }

  ghost predicate FieldsFit(r: EnergyRecord) {
    |r.vmName| < U32_LIMIT && |r.timestamp| < U32_LIMIT
  }

  lemma {:induction false} EncodeAllInjective(a: seq<EnergyRecord>, b: seq<EnergyRecord>)
    requires EncodeAll(a) == EncodeAll(b)
    requires forall r :: r in a || r in b ==> FieldsFit(r)
    ensures a == b
  {
    assert |a| == |EncodeAll(a)| == |b|;
    forall i | 0 <= i < |a|
      ensures a[i] == b[i]
    {
      assert EncodeAll(a)[i] == EncodeRecord(a[i]) && EncodeAll(b)[i] == EncodeRecord(b[i]);
      assert a[i] in a && b[i] in b;
      EncodeRecordInjective(a[i], b[i]);
    }
  }

  // With encodable records the records themselves are bound.
  lemma {:induction false} ChainBindsRecords(h: Hash, a: seq<Block>, b: seq<Block>, inputs: set<Bytes>)
    requires IsChain(h, a) && IsChain(h, b) && HeadRoot(a) == HeadRoot(b)
    requires inputs == ChainInputs(h, a) + ChainInputs(h, b)
    requires forall i, r :: 0 <= i < |a| && r in a[i].records ==> FieldsFit(r)
    requires forall i, r :: 0 <= i < |b| && r in b[i].records ==> FieldsFit(r)
    ensures (|a| == |b| && forall i :: 0 <= i < |a| ==> a[i].records == b[i].records)
            || Collides(h, inputs) || Hits(h, inputs, ZERO_DIGEST)
  {
    ChainBinding(h, a, b, inputs);
    if SameEncodedRecords(a, b) {
      forall i | 0 <= i < |a|
        ensures a[i].records == b[i].records
      {
        EncodeAllInjective(a[i].records, b[i].records);
      }
    }
  }
}

module Blockchains {
  import opened Bytes
  import opened Records
  import opened Blocks

  datatype State = State(number: U64, root: Digest, pending: seq<EnergyRecord>)

  // The clock reading used for a new block is part of the operation.
  datatype Op = Add(record: EnergyRecord, time: Bytes) | Flush(time: Bytes)

  const FRESH := State(0, ZERO_DIGEST, [])

  // None: the checked increment of the block number overflows and ends the program.
  function CreateStep(h: Hash, vm: Bytes, s: State, time: Bytes): Option<(State, Block)> {
    if s.number == U64_MAX then None
    else
      var b := MakeBlock(h, s.number, vm, s.root, s.pending, time);
      Some((State(s.number + 1, b.chainedRoot, []), b))
  }

  function Created(r: Option<(State, Block)>): Option<(State, Option<Block>)> {
    match r
    case None => None
    case Some((s, b)) => Some((s, Some(b)))
  }

  function OpStep(h: Hash, vm: Bytes, batch: nat, s: State, op: Op): Option<(State, Option<Block>)> {
    match op
    case Add(r, time) =>
      var s' := s.(pending := s.pending + [r]);
      if |s'.pending| >= batch then Created(CreateStep(h, vm, s', time)) else Some((s', None))
    case Flush(time) =>
      if s.pending == [] then Some((s, None)) else Created(CreateStep(h, vm, s, time))
  }

  class Blockchain {
    const vmName: Bytes
    const batchSize: nat
    var currentBlockNumber: U64
    var latestChainedRoot: Digest
    var accumulatedRecords: seq<EnergyRecord>
    var overflowed: bool

    function View(): State
      reads this
    {
      State(currentBlockNumber, latestChainedRoot, accumulatedRecords)
    }

    constructor (vmName: Bytes, batchSize: nat)
      ensures this.vmName == vmName && this.batchSize == batchSize
      ensures View() == FRESH && !overflowed
    {
      this.vmName := vmName;
      this.batchSize := batchSize;
      currentBlockNumber := 0;
      latestChainedRoot := ZERO_DIGEST;
      accumulatedRecords := [];
      overflowed := false;
    }

    // The object's answer to an operation.
    predicate Answers(expected: Option<(State, Option<Block>)>, r: Option<Block>)
      reads this
    {
      match expected
      case None => overflowed
      case Some((s, b)) => !overflowed && View() == s && r == b
    }

    method AddRecord(h: Hash, record: EnergyRecord, time: Bytes) returns (r: Option<Block>)
      requires !overflowed
      modifies this
      ensures Answers(OpStep(h, vmName, batchSize, old(View()), Add(record, time)), r)
    {
      accumulatedRecords := accumulatedRecords + [record];
      if |accumulatedRecords| >= batchSize {
        r := CreateBlock(h, time);
      } else {
        r := None;
      }
    }

    method FlushPending(h: Hash, time: Bytes) returns (r: Option<Block>)
      requires !overflowed
      modifies this
      ensures Answers(OpStep(h, vmName, batchSize, old(View()), Flush(time)), r)
    {
      if accumulatedRecords == [] {
        return None;
      }
      r := CreateBlock(h, time);
    }

    method CreateBlock(h: Hash, time: Bytes) returns (r: Option<Block>)
      requires !overflowed
      modifies this
      ensures Answers(Created(CreateStep(h, vmName, old(View()), time)), r)
    {
      var records := accumulatedRecords;
      accumulatedRecords := [];
      var b := NewBlock(h, currentBlockNumber, vmName, latestChainedRoot, records, time);
      latestChainedRoot := b.chainedRoot;
      if currentBlockNumber == U64_MAX {
        overflowed := true;
        return None;
      }
      currentBlockNumber := currentBlockNumber + 1;
      r := Some(b);
    }
  }

  // ---- every interleaving -----------------------------------------------------

  function Emitted(b: Option<Block>): seq<Block> {
    if b.Some? then [b.value] else []
  }

  // State and blocks emitted after a sequence of operations on a fresh chain.
  function Run(h: Hash, vm: Bytes, batch: nat, ops: seq<Op>): Option<(State, seq<Block>)> {
    if ops == [] then Some((FRESH, []))
    else
      match Run(h, vm, batch, ops[..|ops| - 1])
      case None => None
      case Some((s, blocks)) =>
        match OpStep(h, vm, batch, s, ops[|ops| - 1])
        case None => None
        case Some((s', b)) => Some((s', blocks + Emitted(b)))
  }

  function Added(ops: seq<Op>): seq<EnergyRecord> {
    if ops == [] then []
    else
      var op := ops[|ops| - 1];
      Added(ops[..|ops| - 1]) + (if op.Add? then [op.record] else [])
  }

  function AllRecords(blocks: seq<Block>): seq<EnergyRecord> {
    if blocks == [] then [] else AllRecords(blocks[..|blocks| - 1]) + blocks[|blocks| - 1].records
  }

  // Emitted blocks and live state agree: the blocks form a chain, the state is
  // ready to extend it, and no record is lost, repeated or reordered.
  ghost predicate Consistent(h: Hash, s: State, blocks: seq<Block>, added: seq<EnergyRecord>) {
    && IsChain(h, blocks)
    && s.root == HeadRoot(blocks)
    && s.number == |blocks|
    && AllRecords(blocks) + s.pending == added
  }

  lemma {:induction false} CreateKeeps(h: Hash, vm: Bytes, s: State, blocks: seq<Block>, added: seq<EnergyRecord>, time: Bytes)
    requires Consistent(h, s, blocks, added) && s.number < U64_MAX
    ensures
      var (s', b) := CreateStep(h, vm, s, time).value;
      Consistent(h, s', blocks + [b], added)
  {
    hide BatchRoot;
    var (s', b) := CreateStep(h, vm, s, time).value;
    var longer := blocks + [b];
    assert longer[..|longer| - 1] == blocks;
    forall i | 0 <= i < |longer|
      ensures LinkedAt(h, longer, i)
    {
      assert longer[..i] == blocks[..i];
      if i < |blocks| {
        assert LinkedAt(h, blocks, i);
      } else {
        assert blocks[..i] == blocks;
      }
    }
    assert AllRecords(longer) + [] == added;
  }

  // In every run the emitted blocks are a chain and nothing is lost; only 2^64
  // operations or more can run the block number out.
  lemma {:induction false} RunConsistent(h: Hash, vm: Bytes, batch: nat, ops: seq<Op>)
    ensures Run(h, vm, batch, ops).None? ==> |ops| >= U64_LIMIT
    ensures Run(h, vm, batch, ops).Some? ==>
      var (s, blocks) := Run(h, vm, batch, ops).value;
      Consistent(h, s, blocks, Added(ops)) && |blocks| <= |ops|
  {
    hide CreateStep, Consistent;
    if ops == [] {
      FreshConsistent(h);
    } else {
      var init, op := ops[..|ops| - 1], ops[|ops| - 1];
      RunConsistent(h, vm, batch, init);
      if Run(h, vm, batch, init).Some? {
        var (s, blocks) := Run(h, vm, batch, init).value;
        OpKeeps(h, vm, batch, s, blocks, Added(init), op);
      }
    }
  }

  lemma {:induction false} FreshConsistent(h: Hash)
    ensures Consistent(h, FRESH, [], [])
  {
  }

  lemma {:induction false} OpKeeps(h: Hash, vm: Bytes, batch: nat, s: State, blocks: seq<Block>, added: seq<EnergyRecord>, op: Op)
    requires Consistent(h, s, blocks, added)
    ensures OpStep(h, vm, batch, s, op).None? ==> |blocks| == U64_MAX
    ensures OpStep(h, vm, batch, s, op).Some? ==>
      var (s', b) := OpStep(h, vm, batch, s, op).value;
      Consistent(h, s', blocks + Emitted(b), added + (if op.Add? then [op.record] else []))
  {
    assert added + [] == added && blocks + [] == blocks;
    match op {
      case Add(r, time) =>
        var s' := s.(pending := s.pending + [r]);
        assert AllRecords(blocks) + (s.pending + [r]) == added + [r];
        if |s'.pending| >= batch && s.number < U64_MAX {
          CreateKeeps(h, vm, s', blocks, added + [r], time);
        }
      case Flush(time) =>
        if s.pending != [] && s.number < U64_MAX {
          CreateKeeps(h, vm, s, blocks, added, time);
        }
    }
  }

  // Drives a fresh `Blockchain` object through any operations: what it emits
  // passes verification, and together with the buffer is exactly the input.
  method Drive(h: Hash, vm: Bytes, batch: nat, ops: seq<Op>)
    returns (overflowed: bool, blocks: seq<Block>, pending: seq<EnergyRecord>)
    ensures overflowed ==> |ops| >= U64_LIMIT
    ensures !overflowed ==> IsChain(h, blocks)
    ensures !overflowed ==> AllRecords(blocks) + pending == Added(ops)
    ensures !overflowed && batch > 0 ==> |pending| < batch
  {
    hide OpStep;
    var chain := new Blockchain(vm, batch);
    blocks, overflowed, pending := [], false, [];
    for i := 0 to |ops|
      invariant chain.vmName == vm && chain.batchSize == batch && !chain.overflowed
      invariant Run(h, vm, batch, ops[..i]) == Some((chain.View(), blocks))
      invariant batch > 0 ==> |chain.accumulatedRecords| < batch
    {
      assert ops[..i + 1][..i] == ops[..i];
      PendingBelow(h, vm, batch, chain.View(), ops[i]);
      var b: Option<Block>;
      match ops[i] {
        case Add(r, time) => b := chain.AddRecord(h, r, time);
        case Flush(time) => b := chain.FlushPending(h, time);
      }
      if chain.overflowed {
        RunConsistent(h, vm, batch, ops[..i + 1]);
        overflowed := true;
        return;
      }
      blocks := blocks + (if b.Some? then [b.value] else []);
    }
    assert ops[..|ops|] == ops;
    RunConsistent(h, vm, batch, ops);
    pending := chain.accumulatedRecords;
  }

  lemma {:induction false} PendingBelow(h: Hash, vm: Bytes, batch: nat, s: State, op: Op)
    ensures OpStep(h, vm, batch, s, op).Some? && batch > 0 && |s.pending| < batch ==>
      |OpStep(h, vm, batch, s, op).value.0.pending| < batch
  {
    hide MakeBlock;
  }

  ghost predicate Filled(batch: nat, blocks: seq<Block>) {
    forall i :: 0 <= i < |blocks| ==>
      blocks[i].records != [] && (batch > 0 ==> |blocks[i].records| <= batch)
  }

  // No emitted block is empty or larger than a batch, and a block is emitted as
  // soon as the batch is full.
  lemma {:induction false} BatchesFilled(h: Hash, vm: Bytes, batch: nat, ops: seq<Op>)
    ensures Run(h, vm, batch, ops).Some? ==>
      var (s, blocks) := Run(h, vm, batch, ops).value;
      && Filled(batch, blocks)
      && (if batch > 0 then |s.pending| < batch else s.pending == [])
  {
    hide MakeBlock;
    if ops != [] {
      BatchesFilled(h, vm, batch, ops[..|ops| - 1]);
      if Run(h, vm, batch, ops[..|ops| - 1]).Some? {
        var (s, blocks) := Run(h, vm, batch, ops[..|ops| - 1]).value;
        OpFills(h, vm, batch, s, ops[|ops| - 1]);
      }
    }
  }

  lemma {:induction false} OpFills(h: Hash, vm: Bytes, batch: nat, s: State, op: Op)
    requires if batch > 0 then |s.pending| < batch else s.pending == []
    ensures OpStep(h, vm, batch, s, op).Some? ==>
      var (s', b) := OpStep(h, vm, batch, s, op).value;
      && (if batch > 0 then |s'.pending| < batch else s'.pending == [])
      && (b.Some? ==> b.value.records != [] && (batch > 0 ==> |b.value.records| <= batch))
  {
    hide BatchRoot;
  }

  // Block i is the tenant's, ends with the last record of the first k + 1
  // operations, and carries the time of operation k.
  ghost predicate StampedAt(vm: Bytes, ops: seq<Op>, blocks: seq<Block>, i: nat, k: nat) {
    && i < |blocks| && k < |ops|
    && blocks[i].vmName == vm && blocks[i].timestamp == ops[k].time
    && AllRecords(blocks[..i + 1]) == Added(ops[..k + 1])
  }

  ghost predicate Stamped(vm: Bytes, ops: seq<Op>, blocks: seq<Block>, i: nat) {
    exists k: nat :: StampedAt(vm, ops, blocks, i, k)
  }

  lemma {:induction false} StampStays(vm: Bytes, ops: seq<Op>, n: nat, before: seq<Block>, blocks: seq<Block>, i: nat)
    requires n <= |ops| && before <= blocks && Stamped(vm, ops[..n], before, i)
    ensures Stamped(vm, ops, blocks, i)
  {
    hide Added, AllRecords;
    var k: nat :| StampedAt(vm, ops[..n], before, i, k);
    assert ops[..n][..k + 1] == ops[..k + 1] && before[..i + 1] == blocks[..i + 1];
    assert StampedAt(vm, ops, blocks, i, k);
  }

  lemma {:induction false} EmittedStamp(h: Hash, vm: Bytes, batch: nat, s: State, op: Op)
    ensures OpStep(h, vm, batch, s, op).Some? ==>
      var (s', b) := OpStep(h, vm, batch, s, op).value;
      b.Some? ==> s'.pending == [] && b.value.vmName == vm && b.value.timestamp == op.time
  {
    hide BatchRoot;
  }

  // Every emitted block is stamped by the operation that completed it.
  lemma {:induction false} BlocksStamped(h: Hash, vm: Bytes, batch: nat, ops: seq<Op>)
    ensures Run(h, vm, batch, ops).Some? ==>
      var blocks := Run(h, vm, batch, ops).value.1;
      forall i: nat :: i < |blocks| ==> Stamped(vm, ops, blocks, i)
  {
    hide BatchRoot, OpStep, Stamped, Added, AllRecords;
    if ops != [] && Run(h, vm, batch, ops).Some? {
      var n := |ops| - 1;
      var (s, before) := Run(h, vm, batch, ops[..n]).value;
      var (s', blocks) := Run(h, vm, batch, ops).value;
      BlocksStamped(h, vm, batch, ops[..n]);
      assert Run(h, vm, batch, ops[..n]).Some? && Run(h, vm, batch, ops[..n]).value.1 == before;
      forall i: nat | i < |blocks|
        ensures Stamped(vm, ops, blocks, i)
      {
        if i < |before| {
          StampStays(vm, ops, n, before, blocks, i);
        } else {
          EmittedStamp(h, vm, batch, s, ops[n]);
          RunConsistent(h, vm, batch, ops);
          LastStamped(vm, ops, blocks);
        }
      }
    }
  }

  lemma {:induction false} LastStamped(vm: Bytes, ops: seq<Op>, blocks: seq<Block>)
    requires blocks != [] && ops != [] && AllRecords(blocks) + [] == Added(ops)
    requires blocks[|blocks| - 1].vmName == vm && blocks[|blocks| - 1].timestamp == ops[|ops| - 1].time
    ensures Stamped(vm, ops, blocks, |blocks| - 1)
  {
    hide Added, AllRecords;
    assert blocks[..|blocks|] == blocks && ops[..|ops|] == ops;
    assert AllRecords(blocks) + [] == AllRecords(blocks);
    assert StampedAt(vm, ops, blocks, |blocks| - 1, |ops| - 1);
  }
}
