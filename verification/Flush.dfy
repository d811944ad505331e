// `flush_gpu_block_to_redis`: resume after restart, append one block, move the
// anchor; and what holds when the enclave may crash at any point.

module Flushing {
  import opened Bytes
  import opened Records
  import opened Blocks
  import opened BlockStore
  import opened Checkpoint

  // ---- the resume decision ---------------------------------------------------------

  datatype Refusal = AnchorStorageMismatch | MissingAnchor | MissingBlocks
  datatype Decision = Fresh | Resume(blockNumber: U64) | Refuse(reason: Refusal)

  // `decide_resume`.
  function DecideResume(haveAnchor: bool, anchorBlock: U64, haveStored: bool, storedBlock: U64, rootsEqual: bool): Decision {
    if haveAnchor && haveStored then
      if anchorBlock != storedBlock || !rootsEqual then Refuse(AnchorStorageMismatch) else Resume(anchorBlock)
    else if haveStored then Refuse(MissingAnchor)
    else if haveAnchor then Refuse(MissingBlocks)
    else Fresh
  }

  // Block number and root of an anchor or of the newest stored block.
  type Head = (U64, Digest)

  function NumberOr0(x: Option<Head>): U64 {
    if x.Some? then x.value.0 else 0
  }

  function RootOr0(x: Option<Head>): Digest {
    if x.Some? then x.value.1 else ZERO_DIGEST
  }

  function DecideFrom(anchor: Option<Head>, stored: Option<Head>): Decision {
    DecideResume(anchor.Some?, NumberOr0(anchor), stored.Some?, NumberOr0(stored), RootOr0(anchor) == RootOr0(stored))
  }

  // The enclave resumes exactly where the anchor and the newest stored block are
  // the same head, starts over exactly where there is neither, and says which of
  // the two is missing otherwise.
  lemma {:induction false} DecideFromExact(anchor: Option<Head>, stored: Option<Head>)
    ensures forall b: U64 :: DecideFrom(anchor, stored) == Resume(b) <==> exists root: Digest :: anchor == stored == Some((b, root))
    ensures DecideFrom(anchor, stored) == Fresh <==> anchor == stored == None
    ensures DecideFrom(anchor, stored) == Refuse(MissingAnchor) <==> anchor.None? && stored.Some?
    ensures DecideFrom(anchor, stored) == Refuse(MissingBlocks) <==> anchor.Some? && stored.None?
    ensures DecideFrom(anchor, stored) == Refuse(AnchorStorageMismatch) <==>
      anchor.Some? && stored.Some? && anchor != stored
  {
    if anchor.Some? && anchor == stored {
      var (b, root) := anchor.value;
      assert anchor == stored == Some((b, root));
    }
  }

  // ---- enclave memory and environment ------------------------------------------------

  // `stopped`: resuming was refused, or a checked addition overflowed and ended
  // the enclave; either way nothing is appended until the next start.
  datatype Memory = Memory(
    blockNumber: U64, root: Digest, initialized: bool, stopped: bool,
    records: seq<EnergyRecord>, iterations: nat)

  const COLD_START := Memory(0, ZERO_DIGEST, false, false, [], 0)

  // How one store command went: carried out and acknowledged, carried out but
  // reported as failed, or not carried out.
  datatype Reply = Done | FailedAfter | FailedBefore

  // Everything outside the enclave that one flush meets.  `keys` is the order
  // in which KEYS lists the block ids.
  datatype Env = Env(
    initConnects: bool, anchorRead: bool, storedRead: bool, keys: seq<nat>,
    connects: bool, incr: Reply, putRow: Reply, pushRecords: Reply, pushNodes: Reply, setAnchor: Reply,
    time: Bytes)

  datatype Config = Config(h: Hash, mac: Mac, master: Digest, tenant: Bytes)

  ghost function AnchorSeen(c: Config, s: Store, e: Env): Option<Head> {
    if e.anchorRead && c.tenant in s.anchors then VerifiedAnchor(c.mac, c.master, c.tenant, s.anchors[c.tenant]) else None
  }

  function StoredSeen(c: Config, s: Store, e: Env): Option<Head> {
    if e.storedRead then
      match LatestOf(s.rows, e.keys, c.tenant)
      case Some(row) => Some((row.blockNumber, row.chainedRoot))
      case None => None
    else None
  }

  // The initialisation that the first flush performs.
  function Decided(m: Memory, anchor: Option<Head>, stored: Option<Head>): Memory {
    match DecideFrom(anchor, stored)
    case Resume(b) =>
      if b == U64_MAX then m.(stopped := true)
      else m.(blockNumber := b + 1, root := RootOr0(anchor), initialized := true)
    case Fresh => m.(initialized := true)
    case Refuse(_) => m.(stopped := true)
  }

  ghost function AfterInit(c: Config, m: Memory, s: Store, e: Env): Memory {
    if m.initialized || !e.initConnects then m else Decided(m, AnchorSeen(c, s, e), StoredSeen(c, s, e))
  }

  function NextBlock(c: Config, m: Memory, e: Env): Block {
    MakeBlock(c.h, m.blockNumber, c.tenant, m.root, m.records, e.time)
  }

  // The block row reaches the store.
  predicate RowWritten(e: Env) {
    e.connects && e.incr.Done? && !e.putRow.FailedBefore?
  }

  // `insert_block` returns Ok.
  predicate InsertOk(e: Env) {
    e.connects && e.incr.Done? && e.putRow.Done? && e.pushRecords.Done? && e.pushNodes.Done?
  }

  // ---- the store commands a flush issues -----------------------------------------------

  datatype Write = Bump | PutRow(id: nat, row: Row) | PutAnchor(tenant: Bytes, line: Bytes)

  function Apply(s: Store, w: Write): Store {
    match w
    case Bump => s.(counter := s.counter + 1)
    case PutRow(id, row) => s.(rows := s.rows[id := row])
    case PutAnchor(t, line) => s.(anchors := s.anchors[t := line])
  }

  function ApplyAll(s: Store, ws: seq<Write>): Store {
    if ws == [] then s else Apply(ApplyAll(s, ws[..|ws| - 1]), ws[|ws| - 1])
  }

  function BumpWrites(e: Env): seq<Write> {
    if e.connects && !e.incr.FailedBefore? then [Bump] else []
  }

  function RowWrites(c: Config, m: Memory, s: Store, e: Env): seq<Write> {
    if RowWritten(e) then [PutRow(s.counter + 1, RowOf(NextBlock(c, m, e)))] else []
  }

  function AnchorWrites(c: Config, m: Memory, e: Env): seq<Write> {
    if InsertOk(e) && m.blockNumber < U64_MAX && !e.setAnchor.FailedBefore? then
      [PutAnchor(c.tenant, CheckpointLine(c.mac, c.master, c.tenant, m.blockNumber, NextBlock(c, m, e).chainedRoot))]
    else []
  }

  // Effective writes of the append half, in order; `m` is the memory after
  // initialisation.
  function AppendWrites(c: Config, m: Memory, s: Store, e: Env): seq<Write> {
    BumpWrites(e) + RowWrites(c, m, s, e) + AnchorWrites(c, m, e)
  }

  function AppendMemory(c: Config, m: Memory, e: Env): Memory {
    if InsertOk(e) && m.blockNumber == U64_MAX then m.(stopped := true, records := [], iterations := 0)
    else
      var advanced := if InsertOk(e)
                      then m.(blockNumber := m.blockNumber + 1, root := NextBlock(c, m, e).chainedRoot)
                      else m;
      advanced.(records := [], iterations := 0)
  }

  ghost function FlushWrites(c: Config, m: Memory, s: Store, e: Env): seq<Write> {
    var m1 := AfterInit(c, m, s, e);
    if m.stopped || m1.stopped then [] else AppendWrites(c, m1, s, e)
  }

  ghost function FlushMemory(c: Config, m: Memory, s: Store, e: Env): Memory {
    var m1 := AfterInit(c, m, s, e);
    if m.stopped then m else if m1.stopped then m1 else AppendMemory(c, m1, e)
  }

  // ---- the imperative form ----------------------------------------------------------------

  class Redis {
    var counter: nat
    var rows: Rows
    var anchors: map<Bytes, Bytes>

    function View(): Store
      reads this
    {
      Store(counter, rows, anchors)
    }

    constructor ()
      ensures View() == Store(0, map[], map[])
    {
      counter, rows, anchors := 0, map[], map[];
    }

    method Incr(reply: Reply) returns (id: Option<nat>)
      modifies this
      ensures View() == if reply.FailedBefore? then old(View()) else Apply(old(View()), Bump)
      ensures id == if reply.Done? then Some(counter) else None
    {
      if !reply.FailedBefore? {
        counter := counter + 1;
      }
      id := if reply.Done? then Some(counter) else None;
    }

    // `insert_block`: counter, block row, records, tree nodes.  The last two
    // do not touch the modelled part of the store but may fail after the row
    // is in place.
    method InsertBlock(b: Block, e: Env) returns (ok: bool)
      requires e.connects
      modifies this
      ensures ok <==> InsertOk(e)
      ensures View() == ApplyAll(old(View()), BumpWrites(e) +
                (if RowWritten(e) then [PutRow(old(counter) + 1, RowOf(b))] else []))
    {
      hide RowOf;
      ghost var before := View();
      var id := Incr(e.incr);
      ApplyTwo(before, BumpWrites(e), Bump);
      if id.None? {
        return false;
      }
      if !e.putRow.FailedBefore? {
        rows := rows[id.value := RowOf(b)];
      }
      ApplyTwo(before, [Bump], PutRow(before.counter + 1, RowOf(b)));
      ok := e.putRow.Done? && e.pushRecords.Done? && e.pushNodes.Done?;
    }

    method Set(tenant: Bytes, line: Bytes, reply: Reply)
      modifies this
      ensures View() == if reply.FailedBefore? then old(View()) else Apply(old(View()), PutAnchor(tenant, line))
    {
      if !reply.FailedBefore? {
        anchors := anchors[tenant := line];
      }
    }
  }

  lemma {:induction false} ApplyTwo(s: Store, ws: seq<Write>, w: Write)
    ensures ApplyAll(s, []) == s
    ensures ApplyAll(s, [w]) == Apply(s, w)
    ensures ApplyAll(s, ws + []) == ApplyAll(s, ws)
    ensures ApplyAll(s, ws + [w]) == Apply(ApplyAll(s, ws), w)
  {
    assert [w][..0] == [];
    assert ws + [] == ws;
    assert (ws + [w])[..|ws|] == ws;
  }

  // An append's writes, stage by stage: none without a connection; the insert;
  // the anchor on top.
  lemma {:induction false} AppendApplied(c: Config, m: Memory, s: Store, e: Env)
    ensures
      var row := if RowWritten(e) then [PutRow(s.counter + 1, RowOf(NextBlock(c, m, e)))] else [];
      var inserted := ApplyAll(s, BumpWrites(e) + row);
      var line := CheckpointLine(c.mac, c.master, c.tenant, m.blockNumber, NextBlock(c, m, e).chainedRoot);
      ApplyAll(s, AppendWrites(c, m, s, e)) ==
        if !e.connects then s
        else if InsertOk(e) && m.blockNumber < U64_MAX && !e.setAnchor.FailedBefore? then
          Apply(inserted, PutAnchor(c.tenant, line))
        else inserted
  {
    hide NextBlock, CheckpointLine, RowOf, Apply;
    var row := if RowWritten(e) then [PutRow(s.counter + 1, RowOf(NextBlock(c, m, e)))] else [];
    var line := CheckpointLine(c.mac, c.master, c.tenant, m.blockNumber, NextBlock(c, m, e).chainedRoot);
    ApplyTwo(s, BumpWrites(e) + row, PutAnchor(c.tenant, line));
  }

  class Enclave {
    var blockNumber: U64
    var latestChainedRoot: Digest
    var stateInitialized: bool
    var chainResumeRefused: bool
    var overflowed: bool
    var accumulatedRecords: seq<EnergyRecord>
    var iterationCount: nat

    function View(): Memory
      reads this
    {
      Memory(blockNumber, latestChainedRoot, stateInitialized, chainResumeRefused || overflowed,
             accumulatedRecords, iterationCount)
    }

    constructor ()
      ensures View() == COLD_START
    {
      blockNumber, latestChainedRoot := 0, ZERO_DIGEST;
      stateInitialized, chainResumeRefused, overflowed := false, false, false;
      accumulatedRecords, iterationCount := [], 0;
    }

    method ReadHeads(c: Config, redis: Redis, e: Env) returns (anchor: Option<Head>, stored: Option<Head>)
      ensures anchor == AnchorSeen(c, redis.View(), e)
      ensures stored == StoredSeen(c, redis.View(), e)
    {
      hide VerifiedAnchor, LatestOf;
      anchor, stored := None, None;
      if e.anchorRead && c.tenant in redis.anchors {
        anchor := VerifyCheckpointLine(c.mac, c.master, c.tenant, redis.anchors[c.tenant]);
      }
      if e.storedRead {
        stored := GetLatestBlockState(redis.rows, e.keys, c.tenant);
      }
    }

    method InitializeFrom(c: Config, redis: Redis, e: Env)
      requires !stateInitialized
      modifies this
      ensures View() == AfterInit(c, old(View()), redis.View(), e)
    {
      hide AnchorSeen, StoredSeen, DecideFrom;
      if e.initConnects {
        var anchor, stored := ReadHeads(c, redis, e);
        match DecideFrom(anchor, stored) {
          case Resume(b) =>
            if b == U64_MAX {
              overflowed := true;
              return;
            }
            blockNumber := b + 1;
            latestChainedRoot := RootOr0(anchor);
            stateInitialized := true;
          case Fresh =>
            stateInitialized := true;
          case Refuse(_) =>
            chainResumeRefused := true;
        }
      }
    }

    // The arm of a successful insert: next number, new root, new anchor.
    method Advance(c: Config, redis: Redis, root: Digest, reply: Reply)
      requires !overflowed
      modifies this`blockNumber, this`latestChainedRoot, this`overflowed, redis
      ensures overflowed == (old(blockNumber) == U64_MAX)
      ensures overflowed ==> blockNumber == old(blockNumber) && latestChainedRoot == old(latestChainedRoot)
      ensures !overflowed ==> blockNumber == old(blockNumber) + 1 && latestChainedRoot == root
      ensures
        var line := CheckpointLine(c.mac, c.master, c.tenant, old(blockNumber), root);
        redis.View() == if overflowed || reply.FailedBefore? then old(redis.View())
                        else Apply(old(redis.View()), PutAnchor(c.tenant, line))
    {
      hide CheckpointLine, Apply;
      if blockNumber == U64_MAX {
        overflowed := true;
        return;
      }
      var line := CheckpointLine(c.mac, c.master, c.tenant, blockNumber, root);
      blockNumber := blockNumber + 1;
      latestChainedRoot := root;
      redis.Set(c.tenant, line, reply);
    }

    method Append(c: Config, redis: Redis, e: Env)
      requires !overflowed
      modifies this, redis
      ensures View() == AppendMemory(c, old(View()), e)
      ensures redis.View() == ApplyAll(old(redis.View()), AppendWrites(c, old(View()), old(redis.View()), e))
    {
      hide MakeBlock, CheckpointLine, RowOf, ApplyAll, AppendWrites, BumpWrites, RowWrites, Apply;
      ghost var m, s := View(), redis.View();
      AppendApplied(c, m, s, e);
      var block := NewBlock(c.h, blockNumber, c.tenant, latestChainedRoot, accumulatedRecords, e.time);
      assert block == NextBlock(c, m, e);
      if e.connects {
        var ok := redis.InsertBlock(block, e);
        if ok {
          Advance(c, redis, block.chainedRoot, e.setAnchor);
        }
      }
      // When that overflowed the enclave is gone, and its records with it.
      iterationCount := 0;
      accumulatedRecords := [];
    }

    // `flush_gpu_block_to_redis`.
    method Flush(c: Config, redis: Redis, e: Env)
      modifies this, redis
      ensures View() == FlushMemory(c, old(View()), old(redis.View()), e)
      ensures redis.View() == ApplyAll(old(redis.View()), FlushWrites(c, old(View()), old(redis.View()), e))
    {
      hide AppendWrites, AppendMemory, Decided, AnchorSeen, StoredSeen;
      if chainResumeRefused || overflowed {
        return;
      }
      if !stateInitialized {
        InitializeFrom(c, redis, e);
        if chainResumeRefused || overflowed {
          return;
        }
      }
      Append(c, redis, e);
    }
  }
}
