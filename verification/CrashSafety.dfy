// Safety of the stored chain over every run of flushes, crashes and restarts.

module CrashSafety {
  import opened Bytes
  import opened Records
  import opened Blocks
  import opened BlockStore
  import opened Checkpoint
  import opened Text
  import opened Flushing

  datatype Sys = Sys(memory: Memory, store: Store)

  const EMPTY_SYSTEM := Sys(COLD_START, Store(0, map[], map[]))

  // What can happen to one tenant's enclave and its store.
  //  - Accumulate: records gather between flushes.
  //  - Flush: a flush runs to its end.
  //  - Crash: the enclave dies in a flush once `applied` of the flush's writes
  //    are in the store, and starts again with empty memory.
  //  - Foreign: another tenant takes the next id and writes its row.
  datatype Event =
    | Accumulate(records: seq<EnergyRecord>)
    | Flush(env: Env)
    | Crash(env: Env, applied: nat)
    | Foreign(row: Row)

  ghost function Next(c: Config, s: Sys, ev: Event): Sys {
    match ev
    case Accumulate(rs) =>
      s.(memory := s.memory.(records := s.memory.records + rs, iterations := s.memory.iterations + 1))
    case Flush(e) =>
      Sys(FlushMemory(c, s.memory, s.store, e), ApplyAll(s.store, FlushWrites(c, s.memory, s.store, e)))
    case Crash(e, k) =>
      var ws := FlushWrites(c, s.memory, s.store, e);
      Sys(COLD_START, ApplyAll(s.store, if k < |ws| then ws[..k] else ws))
    case Foreign(row) =>
      if row.vmName == c.tenant then s
      else s.(store := s.store.(counter := s.store.counter + 1, rows := s.store.rows[s.store.counter + 1 := row]))
  }

  ghost function Run(c: Config, events: seq<Event>): Sys {
    if events == [] then EMPTY_SYSTEM
    else Next(c, Run(c, events[..|events| - 1]), events[|events| - 1])
  }

  // The tenant's stored blocks in id order.
  function Chain(c: Config, s: Store): seq<Row> {
    TenantRows(s.rows, s.counter, c.tenant)
  }

  // ---- the assumptions ------------------------------------------------------------------

  // The store is reachable and answers reads faithfully when the enclave resumes.
  ghost predicate FaithfulReads(s: Store, e: Env) {
    e.initConnects && e.anchorRead && e.storedRead && KeysOf(e.keys, s.rows)
  }

  // An `insert_block` that reports failure has left no block row behind.
  predicate HonestFailure(e: Env) {
    RowWritten(e) ==> InsertOk(e)
  }

  ghost predicate CleanEvent(s: Sys, ev: Event) {
    match ev
    case Accumulate(_) => true
    case Flush(e) => FaithfulReads(s.store, e) && HonestFailure(e)
    case Crash(e, _) => FaithfulReads(s.store, e)
    case Foreign(_) => true
  }

  ghost predicate CleanRun(c: Config, events: seq<Event>) {
    forall i :: 0 <= i < |events| ==> CleanEvent(Run(c, events[..i]), events[i])
  }

  // ---- the invariant ----------------------------------------------------------------------

  ghost predicate StoreOk(c: Config, s: Store) {
    && IdsWithin(s.rows, s.counter)
    && IsRowChain(c.h, Chain(c, s))
    && (c.tenant in s.anchors ==> AnchorOfSome(c, Chain(c, s), s.anchors[c.tenant]))
  }

  // The anchor is the line for one of the stored blocks.
  ghost predicate AnchorOfSome(c: Config, chain: seq<Row>, line: Bytes) {
    exists k :: 0 <= k < |chain| && AnchorOf(c, chain, line, k)
  }

  ghost predicate AnchorOf(c: Config, chain: seq<Row>, line: Bytes, k: nat)
    requires k < |chain|
  {
    line == CheckpointLine(c.mac, c.master, c.tenant, chain[k].blockNumber, chain[k].chainedRoot)
  }

  // Memory is ready to append the next block of the stored chain.
  ghost predicate InSync(c: Config, m: Memory, s: Store) {
    m.blockNumber == |Chain(c, s)| && m.root == HeadOf(Chain(c, s))
  }

  ghost predicate Inv(c: Config, s: Sys) {
    && StoreOk(c, s.store)
    && (s.memory.initialized && !s.memory.stopped ==> InSync(c, s.memory, s.store))
    && (!s.memory.initialized ==> s.memory.blockNumber == 0 && s.memory.root == ZERO_DIGEST)
  }

  // ---- one append ------------------------------------------------------------------------------

  // The store after the first k writes of an append.
  ghost function Partial(c: Config, m: Memory, s: Store, e: Env, k: nat): Store {
    var ws := AppendWrites(c, m, s, e);
    ApplyAll(s, if k < |ws| then ws[..k] else ws)
  }

  ghost function Bumped(s: Store): Store {
    s.(counter := s.counter + 1)
  }

  ghost function WithRow(c: Config, m: Memory, s: Store, e: Env): Store {
    Apply(Bumped(s), PutRow(s.counter + 1, RowOf(NextBlock(c, m, e))))
  }

  ghost function WithAnchor(c: Config, m: Memory, s: Store, e: Env): Store {
    Apply(WithRow(c, m, s, e),
          PutAnchor(c.tenant, CheckpointLine(c.mac, c.master, c.tenant, m.blockNumber, NextBlock(c, m, e).chainedRoot)))
  }

  // However far an append gets, the store is in one of four states.
  lemma {:induction false} PartialCases(c: Config, m: Memory, s: Store, e: Env, k: nat)
    ensures Partial(c, m, s, e, k) in {s, Bumped(s), WithRow(c, m, s, e), WithAnchor(c, m, s, e)}
    ensures k >= 3 && !RowWritten(e) ==> Partial(c, m, s, e, k) in {s, Bumped(s)}
    ensures k >= 3 && RowWritten(e) ==> Partial(c, m, s, e, k) in {WithRow(c, m, s, e), WithAnchor(c, m, s, e)}
  {
    hide NextBlock, CheckpointLine, RowOf, ApplyAll, Apply;
    var ws := AppendWrites(c, m, s, e);
    var row, anchor := RowWrite(c, m, s, e), AnchorWrite(c, m, e);
    AppliedCases(c, m, s, e);
    WritesArePrefix(c, m, s, e);
    var full := [Bump, row, anchor];
    assert full[..0] == [] && full[..1] == [Bump] && full[..2] == [Bump, row] && full[..3] == full;
    var part := if k < |ws| then ws[..k] else ws;
    assert part == full[..|part|];
    assert |part| == 0 || |part| == 1 || |part| == 2 || |part| == 3;
  }

  ghost function RowWrite(c: Config, m: Memory, s: Store, e: Env): Write {
    PutRow(s.counter + 1, RowOf(NextBlock(c, m, e)))
  }

  ghost function AnchorWrite(c: Config, m: Memory, e: Env): Write {
    PutAnchor(c.tenant, CheckpointLine(c.mac, c.master, c.tenant, m.blockNumber, NextBlock(c, m, e).chainedRoot))
  }

  lemma {:induction false} AppliedCases(c: Config, m: Memory, s: Store, e: Env)
    ensures ApplyAll(s, []) == s
    ensures ApplyAll(s, [Bump]) == Bumped(s)
    ensures ApplyAll(s, [Bump, RowWrite(c, m, s, e)]) == WithRow(c, m, s, e)
    ensures ApplyAll(s, [Bump, RowWrite(c, m, s, e), AnchorWrite(c, m, e)]) == WithAnchor(c, m, s, e)
  {
    hide NextBlock, CheckpointLine, RowOf;
    var row, anchor := RowWrite(c, m, s, e), AnchorWrite(c, m, e);
    ApplyTwo(s, [], Bump);
    ApplyTwo(s, [Bump], row);
    ApplyTwo(s, [Bump, row], anchor);
    assert [Bump] + [row] == [Bump, row] && [Bump, row] + [anchor] == [Bump, row, anchor];
  }

  lemma {:induction false} WritesArePrefix(c: Config, m: Memory, s: Store, e: Env)
    ensures AppendWrites(c, m, s, e) <= [Bump, RowWrite(c, m, s, e), AnchorWrite(c, m, e)]
    ensures |AppendWrites(c, m, s, e)| >= 2 <==> RowWritten(e)
  {
    hide NextBlock, CheckpointLine, RowOf;
    if RowWritten(e) {
      assert BumpWrites(e) == [Bump] && RowWrites(c, m, s, e) == [RowWrite(c, m, s, e)];
    }
  }

  lemma {:induction false} NextBlockLinks(c: Config, m: Memory, e: Env)
    ensures
      var row := RowOf(NextBlock(c, m, e));
      && row.vmName == c.tenant && row.blockNumber == m.blockNumber && row.prevChainedRoot == m.root
      && row.chainedRoot == ChainedRoot(c.h, row.prevChainedRoot, row.merkleRoot)
      && row.chainedRoot == NextBlock(c, m, e).chainedRoot
  {
  }

  lemma {:induction false} BumpedChain(c: Config, s: Store)
    requires IdsWithin(s.rows, s.counter)
    ensures IdsWithin(s.rows, s.counter + 1)
    ensures Chain(c, Bumped(s)) == Chain(c, s)
  {
    TenantRowsBeyond(s.rows, s.counter, s.counter + 1, c.tenant);
  }

  lemma {:induction false} WithRowChain(c: Config, m: Memory, s: Store, e: Env)
    requires IdsWithin(s.rows, s.counter)
    ensures IdsWithin(WithRow(c, m, s, e).rows, WithRow(c, m, s, e).counter)
    ensures Chain(c, WithRow(c, m, s, e)) == Chain(c, s) + [RowOf(NextBlock(c, m, e))]
  {
    hide NextBlock;
    NextBlockLinks(c, m, e);
    BumpedChain(c, s);
    TenantRowsPut(s.rows, s.counter + 1, RowOf(NextBlock(c, m, e)), s.counter + 1, c.tenant);
  }

  lemma {:induction false} AnchorSurvives(c: Config, chain: seq<Row>, row: Row, line: Bytes)
    requires AnchorOfSome(c, chain, line)
    ensures AnchorOfSome(c, chain + [row], line)
  {
    var k :| 0 <= k < |chain| && AnchorOf(c, chain, line, k);
    assert AnchorOf(c, chain + [row], line, k);
  }

  lemma {:induction false} BumpedOk(c: Config, s: Store)
    requires StoreOk(c, s)
    ensures StoreOk(c, Bumped(s))
  {
    BumpedChain(c, s);
  }

  // An append by an enclave in sync keeps the store well-formed ...
  lemma {:induction false} WithRowOk(c: Config, m: Memory, s: Store, e: Env)
    requires StoreOk(c, s) && InSync(c, m, s)
    ensures StoreOk(c, WithRow(c, m, s, e))
    ensures Chain(c, WithRow(c, m, s, e)) == Chain(c, s) + [RowOf(NextBlock(c, m, e))]
  {
    hide NextBlock, IsRowChain;
    NextBlockLinks(c, m, e);
    WithRowChain(c, m, s, e);
    AppendRow(c.h, Chain(c, s), RowOf(NextBlock(c, m, e)));
    if c.tenant in s.anchors {
      AnchorSurvives(c, Chain(c, s), RowOf(NextBlock(c, m, e)), s.anchors[c.tenant]);
    }
  }

  // ... also once the anchor has moved to the new block.
  lemma {:induction false} WithAnchorOk(c: Config, m: Memory, s: Store, e: Env)
    requires StoreOk(c, s) && InSync(c, m, s)
    ensures StoreOk(c, WithAnchor(c, m, s, e))
    ensures Chain(c, WithAnchor(c, m, s, e)) == Chain(c, s) + [RowOf(NextBlock(c, m, e))]
  {
    hide NextBlock, IsRowChain, CheckpointLine;
    NextBlockLinks(c, m, e);
    WithRowOk(c, m, s, e);
    var s' := WithAnchor(c, m, s, e);
    var chain := Chain(c, s');
    assert AnchorOf(c, chain, s'.anchors[c.tenant], |chain| - 1);
  }

  lemma {:induction false} PartialOk(c: Config, m: Memory, s: Store, e: Env, k: nat)
    requires StoreOk(c, s) && InSync(c, m, s)
    ensures StoreOk(c, Partial(c, m, s, e, k))
    ensures k >= 3 ==> Chain(c, Partial(c, m, s, e, k)) ==
                       Chain(c, s) + (if RowWritten(e) then [RowOf(NextBlock(c, m, e))] else [])
  {
    hide NextBlock, WithRow, WithAnchor, StoreOk, Partial;
    PartialCases(c, m, s, e, k);
    WithRowOk(c, m, s, e);
    WithAnchorOk(c, m, s, e);
    BumpedOk(c, s);
    assert StoreOk(c, s) ==> IdsWithin(s.rows, s.counter) by { IdsOk(c, s); }
    BumpedChain(c, s);
    assert Chain(c, s) + [] == Chain(c, s);
  }

  lemma {:induction false} IdsOk(c: Config, s: Store)
    requires StoreOk(c, s)
    ensures IdsWithin(s.rows, s.counter)
  {
  }

  // ---- resuming ---------------------------------------------------------------------------------

  // Nothing is stored, or the anchor is the line for the last stored block and
  // there is a next block number.
  ghost predicate Resumable(c: Config, s: Store) {
    var chain := Chain(c, s);
    chain == [] ||
    (|chain| < U64_LIMIT && PIPE !in c.tenant && c.tenant in s.anchors && AnchorOf(c, chain, s.anchors[c.tenant], |chain| - 1))
  }

  lemma {:induction false} AnchorSeenIs(c: Config, s: Store, e: Env, k: nat)
    requires e.anchorRead && IsRowChain(c.h, Chain(c, s)) && k < |Chain(c, s)|
    requires c.tenant in s.anchors && AnchorOf(c, Chain(c, s), s.anchors[c.tenant], k)
    ensures AnchorSeen(c, s, e) == if PIPE in c.tenant then None else Some((k, Chain(c, s)[k].chainedRoot))
  {
    hide VerifiedAnchor, CheckpointLine, TenantRows;
    assert NumberedRow(c.h, Chain(c, s), k);
    AnchorRoundTrip(c.mac, c.master, c.tenant, Chain(c, s)[k].blockNumber, Chain(c, s)[k].chainedRoot);
  }

  lemma {:induction false} StoredSeenIs(c: Config, s: Store, e: Env)
    requires StoreOk(c, s) && e.storedRead && KeysOf(e.keys, s.rows)
    ensures
      var chain := Chain(c, s);
      StoredSeen(c, s, e) == if chain == [] then None else Some((|chain| - 1, HeadOf(chain)))
  {
    hide LatestOf, TenantRows;
    var chain := Chain(c, s);
    assert chain != [] ==> NumberedRow(c.h, chain, |chain| - 1);
    LatestOfChain(c.h, s, e.keys, c.tenant);
  }

  // What the first flush decides about a store whose newest block it can see.
  lemma {:induction false} DecisionExact(c: Config, m: Memory, s: Store, e: Env)
    requires StoreOk(c, s)
    requires e.initConnects && e.storedRead && KeysOf(e.keys, s.rows)
    requires !m.initialized && !m.stopped && m.blockNumber == 0 && m.root == ZERO_DIGEST
    ensures
      var m1 := AfterInit(c, m, s, e);
      && m1.records == m.records
      && (m1.stopped <==> Chain(c, s) != [] && !(e.anchorRead && Resumable(c, s)))
      && (!m1.stopped ==> m1.initialized && InSync(c, m1, s))
  {
    hide AnchorSeen, StoredSeen, TenantRows, CheckpointLine;
    var chain := Chain(c, s);
    StoredSeenIs(c, s, e);
    if chain != [] && e.anchorRead && c.tenant in s.anchors {
      var k :| 0 <= k < |chain| && AnchorOf(c, chain, s.anchors[c.tenant], k);
      AnchorSeenIs(c, s, e, k);
      if AnchorOf(c, chain, s.anchors[c.tenant], |chain| - 1) {
        AnchorSeenIs(c, s, e, |chain| - 1);
      }
    } else {
      NoAnchorSeen(c, s, e);
    }
  }

  lemma {:induction false} NoAnchorSeen(c: Config, s: Store, e: Env)
    requires StoreOk(c, s)
    requires Chain(c, s) == [] || !e.anchorRead || c.tenant !in s.anchors
    ensures AnchorSeen(c, s, e) == None
  {
  }

  // After a crash or at first start, with faithful reads: the enclave resumes
  // at exactly the last stored number and root, or it refuses and writes nothing.
  lemma {:induction false} ResumeExact(c: Config, s: Sys, e: Env)
    requires Inv(c, s) && !s.memory.initialized && !s.memory.stopped
    requires FaithfulReads(s.store, e)
    ensures Resumable(c, s.store) ==>
      && InSync(c, AfterInit(c, s.memory, s.store, e), s.store)
      && FlushWrites(c, s.memory, s.store, e) == AppendWrites(c, AfterInit(c, s.memory, s.store, e), s.store, e)
    ensures !Resumable(c, s.store) ==>
      && FlushMemory(c, s.memory, s.store, e).stopped
      && FlushWrites(c, s.memory, s.store, e) == []
  {
    hide AfterInit, AppendWrites, Resumable, AppendMemory;
    DecisionExact(c, s.memory, s.store, e);
    assert Chain(c, s.store) == [] ==> Resumable(c, s.store) by { EmptyResumable(c, s.store); }
  }

  lemma {:induction false} EmptyResumable(c: Config, s: Store)
    ensures Chain(c, s) == [] ==> Resumable(c, s)
  {
  }

  // ---- every event keeps the invariant ---------------------------------------------------------

  // The memory that appends, if the flush gets that far, is in sync.
  lemma {:induction false} InitSyncs(c: Config, s: Sys, e: Env)
    requires Inv(c, s) && FaithfulReads(s.store, e)
    requires !s.memory.stopped
    ensures
      var m1 := AfterInit(c, s.memory, s.store, e);
      m1.stopped || (m1.initialized && InSync(c, m1, s.store))
  {
    hide TenantRows, Decided, AnchorSeen, StoredSeen;
    if !s.memory.initialized {
      DecisionExact(c, s.memory, s.store, e);
    }
  }

  lemma {:induction false} AppendKeepsInv(c: Config, m: Memory, s: Store, e: Env)
    requires StoreOk(c, s) && InSync(c, m, s) && m.initialized && !m.stopped
    requires HonestFailure(e)
    ensures Inv(c, Sys(AppendMemory(c, m, e), ApplyAll(s, AppendWrites(c, m, s, e))))
    ensures |Chain(c, ApplyAll(s, AppendWrites(c, m, s, e)))| <= |Chain(c, s)| + 1
  {
    hide NextBlock, StoreOk, AppendWrites, RowWritten, InsertOk, TenantRows;
    var ws := AppendWrites(c, m, s, e);
    WritesAtMostThree(c, m, s, e);
    PartialOk(c, m, s, e, 3);
    NextBlockLinks(c, m, e);
    var chain, chain' := Chain(c, s), Chain(c, ApplyAll(s, ws));
    if RowWritten(e) {
      assert chain' == chain + [RowOf(NextBlock(c, m, e))];
      assert InsertOk(e);
    } else {
      InsertNeedsRow(e);
      assert chain' == chain;
    }
  }

  lemma {:induction false} InsertNeedsRow(e: Env)
    ensures InsertOk(e) ==> RowWritten(e)
  {
  }

  lemma {:induction false} WritesAtMostThree(c: Config, m: Memory, s: Store, e: Env)
    ensures |AppendWrites(c, m, s, e)| <= 3
    ensures ApplyAll(s, AppendWrites(c, m, s, e)) == Partial(c, m, s, e, 3)
  {
  }

  lemma {:induction false} ChainGrowsByOne(c: Config, m: Memory, s: Store, e: Env, k: nat)
    requires IdsWithin(s.rows, s.counter)
    ensures |Chain(c, Partial(c, m, s, e, k))| <= |Chain(c, s)| + 1
  {
    hide NextBlock, Partial, TenantRows;
    PartialCases(c, m, s, e, k);
    BumpedChain(c, s);
    WithRowChain(c, m, s, e);
  }

  lemma {:induction false} FlushKeepsInv(c: Config, s: Sys, e: Env)
    requires Inv(c, s) && FaithfulReads(s.store, e) && HonestFailure(e)
    ensures Inv(c, Next(c, s, Flush(e)))
    ensures |Chain(c, Next(c, s, Flush(e)).store)| <= |Chain(c, s.store)| + 1
  {
    hide AppendWrites, AppendMemory, TenantRows, StoreOk, FaithfulReads, HonestFailure, AnchorSeen, StoredSeen;
    if !s.memory.stopped {
      InitSyncs(c, s, e);
      var m1 := AfterInit(c, s.memory, s.store, e);
      if !m1.stopped {
        AppendKeepsInv(c, m1, s.store, e);
      }
    }
  }

  lemma {:induction false} CrashKeepsInv(c: Config, s: Sys, e: Env, k: nat)
    requires Inv(c, s) && FaithfulReads(s.store, e)
    ensures Inv(c, Next(c, s, Crash(e, k)))
    ensures |Chain(c, Next(c, s, Crash(e, k)).store)| <= |Chain(c, s.store)| + 1
  {
    hide AppendWrites, TenantRows, StoreOk, FaithfulReads, AnchorSeen, StoredSeen;
    var m1 := AfterInit(c, s.memory, s.store, e);
    if !s.memory.stopped && !m1.stopped {
      InitSyncs(c, s, e);
      PartialOk(c, m1, s.store, e, k);
      IdsOk(c, s.store);
      ChainGrowsByOne(c, m1, s.store, e, k);
    } else {
      assert FlushWrites(c, s.memory, s.store, e) == [];
    }
  }

  lemma {:induction false} ForeignKeepsChain(c: Config, s: Sys, row: Row)
    requires IdsWithin(s.store.rows, s.store.counter)
    ensures
      var s' := Next(c, s, Foreign(row));
      && IdsWithin(s'.store.rows, s'.store.counter)
      && Chain(c, s'.store) == Chain(c, s.store) && s'.store.anchors == s.store.anchors && s'.memory == s.memory
  {
    if row.vmName != c.tenant {
      BumpedChain(c, s.store);
      TenantRowsPut(s.store.rows, s.store.counter + 1, row, s.store.counter + 1, c.tenant);
    }
  }

  lemma {:induction false} NextKeepsInv(c: Config, s: Sys, ev: Event)
    requires Inv(c, s) && CleanEvent(s, ev)
    ensures Inv(c, Next(c, s, ev))
    ensures |Chain(c, Next(c, s, ev).store)| <= |Chain(c, s.store)| + 1
  {
    hide TenantRows, IsRowChain, FlushWrites, FlushMemory;
    match ev {
      case Accumulate(_) =>
      case Flush(e) => FlushKeepsInv(c, s, e);
      case Crash(e, k) => CrashKeepsInv(c, s, e, k);
      case Foreign(row) => ForeignKeepsChain(c, s, row);
    }
  }

  // ---- whole runs ---------------------------------------------------------------------------------

  lemma {:induction false} EmptyInv(c: Config)
    ensures Inv(c, EMPTY_SYSTEM) && Chain(c, EMPTY_SYSTEM.store) == []
  {
  }

  // After every run of flushes, crashes at any point, restarts and other
  // tenants' writes: the tenant's stored blocks are numbered 0, 1, 2, ..., each
  // hashed from and linked to its predecessor, and the live enclave, unless it
  // has stopped, will append the next one.
  lemma {:induction false} RunSafe(c: Config, events: seq<Event>)
    requires CleanRun(c, events)
    ensures Inv(c, Run(c, events))
    ensures IsRowChain(c.h, Chain(c, Run(c, events).store))
    ensures |Chain(c, Run(c, events).store)| <= |events|
  {
    hide Inv, TenantRows, Next, CleanEvent, IsRowChain;
    if events == [] {
      EmptyInv(c);
    } else {
      var n := |events| - 1;
      var init := events[..n];
      forall i | 0 <= i < |init|
        ensures CleanEvent(Run(c, init[..i]), init[i])
      {
        assert init[..i] == events[..i];
      }
      RunSafe(c, init);
      assert CleanEvent(Run(c, events[..n]), events[n]);
      NextKeepsInv(c, Run(c, init), events[n]);
    }
    InvGivesChain(c, Run(c, events));
  }

  lemma {:induction false} InvGivesChain(c: Config, s: Sys)
    requires Inv(c, s)
    ensures IsRowChain(c.h, Chain(c, s.store))
  {
  }

  ghost function RunFrom(c: Config, s: Sys, events: seq<Event>): Sys {
    if events == [] then s
    else Next(c, RunFrom(c, s, events[..|events| - 1]), events[|events| - 1])
  }

  // An enclave without a live chain facing a store it will not resume from.
  ghost predicate Stuck(c: Config, s: Sys) {
    Inv(c, s) && !Resumable(c, s.store) && (s.memory.stopped || !s.memory.initialized)
  }

  lemma {:induction false} StuckStays(c: Config, s: Sys, ev: Event)
    requires Stuck(c, s) && CleanEvent(s, ev)
    ensures Stuck(c, Next(c, s, ev))
    ensures Chain(c, Next(c, s, ev).store) == Chain(c, s.store)
  {
    hide TenantRows, IsRowChain, FlushWrites, FlushMemory, AnchorOf;
    match ev {
      case Accumulate(_) =>
      case Flush(e) => StuckFlush(c, s, e);
      case Crash(e, k) => StuckFlush(c, s, e);
      case Foreign(row) => ForeignKeepsChain(c, s, row);
    }
  }

  lemma {:induction false} StuckFlush(c: Config, s: Sys, e: Env)
    requires Stuck(c, s) && FaithfulReads(s.store, e)
    ensures FlushWrites(c, s.memory, s.store, e) == []
    ensures FlushMemory(c, s.memory, s.store, e) == s.memory.(stopped := true)
  {
    hide TenantRows, IsRowChain, AppendWrites, AnchorOf, NextBlock, AnchorSeen, StoredSeen;
    if !s.memory.stopped {
      DecisionExact(c, s.memory, s.store, e);
    }
  }

  // Once resuming is refused, no later flush, crash or restart ever changes the
  // tenant's stored blocks again.
  lemma {:induction false} RefusedForGood(c: Config, s: Sys, events: seq<Event>)
    requires Stuck(c, s)
    requires forall i :: 0 <= i < |events| ==> CleanEvent(RunFrom(c, s, events[..i]), events[i])
    ensures Stuck(c, RunFrom(c, s, events))
    ensures Chain(c, RunFrom(c, s, events).store) == Chain(c, s.store)
    decreases |events|
  {
    hide Stuck, TenantRows, Next, CleanEvent;
    if events != [] {
      var n := |events| - 1;
      var init := events[..n];
      forall i | 0 <= i < |init|
        ensures CleanEvent(RunFrom(c, s, init[..i]), init[i])
      {
        assert init[..i] == events[..i];
      }
      RefusedForGood(c, s, init);
      assert CleanEvent(RunFrom(c, s, events[..n]), events[n]);
      StuckStays(c, RunFrom(c, s, init), events[n]);
    }
  }

  // A stopped enclave faces a store that it will not resume from.
  ghost predicate StoppedStuck(c: Config, s: Sys) {
    s.memory.stopped ==> !Resumable(c, s.store)
  }

  lemma {:induction false} AppendStops(c: Config, m: Memory, s: Store, e: Env)
    requires StoreOk(c, s) && InSync(c, m, s) && !m.stopped && AppendMemory(c, m, e).stopped
    ensures !Resumable(c, ApplyAll(s, AppendWrites(c, m, s, e)))
  {
    hide NextBlock, StoreOk, AppendWrites, RowWritten, InsertOk, TenantRows, AnchorOf;
    WritesAtMostThree(c, m, s, e);
    PartialOk(c, m, s, e, 3);
    InsertNeedsRow(e);
    assert |Chain(c, ApplyAll(s, AppendWrites(c, m, s, e)))| == |Chain(c, s)| + 1;
  }

  lemma {:induction false} NextKeepsStopped(c: Config, s: Sys, ev: Event)
    requires Inv(c, s) && StoppedStuck(c, s) && CleanEvent(s, ev)
    ensures StoppedStuck(c, Next(c, s, ev))
  {
    hide TenantRows, StoreOk, AppendWrites, AppendMemory, AnchorOf, AnchorSeen, StoredSeen, InSync;
    match ev {
      case Accumulate(_) =>
      case Crash(_, _) =>
      case Foreign(row) =>
        IdsOk(c, s.store);
        ForeignKeepsChain(c, s, row);
      case Flush(e) =>
        if !s.memory.stopped {
          var m1 := AfterInit(c, s.memory, s.store, e);
          if !s.memory.initialized {
            DecisionExact(c, s.memory, s.store, e);
          }
          InitSyncs(c, s, e);
          if !m1.stopped && AppendMemory(c, m1, e).stopped {
            AppendStops(c, m1, s.store, e);
          }
        }
    }
  }

  // Every stopped enclave of a clean run is stuck, ...
  lemma {:induction false} StoppedIsStuck(c: Config, events: seq<Event>)
    requires CleanRun(c, events)
    ensures StoppedStuck(c, Run(c, events))
    ensures Run(c, events).memory.stopped ==> Stuck(c, Run(c, events))
  {
    hide Inv, Resumable, Next, CleanEvent;
    RunSafe(c, events);
    if events != [] {
      var n := |events| - 1;
      var init := events[..n];
      CleanPrefix(c, events, n);
      StoppedIsStuck(c, init);
      RunSafe(c, init);
      assert CleanEvent(Run(c, events[..n]), events[n]);
      NextKeepsStopped(c, Run(c, init), events[n]);
    }
  }

  lemma {:induction false} CleanPrefix(c: Config, events: seq<Event>, n: nat)
    requires CleanRun(c, events) && n <= |events|
    ensures CleanRun(c, events[..n])
  {
    hide CleanEvent, Run;
    var init := events[..n];
    forall i | 0 <= i < n
      ensures CleanEvent(Run(c, init[..i]), init[i])
    {
      assert init[..i] == events[..i];
    }
  }

  // ... so whatever follows cleanly, its stored blocks are never changed again.
  lemma {:induction false} StoppedForGood(c: Config, before: seq<Event>, after: seq<Event>)
    requires CleanRun(c, before + after) && Run(c, before).memory.stopped
    ensures Chain(c, Run(c, before + after).store) == Chain(c, Run(c, before).store)
  {
    hide CleanEvent, Run, RunFrom, Stuck, TenantRows;
    var all := before + after;
    CleanPrefix(c, all, |before|);
    assert all[..|before|] == before;
    StoppedIsStuck(c, before);
    forall i | 0 <= i < |after|
      ensures CleanEvent(RunFrom(c, Run(c, before), after[..i]), after[i])
    {
      RunSplit(c, before, after[..i]);
      assert all[..|before| + i] == before + after[..i];
      assert CleanEvent(Run(c, all[..|before| + i]), all[|before| + i]);
    }
    RunSplit(c, before, after);
    RefusedForGood(c, Run(c, before), after);
  }

  lemma {:induction false} RunSplit(c: Config, before: seq<Event>, after: seq<Event>)
    ensures Run(c, before + after) == RunFrom(c, Run(c, before), after)
    decreases |after|
  {
    hide Next;
    if after == [] {
      assert before + after == before;
    } else {
      var n := |after| - 1;
      RunSplit(c, before, after[..n]);
      assert (before + after)[..|before + after| - 1] == before + after[..n];
    }
  }

  // ---- one append from any memory -----------------------------------------------------------------

  // Appending from any memory keeps the chain exactly when nothing is written
  // or the memory is in sync.
  lemma {:induction false} AppendFromExact(c: Config, m: Memory, s: Store, e: Env)
    requires StoreOk(c, s)
    ensures IsRowChain(c.h, Chain(c, ApplyAll(s, AppendWrites(c, m, s, e)))) <==>
            !RowWritten(e) || InSync(c, m, s)
    ensures Chain(c, ApplyAll(s, AppendWrites(c, m, s, e))) ==
            Chain(c, s) + (if RowWritten(e) then [RowOf(NextBlock(c, m, e))] else [])
  {
    hide NextBlock, AppendWrites, TenantRows, IsRowChain, RowWritten, Partial;
    WritesAtMostThree(c, m, s, e);
    PartialCases(c, m, s, e, 3);
    BumpedChain(c, s);
    WithRowChain(c, m, s, e);
    NextBlockLinks(c, m, e);
    AppendRow(c.h, Chain(c, s), RowOf(NextBlock(c, m, e)));
    assert Chain(c, s) + [] == Chain(c, s);
  }
}
