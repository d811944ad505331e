// Many tenants' enclaves on one store: their single writes interleave, any of
// them may crash between any two writes, and every restart resumes.

module Fleet {
  import opened Bytes
  import opened Records
  import opened Blocks
  import opened BlockStore
  import opened Checkpoint
  import opened Audit
  import opened Flushing
  import opened CrashSafety
  import opened Tenants

  // Where a node is in its flush (readings are not taken meanwhile): about to take an id, about to write its row
  // under the id it took, or about to move its anchor.
  datatype Phase =
    | Idle
    | Numbering(env: Env)
    | Writing(env: Env, id: nat)
    | Anchoring(env: Env, line: Bytes)

  datatype Node = Node(memory: Memory, phase: Phase)

  const COLD_NODE := Node(COLD_START, Idle)

  datatype Fleet = Fleet(store: Store, nodes: map<Bytes, Node>)

  const NEW_FLEET := Fleet(Store(0, map[], map[]), map[])

  // The parameters all tenants share.
  datatype Common = Common(h: Hash, mac: Mac, master: Digest)

  function ConfigOf(p: Common, t: Bytes): Config {
    Config(p.h, p.mac, p.master, t)
  }

  function NodeOf(f: Fleet, t: Bytes): Node {
    if t in f.nodes then f.nodes[t] else COLD_NODE
  }

  // ---- the steps ----------------------------------------------------------------------------------

  datatype Step =
    | Gather(tenant: Bytes, records: seq<EnergyRecord>)
    | Begin(tenant: Bytes, env: Env)
    | Proceed(tenant: Bytes)
    | Die(tenant: Bytes)

  // The end of a flush: counters and records are cleared.
  function Cleared(m: Memory): Memory {
    m.(records := [], iterations := 0)
  }

  // Resuming, up to the point where the first write would be issued.
  ghost function Begun(c: Config, n: Node, s: Store, e: Env): Node {
    if !n.phase.Idle? || n.memory.stopped then n
    else
      var m1 := AfterInit(c, n.memory, s, e);
      if m1.stopped then Node(m1, Idle)
      else if !e.connects then Node(Cleared(m1), Idle)
      else Node(m1, Numbering(e))
  }

  function Numbered(n: Node, s: Store, e: Env): (Node, Store) {
    match e.incr
    case FailedBefore => (Node(Cleared(n.memory), Idle), s)
    case FailedAfter => (Node(Cleared(n.memory), Idle), Apply(s, Bump))
    case Done => (Node(n.memory, Writing(e, s.counter + 1)), Apply(s, Bump))
  }

  function Written(c: Config, n: Node, s: Store, e: Env, id: nat): (Node, Store) {
    var b := NextBlock(c, n.memory, e);
    var s' := if e.putRow.FailedBefore? then s else Apply(s, PutRow(id, RowOf(b)));
    var m' := AppendMemory(c, n.memory, e);
    if InsertOk(e) && !m'.stopped
    then (Node(m', Anchoring(e, CheckpointLine(c.mac, c.master, c.tenant, b.blockNumber, b.chainedRoot))), s')
    else (Node(m', Idle), s')
  }

  function Anchored(c: Config, n: Node, s: Store, e: Env, line: Bytes): (Node, Store) {
    (Node(n.memory, Idle), if e.setAnchor.FailedBefore? then s else Apply(s, PutAnchor(c.tenant, line)))
  }

  // The next write of a running flush.
  function Proceeded(c: Config, n: Node, s: Store): (Node, Store) {
    match n.phase
    case Idle => (n, s)
    case Numbering(e) => Numbered(n, s, e)
    case Writing(e, id) => Written(c, n, s, e, id)
    case Anchoring(e, line) => Anchored(c, n, s, e, line)
  }

  ghost function Advanced(p: Common, f: Fleet, step: Step): Fleet {
    var t := step.tenant;
    var n := NodeOf(f, t);
    match step
    case Gather(_, rs) =>
      if !n.phase.Idle? then f
      else f.(nodes := f.nodes[t := n.(memory := n.memory.(records := n.memory.records + rs))])
    case Begin(_, e) => f.(nodes := f.nodes[t := Begun(ConfigOf(p, t), n, f.store, e)])
    case Die(_) => f.(nodes := f.nodes[t := COLD_NODE])
    case Proceed(_) =>
      var (n', s') := Proceeded(ConfigOf(p, t), n, f.store);
      Fleet(s', f.nodes[t := n'])
  }

  ghost function History(p: Common, steps: seq<Step>): Fleet {
    if steps == [] then NEW_FLEET
    else Advanced(p, History(p, steps[..|steps| - 1]), steps[|steps| - 1])
  }

  // ---- alone, this is the flush -----------------------------------------------------------------------

  ghost function Alone(p: Common, f: Fleet, t: Bytes, e: Env): Fleet {
    var f1 := Advanced(p, f, Begin(t, e));
    Advanced(p, Advanced(p, Advanced(p, f1, Proceed(t)), Proceed(t)), Proceed(t))
  }

  // A node that begins and proceeds undisturbed does exactly what `Flush` does.
  lemma {:induction false} AloneIsFlush(p: Common, f: Fleet, t: Bytes, e: Env)
    requires NodeOf(f, t).phase.Idle?
    ensures
      var c, m := ConfigOf(p, t), NodeOf(f, t).memory;
      && NodeOf(Alone(p, f, t, e), t) == Node(FlushMemory(c, m, f.store, e), Idle)
      && Alone(p, f, t, e).store == ApplyAll(f.store, FlushWrites(c, m, f.store, e))
  {
    hide NextBlock, CheckpointLine, RowOf, AfterInit, ApplyAll, AppendWrites, BumpWrites;
    var c, n := ConfigOf(p, t), NodeOf(f, t);
    var m1 := AfterInit(c, n.memory, f.store, e);
    ApplyTwo(f.store, [], Bump);
    if !n.memory.stopped && !m1.stopped {
      AppendApplied(c, m1, f.store, e);
      InsertApplied(c, m1, f.store, e);
      NextBlockLinks(c, m1, e);
      NumberOfNext(c, m1, e);
    }
  }

  lemma {:induction false} NumberOfNext(c: Config, m: Memory, e: Env)
    ensures NextBlock(c, m, e).blockNumber == m.blockNumber
  {
  }

  lemma {:induction false} InsertApplied(c: Config, m: Memory, s: Store, e: Env)
    ensures
      var row := if RowWritten(e) then [PutRow(s.counter + 1, RowOf(NextBlock(c, m, e)))] else [];
      ApplyAll(s, BumpWrites(e) + row) ==
        if !e.connects || e.incr.FailedBefore? then s
        else if !RowWritten(e) then Apply(s, Bump)
        else Apply(Apply(s, Bump), row[0])
  {
    hide NextBlock, RowOf, Apply, ApplyAll;
    var row := PutRow(s.counter + 1, RowOf(NextBlock(c, m, e)));
    ApplyTwo(s, [], Bump);
    ApplyTwo(s, BumpWrites(e), row);
    ApplyTwo(s, [Bump], row);
  }

  // ---- the assumptions: only about resuming and about inserts that report failure -----------------------

  ghost predicate CleanStep(f: Fleet, step: Step) {
    step.Begin? ==> FaithfulReads(f.store, step.env) && HonestFailure(step.env)
  }

  ghost predicate CleanHistory(p: Common, steps: seq<Step>) {
    forall i :: 0 <= i < |steps| ==> CleanStep(History(p, steps[..i]), steps[i])
  }

  // ---- the invariant --------------------------------------------------------------------------------------

  // An id in hand is unused, lies above all rows of its tenant, and is nobody else's.
  ghost predicate IdOk(f: Fleet, t: Bytes) {
    var phase := NodeOf(f, t).phase;
    phase.Writing? ==>
      && phase.id <= f.store.counter && phase.id !in f.store.rows
      && (forall k :: k in f.store.rows && phase.id < k ==> f.store.rows[k].vmName != t)
      && (forall u :: u != t && NodeOf(f, u).phase.Writing? ==> NodeOf(f, u).phase.id != phase.id)
  }

  ghost predicate PhaseOk(c: Config, n: Node, s: Store) {
    match n.phase
    case Idle => true
    case Numbering(e) => e.connects && HonestFailure(e) && Live(n.memory)
    case Writing(e, _) => e.connects && e.incr.Done? && HonestFailure(e) && Live(n.memory)
    case Anchoring(e, line) =>
      var chain := Chain(c, s);
      Live(n.memory) && chain != [] && AnchorOf(c, chain, line, |chain| - 1)
  }

  predicate Live(m: Memory) {
    m.initialized && !m.stopped
  }

  ghost predicate NodeOk(p: Common, f: Fleet, t: Bytes) {
    var c, n := ConfigOf(p, t), NodeOf(f, t);
    CrashSafety.Inv(c, Sys(n.memory, f.store)) && PhaseOk(c, n, f.store) && IdOk(f, t)
  }

  ghost predicate FleetOk(p: Common, f: Fleet) {
    forall t :: NodeOk(p, f, t)
  }

  // ---- other tenants are not touched ------------------------------------------------------------------------

  // Same rows and same anchor for a tenant: same invariant for its node.
  ghost predicate SameFor(p: Common, f: Fleet, g: Fleet, t: Bytes) {
    && NodeOf(g, t) == NodeOf(f, t)
    && Chain(ConfigOf(p, t), g.store) == Chain(ConfigOf(p, t), f.store)
    && (t in g.store.anchors <==> t in f.store.anchors)
    && (t in f.store.anchors && t in g.store.anchors ==> g.store.anchors[t] == f.store.anchors[t])
    && IdsWithin(g.store.rows, g.store.counter)
  }

  lemma {:induction false} OthersKeep(p: Common, f: Fleet, g: Fleet, t: Bytes)
    requires NodeOk(p, f, t) && SameFor(p, f, g, t) && IdOk(g, t)
    ensures NodeOk(p, g, t)
  {
    hide TenantRows, IsRowChain, CheckpointLine;
  }

  // ---- every step keeps the invariant ------------------------------------------------------------------------

  // Steps that leave the store alone.
  lemma {:induction false} MemoryStep(p: Common, f: Fleet, t: Bytes, n: Node)
    requires FleetOk(p, f) && !n.phase.Writing?
    requires CrashSafety.Inv(ConfigOf(p, t), Sys(n.memory, f.store)) && PhaseOk(ConfigOf(p, t), n, f.store)
    ensures FleetOk(p, f.(nodes := f.nodes[t := n]))
  {
    hide CrashSafety.Inv, TenantRows, PhaseOk;
    var g := f.(nodes := f.nodes[t := n]);
    assert NodeOf(g, t) == n && forall u :: u != t ==> NodeOf(g, u) == NodeOf(f, u);
    forall u
      ensures NodeOk(p, g, u)
    {
      assert NodeOk(p, f, u);
      if u != t {
        SameStoreKeeps(p, f, g, u);
      }
    }
  }

  lemma {:induction false} SameStoreKeeps(p: Common, f: Fleet, g: Fleet, u: Bytes)
    requires NodeOk(p, f, u) && g.store == f.store && NodeOf(g, u) == NodeOf(f, u)
    requires forall t :: NodeOf(g, t).phase.Writing? ==> NodeOf(g, t) == NodeOf(f, t)
    ensures NodeOk(p, g, u)
  {
    hide CrashSafety.Inv, PhaseOk;
  }

  lemma {:induction false} BegunOk(c: Config, n: Node, s: Store, e: Env)
    requires CrashSafety.Inv(c, Sys(n.memory, s)) && PhaseOk(c, n, s) && FaithfulReads(s, e) && HonestFailure(e)
    requires n.phase.Idle? && !n.memory.stopped
    ensures
      var n' := Begun(c, n, s, e);
      CrashSafety.Inv(c, Sys(n'.memory, s)) && PhaseOk(c, n', s) && !n'.phase.Writing?
  {
    hide TenantRows, StoreOk, AnchorSeen, StoredSeen, HonestFailure, KeysOf;
    InitSyncs(c, Sys(n.memory, s), e);
  }

  lemma {:induction false} BeginKeeps(p: Common, f: Fleet, t: Bytes, e: Env)
    requires FleetOk(p, f) && CleanStep(f, Begin(t, e))
    ensures FleetOk(p, Advanced(p, f, Begin(t, e)))
  {
    hide TenantRows, StoreOk, FaithfulReads, FleetOk, HonestFailure, PhaseOk, CrashSafety.Inv, IdOk;
    var c, n := ConfigOf(p, t), NodeOf(f, t);
    OneOk(p, f, t);
    if n.phase.Idle? && !n.memory.stopped {
      BegunOk(c, n, f.store, e);
      MemoryStep(p, f, t, Begun(c, n, f.store, e));
    } else {
      SameNode(p, f, t);
    }
  }

  lemma {:induction false} OneOk(p: Common, f: Fleet, t: Bytes)
    requires FleetOk(p, f)
    ensures NodeOk(p, f, t)
  {
  }

  // Naming a node that is as it was.
  lemma {:induction false} SameNode(p: Common, f: Fleet, t: Bytes)
    requires FleetOk(p, f)
    ensures FleetOk(p, f.(nodes := f.nodes[t := NodeOf(f, t)]))
  {
    hide CrashSafety.Inv, PhaseOk;
    var g := f.(nodes := f.nodes[t := NodeOf(f, t)]);
    assert forall u :: NodeOf(g, u) == NodeOf(f, u);
    forall u
      ensures NodeOk(p, g, u)
    {
      assert NodeOk(p, f, u);
    }
  }

  lemma {:induction false} DieKeeps(p: Common, f: Fleet, t: Bytes)
    requires FleetOk(p, f)
    ensures FleetOk(p, Advanced(p, f, Die(t)))
  {
    hide TenantRows, StoreOk, FleetOk;
    OneOk(p, f, t);
    MemoryStep(p, f, t, COLD_NODE);
  }

  lemma {:induction false} GatherKeeps(p: Common, f: Fleet, t: Bytes, rs: seq<EnergyRecord>)
    requires FleetOk(p, f)
    ensures FleetOk(p, Advanced(p, f, Gather(t, rs)))
  {
    hide TenantRows, StoreOk, FleetOk;
    OneOk(p, f, t);
    var n := NodeOf(f, t);
    if n.phase.Idle? {
      MemoryStep(p, f, t, n.(memory := n.memory.(records := n.memory.records + rs)));
    }
  }

  lemma {:induction false} NumberedNodeOk(p: Common, f: Fleet, t: Bytes, e: Env)
    requires NodeOk(p, f, t) && NodeOf(f, t).phase == Numbering(e)
    ensures
      var c := ConfigOf(p, t);
      var (n', s') := Numbered(NodeOf(f, t), f.store, e);
      && CrashSafety.Inv(c, Sys(n'.memory, s')) && PhaseOk(c, n', s')
      && (s' == f.store || s' == Bumped(f.store))
      && (n'.phase.Writing? ==> s' == Bumped(f.store) && n'.phase.id == s'.counter)
  {
    hide TenantRows, StoreOk;
    var c := ConfigOf(p, t);
    BumpedOk(c, f.store);
    BumpedChain(c, f.store) by { IdsOk(c, f.store); }
  }

  // Taking an id: the new one is above everything.
  lemma {:induction false} NumberKeeps(p: Common, f: Fleet, t: Bytes, e: Env)
    requires FleetOk(p, f) && NodeOf(f, t).phase == Numbering(e)
    ensures FleetOk(p, Advanced(p, f, Proceed(t)))
  {
    hide TenantRows, IsRowChain, AnchorOf, Advanced, Numbered, CrashSafety.Inv, PhaseOk;
    var g := Advanced(p, f, Proceed(t));
    var (n', s') := Numbered(NodeOf(f, t), f.store, e);
    assert g == Fleet(s', f.nodes[t := n']) by { ProceedIs(p, f, t); }
    assert NodeOf(g, t) == n' && forall u :: u != t ==> NodeOf(g, u) == NodeOf(f, u);
    assert NodeOk(p, f, t);
    NumberedNodeOk(p, f, t, e);
    forall u
      ensures NodeOk(p, g, u)
    {
      assert NodeOk(p, f, u);
      InvIds(ConfigOf(p, u), Sys(NodeOf(f, u).memory, f.store));
      BumpedChain(ConfigOf(p, u), f.store);
      if u != t {
        OthersKeep(p, f, g, u);
      } else {
        NewIdOk(p, f, g, t);
      }
    }
  }

  lemma {:induction false} NewIdOk(p: Common, f: Fleet, g: Fleet, t: Bytes)
    requires FleetOk(p, f) && IdsWithin(f.store.rows, f.store.counter)
    requires forall u :: u != t ==> NodeOf(g, u) == NodeOf(f, u)
    requires g.store.rows == f.store.rows
    requires NodeOf(g, t).phase.Writing? ==>
      g.store.counter == f.store.counter + 1 && NodeOf(g, t).phase.id == g.store.counter
    ensures IdOk(g, t)
  {
    hide CrashSafety.Inv, PhaseOk;
    forall u | u != t && NodeOf(g, u).phase.Writing?
      ensures NodeOf(g, u).phase.id <= f.store.counter
    {
      assert NodeOk(p, f, u);
    }
  }

  lemma {:induction false} ProceedIs(p: Common, f: Fleet, t: Bytes)
    ensures Advanced(p, f, Proceed(t)) ==
      var (n', s') := Proceeded(ConfigOf(p, t), NodeOf(f, t), f.store);
      Fleet(s', f.nodes[t := n'])
  {
  }

  // A row under an id in hand.
  lemma {:induction false} PutOk(c: Config, m: Memory, s: Store, e: Env, id: nat)
    requires StoreOk(c, s) && InSync(c, m, s) && id <= s.counter && id !in s.rows
    requires forall k :: k in s.rows && id < k ==> s.rows[k].vmName != c.tenant
    ensures
      var s' := Apply(s, PutRow(id, RowOf(NextBlock(c, m, e))));
      StoreOk(c, s') && Chain(c, s') == Chain(c, s) + [RowOf(NextBlock(c, m, e))]
  {
    hide NextBlock, IsRowChain, TenantRows, CheckpointLine;
    var row := RowOf(NextBlock(c, m, e));
    NextBlockLinks(c, m, e);
    TenantRowsPut(s.rows, id, row, s.counter, c.tenant);
    AppendRow(c.h, Chain(c, s), row);
    if c.tenant in s.anchors {
      AnchorSurvives(c, Chain(c, s), row, s.anchors[c.tenant]);
    }
  }

  lemma {:induction false} WrittenNodeOk(p: Common, f: Fleet, t: Bytes, e: Env, id: nat)
    requires NodeOk(p, f, t) && NodeOf(f, t).phase == Writing(e, id)
    ensures
      var c := ConfigOf(p, t);
      var (n', s') := Written(c, NodeOf(f, t), f.store, e, id);
      CrashSafety.Inv(c, Sys(n'.memory, s')) && PhaseOk(c, n', s') && !n'.phase.Writing?
  {
    hide TenantRows, StoreOk, NextBlock, CheckpointLine;
    var c, n := ConfigOf(p, t), NodeOf(f, t);
    NextBlockLinks(c, n.memory, e);
    NumberOfNext(c, n.memory, e);
    if RowWritten(e) {
      PutOk(c, n.memory, f.store, e, id) by { IdsOk(c, f.store); }
    } else {
      InsertNeedsRow(e);
    }
  }

  lemma {:induction false} WriteKeeps(p: Common, f: Fleet, t: Bytes, e: Env, id: nat)
    requires FleetOk(p, f) && NodeOf(f, t).phase == Writing(e, id)
    ensures FleetOk(p, Advanced(p, f, Proceed(t)))
  {
    hide TenantRows, IsRowChain, AnchorOf, Advanced, NextBlock, CrashSafety.Inv, PhaseOk, AppendMemory, CheckpointLine;
    var c := ConfigOf(p, t);
    var g := Advanced(p, f, Proceed(t));
    var (n', s') := Written(c, NodeOf(f, t), f.store, e, id);
    assert g == Fleet(s', f.nodes[t := n']) by { ProceedIs(p, f, t); }
    assert NodeOf(g, t) == n' && forall u :: u != t ==> NodeOf(g, u) == NodeOf(f, u);
    assert NodeOk(p, f, t);
    WrittenNodeOk(p, f, t, e, id);
    var row := RowOf(NextBlock(c, NodeOf(f, t).memory, e));
    NextBlockLinks(c, NodeOf(f, t).memory, e);
    forall u
      ensures NodeOk(p, g, u)
    {
      assert NodeOk(p, f, u);
      if u != t {
        InvIds(ConfigOf(p, u), Sys(NodeOf(f, u).memory, f.store));
        TenantRowsPut(f.store.rows, id, row, f.store.counter, u);
        OthersKeep(p, f, g, u);
      }
    }
  }

  lemma {:induction false} InvIds(c: Config, s: Sys)
    requires CrashSafety.Inv(c, s)
    ensures IdsWithin(s.store.rows, s.store.counter)
  {
  }

  lemma {:induction false} AnchorKeeps(p: Common, f: Fleet, t: Bytes, e: Env, line: Bytes)
    requires FleetOk(p, f) && NodeOf(f, t).phase == Anchoring(e, line)
    ensures FleetOk(p, Advanced(p, f, Proceed(t)))
  {
    hide TenantRows, IsRowChain, AnchorOf, Advanced;
    var c := ConfigOf(p, t);
    var g := Advanced(p, f, Proceed(t));
    var (n', s') := Anchored(c, NodeOf(f, t), f.store, e, line);
    assert g == Fleet(s', f.nodes[t := n']) by { ProceedIs(p, f, t); }
    assert NodeOf(g, t) == n' && forall u :: u != t ==> NodeOf(g, u) == NodeOf(f, u);
    forall u
      ensures NodeOk(p, g, u)
    {
      assert NodeOk(p, f, u) && NodeOk(p, f, t);
      if u != t {
        OthersKeep(p, f, g, u);
      }
    }
  }

  lemma {:induction false} StepKeeps(p: Common, f: Fleet, step: Step)
    requires FleetOk(p, f) && CleanStep(f, step)
    ensures FleetOk(p, Advanced(p, f, step))
  {
    hide FleetOk, Advanced, CleanStep;
    match step {
      case Gather(t, rs) => GatherKeeps(p, f, t, rs);
      case Begin(t, e) => BeginKeeps(p, f, t, e);
      case Die(t) => DieKeeps(p, f, t);
      case Proceed(t) =>
        match NodeOf(f, t).phase {
          case Idle =>
            SameNode(p, f, t);
            ProceedIs(p, f, t);
          case Numbering(e) => NumberKeeps(p, f, t, e);
          case Writing(e, id) => WriteKeeps(p, f, t, e, id);
          case Anchoring(e, line) => AnchorKeeps(p, f, t, e, line);
        }
    }
  }

  // ---- every history -------------------------------------------------------------------------------------------

  lemma {:induction false} NewFleetOk(p: Common)
    ensures FleetOk(p, NEW_FLEET)
  {
  }

  lemma {:induction false} HistoryOk(p: Common, steps: seq<Step>)
    requires CleanHistory(p, steps)
    ensures FleetOk(p, History(p, steps))
  {
    hide FleetOk, Advanced, CleanStep;
    if steps == [] {
      NewFleetOk(p);
    } else {
      var n := |steps| - 1;
      var init := steps[..n];
      forall i | 0 <= i < n
        ensures CleanStep(History(p, init[..i]), init[i])
      {
        assert init[..i] == steps[..i];
      }
      HistoryOk(p, init);
      assert CleanStep(History(p, steps[..n]), steps[n]);
      StepKeeps(p, History(p, init), steps[n]);
    }
  }

  // However the tenants' single writes interleave and wherever their enclaves
  // crash and resume: every tenant's blocks are numbered 0, 1, 2, ..., each hashed
  // from and linked to its predecessor, and every enclave that is live between
  // flushes will append the next one.
  lemma {:induction false} FleetSafe(p: Common, steps: seq<Step>, t: Bytes)
    requires CleanHistory(p, steps)
    ensures
      var f := History(p, steps);
      var c, n := ConfigOf(p, t), NodeOf(f, t);
      && IsRowChain(p.h, Chain(c, f.store))
      && (Live(n.memory) ==> InSync(c, n.memory, f.store))
  {
    hide History, IsRowChain, TenantRows;
    HistoryOk(p, steps);
    assert NodeOk(p, History(p, steps), t);
  }

  // The audit of any tenant, from any starting id, then finds nothing wrong.
  lemma {:induction false} FleetAudits(p: Common, steps: seq<Step>, t: Bytes, since: int)
    requires CleanHistory(p, steps) && t != [] && t != UNNAMED
    ensures
      var s := History(p, steps).store;
      var text := TextRowsOf(s.rows);
      && InRows(text, s.counter, t, since)
      && Walk(p.h, t, Items(text, ScopeIds(text, s.counter, t, since)), None).firstFailure.None?
  {
    hide TenantRows, ScopeIds, Walk, Linked, IsRowChain, LinkedRows, History;
    FleetSafe(p, steps, t);
    var s := History(p, steps).store;
    RowChainLinked(p.h, Chain(ConfigOf(p, t), s));
    TailLinked(p.h, s.rows, s.counter, t, since);
    var text := TextRowsOf(s.rows);
    WalkExact(p.h, t, Items(text, ScopeIds(text, s.counter, t, since)), None);
  }
}
