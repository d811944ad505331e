// Several tenants appending under one shared id counter, and their audit.

module Tenants {
  import opened Bytes
  import opened Codec
  import opened Records
  import opened Blocks
  import opened BlockStore
  import opened Checkpoint
  import opened Audit
  import opened Flushing
  import Crash = CrashSafety

  // What the auditor reads for a stored row.
  function TextOf(row: Row): TextRow {
    TextRow(row.vmName, HexEncode(row.prevChainedRoot), HexEncode(row.merkleRoot), HexEncode(row.chainedRoot))
  }

  function TextRowsOf(rows: Rows): TextRows {
    map id | id in rows :: TextOf(rows[id])
  }

  ghost predicate LinkedRows(h: Hash, chain: seq<Row>) {
    forall i :: 0 <= i < |chain| ==> LinkedRow(h, chain, i)
  }

  // ---- interleaved appends ------------------------------------------------------------------

  // Every tenant's enclave first takes an id, then writes its row under it;
  // the commands of different tenants interleave freely.  An enclave whose
  // 64-bit block number has run out does nothing any more.
  datatype Command =
    | Take(tenant: Bytes)
    | Put(tenant: Bytes, records: seq<EnergyRecord>, time: Bytes)

  datatype World = World(
    counter: nat, rows: Rows,
    heads: map<Bytes, Digest>, numbers: map<Bytes, nat>, taken: map<Bytes, nat>)

  const NEW_WORLD := World(0, map[], map[], map[], map[])

  function Head(w: World, t: Bytes): Digest {
    if t in w.heads then w.heads[t] else ZERO_DIGEST
  }

  function Number(w: World, t: Bytes): nat {
    if t in w.numbers then w.numbers[t] else 0
  }

  function NewRow(h: Hash, w: World, t: Bytes, records: seq<EnergyRecord>, time: Bytes): Row
    requires Number(w, t) <= U64_MAX
  {
    RowOf(MakeBlock(h, Number(w, t), t, Head(w, t), records, time))
  }

  function Do(h: Hash, w: World, c: Command): World {
    match c
    case Take(t) => w.(counter := w.counter + 1, taken := w.taken[t := w.counter + 1])
    case Put(t, records, time) =>
      if t !in w.taken || Number(w, t) > U64_MAX then w
      else
        var row := NewRow(h, w, t, records, time);
        w.(rows := w.rows[w.taken[t] := row], heads := w.heads[t := row.chainedRoot],
           numbers := w.numbers[t := row.blockNumber + 1], taken := w.taken - {t})
  }

  function RunAll(h: Hash, commands: seq<Command>): World {
    if commands == [] then NEW_WORLD
    else Do(h, RunAll(h, commands[..|commands| - 1]), commands[|commands| - 1])
  }

  // An id handed out but not yet used lies above all of its tenant's rows.
  ghost predicate TakenOk(w: World) {
    && (forall t :: t in w.taken ==> w.taken[t] <= w.counter && w.taken[t] !in w.rows)
    && (forall t, id :: t in w.taken && id in w.rows && w.taken[t] < id ==> w.rows[id].vmName != t)
    && (forall t, u :: t in w.taken && u in w.taken && t != u ==> w.taken[t] != w.taken[u])
  }

  ghost predicate ChainOk(h: Hash, w: World, t: Bytes) {
    var chain := TenantRows(w.rows, w.counter, t);
    IsRowChain(h, chain) && Head(w, t) == HeadOf(chain) && Number(w, t) == |chain|
  }

  ghost predicate WorldOk(h: Hash, w: World) {
    IdsWithin(w.rows, w.counter) && TakenOk(w) && forall t :: ChainOk(h, w, t)
  }

  lemma {:induction false} NewRowLinks(h: Hash, w: World, t: Bytes, records: seq<EnergyRecord>, time: Bytes)
    requires Number(w, t) <= U64_MAX
    ensures
      var row := NewRow(h, w, t, records, time);
      && row.vmName == t && row.blockNumber == Number(w, t) && row.prevChainedRoot == Head(w, t)
      && row.chainedRoot == ChainedRoot(h, row.prevChainedRoot, row.merkleRoot)
  {
  }

  lemma {:induction false} TakeKeeps(h: Hash, w: World, t: Bytes)
    requires WorldOk(h, w)
    ensures WorldOk(h, Do(h, w, Take(t)))
  {
    hide IsRowChain;
    var w' := Do(h, w, Take(t));
    forall u
      ensures ChainOk(h, w', u)
    {
      assert ChainOk(h, w, u);
      TenantRowsBeyond(w.rows, w.counter, w.counter + 1, u);
    }
  }

  lemma {:induction false} PutKeeps(h: Hash, w: World, t: Bytes, records: seq<EnergyRecord>, time: Bytes)
    requires WorldOk(h, w) && t in w.taken && Number(w, t) <= U64_MAX
    ensures WorldOk(h, Do(h, w, Put(t, records, time)))
  {
    hide IsRowChain, TenantRows, NewRow;
    var w', row := Do(h, w, Put(t, records, time)), NewRow(h, w, t, records, time);
    NewRowLinks(h, w, t, records, time);
    forall u
      ensures ChainOk(h, w', u)
    {
      assert ChainOk(h, w, u);
      TenantRowsPut(w.rows, w.taken[t], row, w.counter, u);
      if u == t {
        AppendRow(h, TenantRows(w.rows, w.counter, t), row);
      }
    }
  }

  // Over every interleaving, each tenant's rows are numbered 0, 1, 2, ..., each
  // hashed from and linked to its predecessor, and its enclave will continue them.
  lemma {:induction false} RunAllOk(h: Hash, commands: seq<Command>)
    ensures WorldOk(h, RunAll(h, commands))
  {
    hide WorldOk, Do;
    if commands == [] {
      NewWorldOk(h);
    } else {
      var n := |commands| - 1;
      RunAllOk(h, commands[..n]);
      DoKeeps(h, RunAll(h, commands[..n]), commands[n]);
    }
  }

  lemma {:induction false} NewWorldOk(h: Hash)
    ensures WorldOk(h, NEW_WORLD)
  {
  }

  lemma {:induction false} DoKeeps(h: Hash, w: World, c: Command)
    requires WorldOk(h, w)
    ensures WorldOk(h, Do(h, w, c))
  {
    hide WorldOk;
    match c {
      case Take(t) => TakeKeeps(h, w, t);
      case Put(t, records, time) =>
        if t in w.taken && Number(w, t) <= U64_MAX {
          PutKeeps(h, w, t, records, time);
        }
    }
  }

  // ---- this is what flushes do ------------------------------------------------------------------

  // A tenant's enclave that holds its number and head appends exactly as Take and
  // Put do, when every command of the append is carried out.
  lemma {:induction false} AppendIsTakePut(c: Config, w: World, m: Memory, anchors: map<Bytes, Bytes>, e: Env)
    requires m.blockNumber == Number(w, c.tenant) && m.root == Head(w, c.tenant) && InsertOk(e)
    ensures
      var s := ApplyAll(Store(w.counter, w.rows, anchors), AppendWrites(c, m, Store(w.counter, w.rows, anchors), e));
      var w' := Do(c.h, Do(c.h, w, Take(c.tenant)), Put(c.tenant, m.records, e.time));
      var m' := AppendMemory(c, m, e);
      && w'.counter == s.counter && w'.rows == s.rows
      && (!m'.stopped && !m.stopped ==> m'.blockNumber == Number(w', c.tenant) && m'.root == Head(w', c.tenant))
  {
    hide MakeBlock, CheckpointLine, ApplyAll, AppendWrites;
    var s := Store(w.counter, w.rows, anchors);
    AppendApplied(c, m, s, e);
    Crash.NextBlockLinks(c, m, e);
    var row := PutRow(s.counter + 1, RowOf(NextBlock(c, m, e)));
    ApplyTwo(s, [Bump], row);
    ApplyTwo(s, [], Bump);
  }

  // An append that fails before its row is a Take alone, or nothing.
  lemma {:induction false} FailedAppendIsTake(c: Config, w: World, m: Memory, anchors: map<Bytes, Bytes>, e: Env)
    requires !RowWritten(e)
    ensures
      var s := ApplyAll(Store(w.counter, w.rows, anchors), AppendWrites(c, m, Store(w.counter, w.rows, anchors), e));
      var w' := Do(c.h, w, Take(c.tenant));
      s.rows == w.rows && (s.counter == w.counter || (s.counter == w'.counter && s.rows == w'.rows))
  {
    hide MakeBlock, CheckpointLine, ApplyAll, AppendWrites;
    var s := Store(w.counter, w.rows, anchors);
    AppendApplied(c, m, s, e);
    ApplyTwo(s, BumpWrites(e), Bump);
    ApplyTwo(s, [], Bump);
  }

  // ---- the audit of such a store ----------------------------------------------------------

  // Every stored row carries a tenant name (node ids are valid, hence nonempty, labels).
  ghost predicate Named(rows: Rows) {
    forall id :: id in rows ==> rows[id].vmName != []
  }

  // No other label is filed together with this tenant's rows.
  ghost predicate OwnLabel(rows: Rows, t: Bytes) {
    Named(rows) || (t != [] && t != UNNAMED)
  }

  // What the auditor selects for one tenant is a tail of that tenant's rows.
  lemma {:induction false} ScopeIsTail(rows: Rows, upto: nat, t: Bytes, since: int)
    requires OwnLabel(rows, t)
    ensures
      var chain, ids := TenantRows(rows, upto, t), ScopeIds(TextRowsOf(rows), upto, t, since);
      && |ids| <= |chain|
      && (forall i :: 0 <= i < |ids| ==> ids[i] in rows && rows[ids[i]] == chain[|chain| - |ids| + i])
    decreases upto
  {
    hide HexEncode;
    var text := TextRowsOf(rows);
    if upto < since {
      ScopeBelow(text, upto, t, since);
    } else if upto > 0 {
      ScopeIsTail(rows, upto - 1, t, since);
    }
  }

  lemma {:induction false} ScopeBelow(text: TextRows, upto: nat, t: Bytes, since: int)
    requires upto < since
    ensures ScopeIds(text, upto, t, since) == []
    decreases upto
  {
    if upto > 0 {
      ScopeBelow(text, upto - 1, t, since);
    }
  }

  lemma {:induction false} RowReads(h: Hash, row: Row)
    requires row.chainedRoot == ChainedRoot(h, row.prevChainedRoot, row.merkleRoot)
    ensures Readable(TextOf(row)) && RootMatches(h, TextOf(row))
  {
    HexRoundTrip(row.prevChainedRoot);
    HexRoundTrip(row.merkleRoot);
  }

  lemma {:induction false} TailLinked(h: Hash, rows: Rows, upto: nat, t: Bytes, since: int)
    requires OwnLabel(rows, t) && LinkedRows(h, TenantRows(rows, upto, t))
    ensures
      var text := TextRowsOf(rows);
      InRows(text, upto, t, since) && Linked(h, Items(text, ScopeIds(text, upto, t, since)))
  {
    hide TenantRows, ScopeIds, TextOf, Readable, RootMatches;
    var text := TextRowsOf(rows);
    ScopeIsTail(rows, upto, t, since);
    var chain, ids := TenantRows(rows, upto, t), ScopeIds(text, upto, t, since);
    var items := Items(text, ids);
    forall i | 0 <= i < |items|
      ensures Readable(items[i].row) && RootMatches(h, items[i].row)
      ensures i > 0 ==> items[i].row.prev == items[i - 1].row.chained
    {
      var k := |chain| - |ids| + i;
      assert LinkedRow(h, chain, k);
      assert items[i].row == TextOf(chain[k]);
      RowReads(h, chain[k]);
      if i > 0 {
        assert items[i - 1].row == TextOf(chain[k - 1]);
        TextLinks(chain[k - 1], chain[k]);
      }
    }
  }

  // Row ids[i] is hashed from its own predecessor and Merkle root, and continues
  // the row before it.
  ghost predicate SelectedSound(h: Hash, rows: Rows, ids: seq<nat>, i: nat)
    requires i < |ids| && forall id :: id in ids ==> id in rows
  {
    assert ids[i] in ids;
    var row := rows[ids[i]];
    && row.chainedRoot == ChainedRoot(h, row.prevChainedRoot, row.merkleRoot)
    && (i > 0 ==> ids[i - 1] in ids && row.prevChainedRoot == rows[ids[i - 1]].chainedRoot)
  }

  // On stored rows, wherever they come from: the audit of any selection is clean
  // exactly when every root is the hash of its row's own predecessor and Merkle
  // root, and every predecessor is the root of the row before.
  lemma {:induction false} AuditedRowsExact(h: Hash, owner: Bytes, rows: Rows, ids: seq<nat>)
    requires forall id :: id in ids ==> id in rows
    ensures
      Walk(h, owner, Items(TextRowsOf(rows), ids), None).firstFailure.None? <==>
      forall i :: 0 <= i < |ids| ==> SelectedSound(h, rows, ids, i)
  {
    hide Walk, Readable, RootMatches, TextOf, SelectedSound;
    var text := TextRowsOf(rows);
    var items := Items(text, ids);
    WalkExact(h, owner, items, None);
    if Linked(h, items) {
      forall i | 0 <= i < |ids|
        ensures SelectedSound(h, rows, ids, i)
      {
        SelectedIsLinked(h, rows, ids, i);
      }
    }
    if forall i :: 0 <= i < |ids| ==> SelectedSound(h, rows, ids, i) {
      forall i | 0 <= i < |items|
        ensures Readable(items[i].row) && RootMatches(h, items[i].row)
        ensures i > 0 ==> items[i].row.prev == items[i - 1].row.chained
      {
        SelectedIsLinked(h, rows, ids, i);
      }
    }
  }

  lemma {:induction false} SelectedIsLinked(h: Hash, rows: Rows, ids: seq<nat>, i: nat)
    requires i < |ids| && forall id :: id in ids ==> id in rows
    ensures
      var items := Items(TextRowsOf(rows), ids);
      && Readable(items[i].row)
      && (SelectedSound(h, rows, ids, i) <==>
            RootMatches(h, items[i].row) && (i > 0 ==> items[i].row.prev == items[i - 1].row.chained))
  {
    hide Readable, RootMatches, TextOf, ChainedRoot;
    var items := Items(TextRowsOf(rows), ids);
    assert ids[i] in ids && items[i].row == TextOf(rows[ids[i]]);
    TextMatches(h, rows[ids[i]]);
    if i > 0 {
      assert ids[i - 1] in ids && items[i - 1].row == TextOf(rows[ids[i - 1]]);
      TextFollows(rows[ids[i - 1]], rows[ids[i]]);
    }
  }

  lemma {:induction false} TextMatches(h: Hash, row: Row)
    ensures Readable(TextOf(row))
    ensures RootMatches(h, TextOf(row)) <==> row.chainedRoot == ChainedRoot(h, row.prevChainedRoot, row.merkleRoot)
  {
    hide HexEncode, HexDecode, ChainedRoot;
    HexRoundTrip(row.prevChainedRoot);
    HexRoundTrip(row.merkleRoot);
    if HexEncode(ChainedRoot(h, row.prevChainedRoot, row.merkleRoot)) == HexEncode(row.chainedRoot) {
      HexInjective(ChainedRoot(h, row.prevChainedRoot, row.merkleRoot), row.chainedRoot);
    }
  }

  lemma {:induction false} TextFollows(a: Row, b: Row)
    ensures TextOf(b).prev == TextOf(a).chained <==> b.prevChainedRoot == a.chainedRoot
  {
    hide HexEncode;
    if HexEncode(b.prevChainedRoot) == HexEncode(a.chainedRoot) {
      HexInjective(b.prevChainedRoot, a.chainedRoot);
    }
  }

  lemma {:induction false} TextLinks(a: Row, b: Row)
    requires b.prevChainedRoot == a.chainedRoot
    ensures TextOf(b).prev == TextOf(a).chained
  {
  }

  // However the tenants' commands interleave, and from whichever block id the
  // audit starts, every tenant's audit verifies all of its blocks.
  lemma {:induction false} AuditAcceptsAll(h: Hash, commands: seq<Command>, t: Bytes, since: int)
    requires forall c :: c in commands ==> c.tenant != []
    ensures
      var w := RunAll(h, commands);
      var text := TextRowsOf(w.rows);
      && InRows(text, w.counter, t, since)
      && var walked := Walk(h, t, Items(text, ScopeIds(text, w.counter, t, since)), None);
         walked.firstFailure.None? && walked.verified == |ScopeIds(text, w.counter, t, since)|
  {
    hide TenantRows, ScopeIds, Walk, Do, RunAll, Linked, LinkedRows, IsRowChain;
    var w := RunAll(h, commands);
    RunAllOk(h, commands);
    RunNamed(h, commands);
    assert ChainOk(h, w, t);
    RowChainLinked(h, TenantRows(w.rows, w.counter, t));
    TailLinked(h, w.rows, w.counter, t, since);
    var text := TextRowsOf(w.rows);
    WalkExact(h, t, Items(text, ScopeIds(text, w.counter, t, since)), None);
  }

  lemma {:induction false} RunNamed(h: Hash, commands: seq<Command>)
    requires forall c :: c in commands ==> c.tenant != []
    ensures Named(RunAll(h, commands).rows)
  {
    if commands != [] {
      var n := |commands| - 1;
      assert commands[n] in commands;
      RunNamed(h, commands[..n]);
      var w := RunAll(h, commands[..n]);
      var c := commands[n];
      if c.Put? && Number(w, c.tenant) <= U64_MAX {
        NewRowLinks(h, w, c.tenant, c.records, c.time);
      }
    }
  }

  // An owner's report depends only on that owner's blocks: rows of other
  // owners may be added, removed or changed without effect.
  lemma {:induction false} ReportIndependent(h: Hash, a: TextRows, b: TextRows, upto: nat, owner: Bytes, since: int)
    requires forall id: nat :: id <= upto ==> (OwnedBy(a, id, owner, since) <==> OwnedBy(b, id, owner, since))
    requires forall id: nat :: id <= upto && OwnedBy(a, id, owner, since) && OwnedBy(b, id, owner, since) ==> a[id] == b[id]
    ensures InRows(a, upto, owner, since) && InRows(b, upto, owner, since)
    ensures Report(h, owner, Items(a, ScopeIds(a, upto, owner, since)))
            == Report(h, owner, Items(b, ScopeIds(b, upto, owner, since)))
  {
    hide ScopeIds, Report;
    ScopeIdsAscending(a, upto, owner, since);
    ScopeIdsAscending(b, upto, owner, since);
    var ids := ScopeIds(a, upto, owner, since);
    AscendingUnique(ids, ScopeIds(b, upto, owner, since));
    assert forall i :: 0 <= i < |ids| ==> ids[i] in ids;
    assert Items(a, ids) == Items(b, ids);
  }

  lemma {:induction false} RowChainLinked(h: Hash, chain: seq<Row>)
    requires IsRowChain(h, chain)
    ensures LinkedRows(h, chain)
  {
    forall i | 0 <= i < |chain|
      ensures LinkedRow(h, chain, i)
    {
      assert NumberedRow(h, chain, i);
    }
  }

  // After every clean run with crashes and restarts, the tenant's audit from
  // any starting id verifies every block it selects.
  lemma {:induction false} CrashedStoreAudits(c: Config, events: seq<Crash.Event>, since: int)
    requires Crash.CleanRun(c, events)
    requires c.tenant != [] && c.tenant != UNNAMED
    ensures
      var s := Crash.Run(c, events).store;
      var text := TextRowsOf(s.rows);
      && InRows(text, s.counter, c.tenant, since)
      && Walk(c.h, c.tenant, Items(text, ScopeIds(text, s.counter, c.tenant, since)), None).firstFailure.None?
  {
    hide TenantRows, ScopeIds, Walk, Linked, IsRowChain, LinkedRows, Crash.Run;
    var s := Crash.Run(c, events).store;
    Crash.RunSafe(c, events);
    RowChainLinked(c.h, Crash.Chain(c, s));
    TailLinked(c.h, s.rows, s.counter, c.tenant, since);
    var text := TextRowsOf(s.rows);
    WalkExact(c.h, c.tenant, Items(text, ScopeIds(text, s.counter, c.tenant, since)), None);
  }
}
