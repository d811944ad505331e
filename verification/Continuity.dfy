// Continuity against an arbitrary store: whatever the store answers, every block
// the enclave creates starts a chain or extends a block whose head it signed.

module Continuity {
  import opened Bytes
  import opened Records
  import opened Blocks
  import opened BlockStore
  import opened Checkpoint
  import opened Flushing

  // A block, and whether its head came to be signed.
  datatype Creation = Creation(block: Block, signed: bool)

  // `created` lists every block ever built, in order.
  datatype History = History(memory: Memory, created: seq<Creation>)

  const BEGINNING := History(COLD_START, [])

  // One flush against a store that may lie: it chooses whether the connection
  // succeeds, which anchor line and newest block it shows, and what it replies.
  datatype Event =
    | Accumulate(records: seq<EnergyRecord>)
    | Restart
    | Flush(initConnects: bool, line: Option<Bytes>, stored: Option<Head>, insertOk: bool, time: Bytes)

  ghost function Shown(c: Config, line: Option<Bytes>): Option<Head> {
    if line.Some? then VerifiedAnchor(c.mac, c.master, c.tenant, line.value) else None
  }

  ghost function Next(c: Config, s: History, ev: Event): History {
    match ev
    case Accumulate(rs) => s.(memory := s.memory.(records := s.memory.records + rs))
    case Restart => s.(memory := COLD_START)
    case Flush(connects, line, stored, ok, time) =>
      var m := s.memory;
      if m.stopped then s
      else
        var m1 := if m.initialized || !connects then m else Decided(m, Shown(c, line), stored);
        if m1.stopped then s.(memory := m1)
        else
          var b := MakeBlock(c.h, m1.blockNumber, c.tenant, m1.root, m1.records, time);
          var m2 := m1.(records := [], iterations := 0);
          if ok && m1.blockNumber == U64_MAX then History(m2.(stopped := true), s.created + [Creation(b, false)])
          else if ok then
            History(m2.(blockNumber := m1.blockNumber + 1, root := b.chainedRoot), s.created + [Creation(b, true)])
          else History(m2, s.created + [Creation(b, false)])
  }

  ghost function Run(c: Config, events: seq<Event>): History {
    if events == [] then BEGINNING
    else Next(c, Run(c, events[..|events| - 1]), events[|events| - 1])
  }

  // The store shows a line that verifies although this enclave never signed
  // that head: the MAC has been forged.
  ghost predicate Forges(c: Config, s: History, ev: Event) {
    ev.Flush? && Shown(c, ev.line).Some? && !SignedHead(s.created, Shown(c, ev.line).value)
  }

  ghost predicate SignedHead(created: seq<Creation>, x: Head) {
    exists j :: 0 <= j < |created| && IsSigned(created, j, x)
  }

  predicate IsSigned(created: seq<Creation>, j: nat, x: Head)
    requires j < |created|
  {
    created[j].signed && created[j].block.blockNumber == x.0 && created[j].block.chainedRoot == x.1
  }

  // (number, prev) starts a chain or continues a signed head.
  ghost predicate Continues(created: seq<Creation>, number: U64, prev: Digest) {
    || (number == 0 && prev == ZERO_DIGEST)
    || (number > 0 && SignedHead(created, (number - 1, prev)))
  }

  ghost predicate Continuous(created: seq<Creation>) {
    forall i :: 0 <= i < |created| ==>
      Continues(created[..i], created[i].block.blockNumber, created[i].block.prevChainedRoot)
  }

  ghost predicate Inv(s: History) {
    Continuous(s.created) && Continues(s.created, s.memory.blockNumber, s.memory.root)
  }

  lemma {:induction false} SignedMonotone(created: seq<Creation>, b: Creation, x: Head)
    requires SignedHead(created, x)
    ensures SignedHead(created + [b], x)
  {
    var j :| 0 <= j < |created| && IsSigned(created, j, x);
    assert IsSigned(created + [b], j, x);
  }

  lemma {:induction false} NewHead(created: seq<Creation>, b: Creation)
    requires b.signed
    ensures SignedHead(created + [b], (b.block.blockNumber, b.block.chainedRoot))
  {
    assert IsSigned(created + [b], |created|, (b.block.blockNumber, b.block.chainedRoot));
  }

  lemma {:induction false} GrowsContinuous(created: seq<Creation>, b: Creation)
    requires Continuous(created) && Continues(created, b.block.blockNumber, b.block.prevChainedRoot)
    ensures Continuous(created + [b])
  {
    hide Continues;
    var more := created + [b];
    forall i | 0 <= i < |more|
      ensures Continues(more[..i], more[i].block.blockNumber, more[i].block.prevChainedRoot)
    {
      assert more[..i] == created[..i];
      if i == |created| {
        assert created[..i] == created;
      }
    }
  }

  // Creating a block that continues: memory keeps its place, or moves on with a
  // signed head.
  lemma {:induction false} Grows(s: History, b: Creation, m: Memory)
    requires Inv(s) && Continues(s.created, b.block.blockNumber, b.block.prevChainedRoot)
    ensures m.blockNumber == b.block.blockNumber && m.root == b.block.prevChainedRoot ==>
      Inv(History(m, s.created + [b]))
    ensures b.signed && m.blockNumber == b.block.blockNumber + 1 && m.root == b.block.chainedRoot ==>
      Inv(History(m, s.created + [b]))
  {
    hide SignedHead, Continuous;
    GrowsContinuous(s.created, b);
    if b.block.blockNumber > 0 && SignedHead(s.created, (b.block.blockNumber - 1, b.block.prevChainedRoot)) {
      SignedMonotone(s.created, b, (b.block.blockNumber - 1, b.block.prevChainedRoot));
    }
    if b.signed {
      NewHead(s.created, b);
    }
  }

  // A resume that is not forged continues a signed head.
  lemma {:induction false} DecidedContinues(c: Config, s: History, line: Option<Bytes>, stored: Option<Head>)
    requires Inv(s)
    requires Shown(c, line).Some? ==> SignedHead(s.created, Shown(c, line).value)
    ensures var m1 := Decided(s.memory, Shown(c, line), stored); Continues(s.created, m1.blockNumber, m1.root)
  {
    hide Shown, Continuous, SignedHead;
  }

  lemma {:induction false} NextKeeps(c: Config, s: History, ev: Event)
    requires Inv(s) && !Forges(c, s, ev)
    ensures Inv(Next(c, s, ev))
  {
    hide BatchRoot, Shown, Continues, Continuous, SignedHead;
    match ev {
      case Accumulate(_) =>
      case Restart =>
        ColdContinues(s.created);
      case Flush(connects, line, stored, ok, time) =>
        var m := s.memory;
        if !m.stopped {
          DecidedContinues(c, s, line, stored);
          var m1 := if m.initialized || !connects then m else Decided(m, Shown(c, line), stored);
          if !m1.stopped {
            var b := MakeBlock(c.h, m1.blockNumber, c.tenant, m1.root, m1.records, time);
            Grows(s, Creation(b, ok && m1.blockNumber < U64_MAX), Next(c, s, ev).memory);
          }
        }
    }
  }

  lemma {:induction false} ColdContinues(created: seq<Creation>)
    ensures Continues(created, COLD_START.blockNumber, COLD_START.root)
  {
  }

  // Over every run against an arbitrary store: every created block starts a
  // chain at number 0 or carries the next number and the root of a block that
  // this enclave created before, was told is stored, and signed as head; or the
  // store forged an anchor MAC.
  lemma {:induction false} RunContinuous(c: Config, events: seq<Event>)
    ensures
      || Continuous(Run(c, events).created)
      || exists i :: 0 <= i < |events| && Forges(c, Run(c, events[..i]), events[i])
  {
    if !exists i :: 0 <= i < |events| && Forges(c, Run(c, events[..i]), events[i]) {
      RunInv(c, events);
    }
  }

  lemma {:induction false} RunInv(c: Config, events: seq<Event>)
    requires forall i :: 0 <= i < |events| ==> !Forges(c, Run(c, events[..i]), events[i])
    ensures Inv(Run(c, events))
  {
    hide Next, Forges;
    if events != [] {
      var n := |events| - 1;
      var init := events[..n];
      forall i | 0 <= i < |init|
        ensures !Forges(c, Run(c, init[..i]), init[i])
      {
        assert init[..i] == events[..i];
      }
      RunInv(c, init);
      NextKeeps(c, Run(c, init), events[n]);
    }
  }

  // ---- this is the flush of the enclave -----------------------------------------------------------

  // What a flush looks like from the enclave when the store is honest.
  function FlushOf(c: Config, s: Store, e: Env): Event {
    Flush(e.initConnects, if e.anchorRead && c.tenant in s.anchors then Some(s.anchors[c.tenant]) else None,
          StoredSeen(c, s, e), InsertOk(e), e.time)
  }

  // A write of a flush carries the block just created, or the anchor of a head
  // that has been signed.
  ghost predicate Recorded(c: Config, s: History, w: Write) {
    match w
    case Bump => true
    case PutRow(_, row) => s.created != [] && row == RowOf(s.created[|s.created| - 1].block)
    case PutAnchor(t, line) =>
      t == c.tenant && exists x :: SignedHead(s.created, x) && line == CheckpointLine(c.mac, c.master, c.tenant, x.0, x.1)
  }

  // The history machine takes the same memory to the same memory as the flush
  // does, and records every block and every head that the flush writes.
  lemma {:induction false} FlushIsNext(c: Config, s: History, store: Store, e: Env)
    ensures
      var s' := Next(c, s, FlushOf(c, store, e));
      && s'.memory == FlushMemory(c, s.memory, store, e)
      && forall w :: w in FlushWrites(c, s.memory, store, e) ==> Recorded(c, s', w)
  {
    hide MakeBlock, VerifiedAnchor, CheckpointLine, RowOf, Decided, StoredSeen;
    var s' := Next(c, s, FlushOf(c, store, e));
    var m1 := AfterInit(c, s.memory, store, e);
    if !s.memory.stopped && !m1.stopped {
      var b := NextBlock(c, m1, e);
      assert s'.created[|s'.created| - 1].block == b;
      if InsertOk(e) && m1.blockNumber < U64_MAX {
        NewHead(s.created, Creation(b, true));
        assert SignedHead(s'.created, (b.blockNumber, b.chainedRoot));
        HeadOfNext(c, m1, e);
      }
    }
  }

  lemma {:induction false} HeadOfNext(c: Config, m: Memory, e: Env)
    ensures NextBlock(c, m, e).blockNumber == m.blockNumber
  {
  }
}
