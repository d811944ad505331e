// Without assumptions on the store's replies: exactly which runs break the
// stored chain, read off the replies alone.

module Forks {
  import opened Bytes
  import opened BlockStore
  import opened Checkpoint
  import opened Text
  import opened Flushing
  import opened CrashSafety

  // ---- what the replies tell ----------------------------------------------------------------------

  // Which block the stored anchor is for.
  datatype Mark = Absent | Newest | Older

  // `ready`: memory holds the number and root that continue the stored chain.
  datatype Status = Status(initialized: bool, stopped: bool, ready: bool, blocks: nat, anchor: Mark)

  const BLANK := Status(false, false, true, 0, Absent)

  function Aged(a: Mark): Mark {
    if a.Newest? then Older else a
  }

  // Starting anew is ready only as long as nothing is stored.
  function Restarted(blocks: nat, anchor: Mark): Status {
    Status(false, false, blocks == 0, blocks, anchor)
  }

  // `legible`: anchors of this tenant can be read back.
  function Initialised(legible: bool, t: Status, e: Env): Status {
    var anchorShown := legible && e.anchorRead && !t.anchor.Absent?;
    var blockShown := e.storedRead && t.blocks > 0;
    if t.initialized || !e.initConnects then t
    else if anchorShown && blockShown && t.anchor.Newest? && t.blocks < U64_LIMIT then t.(initialized := true, ready := true)
    else if anchorShown || blockShown then t.(stopped := true)
    else t.(initialized := true)
  }

  // The anchor reaches the store.
  predicate AnchorMoves(t: Status, e: Env) {
    InsertOk(e) && t.blocks < U64_MAX && !e.setAnchor.FailedBefore?
  }

  function Appended(t: Status, e: Env): Status {
    if !RowWritten(e) then t
    else
      Status(t.initialized, InsertOk(e) && t.blocks == U64_MAX, InsertOk(e), t.blocks + 1,
             if AnchorMoves(t, e) then Newest else Aged(t.anchor))
  }

  function Tracked(legible: bool, t: Status, ev: Event): Status {
    match ev
    case Accumulate(_) => t
    case Foreign(_) => t
    case Flush(e) =>
      var t1 := Initialised(legible, t, e);
      if t.stopped then t else if t1.stopped then t1 else Appended(t1, e)
    case Crash(e, k) =>
      var t1 := Initialised(legible, t, e);
      if t.stopped || t1.stopped || !RowWritten(e) || k < 2 then Restarted(t.blocks, t.anchor)
      else Restarted(t.blocks + 1, if k >= 3 && AnchorMoves(t1, e) then Newest else Aged(t.anchor))
  }

  function Track(legible: bool, events: seq<Event>): Status {
    if events == [] then BLANK
    else Tracked(legible, Track(legible, events[..|events| - 1]), events[|events| - 1])
  }

  predicate WritesRow(ev: Event) {
    match ev
    case Flush(e) => RowWritten(e)
    case Crash(e, k) => RowWritten(e) && k >= 2
    case _ => false
  }

  // The event writes a row although the enclave is not ready: it started blind
  // on a nonempty chain, or an earlier row was reported as failed.
  predicate Forking(legible: bool, t: Status, ev: Event) {
    WritesRow(ev) && !t.stopped &&
    (var t1 := Initialised(legible, t, ev.env); !t1.stopped && !t1.ready)
  }

  predicate NeverForking(legible: bool, events: seq<Event>) {
    forall i :: 0 <= i < |events| ==> !Forking(legible, Track(legible, events[..i]), events[i])
  }

  // When the enclave asks for the keys, it gets all of them and no others.
  ghost predicate HonestListing(s: Sys, ev: Event) {
    (ev.Flush? || ev.Crash?) && Asks(s.memory.initialized, s.memory.stopped, ev.env) ==> KeysOf(ev.env.keys, s.store.rows)
  }

  predicate Asks(initialized: bool, stopped: bool, e: Env) {
    !initialized && !stopped && e.initConnects && e.storedRead
  }

  ghost predicate HonestListings(c: Config, events: seq<Event>) {
    forall i :: 0 <= i < |events| ==> HonestListing(CrashSafety.Run(c, events[..i]), events[i])
  }

  // ---- the status is right as long as nothing has forked --------------------------------------------

  ghost predicate StoreTracked(c: Config, s: Store, blocks: nat, anchor: Mark) {
    var chain := Chain(c, s);
    && IdsWithin(s.rows, s.counter)
    && IsRowChain(c.h, chain) && |chain| == blocks
    && (anchor.Absent? <==> c.tenant !in s.anchors)
    && (anchor.Newest? ==> blocks > 0 && AnchorOf(c, chain, s.anchors[c.tenant], blocks - 1))
    && (anchor.Older? ==> exists k :: 0 <= k < blocks - 1 && AnchorOf(c, chain, s.anchors[c.tenant], k))
  }

  ghost predicate MemoryTracked(c: Config, m: Memory, s: Store, t: Status) {
    && m.initialized == t.initialized && m.stopped == t.stopped
    && (!t.stopped ==> if t.ready then InSync(c, m, s) else m.blockNumber < |Chain(c, s)|)
  }

  ghost predicate RightFor(c: Config, s: Sys, t: Status) {
    StoreTracked(c, s.store, t.blocks, t.anchor) && MemoryTracked(c, s.memory, s.store, t)
  }

  predicate Legible(c: Config) {
    PIPE !in c.tenant
  }

  lemma {:induction false} TrackedStoreOk(c: Config, s: Store, blocks: nat, anchor: Mark)
    requires StoreTracked(c, s, blocks, anchor)
    ensures StoreOk(c, s) && IdsWithin(s.rows, s.counter) && IsRowChain(c.h, Chain(c, s)) && |Chain(c, s)| == blocks
  {
    hide TenantRows, IsRowChain;
    if anchor.Newest? {
      assert AnchorOf(c, Chain(c, s), s.anchors[c.tenant], blocks - 1);
    }
  }

  // What the enclave sees of a tracked store.
  lemma {:induction false} SeenTracked(c: Config, s: Store, e: Env, blocks: nat, anchor: Mark)
    requires StoreTracked(c, s, blocks, anchor)
    requires e.storedRead ==> KeysOf(e.keys, s.rows)
    ensures
      var a, b := AnchorSeen(c, s, e), StoredSeen(c, s, e);
      && (a.Some? <==> Legible(c) && e.anchorRead && !anchor.Absent?)
      && (a.Some? && anchor.Newest? ==> a.value == (blocks - 1, HeadOf(Chain(c, s))))
      && (a.Some? && anchor.Older? ==> a.value.0 < blocks - 1)
      && b == (if e.storedRead && blocks > 0 then Some((blocks - 1, HeadOf(Chain(c, s)))) else None)
  {
    hide TenantRows, IsRowChain, AnchorSeen, StoredSeen, AnchorOf, StoreOk;
    TrackedStoreOk(c, s, blocks, anchor);
    if e.storedRead {
      StoredSeenIs(c, s, e);
    } else {
      UnreadStored(c, s, e);
    }
    if e.anchorRead && anchor.Newest? {
      AnchorSeenIs(c, s, e, blocks - 1);
    } else if e.anchorRead && anchor.Older? {
      var k :| 0 <= k < blocks - 1 && AnchorOf(c, Chain(c, s), s.anchors[c.tenant], k);
      AnchorSeenIs(c, s, e, k);
    } else {
      NoAnchorSeen(c, s, e);
    }
  }

  lemma {:induction false} UnreadStored(c: Config, s: Store, e: Env)
    requires !e.storedRead
    ensures StoredSeen(c, s, e) == None
  {
  }

  lemma {:induction false} InitTracked(c: Config, s: Sys, t: Status, e: Env)
    requires RightFor(c, s, t) && !t.stopped
    requires Asks(t.initialized, t.stopped, e) ==> KeysOf(e.keys, s.store.rows)
    ensures
      var t1 := Initialised(Legible(c), t, e);
      && t1.blocks == t.blocks && t1.anchor == t.anchor
      && MemoryTracked(c, AfterInit(c, s.memory, s.store, e), s.store, t1)
  {
    hide StoreTracked, TenantRows, AnchorSeen, StoredSeen;
    if !t.initialized && e.initConnects {
      SeenTracked(c, s.store, e, t.blocks, t.anchor);
      TrackedStoreOk(c, s.store, t.blocks, t.anchor);
    }
  }

  // ---- what one append leaves in the store ------------------------------------------------------------

  lemma {:induction false} PartialExact(c: Config, m: Memory, s: Store, e: Env, k: nat)
    ensures !RowWritten(e) || k < 2 ==> Partial(c, m, s, e, k) == s || Partial(c, m, s, e, k) == Bumped(s)
    ensures RowWritten(e) && k >= 2 && (k == 2 || AnchorWrites(c, m, e) == []) ==> Partial(c, m, s, e, k) == WithRow(c, m, s, e)
    ensures RowWritten(e) && k >= 3 && AnchorWrites(c, m, e) != [] ==> Partial(c, m, s, e, k) == WithAnchor(c, m, s, e)
  {
    hide NextBlock, CheckpointLine, RowOf, ApplyAll, Apply, WithRow, WithAnchor;
    var ws := AppendWrites(c, m, s, e);
    var row, anchor := RowWrite(c, m, s, e), AnchorWrite(c, m, e);
    AppliedCases(c, m, s, e);
    WritesArePrefix(c, m, s, e);
    var full := [Bump, row, anchor];
    assert full[..0] == [] && full[..1] == [Bump] && full[..2] == [Bump, row] && full[..3] == full;
    var part := if k < |ws| then ws[..k] else ws;
    assert part == full[..|part|];
    assert RowWritten(e) ==> |ws| == 2 + |AnchorWrites(c, m, e)|;
    assert |part| == 0 || |part| == 1 || |part| == 2 || |part| == 3;
  }

  lemma {:induction false} BumpedTracked(c: Config, s: Store, blocks: nat, anchor: Mark)
    requires StoreTracked(c, s, blocks, anchor)
    ensures StoreTracked(c, Bumped(s), blocks, anchor) && Chain(c, Bumped(s)) == Chain(c, s)
  {
    hide IsRowChain, TenantRows, AnchorOf;
    BumpedChain(c, s);
  }

  lemma {:induction false} RowTracked(c: Config, m: Memory, s: Store, e: Env, blocks: nat, anchor: Mark)
    requires StoreTracked(c, s, blocks, anchor) && InSync(c, m, s)
    ensures StoreTracked(c, WithRow(c, m, s, e), blocks + 1, Aged(anchor))
    ensures Chain(c, WithRow(c, m, s, e)) == Chain(c, s) + [RowOf(NextBlock(c, m, e))]
  {
    hide NextBlock, IsRowChain, TenantRows, CheckpointLine;
    TrackedStoreOk(c, s, blocks, anchor);
    WithRowOk(c, m, s, e);
    var chain, longer := Chain(c, s), Chain(c, WithRow(c, m, s, e));
    if !anchor.Absent? {
      var k: nat :| k < blocks && AnchorOf(c, chain, s.anchors[c.tenant], k) && (anchor.Older? ==> k < blocks - 1);
      assert longer[k] == chain[k];
      assert AnchorOf(c, longer, s.anchors[c.tenant], k);
    }
  }

  lemma {:induction false} AnchorTracked(c: Config, m: Memory, s: Store, e: Env, blocks: nat, anchor: Mark)
    requires StoreTracked(c, s, blocks, anchor) && InSync(c, m, s)
    ensures StoreTracked(c, WithAnchor(c, m, s, e), blocks + 1, Newest)
    ensures Chain(c, WithAnchor(c, m, s, e)) == Chain(c, s) + [RowOf(NextBlock(c, m, e))]
  {
    hide NextBlock, IsRowChain, TenantRows, CheckpointLine;
    TrackedStoreOk(c, s, blocks, anchor);
    RowTracked(c, m, s, e, blocks, anchor);
    NextBlockLinks(c, m, e);
    var s' := WithAnchor(c, m, s, e);
    assert AnchorOf(c, Chain(c, s'), s'.anchors[c.tenant], blocks);
  }

  // After k of the writes.
  function BlocksAfter(t: Status, e: Env, k: nat): nat {
    if RowWritten(e) && k >= 2 then t.blocks + 1 else t.blocks
  }

  function MarkAfter(t: Status, e: Env, k: nat): Mark {
    if !RowWritten(e) || k < 2 then t.anchor else if k >= 3 && AnchorMoves(t, e) then Newest else Aged(t.anchor)
  }

  lemma {:induction false} PartialTracked(c: Config, m: Memory, s: Store, e: Env, k: nat, t: Status)
    requires StoreTracked(c, s, t.blocks, t.anchor)
    requires RowWritten(e) && k >= 2 ==> InSync(c, m, s)
    ensures StoreTracked(c, Partial(c, m, s, e, k), BlocksAfter(t, e, k), MarkAfter(t, e, k))
    ensures Chain(c, Partial(c, m, s, e, k)) ==
            Chain(c, s) + (if RowWritten(e) && k >= 2 then [RowOf(NextBlock(c, m, e))] else [])
  {
    hide StoreTracked, NextBlock, TenantRows, CheckpointLine, Partial, Aged, WithRow, WithAnchor, RowWritten;
    PartialExact(c, m, s, e, k);
    assert Chain(c, s) + [] == Chain(c, s);
    TrackedStoreOk(c, s, t.blocks, t.anchor);
    if RowWritten(e) && k >= 2 {
      assert m.blockNumber == t.blocks;
      RowTracked(c, m, s, e, t.blocks, t.anchor);
      AnchorTracked(c, m, s, e, t.blocks, t.anchor);
    } else {
      BumpedTracked(c, s, t.blocks, t.anchor);
    }
  }

  // ---- events --------------------------------------------------------------------------------------

  lemma {:induction false} AppendTracked(c: Config, m: Memory, s: Store, e: Env, t: Status)
    requires StoreTracked(c, s, t.blocks, t.anchor) && MemoryTracked(c, m, s, t) && !t.stopped
    requires RowWritten(e) ==> t.ready
    ensures RightFor(c, Sys(AppendMemory(c, m, e), ApplyAll(s, AppendWrites(c, m, s, e))), Appended(t, e))
  {
    hide StoreTracked, NextBlock, TenantRows, Aged, AppendWrites, ApplyAll, RowWritten, InsertOk, Partial;
    WritesAtMostThree(c, m, s, e);
    PartialTracked(c, m, s, e, 3, t);
    NextBlockLinks(c, m, e);
    InsertNeedsRow(e);
    TrackedStoreOk(c, s, t.blocks, t.anchor);
  }

  lemma {:induction false} FlushTracked(c: Config, s: Sys, t: Status, e: Env)
    requires RightFor(c, s, t) && HonestListing(s, Flush(e)) && !Forking(Legible(c), t, Flush(e))
    ensures RightFor(c, Next(c, s, Flush(e)), Tracked(Legible(c), t, Flush(e)))
  {
    hide StoreTracked, AfterInit, Initialised, AppendWrites, AppendMemory, Appended, TenantRows, RowWritten, InSync;
    if !t.stopped {
      InitTracked(c, s, t, e);
      var m1, t1 := AfterInit(c, s.memory, s.store, e), Initialised(Legible(c), t, e);
      if !t1.stopped {
        AppendTracked(c, m1, s.store, e, t1);
      }
    }
  }

  lemma {:induction false} CrashTracked(c: Config, s: Sys, t: Status, e: Env, k: nat)
    requires RightFor(c, s, t) && HonestListing(s, Crash(e, k)) && !Forking(Legible(c), t, Crash(e, k))
    ensures RightFor(c, Next(c, s, Crash(e, k)), Tracked(Legible(c), t, Crash(e, k)))
  {
    hide AfterInit, Initialised, AppendWrites, TenantRows, RowWritten, StoreTracked, Aged;
    var m1, t1 := AfterInit(c, s.memory, s.store, e), Initialised(Legible(c), t, e);
    var s' := Next(c, s, Crash(e, k)).store;
    if !t.stopped {
      InitTracked(c, s, t, e);
    }
    if t.stopped || t1.stopped {
      assert s' == s.store;
      ColdTracked(c, s', t.blocks, t.anchor);
    } else {
      assert s' == Partial(c, m1, s.store, e, k);
      PartialTracked(c, m1, s.store, e, k, t1);
      ColdTracked(c, s', BlocksAfter(t1, e, k), MarkAfter(t1, e, k));
    }
  }

  lemma {:induction false} ColdTracked(c: Config, s: Store, blocks: nat, anchor: Mark)
    requires StoreTracked(c, s, blocks, anchor)
    ensures RightFor(c, Sys(COLD_START, s), Restarted(blocks, anchor))
  {
    hide IsRowChain, TenantRows, AnchorOf;
  }

  lemma {:induction false} ForeignTracked(c: Config, s: Sys, t: Status, row: Row)
    requires RightFor(c, s, t)
    ensures RightFor(c, Next(c, s, Foreign(row)), t)
  {
    hide IsRowChain, TenantRows, Next, AnchorOf;
    ForeignKeepsChain(c, s, row);
  }

  lemma {:induction false} EventTracked(c: Config, s: Sys, t: Status, ev: Event)
    requires RightFor(c, s, t) && HonestListing(s, ev) && !Forking(Legible(c), t, ev)
    ensures RightFor(c, Next(c, s, ev), Tracked(Legible(c), t, ev))
  {
    hide StoreTracked, TenantRows, HonestListing, Forking, FlushWrites, FlushMemory, Initialised, Appended;
    match ev {
      case Accumulate(_) =>
      case Flush(e) => FlushTracked(c, s, t, e);
      case Crash(e, k) => CrashTracked(c, s, t, e, k);
      case Foreign(row) => ForeignTracked(c, s, t, row);
    }
  }

  // ---- a fork is for good --------------------------------------------------------------------------

  // A forking event puts a row with a used number at the end of the chain.
  lemma {:induction false} ForkBreaks(c: Config, s: Sys, t: Status, ev: Event)
    requires RightFor(c, s, t) && HonestListing(s, ev) && Forking(Legible(c), t, ev)
    ensures !IsRowChain(c.h, Chain(c, Next(c, s, ev).store))
  {
    hide AfterInit, Initialised, AppendWrites, TenantRows, RowWritten, StoreTracked, IsRowChain, Partial;
    var e := ev.env;
    InitTracked(c, s, t, e);
    TrackedStoreOk(c, s.store, t.blocks, t.anchor);
    var m1 := AfterInit(c, s.memory, s.store, e);
    var k := Reach(ev);
    WritesAtMostThree(c, m1, s.store, e);
    assert Next(c, s, ev).store == Partial(c, m1, s.store, e, k) by { NextIsPartial(c, s, ev); }
    PartialExact(c, m1, s.store, e, k);
    WithRowChain(c, m1, s.store, e);
    WithAnchorChain(c, m1, s.store, e);
    NextBlockLinks(c, m1, e);
    AppendRow(c.h, Chain(c, s.store), RowOf(NextBlock(c, m1, e)));
  }

  // How many of an append's writes the event lets through.
  function Reach(ev: Event): nat {
    match ev
    case Crash(_, k) => k
    case _ => 3
  }

  lemma {:induction false} NextIsPartial(c: Config, s: Sys, ev: Event)
    requires (ev.Flush? || ev.Crash?) && !s.memory.stopped && !AfterInit(c, s.memory, s.store, ev.env).stopped
    ensures Next(c, s, ev).store ==
      Partial(c, AfterInit(c, s.memory, s.store, ev.env), s.store, ev.env, Reach(ev))
  {
    hide AppendWrites, AfterInit, ApplyAll;
    WritesAtMostThree(c, AfterInit(c, s.memory, s.store, ev.env), s.store, ev.env);
  }

  lemma {:induction false} WithAnchorChain(c: Config, m: Memory, s: Store, e: Env)
    ensures Chain(c, WithAnchor(c, m, s, e)) == Chain(c, WithRow(c, m, s, e))
    ensures IdsWithin(WithRow(c, m, s, e).rows, WithRow(c, m, s, e).counter) ==>
      IdsWithin(WithAnchor(c, m, s, e).rows, WithAnchor(c, m, s, e).counter)
  {
    hide NextBlock, CheckpointLine, TenantRows;
  }

  // No event removes or changes a stored block of the tenant.
  lemma {:induction false} ChainOnlyGrows(c: Config, s: Sys, ev: Event)
    requires IdsWithin(s.store.rows, s.store.counter)
    ensures IdsWithin(Next(c, s, ev).store.rows, Next(c, s, ev).store.counter)
    ensures Chain(c, s.store) <= Chain(c, Next(c, s, ev).store)
  {
    hide AfterInit, AppendWrites, TenantRows, RowWritten, Partial, NextBlock;
    match ev {
      case Accumulate(_) =>
      case Foreign(row) => ForeignKeepsChain(c, s, row);
      case _ =>
        var m1 := AfterInit(c, s.memory, s.store, ev.env);
        if !s.memory.stopped && !m1.stopped {
          NextIsPartial(c, s, ev);
          PartialCases(c, m1, s.store, ev.env, Reach(ev));
          BumpedChain(c, s.store);
          WithRowChain(c, m1, s.store, ev.env);
          WithAnchorChain(c, m1, s.store, ev.env);
        }
    }
  }

  lemma {:induction false} BrokenStays(h: Hash, chain: seq<Row>, longer: seq<Row>)
    requires chain <= longer && IsRowChain(h, longer)
    ensures IsRowChain(h, chain)
  {
    hide NumberedRow;
    forall i | 0 <= i < |chain|
      ensures NumberedRow(h, chain, i)
    {
      NumberedIn(h, chain, longer, i);
    }
  }

  // ---- whole runs --------------------------------------------------------------------------------------

  // For every run from the empty store, whatever fails and wherever it crashes,
  // as long as key listings are honest: the stored blocks are numbered and
  // linked if and only if no event writes a row while the enclave is not ready.
  lemma {:induction false} RunExact(c: Config, events: seq<Event>)
    requires HonestListings(c, events)
    ensures IsRowChain(c.h, Chain(c, CrashSafety.Run(c, events).store)) <==> NeverForking(Legible(c), events)
    ensures NeverForking(Legible(c), events) ==> RightFor(c, CrashSafety.Run(c, events), Track(Legible(c), events))
    ensures IdsWithin(CrashSafety.Run(c, events).store.rows, CrashSafety.Run(c, events).store.counter)
  {
    hide IsRowChain, TenantRows, RightFor, Tracked, Next, Forking, HonestListing;
    if events == [] {
      EmptyTracked(c);
    } else {
      var n := |events| - 1;
      var init, ev := events[..n], events[n];
      HonestInit(c, events);
      RunExact(c, init);
      NeverForkingInit(Legible(c), events);
      var s, t := CrashSafety.Run(c, init), Track(Legible(c), init);
      ChainOnlyGrows(c, s, ev);
      if NeverForking(Legible(c), init) {
        if Forking(Legible(c), t, ev) {
          ForkBreaks(c, s, t, ev);
        } else {
          EventTracked(c, s, t, ev);
          RightIsChain(c, Next(c, s, ev), Tracked(Legible(c), t, ev));
        }
      } else if IsRowChain(c.h, Chain(c, Next(c, s, ev).store)) {
        BrokenStays(c.h, Chain(c, s.store), Chain(c, Next(c, s, ev).store));
      }
    }
  }

  lemma {:induction false} EmptyTracked(c: Config)
    ensures RightFor(c, EMPTY_SYSTEM, BLANK) && IsRowChain(c.h, Chain(c, EMPTY_SYSTEM.store))
  {
  }

  lemma {:induction false} RightIsChain(c: Config, s: Sys, t: Status)
    requires RightFor(c, s, t)
    ensures IsRowChain(c.h, Chain(c, s.store))
  {
  }

  lemma {:induction false} HonestInit(c: Config, events: seq<Event>)
    requires events != [] && HonestListings(c, events)
    ensures HonestListings(c, events[..|events| - 1])
    ensures HonestListing(CrashSafety.Run(c, events[..|events| - 1]), events[|events| - 1])
  {
    hide HonestListing, CrashSafety.Run;
    var init := events[..|events| - 1];
    forall i | 0 <= i < |init|
      ensures HonestListing(CrashSafety.Run(c, init[..i]), init[i])
    {
      assert init[..i] == events[..i] && init[i] == events[i];
    }
  }

  lemma {:induction false} NeverForkingInit(legible: bool, events: seq<Event>)
    requires events != []
    ensures
      var n := |events| - 1;
      NeverForking(legible, events) <==>
      NeverForking(legible, events[..n]) && !Forking(legible, Track(legible, events[..n]), events[n])
  {
    hide Forking, Track;
    var n := |events| - 1;
    var init := events[..n];
    assert forall i :: 0 <= i < n ==> init[..i] == events[..i];
    if NeverForking(legible, init) && !Forking(legible, Track(legible, init), events[n]) {
      forall i | 0 <= i < |events|
        ensures !Forking(legible, Track(legible, events[..i]), events[i])
      {
        if i < n {
          assert !Forking(legible, Track(legible, init[..i]), init[i]);
        }
      }
    }
    if NeverForking(legible, events) {
      forall i | 0 <= i < n
        ensures !Forking(legible, Track(legible, init[..i]), init[i])
      {
        assert !Forking(legible, Track(legible, events[..i]), events[i]);
      }
    }
  }

  // ---- runs that break the chain ---------------------------------------------------------------------

  const SMOOTH := Env(true, true, true, [], true, Done, Done, Done, Done, Done, [])
  const OFFLINE := SMOOTH.(connects := false)
  const NO_INIT := SMOOTH.(initConnects := false)
  const BLINDFOLDED := OFFLINE.(anchorRead := false, storedRead := false)
  const LATE_ERROR := SMOOTH.(pushRecords := FailedBefore)

  // One more event after an honest run that has not forked.
  lemma {:induction false} OneMore(c: Config, events: seq<Event>, ev: Event)
    requires HonestListings(c, events) && NeverForking(Legible(c), events)
    requires
      var t := Track(Legible(c), events);
      (ev.Flush? || ev.Crash?) && (Asks(t.initialized, t.stopped, ev.env) ==> events == [] && ev.env.keys == [])
    ensures HonestListings(c, events + [ev])
    ensures Track(Legible(c), events + [ev]) == Tracked(Legible(c), Track(Legible(c), events), ev)
    ensures NeverForking(Legible(c), events + [ev]) <==> !Forking(Legible(c), Track(Legible(c), events), ev)
  {
    hide StoreTracked, Tracked, Forking, Next, HonestListing;
    var more := events + [ev];
    assert more[..|events|] == events;
    RunExact(c, events);
    NeverForkingInit(Legible(c), more);
    forall i | 0 <= i < |more|
      ensures HonestListing(CrashSafety.Run(c, more[..i]), more[i])
    {
      if i < |events| {
        assert more[..i] == events[..i];
        assert HonestListing(CrashSafety.Run(c, events[..i]), events[i]);
      } else {
        LastHonest(c, events, ev);
      }
    }
  }

  lemma {:induction false} LastHonest(c: Config, events: seq<Event>, ev: Event)
    requires RightFor(c, CrashSafety.Run(c, events), Track(Legible(c), events))
    requires
      var t := Track(Legible(c), events);
      (ev.Flush? || ev.Crash?) && (Asks(t.initialized, t.stopped, ev.env) ==> events == [] && ev.env.keys == [])
    ensures HonestListing(CrashSafety.Run(c, events), ev)
  {
    hide StoreTracked, Track;
  }

  // Restart over one block, then a first connection that fails.
  const BLIND_START := [Flush(SMOOTH), Crash(OFFLINE, 0), Flush(NO_INIT)]
  // Restart over one block; a flush that reads nothing and writes nothing; a smooth one.
  const DELAYED_BLIND_START := [Flush(SMOOTH), Crash(OFFLINE, 0), Flush(BLINDFOLDED), Flush(SMOOTH)]
  // An insert that fails after its row is in place, then a smooth flush.
  const LOST_INSERT := [Flush(LATE_ERROR), Flush(SMOOTH)]
  // The same with an outage in between.
  const DELAYED_LOST_INSERT := [Flush(LATE_ERROR), Flush(OFFLINE), Flush(SMOOTH)]

  lemma {:induction false} BlindStartForks(c: Config)
    ensures !IsRowChain(c.h, Chain(c, CrashSafety.Run(c, BLIND_START).store))
    ensures !IsRowChain(c.h, Chain(c, CrashSafety.Run(c, DELAYED_BLIND_START).store))
  {
    hide IsRowChain, CrashSafety.Run, HonestListing, Track, NeverForking;
    var two := [Flush(SMOOTH), Crash(OFFLINE, 0)];
    assert [] + [Flush(SMOOTH)] == [Flush(SMOOTH)];
    StartTracked(c);
    OneMore(c, [], Flush(SMOOTH));
    OneMore(c, [Flush(SMOOTH)], Crash(OFFLINE, 0));
    assert [Flush(SMOOTH)] + [Crash(OFFLINE, 0)] == two;
    OneMore(c, two, Flush(NO_INIT));
    assert two + [Flush(NO_INIT)] == BLIND_START;
    RunExact(c, BLIND_START);
    OneMore(c, two, Flush(BLINDFOLDED));
    assert (two + [Flush(BLINDFOLDED)]) + [Flush(SMOOTH)] == DELAYED_BLIND_START;
    OneMore(c, two + [Flush(BLINDFOLDED)], Flush(SMOOTH));
    RunExact(c, DELAYED_BLIND_START);
  }

  lemma {:induction false} LostInsertForks(c: Config)
    ensures !IsRowChain(c.h, Chain(c, CrashSafety.Run(c, LOST_INSERT).store))
    ensures !IsRowChain(c.h, Chain(c, CrashSafety.Run(c, DELAYED_LOST_INSERT).store))
  {
    hide IsRowChain, CrashSafety.Run, HonestListing, Track, NeverForking;
    var one := [Flush(LATE_ERROR)];
    StartTracked(c);
    OneMore(c, [], Flush(LATE_ERROR));
    assert [] + one == one;
    OneMore(c, one, Flush(SMOOTH));
    assert one + [Flush(SMOOTH)] == LOST_INSERT;
    RunExact(c, LOST_INSERT);
    OneMore(c, one, Flush(OFFLINE));
    assert (one + [Flush(OFFLINE)]) + [Flush(SMOOTH)] == DELAYED_LOST_INSERT;
    OneMore(c, one + [Flush(OFFLINE)], Flush(SMOOTH));
    RunExact(c, DELAYED_LOST_INSERT);
  }

  lemma {:induction false} StartTracked(c: Config)
    ensures HonestListings(c, []) && NeverForking(Legible(c), []) && Track(Legible(c), []) == BLANK
  {
  }
}
