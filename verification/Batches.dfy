// Where the accumulated records of a run end up.

module Batches {
  import opened Bytes
  import opened Records
  import opened Blocks
  import opened BlockStore
  import opened Flushing
  import opened CrashSafety
  import opened Forks

  // The records an event takes out of memory, and whether they are under a
  // stored row afterwards.  Those of an append that writes no row, and those in
  // memory at a crash, are lost.
  datatype Batch = Batch(records: seq<EnergyRecord>, stored: bool)

  ghost function Taken(c: Config, s: Sys, ev: Event): seq<Batch> {
    match ev
    case Accumulate(_) => []
    case Foreign(_) => []
    case Flush(e) => if Appends(c, s, e) then [Batch(s.memory.records, RowWritten(e))] else []
    case Crash(e, k) => [Batch(s.memory.records, Appends(c, s, e) && RowWritten(e) && k >= 2)]
  }

  // The flush gets as far as building its block.
  ghost predicate Appends(c: Config, s: Sys, e: Env) {
    !s.memory.stopped && !AfterInit(c, s.memory, s.store, e).stopped
  }

  ghost function AllTaken(c: Config, events: seq<Event>): seq<Batch> {
    if events == [] then []
    else
      var init := events[..|events| - 1];
      AllTaken(c, init) + Taken(c, CrashSafety.Run(c, init), events[|events| - 1])
  }

  // Everything that was ever accumulated, in order.
  function Accumulated(events: seq<Event>): seq<EnergyRecord> {
    if events == [] then []
    else
      var ev := events[|events| - 1];
      Accumulated(events[..|events| - 1]) + (if ev.Accumulate? then ev.records else [])
  }

  function RecordsOf(batches: seq<Batch>): seq<EnergyRecord> {
    if batches == [] then [] else RecordsOf(batches[..|batches| - 1]) + batches[|batches| - 1].records
  }

  function Stored(batches: seq<Batch>): seq<seq<EnergyRecord>> {
    if batches == [] then []
    else
      var b := batches[|batches| - 1];
      Stored(batches[..|batches| - 1]) + (if b.stored then [b.records] else [])
  }

  predicate Commits(h: Hash, row: Row, records: seq<EnergyRecord>) {
    row.merkleRoot == BatchRoot(h, records) && row.recordCount == |records| % U32_LIMIT
  }

  // The stored rows commit to the stored batches, one to one and in order.
  ghost predicate RowsCommit(h: Hash, chain: seq<Row>, stored: seq<seq<EnergyRecord>>) {
    |chain| == |stored| && forall i :: 0 <= i < |chain| ==> Commits(h, chain[i], stored[i])
  }

  // ---- one event ----------------------------------------------------------------------------------

  ghost function NewRows(c: Config, s: Sys, ev: Event): seq<Row> {
    if (ev.Flush? || ev.Crash?) && Appends(c, s, ev.env) && RowWritten(ev.env) && Reach(ev) >= 2
    then [RowOf(NextBlock(c, AfterInit(c, s.memory, s.store, ev.env), ev.env))]
    else []
  }

  lemma {:induction false} EventRows(c: Config, s: Sys, ev: Event)
    requires IdsWithin(s.store.rows, s.store.counter)
    ensures Chain(c, Next(c, s, ev).store) == Chain(c, s.store) + NewRows(c, s, ev)
    ensures IdsWithin(Next(c, s, ev).store.rows, Next(c, s, ev).store.counter)
  {
    hide AfterInit, AppendWrites, TenantRows, RowWritten, Partial, NextBlock;
    ChainOnlyGrows(c, s, ev);
    assert Chain(c, s.store) + [] == Chain(c, s.store);
    match ev {
      case Accumulate(_) =>
      case Foreign(row) => ForeignKeepsChain(c, s, row);
      case _ =>
        if Appends(c, s, ev.env) {
          var m1 := AfterInit(c, s.memory, s.store, ev.env);
          NextIsPartial(c, s, ev);
          PartialExact(c, m1, s.store, ev.env, Reach(ev));
          BumpedChain(c, s.store);
          WithRowChain(c, m1, s.store, ev.env);
          WithAnchorChain(c, m1, s.store, ev.env);
        }
    }
  }

  lemma {:induction false} EventRecords(c: Config, s: Sys, ev: Event)
    ensures RecordsOf(Taken(c, s, ev)) + Next(c, s, ev).memory.records ==
            s.memory.records + (if ev.Accumulate? then ev.records else [])
    ensures |NewRows(c, s, ev)| == |Stored(Taken(c, s, ev))|
    ensures NewRows(c, s, ev) != [] ==> Commits(c.h, NewRows(c, s, ev)[0], Stored(Taken(c, s, ev))[0])
  {
    hide BatchRoot, AnchorSeen, StoredSeen, AppendWrites;
    var taken := Taken(c, s, ev);
    if taken != [] {
      assert taken[..0] == [] && [] + taken[0].records == taken[0].records;
    }
    assert s.memory.records + [] == s.memory.records;
  }

  // How often records were gathered since a flush or a crash last emptied the memory.
  ghost function Rounds(c: Config, events: seq<Event>): nat {
    if events == [] then 0
    else
      var init, ev := events[..|events| - 1], events[|events| - 1];
      if Taken(c, CrashSafety.Run(c, init), ev) != [] then 0
      else Rounds(c, init) + (if ev.Accumulate? then 1 else 0)
  }

  lemma {:induction false} IterationsExact(c: Config, events: seq<Event>)
    ensures CrashSafety.Run(c, events).memory.iterations == Rounds(c, events)
  {
    hide AnchorSeen, StoredSeen, FlushWrites, ApplyAll;
    if events != [] {
      IterationsExact(c, events[..|events| - 1]);
    }
  }

  // ---- whole runs -----------------------------------------------------------------------------------

  lemma {:induction false} RecordsConcat(a: seq<Batch>, b: seq<Batch>)
    ensures RecordsOf(a + b) == RecordsOf(a) + RecordsOf(b)
    decreases |b|
  {
    if b == [] {
      assert a + b == a && RecordsOf(a) + [] == RecordsOf(a);
    } else {
      var n := |b| - 1;
      RecordsConcat(a, b[..n]);
      assert (a + b)[..|a + b| - 1] == a + b[..n];
      assert RecordsOf(a) + (RecordsOf(b[..n]) + b[n].records) == (RecordsOf(a) + RecordsOf(b[..n])) + b[n].records;
    }
  }

  lemma {:induction false} StoredConcat(a: seq<Batch>, b: seq<Batch>)
    ensures Stored(a + b) == Stored(a) + Stored(b)
    decreases |b|
  {
    if b == [] {
      assert a + b == a && Stored(a) + [] == Stored(a);
    } else {
      var n := |b| - 1;
      StoredConcat(a, b[..n]);
      assert (a + b)[..|a + b| - 1] == a + b[..n];
      var last := if b[n].stored then [b[n].records] else [];
      assert Stored(a) + (Stored(b[..n]) + last) == (Stored(a) + Stored(b[..n])) + last;
    }
  }

  lemma {:induction false} RowsCommitMore(h: Hash, chain: seq<Row>, stored: seq<seq<EnergyRecord>>,
                                          rows: seq<Row>, more: seq<seq<EnergyRecord>>)
    requires RowsCommit(h, chain, stored) && |rows| == |more| <= 1
    requires rows != [] ==> Commits(h, rows[0], more[0])
    ensures RowsCommit(h, chain + rows, stored + more)
  {
    hide Commits;
  }

  // In every run, whatever fails and wherever it crashes: the batches taken out
  // of memory, in order, and the records still in memory are exactly what was
  // accumulated; and the stored rows commit, one to one and in order, to the
  // batches that are marked stored.
  lemma {:induction false} RecordsAccounted(c: Config, events: seq<Event>)
    ensures RecordsOf(AllTaken(c, events)) + CrashSafety.Run(c, events).memory.records == Accumulated(events)
    ensures RowsCommit(c.h, Chain(c, CrashSafety.Run(c, events).store), Stored(AllTaken(c, events)))
    ensures IdsWithin(CrashSafety.Run(c, events).store.rows, CrashSafety.Run(c, events).store.counter)
  {
    hide TenantRows, Next, Taken, NewRows, RowsCommit, RecordsOf, Stored;
    if events == [] {
      NothingYet(c);
    } else {
      var n := |events| - 1;
      var init, ev := events[..n], events[n];
      RecordsAccounted(c, init);
      var s, taken := CrashSafety.Run(c, init), Taken(c, CrashSafety.Run(c, init), ev);
      EventRows(c, s, ev);
      EventRecords(c, s, ev);
      RecordsConcat(AllTaken(c, init), taken);
      StoredConcat(AllTaken(c, init), taken);
      SingleTaken(c, s, ev);
      RowsCommitMore(c.h, Chain(c, s.store), Stored(AllTaken(c, init)), NewRows(c, s, ev), Stored(taken));
      Regroup(RecordsOf(AllTaken(c, init)), RecordsOf(taken), Next(c, s, ev).memory.records,
              s.memory.records, if ev.Accumulate? then ev.records else []);
    }
  }

  lemma {:induction false} Regroup<T>(a: seq<T>, b: seq<T>, c: seq<T>, d: seq<T>, e: seq<T>)
    requires b + c == d + e
    ensures (a + b) + c == (a + d) + e
  {
    assert (a + b) + c == a + (b + c) && a + (d + e) == (a + d) + e;
  }

  lemma {:induction false} SingleTaken(c: Config, s: Sys, ev: Event)
    ensures |NewRows(c, s, ev)| <= 1
  {
    hide AfterInit, NextBlock;
  }

  lemma {:induction false} NothingYet(c: Config)
    ensures RecordsOf([]) == [] && Stored([]) == []
    ensures RowsCommit(c.h, Chain(c, EMPTY_SYSTEM.store), [])
    ensures IdsWithin(EMPTY_SYSTEM.store.rows, EMPTY_SYSTEM.store.counter)
  {
  }
}
