// Conservation of GPU energy over every run of export requests.

module GpuConservation {
  import opened Bytes
  import opened Attribution
  import opened GpuExport

  // A reading that reached the baseline step.
  datatype Reading = Reading(key: Bytes, energy: U64)

  function ReadingsOf(nodeId: Bytes, gpus: seq<Gpu>): seq<Reading> {
    if gpus == [] then []
    else
      var g := gpus[|gpus| - 1];
      ReadingsOf(nodeId, gpus[..|gpus| - 1]) + [Reading(StateKey(nodeId, g), g.energy)]
  }

  // All readings that reach the baseline step in a run, rejected requests included.
  function Log(tagger: Tagger, requests: seq<Request>): seq<Reading> {
    if requests == [] then []
    else
      var r := requests[|requests| - 1];
      Log(tagger, requests[..|requests| - 1]) + ReadingsOf(r.nodeId, Reaching(tagger, r))
  }

  // The ledger after a run of `HandleExport` calls on a fresh enclave.
  function LedgerAfter(tagger: Tagger, requests: seq<Request>): Ledger {
    if requests == [] then Ledger(map[], [])
    else
      var r := requests[|requests| - 1];
      ChargeAll(LedgerAfter(tagger, requests[..|requests| - 1]), r.nodeId, Reaching(tagger, r))
  }

  // ---- first and highest reading of a device ----------------------------------------------------

  predicate Mentions(log: seq<Reading>, key: Bytes) {
    exists i :: 0 <= i < |log| && log[i].key == key
  }

  function FirstOf(log: seq<Reading>, key: Bytes): U64
    requires Mentions(log, key)
  {
    var n := |log| - 1;
    if Mentions(log[..n], key) then FirstOf(log[..n], key)
    else log[n].energy
  }

  function PeakOf(log: seq<Reading>, key: Bytes): U64
    requires Mentions(log, key)
  {
    var n := |log| - 1;
    if !Mentions(log[..n], key) then log[n].energy
    else if log[n].key == key && log[n].energy > PeakOf(log[..n], key) then log[n].energy
    else PeakOf(log[..n], key)
  }

  // FirstOf is the earliest reading of the device ...
  lemma {:induction false} FirstIsEarliest(log: seq<Reading>, key: Bytes)
    requires Mentions(log, key)
    ensures exists i :: 0 <= i < |log| && log[i] == Reading(key, FirstOf(log, key)) && !Mentions(log[..i], key)
    decreases |log|
  {
    var n := |log| - 1;
    var init := log[..n];
    if Mentions(init, key) {
      FirstIsEarliest(init, key);
      var i :| 0 <= i < n && init[i] == Reading(key, FirstOf(init, key)) && !Mentions(init[..i], key);
      assert init[..i] == log[..i];
      assert log[i] == Reading(key, FirstOf(log, key));
    } else {
      assert log == init + [log[n]];
      MentionsSnoc(init, log[n], key);
      assert log[n] == Reading(key, FirstOf(log, key));
    }
  }

  // ... and PeakOf the greatest.
  lemma {:induction false} PeakIsGreatest(log: seq<Reading>, key: Bytes)
    requires Mentions(log, key)
    ensures exists i :: 0 <= i < |log| && log[i] == Reading(key, PeakOf(log, key))
    ensures forall i :: 0 <= i < |log| && log[i].key == key ==> log[i].energy <= PeakOf(log, key)
    decreases |log|
  {
    var n := |log| - 1;
    var init := log[..n];
    assert forall i :: 0 <= i < n ==> init[i] == log[i];
    if Mentions(init, key) {
      PeakIsGreatest(init, key);
      var j :| 0 <= j < n && init[j] == Reading(key, PeakOf(init, key));
      assert log[j] == Reading(key, PeakOf(init, key));
    } else {
      assert log == init + [log[n]];
      MentionsSnoc(init, log[n], key);
      assert log[n] == Reading(key, PeakOf(log, key));
    }
  }

  // Distinct device keys in order of first appearance.
  function Devices(log: seq<Reading>): (r: seq<Bytes>)
    ensures forall k :: k in r <==> Mentions(log, k)
  {
    if log == [] then []
    else
      var n := |log| - 1;
      var before := Devices(log[..n]);
      assert log == log[..n] + [log[n]];
      assert forall k :: Mentions(log, k) <==> Mentions(log[..n], k) || log[n].key == k by {
        forall k
          ensures Mentions(log, k) <==> Mentions(log[..n], k) || log[n].key == k
        {
          MentionsSnoc(log[..n], log[n], k);
        }
      }
      if log[n].key in before then before else before + [log[n].key]
  }

  lemma {:induction false} MentionsSnoc(log: seq<Reading>, r: Reading, k: Bytes)
    ensures Mentions(log + [r], k) <==> Mentions(log, k) || r.key == k
  {
    var more := log + [r];
    assert more[|log|] == r;
    assert forall i :: 0 <= i < |log| ==> more[i] == log[i];
  }

  lemma {:induction false} DevicesDistinct(log: seq<Reading>)
    ensures forall i, j :: 0 <= i < j < |Devices(log)| ==> Devices(log)[i] != Devices(log)[j]
  {
    hide Mentions;
    if log != [] {
      DevicesDistinct(log[..|log| - 1]);
    }
  }

  // Sum over devices of highest minus first reading.
  function Spread(log: seq<Reading>, keys: seq<Bytes>): int
    requires forall k :: k in keys ==> Mentions(log, k)
  {
    if keys == [] then 0
    else
      var k := keys[|keys| - 1];
      Spread(log, keys[..|keys| - 1]) + PeakOf(log, k) - FirstOf(log, k)
  }

  // ---- one reading ----------------------------------------------------------------------------------

  // What a new reading adds to its device's spread.
  function Gain(log: seq<Reading>, r: Reading): nat {
    if Mentions(log, r.key) && r.energy > PeakOf(log, r.key) then r.energy - PeakOf(log, r.key) else 0
  }

  lemma {:induction false} SnocOther(log: seq<Reading>, r: Reading, k: Bytes)
    requires Mentions(log, k)
    ensures Mentions(log + [r], k)
    ensures FirstOf(log + [r], k) == FirstOf(log, k)
    ensures PeakOf(log + [r], k) == if r.key == k && r.energy > PeakOf(log, k) then r.energy else PeakOf(log, k)
  {
    hide Mentions;
    MentionsSnoc(log, r, k);
    assert (log + [r])[..|log|] == log;
  }

  lemma {:induction false} SpreadSnoc(log: seq<Reading>, r: Reading, keys: seq<Bytes>)
    requires forall k :: k in keys ==> Mentions(log, k)
    requires forall i, j :: 0 <= i < j < |keys| ==> keys[i] != keys[j]
    ensures forall k :: k in keys ==> Mentions(log + [r], k)
    ensures Spread(log + [r], keys) == Spread(log, keys) + (if r.key in keys then Gain(log, r) else 0)
    decreases |keys|
  {
    hide Mentions, PeakOf, FirstOf;
    forall k | k in keys
      ensures Mentions(log + [r], k)
    {
      MentionsSnoc(log, r, k);
    }
    if keys != [] {
      var n := |keys| - 1;
      SpreadSnoc(log, r, keys[..n]);
      SnocOther(log, r, keys[n]);
      assert keys == keys[..n] + [keys[n]];
      assert keys[n] !in keys[..n];
    }
  }

  // The whole spread grows by exactly the gain, also for a new device.
  lemma {:induction false} SpreadGrows(log: seq<Reading>, r: Reading)
    ensures Spread(log + [r], Devices(log + [r])) == Spread(log, Devices(log)) + Gain(log, r)
  {
    hide Mentions, PeakOf, FirstOf, Spread;
    var keys := Devices(log);
    DevicesDistinct(log);
    SpreadSnoc(log, r, keys);
    DevicesSnoc(log, r);
    if r.key !in keys {
      MentionsSnoc(log, r, r.key);
      NewDevice(log, r);
      SpreadLast(log + [r], keys, r.key);
    }
  }

  lemma {:induction false} DevicesSnoc(log: seq<Reading>, r: Reading)
    ensures Devices(log + [r]) == if r.key in Devices(log) then Devices(log) else Devices(log) + [r.key]
  {
    assert (log + [r])[..|log|] == log;
  }

  lemma {:induction false} NewDevice(log: seq<Reading>, r: Reading)
    requires !Mentions(log, r.key) && Mentions(log + [r], r.key)
    ensures PeakOf(log + [r], r.key) == r.energy && FirstOf(log + [r], r.key) == r.energy
  {
    assert (log + [r])[..|log|] == log;
  }

  lemma {:induction false} SpreadLast(log: seq<Reading>, keys: seq<Bytes>, k: Bytes)
    requires forall x :: x in keys + [k] ==> Mentions(log, x)
    requires forall x :: x in keys ==> Mentions(log, x)
    ensures Mentions(log, k) && Spread(log, keys + [k]) == Spread(log, keys) + PeakOf(log, k) - FirstOf(log, k)
  {
    hide Mentions;
    assert (keys + [k])[|keys|] == k;
    assert (keys + [k])[..|keys|] == keys;
  }

  // ---- attribution keeps every microjoule --------------------------------------------------------------

  lemma {:induction false} TotalConcat(a: seq<nat>, b: seq<nat>)
    ensures Total(a + b) == Total(a) + Total(b)
    decreases |b|
  {
    if b == [] {
      assert a + b == a;
    } else {
      TotalConcat(a, b[..|b| - 1]);
      assert (a + b)[..|a + b| - 1] == a + b[..|b| - 1];
    }
  }

  lemma {:induction false} EnergiesConcat(a: seq<Share>, b: seq<Share>)
    ensures Total(Energies(a + b)) == Total(Energies(a)) + Total(Energies(b))
  {
    assert Energies(a + b) == Energies(a) + Energies(b);
    TotalConcat(Energies(a), Energies(b));
  }

  lemma {:induction false} OneShare(pid: U32, e: nat)
    ensures Total(Energies([Share(pid, e)])) == e && Total(Energies([])) == 0
  {
    assert Energies([Share(pid, e)])[..0] == [];
  }

  // Every delta, bracketed or not, with active processes or none, is recorded in full.
  lemma {:induction false} RowsForTotal(delta: U64, procs: seq<Proc>)
    ensures Total(Energies(RowsFor(delta, procs))) == delta
  {
    hide Total, Shares, GpuBuckets, Entries;
    if delta == 0 {
      OneShare(0, 0);
    } else {
      var buckets := GpuBuckets(delta, procs);
      BucketsCarryWeight(delta, procs);
      SharesConserve(delta, Utils(buckets));
      EntriesCharge(ProcPids(buckets), Shares(delta, Utils(buckets)), 0);
    }
  }

  // ---- whole runs ------------------------------------------------------------------------------------------

  // Baselines hold each device's highest reading, and the recorded energy is
  // the sum of the devices' spreads.
  ghost predicate Balanced(l: Ledger, log: seq<Reading>) {
    && (forall k :: k in l.baselines <==> Mentions(log, k))
    && (forall k :: k in l.baselines && Mentions(log, k) ==> l.baselines[k] == PeakOf(log, k))
    && Total(Energies(l.records)) == Spread(log, Devices(log))
  }

  // Who is charged for a delta of at most 4000 joules: the active processes, by
  // their capped utilisation (see `SharesConserve`).  More than that, or with
  // nobody active, it is one entry for pid 0.
  lemma {:induction false} RowsForExact(delta: U64, procs: seq<Proc>, pid: U32)
    ensures delta <= 4_000_000_000 && Total(Utils(Active(procs))) > 0 ==>
      var active := Active(procs);
      EnergyFor(RowsFor(delta, procs), pid) == SharesFor(ProcPids(active), Shares(delta, Utils(active)), pid)
    ensures delta > 4_000_000_000 || Total(Utils(Active(procs))) == 0 ==>
      RowsFor(delta, procs) == if delta == 0 then [] else [Share(0, delta)]
  {
    hide Shares, Entries, Active, Total, EnergyFor;
    var active := if delta <= 4_000_000_000 then Active(procs) else [];
    TotalZero(Utils(active));
    BucketsCarryWeight(delta, procs);
    var buckets := GpuBuckets(delta, procs);
    if delta == 0 {
      NoEnergy(pid);
      if Total(Utils(active)) > 0 {
        NoShares(ProcPids(active), Utils(active), pid);
      }
    } else if Total(Utils(active)) > 0 {
      EntriesCharge(ProcPids(buckets), Shares(delta, Utils(buckets)), pid);
    } else {
      var ws := Utils(buckets);
      assert buckets == active + [Proc(0, 1)];
      assert forall i :: 0 <= i < |active| ==> ws[i] == Utils(active)[i];
      OneEntry(delta, ProcPids(buckets), ws);
    }
  }

  lemma {:induction false} NoShares(pids: seq<U32>, ws: seq<nat>, pid: U32)
    requires |pids| == |ws| && Total(ws) > 0
    ensures SharesFor(pids, Shares(0, ws), pid) == 0
  {
    hide Shares, Total, Entries;
    SharesConserve(0, ws);
    TotalZero(Shares(0, ws));
    EntriesCharge(pids, Shares(0, ws), pid);
    ZeroEntries(pids, Shares(0, ws));
    NoEnergy(pid);
  }

  lemma {:induction false} ChargeBalances(l: Ledger, log: seq<Reading>, nodeId: Bytes, g: Gpu)
    requires Balanced(l, log)
    ensures Balanced(Charge(l, nodeId, g), log + [Reading(StateKey(nodeId, g), g.energy)])
  {
    hide Mentions, PeakOf, Spread, Total, StateKey, RowsFor, Energies, Devices;
    var key := StateKey(nodeId, g);
    var r := Reading(key, g.energy);
    var l', more := Charge(l, nodeId, g), log + [r];
    RowsForTotal(Delta(l.baselines, key, g.energy), g.procs);
    EnergiesConcat(l.records, RowsFor(Delta(l.baselines, key, g.energy), g.procs));
    SpreadGrows(log, r);
    forall k
      ensures k in l'.baselines <==> Mentions(more, k)
      ensures k in l'.baselines && Mentions(more, k) ==> l'.baselines[k] == PeakOf(more, k)
    {
      MentionsSnoc(log, r, k);
      if Mentions(log, k) {
        SnocOther(log, r, k);
      } else if k == key {
        NewDevice(log, r);
      }
    }
  }

  lemma {:induction false} ChargeAllBalances(l: Ledger, log: seq<Reading>, nodeId: Bytes, gpus: seq<Gpu>)
    requires Balanced(l, log)
    ensures Balanced(ChargeAll(l, nodeId, gpus), log + ReadingsOf(nodeId, gpus))
    decreases |gpus|
  {
    hide Balanced, Charge, StateKey;
    if gpus == [] {
      assert log + [] == log;
    } else {
      var n := |gpus| - 1;
      ChargeAllBalances(l, log, nodeId, gpus[..n]);
      var before := log + ReadingsOf(nodeId, gpus[..n]);
      var r := Reading(StateKey(nodeId, gpus[n]), gpus[n].energy);
      ChargeBalances(ChargeAll(l, nodeId, gpus[..n]), before, nodeId, gpus[n]);
      assert before + [r] == log + (ReadingsOf(nodeId, gpus[..n]) + [r]);
    }
  }

  // In every run of requests, including ones rejected at any point, the energy
  // booked in records is the sum over devices of the highest reading minus the
  // first one: rollbacks, idle time and unbracketed gaps lose and invent nothing.
  lemma {:induction false} GpuEnergyConserved(tagger: Tagger, requests: seq<Request>)
    ensures Balanced(LedgerAfter(tagger, requests), Log(tagger, requests))
    ensures
      var log := Log(tagger, requests);
      Total(Energies(LedgerAfter(tagger, requests).records)) == Spread(log, Devices(log))
  {
    hide Total, Spread, Devices, Mentions, PeakOf, ChargeAll, ReadingsOf, Reaching, Energies;
    if requests == [] {
      EmptyBalanced();
    } else {
      var n := |requests| - 1;
      GpuEnergyConserved(tagger, requests[..n]);
      var r := requests[n];
      ChargeAllBalances(LedgerAfter(tagger, requests[..n]), Log(tagger, requests[..n]), r.nodeId, Reaching(tagger, r));
    }
  }

  lemma {:induction false} EmptyBalanced()
    ensures Balanced(Ledger(map[], []), [])
  {
    OneShare(0, 0);
  }

  // Drives one enclave object through any requests.
  method ExportRun(tagger: Tagger, requests: seq<Request>) returns (records: seq<Share>, baselines: map<Bytes, U64>)
    ensures
      var log := Log(tagger, requests);
      && Total(Energies(records)) == Spread(log, Devices(log))
      && (forall k :: k in baselines ==> Mentions(log, k) && baselines[k] == PeakOf(log, k))
  {
    hide Total, Spread, Devices, Mentions, PeakOf, ChargeAll, Reaching, Energies, Log;
    var enclave := new GpuEnclave();
    for i := 0 to |requests|
      invariant enclave.View() == LedgerAfter(tagger, requests[..i])
    {
      assert requests[..i + 1][..i] == requests[..i];
      var _ := enclave.HandleExport(tagger, requests[i]);
    }
    assert requests[..|requests|] == requests;
    GpuEnergyConserved(tagger, requests);
    records, baselines := enclave.accumulatedRecords, enclave.gpuEnergyState;
  }
}
