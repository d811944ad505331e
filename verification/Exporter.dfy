// The file exporter that relays signed steps to the guests.

module Exporter {
  import opened Bytes
  import opened Codec
  import opened Text
  import opened Checkpoint
  import opened EnergyChain
  import opened EnergyProtocol

  datatype Metadata = Metadata(counter: nat, delta: U64, prev: Digest, signature: Digest)

  // One `energy_uj` and one `chain_metadata.json` file per VM directory.
  datatype Files = Files(energy: map<Bytes, Bytes>, metadata: map<Bytes, Metadata>)

  // The value `add_or_create` starts from: missing or unreadable files count as 0.
  function StoredEnergy(energy: map<Bytes, Bytes>, vm: Bytes): U64 {
    if vm in energy then
      match ParseUnsigned(Trim(energy[vm]))
      case Some(v) => v
      case None => 0
    else 0
  }

  // What the energy file is to hold; None when the checked addition overflows.
  function NewEnergy(f: Files, u: SignedUpdate): Option<U64> {
    if u.counter == 1 && u.prev == ZERO_DIGEST then Some(u.delta)
    else if StoredEnergy(f.energy, u.vm) + u.delta > U64_MAX then None
    else Some(StoredEnergy(f.energy, u.vm) + u.delta)
  }

  // None: the program ends here, and neither file is written.
  function ExportStep(f: Files, u: SignedUpdate): Option<Files> {
    match NewEnergy(f, u)
    case None => None
    case Some(n) =>
      Some(Files(f.energy[u.vm := Dec(n)], f.metadata[u.vm := Metadata(u.counter, u.delta, u.prev, u.signature)]))
  }

  // What reading the files back shows: the first step of a chain starts the total
  // over, every other adds to it, a missing or unreadable file counts as nothing,
  // and no other VM is touched.
  lemma {:induction false} ExportedTotal(f: Files, u: SignedUpdate)
    ensures
      var before := StoredEnergy(f.energy, u.vm);
      var readable := u.vm in f.energy && ParseUnsigned(Trim(f.energy[u.vm])).Some?;
      match ExportStep(f, u)
      case None => readable && before + u.delta > U64_MAX
      case Some(g) =>
        var after := StoredEnergy(g.energy, u.vm);
        && (after < before ==> u.counter == 1 && u.prev == ZERO_DIGEST)
        && (after == u.delta || (readable && after == before + u.delta))
        && (u.counter == 1 && u.prev == ZERO_DIGEST ==> after == u.delta)
        && (!(u.counter == 1 && u.prev == ZERO_DIGEST) ==> after == before + u.delta)
        && forall vm :: vm != u.vm ==>
             && StoredEnergy(g.energy, vm) == StoredEnergy(f.energy, vm)
             && (vm in g.metadata <==> vm in f.metadata)
             && (vm in f.metadata && vm in g.metadata ==> g.metadata[vm] == f.metadata[vm])
  {
    hide Dec, Trim, ParseUnsigned;
    var n := NewEnergy(f, u);
    if n.Some? {
      ParseUnsignedRoundTrip(n.value);
    }
  }

  // How many updates complete, and the files they leave.
  datatype Progress = Progress(files: Files, completed: nat)

  function ExportAll(f: Files, us: seq<SignedUpdate>): (r: Progress)
    ensures r.completed <= |us|
  {
    if us == [] then Progress(f, 0)
    else
      var n := |us| - 1;
      var before := ExportAll(f, us[..n]);
      if before.completed < n then before
      else
        match ExportStep(before.files, us[n])
        case None => before
        case Some(g) => Progress(g, n + 1)
  }

  class VmEnergyExporter {
    var energyFiles: map<Bytes, Bytes>
    var metadataFiles: map<Bytes, Metadata>

    function View(): Files
      reads this
    {
      Files(energyFiles, metadataFiles)
    }

    constructor (energy: map<Bytes, Bytes>, metadata: map<Bytes, Metadata>)
      ensures View() == Files(energy, metadata)
    {
      energyFiles, metadataFiles := energy, metadata;
    }

    // Overflow checks are on in every build profile.
    method AddOrCreate(vm: Bytes, value: U64) returns (completed: bool)
      modifies this`energyFiles
      ensures completed <==> StoredEnergy(old(energyFiles), vm) + value <= U64_MAX
      ensures energyFiles ==
        if completed then old(energyFiles)[vm := Dec(StoredEnergy(old(energyFiles), vm) + value)] else old(energyFiles)
    {
      hide Dec, Trim, ParseUnsigned;
      var current: U64 := 0;
      if vm in energyFiles {
        var parsed := ParseUnsigned(Trim(energyFiles[vm]));
        current := if parsed.Some? then parsed.value else 0;
      }
      if current + value > U64_MAX {
        return false;
      }
      energyFiles := energyFiles[vm := Dec(current + value)];
      completed := true;
    }

    method WriteExact(vm: Bytes, value: U64)
      modifies this`energyFiles
      ensures energyFiles == old(energyFiles)[vm := Dec(value)]
    {
      energyFiles := energyFiles[vm := Dec(value)];
    }

    // `write_updates_with_chain`.
    method WriteUpdatesWithChain(updates: seq<Update>, counter: nat, prev: Digest, signature: Digest)
      returns (completed: bool)
      modifies this
      ensures
        var progress := ExportAll(old(View()), Signed(updates, counter, prev, signature));
        View() == progress.files && (completed <==> progress.completed == |updates|)
    {
      hide Dec, StoredEnergy, AllZero, ExportAll;
      ghost var start := View();
      ghost var all := Signed(updates, counter, prev, signature);
      ExportNone(start, all);
      for i := 0 to |updates|
        invariant ExportAll(start, all[..i]) == Progress(View(), i)
      {
        var update := updates[i];
        ExportOne(start, all, i);
        var restart := counter == 1 && AllZero(prev);
        ZeroBytes(prev);
        if restart {
          WriteExact(update.vm, update.delta);
        } else {
          var ok := AddOrCreate(update.vm, update.delta);
          if !ok {
            return false;
          }
        }
        metadataFiles := metadataFiles[update.vm := Metadata(counter, update.delta, prev, signature)];
      }
      assert all[..|updates|] == all;
      completed := true;
    }
  }

  lemma {:induction false} ExportNone(f: Files, us: seq<SignedUpdate>)
    ensures ExportAll(f, us[..0]) == Progress(f, 0)
  {
  }

  // With all before it completed, an update completes or is where everything ends.
  lemma {:induction false} ExportOne(f: Files, us: seq<SignedUpdate>, i: nat)
    requires i < |us| && ExportAll(f, us[..i]).completed == i
    ensures
      var before := ExportAll(f, us[..i]).files;
      match ExportStep(before, us[i])
      case None => ExportAll(f, us) == Progress(before, i)
      case Some(g) => ExportAll(f, us[..i + 1]) == Progress(g, i + 1)
  {
    hide ExportStep;
    assert us[..i + 1][..i] == us[..i];
    if ExportStep(ExportAll(f, us[..i]).files, us[i]).None? {
      ExportStuck(f, us, i, |us|);
      assert us[..|us|] == us;
    }
  }

  lemma {:induction false} ExportStuck(f: Files, us: seq<SignedUpdate>, i: nat, j: nat)
    requires i < j <= |us| && ExportAll(f, us[..i]).completed == i
    requires ExportStep(ExportAll(f, us[..i]).files, us[i]) == None
    ensures ExportAll(f, us[..j]) == ExportAll(f, us[..i])
  {
    hide ExportStep;
    assert us[..j][..j - 1] == us[..j - 1];
    if j > i + 1 {
      ExportStuck(f, us, i, j - 1);
    }
  }

  function Signed(updates: seq<Update>, counter: nat, prev: Digest, signature: Digest): (r: seq<SignedUpdate>)
    ensures |r| == |updates|
  {
    seq(|updates|, i requires 0 <= i < |updates| =>
      SignedUpdate(updates[i].vm, updates[i].delta, counter, prev, signature))
  }

  predicate AllZero(d: Digest) {
    forall k :: 0 <= k < 32 ==> d[k] == 0
  }

  lemma {:induction false} ZeroBytes(d: Digest)
    ensures AllZero(d) <==> d == ZERO_DIGEST
  {
    assert forall k :: 0 <= k < 32 ==> ZERO_DIGEST[k] == 0;
  }

  // ---- host enclave and exporter together -----------------------------------------------------

  datatype HostEvent = Measure(update: Update) | HostRestart

  // `up`: the exporting program has not ended in an overflow since the last
  // restart.  The signer ends with it: it is linked into that program, or it is
  // an enclave process that serves one connection from it and ends with that.
  datatype Host = Host(chains: Chains, files: Files, up: bool)

  function HostNext(mac: Mac, master: Digest, s: Host, ev: HostEvent): Host {
    match ev
    case HostRestart => Host(map[], s.files, true)
    case Measure(u) =>
      if !s.up then s
      else
        var (chain, signed) := SignStep(mac, VmKey(mac, master, u.vm), u.vm, ChainOf(s.chains, u.vm), u.delta);
        match ExportStep(s.files, signed)
        case None => Host(map[], s.files, false)
        case Some(f) => Host(s.chains[u.vm := chain], f, true)
  }

  // From any files left behind by anybody.
  function HostRun(mac: Mac, master: Digest, files: Files, events: seq<HostEvent>): Host {
    if events == [] then Host(map[], files, true)
    else HostNext(mac, master, HostRun(mac, master, files, events[..|events| - 1]), events[|events| - 1])
  }

  function Measures(updates: seq<Update>): (r: seq<HostEvent>)
    ensures |r| == |updates|
  {
    seq(|updates|, i requires 0 <= i < |updates| => Measure(updates[i]))
  }

  // Measuring one update after the other is signing them as one batch and
  // exporting every signed update of it.
  lemma {:induction false} BatchIsRun(mac: Mac, master: Digest, files: Files, updates: seq<Update>)
    ensures
      var s := HostRun(mac, master, files, Measures(updates));
      var (chains, signed) := SignAll(mac, master, map[], updates);
      var progress := ExportAll(files, signed);
      && s.files == progress.files
      && (s.up <==> progress.completed == |updates|)
      && (s.up ==> s.chains == chains)
  {
    hide SignStep, ExportStep;
    SignAllLength(mac, master, map[], updates);
    if updates != [] {
      var init := updates[..|updates| - 1];
      BatchIsRun(mac, master, files, init);
      SignAllLength(mac, master, map[], init);
      assert Measures(updates)[..|updates| - 1] == Measures(init);
      var signed := SignAll(mac, master, map[], updates).1;
      assert signed[..|updates| - 1] == SignAll(mac, master, map[], init).1;
    }
  }

  // The deltas measured for a VM since the last restart.
  function LiveDeltas(events: seq<HostEvent>, vm: Bytes): seq<U64> {
    if events == [] then []
    else
      var before := LiveDeltas(events[..|events| - 1], vm);
      match events[|events| - 1]
      case HostRestart => []
      case Measure(u) => if u.vm == vm then before + [u.delta] else before
  }

  function StepMetadata(p: Party, ds: seq<U64>): Metadata
    requires ds != []
  {
    var m := MessageOf(p.mac, p.key, p.vm, ds);
    Metadata(m.counter, m.delta, m.prev, m.signature)
  }

  // The files show the live incarnation's last step and its exact energy sum.
  ghost predicate Exported(p: Party, s: Host, ds: seq<U64>) {
    && Sum(ds) <= U64_MAX
    && ChainOf(s.chains, p.vm) == ChainAfter(p.mac, p.key, p.vm, ds)
    && (ds != [] ==>
          && p.vm in s.files.energy && s.files.energy[p.vm] == Dec(Sum(ds))
          && p.vm in s.files.metadata && s.files.metadata[p.vm] == StepMetadata(p, ds))
  }

  function PartyOf(mac: Mac, master: Digest, vm: Bytes): Party {
    Party(mac, VmKey(mac, master, vm), vm)
  }

  // Every VM's energy since the last restart still fits 64 bits.
  ghost predicate AllFit(events: seq<HostEvent>) {
    forall vm :: Sum(LiveDeltas(events, vm)) <= U64_MAX
  }

  ghost predicate AllExported(mac: Mac, master: Digest, s: Host, events: seq<HostEvent>) {
    forall vm :: Exported(PartyOf(mac, master, vm), s, LiveDeltas(events, vm))
  }

  lemma {:induction false} StoredIs(energy: map<Bytes, Bytes>, vm: Bytes, n: U64)
    requires vm in energy && energy[vm] == Dec(n)
    ensures StoredEnergy(energy, vm) == n
  {
    hide Dec, Trim, ParseUnsigned;
    ParseUnsignedRoundTrip(n);
  }

  // Measuring a VM once more: the export completes exactly when the sum still fits.
  lemma {:induction false} OwnStep(p: Party, master: Digest, s: Host, ds: seq<U64>, d: U64)
    requires p.key == VmKey(p.mac, master, p.vm) && Exported(p, s, ds) && s.up
    ensures
      var s' := HostNext(p.mac, master, s, Measure(Update(p.vm, d)));
      && (s'.up <==> Sum(ds + [d]) <= U64_MAX)
      && (s'.up ==> Exported(p, s', ds + [d]))
      && (!s'.up ==> s'.files == s.files)
  {
    hide Dec, SignStep, ChainAfter, StoredEnergy, MessageOf, Sum;
    SignStepExtends(p.mac, p.key, p.vm, ds, d);
    StepFields(p, ds, d);
    SumSnoc(ds, d);
    if ds != [] {
      StoredIs(s.files.energy, p.vm, Sum(ds));
    } else {
      SumEmpty();
    }
  }

  lemma {:induction false} StepFields(p: Party, ds: seq<U64>, d: U64)
    ensures
      var m := MessageOf(p.mac, p.key, p.vm, ds + [d]);
      && m.counter == |ds| + 1 && m.delta == d
      && (ds == [] ==> m.prev == ZERO_DIGEST)
  {
    assert (ds + [d])[..|ds|] == ds;
  }

  lemma {:induction false} SumSnoc(ds: seq<U64>, d: U64)
    ensures Sum(ds + [d]) == Sum(ds) + d
  {
    assert (ds + [d])[..|ds|] == ds;
  }

  lemma {:induction false} SumEmpty()
    ensures Sum([]) == 0
  {
  }

  // For every run of measurements and host restarts from any initial files: the
  // process is up exactly as long as every VM's sum since the last restart fits
  // 64 bits, and while it is up, every VM's exported energy is that exact sum
  // and its metadata the last signed step.
  lemma {:induction false} ExportTracksSigner(mac: Mac, master: Digest, files: Files, events: seq<HostEvent>)
    ensures HostRun(mac, master, files, events).up <==> AllFit(events)
    ensures AllFit(events) ==> AllExported(mac, master, HostRun(mac, master, files, events), events)
  {
    hide HostNext, Exported, AllFit, AllExported, LiveDeltas;
    if events == [] {
      FreshExported(mac, master, files, events);
    } else {
      var n := |events| - 1;
      var init := events[..n];
      ExportTracksSigner(mac, master, files, init);
      var s := HostRun(mac, master, files, init);
      match events[n] {
        case HostRestart =>
          FreshExported(mac, master, s.files, events);
          RestartUp(mac, master, s);
        case Measure(u) =>
          if s.up {
            StepExported(mac, master, s, events, u);
          } else {
            StillDown(mac, master, s, events, u);
          }
      }
    }
  }

  lemma {:induction false} RestartUp(mac: Mac, master: Digest, s: Host)
    ensures HostNext(mac, master, s, HostRestart) == Host(map[], s.files, true)
  {
  }

  // Nothing measured since the last restart.
  lemma {:induction false} FreshExported(mac: Mac, master: Digest, files: Files, events: seq<HostEvent>)
    requires events == [] || events[|events| - 1] == HostRestart
    ensures AllFit(events) && AllExported(mac, master, Host(map[], files, true), events)
  {
    hide SignStep;
    SumEmpty();
    forall vm
      ensures LiveDeltas(events, vm) == []
      ensures Exported(PartyOf(mac, master, vm), Host(map[], files, true), [])
    {
      FreshChain(PartyOf(mac, master, vm));
    }
  }

  lemma {:induction false} FreshChain(p: Party)
    ensures NEW_CHAIN == ChainAfter(p.mac, p.key, p.vm, [])
  {
  }

  lemma {:induction false} StepExported(mac: Mac, master: Digest, s: Host, events: seq<HostEvent>, u: Update)
    requires events != [] && events[|events| - 1] == Measure(u) && s.up
    requires AllExported(mac, master, s, events[..|events| - 1])
    ensures HostNext(mac, master, s, Measure(u)).up <==> AllFit(events)
    ensures AllFit(events) ==> AllExported(mac, master, HostNext(mac, master, s, Measure(u)), events)
  {
    hide HostNext, Sum, Exported;
    var init, s' := events[..|events| - 1], HostNext(mac, master, s, Measure(u));
    var p, ds := PartyOf(mac, master, u.vm), LiveDeltas(init, u.vm);
    assert Exported(p, s, ds);
    OwnStep(p, master, s, ds, u.delta);
    forall vm | vm != u.vm
      ensures LiveDeltas(events, vm) == LiveDeltas(init, vm)
      ensures Sum(LiveDeltas(events, vm)) <= U64_MAX
      ensures s'.up ==> Exported(PartyOf(mac, master, vm), s', LiveDeltas(events, vm))
    {
      assert Exported(PartyOf(mac, master, vm), s, LiveDeltas(init, vm));
      ExportedFits(PartyOf(mac, master, vm), s, LiveDeltas(init, vm));
      OtherStep(PartyOf(mac, master, vm), master, s, LiveDeltas(init, vm), u);
    }
    assert LiveDeltas(events, u.vm) == ds + [u.delta];
  }

  lemma {:induction false} ExportedFits(p: Party, s: Host, ds: seq<U64>)
    requires Exported(p, s, ds)
    ensures Sum(ds) <= U64_MAX
  {
  }

  lemma {:induction false} OtherStep(p: Party, master: Digest, s: Host, ds: seq<U64>, u: Update)
    requires u.vm != p.vm && Exported(p, s, ds)
    ensures
      var s' := HostNext(p.mac, master, s, Measure(u));
      s'.up ==> Exported(p, s', ds)
  {
    hide Dec, StepMetadata, Sum, ChainAfter, ChainText, NewEnergy;
  }

  // Sums only grow until the next restart.
  lemma {:induction false} StillDown(mac: Mac, master: Digest, s: Host, events: seq<HostEvent>, u: Update)
    requires events != [] && events[|events| - 1] == Measure(u) && !s.up && !AllFit(events[..|events| - 1])
    ensures HostNext(mac, master, s, Measure(u)) == s && !AllFit(events)
  {
    hide SignStep, Sum;
    var init := events[..|events| - 1];
    var vm :| Sum(LiveDeltas(init, vm)) > U64_MAX;
    SumSnoc(LiveDeltas(init, vm), u.delta);
    assert Sum(LiveDeltas(events, vm)) >= Sum(LiveDeltas(init, vm));
  }

  // While the process is up, the exported energy is the signer's cumulative energy.
  lemma {:induction false} ExportExact(p: Party, master: Digest, files: Files, events: seq<HostEvent>)
    requires p.key == VmKey(p.mac, master, p.vm) && LiveDeltas(events, p.vm) != []
    requires HostRun(p.mac, master, files, events).up
    ensures
      var s, total := HostRun(p.mac, master, files, events), Sum(LiveDeltas(events, p.vm));
      StoredEnergy(s.files.energy, p.vm) == ChainOf(s.chains, p.vm).cumulative == total
  {
    hide HostRun, LiveDeltas, Dec, StoredEnergy, MessageOf, Sum, SatSum, Exported;
    var s, ds := HostRun(p.mac, master, files, events), LiveDeltas(events, p.vm);
    ExportTracksSigner(p.mac, master, files, events);
    assert Exported(PartyOf(p.mac, master, p.vm), s, ds);
    ExportedMeans(p, s, ds);
    SatSumIsMin(ds);
  }

  lemma {:induction false} ExportedMeans(p: Party, s: Host, ds: seq<U64>)
    requires Exported(p, s, ds) && ds != []
    ensures Sum(ds) <= U64_MAX && StoredEnergy(s.files.energy, p.vm) == Sum(ds)
    ensures ChainOf(s.chains, p.vm).cumulative == SatSum(ds)
    ensures p.vm in s.files.metadata && s.files.metadata[p.vm] == StepMetadata(p, ds)
  {
    hide StoredEnergy, Dec, Sum;
    StoredIs(s.files.energy, p.vm, Sum(ds));
  }

  // A run that ends: the greatest delta, then one microjoule more.  The file
  // keeps the first value.
  lemma {:induction false} OverflowEnds(mac: Mac, master: Digest, files: Files, vm: Bytes)
    ensures
      var first, second := Measure(Update(vm, U64_MAX)), Measure(Update(vm, 1));
      && HostRun(mac, master, files, [first]).up
      && !HostRun(mac, master, files, [first, second]).up
      && HostRun(mac, master, files, [first, second]).files == HostRun(mac, master, files, [first]).files
      && StoredEnergy(HostRun(mac, master, files, [first, second]).files.energy, vm) == U64_MAX
  {
    hide Dec, StoredEnergy, SignStep, ExportStep, AllFit, AllExported, Exported, StepMetadata, ChainAfter, HostRun;
    var first, second := Measure(Update(vm, U64_MAX)), Measure(Update(vm, 1));
    var p := PartyOf(mac, master, vm);
    var cold := Host(map[], files, true);
    FreshExported(mac, master, files, []);
    assert AllExported(mac, master, cold, []) ==> Exported(p, cold, []) by { ExportedOf(mac, master, cold, [], vm); }
    OwnStep(p, master, cold, [], U64_MAX);
    SumPair();
    assert [] + [first] == [first] && [first] + [second] == [first, second] && [] + [U64_MAX] == [U64_MAX];
    RunStep(mac, master, files, [], first);
    RunStep(mac, master, files, [first], second);
    var s := HostRun(mac, master, files, [first]);
    OwnStep(p, master, s, [U64_MAX], 1);
    ExportedMeans(p, s, [U64_MAX]);
  }

  lemma {:induction false} RunStep(mac: Mac, master: Digest, files: Files, events: seq<HostEvent>, ev: HostEvent)
    ensures HostRun(mac, master, files, []) == Host(map[], files, true)
    ensures HostRun(mac, master, files, events + [ev]) == HostNext(mac, master, HostRun(mac, master, files, events), ev)
  {
    hide HostNext;
    assert (events + [ev])[..|events|] == events;
  }

  lemma {:induction false} ExportedOf(mac: Mac, master: Digest, s: Host, events: seq<HostEvent>, vm: Bytes)
    requires AllExported(mac, master, s, events)
    ensures Exported(PartyOf(mac, master, vm), s, LiveDeltas(events, vm))
  {
  }

  lemma {:induction false} SumPair()
    ensures Sum([U64_MAX]) == U64_MAX && Sum([U64_MAX] + [1]) == U64_MAX + 1
  {
    SumEmpty();
    assert [] + [U64_MAX] == [U64_MAX];
    SumSnoc([], U64_MAX);
    SumSnoc([U64_MAX], 1);
  }

  // What a guest reads from the files of its VM.
  function ReadMessage(f: Files, vm: Bytes): Message
    requires vm in f.metadata
  {
    var d := f.metadata[vm];
    Message(StoredEnergy(f.energy, vm), d.delta, d.counter, d.prev, d.signature)
  }

  // End to end: while the process is up, what the guest reads is the message of
  // the live incarnation's last step, so a guest that follows along, having
  // admitted the step before it or nothing yet, accepts it.
  lemma {:induction false} EndToEndAccepted(p: Party, master: Digest, files: Files, events: seq<HostEvent>, g: Guest)
    requires p.key == VmKey(p.mac, master, p.vm)
    requires LiveDeltas(events, p.vm) != [] && HostRun(p.mac, master, files, events).up
    requires
      var ds := LiveDeltas(events, p.vm);
      g == NEW_GUEST || (|ds| > 1 && g == GuestAfter(p, ds[..|ds| - 1]))
    ensures
      var f, ds := HostRun(p.mac, master, files, events).files, LiveDeltas(events, p.vm);
      && p.vm in f.metadata
      && Judge(p.mac, p.key, p.vm, g, ReadMessage(f, p.vm)) == Accept
      && Admitted(p.mac, p.key, p.vm, g, ReadMessage(f, p.vm)) == GuestAfter(p, ds)
  {
    hide HostRun, LiveDeltas, Dec, StoredEnergy, Sum, SatSum, Judge, Admitted, GuestAfter, StateAfter, Exported;
    var s, ds := HostRun(p.mac, master, files, events), LiveDeltas(events, p.vm);
    var f := s.files;
    ExportTracksSigner(p.mac, master, files, events);
    assert Exported(PartyOf(p.mac, master, p.vm), s, ds);
    ExportedMeans(p, s, ds);
    SatSumIsMin(ds);
    assert ReadMessage(f, p.vm) == MessageOf(p.mac, p.key, p.vm, ds);
    if g == NEW_GUEST {
      FirstStepAccepted(p, ds);
    } else {
      var n := |ds| - 1;
      assert ds == ds[..n] + [ds[n]];
      NextStepAccepted(p, ds[..n], ds[n]);
    }
  }
}
