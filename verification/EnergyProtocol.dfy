// The energy chain as a protocol for one VM: signer restarts, lossy, repeating,
// reordering and altering delivery, and the guest's verdicts.

module EnergyProtocol {
  import opened Bytes
  import opened Checkpoint
  import opened EnergyChain

  // ---- from batches over many VMs to one VM's history ------------------------------------

  // The deltas one VM gets in a batch.
  function DeltasFor(updates: seq<Update>, vm: Bytes): seq<U64> {
    if updates == [] then []
    else
      var u := updates[|updates| - 1];
      DeltasFor(updates[..|updates| - 1], vm) + (if u.vm == vm then [u.delta] else [])
  }

  // Signing a batch extends every VM's history by exactly its own deltas.
  lemma {:induction false} SignAllProjects(mac: Mac, master: Digest, chains: Chains, updates: seq<Update>, vm: Bytes, ds: seq<U64>)
    requires ChainOf(chains, vm) == ChainAfter(mac, VmKey(mac, master, vm), vm, ds)
    ensures ChainOf(SignAll(mac, master, chains, updates).0, vm)
            == ChainAfter(mac, VmKey(mac, master, vm), vm, ds + DeltasFor(updates, vm))
    decreases |updates|
  {
    hide ChainAfter, SignStep;
    if updates == [] {
      assert ds + [] == ds;
    } else {
      var n := |updates| - 1;
      var u, key := updates[n], VmKey(mac, master, vm);
      SignAllProjects(mac, master, chains, updates[..n], vm, ds);
      var so := ds + DeltasFor(updates[..n], vm);
      if u.vm == vm {
        SignStepExtends(mac, key, vm, so, u.delta);
        assert ds + (DeltasFor(updates[..n], vm) + [u.delta]) == so + [u.delta];
      } else {
        assert DeltasFor(updates[..n], vm) + [] == DeltasFor(updates[..n], vm);
      }
    }
  }

  lemma {:induction false} SignAllLength(mac: Mac, master: Digest, chains: Chains, updates: seq<Update>)
    ensures |SignAll(mac, master, chains, updates).1| == |updates|
  {
    hide SignStep;
    if updates != [] {
      SignAllLength(mac, master, chains, updates[..|updates| - 1]);
    }
  }

  lemma {:induction false} SignAllPrefix(mac: Mac, master: Digest, chains: Chains, updates: seq<Update>, n: nat)
    requires n <= |updates|
    ensures SignAll(mac, master, chains, updates[..n]).1 <= SignAll(mac, master, chains, updates).1
  {
    hide SignStep;
    if n == |updates| {
      assert updates[..n] == updates;
    } else {
      var init := updates[..|updates| - 1];
      SignAllPrefix(mac, master, chains, init, n);
      assert init[..n] == updates[..n];
    }
  }

  // A batch returns one signed update per update, in order; each is the step
  // that the VM's own history has reached at that point of the batch.
  lemma {:induction false} SignedOutputs(mac: Mac, master: Digest, chains: Chains, updates: seq<Update>, i: nat, ds: seq<U64>)
    requires i < |updates|
    requires ChainOf(chains, updates[i].vm) == ChainAfter(mac, VmKey(mac, master, updates[i].vm), updates[i].vm, ds)
    ensures |SignAll(mac, master, chains, updates).1| == |updates|
    ensures
      var u := updates[i];
      var m := MessageOf(mac, VmKey(mac, master, u.vm), u.vm, ds + DeltasFor(updates[..i] + [u], u.vm));
      SignAll(mac, master, chains, updates).1[i] == SignedUpdate(u.vm, u.delta, m.counter, m.prev, m.signature)
  {
    hide SignStep, ChainAfter, MessageOf, VmKey;
    var u, done := updates[i], updates[..i + 1];
    var key := VmKey(mac, master, u.vm);
    assert done == updates[..i] + [u] && done[..i] == updates[..i];
    SignAllLength(mac, master, chains, updates);
    SignAllLength(mac, master, chains, updates[..i]);
    SignAllPrefix(mac, master, chains, updates, i + 1);
    SignAllLength(mac, master, chains, done);
    SignAllProjects(mac, master, chains, updates[..i], u.vm, ds);
    var so := ds + DeltasFor(updates[..i], u.vm);
    SignStepExtends(mac, key, u.vm, so, u.delta);
    assert ds + (DeltasFor(updates[..i], u.vm) + [u.delta]) == so + [u.delta];
  }

  // ---- the run -----------------------------------------------------------------------------

  // One history of deltas per signer incarnation, the last one live.
  datatype World = World(incarnations: seq<seq<U64>>, guest: Guest, accepted: seq<Message>)

  datatype Event = Sign(delta: U64) | Restart | Deliver(message: Message)

  datatype Party = Party(mac: Mac, key: Digest, vm: Bytes)

  const START := World([[]], NEW_GUEST, [])

  function Next(p: Party, w: World, ev: Event): (r: World)
    requires w.incarnations != []
    ensures r.incarnations != []
  {
    var n := |w.incarnations| - 1;
    match ev
    case Sign(d) => w.(incarnations := w.incarnations[n := w.incarnations[n] + [d]])
    case Restart => w.(incarnations := w.incarnations + [[]])
    case Deliver(m) =>
      w.(guest := Admitted(p.mac, p.key, p.vm, w.guest, m),
         accepted := if Accepts(p, w, m) then w.accepted + [m] else w.accepted)
  }

  predicate Accepts(p: Party, w: World, m: Message) {
    Judge(p.mac, p.key, p.vm, w.guest, m) == Accept
  }

  function Run(p: Party, events: seq<Event>): (r: World)
    ensures r.incarnations != []
  {
    if events == [] then START
    else Next(p, Run(p, events[..|events| - 1]), events[|events| - 1])
  }

  // Every text any incarnation has signed for this VM.
  ghost function SignedTexts(p: Party, incs: seq<seq<U64>>): set<Bytes> {
    set e, n | 0 <= e < |incs| && 0 < n <= |incs[e]| :: StepText(p.mac, p.key, p.vm, incs[e][..n])
  }

  // The guest accepts a message whose text nobody signed.
  ghost predicate Forges(p: Party, w: World, ev: Event) {
    ev.Deliver? && Accepts(p, w, ev.message) && MessageText(p.vm, ev.message) !in SignedTexts(p, w.incarnations)
  }

  // ---- contiguity ------------------------------------------------------------------------------

  // The accepted messages are steps a+1, a+2, ... of incarnation e.
  ghost predicate Follows(p: Party, incs: seq<seq<U64>>, accepted: seq<Message>, e: nat, a: nat) {
    && e < |incs| && a + |accepted| <= |incs[e]|
    && forall j :: 0 <= j < |accepted| ==> accepted[j] == MessageOf(p.mac, p.key, p.vm, incs[e][..a + 1 + j])
  }

  ghost predicate Contiguous(p: Party, incs: seq<seq<U64>>, accepted: seq<Message>) {
    accepted == [] || exists e, a :: Follows(p, incs, accepted, e, a)
  }

  function GuestAfter(p: Party, ds: seq<U64>): Guest {
    Guest(true, |ds|, SatSum(ds), StateAfter(p.mac, p.key, p.vm, ds))
  }

  ghost predicate Tracks(p: Party, w: World, e: nat, a: nat) {
    && Follows(p, w.incarnations, w.accepted, e, a)
    && w.guest == GuestAfter(p, w.incarnations[e][..a + |w.accepted|])
  }

  ghost predicate Inv(p: Party, w: World) {
    if w.accepted == [] then w.guest == NEW_GUEST else exists e, a :: Tracks(p, w, e, a)
  }

  // Signing and restarting only append: what was signed stays signed.
  ghost predicate Extends(a: seq<seq<U64>>, b: seq<seq<U64>>) {
    |a| <= |b| && forall e :: 0 <= e < |a| ==> a[e] <= b[e]
  }

  lemma {:induction false} NextExtends(p: Party, w: World, ev: Event)
    requires w.incarnations != []
    ensures Extends(w.incarnations, Next(p, w, ev).incarnations)
  {
  }

  lemma {:induction false} FollowsExtends(p: Party, a: seq<seq<U64>>, b: seq<seq<U64>>, accepted: seq<Message>, e: nat, k: nat)
    requires Extends(a, b) && Follows(p, a, accepted, e, k)
    ensures Follows(p, b, accepted, e, k)
    ensures b[e][..k + |accepted|] == a[e][..k + |accepted|]
  {
    hide MessageOf;
    assert a[e] <= b[e];
    forall n | 0 <= n <= |a[e]|
      ensures b[e][..n] == a[e][..n]
    {
    }
  }

  lemma {:induction false} TextsExtend(p: Party, a: seq<seq<U64>>, b: seq<seq<U64>>)
    requires Extends(a, b)
    ensures SignedTexts(p, a) <= SignedTexts(p, b)
  {
    hide StepText;
    forall x | x in SignedTexts(p, a)
      ensures x in SignedTexts(p, b)
    {
      var e, n :| 0 <= e < |a| && 0 < n <= |a[e]| && x == StepText(p.mac, p.key, p.vm, a[e][..n]);
      assert a[e] <= b[e];
      assert b[e][..n] == a[e][..n];
    }
  }

  lemma {:induction false} PrefixTexts(p: Party, incs: seq<seq<U64>>, e: nat, n: nat)
    requires e < |incs| && n <= |incs[e]|
    ensures HistoryTexts(p.mac, p.key, p.vm, incs[e][..n]) <= SignedTexts(p, incs)
    decreases n
  {
    hide StepText;
    if n > 0 {
      PrefixTexts(p, incs, e, n - 1);
      assert incs[e][..n][..n - 1] == incs[e][..n - 1];
    }
  }

  // An accepted message with a signed text is a step of some incarnation.
  lemma {:induction false} AcceptedIsStep(p: Party, w: World, m: Message) returns (e: nat, n: nat)
    requires Accepts(p, w, m) && MessageText(p.vm, m) in SignedTexts(p, w.incarnations)
    ensures e < |w.incarnations| && 0 < n <= |w.incarnations[e]|
    ensures m == MessageOf(p.mac, p.key, p.vm, w.incarnations[e][..n])
    ensures Admitted(p.mac, p.key, p.vm, w.guest, m) == GuestAfter(p, w.incarnations[e][..n])
  {
    hide ChainText, SatSum;
    var e', n' :| 0 <= e' < |w.incarnations| && 0 < n' <= |w.incarnations[e']| &&
      MessageText(p.vm, m) == StepText(p.mac, p.key, p.vm, w.incarnations[e'][..n']);
    e, n := e', n';
    var ds := w.incarnations[e][..n];
    ChainTextInjective(m.counter, p.vm, m.energy, m.delta, m.prev,
                       |ds|, p.vm, SatSum(ds), ds[n - 1], StateAfter(p.mac, p.key, p.vm, ds[..n - 1]));
  }

  lemma {:induction false} FirstAccept(p: Party, w: World, m: Message)
    requires w.incarnations != [] && w.accepted == [] && w.guest == NEW_GUEST
    requires Accepts(p, w, m) && MessageText(p.vm, m) in SignedTexts(p, w.incarnations)
    ensures Inv(p, Next(p, w, Deliver(m)))
  {
    hide SignedTexts, Judge, MessageOf, GuestAfter;
    var e, n := AcceptedIsStep(p, w, m);
    assert Tracks(p, Next(p, w, Deliver(m)), e, n - 1);
  }

  lemma {:induction false} LaterAccept(p: Party, w: World, m: Message, e: nat, a: nat)
    requires w.incarnations != [] && w.accepted != [] && Tracks(p, w, e, a)
    requires Accepts(p, w, m) && MessageText(p.vm, m) in SignedTexts(p, w.incarnations)
    ensures Inv(p, Next(p, w, Deliver(m))) || MacCollides(p.mac, p.key, SignedTexts(p, w.incarnations))
  {
    hide SignedTexts, MacCollides, StateAfter, SatSum, ChainText;
    var incs, texts := w.incarnations, SignedTexts(p, w.incarnations);
    var c := a + |w.accepted|;
    var e', n := AcceptedIsStep(p, w, m);
    assert n == m.counter == c + 1;
    var ds := incs[e'][..n];
    assert ds[..n - 1] == incs[e'][..c];
    assert StateAfter(p.mac, p.key, p.vm, incs[e'][..c]) == m.prev == StateAfter(p.mac, p.key, p.vm, incs[e][..c]);
    PrefixTexts(p, incs, e, c);
    PrefixTexts(p, incs, e', c);
    HistoryBinding(p.mac, p.key, p.vm, incs[e][..c], incs[e'][..c], texts);
    if incs[e][..c] == incs[e'][..c] {
      SwitchIncarnation(p, incs, w.accepted, e, e', a, m);
      assert Tracks(p, Next(p, w, Deliver(m)), e', a);
    }
  }

  // Incarnations that agree on the accepted part are interchangeable.
  lemma {:induction false} SwitchIncarnation(p: Party, incs: seq<seq<U64>>, accepted: seq<Message>, e: nat, e': nat, a: nat, m: Message)
    requires Follows(p, incs, accepted, e, a)
    requires e' < |incs| && a + |accepted| + 1 <= |incs[e']|
    requires incs[e][..a + |accepted|] == incs[e'][..a + |accepted|]
    requires m == MessageOf(p.mac, p.key, p.vm, incs[e'][..a + |accepted| + 1])
    ensures Follows(p, incs, accepted + [m], e', a)
  {
    hide MessageOf;
    var c, all := a + |accepted|, accepted + [m];
    forall j | 0 <= j < |all|
      ensures all[j] == MessageOf(p.mac, p.key, p.vm, incs[e'][..a + 1 + j])
    {
      if j < |accepted| {
        assert incs[e][..c][..a + 1 + j] == incs[e][..a + 1 + j];
        assert incs[e'][..c][..a + 1 + j] == incs[e'][..a + 1 + j];
      }
    }
  }

  lemma {:induction false} InvKept(p: Party, w: World, ev: Event)
    requires w.incarnations != [] && Inv(p, w) && !Forges(p, w, ev)
    ensures Inv(p, Next(p, w, ev)) || MacCollides(p.mac, p.key, SignedTexts(p, w.incarnations))
  {
    hide MacCollides, SignedTexts, Judge, GuestAfter, Follows;
    if ev.Deliver? {
      if Accepts(p, w, ev.message) {
        if w.accepted == [] {
          FirstAccept(p, w, ev.message);
        } else {
          var e, a :| Tracks(p, w, e, a);
          LaterAccept(p, w, ev.message, e, a);
        }
      } else if w.accepted != [] {
        var e, a :| Tracks(p, w, e, a);
        assert Tracks(p, Next(p, w, ev), e, a);
      }
    } else if w.accepted != [] {
      var e, a :| Tracks(p, w, e, a);
      NextExtends(p, w, ev);
      FollowsExtends(p, w.incarnations, Next(p, w, ev).incarnations, w.accepted, e, a);
      SameFollower(p, w, ev, e, a);
    }
  }

  lemma {:induction false} SameFollower(p: Party, w: World, ev: Event, e: nat, a: nat)
    requires w.incarnations != [] && !ev.Deliver? && Tracks(p, w, e, a)
    requires Follows(p, Next(p, w, ev).incarnations, w.accepted, e, a)
    requires Next(p, w, ev).incarnations[e][..a + |w.accepted|] == w.incarnations[e][..a + |w.accepted|]
    ensures Tracks(p, Next(p, w, ev), e, a)
  {
    hide MessageOf, GuestAfter;
  }

  lemma {:induction false} RunInv(p: Party, events: seq<Event>)
    requires forall i :: 0 <= i < |events| ==> !Forges(p, Run(p, events[..i]), events[i])
    ensures Inv(p, Run(p, events)) || MacCollides(p.mac, p.key, SignedTexts(p, Run(p, events).incarnations))
  {
    hide Inv, Next, Forges, SignedTexts, MacCollides;
    if events == [] {
      StartInv(p);
    } else {
      var n := |events| - 1;
      var init := events[..n];
      forall i | 0 <= i < |init|
        ensures !Forges(p, Run(p, init[..i]), init[i])
      {
        assert init[..i] == events[..i];
      }
      RunInv(p, init);
      var w, w' := Run(p, init), Run(p, events);
      assert !Forges(p, Run(p, events[..n]), events[n]);
      NextExtends(p, w, events[n]);
      TextsExtend(p, w.incarnations, w'.incarnations);
      CollidesMore(p, SignedTexts(p, w.incarnations), SignedTexts(p, w'.incarnations));
      if Inv(p, w) {
        InvKept(p, w, events[n]);
      }
    }
  }

  lemma {:induction false} StartInv(p: Party)
    ensures Inv(p, START)
  {
  }

  lemma {:induction false} CollidesMore(p: Party, a: set<Bytes>, b: set<Bytes>)
    requires a <= b
    ensures MacCollides(p.mac, p.key, a) ==> MacCollides(p.mac, p.key, b)
  {
  }

  // Over every run in which messages are dropped, repeated, reordered or
  // altered and the signer restarts: what the guest accepts is a contiguous
  // piece of one incarnation's history; or a message was forged, or the MAC
  // collides on texts that were signed.
  lemma {:induction false} RunContiguous(p: Party, events: seq<Event>)
    ensures
      var w := Run(p, events);
      || Contiguous(p, w.incarnations, w.accepted)
      || MacCollides(p.mac, p.key, SignedTexts(p, w.incarnations))
      || exists i :: 0 <= i < |events| && Forges(p, Run(p, events[..i]), events[i])
  {
    hide SignedTexts, MacCollides, Follows, Next, GuestAfter;
    if !exists i :: 0 <= i < |events| && Forges(p, Run(p, events[..i]), events[i]) {
      RunInv(p, events);
      var w := Run(p, events);
      if Inv(p, w) && w.accepted != [] {
        var e, a :| Tracks(p, w, e, a);
        assert Follows(p, w.incarnations, w.accepted, e, a);
      }
    }
  }

  // ---- conservation of accepted energy ------------------------------------------------------

  // Each accepted energy is the one before plus the accepted delta, saturating.
  ghost predicate EnergyAdds(accepted: seq<Message>) {
    forall j :: 0 < j < |accepted| ==> accepted[j].energy == SaturatingAdd(accepted[j - 1].energy, accepted[j].delta)
  }

  function Deltas(ms: seq<Message>): seq<U64> {
    seq(|ms|, i requires 0 <= i < |ms| => ms[i].delta)
  }

  ghost predicate GuestRemembers(w: World) {
    && (w.accepted == [] <==> !w.guest.initialized)
    && (w.accepted != [] ==> w.guest.lastEnergy == w.accepted[|w.accepted| - 1].energy)
    && EnergyAdds(w.accepted)
  }

  // Whatever is delivered, forged or not.
  lemma {:induction false} RunEnergy(p: Party, events: seq<Event>)
    ensures GuestRemembers(Run(p, events))
  {
    hide MessageText;
    if events != [] {
      var n := |events| - 1;
      RunEnergy(p, events[..n]);
      var w, ev := Run(p, events[..n]), events[n];
      if ev.Deliver? && Accepts(p, w, ev.message) {
        var more := w.accepted + [ev.message];
        forall j | 0 < j < |more|
          ensures more[j].energy == SaturatingAdd(more[j - 1].energy, more[j].delta)
        {
          if j < |w.accepted| {
            assert w.accepted[j].energy == SaturatingAdd(w.accepted[j - 1].energy, w.accepted[j].delta);
          }
        }
      }
    }
  }

  lemma {:induction false} AddsUp(accepted: seq<Message>)
    requires accepted != [] && EnergyAdds(accepted)
    ensures
      var total := accepted[0].energy + Sum(Deltas(accepted[1..]));
      accepted[|accepted| - 1].energy == if total <= U64_MAX then total else U64_MAX
    decreases |accepted|
  {
    var n := |accepted| - 1;
    if n > 0 {
      var init := accepted[..n];
      forall j | 0 < j < |init|
        ensures init[j].energy == SaturatingAdd(init[j - 1].energy, init[j].delta)
      {
        assert accepted[j].energy == SaturatingAdd(accepted[j - 1].energy, accepted[j].delta);
      }
      AddsUp(init);
      assert Deltas(accepted[1..])[..n - 1] == Deltas(init[1..]);
      assert Deltas(accepted[1..])[n - 1] == accepted[n].delta;
    } else {
      assert Deltas(accepted[1..]) == [];
    }
  }

  // In every run, the deltas accepted after the first message sum to the change
  // in accepted energy, up to saturation at 2^64 - 1.
  lemma {:induction false} AcceptedEnergyConserved(p: Party, events: seq<Event>)
    requires Run(p, events).accepted != []
    ensures
      var accepted := Run(p, events).accepted;
      var total := accepted[0].energy + Sum(Deltas(accepted[1..]));
      accepted[|accepted| - 1].energy == if total <= U64_MAX then total else U64_MAX
  {
    RunEnergy(p, events);
    AddsUp(Run(p, events).accepted);
  }

  // ---- lossless delivery ------------------------------------------------------------------------

  // The guest recomputes exactly the text that was signed.
  lemma {:induction false} SameText(p: Party, ds: seq<U64>)
    requires ds != []
    ensures MessageText(p.vm, MessageOf(p.mac, p.key, p.vm, ds)) == StepText(p.mac, p.key, p.vm, ds)
    ensures p.mac(p.key, MessageText(p.vm, MessageOf(p.mac, p.key, p.vm, ds))) == StateAfter(p.mac, p.key, p.vm, ds)
  {
    hide ChainText;
  }

  lemma {:induction false} FirstStepAccepted(p: Party, ds: seq<U64>)
    requires ds != []
    ensures Judge(p.mac, p.key, p.vm, NEW_GUEST, MessageOf(p.mac, p.key, p.vm, ds)) == Accept
    ensures Admitted(p.mac, p.key, p.vm, NEW_GUEST, MessageOf(p.mac, p.key, p.vm, ds)) == GuestAfter(p, ds)
  {
    hide ChainText, StepText, MessageText;
    SameText(p, ds);
  }

  lemma {:induction false} NextStepAccepted(p: Party, ds: seq<U64>, d: U64)
    requires ds != []
    ensures
      var g, m := GuestAfter(p, ds), MessageOf(p.mac, p.key, p.vm, ds + [d]);
      Judge(p.mac, p.key, p.vm, g, m) == Accept && Admitted(p.mac, p.key, p.vm, g, m) == GuestAfter(p, ds + [d])
  {
    hide ChainText, StepText, MessageText, StateAfter;
    SameText(p, ds + [d]);
    assert (ds + [d])[..|ds + [d]| - 1] == ds;
  }

  function Signs(ds: seq<U64>): seq<Event> {
    if ds == [] then [] else Signs(ds[..|ds| - 1]) + [Sign(ds[|ds| - 1])]
  }

  // The first a steps are signed unseen; each of the steps up to b is delivered
  // as soon as it is signed.
  function Lossless(p: Party, ds: seq<U64>, a: nat, b: nat): seq<Event>
    requires a <= b <= |ds|
    decreases b
  {
    if a == b then Signs(ds[..a])
    else Lossless(p, ds, a, b - 1) + [Sign(ds[b - 1])] + [Deliver(MessageOf(p.mac, p.key, p.vm, ds[..b]))]
  }

  // The messages of steps a+1 .. b.
  function Messages(p: Party, ds: seq<U64>, a: nat, b: nat): seq<Message>
    requires a <= b <= |ds|
    decreases b
  {
    if a == b then [] else Messages(p, ds, a, b - 1) + [MessageOf(p.mac, p.key, p.vm, ds[..b])]
  }

  lemma {:induction false} RunStep(p: Party, events: seq<Event>, ev: Event)
    ensures Run(p, events + [ev]) == Next(p, Run(p, events), ev)
  {
    hide Next;
    assert (events + [ev])[..|events|] == events;
  }

  lemma {:induction false} SignedUnseen(p: Party, ds: seq<U64>)
    ensures Run(p, Signs(ds)) == World([ds], NEW_GUEST, [])
  {
    if ds != [] {
      var n := |ds| - 1;
      SignedUnseen(p, ds[..n]);
      RunStep(p, Signs(ds[..n]), Sign(ds[n]));
      assert ds == ds[..n] + [ds[n]];
    }
  }

  // Delivered without loss from any starting point, every step is accepted, in
  // order; the signer's sum may saturate, because the guest's saturates alike.
  lemma {:induction false} LosslessAccepted(p: Party, ds: seq<U64>, a: nat, b: nat)
    requires a <= b <= |ds|
    ensures Run(p, Lossless(p, ds, a, b)) ==
            World([ds[..b]], if a == b then NEW_GUEST else GuestAfter(p, ds[..b]), Messages(p, ds, a, b))
    decreases b
  {
    hide Judge, Admitted, MessageOf, GuestAfter, Run;
    if a == b {
      SignedUnseen(p, ds[..a]);
    } else {
      LosslessAccepted(p, ds, a, b - 1);
      var before, m := Lossless(p, ds, a, b - 1), MessageOf(p.mac, p.key, p.vm, ds[..b]);
      RunStep(p, before, Sign(ds[b - 1]));
      RunStep(p, before + [Sign(ds[b - 1])], Deliver(m));
      assert ds[..b] == ds[..b - 1] + [ds[b - 1]];
      if a == b - 1 {
        FirstStepAccepted(p, ds[..b]);
      } else {
        NextStepAccepted(p, ds[..b - 1], ds[b - 1]);
      }
    }
  }
}
