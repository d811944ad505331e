// The energy chain: the host enclave signs per-VM steps, the guest enclave
// admits or rejects them.

module EnergyChain {
  import opened Bytes
  import opened Codec
  import opened Text
  import opened Checkpoint

  // ---- the signed text -------------------------------------------------------------

  // counter|vm|cumulative|delta|hex(prev)
  function ChainText(counter: nat, vm: Bytes, cumulative: nat, delta: nat, prev: Digest): Bytes {
    Dec(counter) + [PIPE] + (vm + [PIPE] + Dec(cumulative) + [PIPE] + Dec(delta) + [PIPE] + HexEncode(prev))
  }

  // The text determines all five fields, also for names that contain the separator.
  lemma {:induction false} ChainTextInjective(
      c1: nat, v1: Bytes, e1: nat, d1: nat, p1: Digest, c2: nat, v2: Bytes, e2: nat, d2: nat, p2: Digest)
    requires ChainText(c1, v1, e1, d1, p1) == ChainText(c2, v2, e2, d2, p2)
    ensures c1 == c2 && v1 == v2 && e1 == e2 && d1 == d2 && p1 == p2
  {
    hide Dec, HexEncode;
    var y1, y2 := v1 + [PIPE] + Dec(e1), v2 + [PIPE] + Dec(e2);
    var x1, x2 := y1 + [PIPE] + Dec(d1), y2 + [PIPE] + Dec(d2);
    DecHasNoPipe(c1);
    DecHasNoPipe(c2);
    SplitAtFirst(Dec(c1), x1 + [PIPE] + HexEncode(p1), Dec(c2), x2 + [PIPE] + HexEncode(p2), PIPE);
    HexHasNoPipe(HexEncode(p1));
    HexHasNoPipe(HexEncode(p2));
    SplitAtLast(x1, HexEncode(p1), x2, HexEncode(p2), PIPE);
    DecHasNoPipe(d1);
    DecHasNoPipe(d2);
    SplitAtLast(y1, Dec(d1), y2, Dec(d2), PIPE);
    DecHasNoPipe(e1);
    DecHasNoPipe(e2);
    SplitAtLast(v1, Dec(e1), v2, Dec(e2), PIPE);
    DecInjective(c1, c2);
    DecInjective(d1, d2);
    DecInjective(e1, e2);
    HexInjective(p1, p2);
  }

  // One text spelled out: "12|a|34|5|", then the previous hash.
  lemma {:induction false} ChainTextExample(prev: Digest)
    ensures ChainText(12, [0x61], 34, 5, prev) ==
      [0x31, 0x32, 0x7C, 0x61, 0x7C, 0x33, 0x34, 0x7C, 0x35, 0x7C] + HexEncode(prev)
    ensures prev == ZERO_DIGEST ==> forall i :: 0 <= i < 64 ==> HexEncode(prev)[i] == 0x30
  {
    hide Dec, HexEncode;
    SmallNumbers();
    var hex := HexEncode(prev);
    assert [0x61] + [PIPE] + [0x33, 0x34] + [PIPE] + [0x35] + [PIPE] + hex ==
           [0x61, 0x7C, 0x33, 0x34, 0x7C, 0x35, 0x7C] + hex;
    if prev == ZERO_DIGEST {
      HexOfZeros(prev);
    }
  }

  lemma {:induction false} SmallNumbers()
    ensures Dec(5) == [0x35] && Dec(12) == [0x31, 0x32] && Dec(34) == [0x33, 0x34]
  {
    assert Dec(1) == [0x31] && Dec(3) == [0x33];
    assert Dec(12) == Dec(1) + [0x32] && Dec(34) == Dec(3) + [0x34];
  }

  lemma {:induction false} HexOfZeros(s: Bytes)
    requires forall i :: 0 <= i < |s| ==> s[i] == 0
    ensures forall i :: 0 <= i < |HexEncode(s)| ==> HexEncode(s)[i] == 0x30
  {
    if s != [] {
      HexOfZeros(s[1..]);
    }
  }

  // ---- the signer -------------------------------------------------------------------

  datatype VmChain = VmChain(counter: nat, state: Digest, cumulative: U64)

  const NEW_CHAIN := VmChain(0, ZERO_DIGEST, 0)

  datatype Update = Update(vm: Bytes, delta: U64)

  // What leaves the host enclave for one step.
  datatype SignedUpdate = SignedUpdate(vm: Bytes, delta: U64, counter: nat, prev: Digest, signature: Digest)

  function VmKey(mac: Mac, master: Digest, vm: Bytes): Digest {
    mac(master, VM_LABEL + vm)
  }

  function SignStep(mac: Mac, key: Digest, vm: Bytes, s: VmChain, delta: U64): (VmChain, SignedUpdate) {
    var counter, cumulative := s.counter + 1, SaturatingAdd(s.cumulative, delta);
    var sig := mac(key, ChainText(counter, vm, cumulative, delta, s.state));
    (VmChain(counter, sig, cumulative), SignedUpdate(vm, delta, counter, s.state, sig))
  }

  type Chains = map<Bytes, VmChain>

  function ChainOf(chains: Chains, vm: Bytes): VmChain {
    if vm in chains then chains[vm] else NEW_CHAIN
  }

  function SignAll(mac: Mac, master: Digest, chains: Chains, updates: seq<Update>): (Chains, seq<SignedUpdate>) {
    if updates == [] then (chains, [])
    else
      var (before, out) := SignAll(mac, master, chains, updates[..|updates| - 1]);
      var u := updates[|updates| - 1];
      var (s, signed) := SignStep(mac, VmKey(mac, master, u.vm), u.vm, ChainOf(before, u.vm), u.delta);
      (before[u.vm := s], out + [signed])
  }

  class HostEnclave {
    var vmChains: Chains

    constructor ()
      ensures vmChains == map[]
    {
      vmChains := map[];
    }

    // The signing loop of `ecall_compute_vm_energy_simple` and `..._cgroup`.
    method SignUpdates(mac: Mac, master: Digest, updates: seq<Update>) returns (signed: seq<SignedUpdate>)
      modifies this
      ensures (vmChains, signed) == SignAll(mac, master, old(vmChains), updates)
    {
      hide ChainText;
      signed := [];
      for i := 0 to |updates|
        invariant (vmChains, signed) == SignAll(mac, master, old(vmChains), updates[..i])
      {
        var u := updates[i];
        assert updates[..i + 1][..i] == updates[..i];
        var entry := if u.vm in vmChains then vmChains[u.vm] else NEW_CHAIN;
        var counter := entry.counter + 1;
        var cumulative := SaturatingAdd(entry.cumulative, u.delta);
        var text := ChainText(counter, u.vm, cumulative, u.delta, entry.state);
        var signature := mac(VmKey(mac, master, u.vm), text);
        vmChains := vmChains[u.vm := VmChain(counter, signature, cumulative)];
        signed := signed + [SignedUpdate(u.vm, u.delta, counter, entry.state, signature)];
      }
      assert updates[..|updates|] == updates;
    }

    // A restart, or `ecall_initialize_sealed_key`, forgets every chain.
    method Restart()
      modifies this
      ensures vmChains == map[]
    {
      vmChains := map[];
    }
  }

  // ---- the verifier -----------------------------------------------------------------

  datatype Guest = Guest(initialized: bool, counter: nat, lastEnergy: U64, lastSignature: Digest)

  const NEW_GUEST := Guest(false, 0, 0, ZERO_DIGEST)

  datatype Message = Message(energy: U64, delta: U64, counter: nat, prev: Digest, signature: Digest)

  datatype Denial =
    | MacMismatch | EnergyChangedUnderSameCounter | CounterRollback
    | CounterDiscontinuity | CumulativeEnergyMismatch | PrevHashMismatch

  datatype Verdict = Accept | IdempotentSkip | Reject(denial: Denial)

  // `admit_chain_step`.
  function AdmitChainStep(macOk: bool, prevOk: bool, g: Guest, m: Message): Verdict {
    if !macOk then Reject(MacMismatch)
    else if !g.initialized then Accept
    else if m.counter == g.counter then
      if m.energy != g.lastEnergy then Reject(EnergyChangedUnderSameCounter) else IdempotentSkip
    else if m.counter < g.counter then Reject(CounterRollback)
    else if m.counter != g.counter + 1 then Reject(CounterDiscontinuity)
    else if m.energy != SaturatingAdd(g.lastEnergy, m.delta) then Reject(CumulativeEnergyMismatch)
    else if !prevOk then Reject(PrevHashMismatch)
    else Accept
  }

  function DenialCode(d: Denial): int {
    match d
    case MacMismatch => -2
    case EnergyChangedUnderSameCounter => -2
    case CumulativeEnergyMismatch => -2
    case CounterRollback => -3
    case CounterDiscontinuity => -3
    case PrevHashMismatch => -4
  }

  function MessageText(vm: Bytes, m: Message): Bytes {
    ChainText(m.counter, vm, m.energy, m.delta, m.prev)
  }

  function Judge(mac: Mac, key: Digest, vm: Bytes, g: Guest, m: Message): Verdict {
    AdmitChainStep(mac(key, MessageText(vm, m)) == m.signature,
                   !g.initialized || m.prev == g.lastSignature, g, m)
  }

  function Admitted(mac: Mac, key: Digest, vm: Bytes, g: Guest, m: Message): Guest {
    if Judge(mac, key, vm, g, m).Accept? then Guest(true, m.counter, m.energy, mac(key, MessageText(vm, m))) else g
  }

  function ResultCode(g: Guest, v: Verdict): int {
    match v
    case Accept => if g.initialized then 0 else 1
    case IdempotentSkip => 2
    case Reject(d) => DenialCode(d)
  }

  // Every result code and when it is given.
  lemma {:induction false} ResultExact(mac: Mac, key: Digest, vm: Bytes, g: Guest, m: Message)
    ensures
      var genuine := mac(key, ChainText(m.counter, vm, m.energy, m.delta, m.prev)) == m.signature;
      var sum := g.lastEnergy + m.delta;
      var adds := m.energy == (if sum <= U64_MAX then sum else U64_MAX);
      var code := ResultCode(g, Judge(mac, key, vm, g, m));
      && (code == 1 <==> genuine && !g.initialized)
      && (code == 0 <==> genuine && g.initialized && m.counter == g.counter + 1 && adds && m.prev == g.lastSignature)
      && (code == 2 <==> genuine && g.initialized && m.counter == g.counter && m.energy == g.lastEnergy)
      && (code == -2 <==>
            || !genuine
            || (g.initialized && m.counter == g.counter && m.energy != g.lastEnergy)
            || (g.initialized && m.counter == g.counter + 1 && !adds))
      && (code == -3 <==> genuine && g.initialized && m.counter != g.counter && m.counter != g.counter + 1)
      && (code == -4 <==>
            genuine && g.initialized && m.counter == g.counter + 1 && adds && m.prev != g.lastSignature)
  {
    hide ChainText;
  }

  // A step that has been admitted is skipped when it comes again, and refused
  // when it comes again with another energy, whoever signed that.
  lemma {:induction false} RepeatSkipped(mac: Mac, key: Digest, vm: Bytes, g: Guest, m: Message, e: U64, signature: Digest)
    requires Judge(mac, key, vm, g, m) == Accept && e != m.energy
    ensures
      var g' := Admitted(mac, key, vm, g, m);
      && ResultCode(g', Judge(mac, key, vm, g', m)) == 2 && Admitted(mac, key, vm, g', m) == g'
      && ResultCode(g', Judge(mac, key, vm, g', m.(energy := e, signature := signature))) == -2
      && Admitted(mac, key, vm, g', m.(energy := e, signature := signature)) == g'
  {
    hide ChainText;
  }

  type Guests = map<Bytes, Guest>

  function GuestOf(guests: Guests, vm: Bytes): Guest {
    if vm in guests then guests[vm] else NEW_GUEST
  }

  class GuestEnclave {
    var vmChainStates: Guests

    constructor ()
      ensures vmChainStates == map[]
    {
      vmChainStates := map[];
    }

    // `ecall_verify_energy_chain`.
    method VerifyEnergyChain(mac: Mac, master: Digest, vm: Bytes, m: Message) returns (code: int)
      modifies this
      ensures code == ResultCode(GuestOf(old(vmChainStates), vm), Judge(mac, VmKey(mac, master, vm), vm, GuestOf(old(vmChainStates), vm), m))
      ensures vmChainStates == old(vmChainStates)[vm := Admitted(mac, VmKey(mac, master, vm), vm, GuestOf(old(vmChainStates), vm), m)]
      ensures code in {0, 1} <==> Judge(mac, VmKey(mac, master, vm), vm, GuestOf(old(vmChainStates), vm), m) == Accept
    {
      hide ChainText;
      var key := VmKey(mac, master, vm);
      var expected := mac(key, ChainText(m.counter, vm, m.energy, m.delta, m.prev));
      var macOk := expected == m.signature;
      if vm !in vmChainStates {
        vmChainStates := vmChainStates[vm := NEW_GUEST];
      }
      var state := vmChainStates[vm];
      var prevOk := !state.initialized || m.prev == state.lastSignature;
      var verdict := AdmitChainStep(macOk, prevOk, state, m);
      match verdict {
        case Accept =>
          vmChainStates := vmChainStates[vm := Guest(true, m.counter, m.energy, expected)];
          code := if state.initialized then 0 else 1;
        case IdempotentSkip =>
          code := 2;
        case Reject(d) =>
          code := DenialCode(d);
      }
    }
  }

  // ---- histories -----------------------------------------------------------------------

  function Sum(ds: seq<U64>): nat {
    if ds == [] then 0 else Sum(ds[..|ds| - 1]) + ds[|ds| - 1]
  }

  // The cumulative energy after a history of deltas.
  function SatSum(ds: seq<U64>): U64 {
    if ds == [] then 0 else SaturatingAdd(SatSum(ds[..|ds| - 1]), ds[|ds| - 1])
  }

  lemma {:induction false} SatSumIsMin(ds: seq<U64>)
    ensures SatSum(ds) == if Sum(ds) <= U64_MAX then Sum(ds) else U64_MAX
  {
    if ds != [] {
      SatSumIsMin(ds[..|ds| - 1]);
    }
  }

  // The chain state one signer incarnation holds after signing `ds` for a VM.
  function StateAfter(mac: Mac, key: Digest, vm: Bytes, ds: seq<U64>): Digest
    decreases |ds|, 1
  {
    if ds == [] then ZERO_DIGEST else mac(key, StepText(mac, key, vm, ds))
  }

  // The text signed for the last step of `ds`.
  function StepText(mac: Mac, key: Digest, vm: Bytes, ds: seq<U64>): Bytes
    requires ds != []
    decreases |ds|, 0
  {
    var n := |ds| - 1;
    ChainText(|ds|, vm, SatSum(ds), ds[n], StateAfter(mac, key, vm, ds[..n]))
  }

  // The message that carries the last step of `ds`.
  function MessageOf(mac: Mac, key: Digest, vm: Bytes, ds: seq<U64>): Message
    requires ds != []
  {
    var n := |ds| - 1;
    Message(SatSum(ds), ds[n], |ds|, StateAfter(mac, key, vm, ds[..n]), StateAfter(mac, key, vm, ds))
  }

  function ChainAfter(mac: Mac, key: Digest, vm: Bytes, ds: seq<U64>): VmChain {
    VmChain(|ds|, StateAfter(mac, key, vm, ds), SatSum(ds))
  }

  // The signing loop follows exactly this history.
  lemma {:induction false} SignStepExtends(mac: Mac, key: Digest, vm: Bytes, ds: seq<U64>, delta: U64)
    ensures
      var (s, u) := SignStep(mac, key, vm, ChainAfter(mac, key, vm, ds), delta);
      var m := MessageOf(mac, key, vm, ds + [delta]);
      && s == ChainAfter(mac, key, vm, ds + [delta])
      && u == SignedUpdate(vm, delta, m.counter, m.prev, m.signature)
  {
    hide ChainText;
    var more := ds + [delta];
    assert more[..|more| - 1] == ds && more[|more| - 1] == delta;
    assert StepText(mac, key, vm, more) == ChainText(|more|, vm, SatSum(more), delta, StateAfter(mac, key, vm, ds));
  }

  // ---- histories are bound by their signatures -----------------------------------------

  // Two different members of `texts` have the same MAC under this key.
  ghost predicate MacCollides(mac: Mac, key: Digest, texts: set<Bytes>) {
    exists x, y :: x in texts && y in texts && x != y && mac(key, x) == mac(key, y)
  }

  // Every VM has a key of its own.
  lemma {:induction false} KeysSeparate(mac: Mac, master: Digest, a: Bytes, b: Bytes)
    requires a != b && VmKey(mac, master, a) == VmKey(mac, master, b)
    ensures MacCollides(mac, master, {[0x76, 0x6D, 0x3A] + a, [0x76, 0x6D, 0x3A] + b})
  {
    var x: Bytes, y: Bytes := [0x76, 0x6D, 0x3A] + a, [0x76, 0x6D, 0x3A] + b;
    assert x[3..] == a && y[3..] == b;
    assert x in {x, y} && y in {x, y} && mac(master, x) == mac(master, y);
  }

  // All texts signed along a history.
  function HistoryTexts(mac: Mac, key: Digest, vm: Bytes, ds: seq<U64>): set<Bytes> {
    if ds == [] then {} else HistoryTexts(mac, key, vm, ds[..|ds| - 1]) + {StepText(mac, key, vm, ds)}
  }

  // Equal signatures at the same position bind the whole history before them.
  lemma {:induction false} HistoryBinding(mac: Mac, key: Digest, vm: Bytes, p: seq<U64>, q: seq<U64>, texts: set<Bytes>)
    requires |p| == |q| && StateAfter(mac, key, vm, p) == StateAfter(mac, key, vm, q)
    requires HistoryTexts(mac, key, vm, p) <= texts && HistoryTexts(mac, key, vm, q) <= texts
    ensures p == q || MacCollides(mac, key, texts)
    decreases |p|
  {
    hide ChainText;
    if p != [] {
      var n := |p| - 1;
      var x, y := StepText(mac, key, vm, p), StepText(mac, key, vm, q);
      if x == y {
        ChainTextInjective(|p|, vm, SatSum(p), p[n], StateAfter(mac, key, vm, p[..n]),
                           |q|, vm, SatSum(q), q[n], StateAfter(mac, key, vm, q[..n]));
        HistoryBinding(mac, key, vm, p[..n], q[..n], texts);
        assert p == p[..n] + [p[n]] && q == q[..n] + [q[n]];
      } else {
        assert x in texts && y in texts && mac(key, x) == mac(key, y);
      }
    }
  }
}
