// `handle_gpu_db_export`: baselines per device, attribution of every delta, and
// conservation over all runs of requests.

module GpuExport {
  import opened Bytes
  import opened Codec
  import opened Text
  import opened Attribution

  datatype Proc = Proc(pid: U32, util: U64)
  datatype Tag = Tag(energy: U64, timestamp: U64, hash: U64)
  datatype Gpu = Gpu(index: U32, uuid: Bytes, energy: U64, procs: seq<Proc>, tag: Option<Tag>)

  // `bindingOk` and `tagEnforced` stand for the registry lookups.
  datatype Request = Request(
    nodeId: Bytes, gpus: seq<Gpu>, tagKey: Option<(U64, U64)>, tagEpoch: U32, bindingOk: bool, tagEnforced: bool)

  // The tag the enclave recomputes (see `SipTag`), from the request's key and
  // epoch, the device index, and the energy and time the tag claims.
  type Tagger = ((U64, U64), U32, U32, U64, U64) -> U64

  // ---- admission of readings ---------------------------------------------------------------

  predicate DuplicateIndex(gpus: seq<Gpu>) {
    exists i, j :: 0 <= i < j < |gpus| && gpus[i].index == gpus[j].index
  }

  // The status a reading is rejected with; 0 if it is admitted.
  function ReadingStatus(tagger: Tagger, r: Request, g: Gpu): int {
    match g.tag
    case Some(t) =>
      (match r.tagKey
       case None => -127
       case Some(key) =>
         if t.hash != tagger(key, r.tagEpoch, g.index, t.energy, t.timestamp) || t.energy != g.energy then -102 else 0)
    case None => if r.tagEnforced then -105 else 0
  }

  // Checks made before any reading is looked at.
  function RequestStatus(r: Request): int {
    if !ValidTenantLabel(r.nodeId) then -102
    else if DuplicateIndex(r.gpus) then -103
    else if !r.bindingOk then -13
    else 0
  }

  // How many readings of the list reach the baseline step.
  function Admitted(tagger: Tagger, r: Request, gpus: seq<Gpu>): (n: nat)
    ensures n <= |gpus|
  {
    if gpus == [] || ReadingStatus(tagger, r, gpus[0]) != 0 then 0
    else 1 + Admitted(tagger, r, gpus[1..])
  }

  function Reaching(tagger: Tagger, r: Request): seq<Gpu> {
    if RequestStatus(r) != 0 then [] else r.gpus[..Admitted(tagger, r, r.gpus)]
  }

  // The evidence a charged reading carries.
  predicate Evident(tagger: Tagger, r: Request, g: Gpu) {
    match g.tag
    case None => !r.tagEnforced
    case Some(t) =>
      && r.tagKey.Some? && t.energy == g.energy
      && t.hash == tagger(r.tagKey.value, r.tagEpoch, g.index, t.energy, t.timestamp)
  }

  // Exactly the readings before the first one without evidence are charged, and
  // that one is answered by what is wrong with it.
  lemma {:induction false} AdmittedExact(tagger: Tagger, r: Request, gpus: seq<Gpu>)
    ensures
      var n := Admitted(tagger, r, gpus);
      && (forall i :: 0 <= i < n ==> Evident(tagger, r, gpus[i]))
      && (n < |gpus| ==>
            var g := gpus[n];
            && !Evident(tagger, r, g)
            && ReadingStatus(tagger, r, g) ==
                 if g.tag.None? then -105 else if r.tagKey.None? then -127 else -102)
  {
    if gpus != [] && ReadingStatus(tagger, r, gpus[0]) == 0 {
      AdmittedExact(tagger, r, gpus[1..]);
    }
  }

  // A request is looked into exactly when its node has a valid label, no device
  // index occurs twice, and the binding holds.
  lemma {:induction false} RequestExact(r: Request)
    ensures RequestStatus(r) == 0 <==>
      && ValidTenantLabel(r.nodeId) && r.bindingOk
      && forall i, j :: 0 <= i < j < |r.gpus| ==> r.gpus[i].index != r.gpus[j].index
    ensures RequestStatus(r) in {0, -102, -103, -13}
    ensures RequestStatus(r) == -102 <==> !ValidTenantLabel(r.nodeId)
    ensures RequestStatus(r) == -103 ==>
      exists i, j :: 0 <= i < j < |r.gpus| && r.gpus[i].index == r.gpus[j].index
  {
    hide ValidTenantLabel;
  }

  // ---- one reading ------------------------------------------------------------------------------

  const MAX_UJ_PER_CYCLE: nat := 400 * 10 * 1_000_000

  // ":idx"
  const IDX: Bytes := [0x3A, 0x69, 0x64, 0x78]

  predicate CharStart(b: Byte) {
    !(0x80 <= b <= 0xBF)
  }

  // The first n characters of UTF-8 text.
  function TakeChars(s: Bytes, n: nat): Bytes
    decreases |s|
  {
    if s == [] || (n == 0 && CharStart(s[0])) then []
    else [s[0]] + TakeChars(s[1..], if CharStart(s[0]) then n - 1 else n)
  }

  function StateKey(nodeId: Bytes, g: Gpu): Bytes {
    nodeId + IDX + Dec(g.index) + [0x3A] + TakeChars(g.uuid, 48)
  }

  // Two devices share a baseline only if node, index and shortened UUID agree.
  lemma {:induction false} StateKeyExact(m: Bytes, g: Gpu, n: Bytes, k: Gpu)
    requires ValidTenantLabel(m) && ValidTenantLabel(n)
    ensures StateKey(m, g) == StateKey(n, k) <==>
      m == n && g.index == k.index && TakeChars(g.uuid, 48) == TakeChars(k.uuid, 48)
  {
    hide TakeChars, Dec, ValidTenantLabel;
    if StateKey(m, g) == StateKey(n, k) {
      var u, v := TakeChars(g.uuid, 48), TakeChars(k.uuid, 48);
      var x, y := Dec(g.index) + [COLON] + u, Dec(k.index) + [COLON] + v;
      LabelHasNoColon(m);
      LabelHasNoColon(n);
      assert StateKey(m, g) == m + [COLON] + (IDX[1..] + x);
      assert StateKey(n, k) == n + [COLON] + (IDX[1..] + y);
      SplitAtFirst(m, IDX[1..] + x, n, IDX[1..] + y, COLON);
      ConcatSplit(IDX[1..], x, IDX[1..], y);
      assert COLON !in Dec(g.index) && COLON !in Dec(k.index) by { assert !IsDigit(COLON); }
      SplitAtFirst(Dec(g.index), u, Dec(k.index), v, COLON);
      DecInjective(g.index, k.index);
    }
  }

  lemma {:induction false} LabelHasNoColon(t: Bytes)
    requires ValidTenantLabel(t)
    ensures COLON !in t
  {
    assert !SafeLabelByte(COLON);
  }

  function CharCount(s: Bytes): nat {
    if s == [] then 0 else (if CharStart(s[0]) then 1 else 0) + CharCount(s[1..])
  }

  // The longest front of at most n characters.
  lemma {:induction false} TakeCharsExact(s: Bytes, n: nat)
    ensures
      var t := TakeChars(s, n);
      t <= s && CharCount(t) <= n && (t == s || (CharCount(t) == n && CharStart(s[|t|])))
    decreases |s|
  {
    if s != [] && !(n == 0 && CharStart(s[0])) {
      var rest := TakeChars(s[1..], if CharStart(s[0]) then n - 1 else n);
      TakeCharsExact(s[1..], if CharStart(s[0]) then n - 1 else n);
      assert ([s[0]] + rest)[1..] == rest;
    }
  }

  datatype Ledger = Ledger(baselines: map<Bytes, U64>, records: seq<Share>)

  function Delta(baselines: map<Bytes, U64>, key: Bytes, energy: U64): U64 {
    if key in baselines && energy >= baselines[key] then energy - baselines[key] else 0
  }

  function NewBaseline(baselines: map<Bytes, U64>, key: Bytes, energy: U64): U64 {
    if key in baselines && baselines[key] > energy then baselines[key] else energy
  }

  function Min(a: nat, b: nat): nat {
    if a < b then a else b
  }

  // The processes that can be charged.
  function Active(procs: seq<Proc>): seq<Proc> {
    if procs == [] then []
    else
      var p := procs[|procs| - 1];
      Active(procs[..|procs| - 1]) + (if p.util == 0 then [] else [Proc(p.pid, Min(p.util, 100))])
  }

  // Each process by itself: dropped when it was idle, capped at 100 otherwise.
  lemma {:induction false} ActiveExact(a: seq<Proc>, b: seq<Proc>, p: Proc)
    ensures Active(a + b) == Active(a) + Active(b)
    ensures Active([p]) ==
      if p.util == 0 then [] else if p.util <= 100 then [p] else [Proc(p.pid, 100)]
    decreases |b|
  {
    assert [p][..0] == [];
    if b == [] {
      assert a + b == a && Active(a) + [] == Active(a);
    } else {
      var n := |b| - 1;
      ActiveExact(a, b[..n], p);
      assert (a + b)[..|a + b| - 1] == a + b[..n];
      var last := if b[n].util == 0 then [] else [Proc(b[n].pid, Min(b[n].util, 100))];
      assert Active(a) + (Active(b[..n]) + last) == (Active(a) + Active(b[..n])) + last;
    }
  }

  // Energy beyond one cycle's worth, or with nobody active, goes to one
  // unattributed or idle row.
  function GpuBuckets(delta: U64, procs: seq<Proc>): seq<Proc> {
    var active := if delta <= MAX_UJ_PER_CYCLE then Active(procs) else [];
    if Total(Utils(active)) == 0 then active + [Proc(0, 1)] else active
  }

  function Utils(ps: seq<Proc>): (r: seq<nat>) {
    seq(|ps|, i requires 0 <= i < |ps| => ps[i].util)
  }

  function ProcPids(ps: seq<Proc>): (r: seq<U32>)
    ensures |r| == |ps|
  {
    seq(|ps|, i requires 0 <= i < |ps| => ps[i].pid)
  }

  lemma {:induction false} BucketsCarryWeight(delta: U64, procs: seq<Proc>)
    ensures Total(Utils(GpuBuckets(delta, procs))) > 0
  {
    hide Active;
    var active := if delta <= MAX_UJ_PER_CYCLE then Active(procs) else [];
    if Total(Utils(active)) == 0 {
      var all := Utils(active + [Proc(0, 1)]);
      assert all[|active|] == 1;
      assert all[..|active|] == Utils(active);
    }
  }

  function RowsFor(delta: U64, procs: seq<Proc>): seq<Share> {
    if delta == 0 then []
    else
      var buckets := GpuBuckets(delta, procs);
      BucketsCarryWeight(delta, procs);
      Entries(ProcPids(buckets), Shares(delta, Utils(buckets)))
  }

  function Charge(l: Ledger, nodeId: Bytes, g: Gpu): Ledger {
    var key := StateKey(nodeId, g);
    Ledger(l.baselines[key := NewBaseline(l.baselines, key, g.energy)],
           l.records + RowsFor(Delta(l.baselines, key, g.energy), g.procs))
  }

  function ChargeAll(l: Ledger, nodeId: Bytes, gpus: seq<Gpu>): Ledger {
    if gpus == [] then l
    else Charge(ChargeAll(l, nodeId, gpus[..|gpus| - 1]), nodeId, gpus[|gpus| - 1])
  }

  // ---- the handler --------------------------------------------------------------------------------

  class GpuEnclave {
    var gpuEnergyState: map<Bytes, U64>
    var accumulatedRecords: seq<Share>

    function View(): Ledger
      reads this
    {
      Ledger(gpuEnergyState, accumulatedRecords)
    }

    constructor ()
      ensures View() == Ledger(map[], [])
    {
      gpuEnergyState, accumulatedRecords := map[], [];
    }

    // Baseline update and attribution of one admitted reading.
    method ChargeReading(nodeId: Bytes, g: Gpu)
      modifies this
      ensures View() == Charge(old(View()), nodeId, g)
    {
      hide StateKey, GpuBuckets, Shares, Entries;
      var key := StateKey(nodeId, g);
      var delta := 0;
      var baseline := g.energy;
      if key in gpuEnergyState {
        var last := gpuEnergyState[key];
        if g.energy >= last {
          delta := g.energy - last;
        } else {
          baseline := last;
        }
      }
      gpuEnergyState := gpuEnergyState[key := baseline];
      if delta == 0 {
        assert accumulatedRecords + [] == accumulatedRecords;
        return;
      }
      var buckets := BuildBuckets(delta, g.procs);
      BucketsCarryWeight(delta, g.procs);
      var shares := AttributeByWeight(delta, Utils(buckets));
      var rows := BuildRows(buckets, shares.value);
      accumulatedRecords := accumulatedRecords + rows;
    }

    // `handle_gpu_db_export` up to the signing of the node chain.
    method HandleExport(tagger: Tagger, r: Request) returns (status: int)
      modifies this
      ensures View() == ChargeAll(old(View()), r.nodeId, Reaching(tagger, r))
      ensures status == 0 <==> RequestStatus(r) == 0 && Reaching(tagger, r) == r.gpus
      ensures RequestStatus(r) != 0 ==> status == RequestStatus(r)
      ensures RequestStatus(r) == 0 && Reaching(tagger, r) != r.gpus ==>
        |Reaching(tagger, r)| < |r.gpus| && status == ReadingStatus(tagger, r, r.gpus[|Reaching(tagger, r)|])
    {
      hide Charge, ReadingStatus, RequestStatus;
      status := RequestStatus(r);
      if status != 0 {
        return;
      }
      ghost var n := Admitted(tagger, r, r.gpus);
      for i := 0 to |r.gpus|
        invariant View() == ChargeAll(old(View()), r.nodeId, r.gpus[..i])
        invariant n == i + Admitted(tagger, r, r.gpus[i..])
      {
        var g := r.gpus[i];
        assert r.gpus[i..][0] == g && r.gpus[i..][1..] == r.gpus[i + 1..];
        status := ReadingStatus(tagger, r, g);
        if status != 0 {
          return;
        }
        assert r.gpus[..i + 1][..i] == r.gpus[..i];
        ChargeReading(r.nodeId, g);
      }
      assert r.gpus[..|r.gpus|] == r.gpus;
      status := 0;
    }
  }

  method BuildBuckets(delta: U64, procs: seq<Proc>) returns (buckets: seq<Proc>)
    ensures buckets == GpuBuckets(delta, procs)
  {
    buckets := [];
    var bracketed := delta <= MAX_UJ_PER_CYCLE;
    if bracketed {
      for i := 0 to |procs|
        invariant buckets == Active(procs[..i])
      {
        assert procs[..i + 1][..i] == procs[..i];
        var p := procs[i];
        if p.util != 0 {
          buckets := buckets + [Proc(p.pid, Min(p.util, 100))];
        }
      }
      assert procs[..|procs|] == procs;
    }
    var totalUtil := SumLoop(Utils(buckets));
    if totalUtil == 0 {
      buckets := buckets + [Proc(0, 1)];
    }
  }

  method BuildRows(ps: seq<Proc>, shares: seq<nat>) returns (rows: seq<Share>)
    requires |ps| == |shares|
    ensures rows == Entries(ProcPids(ps), shares)
  {
    hide Entries;
    rows := [];
    EntriesNone(ProcPids(ps), shares);
    for i := 0 to |ps|
      invariant rows == Entries(ProcPids(ps)[..i], shares[..i])
    {
      EntriesStep(ProcPids(ps), shares, i);
      if shares[i] != 0 {
        rows := rows + [Share(ps[i].pid, shares[i])];
      }
    }
    assert ProcPids(ps)[..|ps|] == ProcPids(ps) && shares[..|ps|] == shares;
  }
}
