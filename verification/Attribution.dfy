// Splitting an energy amount by weight without losing a microjoule.

module Attribution {
  import opened Bytes

  function Total(s: seq<nat>): nat {
    if s == [] then 0 else Total(s[..|s| - 1]) + s[|s| - 1]
  }

  function Floor(total: nat, w: nat, all: nat): nat
    requires all > 0
  {
    (total * w) / all
  }

  function Floors(total: nat, ws: seq<nat>, all: nat): (r: seq<nat>)
    requires all > 0
    ensures |r| == |ws|
  {
    seq(|ws|, i requires 0 <= i < |ws| => Floor(total, ws[i], all))
  }

  // The last index of the greatest weight.
  function Heaviest(ws: seq<nat>): (k: nat)
    requires ws != []
    ensures k < |ws|
    ensures forall i :: 0 <= i < |ws| ==> ws[i] <= ws[k]
    ensures forall i :: k < i < |ws| ==> ws[i] < ws[k]
  {
    if |ws| == 1 then 0
    else
      var n := |ws| - 1;
      var k := Heaviest(ws[..n]);
      assert forall i :: 0 <= i < n ==> ws[..n][i] == ws[i];
      if ws[n] >= ws[k] then n else k
  }

  // ---- arithmetic of one share ------------------------------------------------------------

  lemma {:induction false} FloorBounds(total: nat, w: nat, all: nat)
    requires all > 0
    ensures all * Floor(total, w, all) <= total * w <= all * Floor(total, w, all) + (all - 1)
  {
    var a := total * w;
    assert a == all * (a / all) + a % all;
  }

  lemma {:induction false} Distribute(x: nat, a: nat, b: nat)
    ensures x * (a + b) == x * a + x * b
  {
  }

  lemma {:induction false} FloorsBounds(total: nat, ws: seq<nat>, all: nat)
    requires all > 0
    ensures all * Total(Floors(total, ws, all)) <= total * Total(ws)
    ensures total * Total(ws) <= all * Total(Floors(total, ws, all)) + (all - 1) * |ws|
    decreases |ws|
  {
    hide Floor;
    if ws == [] {
      assert Total(ws) == 0 && Total(Floors(total, ws, all)) == 0;
    } else {
      var n := |ws| - 1;
      var fs := Floors(total, ws, all);
      FloorsBounds(total, ws[..n], all);
      assert fs[..n] == Floors(total, ws[..n], all);
      FloorBounds(total, ws[n], all);
      Distribute(all, Total(fs[..n]), fs[n]);
      Distribute(total, Total(ws[..n]), ws[n]);
      Distribute(all - 1, n, 1);
    }
  }

  lemma {:induction false} CancelLe(c: nat, x: int, y: int)
    requires c > 0 && c * x <= c * y
    ensures x <= y
  {
    assert c * (x - y) == c * x - c * y;
    PositiveFactor(c, x - y);
  }

  lemma {:induction false} PositiveFactor(c: nat, z: int)
    requires c > 0 && c * z <= 0
    ensures z <= 0
  {
  }

  // Rounding down never exceeds the amount, and leaves less than one unit per share.
  lemma {:induction false} FloorsFit(total: nat, ws: seq<nat>)
    requires Total(ws) > 0
    ensures Total(Floors(total, ws, Total(ws))) <= total
    ensures total < Total(Floors(total, ws, Total(ws))) + |ws|
  {
    hide Floors;
    var all, fs := Total(ws), Total(Floors(total, ws, Total(ws)));
    FloorsBounds(total, ws, all);
    assert all * fs <= all * total;
    CancelLe(all, fs, total);
    assert ws != [];
    var n := |ws|;
    assert (all - 1) * n < all * n by { Distribute(n, all - 1, 1); }
    Distribute(all, fs, n);
    assert all * total < all * (fs + n);
    CancelLt(all, total, fs + n);
  }

  lemma {:induction false} CancelLt(c: nat, x: nat, y: nat)
    requires c * x < c * y
    ensures x < y
  {
    if x >= y {
      MulMonotone(c, y, x);
    }
  }

  lemma {:induction false} MulMonotone(c: nat, x: nat, y: nat)
    requires x <= y
    ensures c * x <= c * y
  {
    assert c * y == c * x + c * (y - x);
  }

  lemma {:induction false} TotalUpdate(s: seq<nat>, k: nat, v: nat)
    requires k < |s|
    ensures Total(s[k := v]) == Total(s) - s[k] + v
    decreases |s|
  {
    var n := |s| - 1;
    if k < n {
      TotalUpdate(s[..n], k, v);
      assert s[k := v][..n] == s[..n][k := v];
    } else {
      assert s[k := v][..n] == s[..n];
    }
  }

  lemma {:induction false} TotalZero(s: seq<nat>)
    ensures Total(s) == 0 <==> forall i :: 0 <= i < |s| ==> s[i] == 0
    decreases |s|
  {
    if s != [] {
      var n := |s| - 1;
      TotalZero(s[..n]);
      assert forall i :: 0 <= i < n ==> s[..n][i] == s[i];
    }
  }

  // ---- the split ----------------------------------------------------------------------------

  // Rounded-down shares, the remainder going to the last of the heaviest.
  function Shares(total: nat, ws: seq<nat>): (r: seq<nat>)
    requires Total(ws) > 0
    ensures |r| == |ws|
  {
    var fs := Floors(total, ws, Total(ws));
    FloorsFit(total, ws);
    var k := Heaviest(ws);
    fs[k := fs[k] + (total - Total(fs))]
  }

  // The shares sum to the amount; a share is its exact proportion rounded down,
  // except that the heaviest may get up to |ws| - 1 more; weight 0 gets nothing.
  lemma {:induction false} SharesConserve(total: nat, ws: seq<nat>)
    requires Total(ws) > 0
    ensures Total(Shares(total, ws)) == total
    ensures forall i :: 0 <= i < |ws| && i != Heaviest(ws) ==> Shares(total, ws)[i] == Floor(total, ws[i], Total(ws))
    ensures
      var k := Heaviest(ws);
      Floor(total, ws[k], Total(ws)) <= Shares(total, ws)[k] < Floor(total, ws[k], Total(ws)) + |ws|
    ensures forall i :: 0 <= i < |ws| && ws[i] == 0 ==> Shares(total, ws)[i] == 0
  {
    hide Floor, Total, Heaviest;
    TotalZero(ws);
    var fs, k := Floors(total, ws, Total(ws)), Heaviest(ws);
    FloorsFit(total, ws);
    TotalUpdate(fs, k, fs[k] + (total - Total(fs)));
    forall i | 0 <= i < |ws| && ws[i] == 0
      ensures Shares(total, ws)[i] == 0
    {
      assert i != k;
      FloorZero(total, Total(ws));
    }
  }

  lemma {:induction false} FloorZero(total: nat, all: nat)
    requires all > 0
    ensures Floor(total, 0, all) == 0
  {
    assert total * 0 == 0;
  }

  // `attribute_by_weight`.
  method AttributeByWeight(total: nat, weights: seq<nat>) returns (r: Option<seq<nat>>)
    ensures r.None? <==> Total(weights) == 0
    ensures r.Some? ==> r.value == Shares(total, weights) && Total(r.value) == total
  {
    hide Floor, Heaviest;
    if weights == [] {
      return None;
    }
    var all := SumLoop(weights);
    if all == 0 {
      return None;
    }
    var shares := [];
    for k := 0 to |weights|
      invariant shares == Floors(total, weights, all)[..k]
    {
      shares := shares + [Floor(total, weights[k], all)];
    }
    assert shares == Floors(total, weights, all);
    var charged := SumLoop(shares);
    FloorsFit(total, weights);
    SharesConserve(total, weights);
    var remainder := total - charged;
    if remainder > 0 {
      var heaviest := HeaviestLoop(weights);
      shares := shares[heaviest := shares[heaviest] + remainder];
    }
    r := Some(shares);
  }

  method SumLoop(s: seq<nat>) returns (t: nat)
    ensures t == Total(s)
  {
    t := 0;
    for i := 0 to |s|
      invariant t == Total(s[..i])
    {
      assert s[..i + 1][..i] == s[..i];
      t := t + s[i];
    }
    assert s[..|s|] == s;
  }

  method HeaviestLoop(ws: seq<nat>) returns (k: nat)
    requires ws != []
    ensures k == Heaviest(ws)
  {
    k := 0;
    for n := 1 to |ws|
      invariant k < n
      invariant forall i :: 0 <= i < n ==> ws[i] <= ws[k]
      invariant forall i :: k < i < n ==> ws[i] < ws[k]
    {
      if ws[n] >= ws[k] {
        k := n;
      }
    }
    var k' := Heaviest(ws);
    assert ws[k] <= ws[k'] && ws[k'] <= ws[k];
  }

  // ---- per-process attribution in `handle_db_export` -------------------------------------------

  datatype Process = Process(pid: U32, ticks: U64)
  datatype Share = Share(pid: U32, energy: nat)

  function Ticks(ps: seq<Process>): (r: seq<nat>) {
    seq(|ps|, i requires 0 <= i < |ps| => ps[i].ticks)
  }

  function Energies(ss: seq<Share>): (r: seq<nat>) {
    seq(|ss|, i requires 0 <= i < |ss| => ss[i].energy)
  }

  // Energy with no CPU activity to charge is booked on pid 0.
  function Buckets(ps: seq<Process>): seq<Process> {
    if forall i :: 0 <= i < |ps| ==> ps[i].ticks == 0 then ps + [Process(0, 1)] else ps
  }

  lemma {:induction false} BucketsWeigh(ps: seq<Process>)
    ensures Total(Ticks(Buckets(ps))) > 0
  {
    TotalZero(Ticks(Buckets(ps)));
    if forall i :: 0 <= i < |ps| ==> ps[i].ticks == 0 {
      assert Ticks(Buckets(ps))[|ps|] == 1;
    } else {
      var i :| 0 <= i < |ps| && ps[i].ticks != 0;
      assert Ticks(ps)[i] != 0;
    }
  }

  // ---- who is charged how much ---------------------------------------------------------------

  function Pids(ps: seq<Process>): (r: seq<U32>)
    ensures |r| == |ps|
  {
    seq(|ps|, i requires 0 <= i < |ps| => ps[i].pid)
  }

  // The energy that entries record under a pid.
  function EnergyFor(ss: seq<Share>, pid: U32): nat {
    if ss == [] then 0
    else
      var last := ss[|ss| - 1];
      EnergyFor(ss[..|ss| - 1], pid) + (if last.pid == pid then last.energy else 0)
  }

  // The shares of all processes with that pid.
  function SharesFor(pids: seq<U32>, shares: seq<nat>, pid: U32): nat
    requires |pids| == |shares|
  {
    if pids == [] then 0
    else
      var n := |pids| - 1;
      SharesFor(pids[..n], shares[..n], pid) + (if pids[n] == pid then shares[n] else 0)
  }

  // One entry per nonzero share, in order.
  function Entries(pids: seq<U32>, shares: seq<nat>): seq<Share>
    requires |pids| == |shares|
  {
    if pids == [] then []
    else
      var n := |pids| - 1;
      Entries(pids[..n], shares[..n]) + (if shares[n] == 0 then [] else [Share(pids[n], shares[n])])
  }

  lemma {:induction false} EntriesStep(pids: seq<U32>, shares: seq<nat>, i: nat)
    requires |pids| == |shares| && i < |pids|
    ensures Entries(pids[..i + 1], shares[..i + 1]) ==
      Entries(pids[..i], shares[..i]) + (if shares[i] == 0 then [] else [Share(pids[i], shares[i])])
  {
    assert pids[..i + 1][..i] == pids[..i] && shares[..i + 1][..i] == shares[..i];
  }

  lemma {:induction false} EntryEnergy(ss: seq<Share>, s: Share, pid: U32)
    ensures EnergyFor(ss + [s], pid) == EnergyFor(ss, pid) + (if s.pid == pid then s.energy else 0)
    ensures Total(Energies(ss + [s])) == Total(Energies(ss)) + s.energy
  {
    assert (ss + [s])[..|ss|] == ss;
    assert Energies(ss + [s])[..|ss|] == Energies(ss);
  }

  // Entries record every share in full, under its own pid.
  lemma {:induction false} EntriesCharge(pids: seq<U32>, shares: seq<nat>, pid: U32)
    requires |pids| == |shares|
    ensures EnergyFor(Entries(pids, shares), pid) == SharesFor(pids, shares, pid)
    ensures Total(Energies(Entries(pids, shares))) == Total(shares)
    ensures forall e :: e in Entries(pids, shares) ==> e.energy > 0 && e.pid in pids
  {
    hide EnergyFor, Energies;
    if pids == [] {
      NoEnergy(pid);
    } else {
      var n := |pids| - 1;
      EntriesCharge(pids[..n], shares[..n], pid);
      var before := Entries(pids[..n], shares[..n]);
      assert before + [] == before;
      EntryEnergy(before, Share(pids[n], shares[n]), pid);
    }
  }

  lemma {:induction false} NoEnergy(pid: U32)
    ensures EnergyFor([], pid) == 0 && Total(Energies([])) == 0
  {
  }

  // All weights zero but the last.
  lemma {:induction false} OneEntry(total: nat, pids: seq<U32>, ws: seq<nat>)
    requires |pids| == |ws| && ws != [] && ws[|ws| - 1] > 0
    requires forall i :: 0 <= i < |ws| - 1 ==> ws[i] == 0
    requires Total(ws) > 0
    ensures Entries(pids, Shares(total, ws)) == if total == 0 then [] else [Share(pids[|ws| - 1], total)]
  {
    hide Shares, Entries;
    var n := |ws| - 1;
    var shares := Shares(total, ws);
    SharesConserve(total, ws);
    assert forall i :: 0 <= i < n ==> shares[..n][i] == 0;
    TotalZero(shares[..n]);
    assert shares == shares[..n] + [shares[n]];
    ZeroEntries(pids[..n], shares[..n]);
    EntriesStep(pids, shares, n);
    assert pids[..n + 1] == pids && shares[..n + 1] == shares;
  }

  lemma {:induction false} ZeroEntries(pids: seq<U32>, shares: seq<nat>)
    requires |pids| == |shares| && forall i :: 0 <= i < |shares| ==> shares[i] == 0
    ensures Entries(pids, shares) == []
  {
    if pids != [] {
      ZeroEntries(pids[..|pids| - 1], shares[..|pids| - 1]);
    }
  }

  // The verified step's delta is recorded in full: the defensive error returns
  // (weights sum to zero, conservation violated) never happen.  Every process is
  // charged its own share (see `SharesConserve`); without any activity there is
  // one entry for pid 0.
  method AttributeToProcesses(delta: U64, processes: seq<Process>) returns (status: int, results: seq<Share>)
    ensures |processes| >= 0xFFFF_FFFF <==> status == -104
    ensures status == -104 || status == 0
    ensures status == 0 ==> Total(Energies(results)) == delta
    ensures status == 0 ==> forall e :: e in results ==> e.energy > 0
    ensures status == 0 && Total(Ticks(processes)) > 0 ==>
      forall pid: U32 ::
        EnergyFor(results, pid) == SharesFor(Pids(processes), Shares(delta, Ticks(processes)), pid)
    ensures status == 0 && Total(Ticks(processes)) == 0 ==> results == if delta == 0 then [] else [Share(0, delta)]
  {
    hide Shares, Entries, Total, Energies, EnergyFor, SharesFor;
    results := [];
    if |processes| >= 0xFFFF_FFFF {
      return -104, [];
    }
    var buckets := Buckets(processes);
    BucketsWeigh(processes);
    var shares := AttributeByWeight(delta, Ticks(buckets));
    if shares.None? {
      return -105, [];
    }
    var attributed := SumLoop(shares.value);
    if attributed != delta {
      return -106, [];
    }
    EntriesNone(Pids(buckets), shares.value);
    for i := 0 to |buckets|
      invariant results == Entries(Pids(buckets)[..i], shares.value[..i])
    {
      EntriesStep(Pids(buckets), shares.value, i);
      if shares.value[i] != 0 {
        results := results + [Share(buckets[i].pid, shares.value[i])];
      }
    }
    assert shares.value[..|buckets|] == shares.value && Pids(buckets)[..|buckets|] == Pids(buckets);
    forall pid: U32
      ensures EnergyFor(results, pid) == SharesFor(Pids(buckets), shares.value, pid)
    {
      EntriesCharge(Pids(buckets), shares.value, pid);
    }
    EntriesCharge(Pids(buckets), shares.value, 0);
    TotalZero(Ticks(processes));
    if Total(Ticks(processes)) == 0 {
      assert forall i :: 0 <= i < |processes| ==> processes[i].ticks == Ticks(processes)[i] == 0;
      OneEntry(delta, Pids(buckets), Ticks(buckets));
    } else {
      var i :| 0 <= i < |processes| && Ticks(processes)[i] != 0;
      assert buckets == processes;
    }
    status := 0;
  }

  lemma {:induction false} EntriesNone(pids: seq<U32>, shares: seq<nat>)
    requires |pids| == |shares|
    ensures Entries(pids[..0], shares[..0]) == []
  {
  }

  // What one process is charged when its pid is its own: its proportion rounded
  // down, and the last of the busiest up to one microjoule per process more.
  lemma {:induction false} ChargedFairly(delta: U64, processes: seq<Process>, i: nat)
    requires i < |processes| && Total(Ticks(processes)) > 0
    requires forall j :: 0 <= j < |processes| && j != i ==> processes[j].pid != processes[i].pid
    ensures
      var charged := SharesFor(Pids(processes), Shares(delta, Ticks(processes)), processes[i].pid);
      var all, fair := Total(Ticks(processes)), delta * processes[i].ticks;
      && all * charged <= fair + all * (|processes| - 1)
      && fair < all * (charged + 1)
      && (i != Heaviest(Ticks(processes)) ==> all * charged <= fair)
      && (processes[i].ticks == 0 ==> charged == 0)
  {
    hide Shares, Floor, Total;
    var ws := Ticks(processes);
    var all := Total(ws);
    SharesConserve(delta, ws);
    FloorBounds(delta, ws[i], all);
    var share, floor := Shares(delta, ws)[i], Floor(delta, ws[i], all);
    SharesForOne(Pids(processes), Shares(delta, ws), i);
    MulMonotone(all, floor, share);
    Distribute(all, share, 1);
    if i == Heaviest(ws) {
      var n := |processes| - 1;
      MulMonotone(all, share, floor + n);
      Distribute(all, floor, n);
    } else {
      MulMonotone(all, 0, |processes| - 1);
    }
  }

  lemma {:induction false} SharesForOne(pids: seq<U32>, shares: seq<nat>, i: nat)
    requires |pids| == |shares| && i < |pids|
    requires forall j :: 0 <= j < |pids| && j != i ==> pids[j] != pids[i]
    ensures SharesFor(pids, shares, pids[i]) == shares[i]
    decreases |pids|
  {
    var n := |pids| - 1;
    if i < n {
      SharesForOne(pids[..n], shares[..n], i);
    } else {
      SharesForNone(pids[..n], shares[..n], pids[n]);
    }
  }

  lemma {:induction false} SharesForNone(pids: seq<U32>, shares: seq<nat>, pid: U32)
    requires |pids| == |shares| && pid !in pids
    ensures SharesFor(pids, shares, pid) == 0
  {
    if pids != [] {
      var n := |pids| - 1;
      SharesForNone(pids[..n], shares[..n], pid);
    }
  }
}
