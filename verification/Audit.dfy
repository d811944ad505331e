// The offline per-tenant audit of the block store.

module Audit {
  import opened Bytes
  import opened Codec
  import opened Records
  import opened Blocks
  import opened Checkpoint

  // A block row as the auditor reads it: digests are hexadecimal text.
  datatype TextRow = TextRow(vmName: Bytes, prev: Bytes, merkle: Bytes, chained: Bytes)

  datatype Item = Item(id: nat, row: TextRow)

  datatype Entry =
    | Broken(owner: Bytes, id: nat)
    | Malformed(owner: Bytes, id: nat)
    | Checked(owner: Bytes, id: nat, valid: bool)
    | Summary(owner: Bytes, inScope: nat, verified: nat, firstFailure: Option<nat>)

  datatype Walked = Walked(entries: seq<Entry>, verified: nat, firstFailure: Option<nat>)

  function Expected(prev: Option<Bytes>, row: TextRow): Bytes {
    if prev.Some? then prev.value else row.prev
  }

  function Readable(row: TextRow): bool {
    HexDigest(row.prev).Some? && HexDigest(row.merkle).Some?
  }

  // The stored root is the hash of the stored predecessor root and Merkle root.
  function RootMatches(h: Hash, row: TextRow): bool
    requires Readable(row)
  {
    HexEncode(ChainedRoot(h, HexDigest(row.prev).value, HexDigest(row.merkle).value)) == row.chained
  }

  // The walk over one owner's blocks in id order; it stops at the first failure.
  function Walk(h: Hash, owner: Bytes, items: seq<Item>, prev: Option<Bytes>): Walked {
    if items == [] then Walked([], 0, None)
    else
      var id, row := items[0].id, items[0].row;
      if row.prev != Expected(prev, row) then Walked([Broken(owner, id)], 0, Some(id))
      else if !Readable(row) then Walked([Malformed(owner, id)], 0, Some(id))
      else if !RootMatches(h, row) then Walked([Checked(owner, id, false)], 0, Some(id))
      else
        var rest := Walk(h, owner, items[1..], Some(row.chained));
        Walked([Checked(owner, id, true)] + rest.entries, rest.verified + 1, rest.firstFailure)
  }

  function Report(h: Hash, owner: Bytes, items: seq<Item>): seq<Entry> {
    var w := Walk(h, owner, items, None);
    w.entries + [Summary(owner, |items|, w.verified, w.firstFailure)]
  }

  lemma {:induction false} WalkStep(h: Hash, owner: Bytes, items: seq<Item>, prev: Option<Bytes>)
    requires items != []
    ensures
      var id, row := items[0].id, items[0].row;
      Walk(h, owner, items, prev) ==
        if row.prev != Expected(prev, row) then Walked([Broken(owner, id)], 0, Some(id))
        else if !Readable(row) then Walked([Malformed(owner, id)], 0, Some(id))
        else if !RootMatches(h, row) then Walked([Checked(owner, id, false)], 0, Some(id))
        else
          var rest := Walk(h, owner, items[1..], Some(row.chained));
          Walked([Checked(owner, id, true)] + rest.entries, rest.verified + 1, rest.firstFailure)
  {
  }

  lemma {:induction false} WalkEmpty(h: Hash, owner: Bytes, prev: Option<Bytes>)
    ensures Walk(h, owner, [], prev) == Walked([], 0, None)
  {
  }

  lemma {:induction false} SeqAssociative<T>(a: seq<T>, b: seq<T>, c: seq<T>)
    ensures a + (b + c) == (a + b) + c
  {
  }

  // The inner loop of `verify_chain`.
  method AuditOwner(h: Hash, owner: Bytes, items: seq<Item>) returns (ok: bool, results: seq<Entry>)
    ensures results == Report(h, owner, items)
    ensures ok <==> Walk(h, owner, items, None).firstFailure.None?
  {
    hide Readable, RootMatches, Expected, Walk;
    ghost var all := Walk(h, owner, items, None);
    var prev: Option<Bytes>, verified, firstBad: Option<nat> := None, 0, None;
    results := [];
    var i := 0;
    assert items[0..] == items;
    assert results + all.entries == all.entries;
    while i < |items|
      invariant 0 <= i <= |items| && firstBad.None?
      invariant
        var rest := Walk(h, owner, items[i..], prev);
        && results + rest.entries == all.entries
        && verified + rest.verified == all.verified
        && rest.firstFailure == all.firstFailure
      decreases |items| - i
    {
      var id, row := items[i].id, items[i].row;
      assert items[i..][0] == items[i] && items[i..][1..] == items[i + 1..];
      WalkStep(h, owner, items[i..], prev);
      if row.prev != Expected(prev, row) {
        results := results + [Broken(owner, id)];
        firstBad := Some(id);
        break;
      }
      if !Readable(row) {
        results := results + [Malformed(owner, id)];
        firstBad := Some(id);
        break;
      }
      var valid := RootMatches(h, row);
      SeqAssociative(results, [Checked(owner, id, valid)], Walk(h, owner, items[i + 1..], Some(row.chained)).entries);
      results := results + [Checked(owner, id, valid)];
      if !valid {
        firstBad := Some(id);
        break;
      }
      verified := verified + 1;
      prev := Some(row.chained);
      i := i + 1;
    }
    WalkEmpty(h, owner, prev);
    assert results + [] == results;
    assert firstBad.None? ==> items[i..] == [];
    results := results + [Summary(owner, |items|, verified, firstBad)];
    ok := firstBad.None?;
  }

  // ---- what acceptance means ------------------------------------------------------------

  ghost predicate Linked(h: Hash, items: seq<Item>) {
    forall i :: 0 <= i < |items| ==>
      && Readable(items[i].row) && RootMatches(h, items[i].row)
      && (i > 0 ==> items[i].row.prev == items[i - 1].row.chained)
  }

  // The audit of one owner succeeds, verifying every block, exactly on linked
  // blocks; the first block's predecessor is taken on trust.
  lemma {:induction false} WalkExact(h: Hash, owner: Bytes, items: seq<Item>, prev: Option<Bytes>)
    ensures Walk(h, owner, items, prev).firstFailure.None? <==>
            Linked(h, items) && (items != [] ==> items[0].row.prev == Expected(prev, items[0].row))
    ensures Walk(h, owner, items, prev).firstFailure.None? ==> Walk(h, owner, items, prev).verified == |items|
    decreases |items|
  {
    hide Readable, RootMatches;
    if items != [] {
      var rest := items[1..];
      WalkExact(h, owner, rest, Some(items[0].row.chained));
      assert forall i :: 0 <= i < |rest| ==> rest[i] == items[i + 1];
      if Linked(h, items) {
        assert Linked(h, rest);
      }
      if Linked(h, rest) && (rest != [] ==> rest[0].row.prev == items[0].row.chained) &&
         Readable(items[0].row) && RootMatches(h, items[0].row) {
        forall i | 0 <= i < |items|
          ensures Readable(items[i].row) && RootMatches(h, items[i].row)
          ensures i > 0 ==> items[i].row.prev == items[i - 1].row.chained
        {
          if i > 0 {
            assert items[i] == rest[i - 1];
          }
          if i > 1 {
            assert items[i - 1] == rest[i - 2];
          }
        }
      }
    }
  }

  // Item i is readable, correctly hashed, and continues what came before it.
  ghost predicate SoundAt(h: Hash, items: seq<Item>, prev: Option<Bytes>, i: nat)
    requires i < |items|
  {
    && items[i].row.prev == (if i == 0 then Expected(prev, items[0].row) else items[i - 1].row.chained)
    && Readable(items[i].row) && RootMatches(h, items[i].row)
  }

  // What is said of an item that is not sound: a break in the chain first, then
  // digests that cannot be read, then the hash.
  function Failure(owner: Bytes, items: seq<Item>, prev: Option<Bytes>, k: nat): Entry
    requires k < |items|
  {
    var id, row := items[k].id, items[k].row;
    var continues := row.prev == (if k == 0 then Expected(prev, row) else items[k - 1].row.chained);
    var readable := HexDigest(row.prev).Some? && HexDigest(row.merkle).Some?;
    if continues && readable then Checked(owner, id, false)
    else if continues then Malformed(owner, id)
    else Broken(owner, id)
  }

  // Dropping the first item makes its root what the rest has to continue.
  lemma {:induction false} SoundAtTail(h: Hash, owner: Bytes, items: seq<Item>, prev: Option<Bytes>, i: nat)
    requires i + 1 < |items|
    ensures SoundAt(h, items[1..], Some(items[0].row.chained), i) <==> SoundAt(h, items, prev, i + 1)
    ensures Failure(owner, items[1..], Some(items[0].row.chained), i) == Failure(owner, items, prev, i + 1)
  {
    hide Readable, RootMatches, HexDigest;
    assert items[1..][i] == items[i + 1];
    assert i > 0 ==> items[1..][i - 1] == items[i];
  }

  lemma {:induction false} WalkStopsAtOnce(h: Hash, owner: Bytes, items: seq<Item>, prev: Option<Bytes>)
    requires items != [] && !SoundAt(h, items, prev, 0)
    ensures Walk(h, owner, items, prev) == Walked([Failure(owner, items, prev, 0)], 0, Some(items[0].id))
  {
    WalkStep(h, owner, items, prev);
    hide RootMatches, Walk, HexDigest;
  }

  // The walk stops at the first item that is not sound, and names it.
  lemma {:induction false} WalkStopsAt(h: Hash, owner: Bytes, items: seq<Item>, prev: Option<Bytes>, k: nat)
    requires k < |items| && !SoundAt(h, items, prev, k)
    requires forall i :: 0 <= i < k ==> SoundAt(h, items, prev, i)
    ensures
      var w := Walk(h, owner, items, prev);
      && w.firstFailure == Some(items[k].id) && w.verified == k && |w.entries| == k + 1
      && (forall i :: 0 <= i < k ==> w.entries[i] == Checked(owner, items[i].id, true))
      && w.entries[k] == Failure(owner, items, prev, k)
  {
    hide Readable, RootMatches, Walk, Failure;
    if k == 0 {
      WalkStopsAtOnce(h, owner, items, prev);
    } else {
      assert SoundAt(h, items, prev, 0);
      WalkStep(h, owner, items, prev);
      hide SoundAt;
      forall i | 0 <= i < k
        ensures SoundAt(h, items[1..], Some(items[0].row.chained), i) <==> SoundAt(h, items, prev, i + 1)
      {
        SoundAtTail(h, owner, items, prev, i);
      }
      SoundAtTail(h, owner, items, prev, k - 1);
      WalkStopsAt(h, owner, items[1..], Some(items[0].row.chained), k - 1);
    }
  }

  // The string an item's root is the hash of.
  function ItemInput(row: TextRow): Bytes
    requires Readable(row)
  {
    EncodeChainedRoot(HexDigest(row.prev).value, HexDigest(row.merkle).value)
  }

  function ItemInputs(items: seq<Item>): set<Bytes> {
    set i | 0 <= i < |items| && Readable(items[i].row) :: ItemInput(items[i].row)
  }

  // The same predecessor and Merkle digests, whatever the letter case.
  ghost predicate SameDigests(a: TextRow, b: TextRow) {
    HexDigest(a.prev) == HexDigest(b.prev) && HexDigest(a.merkle) == HexDigest(b.merkle)
  }

  // Two clean walks of equal length that end in the same chained root carry the
  // same digests in every row, or the hash collides on what they hash.
  lemma {:induction false} WalkBinding(h: Hash, owner: Bytes, a: seq<Item>, b: seq<Item>, inputs: set<Bytes>)
    requires Walk(h, owner, a, None).firstFailure.None? && Walk(h, owner, b, None).firstFailure.None?
    requires |a| == |b| && a != [] && a[|a| - 1].row.chained == b[|b| - 1].row.chained
    requires ItemInputs(a) + ItemInputs(b) <= inputs
    ensures (forall i :: 0 <= i < |a| ==> SameDigests(a[i].row, b[i].row)) || Collides(h, inputs)
  {
    hide Walk, Readable, RootMatches;
    WalkExact(h, owner, a, None);
    WalkExact(h, owner, b, None);
    LinkedBinding(h, a, b, inputs, 0);
  }

  lemma {:induction false} LinkedBinding(h: Hash, a: seq<Item>, b: seq<Item>, inputs: set<Bytes>, k: nat)
    requires Linked(h, a) && Linked(h, b) && |a| == |b| && k < |a|
    requires a[|a| - 1].row.chained == b[|b| - 1].row.chained
    requires ItemInputs(a) + ItemInputs(b) <= inputs
    ensures (forall i :: k <= i < |a| ==> SameDigests(a[i].row, b[i].row)) || Collides(h, inputs)
    decreases |a| - k
  {
    hide HexDigest, HexEncode;
    if k + 1 < |a| {
      LinkedBinding(h, a, b, inputs, k + 1);
    }
    if !Collides(h, inputs) {
      assert k + 1 < |a| ==> SameDigests(a[k + 1].row, b[k + 1].row);
      assert HexDigest(a[k].row.chained) == HexDigest(b[k].row.chained);
      RowBinding(h, a[k].row, b[k].row, inputs);
    }
  }

  lemma {:induction false} RowBinding(h: Hash, a: TextRow, b: TextRow, inputs: set<Bytes>)
    requires Readable(a) && Readable(b) && RootMatches(h, a) && RootMatches(h, b)
    requires HexDigest(a.chained) == HexDigest(b.chained)
    requires ItemInput(a) in inputs && ItemInput(b) in inputs
    ensures SameDigests(a, b) || Collides(h, inputs)
  {
    hide HexEncode, HexDecode;
    HexRoundTrip(h(ItemInput(a)));
    HexRoundTrip(h(ItemInput(b)));
    EqualOrCollides(h, inputs, ItemInput(a), ItemInput(b));
    if ItemInput(a) == ItemInput(b) {
      EncodeChainedRootInjective(HexDigest(a.prev).value, HexDigest(a.merkle).value,
                                 HexDigest(b.prev).value, HexDigest(b.merkle).value);
    }
  }

  // ---- grouping by owner ------------------------------------------------------------------

  type TextRows = map<nat, TextRow>

  // "(unnamed)"
  const UNNAMED: Bytes := [0x28, 0x75, 0x6E, 0x6E, 0x61, 0x6D, 0x65, 0x64, 0x29]

  // Rows without a tenant name are filed under a label of their own.
  function OwnerOf(row: TextRow): Bytes {
    if row.vmName == [] then UNNAMED else row.vmName
  }

  predicate OwnedBy(rows: TextRows, id: nat, owner: Bytes, since: int) {
    id in rows && since <= id && OwnerOf(rows[id]) == owner
  }

  // An owner's blocks in scope, in id order.
  function ScopeIds(rows: TextRows, upto: nat, owner: Bytes, since: int): (r: seq<nat>)
    ensures forall id :: id in r ==> id <= upto
  {
    var here := if OwnedBy(rows, upto, owner, since) then [upto] else [];
    if upto == 0 then here else ScopeIds(rows, upto - 1, owner, since) + here
  }

  function Items(rows: TextRows, ids: seq<nat>): (r: seq<Item>)
    requires forall id :: id in ids ==> id in rows
  {
    seq(|ids|, i requires 0 <= i < |ids| => Item(ids[i], rows[ids[i]]))
  }

  ghost predicate Ascending(s: seq<nat>) {
    forall i, j :: 0 <= i < j < |s| ==> s[i] < s[j]
  }

  lemma {:induction false} ScopeIdsAscending(rows: TextRows, upto: nat, owner: Bytes, since: int)
    ensures Ascending(ScopeIds(rows, upto, owner, since))
    ensures forall id: nat :: id in ScopeIds(rows, upto, owner, since) <==> id <= upto && OwnedBy(rows, id, owner, since)
    decreases upto
  {
    hide OwnedBy;
    if upto > 0 {
      ScopeIdsAscending(rows, upto - 1, owner, since);
      var before := ScopeIds(rows, upto - 1, owner, since);
      assert forall i :: 0 <= i < |before| ==> before[i] in before;
    }
  }

  // Whose block is whose: a named tenant's scope holds exactly the rows with its
  // name, and the rows without a name are in the scope of "(unnamed)".
  lemma {:induction false} ScopeExact(rows: TextRows, upto: nat, owner: Bytes, since: int, id: nat)
    ensures id in ScopeIds(rows, upto, owner, since) <==>
      && id <= upto && id in rows && since <= id
      && (rows[id].vmName == owner != [] || (rows[id].vmName == [] && IsUnnamed(owner)))
  {
    ScopeIdsAscending(rows, upto, owner, since);
    hide ScopeIds;
    var unnamed: string := "(unnamed)";
    assert |UNNAMED| == |unnamed|;
    assert UNNAMED[0] as char == unnamed[0] && UNNAMED[8] as char == unnamed[8];
    assert IsUnnamed(owner) <==> owner == UNNAMED;
  }

  predicate IsUnnamed(owner: Bytes) {
    var text := "(unnamed)";
    |owner| == |text| && forall i :: 0 <= i < |text| ==> owner[i] as char == text[i]
  }

  // Two ascending lists with the same members are the same list.
  lemma {:induction false} AscendingUnique(a: seq<nat>, b: seq<nat>)
    requires Ascending(a) && Ascending(b)
    requires forall x :: x in a <==> x in b
    ensures a == b
    decreases |a|
  {
    hide Ascending;
    assert b != [] ==> b[0] in b;
    if a != [] {
      assert a[0] in a && a[|a| - 1] in a;
      assert a[|a| - 1] in b;
      var la, lb := a[|a| - 1], b[|b| - 1];
      assert lb in b && lb in a;
      AscendingLast(a, lb);
      AscendingLast(b, la);
      var a', b' := a[..|a| - 1], b[..|b| - 1];
      forall x
        ensures x in a' <==> x in b'
      {
        AscendingInit(a, x);
        AscendingInit(b, x);
      }
      AscendingInit(a, la);
      AscendingInit(b, lb);
      AscendingUnique(a', b');
      assert a == a' + [la] && b == b' + [lb];
    }
  }

  lemma {:induction false} AscendingLast(s: seq<nat>, x: nat)
    requires Ascending(s) && x in s
    ensures x <= s[|s| - 1]
  {
  }

  lemma {:induction false} AscendingInit(s: seq<nat>, x: nat)
    requires Ascending(s) && s != []
    ensures Ascending(s[..|s| - 1])
    ensures x in s[..|s| - 1] <==> x in s && x != s[|s| - 1]
  {
    if x in s {
      var i :| 0 <= i < |s| && s[i] == x;
      if x != s[|s| - 1] {
        assert s[..|s| - 1][i] == x;
      }
    }
  }

  // `sorted(..., key=id)`.
  function InsertId(s: seq<nat>, id: nat): (r: seq<nat>)
    ensures forall x :: x in r <==> x in s || x == id
  {
    if s == [] || id <= s[0] then [id] + s
    else
      assert s == [s[0]] + s[1..];
      [s[0]] + InsertId(s[1..], id)
  }

  function SortIds(s: seq<nat>): (r: seq<nat>)
    ensures forall x :: x in r <==> x in s
  {
    if s == [] then []
    else
      assert s == s[..|s| - 1] + [s[|s| - 1]];
      InsertId(SortIds(s[..|s| - 1]), s[|s| - 1])
  }

  lemma {:induction false} InsertAscending(s: seq<nat>, id: nat)
    requires Ascending(s) && id !in s
    ensures Ascending(InsertId(s, id))
  {
    if s != [] && id > s[0] {
      assert forall x :: x in s[1..] ==> x in s;
      InsertAscending(s[1..], id);
      var rest := InsertId(s[1..], id);
      forall j | 0 <= j < |rest|
        ensures s[0] < rest[j]
      {
        assert rest[j] in rest;
      }
    } else if s != [] {
      assert s[0] in s;
    }
  }

  ghost predicate Distinct(s: seq<nat>) {
    forall i, j :: 0 <= i < j < |s| ==> s[i] != s[j]
  }

  lemma {:induction false} SortAscending(s: seq<nat>)
    requires Distinct(s)
    ensures Ascending(SortIds(s))
  {
    if s != [] {
      var init := s[..|s| - 1];
      SortAscending(init);
      assert s[|s| - 1] !in init;
      InsertAscending(SortIds(init), s[|s| - 1]);
    }
  }

  // The keys of one owner in the order they were listed.
  function Picked(rows: TextRows, keys: seq<nat>, owner: Bytes, since: int): (r: seq<nat>)
    ensures forall id :: id in r <==> id in keys && OwnedBy(rows, id, owner, since)
  {
    if keys == [] then []
    else
      var init, id := keys[..|keys| - 1], keys[|keys| - 1];
      assert keys == init + [id];
      Picked(rows, init, owner, since) + (if OwnedBy(rows, id, owner, since) then [id] else [])
  }

  lemma {:induction false} PickedDistinct(rows: TextRows, keys: seq<nat>, owner: Bytes, since: int)
    requires Distinct(keys)
    ensures Distinct(Picked(rows, keys, owner, since))
  {
    hide OwnedBy;
    if keys != [] {
      var init, id := keys[..|keys| - 1], keys[|keys| - 1];
      PickedDistinct(rows, init, owner, since);
      assert id !in init;
      var before := Picked(rows, init, owner, since);
      assert forall i :: 0 <= i < |before| ==> before[i] in before;
    }
  }

  // Whatever order the keys come in, sorting one owner's keys gives its blocks in id order.
  lemma {:induction false} SortedScope(rows: TextRows, keys: seq<nat>, upto: nat, owner: Bytes, since: int)
    requires Distinct(keys) && (forall id :: id in rows <==> id in keys) && (forall id :: id in rows ==> id <= upto)
    ensures SortIds(Picked(rows, keys, owner, since)) == ScopeIds(rows, upto, owner, since)
  {
    hide SortIds, Picked, ScopeIds;
    var picked := Picked(rows, keys, owner, since);
    PickedDistinct(rows, keys, owner, since);
    SortAscending(picked);
    ScopeIdsAscending(rows, upto, owner, since);
    AscendingUnique(SortIds(picked), ScopeIds(rows, upto, owner, since));
  }

  predicate Wanted(tenant: Option<Bytes>, owner: Bytes) {
    tenant.None? || tenant.value == owner
  }

  // The first loop of `verify_chain`.
  method GroupByOwner(rows: TextRows, keys: seq<nat>, tenant: Option<Bytes>, since: int) returns (byOwner: map<Bytes, seq<nat>>)
    requires forall id :: id in rows <==> id in keys
    ensures forall o :: o in byOwner <==> Wanted(tenant, o) && Picked(rows, keys, o, since) != []
    ensures forall o :: o in byOwner ==> byOwner[o] == Picked(rows, keys, o, since)
  {
    byOwner := map[];
    for i := 0 to |keys|
      invariant forall o :: o in byOwner <==> Wanted(tenant, o) && Picked(rows, keys[..i], o, since) != []
      invariant forall o :: o in byOwner ==> byOwner[o] == Picked(rows, keys[..i], o, since)
    {
      var id := keys[i];
      assert keys[..i + 1][..i] == keys[..i] && keys[..i + 1][i] == id;
      if since <= id {
        var owner := OwnerOf(rows[id]);
        if Wanted(tenant, owner) {
          byOwner := byOwner[owner := (if owner in byOwner then byOwner[owner] else []) + [id]];
        }
      }
    }
    assert keys[..|keys|] == keys;
  }

  // ---- owners in name order -----------------------------------------------------------------

  // Lexicographic order of UTF-8 bytes, which is the order of code points.
  predicate Precedes(a: Bytes, b: Bytes) {
    b != [] && (a == [] || a[0] < b[0] || (a[0] == b[0] && Precedes(a[1..], b[1..])))
  }

  lemma {:induction false} PrecedesTotal(a: Bytes, b: Bytes)
    ensures Precedes(a, b) || a == b || Precedes(b, a)
  {
    if a != [] && b != [] {
      PrecedesTotal(a[1..], b[1..]);
      assert a == [a[0]] + a[1..] && b == [b[0]] + b[1..];
    }
  }

  lemma {:induction false} PrecedesTransitive(a: Bytes, b: Bytes, c: Bytes)
    requires Precedes(a, b) && Precedes(b, c)
    ensures Precedes(a, c)
  {
    if a != [] && a[0] == b[0] == c[0] {
      PrecedesTransitive(a[1..], b[1..], c[1..]);
    }
  }

  // k is the first place where the two differ, and a has the smaller byte there.
  predicate SmallerAt(a: Bytes, b: Bytes, k: nat) {
    k < |a| && k < |b| && a[..k] == b[..k] && a[k] < b[k]
  }

  lemma {:induction false} SmallerBehind(c: Byte, x: Bytes, y: Bytes, k: nat)
    ensures SmallerAt([c] + x, [c] + y, k + 1) <==> SmallerAt(x, y, k)
    ensures !SmallerAt([c] + x, [c] + y, 0)
  {
    var a, b := [c] + x, [c] + y;
    if k < |x| && k < |y| {
      assert a[k + 1] == x[k] && b[k + 1] == y[k];
      assert a[..k + 1] == [c] + x[..k] && b[..k + 1] == [c] + y[..k];
      assert a[..k + 1] == b[..k + 1] ==> a[..k + 1][1..] == b[..k + 1][1..];
      assert ([c] + x[..k])[1..] == x[..k] && ([c] + y[..k])[1..] == y[..k];
    }
  }

  // The first byte that differs decides; a proper prefix comes first.
  lemma {:induction false} PrecedesExact(a: Bytes, b: Bytes)
    ensures Precedes(a, b) <==> (a <= b && |a| < |b|) || exists k: nat :: SmallerAt(a, b, k)
  {
    hide SmallerAt;
    if a != [] && b != [] && a[0] == b[0] {
      var x, y := a[1..], b[1..];
      PrecedesExact(x, y);
      assert a == [a[0]] + x && b == [a[0]] + y;
      assert a <= b <==> x <= y;
      SmallerBehind(a[0], x, y, 0);
      if exists k: nat :: SmallerAt(x, y, k) {
        var k: nat :| SmallerAt(x, y, k);
        SmallerBehind(a[0], x, y, k);
      }
      if exists k: nat :: SmallerAt(a, b, k) {
        var k: nat :| SmallerAt(a, b, k);
        assert k > 0;
        SmallerBehind(a[0], x, y, k - 1);
      }
    } else {
      DecidedAtOnce(a, b);
    }
  }

  lemma {:induction false} DecidedAtOnce(a: Bytes, b: Bytes)
    requires a == [] || b == [] || a[0] != b[0]
    ensures (exists k: nat :: SmallerAt(a, b, k)) <==> a != [] && b != [] && a[0] < b[0]
    ensures a <= b <==> a == []
  {
    if a != [] && b != [] && a[0] < b[0] {
      assert SmallerAt(a, b, 0);
    }
    forall k: nat | SmallerAt(a, b, k)
      ensures k == 0
    {
      SmallerBehindEqual(a, b, k);
    }
  }

  lemma {:induction false} SmallerBehindEqual(a: Bytes, b: Bytes, k: nat)
    requires SmallerAt(a, b, k)
    ensures k > 0 ==> a[0] == b[0]
  {
    if k > 0 {
      assert a[..k][0] == a[0] && b[..k][0] == b[0];
    }
  }

  ghost predicate InNameOrder(names: seq<Bytes>) {
    forall i, j :: 0 <= i < j < |names| ==> Precedes(names[i], names[j])
  }

  method LeastName(names: set<Bytes>) returns (least: Bytes)
    requires names != {}
    ensures least in names && forall o :: o in names && o != least ==> Precedes(least, o)
  {
    hide Precedes;
    least :| least in names;
    var rest := names - {least};
    while rest != {}
      invariant rest <= names && least in names - rest
      invariant forall o :: o in names - rest && o != least ==> Precedes(least, o)
      decreases |rest|
    {
      var name :| name in rest;
      PrecedesTotal(name, least);
      if Precedes(name, least) {
        forall o | o in names - rest && o != least
          ensures Precedes(name, o)
        {
          PrecedesTransitive(name, least, o);
        }
        least := name;
      }
      rest := rest - {name};
    }
  }

  // Python's `sorted` on the owners.
  method SortedNames(names: set<Bytes>) returns (sorted: seq<Bytes>)
    ensures InNameOrder(sorted) && forall o :: o in sorted <==> o in names
  {
    hide Precedes;
    sorted := [];
    var rest := names;
    while rest != {}
      invariant rest <= names && InNameOrder(sorted)
      invariant forall o :: o in sorted <==> o in names - rest
      invariant forall i, o :: 0 <= i < |sorted| && o in rest ==> Precedes(sorted[i], o)
      decreases |rest|
    {
      var least := LeastName(rest);
      sorted := sorted + [least];
      rest := rest - {least};
    }
  }

  // The reports of several owners one after the other.
  function Reports(h: Hash, rows: TextRows, upto: nat, since: int, owners: seq<Bytes>): seq<Entry>
    requires forall o :: o in owners ==> InRows(rows, upto, o, since)
  {
    if owners == [] then []
    else
      var n := |owners| - 1;
      assert owners[n] in owners && InRows(rows, upto, owners[n], since);
      Reports(h, rows, upto, since, owners[..n]) + Report(h, owners[n], Items(rows, ScopeIds(rows, upto, owners[n], since)))
  }

  predicate Clean(h: Hash, rows: TextRows, upto: nat, since: int, owner: Bytes)
    requires InRows(rows, upto, owner, since)
  {
    Walk(h, owner, Items(rows, ScopeIds(rows, upto, owner, since)), None).firstFailure.None?
  }

  // `verify_chain`.  `owners` names the reported owners; being in name order,
  // there is only one such list.
  method VerifyChain(h: Hash, rows: TextRows, keys: seq<nat>, tenant: Option<Bytes>, since: int, ghost upto: nat)
    returns (ok: bool, results: seq<Entry>, owners: seq<Bytes>)
    requires Distinct(keys) && (forall id :: id in rows <==> id in keys) && (forall id :: id in rows ==> id <= upto)
    ensures InNameOrder(owners)
    ensures forall o :: o in owners <==>
      (tenant == None || tenant == Some(o)) && ScopeIds(rows, upto, o, since) != []
    ensures forall o :: InRows(rows, upto, o, since)
    ensures results == Reports(h, rows, upto, since, owners)
    ensures ok <==> forall o :: o in owners ==> Clean(h, rows, upto, since, o)
  {
    hide Picked, SortIds, ScopeIds, Walk, Report, Distinct, Precedes;
    var byOwner := GroupByOwner(rows, keys, tenant, since);
    forall o
      ensures SortIds(Picked(rows, keys, o, since)) == ScopeIds(rows, upto, o, since)
      ensures Picked(rows, keys, o, since) != [] <==> ScopeIds(rows, upto, o, since) != []
      ensures InRows(rows, upto, o, since)
    {
      SortedScope(rows, keys, upto, o, since);
      SortEmpty(Picked(rows, keys, o, since));
      ScopeIdsAscending(rows, upto, o, since);
    }
    var names := SortedNames(byOwner.Keys);
    owners := names;
    ok, results := true, [];
    for i := 0 to |names|
      invariant results == Reports(h, rows, upto, since, names[..i])
      invariant ok <==> forall k :: 0 <= k < i ==> Clean(h, rows, upto, since, names[k])
    {
      var owner := names[i];
      assert names[..i + 1][..i] == names[..i];
      assert owner in names;
      var ids := SortIds(byOwner[owner]);
      assert ids == ScopeIds(rows, upto, owner, since);
      var fine, entries := AuditOwner(h, owner, Items(rows, ids));
      assert fine <==> Clean(h, rows, upto, since, owner);
      results := results + entries;
      ok := ok && fine;
    }
    assert names[..|names|] == names;
  }

  lemma {:induction false} SortEmpty(s: seq<nat>)
    ensures SortIds(s) == [] <==> s == []
  {
    if s != [] {
      assert s[0] in SortIds(s);
    }
  }

  ghost predicate InRows(rows: TextRows, upto: nat, owner: Bytes, since: int) {
    forall id :: id in ScopeIds(rows, upto, owner, since) ==> id in rows
  }
}
