// The block store: rows under a shared id counter, and chain-head anchors.

module BlockStore {
  import opened Bytes
  import opened Blocks

  // A `block:<id>` hash.  Numbers and digests are kept as values; their text
  // forms round-trip (`Codec.DecRoundTrip`, `Codec.HexRoundTrip`).
  datatype Row = Row(
    vmName: Bytes, blockNumber: U64,
    merkleRoot: Digest, prevChainedRoot: Digest, chainedRoot: Digest, recordCount: U32)

  type Rows = map<nat, Row>

  datatype Store = Store(counter: nat, rows: Rows, anchors: map<Bytes, Bytes>)

  function RowOf(b: Block): Row {
    Row(b.vmName, b.blockNumber, b.merkleRoot, b.prevChainedRoot, b.chainedRoot, b.recordCount)
  }

  // One tenant's rows with ids up to `upto`, in id order.
  function TenantRows(rows: Rows, upto: nat, tenant: Bytes): (r: seq<Row>)
    ensures |r| <= upto + 1
  {
    var here := if upto in rows && rows[upto].vmName == tenant then [rows[upto]] else [];
    if upto == 0 then here else TenantRows(rows, upto - 1, tenant) + here
  }

  // All ids in use are at most `upto`.
  ghost predicate IdsWithin(rows: Rows, upto: nat) {
    forall id :: id in rows ==> id <= upto
  }

  lemma {:induction false} TenantRowsBeyond(rows: Rows, upto: nat, more: nat, tenant: Bytes)
    requires upto <= more
    requires forall id :: id in rows && upto < id <= more ==> rows[id].vmName != tenant
    ensures TenantRows(rows, more, tenant) == TenantRows(rows, upto, tenant)
    decreases more
  {
    if upto < more {
      TenantRowsBeyond(rows, upto, more - 1, tenant);
    }
  }

  lemma {:induction false} TenantRowsSame(a: Rows, b: Rows, upto: nat, tenant: Bytes)
    requires forall id :: id <= upto ==>
      ((id in a && a[id].vmName == tenant) <==> (id in b && b[id].vmName == tenant))
    requires forall id :: id <= upto && id in a && a[id].vmName == tenant ==> id in b && a[id] == b[id]
    ensures TenantRows(a, upto, tenant) == TenantRows(b, upto, tenant)
    decreases upto
  {
    if upto > 0 {
      TenantRowsSame(a, b, upto - 1, tenant);
    }
  }

  // A new row under an id above all of a tenant's ids is appended to that
  // tenant's rows, and to nobody else's.
  lemma {:induction false} TenantRowsPut(rows: Rows, id: nat, row: Row, upto: nat, tenant: Bytes)
    requires id !in rows && id <= upto
    requires forall k :: k in rows && id < k ==> rows[k].vmName != row.vmName
    ensures row.vmName == tenant ==>
      TenantRows(rows[id := row], upto, tenant) == TenantRows(rows, upto, tenant) + [row]
    ensures row.vmName != tenant ==>
      TenantRows(rows[id := row], upto, tenant) == TenantRows(rows, upto, tenant)
  {
    var rows' := rows[id := row];
    if row.vmName == tenant {
      TenantRowsBeyond(rows', id, upto, tenant);
      TenantRowsBeyond(rows, id, upto, tenant);
      if id > 0 {
        TenantRowsSame(rows, rows', id - 1, tenant);
      }
    } else {
      TenantRowsSame(rows, rows', upto, tenant);
    }
  }

  lemma {:induction false} TenantRowsMember(rows: Rows, upto: nat, tenant: Bytes, id: nat)
    requires id in rows && id <= upto && rows[id].vmName == tenant
    ensures rows[id] in TenantRows(rows, upto, tenant)
    decreases upto
  {
    if id < upto {
      TenantRowsMember(rows, upto - 1, tenant, id);
    }
  }

  lemma {:induction false} TenantRowsOrigin(rows: Rows, upto: nat, tenant: Bytes, i: nat) returns (id: nat)
    requires i < |TenantRows(rows, upto, tenant)|
    ensures id in rows && id <= upto && rows[id].vmName == tenant
    ensures rows[id] == TenantRows(rows, upto, tenant)[i]
    decreases upto
  {
    if upto > 0 && i < |TenantRows(rows, upto - 1, tenant)| {
      id := TenantRowsOrigin(rows, upto - 1, tenant, i);
    } else {
      id := upto;
    }
  }

  // ---- the newest row of a tenant ------------------------------------------------

  // What the scan of `get_latest_block_state` has picked after some keys.
  function LatestOf(rows: Rows, keys: seq<nat>, tenant: Bytes): (r: Option<Row>)
    ensures r.Some? ==> r.value.vmName == tenant
  {
    if keys == [] then None
    else
      var best := LatestOf(rows, keys[..|keys| - 1], tenant);
      var id := keys[|keys| - 1];
      if id in rows && rows[id].vmName == tenant &&
         (best.None? || rows[id].blockNumber > best.value.blockNumber)
      then Some(rows[id]) else best
  }

  // `get_latest_block_state`: `keys` is the reply to KEYS, in any order.
  method GetLatestBlockState(rows: Rows, keys: seq<nat>, tenant: Bytes) returns (r: Option<(U64, Digest)>)
    ensures r == match LatestOf(rows, keys, tenant)
                 case Some(row) => Some((row.blockNumber, row.chainedRoot))
                 case None => None
  {
    var latest: Option<U64>, latestKey: Option<nat> := None, None;
    for i := 0 to |keys|
      invariant latest.Some? <==> latestKey.Some?
      invariant latestKey.Some? ==> latestKey.value in rows && rows[latestKey.value].blockNumber == latest.value
      invariant LatestOf(rows, keys[..i], tenant) == if latestKey.Some? then Some(rows[latestKey.value]) else None
    {
      assert keys[..i + 1][..i] == keys[..i];
      var key := keys[i];
      if key in rows && rows[key].vmName == tenant {
        var number := rows[key].blockNumber;
        if latest.None? || number > latest.value {
          latest, latestKey := Some(number), Some(key);
        }
      }
    }
    assert keys[..|keys|] == keys;
    if latestKey.Some? {
      r := Some((latest.value, rows[latestKey.value].chainedRoot));
    } else {
      r := None;
    }
  }

  ghost predicate KeysOf(keys: seq<nat>, rows: Rows) {
    forall id :: id in rows <==> id in keys
  }

  predicate TenantKey(rows: Rows, id: nat, tenant: Bytes) {
    id in rows && rows[id].vmName == tenant
  }

  // The i-th key's row has the greatest number among the tenant's rows listed,
  // and no row listed before it has that number.
  ghost predicate FirstGreatest(rows: Rows, keys: seq<nat>, tenant: Bytes, i: nat) {
    && i < |keys| && TenantKey(rows, keys[i], tenant)
    && forall j :: 0 <= j < |keys| && TenantKey(rows, keys[j], tenant) ==>
         && rows[keys[j]].blockNumber <= rows[keys[i]].blockNumber
         && (j < i ==> rows[keys[j]].blockNumber < rows[keys[i]].blockNumber)
  }

  // The pick is the first of the tenant's rows with the greatest number, if it has any row.
  lemma {:induction false} LatestIsMaximal(rows: Rows, keys: seq<nat>, tenant: Bytes)
    ensures LatestOf(rows, keys, tenant).None? <==> forall id :: id in keys ==> !TenantKey(rows, id, tenant)
    ensures LatestOf(rows, keys, tenant).Some? ==>
      exists i: nat :: FirstGreatest(rows, keys, tenant, i) && LatestOf(rows, keys, tenant) == Some(rows[keys[i]])
  {
    if keys != [] {
      var n := |keys| - 1;
      var init := keys[..n];
      LatestIsMaximal(rows, init, tenant);
      assert keys == init + [keys[n]];
      var latest := LatestOf(rows, keys, tenant);
      if latest.Some? {
        if LatestOf(rows, init, tenant).Some? {
          var i: nat :| FirstGreatest(rows, init, tenant, i) && LatestOf(rows, init, tenant) == Some(rows[init[i]]);
          assert FirstGreatest(rows, keys, tenant, i) || FirstGreatest(rows, keys, tenant, n);
        } else {
          assert FirstGreatest(rows, keys, tenant, n);
        }
      }
    }
  }

  // ---- chains of rows ---------------------------------------------------------------

  function HeadOf(chain: seq<Row>): Digest {
    if chain == [] then ZERO_DIGEST else chain[|chain| - 1].chainedRoot
  }

  // Row i is hashed from, and linked to, its predecessor.
  ghost predicate LinkedRow(h: Hash, chain: seq<Row>, i: nat)
    requires i < |chain|
  {
    && chain[i].prevChainedRoot == (if i == 0 then ZERO_DIGEST else chain[i - 1].chainedRoot)
    && chain[i].chainedRoot == ChainedRoot(h, chain[i].prevChainedRoot, chain[i].merkleRoot)
  }

  ghost predicate NumberedRow(h: Hash, chain: seq<Row>, i: nat)
    requires i < |chain|
  {
    chain[i].blockNumber == i && LinkedRow(h, chain, i)
  }

  // Rows numbered 0, 1, 2, ... , each continuing the one before.
  ghost predicate IsRowChain(h: Hash, chain: seq<Row>) {
    forall i :: 0 <= i < |chain| ==> NumberedRow(h, chain, i)
  }

  // Appending keeps the chain exactly when the row takes the next number and
  // continues the head.
  lemma {:induction false} AppendRow(h: Hash, chain: seq<Row>, row: Row)
    requires IsRowChain(h, chain)
    requires row.chainedRoot == ChainedRoot(h, row.prevChainedRoot, row.merkleRoot)
    ensures IsRowChain(h, chain + [row]) <==>
      row.blockNumber == |chain| && row.prevChainedRoot == HeadOf(chain)
  {
    hide NumberedRow;
    var longer, n := chain + [row], |chain|;
    forall i | 0 <= i < n
      ensures NumberedRow(h, longer, i)
    {
      NumberedIn(h, chain, longer, i);
    }
    LastNumbered(h, chain, row);
  }

  lemma {:induction false} NumberedIn(h: Hash, chain: seq<Row>, longer: seq<Row>, i: nat)
    requires chain <= longer && i < |chain|
    ensures NumberedRow(h, chain, i) <==> NumberedRow(h, longer, i)
  {
    assert chain[i] == longer[i];
    assert i > 0 ==> chain[i - 1] == longer[i - 1];
  }

  lemma {:induction false} LastNumbered(h: Hash, chain: seq<Row>, row: Row)
    requires row.chainedRoot == ChainedRoot(h, row.prevChainedRoot, row.merkleRoot)
    ensures NumberedRow(h, chain + [row], |chain|) <==>
      row.blockNumber == |chain| && row.prevChainedRoot == HeadOf(chain)
  {
    var longer, n := chain + [row], |chain|;
    assert longer[n] == row;
    assert n > 0 ==> longer[n - 1] == chain[n - 1];
  }

  // In a well-formed chain the scan finds the last row, whatever the key order.
  lemma {:induction false} LatestOfChain(h: Hash, store: Store, keys: seq<nat>, tenant: Bytes)
    requires KeysOf(keys, store.rows) && IdsWithin(store.rows, store.counter)
    requires IsRowChain(h, TenantRows(store.rows, store.counter, tenant))
    ensures
      var chain := TenantRows(store.rows, store.counter, tenant);
      LatestOf(store.rows, keys, tenant) == if chain == [] then None else Some(chain[|chain| - 1])
  {
    var chain := TenantRows(store.rows, store.counter, tenant);
    LatestIsMaximal(store.rows, keys, tenant);
    var latest := LatestOf(store.rows, keys, tenant);
    if latest.Some? {
      var k: nat :| FirstGreatest(store.rows, keys, tenant, k) && latest == Some(store.rows[keys[k]]);
      var id := keys[k];
      TenantRowsMember(store.rows, store.counter, tenant, id);
      var i :| 0 <= i < |chain| && chain[i] == latest.value;
      var last := TenantRowsOrigin(store.rows, store.counter, tenant, |chain| - 1);
      assert NumberedRow(h, chain, i) && NumberedRow(h, chain, |chain| - 1);
      assert last in keys && TenantKey(store.rows, last, tenant);
      assert store.rows[last].blockNumber <= latest.value.blockNumber;
    } else if chain != [] {
      var last := TenantRowsOrigin(store.rows, store.counter, tenant, |chain| - 1);
      assert last in keys && TenantKey(store.rows, last, tenant);
    }
  }
}
