// Energy records and the byte encodings that are hashed.

module Records {
  import opened Bytes
  import opened Codec

  // The floating-point fields are kept as their 64-bit patterns; names and
  // timestamps as their UTF-8 bytes.
  datatype EnergyRecord = EnergyRecord(
    pid: U32, cpuBits: U64, energyBits: U64, powerBits: U64,
    vmName: Bytes, timestamp: Bytes)

  const RECORD_FORMAT_V2: Byte := 0x02
  const DOMAIN_LEAF: Byte := 0x00
  const DOMAIN_INTERNAL: Byte := 0x01
  const DOMAIN_ROOT: Byte := 0x02
  const DOMAIN_CHAIN: Byte := 0x03

  function EncodeRecord(r: EnergyRecord): Bytes
  {
    [RECORD_FORMAT_V2] + (U32Le(r.pid) + (U64Le(r.cpuBits) + (U64Le(r.energyBits) + (U64Le(r.powerBits) +
    (U32Le(|r.vmName|) + r.vmName + (U32Le(|r.timestamp|) + r.timestamp))))))
  }

  // Distinct records have distinct encodings; the field-length bound is the
  // encoder's own precondition.
  lemma {:induction false} EncodeRecordInjective(a: EnergyRecord, b: EnergyRecord)
    requires |a.vmName| < U32_LIMIT && |a.timestamp| < U32_LIMIT
    requires |b.vmName| < U32_LIMIT && |b.timestamp| < U32_LIMIT
    requires EncodeRecord(a) == EncodeRecord(b)
    ensures a == b
  {
    var a6 := U32Le(|a.timestamp|) + a.timestamp;
    var b6 := U32Le(|b.timestamp|) + b.timestamp;
    var a5 := U32Le(|a.vmName|) + a.vmName + a6;
    var b5 := U32Le(|b.vmName|) + b.vmName + b6;
    var a4 := U64Le(a.powerBits) + a5;
    var b4 := U64Le(b.powerBits) + b5;
    var a3 := U64Le(a.energyBits) + a4;
    var b3 := U64Le(b.energyBits) + b4;
    var a2 := U64Le(a.cpuBits) + a3;
    var b2 := U64Le(b.cpuBits) + b3;
    ConcatSplit([RECORD_FORMAT_V2], U32Le(a.pid) + a2, [RECORD_FORMAT_V2], U32Le(b.pid) + b2);
    ConcatSplit(U32Le(a.pid), a2, U32Le(b.pid), b2);
    U32LeInjective(a.pid, b.pid);
    ConcatSplit(U64Le(a.cpuBits), a3, U64Le(b.cpuBits), b3);
    U64LeInjective(a.cpuBits, b.cpuBits);
    ConcatSplit(U64Le(a.energyBits), a4, U64Le(b.energyBits), b4);
    U64LeInjective(a.energyBits, b.energyBits);
    ConcatSplit(U64Le(a.powerBits), a5, U64Le(b.powerBits), b5);
    U64LeInjective(a.powerBits, b.powerBits);
    LenPrefixedSplit(a.vmName, a6, b.vmName, b6);
    assert a6 == U32Le(|a.timestamp|) + a.timestamp + [];
    assert b6 == U32Le(|b.timestamp|) + b.timestamp + [];
    LenPrefixedSplit(a.timestamp, [], b.timestamp, []);
  }

  function EncodeLeaf(data: Bytes): (r: Bytes) {
    [DOMAIN_LEAF] + data
  }

  function EncodeInternal(left: Digest, right: Digest): (r: Bytes) {
    [DOMAIN_INTERNAL] + left + right
  }

  function EncodeRoot(leafCount: nat, subtree: Digest): (r: Bytes) {
    [DOMAIN_ROOT] + U64Le(leafCount) + subtree
  }

  function EncodeChainedRoot(prev: Digest, merkle: Digest): (r: Bytes) {
    [DOMAIN_CHAIN] + prev + merkle
  }

  lemma {:induction false} EncodeInternalInjective(l1: Digest, r1: Digest, l2: Digest, r2: Digest)
    requires EncodeInternal(l1, r1) == EncodeInternal(l2, r2)
    ensures l1 == l2 && r1 == r2
  {
    ConcatSplit([DOMAIN_INTERNAL] + l1, r1, [DOMAIN_INTERNAL] + l2, r2);
    ConcatSplit([DOMAIN_INTERNAL], l1, [DOMAIN_INTERNAL], l2);
  }

  lemma {:induction false} EncodeRootInjective(n1: nat, s1: Digest, n2: nat, s2: Digest)
    requires EncodeRoot(n1, s1) == EncodeRoot(n2, s2)
    ensures s1 == s2 && U64Le(n1) == U64Le(n2)
  {
    ConcatSplit([DOMAIN_ROOT] + U64Le(n1), s1, [DOMAIN_ROOT] + U64Le(n2), s2);
    ConcatSplit([DOMAIN_ROOT], U64Le(n1), [DOMAIN_ROOT], U64Le(n2));
  }

  lemma {:induction false} EncodeChainedRootInjective(p1: Digest, m1: Digest, p2: Digest, m2: Digest)
    requires EncodeChainedRoot(p1, m1) == EncodeChainedRoot(p2, m2)
    ensures p1 == p2 && m1 == m2
  {
    ConcatSplit([DOMAIN_CHAIN] + p1, m1, [DOMAIN_CHAIN] + p2, m2);
    ConcatSplit([DOMAIN_CHAIN], p1, [DOMAIN_CHAIN], p2);
  }

  // The four hash domains never overlap.
  lemma {:induction false} DomainsDisjoint(data: Bytes, l: Digest, r: Digest, n: nat, s: Digest, p: Digest, m: Digest)
    ensures EncodeLeaf(data) != EncodeInternal(l, r)
    ensures EncodeLeaf(data) != EncodeRoot(n, s)
    ensures EncodeLeaf(data) != EncodeChainedRoot(p, m)
    ensures EncodeInternal(l, r) != EncodeRoot(n, s)
    ensures EncodeInternal(l, r) != EncodeChainedRoot(p, m)
    ensures EncodeRoot(n, s) != EncodeChainedRoot(p, m)
  {
    assert EncodeLeaf(data)[0] == DOMAIN_LEAF;
    assert EncodeInternal(l, r)[0] == DOMAIN_INTERNAL;
    assert EncodeRoot(n, s)[0] == DOMAIN_ROOT;
    assert EncodeChainedRoot(p, m)[0] == DOMAIN_CHAIN;
  }

  // Where the fields lie in an encoded record, by offset.
  lemma {:induction false} RecordLayout(r: EnergyRecord)
    ensures
      var s, v := EncodeRecord(r), |r.vmName|;
      && |s| == 37 + v + |r.timestamp|
      && s[0] == 0x02 && s[1..5] == U32Le(r.pid)
      && s[5..13] == U64Le(r.cpuBits) && s[13..21] == U64Le(r.energyBits) && s[21..29] == U64Le(r.powerBits)
      && s[29..33] == U32Le(v) && s[33..33 + v] == r.vmName
      && s[33 + v..37 + v] == U32Le(|r.timestamp|) && s[37 + v..] == r.timestamp
  {
    hide U32Le, U64Le;
  }

  // The same for what is hashed: 1 + n, 65, 41 and 65 bytes.
  lemma {:induction false} HashedLayout(data: Bytes, l: Digest, r: Digest, n: nat)
    ensures EncodeLeaf(data)[0] == 0x00 && EncodeLeaf(data)[1..] == data
    ensures EncodeInternal(l, r)[0] == 0x01 && EncodeInternal(l, r)[1..33] == l && EncodeInternal(l, r)[33..] == r
    ensures EncodeRoot(n, l)[0] == 0x02 && EncodeRoot(n, l)[1..9] == U64Le(n) && EncodeRoot(n, l)[9..] == l
    ensures EncodeChainedRoot(l, r)[0] == 0x03
    ensures EncodeChainedRoot(l, r)[1..33] == l && EncodeChainedRoot(l, r)[33..] == r
  {
    hide U64Le;
  }
}
