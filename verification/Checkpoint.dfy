// The signed chain-head anchor and the sealed checkpoint bytes.

module Checkpoint {
  import opened Bytes
  import opened Codec
  import opened Text

  // A keyed MAC, like the hash an arbitrary function.
  type Mac = (Digest, Bytes) -> Digest

  // "checkpoint-v1"
  const ANCHOR_TAG: Bytes := [0x63, 0x68, 0x65, 0x63, 0x6B, 0x70, 0x6F, 0x69, 0x6E, 0x74, 0x2D, 0x76, 0x31]
  // "vm:"
  const VM_LABEL: Bytes := [0x76, 0x6D, 0x3A]

  function EncodeCheckpointMsg(tenant: Bytes, block: U64, root: Digest): Bytes {
    ANCHOR_TAG + [PIPE] + (tenant + ([PIPE] + U64Le(block) + root))
  }

  // The signed message determines tenant, block number and root, also for
  // tenants that contain the separator.
  lemma {:induction false} CheckpointMsgInjective(t1: Bytes, n1: U64, r1: Digest, t2: Bytes, n2: U64, r2: Digest)
    requires EncodeCheckpointMsg(t1, n1, r1) == EncodeCheckpointMsg(t2, n2, r2)
    ensures t1 == t2 && n1 == n2 && r1 == r2
  {
    var x1, x2 := [PIPE] + U64Le(n1) + r1, [PIPE] + U64Le(n2) + r2;
    ConcatSplit(ANCHOR_TAG + [PIPE], t1 + x1, ANCHOR_TAG + [PIPE], t2 + x2);
    assert |t1| == |t1 + x1| - 41 && |t2| == |t2 + x2| - 41;
    ConcatSplit(t1, x1, t2, x2);
    ConcatSplit([PIPE] + U64Le(n1), r1, [PIPE] + U64Le(n2), r2);
    ConcatSplit([PIPE], U64Le(n1), [PIPE], U64Le(n2));
    U64LeInjective(n1, n2);
  }

  function SignCheckpoint(mac: Mac, master: Digest, tenant: Bytes, block: U64, root: Digest): Digest {
    mac(mac(master, VM_LABEL + tenant), EncodeCheckpointMsg(tenant, block, root))
  }

  function Join5(f0: Bytes, f1: Bytes, f2: Bytes, f3: Bytes, f4: Bytes): Bytes {
    f0 + [PIPE] + (f1 + [PIPE] + (f2 + [PIPE] + (f3 + [PIPE] + f4)))
  }

  function JoinFields(tenant: Bytes, block: Bytes, root: Bytes, sig: Bytes): Bytes {
    Join5(ANCHOR_TAG, tenant, block, root, sig)
  }

  function CheckpointLine(mac: Mac, master: Digest, tenant: Bytes, block: U64, root: Digest): Bytes {
    JoinFields(tenant, Dec(block), HexEncode(root), HexEncode(SignCheckpoint(mac, master, tenant, block, root)))
  }

  // ---- parsing ---------------------------------------------------------------

  datatype ParsedAnchor = ParsedAnchor(block: U64, root: Digest, sig: Digest)

  function HexDigest(t: Bytes): Option<Digest> {
    if |t| != 64 then None
    else
      match HexDecode(t)
      case Some(d) => Some(d)
      case None => None
  }

  function ParseFields(block: Bytes, root: Bytes, sig: Bytes): Option<ParsedAnchor> {
    match (ParseU64(block), HexDigest(root), HexDigest(sig))
    case (Some(b), Some(r), Some(s)) => Some(ParsedAnchor(b, r, s))
    case _ => None
  }

  // The line consists of the tag, this tenant and three further fields, with
  // exactly four separators.
  ghost predicate HasFields(line: Bytes, tenant: Bytes, block: Bytes, root: Bytes, sig: Bytes) {
    && line == JoinFields(tenant, block, root, sig)
    && PIPE !in tenant && PIPE !in block && PIPE !in root && PIPE !in sig
  }

  lemma {:induction false} FieldsUnique(line: Bytes, tenant: Bytes, b1: Bytes, r1: Bytes, s1: Bytes, b2: Bytes, r2: Bytes, s2: Bytes)
    requires HasFields(line, tenant, b1, r1, s1) && HasFields(line, tenant, b2, r2, s2)
    ensures b1 == b2 && r1 == r2 && s1 == s2
  {
    SplitAtFirst(ANCHOR_TAG, tenant + [PIPE] + (b1 + [PIPE] + (r1 + [PIPE] + s1)),
                 ANCHOR_TAG, tenant + [PIPE] + (b2 + [PIPE] + (r2 + [PIPE] + s2)), PIPE);
    SplitAtFirst(tenant, b1 + [PIPE] + (r1 + [PIPE] + s1), tenant, b2 + [PIPE] + (r2 + [PIPE] + s2), PIPE);
    SplitAtFirst(b1, r1 + [PIPE] + s1, b2, r2 + [PIPE] + s2, PIPE);
    SplitAtFirst(r1, s1, r2, s2, PIPE);
  }

  ghost function ParseAnchor(line: Bytes, tenant: Bytes): Option<ParsedAnchor> {
    if exists b, r, s :: HasFields(line, tenant, b, r, s) then
      var b, r, s :| HasFields(line, tenant, b, r, s);
      ParseFields(b, r, s)
    else None
  }

  lemma {:induction false} ParseAnchorOf(line: Bytes, tenant: Bytes, b: Bytes, r: Bytes, s: Bytes)
    requires HasFields(line, tenant, b, r, s)
    ensures ParseAnchor(line, tenant) == ParseFields(b, r, s)
  {
    var b', r', s' :| HasFields(line, tenant, b', r', s') && ParseAnchor(line, tenant) == ParseFields(b', r', s');
    FieldsUnique(line, tenant, b, r, s, b', r', s');
  }

  function CountPipes(s: Bytes): nat {
    if s == [] then 0 else CountPipes(s[..|s| - 1]) + (if s[|s| - 1] == PIPE then 1 else 0)
  }

  lemma {:induction false} CountPipesConcat(a: Bytes, b: Bytes)
    ensures CountPipes(a + b) == CountPipes(a) + CountPipes(b)
    decreases |b|
  {
    if b == [] {
      assert a + b == a;
    } else {
      assert (a + b)[..|a + b| - 1] == a + b[..|b| - 1];
      CountPipesConcat(a, b[..|b| - 1]);
    }
  }

  lemma {:induction false} CountPipesNone(s: Bytes)
    requires PIPE !in s
    ensures CountPipes(s) == 0
  {
    if s != [] {
      CountPipesNone(s[..|s| - 1]);
    }
  }

  // A head without separators, then one separator, then the rest.
  lemma {:induction false} CountPipesField(head: Bytes, rest: Bytes)
    requires PIPE !in head
    ensures CountPipes(head + [PIPE] + rest) == 1 + CountPipes(rest)
  {
    CountPipesNone(head);
    CountPipesConcat(head, [PIPE]);
    CountPipesConcat(head + [PIPE], rest);
    assert CountPipes([PIPE]) == 1 by { assert [PIPE][..0] == []; }
  }

  lemma {:induction false} FieldsHaveFourPipes(line: Bytes, tenant: Bytes, b: Bytes, r: Bytes, s: Bytes)
    requires HasFields(line, tenant, b, r, s)
    ensures CountPipes(line) == 4
  {
    CountPipesNone(s);
    CountPipesField(r, s);
    CountPipesField(b, r + [PIPE] + s);
    CountPipesField(tenant, b + [PIPE] + (r + [PIPE] + s));
    CountPipesField(ANCHOR_TAG, tenant + [PIPE] + (b + [PIPE] + (r + [PIPE] + s)));
  }

  // Positions of all separators, in order.
  ghost predicate PipePositions(s: Bytes, seps: seq<nat>) {
    && (forall k :: 0 <= k < |seps| ==> seps[k] < |s| && s[seps[k]] == PIPE)
    && (forall j, k :: 0 <= j < k < |seps| ==> seps[j] < seps[k])
    && (forall i :: 0 <= i < |s| && s[i] == PIPE ==> i in seps)
    && CountPipes(s) == |seps|
  }

  // The scan at the head of `parse_checkpoint_line`: it gives up at a fifth separator.
  method ScanPipes(line: Bytes) returns (seps: Option<seq<nat>>)
    ensures seps.None? ==> CountPipes(line) > 4
    ensures seps.Some? ==> PipePositions(line, seps.value) && |seps.value| <= 4
  {
    var found: seq<nat> := [];
    for i := 0 to |line|
      invariant |found| <= 4
      invariant PipePositions(line[..i], found)
    {
      assert line[..i + 1] == line[..i] + [line[i]];
      assert line[..i + 1][..i] == line[..i];
      if line[i] == PIPE {
        if |found| >= 4 {
          assert CountPipes(line[..i + 1]) > 4;
          assert line == line[..i + 1] + line[i + 1..];
          CountPipesConcat(line[..i + 1], line[i + 1..]);
          return None;
        }
        found := found + [i];
      }
    }
    assert line[..|line|] == line;
    seps := Some(found);
  }

  lemma {:induction false} SplitAround(s: Bytes, at: nat)
    requires at < |s| && s[at] == PIPE
    ensures s == s[..at] + [PIPE] + s[at + 1..]
  {
  }

  lemma {:induction false} SliceOfTail(line: Bytes, lo: nat, at: nat)
    requires lo <= at < |line| && line[at] == PIPE
    ensures line[lo..] == line[lo..at] + [PIPE] + line[at + 1..]
  {
    var t := line[lo..];
    SplitAround(t, at - lo);
    assert t[..at - lo] == line[lo..at] && t[at - lo + 1..] == line[at + 1..];
  }

  lemma {:induction false} SliceJoins(line: Bytes, s0: nat, s1: nat, s2: nat, s3: nat)
    requires s0 < s1 < s2 < s3 < |line|
    requires line[s0] == PIPE && line[s1] == PIPE && line[s2] == PIPE && line[s3] == PIPE
    ensures line == Join5(line[..s0], line[s0 + 1..s1], line[s1 + 1..s2], line[s2 + 1..s3], line[s3 + 1..])
  {
    SplitAround(line, s0);
    SliceOfTail(line, s0 + 1, s1);
    SliceOfTail(line, s1 + 1, s2);
    SliceOfTail(line, s2 + 1, s3);
    JoinTails(line, line[..s0], line[s0 + 1..], line[s0 + 1..s1], line[s1 + 1..],
              line[s1 + 1..s2], line[s2 + 1..], line[s2 + 1..s3], line[s3 + 1..]);
  }

  lemma {:induction false} JoinTails(line: Bytes, f0: Bytes, t0: Bytes, f1: Bytes, t1: Bytes, f2: Bytes, t2: Bytes, f3: Bytes, f4: Bytes)
    requires line == f0 + [PIPE] + t0 && t0 == f1 + [PIPE] + t1 && t1 == f2 + [PIPE] + t2 && t2 == f3 + [PIPE] + f4
    ensures line == Join5(f0, f1, f2, f3, f4)
  {
  }

  lemma {:induction false} FourPositions(line: Bytes, seps: seq<nat>)
    requires PipePositions(line, seps) && |seps| == 4
    ensures seps[0] < seps[1] < seps[2] < seps[3] < |line|
    ensures line[seps[0]] == PIPE && line[seps[1]] == PIPE && line[seps[2]] == PIPE && line[seps[3]] == PIPE
    ensures forall i :: 0 <= i < |line| && line[i] == PIPE ==> i == seps[0] || i == seps[1] || i == seps[2] || i == seps[3]
  {
    assert seps[0] < seps[1] && seps[1] < seps[2] && seps[2] < seps[3];
  }

  lemma {:induction false} SliceAtPipes(line: Bytes, s0: nat, s1: nat, s2: nat, s3: nat)
    requires s0 < s1 < s2 < s3 < |line|
    requires forall i :: 0 <= i < |line| && line[i] == PIPE ==> i == s0 || i == s1 || i == s2 || i == s3
    ensures PIPE !in line[..s0] && PIPE !in line[s0 + 1..s1] && PIPE !in line[s1 + 1..s2]
    ensures PIPE !in line[s2 + 1..s3] && PIPE !in line[s3 + 1..]
  {
  }

  // `parse_checkpoint_line` computes exactly the field-wise reading.
  method ParseCheckpointLine(line: Bytes, tenant: Bytes) returns (r: Option<ParsedAnchor>)
    ensures r == ParseAnchor(line, tenant)
  {
    hide ParseFields, Join5, ParseAnchor, CountPipes;
    var scan := ScanPipes(line);
    if scan.None? || |scan.value| != 4 {
      NoFields(line, tenant);
      return None;
    }
    var seps := scan.value;
    FourPositions(line, seps);
    SliceAtPipes(line, seps[0], seps[1], seps[2], seps[3]);
    SliceJoins(line, seps[0], seps[1], seps[2], seps[3]);
    var tag, owner := line[..seps[0]], line[seps[0] + 1..seps[1]];
    var block, root, sig := line[seps[1] + 1..seps[2]], line[seps[2] + 1..seps[3]], line[seps[3] + 1..];
    if tag != ANCHOR_TAG || owner != tenant {
      OtherFields(line, tenant, tag, owner, block, root, sig);
      return None;
    }
    FieldsParse(line, tenant, block, root, sig);
    r := ParseTail(block, root, sig);
  }

  method ParseTail(block: Bytes, root: Bytes, sig: Bytes) returns (r: Option<ParsedAnchor>)
    ensures r == ParseFields(block, root, sig)
  {
    var n := ParseU64Loop(block);
    if n.None? {
      return None;
    }
    var d, s := HexDigest(root), HexDigest(sig);
    if d.None? || s.None? {
      return None;
    }
    r := Some(ParsedAnchor(n.value, d.value, s.value));
  }

  lemma {:induction false} NoFields(line: Bytes, tenant: Bytes)
    requires CountPipes(line) != 4
    ensures ParseAnchor(line, tenant) == None
  {
    forall b, r, s
      ensures !HasFields(line, tenant, b, r, s)
    {
      if HasFields(line, tenant, b, r, s) {
        FieldsHaveFourPipes(line, tenant, b, r, s);
      }
    }
  }

  lemma {:induction false} OtherFields(line: Bytes, tenant: Bytes, tag: Bytes, owner: Bytes, f2: Bytes, f3: Bytes, f4: Bytes)
    requires line == Join5(tag, owner, f2, f3, f4)
    requires PIPE !in tag && PIPE !in owner
    requires tag != ANCHOR_TAG || owner != tenant
    ensures ParseAnchor(line, tenant) == None
  {
    var rest := f2 + [PIPE] + (f3 + [PIPE] + f4);
    forall b, r, s
      ensures !HasFields(line, tenant, b, r, s)
    {
      if HasFields(line, tenant, b, r, s) {
        SplitAtFirst(tag, owner + [PIPE] + rest, ANCHOR_TAG, tenant + [PIPE] + (b + [PIPE] + (r + [PIPE] + s)), PIPE);
        SplitAtFirst(owner, rest, tenant, b + [PIPE] + (r + [PIPE] + s), PIPE);
      }
    }
  }

  lemma {:induction false} FieldsParse(line: Bytes, tenant: Bytes, b: Bytes, r: Bytes, s: Bytes)
    requires line == JoinFields(tenant, b, r, s)
    requires PIPE !in tenant && PIPE !in b && PIPE !in r && PIPE !in s
    ensures ParseAnchor(line, tenant) == ParseFields(b, r, s)
  {
    ParseAnchorOf(line, tenant, b, r, s);
  }

  // ---- verification -------------------------------------------------------------

  ghost function VerifiedAnchor(mac: Mac, master: Digest, tenant: Bytes, line: Bytes): Option<(U64, Digest)> {
    match ParseAnchor(Trim(line), tenant)
    case None => None
    case Some(p) =>
      if SignCheckpoint(mac, master, tenant, p.block, p.root) == p.sig then Some((p.block, p.root)) else None
  }

  method VerifyCheckpointLine(mac: Mac, master: Digest, tenant: Bytes, line: Bytes) returns (r: Option<(U64, Digest)>)
    ensures r == VerifiedAnchor(mac, master, tenant, line)
  {
    var parsed := ParseCheckpointLine(Trim(line), tenant);
    if parsed.None? {
      return None;
    }
    var p := parsed.value;
    var expected := SignCheckpoint(mac, master, tenant, p.block, p.root);
    if expected != p.sig {
      return None;
    }
    r := Some((p.block, p.root));
  }

  // A line is accepted exactly when, trimmed, it is the tag, this tenant, the
  // number in decimal, and root and signature in 64 digits each, and the
  // signature is the keyed MAC of the message for that tenant, number and root.
  lemma {:induction false} AnchorAcceptedExactly(mac: Mac, master: Digest, tenant: Bytes, line: Bytes, block: U64, root: Digest)
    ensures VerifiedAnchor(mac, master, tenant, line) == Some((block, root)) <==>
      exists b: Bytes, r: Bytes, s: Bytes ::
        && HasFields(Trim(line), tenant, b, r, s)
        && ParseU64(b) == Some(block) && HexDecode(r) == Some(root)
        && HexDecode(s) == Some(mac(mac(master, VM_LABEL + tenant), EncodeCheckpointMsg(tenant, block, root)))
  {
    hide Trim, ParseU64, HasFields, EncodeCheckpointMsg;
    var text := Trim(line);
    if VerifiedAnchor(mac, master, tenant, line) == Some((block, root)) {
      var b, r, s :| HasFields(text, tenant, b, r, s);
      ParseAnchorOf(text, tenant, b, r, s);
    }
    if exists b: Bytes, r: Bytes, s: Bytes ::
        && HasFields(text, tenant, b, r, s)
        && ParseU64(b) == Some(block) && HexDecode(r) == Some(root)
        && HexDecode(s) == Some(mac(mac(master, VM_LABEL + tenant), EncodeCheckpointMsg(tenant, block, root)))
    {
      var b, r, s :|
        && HasFields(text, tenant, b, r, s)
        && ParseU64(b) == Some(block) && HexDecode(r) == Some(root)
        && HexDecode(s) == Some(mac(mac(master, VM_LABEL + tenant), EncodeCheckpointMsg(tenant, block, root)));
      ParseAnchorOf(text, tenant, b, r, s);
    }
  }

  // Where the parts of the signed message and of the sealed bytes lie.
  lemma {:induction false} CheckpointLayout(tenant: Bytes, block: U64, root: Digest, c: Sealed)
    ensures
      var s, t := EncodeCheckpointMsg(tenant, block, root), 14 + |tenant|;
      && |s| == t + 41
      && s[..13] == ANCHOR_TAG && s[13] == PIPE && s[14..t] == tenant && s[t] == PIPE
      && s[t + 1..t + 9] == U64Le(block) && s[t + 9..] == root
    ensures
      var s := ToBytes(c);
      && |s| == 48 + |c.vmName|
      && s[..32] == c.root && s[32..40] == U64Le(c.blockCount) && s[40..48] == U64Le(c.lastUpdated) && s[48..] == c.vmName
  {
    hide U64Le;
  }

  lemma {:induction false} HexHasNoPipe(s: Bytes)
    requires forall i :: 0 <= i < |s| ==> HexVal(s[i]).Some?
    ensures PIPE !in s
  {
    assert HexVal(PIPE).None?;
  }

  lemma {:induction false} LineIsTrimmed(tenant: Bytes, block: Bytes, root: Bytes, sig: Bytes)
    requires sig != [] && 0x21 <= sig[|sig| - 1] < 0x80
    ensures Trim(JoinFields(tenant, block, root, sig)) == JoinFields(tenant, block, root, sig)
  {
    var line := JoinFields(tenant, block, root, sig);
    assert line[0] == ANCHOR_TAG[0];
    assert line[|line| - 1] == sig[|sig| - 1];
    TrimKeeps(line);
  }

  // A line this enclave wrote is accepted again, for every block number and
  // root, exactly for tenants whose name does not contain the separator; for
  // any other tenant it is never accepted.
  lemma {:induction false} AnchorRoundTrip(mac: Mac, master: Digest, tenant: Bytes, block: U64, root: Digest)
    ensures PIPE !in tenant ==>
      VerifiedAnchor(mac, master, tenant, CheckpointLine(mac, master, tenant, block, root)) == Some((block, root))
    ensures PIPE in tenant ==> forall line :: VerifiedAnchor(mac, master, tenant, line) == None
  {
    hide HexEncode, Dec, ParseU64, HexDecode, Trim, EncodeCheckpointMsg;
    var sig := SignCheckpoint(mac, master, tenant, block, root);
    var line := CheckpointLine(mac, master, tenant, block, root);
    var last := HexEncode(sig)[63];
    assert HexVal(last).Some?;
    LineIsTrimmed(tenant, Dec(block), HexEncode(root), HexEncode(sig));
    if PIPE !in tenant {
      HexHasNoPipe(HexEncode(root));
      HexHasNoPipe(HexEncode(sig));
      DecHasNoPipe(block);
      ParseAnchorOf(line, tenant, Dec(block), HexEncode(root), HexEncode(sig));
      ParseU64RoundTrip(block);
      HexRoundTrip(root);
      HexRoundTrip(sig);
    }
  }

  // Every tenant the enclave serves has a valid label, so its anchors are accepted.
  lemma {:induction false} ServedAnchorRoundTrip(mac: Mac, master: Digest, tenant: Bytes, block: U64, root: Digest)
    requires ValidTenantLabel(tenant)
    ensures VerifiedAnchor(mac, master, tenant, CheckpointLine(mac, master, tenant, block, root)) == Some((block, root))
  {
    hide VerifiedAnchor, CheckpointLine, ValidTenantLabel;
    LabelHasNoPipe(tenant);
    AnchorRoundTrip(mac, master, tenant, block, root);
  }

  lemma {:induction false} DecHasNoPipe(n: nat)
    ensures PIPE !in Dec(n)
  {
    assert !IsDigit(PIPE);
  }

  // ---- sealed checkpoint bytes ----------------------------------------------------

  datatype Sealed = Sealed(root: Digest, blockCount: U64, lastUpdated: U64, vmName: Bytes)

  function ToBytes(c: Sealed): Bytes {
    c.root + (U64Le(c.blockCount) + (U64Le(c.lastUpdated) + c.vmName))
  }

  function FromBytes(s: Bytes): Option<Sealed> {
    if |s| < 48 then None
    else
      Pow256Widths();
      FromLeBound(s[32..40]);
      FromLeBound(s[40..48]);
      Some(Sealed(s[..32], FromLe(s[32..40]), FromLe(s[40..48]), Lossy(s[48..])))
  }

  // The code's names are Rust strings, hence valid UTF-8.
  lemma {:induction false} SealedRoundTrip(c: Sealed)
    ensures FromBytes(ToBytes(c)) == Some(c) <==> ValidUtf8(c.vmName)
  {
    hide Lossy, ValidUtf8;
    var s := ToBytes(c);
    assert s[..32] == c.root;
    assert s[32..40] == U64Le(c.blockCount);
    assert s[40..48] == U64Le(c.lastUpdated);
    assert s[48..] == c.vmName;
    Pow256Widths();
    assert c.blockCount % U64_LIMIT == c.blockCount && c.lastUpdated % U64_LIMIT == c.lastUpdated;
    LeRoundTrip(c.blockCount, 8);
    LeRoundTrip(c.lastUpdated, 8);
    LossyExact(c.vmName);
  }

  lemma {:induction false} U64LeOfFromLe(s: Bytes)
    requires |s| == 8
    ensures U64Le(FromLe(s)) == s
  {
    hide Le, FromLe, Pow256;
    Pow256Widths();
    FromLeBound(s);
    LeOfFromLe(s);
  }

  // At 48 bytes and up everything decodes, and encodes back to itself exactly
  // when the name part is valid UTF-8.
  lemma {:induction false} SealedDecodeEncode(s: Bytes)
    requires |s| >= 48
    ensures FromBytes(s).Some?
    ensures ToBytes(FromBytes(s).value) == s <==> ValidUtf8(s[48..])
  {
    hide Le, FromLe, Pow256, Lossy, ValidUtf8;
    U64LeOfFromLe(s[32..40]);
    U64LeOfFromLe(s[40..48]);
    LossyExact(s[48..]);
    var front, name := s[..32] + (s[32..40] + s[40..48]), Lossy(s[48..]);
    assert s == front + s[48..];
    assert ToBytes(FromBytes(s).value) == front + name;
    if front + name == s {
      ConcatSplit(front, name, front, s[48..]);
    }
  }
}
