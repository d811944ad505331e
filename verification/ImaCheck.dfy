// Replaying an IMA log against PCR10: the host enclave's checker over parsed
// records, the guest enclave's single-loop checker, and their agreement.

module ImaCheck {
  import opened Bytes
  import opened Codec
  import opened Text
  import opened ImaLog

  // ---- replay -------------------------------------------------------------------------------

  // What one extend hashes.
  function ExtendInput(pcr: Bytes, digest: Bytes): Bytes {
    pcr + digest
  }

  // PCR10 after the first n extends, from an all-zero register.
  function Replay(h: Hash, digests: seq<Digest>, n: nat): Digest
    requires n <= |digests|
  {
    if n == 0 then ZERO_DIGEST else h(ExtendInput(Replay(h, digests, n - 1), digests[n - 1]))
  }

  // The shortest prefix of at least `from` extends that replays to the target.
  function FindPrefix(h: Hash, digests: seq<Digest>, target: Digest, from: nat): (r: Option<nat>)
    requires from <= |digests|
    ensures r.Some? ==> from <= r.value <= |digests| && Replay(h, digests, r.value) == target
    ensures r.Some? ==> forall k :: from <= k < r.value ==> Replay(h, digests, k) != target
    ensures r.None? ==> forall k :: from <= k <= |digests| ==> Replay(h, digests, k) != target
    decreases |digests| - from
  {
    if Replay(h, digests, from) == target then Some(from)
    else if from == |digests| then None
    else FindPrefix(h, digests, target, from + 1)
  }

  // `replay_find_prefix`.
  method ReplayFindPrefix(h: Hash, digests: seq<Digest>, target: Digest) returns (r: Option<nat>)
    ensures r == FindPrefix(h, digests, target, 0)
    ensures r == Some(0) <==> target == ZERO_DIGEST
  {
    var pcr := ZERO_DIGEST;
    if pcr == target {
      return Some(0);
    }
    var i := 0;
    while i < |digests|
      invariant 0 <= i <= |digests|
      invariant pcr == Replay(h, digests, i) && pcr != target
      invariant FindPrefix(h, digests, target, 0) == FindPrefix(h, digests, target, i)
    {
      pcr := h(ExtendInput(pcr, digests[i]));
      i := i + 1;
      if pcr == target {
        return Some(i);
      }
    }
    r := None;
  }

  lemma {:induction false} ReplayPrefix(h: Hash, digests: seq<Digest>, m: nat, n: nat)
    requires n <= m <= |digests|
    ensures Replay(h, digests[..m], n) == Replay(h, digests, n)
  {
    if n > 0 {
      ReplayPrefix(h, digests, m, n - 1);
    }
  }

  // ---- the host enclave ---------------------------------------------------------------------

  // The PCR10 value to meet: 64 hexadecimal digits, surrounding whitespace dropped.
  function Target(pcr10: Bytes): Option<Digest> {
    match HexDecode(Trim(pcr10))
    case Some(t) => if |t| == 32 then Some(t) else None
    case None => None
  }

  // Exactly the hexadecimal text of the register, in either letter case, between any white space.
  lemma {:induction false} TargetExact(pcr10: Bytes, target: Digest)
    ensures Target(pcr10) == Some(target) <==> EqIgnoreCase(HexEncode(target), Trim(pcr10))
  {
    hide Trim, HexDecode, HexEncode, EqIgnoreCase;
    HexRoundTrip(target);
    HexCaseExact(HexEncode(target), Trim(pcr10));
  }

  function Extends(rs: seq<ImaRecord>): (ds: seq<Digest>)
    ensures |ds| == |rs|
  {
    seq(|rs|, i requires 0 <= i < |rs| => rs[i].extend)
  }

  function Ends(rs: seq<ImaRecord>): (es: seq<nat>)
    ensures |es| == |rs|
  {
    seq(|rs|, i requires 0 <= i < |rs| => rs[i].endOffset)
  }

  datatype Prefix = Prefix(attested: seq<ImaRecord>, total: nat, bytes: nat)
  datatype Attestation = Attestation(attested: nat, total: nat, bytes: nat)

  // `reconcile_ima_against_pcr10`.
  function Reconcile(h: Hash, records: seq<ImaRecord>, pcr10: Bytes): Result<Prefix> {
    match Target(pcr10)
    case None => Err(-5)
    case Some(target) =>
      if records == [] then Err(-1)
      else
        match FindPrefix(h, Extends(records), target, 0)
        case None => Err(-9)
        case Some(n) =>
          if n > 0 then Ok(Prefix(records[..n], |records|, records[n - 1].endOffset)) else Err(-1)
  }

  // Some nonempty prefix of the extends replays to the target.
  ghost predicate Meets(h: Hash, digests: seq<Digest>, target: Digest) {
    exists n :: 0 < n <= |digests| && Replay(h, digests, n) == target
  }

  // n is the least prefix length that replays to the target.
  ghost predicate IsLeast(h: Hash, digests: seq<Digest>, target: Digest, n: nat) {
    && 0 < n <= |digests| && Replay(h, digests, n) == target
    && forall k :: 0 <= k < n ==> Replay(h, digests, k) != target
  }

  // When reconciliation succeeds, with what, and which error it gives otherwise.
  lemma {:induction false} ReconcileExact(h: Hash, records: seq<ImaRecord>, pcr10: Bytes)
    ensures Reconcile(h, records, pcr10) == Err(-5) <==> Target(pcr10).None?
    ensures Target(pcr10).Some? ==>
      var target, ds, r := Target(pcr10).value, Extends(records), Reconcile(h, records, pcr10);
      && (r == Err(-1) <==> records == [] || target == ZERO_DIGEST)
      && (r.Ok? <==> target != ZERO_DIGEST && Meets(h, ds, target))
      && (r == Err(-9) <==> records != [] && target != ZERO_DIGEST && !Meets(h, ds, target))
      && (r.Ok? ==> IsLeast(h, ds, target, |r.value.attested|))
      && (r.Ok? ==>
            var n := |r.value.attested|;
            r.value == Prefix(records[..n], |records|, records[n - 1].endOffset))
  {
    hide Target, FindPrefix, Replay, Extends;
    ReplayZero(h, Extends(records));
  }

  lemma {:induction false} ReplayZero(h: Hash, digests: seq<Digest>)
    ensures Replay(h, digests, 0) == ZERO_DIGEST
  {
  }

  function Summary(p: Prefix): Attestation {
    Attestation(|p.attested|, p.total, p.bytes)
  }

  // `verify_ima_log_against_pcr10` of the host enclave.
  function HostVerify(h: Hash, log: Bytes, pcr10: Bytes): Result<Attestation> {
    match ParseLog(h, log)
    case Err(c) => Err(c)
    case Ok(records) =>
      match Reconcile(h, records, pcr10)
      case Err(c) => Err(c)
      case Ok(p) => Ok(Summary(p))
  }

  method TargetLoop(pcr10: Bytes) returns (r: Option<Digest>)
    ensures r == Target(pcr10)
  {
    hide Trim, HexDecode;
    var t := HexDecodeLoop(Trim(pcr10));
    r := if t.Some? && |t.value| == 32 then t else None;
  }

  method VerifyHost(h: Hash, log: Bytes, pcr10: Bytes) returns (r: Result<Attestation>)
    ensures r == HostVerify(h, log, pcr10)
  {
    hide ParseLog, Target, FindPrefix, Replay;
    var parsed := ParseImaLog(h, log);
    if parsed.Err? {
      return Err(parsed.code);
    }
    var records := parsed.value;
    var target := TargetLoop(pcr10);
    if target.None? {
      return Err(-5);
    }
    if |records| == 0 {
      return Err(-1);
    }
    var found := ReplayFindPrefix(h, Extends(records), target.value);
    match found {
      case Some(n) =>
        if n > 0 {
          return Ok(Attestation(n, |records|, records[n - 1].endOffset));
        }
        r := Err(-1);
      case None =>
        r := Err(-9);
    }
  }

  // ---- the guest enclave --------------------------------------------------------------------

  // `splitn(n, ' ')`.
  function SplitN(s: Bytes, n: nat): (r: seq<Bytes>)
    requires n > 0
    ensures 1 <= |r| <= n
    decreases n
  {
    if n == 1 then [s]
    else
      match IndexOf(s, SPACE, 0)
      case None => [s]
      case Some(i) => [s[..i]] + SplitN(s[i + 1..], n - 1)
  }

  function GuestFields(line: Bytes): Option<Fields> {
    var p := SplitN(line, 5);
    if |p| == 5 then Some(Fields(p[0], p[1], p[2], p[3], p[4])) else None
  }

  datatype Entry = Nothing | Bad(code: int) | Extend(digest: Digest)

  function GuestEntry(h: Hash, segment: Bytes): Entry {
    var line := TrimEnd(segment);
    if line == [] then Nothing
    else
      match GuestFields(line)
      case None => Bad(-2)
      case Some(f) =>
        if f.pcr != PCR_TEN then Nothing
        else if f.template != IMA_NG then Bad(-3)
        else if f.digest != [] && AllZeroDigits(f.digest) then Extend(ONES_DIGEST)
        else
          match TemplateInput(f.dfield, f.fname)
          case None => Bad(-4)
          case Some(data) => Extend(h(data))
  }

  // The two vectors the guest's loop fills.
  datatype Scan = Scan(digests: seq<Digest>, offsets: seq<nat>)

  function AfterEntry(e: Entry, end: nat, rest: Result<Scan>): Result<Scan> {
    match e
    case Nothing => rest
    case Bad(c) => Err(c)
    case Extend(d) =>
      match rest
      case Err(c) => Err(c)
      case Ok(s) => Ok(Scan([d] + s.digests, [end] + s.offsets))
  }

  function ScanFrom(h: Hash, log: Bytes, base: nat): Result<Scan>
    decreases |log|
  {
    if log == [] then Ok(Scan([], []))
    else
      var n := FirstSegment(log);
      AfterEntry(GuestEntry(h, log[..n]), base + n, ScanFrom(h, log[n..], base + n))
  }

  // The guest's decision on what its loop collected.
  function Conclude(h: Hash, s: Scan, target: Digest): Result<Attestation>
    requires |s.digests| == |s.offsets|
  {
    if s.digests == [] then Err(-1)
    else
      match FindPrefix(h, s.digests, target, 0)
      case None => Err(-9)
      case Some(n) => if n > 0 then Ok(Attestation(n, |s.digests|, s.offsets[n - 1])) else Err(-1)
  }

  function GuestVerify(h: Hash, log: Bytes, pcr10: Bytes): Result<Attestation> {
    match Target(pcr10)
    case None => Err(-5)
    case Some(target) =>
      ScanBalanced(h, log, 0);
      match ScanFrom(h, log, 0)
      case Err(c) => Err(c)
      case Ok(s) => Conclude(h, s, target)
  }

  lemma {:induction false} ScanBalanced(h: Hash, log: Bytes, base: nat)
    ensures ScanFrom(h, log, base).Ok? ==>
      |ScanFrom(h, log, base).value.digests| == |ScanFrom(h, log, base).value.offsets|
    decreases |log|
  {
    hide FirstSegment, GuestEntry;
    if log != [] {
      var n := FirstSegment(log);
      ScanBalanced(h, log[n..], base + n);
    }
  }

  // Collected so far, then the rest.
  function Collect(s: Scan, rest: Result<Scan>): Result<Scan> {
    match rest
    case Err(c) => Err(c)
    case Ok(t) => Ok(Scan(s.digests + t.digests, s.offsets + t.offsets))
  }

  lemma {:induction false} CollectStep(s: Scan, e: Entry, end: nat, rest: Result<Scan>)
    ensures Collect(Scan([], []), rest) == rest
    ensures rest == Ok(Scan([], [])) ==> Collect(s, rest) == Ok(s)
    ensures Collect(s, AfterEntry(e, end, rest)) ==
      match e
      case Nothing => Collect(s, rest)
      case Bad(c) => Err(c)
      case Extend(d) => Collect(Scan(s.digests + [d], s.offsets + [end]), rest)
  {
    if rest.Ok? {
      var t := rest.value;
      assert [] + t.digests == t.digests && [] + t.offsets == t.offsets;
      assert s.digests + [] == s.digests && s.offsets + [] == s.offsets;
      if e.Extend? {
        assert s.digests + ([e.digest] + t.digests) == (s.digests + [e.digest]) + t.digests;
        assert s.offsets + ([end] + t.offsets) == (s.offsets + [end]) + t.offsets;
      }
    }
  }

  lemma {:induction false} ScanStep(h: Hash, log: Bytes, cursor: nat, end: nat)
    requires cursor < end <= |log| && end - cursor == FirstSegment(log[cursor..])
    ensures ScanFrom(h, log[cursor..], cursor) ==
      AfterEntry(GuestEntry(h, log[cursor..end]), end, ScanFrom(h, log[end..], end))
  {
    hide FirstSegment, GuestEntry, AfterEntry;
    var tail := log[cursor..];
    assert tail[..end - cursor] == log[cursor..end] && tail[end - cursor..] == log[end..];
  }

  lemma {:induction false} ScanEmpty(h: Hash, base: nat)
    ensures ScanFrom(h, [], base) == Ok(Scan([], []))
  {
  }

  // `verify_ima_log_against_pcr10` of the guest enclave.
  method VerifyGuest(h: Hash, log: Bytes, pcr10: Bytes) returns (r: Result<Attestation>)
    ensures r == GuestVerify(h, log, pcr10)
  {
    hide FirstSegment, GuestEntry, AfterEntry, Collect, ScanFrom, Target, FindPrefix;
    var target := TargetLoop(pcr10);
    if target.None? {
      return Err(-5);
    }
    var digests: seq<Digest>, offsets: seq<nat>, cursor := [], [], 0;
    CollectStep(Scan([], []), Nothing, 0, ScanFrom(h, log, 0));
    assert log[0..] == log;
    while cursor < |log|
      invariant 0 <= cursor <= |log| && |digests| == |offsets|
      invariant ScanFrom(h, log, 0) == Collect(Scan(digests, offsets), ScanFrom(h, log[cursor..], cursor))
    {
      var end := SegmentLoop(log, cursor);
      var entry := GuestEntry(h, log[cursor..end]);
      ScanStep(h, log, cursor, end);
      CollectStep(Scan(digests, offsets), entry, end, ScanFrom(h, log[end..], end));
      match entry {
        case Nothing =>
        case Bad(code) =>
          return Err(code);
        case Extend(d) =>
          digests, offsets := digests + [d], offsets + [end];
      }
      cursor := end;
    }
    assert log[cursor..] == [];
    ScanEmpty(h, cursor);
    CollectStep(Scan(digests, offsets), Nothing, 0, ScanFrom(h, [], cursor));
    if |digests| == 0 {
      return Err(-1);
    }
    var found := ReplayFindPrefix(h, digests, target.value);
    match found {
      case Some(n) =>
        if n > 0 {
          return Ok(Attestation(n, |digests|, offsets[n - 1]));
        }
        r := Err(-1);
      case None =>
        r := Err(-9);
    }
  }

  // ---- the two checkers agree -----------------------------------------------------------------

  // A line cut at the positions in b.
  function Cut(line: Bytes, at: nat, b: seq<nat>): (r: seq<Bytes>)
    requires at <= |line|
    ensures |r| <= |b| + 1
    decreases |b|
  {
    if b == [] then [line[at..]]
    else if at <= b[0] < |line| then [line[at..b[0]]] + Cut(line, b[0] + 1, b[1..])
    else []
  }

  // Cutting at the first k spaces and `splitn` give the same pieces.
  lemma {:induction false} SplitIsCut(line: Bytes, at: nat, k: nat)
    requires at <= |line|
    ensures
      match Bounds(line, at, k)
      case None => |SplitN(line[at..], k + 1)| <= k
      case Some(b) => SplitN(line[at..], k + 1) == Cut(line, at, b) && |Cut(line, at, b)| == k + 1
    decreases k
  {
    hide IndexOf, Bounds, SplitN, Cut;
    var tail := line[at..];
    SplitStep(tail, k + 1);
    BoundsStep(line, at, k);
    if k == 0 {
      CutNone(line, at);
    } else {
      IndexOfTail(line, SPACE, at);
      var found := IndexOf(line, SPACE, at);
      if found.Some? {
        var i := found.value;
        assert tail[i - at + 1..] == line[i + 1..];
        assert tail[..i - at] == line[at..i];
        SplitIsCut(line, i + 1, k - 1);
        var rest := Bounds(line, i + 1, k - 1);
        if rest.Some? {
          CutOne(line, at, i, rest.value);
        }
      }
    }
  }

  lemma {:induction false} SplitStep(s: Bytes, n: nat)
    requires n > 0
    ensures SplitN(s, n) ==
      if n == 1 || IndexOf(s, SPACE, 0).None? then [s]
      else
        var i := IndexOf(s, SPACE, 0).value;
        [s[..i]] + SplitN(s[i + 1..], n - 1)
  {
    hide IndexOf;
  }

  lemma {:induction false} BoundsStep(line: Bytes, at: nat, k: nat)
    requires at <= |line|
    ensures Bounds(line, at, k) ==
      if k == 0 then Some([])
      else if IndexOf(line, SPACE, at).None? then None
      else
        var i := IndexOf(line, SPACE, at).value;
        Prepend([i], Bounds(line, i + 1, k - 1))
  {
    hide IndexOf;
  }

  lemma {:induction false} CutNone(line: Bytes, at: nat)
    requires at <= |line|
    ensures Cut(line, at, []) == [line[at..]]
  {
  }

  lemma {:induction false} CutFour(line: Bytes, b: seq<nat>)
    requires |b| == 4 && b[0] < b[1] < b[2] < b[3] < |line|
    ensures Cut(line, 0, b) ==
      [line[..b[0]], line[b[0] + 1..b[1]], line[b[1] + 1..b[2]], line[b[2] + 1..b[3]], line[b[3] + 1..]]
  {
    assert Cut(line, b[3] + 1, []) == [line[b[3] + 1..]];
    CutOne(line, b[2] + 1, b[3], []);
    CutOne(line, b[1] + 1, b[2], [b[3]]);
    CutOne(line, b[0] + 1, b[1], [b[2], b[3]]);
    CutOne(line, 0, b[0], [b[1], b[2], b[3]]);
    assert b == [b[0]] + [b[1], b[2], b[3]];
  }

  lemma {:induction false} CutOne(line: Bytes, at: nat, i: nat, rest: seq<nat>)
    requires at <= i < |line|
    ensures Cut(line, at, [i] + rest) == [line[at..i]] + Cut(line, i + 1, rest)
  {
    assert ([i] + rest)[1..] == rest;
  }

  lemma {:induction false} SameFields(line: Bytes)
    ensures HostFields(line) == GuestFields(line)
  {
    hide Bounds, SplitN, Cut;
    SplitIsCut(line, 0, 4);
    assert line[0..] == line;
    if Bounds(line, 0, 4).Some? {
      var b := Bounds(line, 0, 4).value;
      assert b[0] < b[1] < b[2] < b[3] < |line|;
      CutFour(line, b);
    }
  }

  function Join(a: Bytes, rest: Bytes): Bytes {
    a + [SPACE] + rest
  }

  function JoinFields(f: Fields): Bytes {
    Join(f.pcr, Join(f.digest, Join(f.template, Join(f.dfield, f.fname))))
  }

  // The first four fields hold no space; the file name may.
  predicate Separable(f: Fields) {
    SPACE !in f.pcr && SPACE !in f.digest && SPACE !in f.template && SPACE !in f.dfield
  }

  lemma {:induction false} SplitJoined(a: Bytes, rest: Bytes, n: nat)
    requires SPACE !in a && n > 1
    ensures SplitN(Join(a, rest), n) == [a] + SplitN(rest, n - 1)
  {
    hide IndexOf, SplitN;
    var s := Join(a, rest);
    SplitStep(s, n);
    assert s[|a|] == SPACE && forall j :: 0 <= j < |a| ==> s[j] == a[j];
    assert s[..|a|] == a && s[|a| + 1..] == rest;
  }

  lemma {:induction false} SplitRejoins(s: Bytes, p: seq<Bytes>) returns (rest: Bytes)
    requires |p| > 1 && SplitN(s, |p|) == p
    ensures s == Join(p[0], rest) && SPACE !in p[0] && SplitN(rest, |p| - 1) == p[1..]
  {
    hide IndexOf, SplitN;
    SplitStep(s, |p|);
    var i := IndexOf(s, SPACE, 0).value;
    rest := s[i + 1..];
    assert s == Join(s[..i], rest);
  }

  // A line has five fields exactly when it is their join.
  lemma {:induction false} FieldsExact(line: Bytes, f: Fields)
    ensures HostFields(line) == Some(f) <==> line == JoinFields(f) && Separable(f)
  {
    hide HostFields, SplitN, Join;
    SameFields(line);
    SplitStep(f.fname, 1);
    if Separable(f) {
      SplitJoined(f.dfield, f.fname, 2);
      SplitJoined(f.template, Join(f.dfield, f.fname), 3);
      SplitJoined(f.digest, Join(f.template, Join(f.dfield, f.fname)), 4);
      SplitJoined(f.pcr, Join(f.digest, Join(f.template, Join(f.dfield, f.fname))), 5);
    }
    if GuestFields(line) == Some(f) {
      var p := SplitN(line, 5);
      assert p == [f.pcr, f.digest, f.template, f.dfield, f.fname];
      var r4 := SplitRejoins(line, p);
      var r3 := SplitRejoins(r4, [f.digest, f.template, f.dfield, f.fname]);
      var r2 := SplitRejoins(r3, [f.template, f.dfield, f.fname]);
      var r1 := SplitRejoins(r2, [f.dfield, f.fname]);
      SplitStep(r1, 1);
    }
  }

  // What the guest keeps of a host line.
  function Project(line: Line): Entry {
    match line
    case Skip => Nothing
    case Fail(c) => Bad(c)
    case Measure(x, _, _) => Extend(x)
  }

  lemma {:induction false} SameLine(h: Hash, segment: Bytes)
    ensures GuestEntry(h, segment) == Project(HostLine(h, segment))
  {
    hide HostFields, GuestFields, TrimEnd, TemplateInput;
    SameFields(TrimEnd(segment));
  }

  function ProjectAll(rs: Result<seq<ImaRecord>>): Result<Scan> {
    match rs
    case Err(c) => Err(c)
    case Ok(s) => Ok(Scan(Extends(s), Ends(s)))
  }

  lemma {:induction false} ProjectAfter(line: Line, end: nat, rest: Result<seq<ImaRecord>>)
    ensures ProjectAll(After(line, end, rest)) == AfterEntry(Project(line), end, ProjectAll(rest))
  {
    if line.Measure? && rest.Ok? {
      var r := ImaRecord(line.extend, line.fileHash, line.filePath, end);
      assert Extends([r] + rest.value) == [line.extend] + Extends(rest.value);
      assert Ends([r] + rest.value) == [end] + Ends(rest.value);
    }
  }

  lemma {:induction false} SameScan(h: Hash, log: Bytes, base: nat)
    ensures ScanFrom(h, log, base) == ProjectAll(ParseFrom(h, log, base))
    decreases |log|
  {
    hide FirstSegment, GuestEntry, HostLine, After, AfterEntry, Project;
    if log == [] {
      assert Extends([]) == [] && Ends([]) == [];
    } else {
      var n := FirstSegment(log);
      SameLine(h, log[..n]);
      SameScan(h, log[n..], base + n);
      ProjectAfter(HostLine(h, log[..n]), base + n, ParseFrom(h, log[n..], base + n));
    }
  }

  lemma {:induction false} ParseErrors(h: Hash, log: Bytes, base: nat)
    ensures ParseFrom(h, log, base).Err? ==> ParseFrom(h, log, base).code in {-2, -3, -4}
    decreases |log|
  {
    hide FirstSegment, HostFields, TrimEnd, TemplateInput, IsViolation, ParseFrom;
    if log == [] {
      ParseEmpty(h, base);
    } else {
      var n := FirstSegment(log);
      ParseUnfold(h, log, base);
      ParseErrors(h, log[n..], base + n);
    }
  }

  // Both enclaves accept the same logs for the same PCR10 with the same counts
  // and byte length.  Their answers differ only in the error code, and exactly
  // when the log is malformed and so is the PCR10 text.
  lemma {:induction false} CheckersAgree(h: Hash, log: Bytes, pcr10: Bytes)
    ensures HostVerify(h, log, pcr10).Ok? <==> GuestVerify(h, log, pcr10).Ok?
    ensures HostVerify(h, log, pcr10).Ok? ==> HostVerify(h, log, pcr10) == GuestVerify(h, log, pcr10)
    ensures HostVerify(h, log, pcr10) != GuestVerify(h, log, pcr10) <==>
      ParseLog(h, log).Err? && Target(pcr10).None?
  {
    hide ParseFrom, ScanFrom, Target, FindPrefix, Replay;
    SameScan(h, log, 0);
    ParseErrors(h, log, 0);
  }

  // Both enclaves only ever pass the hexadecimal text of 32 register bytes: for
  // every such text their answers are the same, error codes included.
  lemma {:induction false} ServedAgree(h: Hash, log: Bytes, d: Digest)
    ensures HostVerify(h, log, HexEncode(d)) == GuestVerify(h, log, HexEncode(d))
  {
    hide HostVerify, GuestVerify, ParseLog, Target, HexEncode;
    TargetOf(d);
    CheckersAgree(h, log, HexEncode(d));
  }

  // A pair on which the functions do differ, though no caller passes it: a log
  // of one word, and no PCR10 text at all.
  lemma {:induction false} CheckersDiffer(h: Hash)
    ensures HostVerify(h, [0x78], []) == Err(-2) && GuestVerify(h, [0x78], []) == Err(-5)
  {
    hide WhitespaceTail, HostFields, ParseFrom;
    var word: Bytes := [0x78];
    NoWhitespaceTail(word);
    assert IndexOf(word, NEWLINE, 1) == None && FirstSegment(word) == 1;
    assert HostFields(word) == None by { NoFields(word); }
    assert word[..1] == word;
    ParseUnfold(h, word, 0);
    assert WhitespaceHead([]) == 0;
    assert Trim([]) == [] by { TrimNothing(); }
  }

  lemma {:induction false} NoFields(line: Bytes)
    requires SPACE !in line
    ensures HostFields(line) == None
  {
    hide IndexOf;
  }

  lemma {:induction false} TrimNothing()
    ensures Trim([]) == []
  {
  }

  // ---- the attested prefix stands on its own ----------------------------------------------------

  // Accepted exactly when the log parses and some nonempty prefix of its
  // records replays to a nonzero target.
  lemma {:induction false} AcceptedExactly(h: Hash, log: Bytes, pcr10: Bytes)
    ensures HostVerify(h, log, pcr10).Ok? <==>
      && ParseLog(h, log).Ok? && Target(pcr10).Some? && Target(pcr10).value != ZERO_DIGEST
      && Meets(h, Extends(ParseLog(h, log).value), Target(pcr10).value)
  {
    hide ParseLog, Target, Meets, IsLeast, Reconcile, Extends;
    if ParseLog(h, log).Ok? {
      ReconcileExact(h, ParseLog(h, log).value, pcr10);
    }
  }

  // The PCR10 text of a digest is read back as that digest.
  lemma {:induction false} TargetOf(d: Digest)
    ensures Target(HexEncode(d)) == Some(d)
  {
    hide HexEncode, HexDecode, Trim;
    var t := HexEncode(d);
    assert HexVal(t[0]).Some? && HexVal(t[63]).Some?;
    TrimKeeps(t);
    HexRoundTrip(d);
  }

  // A log is accepted for the PCR10 that any nonempty prefix of its own records
  // leaves behind, a stale one included, unless that value is all zeros; at
  // most that prefix is attested.
  lemma {:induction false} OwnReplayAccepted(h: Hash, log: Bytes, n: nat)
    requires ParseLog(h, log).Ok? && 0 < n <= |ParseLog(h, log).value|
    ensures
      var records := ParseLog(h, log).value;
      var pcr := Replay(h, Extends(records), n);
      var r := HostVerify(h, log, HexEncode(pcr));
      && (r.Ok? <==> pcr != ZERO_DIGEST)
      && (r.Ok? ==> r.value.attested <= n && r.value.total == |records|)
  {
    hide ParseLog, Target, Replay, Reconcile, Extends, HexEncode;
    var records := ParseLog(h, log).value;
    var pcr := Replay(h, Extends(records), n);
    TargetOf(pcr);
    ReconcileExact(h, records, HexEncode(pcr));
    assert Meets(h, Extends(records), pcr);
  }

  function FirstRecords(rs: Result<seq<ImaRecord>>, n: nat): Result<seq<ImaRecord>> {
    match rs
    case Err(c) => Err(c)
    case Ok(s) => if n <= |s| then Ok(s[..n]) else Err(0)
  }

  // Cutting the log at the attested byte length keeps exactly the attested
  // records, and the cut log is attested whole.
  lemma {:induction false} AttestedPrefixStands(h: Hash, log: Bytes, pcr10: Bytes)
    requires HostVerify(h, log, pcr10).Ok?
    ensures
      var a := HostVerify(h, log, pcr10).value;
      && 0 < a.attested <= a.total && a.bytes <= |log|
      && ParseLog(h, log[..a.bytes]) == FirstRecords(ParseLog(h, log), a.attested)
      && FirstRecords(ParseLog(h, log), a.total) == ParseLog(h, log)
      && HostVerify(h, log[..a.bytes], pcr10) == Ok(Attestation(a.attested, a.attested, a.bytes))
  {
    hide ParseFrom, Target, Replay, Reconcile, Meets, Extends;
    var a := HostVerify(h, log, pcr10).value;
    var records := ParseLog(h, log).value;
    ReconcileExact(h, records, pcr10);
    assert records[..|records|] == records;
    ReparsePrefix(h, log, 0, a.attested);
    ReconcilePrefix(h, records, pcr10, a.attested);
  }

  lemma {:induction false} ReconcilePrefix(h: Hash, records: seq<ImaRecord>, pcr10: Bytes, n: nat)
    requires Reconcile(h, records, pcr10).Ok? && n == |Reconcile(h, records, pcr10).value.attested|
    ensures 0 < n <= |records|
    ensures Reconcile(h, records[..n], pcr10) == Ok(Prefix(records[..n], n, records[n - 1].endOffset))
  {
    hide Target, Replay, Reconcile;
    ReconcileExact(h, records, pcr10);
    var cut := records[..n];
    assert Extends(cut) == Extends(records)[..n];
    forall k | 0 <= k <= n
      ensures Replay(h, Extends(cut), k) == Replay(h, Extends(records), k)
    {
      ReplayPrefix(h, Extends(records), n, k);
    }
    ReconcileExact(h, cut, pcr10);
    var r := Reconcile(h, cut, pcr10);
    assert Replay(h, Extends(cut), n) == Target(pcr10).value;
    assert r.Ok?;
    assert |r.value.attested| == n;
    assert cut[..n] == cut;
  }
}
