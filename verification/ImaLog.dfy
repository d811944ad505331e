// The IMA log: line format, the host enclave's parser, and parsing as a homomorphism.

module ImaLog {
  import opened Bytes
  import opened Codec
  import opened Text

  datatype Result<+T> = Ok(value: T) | Err(code: int)

  // ---- searching ---------------------------------------------------------------------------

  // The first occurrence of a byte at or after `from`.
  function IndexOf(s: Bytes, b: Byte, from: nat): (r: Option<nat>)
    requires from <= |s|
    ensures r.Some? ==> from <= r.value < |s| && s[r.value] == b
    ensures r.Some? ==> forall j :: from <= j < r.value ==> s[j] != b
    ensures r.None? ==> forall j :: from <= j < |s| ==> s[j] != b
    decreases |s| - from
  {
    if from == |s| then None else if s[from] == b then Some(from) else IndexOf(s, b, from + 1)
  }

  // `find_byte`.
  method FindByte(s: Bytes, b: Byte, from: nat) returns (r: Option<nat>)
    requires from <= |s|
    ensures r == IndexOf(s, b, from)
  {
    var i := from;
    while i < |s|
      invariant from <= i <= |s|
      invariant IndexOf(s, b, from) == IndexOf(s, b, i)
    {
      if s[i] == b {
        return Some(i);
      }
      i := i + 1;
    }
    r := None;
  }

  // Searching a tail is searching the whole from there.
  lemma {:induction false} IndexOfTail(s: Bytes, b: Byte, k: nat)
    requires k <= |s|
    ensures IndexOf(s[k..], b, 0).None? <==> IndexOf(s, b, k).None?
    ensures IndexOf(s, b, k).Some? ==> IndexOf(s[k..], b, 0) == Some(IndexOf(s, b, k).value - k)
  {
    hide IndexOf;
    var t := s[k..];
    var a, c := IndexOf(t, b, 0), IndexOf(s, b, k);
    if c.Some? {
      assert t[c.value - k] == b;
    }
    if a.Some? {
      assert s[a.value + k] == b;
    }
    if a.Some? && c.Some? {
      assert forall j :: k <= j < c.value ==> t[j - k] == s[j];
    }
  }

  // ---- one line -----------------------------------------------------------------------------

  // pcr, template digest, template name, d-ng field, n-ng field
  datatype Fields = Fields(pcr: Bytes, digest: Bytes, template: Bytes, dfield: Bytes, fname: Bytes)

  // The positions of the next k spaces, each searched from just behind the one before.
  function Bounds(line: Bytes, at: nat, k: nat): (r: Option<seq<nat>>)
    requires at <= |line|
    ensures r.Some? ==> |r.value| == k
    ensures r.Some? ==> forall i :: 0 <= i < k ==> at <= r.value[i] < |line|
    ensures r.Some? ==> forall i, j :: 0 <= i < j < k ==> r.value[i] < r.value[j]
    decreases k
  {
    if k == 0 then Some([])
    else
      match IndexOf(line, SPACE, at)
      case None => None
      case Some(i) => Prepend([i], Bounds(line, i + 1, k - 1))
  }

  function Prepend(found: seq<nat>, rest: Option<seq<nat>>): Option<seq<nat>> {
    match rest
    case None => None
    case Some(b) => Some(found + b)
  }

  function HostFields(line: Bytes): Option<Fields> {
    match Bounds(line, 0, 4)
    case None => None
    case Some(b) =>
      Some(Fields(line[..b[0]], line[b[0] + 1..b[1]], line[b[1] + 1..b[2]], line[b[2] + 1..b[3]], line[b[3] + 1..]))
  }

  // The `bounds` loop of `parse_ima_log`.
  method FindBounds(line: Bytes) returns (r: Option<seq<nat>>)
    ensures r == Bounds(line, 0, 4)
  {
    hide IndexOf, Bounds;
    var bounds: seq<nat>, at: nat, k := [], 0, 0;
    BoundsRest(line, [], 0, 4);
    while k < 4
      invariant 0 <= k <= 4 && at <= |line|
      invariant Bounds(line, 0, 4) == Prepend(bounds, Bounds(line, at, 4 - k))
    {
      var i := FindByte(line, SPACE, at);
      BoundsRest(line, bounds, at, 4 - k);
      if i.None? {
        return None;
      }
      bounds := bounds + [i.value];
      at := i.value + 1;
      k := k + 1;
    }
    BoundsRest(line, bounds, at, 0);
    r := Some(bounds);
  }

  lemma {:induction false} BoundsRest(line: Bytes, found: seq<nat>, at: nat, k: nat)
    requires at <= |line|
    ensures Prepend([], Bounds(line, at, k)) == Bounds(line, at, k)
    ensures k == 0 ==> Prepend(found, Bounds(line, at, k)) == Some(found)
    ensures k > 0 && IndexOf(line, SPACE, at).None? ==> Bounds(line, at, k) == None
    ensures k > 0 && IndexOf(line, SPACE, at).Some? ==>
      var i := IndexOf(line, SPACE, at).value;
      Prepend(found, Bounds(line, at, k)) == Prepend(found + [i], Bounds(line, i + 1, k - 1))
  {
    hide IndexOf;
    var all := Bounds(line, at, k);
    if all.Some? {
      assert [] + all.value == all.value;
      assert all.value == [] ==> found + all.value == found;
    }
    if k > 0 && IndexOf(line, SPACE, at).Some? {
      var i := IndexOf(line, SPACE, at).value;
      var rest := Bounds(line, i + 1, k - 1);
      if rest.Some? {
        assert found + ([i] + rest.value) == (found + [i]) + rest.value;
      }
    }
  }

  // The text before and after the first colon.
  function SplitOnce(s: Bytes): Option<(Bytes, Bytes)> {
    match IndexOf(s, COLON, 0)
    case None => None
    case Some(i) => Some((s[..i], s[i + 1..]))
  }

  function DField(algo: Bytes, raw: Bytes): Bytes {
    algo + [COLON] + ([0] + raw)
  }

  // The bytes of an ima-ng template; field lengths are cut to 32 bits.
  function TemplateData(algo: Bytes, raw: Bytes, fname: Bytes): Bytes {
    U32Le(|DField(algo, raw)|) + DField(algo, raw) + (U32Le(|fname + [0]|) + (fname + [0]))
  }

  // What a d-ng and n-ng field pair hashes: `ima_ng_template_digest_sha256`.
  function TemplateInput(dfield: Bytes, fname: Bytes): Option<Bytes> {
    match SplitOnce(dfield)
    case None => None
    case Some(parts) =>
      match HexDecode(parts.1)
      case None => None
      case Some(raw) => Some(TemplateData(parts.0, raw, fname))
  }

  predicate AllZeroDigits(s: Bytes) {
    forall i :: 0 <= i < |s| ==> s[i] == 0x30
  }

  predicate IsViolation(f: Fields) {
    f.digest != [] && AllZeroDigits(f.digest)
  }

  const PCR_TEN: Bytes := [0x31, 0x30]
  // "ima-ng"
  const IMA_NG: Bytes := [0x69, 0x6D, 0x61, 0x2D, 0x6E, 0x67]

  // A line contributes nothing, an error, or one measurement.
  datatype Line = Skip | Fail(code: int) | Measure(extend: Digest, fileHash: Bytes, filePath: Bytes)

  function FieldsLine(h: Hash, f: Fields): Line {
    if f.pcr != PCR_TEN then Skip
    else if f.template != IMA_NG then Fail(-3)
    else if IsViolation(f) then Measure(ONES_DIGEST, [], f.fname)
    else
      match TemplateInput(f.dfield, f.fname)
      case None => Fail(-4)
      case Some(data) => Measure(h(data), SplitOnce(f.dfield).value.1, f.fname)
  }

  function HostLine(h: Hash, segment: Bytes): Line {
    var line := TrimEnd(segment);
    if line == [] then Skip
    else
      match HostFields(line)
      case None => Fail(-2)
      case Some(f) => FieldsLine(h, f)
  }

  // ---- the whole log --------------------------------------------------------------------------

  datatype ImaRecord = ImaRecord(extend: Digest, fileHash: Bytes, filePath: Bytes, endOffset: nat)

  // Length of the first segment of `split_inclusive('\n')`.
  function FirstSegment(log: Bytes): (n: nat)
    requires log != []
    ensures 0 < n <= |log|
    ensures n < |log| ==> log[n - 1] == NEWLINE
  {
    match IndexOf(log, NEWLINE, 0)
    case Some(i) => i + 1
    case None => |log|
  }

  function Cons(r: ImaRecord, rest: Result<seq<ImaRecord>>): Result<seq<ImaRecord>> {
    match rest
    case Ok(rs) => Ok([r] + rs)
    case Err(c) => Err(c)
  }

  // One line's contribution in front of what follows it.
  function After(line: Line, end: nat, rest: Result<seq<ImaRecord>>): Result<seq<ImaRecord>> {
    match line
    case Skip => rest
    case Fail(c) => Err(c)
    case Measure(x, fh, fp) => Cons(ImaRecord(x, fh, fp, end), rest)
  }

  // The records of a log that starts at offset `base`.
  function ParseFrom(h: Hash, log: Bytes, base: nat): Result<seq<ImaRecord>>
    decreases |log|
  {
    if log == [] then Ok([])
    else
      var n := FirstSegment(log);
      After(HostLine(h, log[..n]), base + n, ParseFrom(h, log[n..], base + n))
  }

  function ParseLog(h: Hash, log: Bytes): Result<seq<ImaRecord>> {
    ParseFrom(h, log, 0)
  }

  method LineLoop(h: Hash, segment: Bytes) returns (r: Line)
    ensures r == HostLine(h, segment)
  {
    hide Bounds, TrimEnd, FieldsLine;
    var line := TrimEnd(segment);
    if line == [] {
      return Skip;
    }
    var bounds := FindBounds(line);
    if bounds.None? {
      return Fail(-2);
    }
    r := FieldsLine(h, HostFields(line).value);
  }

  method SegmentLoop(log: Bytes, at: nat) returns (end: nat)
    requires at < |log|
    ensures at < end <= |log| && end - at == FirstSegment(log[at..])
  {
    hide IndexOf;
    var i := FindByte(log, NEWLINE, at);
    IndexOfTail(log, NEWLINE, at);
    end := if i.Some? then i.value + 1 else |log|;
  }

  // Parsed so far, still to come.
  function Append(done: seq<ImaRecord>, rest: Result<seq<ImaRecord>>): Result<seq<ImaRecord>> {
    match rest
    case Ok(rs) => Ok(done + rs)
    case Err(c) => Err(c)
  }

  lemma {:induction false} AppendCons(done: seq<ImaRecord>, r: ImaRecord, rest: Result<seq<ImaRecord>>)
    ensures Append(done, Cons(r, rest)) == Append(done + [r], rest)
    ensures Append([], rest) == rest
    ensures rest == Ok([]) ==> Append(done, rest) == Ok(done)
  {
    if rest.Ok? {
      assert done + ([r] + rest.value) == (done + [r]) + rest.value;
      assert [] + rest.value == rest.value;
      assert done + [] == done;
    }
  }

  // `parse_ima_log`.
  method ParseImaLog(h: Hash, log: Bytes) returns (r: Result<seq<ImaRecord>>)
    ensures r == ParseLog(h, log)
  {
    hide FirstSegment, HostLine, Append, After, ParseFrom;
    var out: seq<ImaRecord>, cursor := [], 0;
    AppendCons([], ImaRecord(ZERO_DIGEST, [], [], 0), ParseFrom(h, log, 0));
    assert log[0..] == log;
    while cursor < |log|
      invariant 0 <= cursor <= |log|
      invariant ParseFrom(h, log, 0) == Append(out, ParseFrom(h, log[cursor..], cursor))
    {
      var end := SegmentLoop(log, cursor);
      var line := LineLoop(h, log[cursor..end]);
      ParseStep(h, log, cursor, end);
      AppendAfter(out, line, end, ParseFrom(h, log[end..], end));
      match line {
        case Skip =>
        case Fail(code) =>
          return Err(code);
        case Measure(x, fh, fp) =>
          out := out + [ImaRecord(x, fh, fp, end)];
      }
      cursor := end;
    }
    assert log[cursor..] == [];
    ParseEmpty(h, cursor);
    AppendCons(out, ImaRecord(ZERO_DIGEST, [], [], 0), ParseFrom(h, [], cursor));
    r := Ok(out);
  }

  lemma {:induction false} AppendAfter(done: seq<ImaRecord>, line: Line, end: nat, rest: Result<seq<ImaRecord>>)
    ensures Append(done, After(line, end, rest)) ==
      match line
      case Skip => Append(done, rest)
      case Fail(c) => Err(c)
      case Measure(x, fh, fp) => Append(done + [ImaRecord(x, fh, fp, end)], rest)
  {
    if line.Measure? {
      AppendCons(done, ImaRecord(line.extend, line.fileHash, line.filePath, end), rest);
    }
  }

  lemma {:induction false} ParseStep(h: Hash, log: Bytes, cursor: nat, end: nat)
    requires cursor < end <= |log| && end - cursor == FirstSegment(log[cursor..])
    ensures ParseFrom(h, log[cursor..], cursor) ==
      After(HostLine(h, log[cursor..end]), end, ParseFrom(h, log[end..], end))
  {
    hide HostLine, FirstSegment, After;
    var tail := log[cursor..];
    assert tail[..end - cursor] == log[cursor..end] && tail[end - cursor..] == log[end..];
  }

  // ---- parsing is a homomorphism ------------------------------------------------------------------

  predicate WholeLines(log: Bytes) {
    log == [] || log[|log| - 1] == NEWLINE
  }

  function Combine(a: Result<seq<ImaRecord>>, b: Result<seq<ImaRecord>>): Result<seq<ImaRecord>> {
    match a
    case Err(c) => Err(c)
    case Ok(rs) => Append(rs, b)
  }

  // The first segment only depends on the log up to its first newline.
  lemma {:induction false} FirstSegmentPrefix(a: Bytes, b: Bytes)
    requires a != [] && NEWLINE in a
    ensures FirstSegment(a + b) == FirstSegment(a)
    ensures a[FirstSegment(a) - 1] == NEWLINE
  {
    hide IndexOf;
    var ab := a + b;
    assert forall i :: 0 <= i < |a| ==> ab[i] == a[i];
    var k :| 0 <= k < |a| && a[k] == NEWLINE;
    assert ab[k] == NEWLINE;
    var i, j := IndexOf(a, NEWLINE, 0), IndexOf(ab, NEWLINE, 0);
    assert i.Some? && j.Some?;
    assert ab[i.value] == NEWLINE && j.value <= i.value;
    assert a[j.value] == NEWLINE;
  }

  lemma {:induction false} ParseEmpty(h: Hash, base: nat)
    ensures ParseFrom(h, [], base) == Ok([])
  {
  }

  lemma {:induction false} ParseUnfold(h: Hash, log: Bytes, base: nat)
    requires log != []
    ensures
      var n := FirstSegment(log);
      ParseFrom(h, log, base) == After(HostLine(h, log[..n]), base + n, ParseFrom(h, log[n..], base + n))
  {
    hide HostLine, FirstSegment, After;
  }

  lemma {:induction false} CombineAfter(line: Line, end: nat, a: Result<seq<ImaRecord>>, b: Result<seq<ImaRecord>>)
    ensures Combine(After(line, end, a), b) == After(line, end, Combine(a, b))
  {
    if line.Measure? && a.Ok? && b.Ok? {
      var r := ImaRecord(line.extend, line.fileHash, line.filePath, end);
      assert ([r] + a.value) + b.value == [r] + (a.value + b.value);
    }
  }

  // For whole lines A and any B, parsing A followed by B gives A's records,
  // then B's at offsets behind A; or the first error.
  lemma {:induction false} ParseHomomorphism(h: Hash, a: Bytes, b: Bytes, base: nat)
    requires WholeLines(a)
    ensures ParseFrom(h, a + b, base) == Combine(ParseFrom(h, a, base), ParseFrom(h, b, base + |a|))
    decreases |a|
  {
    hide FirstSegment, HostLine, Append, After, ParseFrom;
    if a == [] {
      assert a + b == b;
      ParseEmpty(h, base);
      AppendCons([], ImaRecord(ZERO_DIGEST, [], [], 0), ParseFrom(h, b, base));
    } else {
      FirstSegmentPrefix(a, b);
      var n := FirstSegment(a);
      var rest := a[n..];
      assert (a + b)[..n] == a[..n] && (a + b)[n..] == rest + b;
      ParseUnfold(h, a, base);
      ParseUnfold(h, a + b, base);
      ParseHomomorphism(h, rest, b, base + n);
      assert base + n + |rest| == base + |a|;
      CombineAfter(HostLine(h, a[..n]), base + n, ParseFrom(h, rest, base + n), ParseFrom(h, b, base + |a|));
    }
  }

  function Shift(rs: Result<seq<ImaRecord>>, k: nat): Result<seq<ImaRecord>> {
    match rs
    case Ok(s) => Ok(seq(|s|, i requires 0 <= i < |s| => s[i].(endOffset := s[i].endOffset + k)))
    case Err(c) => Err(c)
  }

  lemma {:induction false} ShiftAfter(line: Line, end: nat, rest: Result<seq<ImaRecord>>, k: nat)
    ensures Shift(After(line, end, rest), k) == After(line, end + k, Shift(rest, k))
  {
    if line.Measure? && rest.Ok? {
      var left, right := Shift(After(line, end, rest), k).value, After(line, end + k, Shift(rest, k)).value;
      assert left == right;
    }
  }

  // Starting further in only moves the recorded offsets.
  lemma {:induction false} ParseShift(h: Hash, log: Bytes, base: nat, k: nat)
    ensures ParseFrom(h, log, base + k) == Shift(ParseFrom(h, log, base), k)
    decreases |log|
  {
    hide FirstSegment, HostLine, After, ParseFrom;
    if log == [] {
      ParseEmpty(h, base);
      ParseEmpty(h, base + k);
      assert Shift(Ok([]), k).value == [];
    } else {
      var n := FirstSegment(log);
      ParseUnfold(h, log, base);
      ParseUnfold(h, log, base + k);
      ParseShift(h, log[n..], base + n, k);
      assert base + k + n == base + n + k;
      ShiftAfter(HostLine(h, log[..n]), base + n, ParseFrom(h, log[n..], base + n), k);
    }
  }

  // The two together: B's records, as parsed alone, move by A's length.
  lemma {:induction false} ParseConcat(h: Hash, a: Bytes, b: Bytes)
    requires WholeLines(a)
    ensures ParseLog(h, a + b) == Combine(ParseLog(h, a), Shift(ParseLog(h, b), |a|))
  {
    hide ParseFrom, Combine, Shift;
    ParseHomomorphism(h, a, b, 0);
    ParseShift(h, b, 0, |a|);
  }

  // ---- reparsing an attested prefix ---------------------------------------------------------------

  // The first n records are exactly the records of the bytes up to the n-th
  // record's end offset.
  lemma {:induction false} ReparsePrefix(h: Hash, log: Bytes, base: nat, n: nat)
    requires ParseFrom(h, log, base).Ok? && 0 < n <= |ParseFrom(h, log, base).value|
    ensures
      var rs := ParseFrom(h, log, base).value;
      && base < rs[n - 1].endOffset <= base + |log|
      && ParseFrom(h, log[..rs[n - 1].endOffset - base], base) == Ok(rs[..n])
    decreases |log|
  {
    hide FirstSegment, HostLine, ParseFrom;
    if log == [] {
      ParseEmpty(h, base);
    } else {
      var rs := ParseFrom(h, log, base).value;
      var k := FirstSegment(log);
      var rest := log[k..];
      var line := HostLine(h, log[..k]);
      ParseUnfold(h, log, base);
      var tail := ParseFrom(h, rest, base + k).value;
      var m := if line.Skip? then n else n - 1;
      if m > 0 {
        ReparsePrefix(h, rest, base + k, m);
        assert rs[n - 1] == tail[m - 1];
      }
      var off := rs[n - 1].endOffset - base;
      SegmentOfPrefix(h, log, k, off);
      ParseUnfold(h, log[..off], base);
      ReparseTail(h, rest, base + k, off - k, tail, m);
      assert line.Measure? ==> rs[..n] == [rs[0]] + tail[..m];
    }
  }

  lemma {:induction false} ReparseTail(h: Hash, rest: Bytes, base: nat, off: nat, tail: seq<ImaRecord>, m: nat)
    requires off <= |rest| && m <= |tail|
    requires if m == 0 then off == 0 else ParseFrom(h, rest[..off], base) == Ok(tail[..m])
    ensures ParseFrom(h, rest[..off], base) == Ok(tail[..m])
  {
    hide ParseFrom;
    if m == 0 {
      assert rest[..off] == [];
      ParseEmpty(h, base);
    }
  }

  lemma {:induction false} SegmentOfPrefix(h: Hash, log: Bytes, k: nat, off: nat)
    requires log != [] && k == FirstSegment(log) && k <= off <= |log|
    ensures FirstSegment(log[..off]) == k
    ensures log[..off][..k] == log[..k]
    ensures log[..off][k..] == log[k..][..off - k]
  {
    hide IndexOf;
    var p := log[..off];
    var i, j := IndexOf(log, NEWLINE, 0), IndexOf(p, NEWLINE, 0);
    assert forall x :: 0 <= x < off ==> p[x] == log[x];
    if i.Some? {
      assert p[i.value] == NEWLINE;
      assert j.Some? && log[j.value] == NEWLINE;
    }
  }
}
