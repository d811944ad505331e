// What PCR10 binds: the GPU-stack and hypervisor hashes that the host enclave
// extracts from an attested log.

module ImaBinding {
  import opened Bytes
  import opened Codec
  import opened Text
  import opened ImaLog
  import opened ImaCheck

  // ---- extraction -----------------------------------------------------------------------------

  function Ascii(s: string): Bytes {
    seq(|s|, i requires 0 <= i < |s| => s[i] as int % 128)
  }

  // The text behind the last slash.
  function Basename(path: Bytes): (r: Bytes)
    ensures |r| <= |path| && r == path[|path| - |r|..]
    ensures SLASH !in r
    ensures |r| < |path| ==> path[|path| - |r| - 1] == SLASH
  {
    if path == [] then []
    else if path[|path| - 1] == SLASH then []
    else Basename(path[..|path| - 1]) + [path[|path| - 1]]
  }

  predicate HasSuffix(s: Bytes, suffix: Bytes) {
    |suffix| <= |s| && s[|s| - |suffix|..] == suffix
  }

  // The part between the first and the second colon, or the whole when there is none.
  function HashValue(s: Bytes): Bytes {
    match IndexOf(s, COLON, 0)
    case None => s
    case Some(i) =>
      match IndexOf(s, COLON, i + 1)
      case None => s[i + 1..]
      case Some(j) => s[i + 1..j]
  }

  predicate IsGpuStack(path: Bytes) {
    var base := Basename(path);
    || (&& (|| base == Ascii("nvidia.ko") || base == Ascii("nvidia-uvm.ko") || base == Ascii("nvidia-modeset.ko")
            || base == Ascii("nvidia-drm.ko") || base == Ascii("nvidia-peermem.ko"))
        && Ascii("/usr/lib/modules/") <= path)
    || Ascii("libnvidia-ml.so") <= base
  }

  predicate IsHypervisor(base: Bytes) {
    var suffix := Ascii(".real");
    var stem := if HasSuffix(base, suffix) then base[..|base| - |suffix|] else base;
    || (Ascii("qemu-system-") <= stem && 0x2E !in stem && |stem| > 12)
    || base == Ascii("swtpm") || base == Ascii("swtpm_setup")
  }

  // A directory part: empty, or up to and including a slash.
  predicate IsDir(dir: Bytes) {
    dir == [] || dir[|dir| - 1] == SLASH
  }

  lemma {:induction false} BasenameExact(path: Bytes, name: Bytes)
    ensures Basename(path) == name <==> exists dir: Bytes :: path == dir + name && IsDir(dir) && SLASH !in name
  {
    hide Basename;
    var base := Basename(path);
    var dir := path[..|path| - |base|];
    assert path == dir + base && IsDir(dir);
    if exists dir: Bytes :: path == dir + name && IsDir(dir) && SLASH !in name {
      var d: Bytes :| path == d + name && IsDir(d) && SLASH !in name;
      BasenameUnique(path, dir, base, d, name);
    }
  }

  lemma {:induction false} BasenameUnique(path: Bytes, a: Bytes, x: Bytes, b: Bytes, y: Bytes)
    requires path == a + x && path == b + y && IsDir(a) && IsDir(b) && SLASH !in x && SLASH !in y
    ensures x == y
  {
    assert forall i :: |a| <= i < |path| ==> path[i] == x[i - |a|];
    assert forall i :: |b| <= i < |path| ==> path[i] == y[i - |b|];
    assert a != [] ==> path[|a| - 1] == a[|a| - 1];
    assert b != [] ==> path[|b| - 1] == b[|b| - 1];
    assert |a| == |b|;
    ConcatSplit(a, x, b, y);
  }

  const GPU_MODULES: set<Bytes> :=
    {Ascii("nvidia.ko"), Ascii("nvidia-uvm.ko"), Ascii("nvidia-modeset.ko"),
     Ascii("nvidia-drm.ko"), Ascii("nvidia-peermem.ko")}

  const NVML: Bytes := Ascii("libnvidia-ml.so")
  const MODULE_TREE: Bytes := Ascii("/usr/lib/modules/")

  // One of the five kernel modules, in any directory below the module tree.
  ghost predicate GpuModule(path: Bytes) {
    MODULE_TREE <= path &&
    exists dir: Bytes, name: Bytes :: path == dir + name && IsDir(dir) && SLASH !in name && name in GPU_MODULES
  }

  // The management library of any version, in any directory.
  ghost predicate NvmlLibrary(path: Bytes) {
    exists dir: Bytes, rest: Bytes :: path == dir + (NVML + rest) && IsDir(dir) && SLASH !in NVML + rest
  }

  lemma {:induction false} GpuModuleBase(path: Bytes)
    ensures GpuModule(path) <==> MODULE_TREE <= path && Basename(path) in GPU_MODULES
  {
    hide Ascii, Basename, IsDir;
    BasenameExact(path, Basename(path));
    if GpuModule(path) {
      var dir: Bytes, name: Bytes :| path == dir + name && IsDir(dir) && SLASH !in name && name in GPU_MODULES;
      BasenameExact(path, name);
    }
  }

  lemma {:induction false} NvmlLibraryBase(path: Bytes)
    ensures NvmlLibrary(path) <==> NVML <= Basename(path)
  {
    hide Ascii, Basename, IsDir;
    var base := Basename(path);
    BasenameExact(path, base);
    if NVML <= base {
      var dir: Bytes :| path == dir + base && IsDir(dir) && SLASH !in base;
      var rest := base[|NVML|..];
      assert base == NVML + rest;
    }
    if NvmlLibrary(path) {
      var dir: Bytes, rest: Bytes :| path == dir + (NVML + rest) && IsDir(dir) && SLASH !in NVML + rest;
      BasenameExact(path, NVML + rest);
    }
  }

  lemma {:induction false} GpuStackExact(path: Bytes)
    ensures IsGpuStack(path) <==> GpuModule(path) || NvmlLibrary(path)
  {
    hide Ascii, Basename, GpuModule, NvmlLibrary, IsGpuStack;
    GpuModuleBase(path);
    NvmlLibraryBase(path);
    GpuByBase(path);
  }

  lemma {:induction false} GpuByBase(path: Bytes)
    ensures IsGpuStack(path) <==>
      (Basename(path) in GPU_MODULES && MODULE_TREE <= path) || NVML <= Basename(path)
  {
    hide Ascii, Basename;
    NamesAre(Basename(path));
  }

  lemma {:induction false} NamesAre(base: Bytes)
    ensures base in GPU_MODULES <==>
      || base == Ascii("nvidia.ko") || base == Ascii("nvidia-uvm.ko") || base == Ascii("nvidia-modeset.ko")
      || base == Ascii("nvidia-drm.ko") || base == Ascii("nvidia-peermem.ko")
  {
    hide Ascii;
  }

  // "qemu-system-" and a nonempty rest without a dot, perhaps with ".real"
  // behind it; or one of the two TPM emulator programs.
  lemma {:induction false} HypervisorExact(base: Bytes)
    ensures IsHypervisor(base) <==>
      || base == Ascii("swtpm") || base == Ascii("swtpm_setup")
      || exists rest: Bytes ::
           && rest != [] && 0x2E !in rest
           && (base == Ascii("qemu-system-") + rest || base == Ascii("qemu-system-") + rest + Ascii(".real"))
  {
    var qemu, ext := Ascii("qemu-system-"), Ascii(".real");
    assert |qemu| == 12 && 0x2E !in qemu && |ext| == 5 && ext[0] == 0x2E;
    hide Ascii;
    var stem := if HasSuffix(base, ext) then base[..|base| - 5] else base;
    if qemu <= stem && 0x2E !in stem && |stem| > 12 {
      var rest := stem[12..];
      assert stem == qemu + rest;
      assert HasSuffix(base, ext) ==> base == stem + ext;
    }
    if exists rest: Bytes :: rest != [] && 0x2E !in rest && (base == qemu + rest || base == qemu + rest + ext) {
      var rest: Bytes :| rest != [] && 0x2E !in rest && (base == qemu + rest || base == qemu + rest + ext);
      StemIs(base, rest, qemu, ext);
    }
  }

  lemma {:induction false} StemIs(base: Bytes, rest: Bytes, qemu: Bytes, ext: Bytes)
    requires 0x2E !in qemu && 0x2E !in rest && |ext| == 5 && ext[0] == 0x2E
    requires base == qemu + rest || base == qemu + rest + ext
    ensures (if HasSuffix(base, ext) then base[..|base| - 5] else base) == qemu + rest
  {
    SuffixHead(base, ext);
    if base == qemu + rest + ext {
      assert base[|base| - 5..] == ext && base[..|base| - 5] == qemu + rest;
    }
  }

  lemma {:induction false} SuffixHead(s: Bytes, suffix: Bytes)
    requires suffix != []
    ensures HasSuffix(s, suffix) ==> suffix[0] in s
  {
    if HasSuffix(s, suffix) {
      assert s[|s| - |suffix|..][0] == s[|s| - |suffix|];
    }
  }

  // The map entry a record contributes, if any.
  type Pair = Option<(Bytes, Bytes)>

  function GpuPair(r: ImaRecord): Pair {
    if r.fileHash == [] || !IsGpuStack(r.filePath) then None
    else Some((r.filePath, HashValue(r.fileHash)))
  }

  function HypervisorPair(r: ImaRecord): Pair {
    if r.fileHash == [] || !IsHypervisor(Basename(r.filePath)) || HashValue(r.fileHash) == [] then None
    else Some((Basename(r.filePath), HashValue(r.fileHash)))
  }

  // Later entries replace earlier ones.
  function Latest(pairs: seq<Pair>): map<Bytes, Bytes> {
    if pairs == [] then map[]
    else
      var before := Latest(pairs[..|pairs| - 1]);
      match pairs[|pairs| - 1]
      case None => before
      case Some((k, v)) => before[k := v]
  }

  function Pairs(of: ImaRecord -> Pair, rs: seq<ImaRecord>): (ps: seq<Pair>)
    ensures |ps| == |rs|
  {
    seq(|rs|, i requires 0 <= i < |rs| => of(rs[i]))
  }

  // i is the last place where key k is written.
  ghost predicate LastWrite(pairs: seq<Pair>, k: Bytes, i: nat) {
    && i < |pairs| && pairs[i].Some? && pairs[i].value.0 == k
    && forall j :: i < j < |pairs| && pairs[j].Some? ==> pairs[j].value.0 != k
  }

  // The map holds exactly the keys written, each with its last value.
  lemma {:induction false} LatestExact(pairs: seq<Pair>, k: Bytes)
    ensures k in Latest(pairs) <==> exists i: nat :: LastWrite(pairs, k, i)
    ensures forall i: nat :: LastWrite(pairs, k, i) ==> k in Latest(pairs) && Latest(pairs)[k] == pairs[i].value.1
    decreases |pairs|
  {
    if pairs != [] {
      var n := |pairs| - 1;
      var before := pairs[..n];
      LatestExact(before, k);
      if pairs[n].Some? && pairs[n].value.0 == k {
        assert LastWrite(pairs, k, n);
        assert forall i: nat :: LastWrite(pairs, k, i) ==> i == n;
      } else {
        assert forall i: nat :: LastWrite(before, k, i) <==> LastWrite(pairs, k, i);
      }
    }
  }

  lemma {:induction false} LatestStep(of: ImaRecord -> Pair, rs: seq<ImaRecord>, i: nat)
    requires i < |rs|
    ensures Latest(Pairs(of, rs[..i + 1])) ==
      match of(rs[i])
      case None => Latest(Pairs(of, rs[..i]))
      case Some((k, v)) => Latest(Pairs(of, rs[..i]))[k := v]
  {
    var ps := Pairs(of, rs[..i + 1]);
    assert ps[..i] == Pairs(of, rs[..i]);
  }

  // `extract_gpu_stack_hashes_from_ima`.
  method ExtractGpuStack(rs: seq<ImaRecord>) returns (latest: map<Bytes, Bytes>)
    ensures latest == Latest(Pairs(GpuPair, rs))
    ensures forall path :: path in latest ==> IsGpuStack(path)
  {
    hide Latest, IsGpuStack, HashValue;
    latest := map[];
    LatestNone(GpuPair, rs);
    for i := 0 to |rs|
      invariant latest == Latest(Pairs(GpuPair, rs[..i]))
      invariant forall path :: path in latest ==> IsGpuStack(path)
    {
      var rec := rs[i];
      LatestStep(GpuPair, rs, i);
      if rec.fileHash == [] || !IsGpuStack(rec.filePath) {
        continue;
      }
      latest := latest[rec.filePath := HashValue(rec.fileHash)];
    }
    assert rs[..|rs|] == rs;
  }

  lemma {:induction false} LatestNone(of: ImaRecord -> Pair, rs: seq<ImaRecord>)
    ensures Latest(Pairs(of, rs[..0])) == map[]
  {
  }

  // `extract_hypervisor_hashes_from_ima`.
  method ExtractHypervisor(rs: seq<ImaRecord>) returns (latest: map<Bytes, Bytes>)
    ensures latest == Latest(Pairs(HypervisorPair, rs))
    ensures forall base :: base in latest ==> IsHypervisor(base) && latest[base] != []
  {
    hide Latest, IsHypervisor, HashValue, Basename;
    latest := map[];
    LatestNone(HypervisorPair, rs);
    for i := 0 to |rs|
      invariant latest == Latest(Pairs(HypervisorPair, rs[..i]))
      invariant forall base :: base in latest ==> IsHypervisor(base) && latest[base] != []
    {
      var rec := rs[i];
      LatestStep(HypervisorPair, rs, i);
      if rec.fileHash == [] {
        continue;
      }
      var base := Basename(rec.filePath);
      if !IsHypervisor(base) {
        continue;
      }
      var value := HashValue(rec.fileHash);
      if value == [] {
        continue;
      }
      latest := latest[base := value];
    }
    assert rs[..|rs|] == rs;
  }

  // ---- equal up to hex case -----------------------------------------------------------------------

  predicate SameUpToCase(a: map<Bytes, Bytes>, b: map<Bytes, Bytes>) {
    a.Keys == b.Keys && forall k :: k in a ==> EqIgnoreCase(a[k], b[k])
  }

  // Two records the extraction cannot tell apart, hash case aside.
  predicate SameMeasurement(r: ImaRecord, s: ImaRecord) {
    || (r.fileHash == [] && s.fileHash == [])
    || (r.filePath == s.filePath && EqIgnoreCase(r.fileHash, s.fileHash))
  }

  lemma {:induction false} IndexOfCase(a: Bytes, b: Bytes, from: nat)
    requires EqIgnoreCase(a, b) && from <= |a|
    ensures IndexOf(a, COLON, from) == IndexOf(b, COLON, from)
    decreases |a| - from
  {
    if from < |a| {
      assert AsciiLower(a[from]) == AsciiLower(b[from]);
      IndexOfCase(a, b, from + 1);
    }
  }

  lemma {:induction false} HashValueCase(a: Bytes, b: Bytes)
    requires EqIgnoreCase(a, b)
    ensures EqIgnoreCase(HashValue(a), HashValue(b))
  {
    hide IndexOf;
    IndexOfCase(a, b, 0);
    var i := IndexOf(a, COLON, 0);
    if i.Some? {
      IndexOfCase(a, b, i.value + 1);
    }
  }

  predicate PairsMatch(p: Pair, q: Pair) {
    || (p.None? && q.None?)
    || (p.Some? && q.Some? && p.value.0 == q.value.0 && EqIgnoreCase(p.value.1, q.value.1))
  }

  lemma {:induction false} SamePairs(r: ImaRecord, s: ImaRecord)
    requires SameMeasurement(r, s)
    ensures PairsMatch(GpuPair(r), GpuPair(s)) && PairsMatch(HypervisorPair(r), HypervisorPair(s))
  {
    hide IsGpuStack, IsHypervisor, HashValue, Basename;
    if !(r.fileHash == [] && s.fileHash == []) {
      HashValueCase(r.fileHash, s.fileHash);
    }
  }

  lemma {:induction false} LatestMatch(ps: seq<Pair>, qs: seq<Pair>)
    requires |ps| == |qs| && forall i :: 0 <= i < |ps| ==> PairsMatch(ps[i], qs[i])
    ensures SameUpToCase(Latest(ps), Latest(qs))
    decreases |ps|
  {
    hide EqIgnoreCase;
    if ps != [] {
      var n := |ps| - 1;
      LatestMatch(ps[..n], qs[..n]);
      assert PairsMatch(ps[n], qs[n]);
    }
  }

  ghost predicate SameMeasurements(rs: seq<ImaRecord>, ss: seq<ImaRecord>) {
    |rs| == |ss| && forall i :: 0 <= i < |rs| ==> SameMeasurement(rs[i], ss[i])
  }

  lemma {:induction false} SameMaps(rs: seq<ImaRecord>, ss: seq<ImaRecord>)
    requires SameMeasurements(rs, ss)
    ensures SameUpToCase(Latest(Pairs(GpuPair, rs)), Latest(Pairs(GpuPair, ss)))
    ensures SameUpToCase(Latest(Pairs(HypervisorPair, rs)), Latest(Pairs(HypervisorPair, ss)))
  {
    hide Latest, SameMeasurement, SameUpToCase, PairsMatch;
    forall i | 0 <= i < |rs|
      ensures PairsMatch(GpuPair(rs[i]), GpuPair(ss[i])) && PairsMatch(HypervisorPair(rs[i]), HypervisorPair(ss[i]))
    {
      SamePairs(rs[i], ss[i]);
    }
    LatestMatch(Pairs(GpuPair, rs), Pairs(GpuPair, ss));
    LatestMatch(Pairs(HypervisorPair, rs), Pairs(HypervisorPair, ss));
  }

  // ---- replay binds the extends -------------------------------------------------------------------

  // What replaying n extends hashes.
  function ReplayInputs(h: Hash, ds: seq<Digest>, n: nat): set<Bytes>
    requires n <= |ds|
  {
    if n == 0 then {} else ReplayInputs(h, ds, n - 1) + {ExtendInput(Replay(h, ds, n - 1), ds[n - 1])}
  }

  lemma {:induction false} ReplayBinding(h: Hash, ds: seq<Digest>, n: nat, es: seq<Digest>, m: nat, all: set<Bytes>)
    requires n <= |ds| && m <= |es| && Replay(h, ds, n) == Replay(h, es, m)
    requires ReplayInputs(h, ds, n) + ReplayInputs(h, es, m) <= all
    ensures (n == m && ds[..n] == es[..m]) || Collides(h, all) || Hits(h, all, ZERO_DIGEST)
    decreases n
  {
    if n > 0 && m > 0 {
      var x, y := ExtendInput(Replay(h, ds, n - 1), ds[n - 1]), ExtendInput(Replay(h, es, m - 1), es[m - 1]);
      EqualOrCollides(h, all, x, y);
      if x == y {
        ConcatSplit(Replay(h, ds, n - 1), ds[n - 1], Replay(h, es, m - 1), es[m - 1]);
        ReplayBinding(h, ds, n - 1, es, m - 1, all);
        if n == m && ds[..n - 1] == es[..m - 1] {
          assert ds[..n] == ds[..n - 1] + [ds[n - 1]] && es[..m] == es[..m - 1] + [es[m - 1]];
        }
      }
    }
  }

  // ---- an extend binds the measurement ------------------------------------------------------------

  // What parsing a line hashes.
  function LineInputs(segment: Bytes): set<Bytes> {
    match HostFields(TrimEnd(segment))
    case None => {}
    case Some(f) =>
      if f.pcr != PCR_TEN || f.template != IMA_NG || IsViolation(f) then {}
      else
        match TemplateInput(f.dfield, f.fname)
        case None => {}
        case Some(data) => {data}
  }

  function LogInputs(log: Bytes): set<Bytes>
    decreases |log|
  {
    if log == [] then {}
    else
      var n := FirstSegment(log);
      LineInputs(log[..n]) + LogInputs(log[n..])
  }

  // Neither length prefix of the template is cut to 32 bits.
  predicate TemplateFits(dfield: Bytes, fname: Bytes) {
    SplitOnce(dfield).Some? && HexDecode(SplitOnce(dfield).value.1).Some? ==>
      && |DField(SplitOnce(dfield).value.0, HexDecode(SplitOnce(dfield).value.1).value)| < U32_LIMIT
      && |fname| + 1 < U32_LIMIT
  }

  predicate LineFits(segment: Bytes) {
    match HostFields(TrimEnd(segment))
    case None => true
    case Some(f) => f.pcr == PCR_TEN && !IsViolation(f) ==> TemplateFits(f.dfield, f.fname)
  }

  predicate LogFits(log: Bytes)
    decreases |log|
  {
    log == [] ||
    var n := FirstSegment(log);
    LineFits(log[..n]) && LogFits(log[n..])
  }

  // Lines below 2^32 bytes are short enough, whatever is in them.
  predicate ShortLines(log: Bytes)
    decreases |log|
  {
    log == [] ||
    var n := FirstSegment(log);
    n < U32_LIMIT && ShortLines(log[n..])
  }

  lemma {:induction false} ShortLinesFit(log: Bytes)
    requires ShortLines(log)
    ensures LogFits(log)
    decreases |log|
  {
    hide FirstSegment, HostFields, TrimEnd, TemplateFits, IsViolation;
    if log != [] {
      var n := FirstSegment(log);
      ShortLinesFit(log[n..]);
      var line := TrimEnd(log[..n]);
      if HostFields(line).Some? {
        FieldSizes(line);
        SmallTemplateFits(HostFields(line).value.dfield, HostFields(line).value.fname);
      }
    }
  }

  lemma {:induction false} SmallTemplateFits(dfield: Bytes, fname: Bytes)
    requires |dfield| + 1 < U32_LIMIT && |fname| + 1 < U32_LIMIT
    ensures TemplateFits(dfield, fname)
  {
    hide IndexOf, HexDecode;
  }

  // r is the measurement of this d-ng field.
  ghost predicate FromField(h: Hash, r: ImaRecord, dfield: Bytes, inputs: set<Bytes>) {
    && TemplateFits(dfield, r.filePath)
    && TemplateInput(dfield, r.filePath).Some?
    && TemplateInput(dfield, r.filePath).value in inputs
    && r.extend == h(TemplateInput(dfield, r.filePath).value)
    && r.fileHash == SplitOnce(dfield).value.1
  }

  // r was measured from a violation or from some d-ng field.
  ghost predicate Measured(h: Hash, r: ImaRecord, inputs: set<Bytes>) {
    || (r.extend == ONES_DIGEST && r.fileHash == [])
    || exists dfield :: FromField(h, r, dfield, inputs)
  }

  lemma {:induction false} FieldSizes(line: Bytes)
    requires HostFields(line).Some?
    ensures |HostFields(line).value.dfield| + 1 <= |line|
    ensures |HostFields(line).value.fname| + 1 <= |line|
  {
    hide Bounds;
    var b := Bounds(line, 0, 4).value;
    assert b[0] < b[1] < b[2] < b[3] < |line|;
  }

  lemma {:induction false} FieldsMeasured(h: Hash, f: Fields, end: nat, inputs: set<Bytes>)
    requires !IsViolation(f) ==> TemplateFits(f.dfield, f.fname)
    requires FieldsLine(h, f).Measure?
    requires IsViolation(f) || (TemplateInput(f.dfield, f.fname).Some? ==> TemplateInput(f.dfield, f.fname).value in inputs)
    ensures
      var m := FieldsLine(h, f);
      Measured(h, ImaRecord(m.extend, m.fileHash, m.filePath, end), inputs)
  {
    hide TemplateInput, IsViolation, SplitOnce, TemplateFits;
    var m := FieldsLine(h, f);
    if !IsViolation(f) {
      assert FromField(h, ImaRecord(m.extend, m.fileHash, m.filePath, end), f.dfield, inputs);
    }
  }

  lemma {:induction false} LineMeasured(h: Hash, segment: Bytes, end: nat)
    requires LineFits(segment) && HostLine(h, segment).Measure?
    ensures
      var m := HostLine(h, segment);
      Measured(h, ImaRecord(m.extend, m.fileHash, m.filePath, end), LineInputs(segment))
  {
    hide HostFields, TrimEnd, TemplateInput, IsViolation, SplitOnce, Measured, TemplateFits;
    FieldsMeasured(h, HostFields(TrimEnd(segment)).value, end, LineInputs(segment));
  }

  lemma {:induction false} MeasuredMonotone(h: Hash, r: ImaRecord, small: set<Bytes>, large: set<Bytes>)
    requires small <= large && Measured(h, r, small)
    ensures Measured(h, r, large)
  {
    hide TemplateInput, SplitOnce, TemplateFits;
    if !(r.extend == ONES_DIGEST && r.fileHash == []) {
      var d :| FromField(h, r, d, small);
      assert FromField(h, r, d, large);
    }
  }

  ghost predicate AllMeasured(h: Hash, rs: seq<ImaRecord>, inputs: set<Bytes>) {
    forall i :: 0 <= i < |rs| ==> Measured(h, rs[i], inputs)
  }

  lemma {:induction false} AllMeasuredMonotone(h: Hash, rs: seq<ImaRecord>, small: set<Bytes>, large: set<Bytes>)
    requires small <= large && AllMeasured(h, rs, small)
    ensures AllMeasured(h, rs, large)
  {
    hide Measured;
    forall i | 0 <= i < |rs|
      ensures Measured(h, rs[i], large)
    {
      MeasuredMonotone(h, rs[i], small, large);
    }
  }

  lemma {:induction false} LogMeasured(h: Hash, log: Bytes, base: nat)
    requires LogFits(log) && ParseFrom(h, log, base).Ok?
    ensures AllMeasured(h, ParseFrom(h, log, base).value, LogInputs(log))
    decreases |log|
  {
    hide FirstSegment, HostLine, LineInputs, Measured, ParseFrom, LineFits;
    if log == [] {
      ParseEmpty(h, base);
    } else {
      var n := FirstSegment(log);
      ParseUnfold(h, log, base);
      var rest := log[n..];
      LogMeasured(h, rest, base + n);
      AllMeasuredMonotone(h, ParseFrom(h, rest, base + n).value, LogInputs(rest), LogInputs(log));
      var m := HostLine(h, log[..n]);
      if m.Measure? {
        LineMeasured(h, log[..n], base + n);
        MeasuredMonotone(h, ImaRecord(m.extend, m.fileHash, m.filePath, base + n), LineInputs(log[..n]), LogInputs(log));
      }
    }
  }

  // The template of a d-ng and n-ng pair determines both, hex case aside.
  lemma {:induction false} TemplateBinding(d: Bytes, p: Bytes, e: Bytes, q: Bytes)
    requires TemplateFits(d, p) && TemplateFits(e, q)
    requires TemplateInput(d, p).Some? && TemplateInput(d, p) == TemplateInput(e, q)
    ensures p == q && EqIgnoreCase(SplitOnce(d).value.1, SplitOnce(e).value.1)
  {
    hide IndexOf, HexDecode, U32Le, EqIgnoreCase;
    var x, y := SplitOnce(d).value, SplitOnce(e).value;
    var rx, ry := HexDecode(x.1).value, HexDecode(y.1).value;
    var dx, dy := DField(x.0, rx), DField(y.0, ry);
    LenPrefixedSplit(dx, U32Le(|p + [0]|) + (p + [0]), dy, U32Le(|q + [0]|) + (q + [0]));
    assert p + [0] + [] == p + [0] && q + [0] + [] == q + [0];
    var tp, tq := p + [0], q + [0];
    assert U32Le(|tp|) + tp + [] == U32Le(|tp|) + tp;
    assert U32Le(|tq|) + tq + [] == U32Le(|tq|) + tq;
    LenPrefixedSplit(tp, [], tq, []);
    ConcatSplit(p, [0], q, [0]);
    SplitAtFirst(x.0, [0] + rx, y.0, [0] + ry, COLON);
    ConcatSplit([0], rx, [0], ry);
    HexDecodeUpToCase(x.1, y.1);
  }

  const SWTPM: Bytes := [0x73, 0x77, 0x74, 0x70, 0x6D]
  const ALGO: Bytes := [0x61]

  // Just enough filler to push a length past 32 bits.
  function Filler(): (f: Bytes)
    ensures |f| == U32_LIMIT - 4
  {
    seq(U32_LIMIT - 4, _ => 0x61)
  }

  function WidePath(): Bytes {
    Filler() + U32Le(6) + SWTPM
  }

  function WideHash(): Bytes {
    U32Le(6) + Filler()
  }

  lemma {:induction false} WideData()
    ensures TemplateData(ALGO, [], WidePath()) == TemplateData(ALGO, WideHash(), SWTPM)
  {
    hide U32Le, Filler;
    var dd := DField(ALGO, []);
    var tail: Bytes := SWTPM + [0];
    assert DField(ALGO, WideHash()) == dd + WideHash();
    assert WidePath() + [0] == Filler() + U32Le(6) + tail;
    U32LeCut(6);
    U32LeCut(3);
    assert |dd| == 3 && |dd + WideHash()| == U32_LIMIT + 3 && |WidePath() + [0]| == U32_LIMIT + 6 && |tail| == 6;
    WideRegroup(U32Le(3) + dd, U32Le(6), Filler(), tail);
    assert U32Le(3) + (dd + WideHash()) == U32Le(3) + dd + WideHash();
  }

  lemma {:induction false} WideRegroup(a: Bytes, b: Bytes, c: Bytes, d: Bytes)
    ensures a + (b + (c + b + d)) == (a + (b + c)) + (b + d)
  {
  }

  function RecordOf(line: Line): ImaRecord
    requires line.Measure?
  {
    ImaRecord(line.extend, line.fileHash, line.filePath, 0)
  }

  // The two lines extend PCR10 alike for every hash, and only the second
  // reports a software TPM.
  lemma {:induction false} WideFieldsAmbiguous(h: Hash)
    ensures FieldsLine(h, WideFields()).Measure? && FieldsLine(h, NarrowFields()).Measure?
    ensures RecordOf(FieldsLine(h, WideFields())).extend == RecordOf(FieldsLine(h, NarrowFields())).extend
    ensures HypervisorPair(RecordOf(FieldsLine(h, WideFields()))) == None
    ensures HypervisorPair(RecordOf(FieldsLine(h, NarrowFields()))) == Some((SWTPM, HexEncode(WideHash())))
  {
    hide IndexOf, HexDecode, HexEncode, WideHash, WidePath, TemplateData, IsHypervisor, Basename;
    FieldOf([]);
    FieldOf(HexEncode(WideHash()));
    HexRoundTrip(WideHash());
    HexOfNothing();
    WideData();
    SwtpmReported();
    NoColon(HexEncode(WideHash()));
    assert |HexEncode(WideHash())| == 2 * |WideHash()|;
    WideHashSize();
  }

  lemma {:induction false} WideHashSize()
    ensures |WideHash()| > 0
  {
  }

  lemma {:induction false} SwtpmReported()
    ensures Basename(SWTPM) == SWTPM && IsHypervisor(SWTPM)
  {
    hide Basename;
    assert SLASH !in SWTPM;
    assert SWTPM == Ascii("swtpm");
  }

  lemma {:induction false} NoColon(hex: Bytes)
    requires forall i :: 0 <= i < |hex| ==> HexVal(hex[i]).Some?
    ensures HashValue(hex) == hex
  {
    hide IndexOf;
  }

  // The part between the first colon and the second, or up to the end.
  lemma {:induction false} HashValueExact(algo: Bytes, hash: Bytes, rest: Bytes)
    requires COLON !in algo && COLON !in hash
    ensures HashValue(hash) == hash && HashValue(algo + [COLON] + hash) == hash
    ensures HashValue(algo + [COLON] + hash + [COLON] + rest) == hash
  {
    hide IndexOf;
    assert IndexOf(hash, COLON, 0).None?;
    var s: Bytes := algo + [COLON] + hash;
    FirstColon(s, 0, |algo|);
    assert s[|algo| + 1..] == hash;
    assert IndexOf(s, COLON, |algo| + 1).None?;
    var t: Bytes := s + [COLON] + rest;
    FirstColon(t, 0, |algo|);
    FirstColon(t, |algo| + 1, |s|);
    assert t[|algo| + 1..|s|] == hash;
  }

  lemma {:induction false} FirstColon(s: Bytes, from: nat, at: nat)
    requires from <= at < |s| && s[at] == COLON
    requires forall j :: from <= j < at ==> s[j] != COLON
    ensures IndexOf(s, COLON, from) == Some(at)
  {
    hide IndexOf;
  }

  // The hash of a measured record has no colon and is reported as it is.
  lemma {:induction false} MeasuredHashValue(h: Hash, r: ImaRecord, inputs: set<Bytes>)
    requires Measured(h, r, inputs)
    ensures HashValue(r.fileHash) == r.fileHash
  {
    hide IndexOf, HashValue, TemplateFits, SplitOnce;
    if r.fileHash == [] {
      NoColon([]);
    } else {
      var d :| FromField(h, r, d, inputs);
      NoColon(r.fileHash);
    }
  }

  lemma {:induction false} HexOfNothing()
    ensures HexEncode([]) == [] && HexDecode([]) == Some([])
  {
  }

  lemma {:induction false} U32LeCut(v: nat)
    requires v < U32_LIMIT
    ensures U32Le(U32_LIMIT + v) == U32Le(v)
  {
    hide Le;
    assert (U32_LIMIT + v) % U32_LIMIT == v;
  }

  lemma {:induction false} FieldOf(hex: Bytes)
    ensures SplitOnce(ALGO + [COLON] + hex) == Some((ALGO, hex))
  {
    var d := ALGO + [COLON] + hex;
    assert d[0] == 0x61 && d[1] == COLON;
    assert IndexOf(d, COLON, 1) == Some(1);
    assert d[..1] == [0x61] && d[2..] == hex;
  }

  lemma {:induction false} ExtendBinding(h: Hash, r: ImaRecord, s: ImaRecord, inputs: set<Bytes>)
    requires Measured(h, r, inputs) && Measured(h, s, inputs) && r.extend == s.extend
    ensures SameMeasurement(r, s) || Collides(h, inputs) || Hits(h, inputs, ONES_DIGEST)
  {
    hide TemplateInput, SplitOnce, EqIgnoreCase, TemplateFits;
    var vr, vs := r.extend == ONES_DIGEST && r.fileHash == [], s.extend == ONES_DIGEST && s.fileHash == [];
    if !vr && !vs {
      var d :| FromField(h, r, d, inputs);
      var e :| FromField(h, s, e, inputs);
      EqualOrCollides(h, inputs, TemplateInput(d, r.filePath).value, TemplateInput(e, s.filePath).value);
      if TemplateInput(d, r.filePath) == TemplateInput(e, s.filePath) {
        TemplateBinding(d, r.filePath, e, s.filePath);
      }
    }
  }

  lemma {:induction false} ExtendsBinding(h: Hash, rs: seq<ImaRecord>, ss: seq<ImaRecord>, inputs: set<Bytes>)
    requires AllMeasured(h, rs, inputs) && AllMeasured(h, ss, inputs) && Extends(rs) == Extends(ss)
    ensures SameMeasurements(rs, ss) || Collides(h, inputs) || Hits(h, inputs, ONES_DIGEST)
  {
    hide Measured, SameMeasurement;
    assert |rs| == |Extends(rs)| == |ss|;
    if !Collides(h, inputs) && !Hits(h, inputs, ONES_DIGEST) {
      forall i | 0 <= i < |rs|
        ensures SameMeasurement(rs[i], ss[i])
      {
        assert rs[i].extend == Extends(rs)[i] == ss[i].extend;
        ExtendBinding(h, rs[i], ss[i], inputs);
      }
    }
  }

  // ---- the whole attestation ----------------------------------------------------------------------

  // The attested prefix of a log, as the host enclave keeps it.
  function Attested(h: Hash, log: Bytes, pcr10: Bytes): Result<Prefix> {
    match ParseLog(h, log)
    case Err(c) => Err(c)
    case Ok(records) => Reconcile(h, records, pcr10)
  }

  // The part of the log that is attested.
  function AttestedPart(h: Hash, log: Bytes, pcr10: Bytes): Bytes {
    match Attested(h, log, pcr10)
    case Err(_) => []
    case Ok(p) => if p.bytes <= |log| then log[..p.bytes] else log
  }

  // The extends that replaying up to the attested prefix hashes.
  function AttestReplays(h: Hash, log: Bytes, pcr10: Bytes): set<Bytes> {
    match Attested(h, log, pcr10)
    case Err(_) => {}
    case Ok(p) => ReplayInputs(h, Extends(p.attested), |p.attested|)
  }

  ghost predicate SameFindings(a: seq<ImaRecord>, b: seq<ImaRecord>) {
    && SameMeasurements(a, b)
    && SameUpToCase(Latest(Pairs(GpuPair, a)), Latest(Pairs(GpuPair, b)))
    && SameUpToCase(Latest(Pairs(HypervisorPair, a)), Latest(Pairs(HypervisorPair, b)))
  }

  lemma {:induction false} AttestedRecords(h: Hash, log: Bytes, pcr10: Bytes)
    requires Attested(h, log, pcr10).Ok? && LogFits(AttestedPart(h, log, pcr10))
    ensures
      var rs := Attested(h, log, pcr10).value.attested;
      && AllMeasured(h, rs, LogInputs(AttestedPart(h, log, pcr10)))
      && Target(pcr10) == Some(Replay(h, Extends(rs), |rs|))
  {
    hide ParseFrom, Reconcile, Target, Replay, Measured, LogInputs, LogFits, Meets;
    var all := ParseLog(h, log).value;
    ReconcileExact(h, all, pcr10);
    var rs := Attested(h, log, pcr10).value.attested;
    ReparsePrefix(h, log, 0, |rs|);
    LogMeasured(h, AttestedPart(h, log, pcr10), 0);
    assert Extends(rs) == Extends(all)[..|rs|];
    ReplayPrefix(h, Extends(all), |rs|, |rs|);
  }

  // Two logs that reconcile with the same PCR10 report the same measurements
  // and the same GPU-stack and hypervisor maps, hex case aside; or the hash
  // collides on, or maps to all zeros or all ones, something they hashed.
  lemma {:induction false} Pcr10Binds(h: Hash, a: Bytes, pcrA: Bytes, b: Bytes, pcrB: Bytes)
    requires Attested(h, a, pcrA).Ok? && Attested(h, b, pcrB).Ok? && Target(pcrA) == Target(pcrB)
    requires LogFits(AttestedPart(h, a, pcrA)) && LogFits(AttestedPart(h, b, pcrB))
    ensures
      var templates := LogInputs(AttestedPart(h, a, pcrA)) + LogInputs(AttestedPart(h, b, pcrB));
      var replays := AttestReplays(h, a, pcrA) + AttestReplays(h, b, pcrB);
      || SameFindings(Attested(h, a, pcrA).value.attested, Attested(h, b, pcrB).value.attested)
      || Collides(h, templates) || Collides(h, replays)
      || Hits(h, replays, ZERO_DIGEST) || Hits(h, templates, ONES_DIGEST)
  {
    hide Attested, AttestedPart, Target, Replay, LogInputs, LogFits, AllMeasured, SameMeasurements, ReplayInputs, Latest;
    hide SameUpToCase, Collides, Hits;
    var rs, ss := Attested(h, a, pcrA).value.attested, Attested(h, b, pcrB).value.attested;
    var left, right := LogInputs(AttestedPart(h, a, pcrA)), LogInputs(AttestedPart(h, b, pcrB));
    var templates, replays := left + right, AttestReplays(h, a, pcrA) + AttestReplays(h, b, pcrB);
    AttestedRecords(h, a, pcrA);
    AttestedRecords(h, b, pcrB);
    ReplayBinding(h, Extends(rs), |rs|, Extends(ss), |ss|, replays);
    if |rs| == |ss| && Extends(rs)[..|rs|] == Extends(ss)[..|ss|] {
      assert Extends(rs)[..|rs|] == Extends(rs) && Extends(ss)[..|ss|] == Extends(ss);
      AllMeasuredMonotone(h, rs, left, templates);
      AllMeasuredMonotone(h, ss, right, templates);
      ExtendsBinding(h, rs, ss, templates);
      if SameMeasurements(rs, ss) {
        SameMaps(rs, ss);
      }
    }
  }

  // A log below 2^32 bytes has short lines only, and so has every part of it.
  // Requests are cut off far below that, so this is every log that is served.
  lemma {:induction false} ServedLogFits(h: Hash, log: Bytes, pcr10: Bytes)
    requires |log| < U32_LIMIT
    ensures LogFits(AttestedPart(h, log, pcr10))
  {
    hide LogFits, ShortLines, Attested;
    var part := AttestedPart(h, log, pcr10);
    SmallHasShortLines(part);
    ShortLinesFit(part);
  }

  lemma {:induction false} SmallHasShortLines(log: Bytes)
    requires |log| < U32_LIMIT
    ensures ShortLines(log)
    decreases |log|
  {
    hide FirstSegment;
    if log != [] {
      SmallHasShortLines(log[FirstSegment(log)..]);
    }
  }

  // The same for served logs, with nothing else asked of them.
  lemma {:induction false} Pcr10BindsServed(h: Hash, a: Bytes, pcrA: Bytes, b: Bytes, pcrB: Bytes)
    requires |a| < U32_LIMIT && |b| < U32_LIMIT
    requires Attested(h, a, pcrA).Ok? && Attested(h, b, pcrB).Ok? && Target(pcrA) == Target(pcrB)
    ensures
      var templates := LogInputs(AttestedPart(h, a, pcrA)) + LogInputs(AttestedPart(h, b, pcrB));
      var replays := AttestReplays(h, a, pcrA) + AttestReplays(h, b, pcrB);
      || SameFindings(Attested(h, a, pcrA).value.attested, Attested(h, b, pcrB).value.attested)
      || Collides(h, templates) || Collides(h, replays)
      || Hits(h, replays, ZERO_DIGEST) || Hits(h, templates, ONES_DIGEST)
  {
    hide Attested, AttestedPart, Target, LogInputs, LogFits, SameFindings, AttestReplays, Collides, Hits;
    ServedLogFits(h, a, pcrA);
    ServedLogFits(h, b, pcrB);
    Pcr10Binds(h, a, pcrA, b, pcrB);
  }

  // ---- beyond 32 bits ---------------------------------------------------------------------------------

  // A log of one line without its newline.
  lemma {:induction false} OneLineLog(h: Hash, f: Fields)
    requires Separable(f) && NEWLINE !in JoinFields(f)
    requires f.fname != [] && 0x21 <= f.fname[|f.fname| - 1] < 0x80
    ensures ParseLog(h, JoinFields(f)) == After(FieldsLine(h, f), |JoinFields(f)|, Ok([]))
  {
    hide FieldsLine, HostFields, IndexOf, WhitespaceTail, After, ParseFrom;
    var log := JoinFields(f);
    assert log[|log| - 1] == f.fname[|f.fname| - 1];
    NoWhitespaceTail(log);
    FieldsExact(log, f);
    assert FirstSegment(log) == |log|;
    assert log[..|log|] == log && log[|log|..] == [];
    ParseUnfold(h, log, 0);
    ParseEmpty(h, |log|);
  }

  function NarrowFields(): Fields {
    Fields(PCR_TEN, [], IMA_NG, ALGO + [COLON] + HexEncode(WideHash()), SWTPM)
  }

  function WideFields(): Fields {
    Fields(PCR_TEN, [], IMA_NG, ALGO + [COLON] + [], WidePath())
  }

  lemma {:induction false} WideLinesParse(h: Hash)
    ensures ParseLog(h, JoinFields(WideFields())) == After(FieldsLine(h, WideFields()), |JoinFields(WideFields())|, Ok([]))
    ensures ParseLog(h, JoinFields(NarrowFields())) == After(FieldsLine(h, NarrowFields()), |JoinFields(NarrowFields())|, Ok([]))
  {
    hide FieldsLine, ParseFrom, After, HexEncode, Filler, WideHash;
    var digits := HexEncode(WideHash());
    HexPlain(digits);
    FillerPlain();
    assert NEWLINE !in WidePath() by { SixPlain(); }
    assert WidePath()[|WidePath()| - 1] == 0x6D;
    JoinPlain(WideFields());
    JoinPlain(NarrowFields());
    OneLineLog(h, WideFields());
    OneLineLog(h, NarrowFields());
  }

  lemma {:induction false} HexPlain(digits: Bytes)
    requires forall i :: 0 <= i < |digits| ==> HexVal(digits[i]).Some?
    ensures SPACE !in digits && NEWLINE !in digits
  {
    assert HexVal(SPACE).None? && HexVal(NEWLINE).None?;
  }

  lemma {:induction false} FillerPlain()
    ensures NEWLINE !in Filler()
  {
  }

  lemma {:induction false} SixPlain()
    ensures U32Le(6) == [6, 0, 0, 0]
  {
    assert Le(0, 0) == [] && Le(0, 1) == [0] && Le(0, 2) == [0, 0] && Le(0, 3) == [0, 0, 0];
  }

  lemma {:induction false} JoinPlain(f: Fields)
    requires NEWLINE !in f.pcr && NEWLINE !in f.digest && NEWLINE !in f.template && NEWLINE !in f.dfield && NEWLINE !in f.fname
    ensures NEWLINE !in JoinFields(f)
  {
  }

  // The functions do need the condition, though no request is that large: two logs, one with a path of 2^32 bytes,
  // that reconcile with the same PCR10 for every hash (that does not happen to
  // send their one extend to all zeros), and only one reports a software TPM.
  lemma {:induction false} WideLogsAmbiguous(h: Hash)
    ensures
      var a, b := JoinFields(WideFields()), JoinFields(NarrowFields());
      && ParseLog(h, a).Ok? && |ParseLog(h, a).value| == 1
      && var pcr := Replay(h, Extends(ParseLog(h, a).value), 1);
         pcr != ZERO_DIGEST ==>
           && Attested(h, a, HexEncode(pcr)).Ok? && Attested(h, b, HexEncode(pcr)).Ok?
           && Latest(Pairs(HypervisorPair, Attested(h, a, HexEncode(pcr)).value.attested)) == map[]
           && Latest(Pairs(HypervisorPair, Attested(h, b, HexEncode(pcr)).value.attested)) ==
              map[SWTPM := HexEncode(WideHash())]
  {
    hide FieldsLine, ParseLog, HexEncode, WideHash, WidePath, JoinFields, HypervisorPair, Reconcile, Replay, Target;
    var a, b := JoinFields(WideFields()), JoinFields(NarrowFields());
    WideLinesParse(h);
    WideFieldsAmbiguous(h);
    AfterOne(FieldsLine(h, WideFields()), |a|);
    AfterOne(FieldsLine(h, NarrowFields()), |b|);
    var r, s := ParseLog(h, a).value[0], ParseLog(h, b).value[0];
    assert ParseLog(h, a).value == [r] && ParseLog(h, b).value == [s];
    assert Extends([r]) == [r.extend] == [s.extend] == Extends([s]);
    var pcr := Replay(h, [r.extend], 1);
    if pcr != ZERO_DIGEST {
      OneRecordAttested(h, r);
      OneRecordAttested(h, s);
      LatestOfOne(r);
      LatestOfOne(s);
      OffsetIrrelevant(r, FieldsLine(h, WideFields()));
      OffsetIrrelevant(s, FieldsLine(h, NarrowFields()));
    }
  }

  lemma {:induction false} AfterOne(line: Line, end: nat)
    requires line.Measure?
    ensures After(line, end, Ok([])) == Ok([ImaRecord(line.extend, line.fileHash, line.filePath, end)])
  {
    var r := ImaRecord(line.extend, line.fileHash, line.filePath, end);
    assert [r] + [] == [r];
  }

  lemma {:induction false} OneRecordAttested(h: Hash, r: ImaRecord)
    requires Replay(h, [r.extend], 1) != ZERO_DIGEST
    ensures Reconcile(h, [r], HexEncode(Replay(h, [r.extend], 1))) == Ok(Prefix([r], 1, r.endOffset))
  {
    hide Target, Replay, Reconcile, HexEncode;
    var pcr := Replay(h, [r.extend], 1);
    assert Extends([r]) == [r.extend];
    TargetOf(pcr);
    ReconcileExact(h, [r], HexEncode(pcr));
    assert Meets(h, [r.extend], pcr);
    assert [r][..1] == [r];
  }

  lemma {:induction false} LatestOfOne(r: ImaRecord)
    ensures Latest(Pairs(HypervisorPair, [r])) ==
      match HypervisorPair(r)
      case None => map[]
      case Some((k, v)) => map[k := v]
  {
    hide HypervisorPair;
    LatestStep(HypervisorPair, [r], 0);
    LatestNone(HypervisorPair, [r]);
    assert [r][..1] == [r];
  }

  lemma {:induction false} OffsetIrrelevant(r: ImaRecord, line: Line)
    requires line.Measure? && r.fileHash == line.fileHash && r.filePath == line.filePath
    ensures HypervisorPair(r) == HypervisorPair(RecordOf(line))
  {
    hide IsHypervisor, HashValue, Basename;
  }
}
