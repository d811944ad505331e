// Logs as the kernel writes them: what every line of them is read as.

module ImaLines {
  import opened Bytes
  import opened Codec
  import opened Text
  import opened Unicode
  import opened ImaLog
  import opened ImaCheck

  // Fields that a line can carry: no space but in the file name, no newline,
  // and a file name that does not end in white space.
  predicate Writable(f: Fields) {
    Separable(f) && NEWLINE !in JoinFields(f) && WhitespaceTail(JoinFields(f)) == 0
  }

  function LineOf(f: Fields): Bytes {
    JoinFields(f) + [NEWLINE]
  }

  // A written line is read back as its fields.
  lemma {:induction false} LineRead(h: Hash, f: Fields)
    requires Writable(f)
    ensures HostLine(h, LineOf(f)) == FieldsLine(h, f)
  {
    hide FieldsLine, WhitespaceTail, HostFields, IsWhitespaceChar;
    var line := JoinFields(f);
    NewlineIsWhite();
    TrimEndExact(line, [NEWLINE]);
    FieldsExact(line, f);
    assert |line| > 0;
  }

  lemma {:induction false} NewlineIsWhite()
    ensures IsWhitespaceChar([NEWLINE])
  {
  }

  // ---- what a line contributes ----------------------------------------------------------------------

  // "10", "ima-ng"
  ghost predicate Measures(f: Fields) {
    f.pcr == [0x31, 0x30]
  }

  // A violation is a nonempty digest of zeros only.
  predicate Violates(f: Fields) {
    f.digest != [] && forall i :: 0 <= i < |f.digest| ==> f.digest[i] == 0x30
  }

  // "ima-ng", and a violation or an algorithm, a colon and hexadecimal digits.
  ghost predicate WellMeasured(f: Fields) {
    && f.template == [0x69, 0x6D, 0x61, 0x2D, 0x6E, 0x67]
    && (Violates(f) ||
        exists algo: Bytes, hex: Bytes :: f.dfield == algo + [COLON] + hex && COLON !in algo && HexDecode(hex).Some?)
  }

  // The record of a line: its own file name; nothing and all ones for a
  // violation; otherwise the digits behind the first colon, and the hash of the
  // two length-prefixed template fields.
  ghost predicate RecordOf(h: Hash, f: Fields, r: ImaRecord) {
    && r.filePath == f.fname
    && if Violates(f) then r.extend == ONES_DIGEST && r.fileHash == []
       else
         exists algo: Bytes ::
           && f.dfield == algo + [COLON] + r.fileHash && COLON !in algo && HexDecode(r.fileHash).Some?
           && var d := algo + [COLON, 0] + HexDecode(r.fileHash).value;
              r.extend == h(U32Le(|d|) + d + (U32Le(|f.fname| + 1) + (f.fname + [0])))
  }

  lemma {:induction false} FirstColon(algo: Bytes, hex: Bytes)
    requires COLON !in algo
    ensures SplitOnce(algo + [COLON] + hex) == Some((algo, hex))
  {
    hide IndexOf;
    var s := algo + [COLON] + hex;
    assert s[|algo|] == COLON && forall j :: 0 <= j < |algo| ==> s[j] == algo[j];
    assert s[..|algo|] == algo && s[|algo| + 1..] == hex;
  }

  lemma {:induction false} SplitAtColon(s: Bytes)
    requires SplitOnce(s).Some?
    ensures
      var (algo, hex) := SplitOnce(s).value;
      s == algo + [COLON] + hex && COLON !in algo
  {
    hide IndexOf;
  }

  // Lines of other registers are skipped; a line of register 10 gives its record
  // or the error -3 or -4.
  lemma {:induction false} LineExact(h: Hash, f: Fields, end: nat)
    ensures FieldsLine(h, f).Skip? <==> !Measures(f)
    ensures FieldsLine(h, f).Measure? <==> Measures(f) && WellMeasured(f)
    ensures FieldsLine(h, f).Measure? ==>
      var m := FieldsLine(h, f);
      RecordOf(h, f, ImaRecord(m.extend, m.fileHash, m.filePath, end))
    ensures FieldsLine(h, f).Fail? ==>
      FieldsLine(h, f).code == if f.template == [0x69, 0x6D, 0x61, 0x2D, 0x6E, 0x67] then -4 else -3
  {
    hide SplitOnce, U32Le, HexDecode;
    if SplitOnce(f.dfield).Some? {
      SplitAtColon(f.dfield);
      var (algo, hex) := SplitOnce(f.dfield).value;
      if HexDecode(hex).Some? {
        assert DField(algo, HexDecode(hex).value) == algo + [COLON, 0] + HexDecode(hex).value;
      }
    }
    if exists algo: Bytes, hex: Bytes :: f.dfield == algo + [COLON] + hex && COLON !in algo && HexDecode(hex).Some? {
      var algo: Bytes, hex: Bytes :| f.dfield == algo + [COLON] + hex && COLON !in algo && HexDecode(hex).Some?;
      FirstColon(algo, hex);
    }
  }

  // ---- whole logs -------------------------------------------------------------------------------------

  function LogOf(fs: seq<Fields>): Bytes {
    if fs == [] then [] else LogOf(fs[..|fs| - 1]) + LineOf(fs[|fs| - 1])
  }

  // The lines that measure, in order.
  function Measuring(fs: seq<Fields>): seq<Fields> {
    if fs == [] then []
    else Measuring(fs[..|fs| - 1]) + (if fs[|fs| - 1].pcr == [0x31, 0x30] then [fs[|fs| - 1]] else [])
  }

  ghost predicate AllWritable(fs: seq<Fields>) {
    forall i :: 0 <= i < |fs| ==> Writable(fs[i])
  }

  ghost predicate RecordsOf(h: Hash, fs: seq<Fields>, rs: seq<ImaRecord>) {
    |fs| == |rs| && forall i :: 0 <= i < |fs| ==> RecordOf(h, fs[i], rs[i])
  }

  lemma {:induction false} LogEndsLine(fs: seq<Fields>)
    ensures WholeLines(LogOf(fs))
  {
  }

  // One line alone.
  lemma {:induction false} OneLine(h: Hash, f: Fields, base: nat)
    requires Writable(f)
    ensures ParseFrom(h, LineOf(f), base) == After(FieldsLine(h, f), base + |LineOf(f)|, Ok([]))
  {
    hide FieldsLine, IndexOf, WhitespaceTail, After, ParseFrom, HostLine;
    var line := LineOf(f);
    LineRead(h, f);
    assert line[|line| - 1] == NEWLINE && forall i :: 0 <= i < |line| - 1 ==> line[i] == JoinFields(f)[i];
    assert FirstSegment(line) == |line|;
    assert line[..|line|] == line && line[|line|..] == [];
    ParseUnfold(h, line, base);
    ParseEmpty(h, base + |line|);
  }

  // A log of such lines parses exactly when every measuring line is well
  // measured, and then gives one record for each of them, in order.
  lemma {:induction false} LogRead(h: Hash, fs: seq<Fields>)
    requires AllWritable(fs)
    ensures ParseLog(h, LogOf(fs)).Ok? <==> forall i :: 0 <= i < |fs| && Measures(fs[i]) ==> WellMeasured(fs[i])
    ensures ParseLog(h, LogOf(fs)).Ok? ==> RecordsOf(h, Measuring(fs), ParseLog(h, LogOf(fs)).value)
  {
    hide FieldsLine, ParseFrom, Writable, WellMeasured, LineOf, RecordOf, Combine, After;
    if fs == [] {
      ParseEmpty(h, 0);
    } else {
      var n := |fs| - 1;
      var init, f := fs[..n], fs[n];
      var log, end := LogOf(init), |LogOf(init)| + |LineOf(f)|;
      LogRead(h, init);
      LogEndsLine(init);
      OneLine(h, f, |log|);
      ParseHomomorphism(h, log, LineOf(f), 0);
      LineExact(h, f, end);
      var m := FieldsLine(h, f);
      LastRecord(ParseLog(h, log), m, end);
      assert Measuring(init) + [] == Measuring(init);
      assert forall i :: 0 <= i < n ==> fs[i] == init[i];
    }
  }

  lemma {:induction false} LastRecord(before: Result<seq<ImaRecord>>, line: Line, end: nat)
    ensures Combine(before, After(line, end, Ok([]))) ==
      if before.Err? then before
      else
        match line
        case Skip => before
        case Fail(c) => Err(c)
        case Measure(x, fh, fp) => Ok(before.value + [ImaRecord(x, fh, fp, end)])
  {
    if before.Ok? {
      assert before.value + [] == before.value;
      if line.Measure? {
        var r := ImaRecord(line.extend, line.fileHash, line.filePath, end);
        assert [r] + [] == [r];
      }
    }
  }

  // Such a log, with anything to measure in it, is accepted by both enclaves
  // for the register its own lines leave behind, and attested as far as the
  // register's value first occurs.
  lemma {:induction false} GenuineAccepted(h: Hash, fs: seq<Fields>)
    requires AllWritable(fs) && Measuring(fs) != []
    requires forall i :: 0 <= i < |fs| && Measures(fs[i]) ==> WellMeasured(fs[i])
    ensures ParseLog(h, LogOf(fs)).Ok?
    ensures
      var records := ParseLog(h, LogOf(fs)).value;
      var pcr := Replay(h, Extends(records), |records|);
      pcr != ZERO_DIGEST ==>
        && HostVerify(h, LogOf(fs), HexEncode(pcr)).Ok?
        && GuestVerify(h, LogOf(fs), HexEncode(pcr)) == HostVerify(h, LogOf(fs), HexEncode(pcr))
        && HostVerify(h, LogOf(fs), HexEncode(pcr)).value.total == |Measuring(fs)|
  {
    hide ParseLog, Replay, Extends, HostVerify, GuestVerify, HexEncode, Measuring, RecordOf, Writable, WellMeasured;
    LogRead(h, fs);
    var records := ParseLog(h, LogOf(fs)).value;
    OwnReplayAccepted(h, LogOf(fs), |records|);
    ServedAgree(h, LogOf(fs), Replay(h, Extends(records), |records|));
  }

  // ---- one line spelled out ------------------------------------------------------------------------------

  // "10 ab ima-ng md5:cd /sh" and a newline, and the template it extends by.
  const EXAMPLE_LINE: Bytes :=
    [0x31, 0x30, 0x20, 0x61, 0x62, 0x20, 0x69, 0x6D, 0x61, 0x2D, 0x6E, 0x67, 0x20,
     0x6D, 0x64, 0x35, 0x3A, 0x63, 0x64, 0x20, 0x2F, 0x73, 0x68, 0x0A]
  const EXAMPLE_TEMPLATE: Bytes :=
    [6, 0, 0, 0, 0x6D, 0x64, 0x35, 0x3A, 0x00, 0xCD, 4, 0, 0, 0, 0x2F, 0x73, 0x68, 0x00]

  const MD5: Bytes := [0x6D, 0x64, 0x35]
  const SH: Bytes := [0x2F, 0x73, 0x68]

  function ExampleFields(): Fields {
    Fields([0x31, 0x30], [0x61, 0x62], [0x69, 0x6D, 0x61, 0x2D, 0x6E, 0x67], MD5 + [COLON] + CD, SH)
  }

  lemma {:induction false} SmallLengths()
    ensures U32Le(4) == [4, 0, 0, 0] && U32Le(6) == [6, 0, 0, 0]
  {
    assert Le(0, 0) == [] && Le(0, 1) == [0] && Le(0, 2) == [0, 0] && Le(0, 3) == [0, 0, 0];
  }

  const CD: Bytes := [0x63, 0x64]

  lemma {:induction false} DecodePair()
    ensures HexDecode(CD) == Some([0xCD])
  {
    assert CD[0] == 0x63 && CD[1] == 0x64 && HexVal(0x63) == Some(12) && HexVal(0x64) == Some(13);
    assert |CD| == 2 && forall i :: 0 <= i < 2 ==> HexVal(CD[i]).Some?;
    HexDecodeStep(CD);
    var v := HexDecode(CD).value;
    assert |v| == 1 && v[0] == 0xCD;
    assert v == [0xCD];
  }

  lemma {:induction false} ExampleTemplate()
    ensures TemplateInput(MD5 + [COLON] + CD, SH) == Some(EXAMPLE_TEMPLATE)
  {
    hide U32Le, SplitOnce, HexDecode;
    FirstColon(MD5, CD);
    SmallLengths();
    DecodePair();
    var raw: Bytes := [0xCD];
    var d, n := DField(MD5, raw), SH + [0];
    var d': Bytes, n': Bytes := [0x6D, 0x64, 0x35, 0x3A, 0x00, 0xCD], [0x2F, 0x73, 0x68, 0x00];
    assert d == d' && n == n';
    var a: Bytes, b: Bytes := [6, 0, 0, 0], [4, 0, 0, 0];
    assert TemplateData(MD5, raw, SH) == a + d' + (b + n');
    assert a + d' + (b + n') == EXAMPLE_TEMPLATE;
  }

  lemma {:induction false} ExampleTail()
    ensures Join(MD5 + [COLON] + CD, SH) == [0x6D, 0x64, 0x35, 0x3A, 0x63, 0x64, 0x20, 0x2F, 0x73, 0x68]
  {
  }

  lemma {:induction false} ExampleFront(tail: Bytes)
    ensures Join([0x31, 0x30], Join([0x61, 0x62], Join([0x69, 0x6D, 0x61, 0x2D, 0x6E, 0x67], tail))) ==
      [0x31, 0x30, 0x20, 0x61, 0x62, 0x20, 0x69, 0x6D, 0x61, 0x2D, 0x6E, 0x67, 0x20] + tail
  {
  }

  lemma {:induction false} ExampleText()
    ensures LineOf(ExampleFields()) == EXAMPLE_LINE && |EXAMPLE_LINE| == 24
  {
    hide Join;
    ExampleTail();
    var tail: Bytes := [0x6D, 0x64, 0x35, 0x3A, 0x63, 0x64, 0x20, 0x2F, 0x73, 0x68];
    ExampleFront(tail);
  }

  lemma {:induction false} ExampleWritable()
    ensures Writable(ExampleFields())
  {
    hide WhitespaceTail;
    NoWhitespaceTail(JoinFields(ExampleFields()));
  }

  lemma {:induction false} ExampleMeasured(h: Hash)
    ensures FieldsLine(h, ExampleFields()) == Measure(h(EXAMPLE_TEMPLATE), CD, SH)
  {
    hide TemplateInput, SplitOnce;
    ExampleTemplate();
    FirstColon(MD5, CD);
    assert ExampleFields().digest[0] == 0x61;
  }

  lemma {:induction false} ExampleRead(h: Hash)
    ensures ParseLog(h, EXAMPLE_LINE) == Ok([ImaRecord(h(EXAMPLE_TEMPLATE), CD, SH, 24)])
  {
    hide ParseFrom, FieldsLine, Writable, LineOf;
    ExampleText();
    ExampleWritable();
    ExampleMeasured(h);
    OneLine(h, ExampleFields(), 0);
    var r := ImaRecord(h(EXAMPLE_TEMPLATE), CD, SH, 24);
    assert [r] + [] == [r];
  }
}
