// The TPM quote parser.  The layout is that of TPMS_ATTEST and TPMT_SIGNATURE,
// section 10.12 of the TCG TPM 2.0 Library, Part 2.

module Quote {
  import opened Bytes

  datatype Fault =
    | TooShort | BadMagic | BadType
    | BeforeSigner | BeforeExtraData | TruncatedExtraData | WrongNonce
    | BeforeSelect | BankCount | TruncatedSelection | BankAlgorithm | TruncatedBitmap | WrongBitmap
    | BeforeDigest | DigestLength | Trailing | WrongDigest
    | SignatureShort | SignatureScheme | SignatureHash | SignatureLength

  datatype Result<+T> = Ok(value: T) | Err(fault: Fault)

  // TPM_GENERATED_VALUE, TPM_ST_ATTEST_QUOTE
  const HEADER: Bytes := [0xFF, 0x54, 0x43, 0x47, 0x80, 0x18]
  // one bank, TPM_ALG_SHA256
  const BANK: Bytes := [0, 0, 0, 1, 0, 0x0B]
  // PCRs 0, 7 and 10
  const PCR_SELECT: Bytes := [0x81, 0x04, 0x00]
  // TPM_ALG_RSASSA, TPM_ALG_SHA256
  const SCHEME: Bytes := [0, 0x14, 0, 0x0B]

  // ---- the serialised form ----------------------------------------------------------------------

  function U16Be(v: nat): (r: Bytes)
    requires v < 0x1_0000
    ensures |r| == 2
  {
    [v / 256, v % 256]
  }

  function Zeros(n: nat): (r: Bytes)
    ensures |r| == n && forall i :: 0 <= i < n ==> r[i] == 0
  {
    seq(n, _ => 0)
  }

  // A TPM2B: two length bytes, then the contents.
  function SizedField(x: Bytes): Bytes
    requires |x| < 0x1_0000
  {
    U16Be(|x|) + x
  }

  // clockInfo and firmwareVersion are 25 opaque bytes; the bitmap may carry
  // further zero bytes.
  datatype Attest = Attest(signer: Bytes, nonce: Bytes, clock: Bytes, extra: nat, pcrDigest: Digest)

  predicate WellSized(q: Attest) {
    |q.signer| < 0x1_0000 && |q.nonce| < 0x1_0000 && |q.clock| == 25 && q.extra <= 252
  }

  function EncodeSelection(clock: Bytes, extra: nat): Bytes
    requires extra <= 252
  {
    clock + BANK + [3 + extra] + PCR_SELECT + Zeros(extra)
  }

  function EncodeAttest(q: Attest): Bytes
    requires WellSized(q)
  {
    HEADER + (SizedField(q.signer) + (SizedField(q.nonce) + (EncodeSelection(q.clock, q.extra) + SizedField(q.pcrDigest))))
  }

  function EncodeSignature(body: Bytes): Bytes
    requires |body| < 0x1_0000
  {
    SCHEME + SizedField(body)
  }

  // ---- what the parsers answer, by peeling fields off the front -------------------------------------

  // `from_be_bytes`.
  function Be16(a: Byte, b: Byte): (v: nat)
    ensures v < 0x1_0000
  {
    a as int * 256 + b as int
  }

  function Be32(a: Byte, b: Byte, c: Byte, d: Byte): (v: nat)
    ensures v < 0x1_0000_0000
  {
    a as int * 0x100_0000 + b as int * 0x1_0000 + c as int * 256 + d as int
  }

  function ReadU16(s: Bytes, p: nat): (v: nat)
    requires p + 2 <= |s|
    ensures v < 0x1_0000
  {
    Be16(s[p], s[p + 1])
  }

  function ReadU32(s: Bytes, p: nat): (v: nat)
    requires p + 4 <= |s|
  {
    Be32(s[p], s[p + 1], s[p + 2], s[p + 3])
  }

  function Header(attest: Bytes): Result<Bytes> {
    if |attest| < 40 then Err(TooShort)
    else if ReadU32(attest, 0) != 0xFF54_4347 then Err(BadMagic)
    else if ReadU16(attest, 4) != 0x8018 then Err(BadType)
    else Ok(attest[6..])
  }

  function Sized(s: Bytes, before: Fault, within: Fault): Result<(Bytes, Bytes)> {
    if |s| < 2 then Err(before)
    else if |s| - 2 < ReadU16(s, 0) then Err(within)
    else Ok((s[2..2 + ReadU16(s, 0)], s[2 + ReadU16(s, 0)..]))
  }

  predicate SelectsExactly(bitmap: Bytes) {
    PCR_SELECT <= bitmap && forall i :: 3 <= i < |bitmap| ==> bitmap[i] == 0
  }

  function Selection(s: Bytes): Result<Bytes> {
    if |s| < 29 then Err(BeforeSelect)
    else if ReadU32(s, 25) != 1 then Err(BankCount)
    else if |s| < 32 then Err(TruncatedSelection)
    else if ReadU16(s, 29) != 0x000B then Err(BankAlgorithm)
    else if |s| - 32 < s[31] then Err(TruncatedBitmap)
    else if !SelectsExactly(s[32..32 + s[31]]) then Err(WrongBitmap)
    else Ok(s[32 + s[31]..])
  }

  function FinalDigest(s: Bytes, expected: Digest): Option<Fault> {
    if |s| < 2 then Some(BeforeDigest)
    else if ReadU16(s, 0) != 32 then Some(DigestLength)
    else if |s| != 34 then Some(Trailing)
    else if s[2..] != expected then Some(WrongDigest)
    else None
  }

  function Signature(s: Bytes): Result<Bytes> {
    if |s| < 6 then Err(SignatureShort)
    else if ReadU16(s, 0) != 0x0014 then Err(SignatureScheme)
    else if ReadU16(s, 2) != 0x000B then Err(SignatureHash)
    else if 6 + ReadU16(s, 4) != |s| then Err(SignatureLength)
    else Ok(s[6..])
  }

  // Magic, type, qualifiedSigner and extraData; what is behind them.
  function Front(attest: Bytes, nonce: Bytes): Result<Bytes> {
    match Header(attest)
    case Err(e) => Err(e)
    case Ok(s0) =>
      match Sized(s0, BeforeSigner, BeforeExtraData)
      case Err(e) => Err(e)
      case Ok((_, s1)) =>
        match Sized(s1, BeforeExtraData, TruncatedExtraData)
        case Err(e) => Err(e)
        case Ok((extra, s2)) => if extra != nonce then Err(WrongNonce) else Ok(s2)
  }

  // Clock, firmware version, PCR selection and digest.
  function Back(s: Bytes, expected: Digest): Option<Fault> {
    match Selection(s)
    case Err(e) => Some(e)
    case Ok(s3) => FinalDigest(s3, expected)
  }

  function Verdict(h: Hash, attest: Bytes, signature: Bytes, pcrs: Bytes, nonce: Bytes): Result<Bytes> {
    match Front(attest, nonce)
    case Err(e) => Err(e)
    case Ok(s) =>
      match Back(s, h(pcrs))
      case Some(e) => Err(e)
      case None => Signature(signature)
  }

  // ---- the two enclaves' parsers, by an advancing offset ---------------------------------------------

  // `read_u16_be` followed by `advance_within`.
  method ReadSized(attest: Bytes, p: nat, before: Fault, within: Fault) returns (r: Result<(nat, nat)>)
    requires p <= |attest|
    ensures r.Ok? ==> p + 2 == r.value.0 <= r.value.1 <= |attest|
    ensures Sized(attest[p..], before, within) ==
      match r
      case Err(e) => Err(e)
      case Ok((lo, hi)) => Ok((attest[lo..hi], attest[hi..]))
  {
    hide Sized, ReadU16;
    SizedShort(attest[p..], before, within);
    if |attest| - p < 2 {
      return Err(before);
    }
    ReadU16At(attest, p);
    var n := ReadU16(attest, p);
    var start := p + 2;
    if |attest| - start < n {
      return Err(within);
    }
    SizedWhole(attest[p..], n, before, within);
    SliceTwice(attest, p, 2, 2 + n);
    r := Ok((start, start + n));
  }

  lemma {:induction false} SizedShort(s: Bytes, before: Fault, within: Fault)
    ensures |s| < 2 ==> Sized(s, before, within) == Err(before)
    ensures |s| >= 2 && 2 + ReadU16(s, 0) > |s| ==> Sized(s, before, within) == Err(within)
  {
    hide ReadU16;
  }

  lemma {:induction false} SizedWhole(s: Bytes, n: nat, before: Fault, within: Fault)
    requires |s| >= 2 + n && n == ReadU16(s, 0)
    ensures Sized(s, before, within) == Ok((s[2..2 + n], s[2 + n..]))
  {
    hide ReadU16;
  }

  lemma {:induction false} ReadU16At(s: Bytes, p: nat)
    requires p + 2 <= |s|
    ensures ReadU16(s[p..], 0) == ReadU16(s, p)
  {
    hide Be16;
  }

  lemma {:induction false} SliceTwice(s: Bytes, p: nat, i: nat, j: nat)
    requires p <= |s| && i <= j <= |s| - p
    ensures s[p..][i..j] == s[p + i..p + j] && s[p..][j..] == s[p + j..]
  {
  }

  // The offset form of the bitmap and bank checks, from the bank count on.
  method ReadBank(attest: Bytes, start: nat, count: nat) returns (r: Result<nat>)
    requires start + 29 <= |attest| && count == ReadU32(attest, start + 25)
    ensures r.Ok? ==> r.value <= |attest|
    ensures Selection(attest[start..]) ==
      match r
      case Err(e) => Err(e)
      case Ok(q) => Ok(attest[q..])
  {
    hide Be16, Be32, SelectsExactly;
    ghost var s := attest[start..];
    assert forall i :: 0 <= i < |s| ==> s[i] == attest[start + i];
    var p := start + 29;
    if count != 1 {
      return Err(BankCount);
    }
    if p + 3 > |attest| {
      return Err(TruncatedSelection);
    }
    var alg := Be16(attest[p], attest[p + 1]);
    if alg != 0x000B {
      return Err(BankAlgorithm);
    }
    var size := attest[p + 2];
    p := p + 3;
    if p + size > |attest| {
      return Err(TruncatedBitmap);
    }
    var selected := attest[p..p + size];
    assert selected == s[32..32 + s[31]];
    p := p + size;
    assert attest[p..] == s[32 + s[31]..];
    SelectsSpelled(selected);
    if |selected| < |PCR_SELECT| || selected[..|PCR_SELECT|] != PCR_SELECT ||
       exists i :: |PCR_SELECT| <= i < |selected| && selected[i] != 0
    {
      return Err(WrongBitmap);
    }
    r := Ok(p);
  }

  // The three tests the parsers make of the bitmap.
  lemma {:induction false} SelectsSpelled(bitmap: Bytes)
    ensures SelectsExactly(bitmap) <==>
      && |bitmap| >= |PCR_SELECT| && bitmap[..|PCR_SELECT|] == PCR_SELECT
      && !(exists i :: |PCR_SELECT| <= i < |bitmap| && bitmap[i] != 0)
  {
  }

  method ReadDigest(attest: Bytes, start: nat, expected: Digest) returns (r: Option<Fault>)
    requires start <= |attest|
    ensures r == FinalDigest(attest[start..], expected)
  {
    ghost var s := attest[start..];
    assert forall i :: 0 <= i < |s| ==> s[i] == attest[start + i];
    var p := start;
    if p + 2 > |attest| {
      return Some(BeforeDigest);
    }
    var dlen := Be16(attest[p], attest[p + 1]);
    p := p + 2;
    if dlen != 32 {
      return Some(DigestLength);
    }
    if p + dlen != |attest| {
      return Some(Trailing);
    }
    assert attest[p..p + dlen] == s[2..];
    if attest[p..p + dlen] != expected {
      return Some(WrongDigest);
    }
    r := None;
  }

  method ReadSignature(s: Bytes) returns (r: Result<Bytes>)
    ensures r == Signature(s)
  {
    if |s| < 6 {
      return Err(SignatureShort);
    }
    if Be16(s[0], s[1]) != 0x0014 {
      return Err(SignatureScheme);
    }
    if Be16(s[2], s[3]) != 0x000B {
      return Err(SignatureHash);
    }
    var len := Be16(s[4], s[5]);
    if 6 + len != |s| {
      return Err(SignatureLength);
    }
    r := Ok(s[6..]);
  }

  // The offset form of `Front`.
  method ReadFront(attest: Bytes, nonce: Bytes) returns (r: Result<nat>)
    ensures r.Ok? ==> r.value <= |attest|
    ensures Front(attest, nonce) ==
      match r
      case Err(e) => Err(e)
      case Ok(p) => Ok(attest[p..])
  {
    hide Sized;
    if |attest| < 40 {
      return Err(TooShort);
    }
    var magic := Be32(attest[0], attest[1], attest[2], attest[3]);
    if magic != 0xFF54_4347 {
      return Err(BadMagic);
    }
    var kind := Be16(attest[4], attest[5]);
    if kind != 0x8018 {
      return Err(BadType);
    }
    var p := 6;
    var signer := ReadSized(attest, p, BeforeSigner, BeforeExtraData);
    if signer.Err? {
      return Err(signer.fault);
    }
    p := signer.value.1;
    var extra := ReadSized(attest, p, BeforeExtraData, TruncatedExtraData);
    if extra.Err? {
      return Err(extra.fault);
    }
    if attest[extra.value.0..extra.value.1] != nonce {
      return Err(WrongNonce);
    }
    r := Ok(extra.value.1);
  }

  // `verify_quote_structure` of the host enclave.
  method VerifyQuoteHost(h: Hash, attest: Bytes, signature: Bytes, pcrs: Bytes, nonce: Bytes)
    returns (r: Result<Bytes>)
    ensures r == Verdict(h, attest, signature, pcrs, nonce)
  {
    hide Front, Selection, FinalDigest, Signature;
    var front := ReadFront(attest, nonce);
    if front.Err? {
      return Err(front.fault);
    }
    var p := front.value;
    if p + 25 > |attest| || |attest| - (p + 25) < 4 {
      SelectionShort(attest[p..]);
      return Err(BeforeSelect);
    }
    var count := Be32(attest[p + 25], attest[p + 26], attest[p + 27], attest[p + 28]);
    var bank := ReadBank(attest, p, count);
    if bank.Err? {
      return Err(bank.fault);
    }
    var digest := ReadDigest(attest, bank.value, h(pcrs));
    if digest.Some? {
      return Err(digest.value);
    }
    r := ReadSignature(signature);
  }

  // `verify_quote_structure` of the guest enclave.
  method VerifyQuoteGuest(h: Hash, attest: Bytes, signature: Bytes, pcrs: Bytes, nonce: Bytes)
    returns (r: Result<Bytes>)
    ensures r == Verdict(h, attest, signature, pcrs, nonce)
  {
    hide Front, Selection, FinalDigest, Signature;
    var front := ReadFront(attest, nonce);
    if front.Err? {
      return Err(front.fault);
    }
    var p := front.value + 17 + 8;
    if p + 4 > |attest| {
      SelectionShort(attest[p - 25..]);
      return Err(BeforeSelect);
    }
    var count := Be32(attest[p], attest[p + 1], attest[p + 2], attest[p + 3]);
    var bank := ReadBank(attest, p - 25, count);
    if bank.Err? {
      return Err(bank.fault);
    }
    var digest := ReadDigest(attest, bank.value, h(pcrs));
    if digest.Some? {
      return Err(digest.value);
    }
    r := ReadSignature(signature);
  }

  lemma {:induction false} SelectionShort(s: Bytes)
    requires |s| < 29
    ensures Selection(s) == Err(BeforeSelect)
  {
  }

  // ---- exactness -----------------------------------------------------------------------------------

  lemma {:induction false} U16BeRead(v: nat, s: Bytes)
    requires v < 0x1_0000 && |s| >= 2
    ensures ReadU16(s, 0) == v <==> s[..2] == U16Be(v)
  {
    assert s[..2] == [s[0], s[1]];
    assert v == (v / 256) * 256 + v % 256;
  }

  lemma {:induction false} SizedExact(s: Bytes, before: Fault, within: Fault, x: Bytes, rest: Bytes)
    ensures Sized(s, before, within) == Ok((x, rest)) <==> |x| < 0x1_0000 && s == SizedField(x) + rest
  {
    if |x| < 0x1_0000 && s == SizedField(x) + rest {
      SizedOf(x, rest, before, within);
    }
    if Sized(s, before, within) == Ok((x, rest)) {
      SizedParse(s, before, within);
    }
  }

  lemma {:induction false} SizedOf(x: Bytes, rest: Bytes, before: Fault, within: Fault)
    requires |x| < 0x1_0000
    ensures Sized(SizedField(x) + rest, before, within) == Ok((x, rest))
  {
    hide U16Be, ReadU16;
    var s := SizedField(x) + rest;
    assert s[..2] == U16Be(|x|);
    U16BeRead(|x|, s);
    assert s[2..2 + |x|] == x && s[2 + |x|..] == rest;
  }

  lemma {:induction false} SizedParse(s: Bytes, before: Fault, within: Fault)
    requires Sized(s, before, within).Ok?
    ensures
      var (x, rest) := Sized(s, before, within).value;
      |x| < 0x1_0000 && s == SizedField(x) + rest
  {
    hide U16Be, ReadU16;
    var n := ReadU16(s, 0);
    U16BeRead(n, s);
    assert s == s[..2] + s[2..2 + n] + s[2 + n..];
  }

  lemma {:induction false} HeaderExact(attest: Bytes, s: Bytes)
    ensures Header(attest) == Ok(s) <==> |attest| >= 40 && attest == HEADER + s
  {
    if Header(attest) == Ok(s) {
      assert attest[0] == 0xFF && attest[1] == 0x54 && attest[2] == 0x43 && attest[3] == 0x47;
      assert attest[4] == 0x80 && attest[5] == 0x18;
      assert attest == attest[..6] + attest[6..];
    }
    if |attest| >= 40 && attest == HEADER + s {
      assert attest[..6] == HEADER && attest[6..] == s;
    }
  }

  lemma {:induction false} BitmapExact(bitmap: Bytes)
    ensures SelectsExactly(bitmap) <==> |bitmap| >= 3 && bitmap == PCR_SELECT + Zeros(|bitmap| - 3)
  {
    if SelectsExactly(bitmap) {
      assert bitmap == PCR_SELECT + Zeros(|bitmap| - 3);
    }
  }

  lemma {:induction false} BankExact(s: Bytes)
    requires |s| >= 32
    ensures ReadU32(s, 25) == 1 && ReadU16(s, 29) == 0x000B <==> s[25..31] == BANK
  {
    assert s[25..31] == [s[25], s[26], s[27], s[28], s[29], s[30]];
  }

  lemma {:induction false} SelectionParse(s: Bytes)
    requires Selection(s).Ok?
    ensures |s| >= 35 && s[31] >= 3 && |s[..25]| == 25
    ensures s == EncodeSelection(s[..25], s[31] - 3) + Selection(s).value
  {
    hide ReadU32, ReadU16, SelectsExactly;
    BankExact(s);
    var n: nat := s[31];
    var bitmap := s[32..32 + n];
    BitmapExact(bitmap);
    assert s == s[..25] + s[25..31] + [s[31]] + bitmap + s[32 + n..];
    assert s[..25] + BANK + [s[31]] + (PCR_SELECT + Zeros(n - 3)) ==
           s[..25] + BANK + [s[31]] + PCR_SELECT + Zeros(n - 3);
  }

  lemma {:induction false} SelectionOf(clock: Bytes, extra: nat, rest: Bytes)
    requires |clock| == 25 && extra <= 252
    ensures Selection(EncodeSelection(clock, extra) + rest) == Ok(rest)
  {
    hide ReadU32, ReadU16, SelectsExactly, Zeros;
    var front := EncodeSelection(clock, extra);
    var s := front + rest;
    assert |front| == 35 + extra;
    assert s[25..31] == BANK && s[31] == 3 + extra;
    BankExact(s);
    var bitmap := s[32..32 + s[31]];
    assert bitmap == PCR_SELECT + Zeros(extra);
    BitmapExact(bitmap);
    assert s[32 + s[31]..] == rest;
  }

  lemma {:induction false} DigestExact(s: Bytes, expected: Digest)
    ensures FinalDigest(s, expected) == None <==> s == SizedField(expected)
  {
    hide U16Be, ReadU16;
    if |s| >= 2 {
      U16BeRead(32, s);
      assert s == s[..2] + s[2..];
    }
    if s == SizedField(expected) {
      assert s[..2] == U16Be(32) && s[2..] == expected;
    }
  }

  lemma {:induction false} SignatureExact(s: Bytes, body: Bytes)
    ensures Signature(s) == Ok(body) <==> |body| < 0x1_0000 && s == EncodeSignature(body)
  {
    hide U16Be;
    if |s| >= 6 {
      var t := s[4..];
      assert t[0] == s[4] && t[1] == s[5];
      if |s| - 6 < 0x1_0000 {
        U16BeRead(|s| - 6, t);
      }
      assert s[4..][..2] == s[4..6];
      assert s == s[..4] + s[4..6] + s[6..];
      assert s[..4] == [s[0], s[1], s[2], s[3]];
    }
    if |body| < 0x1_0000 && s == EncodeSignature(body) {
      assert s[..4] == SCHEME && s[4..6] == U16Be(|body|) && s[6..] == body;
    }
  }

  // Accepted exactly when `attest` is the serialisation of a quote with the
  // expected nonce and the digest of the supplied PCRs, and nothing more.
  ghost predicate IsQuote(attest: Bytes, nonce: Bytes, expected: Digest) {
    exists q: Attest ::
      WellSized(q) && q.nonce == nonce && q.pcrDigest == expected && attest == EncodeAttest(q)
  }

  lemma {:induction false} QuoteAccepted(q: Attest)
    requires WellSized(q)
    ensures Front(EncodeAttest(q), q.nonce).Ok?
    ensures Back(Front(EncodeAttest(q), q.nonce).value, q.pcrDigest) == None
  {
    hide Header, Sized, Selection, FinalDigest, EncodeSelection, SizedField;
    var s4 := SizedField(q.pcrDigest);
    var s3 := EncodeSelection(q.clock, q.extra) + s4;
    var s2 := SizedField(q.nonce) + s3;
    var s1 := SizedField(q.signer) + s2;
    QuoteSize(q);
    HeaderExact(HEADER + s1, s1);
    SizedExact(s1, BeforeSigner, BeforeExtraData, q.signer, s2);
    SizedExact(s2, BeforeExtraData, TruncatedExtraData, q.nonce, s3);
    SelectionOf(q.clock, q.extra, s4);
    DigestExact(s4, q.pcrDigest);
  }

  lemma {:induction false} QuoteSize(q: Attest)
    requires WellSized(q)
    ensures |EncodeAttest(q)| >= 40
  {
    assert |SizedField(q.pcrDigest)| == 34;
  }

  lemma {:induction false} AcceptedQuote(attest: Bytes, nonce: Bytes, expected: Digest)
    requires Front(attest, nonce).Ok? && Back(Front(attest, nonce).value, expected) == None
    ensures IsQuote(attest, nonce, expected)
  {
    hide Header, Sized, Selection, FinalDigest, EncodeSelection, SizedField;
    var s1 := Header(attest).value;
    HeaderExact(attest, s1);
    var (signer, s2) := Sized(s1, BeforeSigner, BeforeExtraData).value;
    SizedExact(s1, BeforeSigner, BeforeExtraData, signer, s2);
    var (extra, s3) := Sized(s2, BeforeExtraData, TruncatedExtraData).value;
    SizedExact(s2, BeforeExtraData, TruncatedExtraData, extra, s3);
    SelectionParse(s3);
    DigestExact(Selection(s3).value, expected);
    var q := Attest(signer, nonce, s3[..25], s3[31] - 3, expected);
    assert WellSized(q);
    assert attest == EncodeAttest(q);
  }

  lemma {:induction false} VerdictExact(h: Hash, attest: Bytes, signature: Bytes, pcrs: Bytes, nonce: Bytes, body: Bytes)
    ensures Verdict(h, attest, signature, pcrs, nonce) == Ok(body) <==>
      && IsQuote(attest, nonce, h(pcrs))
      && |body| < 0x1_0000 && signature == EncodeSignature(body)
  {
    hide Front, Back, Signature, EncodeAttest, EncodeSignature, WellSized;
    SignatureExact(signature, body);
    if Front(attest, nonce).Ok? && Back(Front(attest, nonce).value, h(pcrs)) == None {
      AcceptedQuote(attest, nonce, h(pcrs));
    }
    if IsQuote(attest, nonce, h(pcrs)) {
      var q: Attest :|
        WellSized(q) && q.nonce == nonce && q.pcrDigest == h(pcrs) && attest == EncodeAttest(q);
      QuoteAccepted(q);
    }
  }

  // One quote cannot be accepted for two nonces, nor for two sets of PCR
  // values that do not collide.
  lemma {:induction false} QuoteBinds(h: Hash, attest: Bytes, sigA: Bytes, sigB: Bytes,
                                      pcrsA: Bytes, pcrsB: Bytes, nonceA: Bytes, nonceB: Bytes)
    requires Verdict(h, attest, sigA, pcrsA, nonceA).Ok? && Verdict(h, attest, sigB, pcrsB, nonceB).Ok?
    ensures nonceA == nonceB
    ensures pcrsA == pcrsB || Collides(h, {pcrsA, pcrsB})
  {
    hide Header, Sized, Selection, Signature;
    EqualOrCollides(h, {pcrsA, pcrsB}, pcrsA, pcrsB);
  }

  // ---- which registers the bitmap selects ---------------------------------------------------------------

  // Bit k of a number.
  predicate Bit(b: nat, k: nat) {
    if k == 0 then b % 2 == 1 else Bit(b / 2, k - 1)
  }

  // PCR i is bit i modulo 8 of byte i / 8.
  predicate Selects(bitmap: Bytes, i: nat)
    requires i < 8 * |bitmap|
  {
    Bit(bitmap[i / 8], i % 8)
  }

  function TwoTo(n: nat): (r: nat)
    ensures r > 0
  {
    if n == 0 then 1 else 2 * TwoTo(n - 1)
  }

  lemma {:induction false} SameBits(a: nat, b: nat, n: nat)
    requires a < TwoTo(n) && b < TwoTo(n)
    requires forall k :: 0 <= k < n ==> (Bit(a, k) <==> Bit(b, k))
    ensures a == b
  {
    if n > 0 {
      assert Bit(a, 0) <==> Bit(b, 0);
      forall k | 0 <= k < n - 1
        ensures Bit(a / 2, k) <==> Bit(b / 2, k)
      {
        assert Bit(a, k + 1) <==> Bit(b, k + 1);
      }
      SameBits(a / 2, b / 2, n - 1);
    }
  }

  lemma {:induction false} EightBits()
    ensures TwoTo(8) == 256
  {
    assert TwoTo(4) == 16;
  }

  lemma {:induction false} ConstantBits(k: nat)
    requires k < 8
    ensures (Bit(0x81, k) <==> k == 0 || k == 7) && (Bit(0x04, k) <==> k == 2) && !Bit(0, k)
  {
    BitShift(0x81);
    BitShift(0x40);
    BitShift(0x20);
    BitShift(0x10);
    BitShift(0x08);
    BitShift(0x04);
    BitShift(0x02);
    BitShift(0x01);
    NoBits(k);
  }

  lemma {:induction false} BitShift(b: nat)
    ensures Bit(b, 0) <==> b % 2 == 1
    ensures forall k: nat :: k > 0 ==> (Bit(b, k) <==> Bit(b / 2, k - 1))
  {
  }

  lemma {:induction false} NoBits(k: nat)
    ensures !Bit(0, k)
  {
    if k > 0 {
      NoBits(k - 1);
    }
  }

  // The bitmap passes exactly when it covers three bytes and selects PCRs 0, 7
  // and 10 and no other.
  lemma {:induction false} BitmapSelects(bitmap: Bytes)
    ensures SelectsExactly(bitmap) <==>
      |bitmap| >= 3 && forall i :: 0 <= i < 8 * |bitmap| ==> (Selects(bitmap, i) <==> i in {0, 7, 10})
  {
    hide Bit;
    if SelectsExactly(bitmap) {
      assert bitmap[0] == 0x81 && bitmap[1] == 0x04 && bitmap[2] == 0x00;
      forall i | 0 <= i < 8 * |bitmap|
        ensures Selects(bitmap, i) <==> i in {0, 7, 10}
      {
        ConstantBits(i % 8);
      }
    }
    if |bitmap| >= 3 && forall i :: 0 <= i < 8 * |bitmap| ==> (Selects(bitmap, i) <==> i in {0, 7, 10}) {
      forall j | 0 <= j < |bitmap|
        ensures bitmap[j] == if j == 0 then 0x81 else if j == 1 then 0x04 else 0
      {
        ByteSelected(bitmap, j, if j == 0 then 0x81 else if j == 1 then 0x04 else 0);
      }
      assert bitmap[..3] == PCR_SELECT;
    }
  }

  lemma {:induction false} ByteSelected(bitmap: Bytes, j: nat, b: Byte)
    requires j < |bitmap| && b == (if j == 0 then 0x81 else if j == 1 then 0x04 else 0)
    requires forall i :: 0 <= i < 8 * |bitmap| ==> (Selects(bitmap, i) <==> i in {0, 7, 10})
    ensures bitmap[j] == b
  {
    hide Bit;
    forall k | 0 <= k < 8
      ensures Bit(bitmap[j], k) <==> Bit(b, k)
    {
      ConstantBits(k);
      var i := 8 * j + k;
      assert i / 8 == j && i % 8 == k;
      assert Selects(bitmap, i) <==> i in {0, 7, 10};
    }
    EightBits();
    SameBits(bitmap[j], b, 8);
  }
}
