// Text as UTF-8 bytes: the whitespace that `trim` and `trim_end` remove, and
// unsigned decimal parsing.

module Text {
  import opened Bytes
  import opened Codec

  const NEWLINE: Byte := 0x0A
  const SPACE: Byte := 0x20
  const COLON: Byte := 0x3A
  const PIPE: Byte := 0x7C
  const SLASH: Byte := 0x2F

  // The UTF-8 encodings of the characters with the Unicode White_Space property.
  predicate IsWhitespaceChar(c: Bytes) {
    match |c|
    case 1 => 0x09 <= c[0] <= 0x0D || c[0] == 0x20
    case 2 => c[0] == 0xC2 && (c[1] == 0x85 || c[1] == 0xA0)
    case 3 =>
      || c == [0xE1, 0x9A, 0x80]
      || (c[0] == 0xE2 && c[1] == 0x80 && (0x80 <= c[2] <= 0x8A || c[2] == 0xA8 || c[2] == 0xA9 || c[2] == 0xAF))
      || c == [0xE2, 0x81, 0x9F]
      || c == [0xE3, 0x80, 0x80]
    case _ => false
  }

  // The length of the whitespace character at the end of s; 0 if there is none.
  function WhitespaceTail(s: Bytes): (n: nat)
    ensures n <= |s| && n <= 3
    ensures n > 0 ==> IsWhitespaceChar(s[|s| - n..])
  {
    var k := |s|;
    if k >= 1 && IsWhitespaceChar(s[k - 1..]) then 1
    else if k >= 2 && IsWhitespaceChar(s[k - 2..]) then 2
    else if k >= 3 && IsWhitespaceChar(s[k - 3..]) then 3
    else 0
  }

  function WhitespaceHead(s: Bytes): (n: nat)
    ensures n <= |s| && n <= 3
    ensures n > 0 ==> IsWhitespaceChar(s[..n])
  {
    if |s| >= 1 && IsWhitespaceChar(s[..1]) then 1
    else if |s| >= 2 && IsWhitespaceChar(s[..2]) then 2
    else if |s| >= 3 && IsWhitespaceChar(s[..3]) then 3
    else 0
  }

  function TrimEnd(s: Bytes): (r: Bytes)
    ensures r <= s
    ensures WhitespaceTail(r) == 0
    decreases |s|
  {
    var n := WhitespaceTail(s);
    if n == 0 then s else TrimEnd(s[..|s| - n])
  }

  function TrimStart(s: Bytes): (r: Bytes)
    ensures |r| <= |s|
    ensures WhitespaceHead(r) == 0
    decreases |s|
  {
    var n := WhitespaceHead(s);
    if n == 0 then s else TrimStart(s[n..])
  }

  function Trim(s: Bytes): (r: Bytes) {
    TrimStart(TrimEnd(s))
  }

  // Printable ASCII that starts and ends with a non-space byte is left alone.
  lemma {:induction false} TrimKeeps(s: Bytes)
    requires s != [] && 0x21 <= s[0] < 0x80 && 0x21 <= s[|s| - 1] < 0x80
    ensures Trim(s) == s
  {
    hide WhitespaceTail, WhitespaceHead;
    NoWhitespaceTail(s);
    NoWhitespaceHead(s);
  }

  lemma {:induction false} NoWhitespaceTail(s: Bytes)
    requires s != [] && 0x21 <= s[|s| - 1] < 0x80
    ensures WhitespaceTail(s) == 0
  {
  }

  lemma {:induction false} NoWhitespaceHead(s: Bytes)
    requires s != [] && 0x21 <= s[0] < 0x80
    ensures WhitespaceHead(s) == 0
  {
  }

  predicate AllDigits(s: Bytes) {
    forall i :: 0 <= i < |s| ==> IsDigit(s[i])
  }

  // `parse_u64_dec`: at most 20 digits, value within 64 bits.
  function ParseU64(s: Bytes): (r: Option<U64>) {
    if 0 < |s| <= 20 && AllDigits(s) && DecValue(s) <= U64_MAX then Some(DecValue(s)) else None
  }

  // Rust's `str::parse::<u64>`: an optional plus sign, then digits.
  function ParseUnsigned(s: Bytes): (r: Option<U64>) {
    var t := if s != [] && s[0] == 0x2B then s[1..] else s;
    if t != [] && AllDigits(t) && DecValue(t) <= U64_MAX then Some(DecValue(t)) else None
  }

  lemma {:induction false} ParseUnsignedRoundTrip(n: U64)
    ensures ParseUnsigned(Trim(Dec(n))) == Some(n)
  {
    var s := Dec(n);
    assert IsDigit(s[0]) && IsDigit(s[|s| - 1]);
    TrimKeeps(s);
    DecRoundTrip(n);
  }

  // ---- what the parsers accept: a number's own text, behind any leading zeros ------------------

  function ZeroDigits(n: nat): (r: Bytes)
    ensures |r| == n && forall i :: 0 <= i < n ==> r[i] == 0x30
  {
    seq(n, _ => 0x30)
  }

  lemma {:induction false} DigitsReadAs(s: Bytes) returns (k: nat)
    requires s != [] && AllDigits(s)
    ensures s == ZeroDigits(k) + Dec(DecValue(s))
  {
    var n := |s| - 1;
    var p, d := s[..n], s[n] - 0x30;
    assert IsDigit(s[n]) && s == p + [0x30 + d];
    if p == [] {
      k := 0;
    } else {
      var j := DigitsReadAs(p);
      if DecValue(p) == 0 {
        k := j + 1;
        assert ZeroDigits(k) == ZeroDigits(j) + Dec(0);
      } else {
        k := j;
        assert DecValue(s) == 10 * DecValue(p) + d;
      }
    }
  }

  lemma {:induction false} PaddedValue(k: nat, v: nat)
    ensures AllDigits(ZeroDigits(k) + Dec(v)) && DecValue(ZeroDigits(k) + Dec(v)) == v
  {
    var s := ZeroDigits(k) + Dec(v);
    if v < 10 {
      assert s[..|s| - 1] == ZeroDigits(k);
      ZerosValue(k);
    } else {
      PaddedValue(k, v / 10);
      assert s[..|s| - 1] == ZeroDigits(k) + Dec(v / 10);
    }
  }

  lemma {:induction false} ZerosValue(k: nat)
    ensures DecValue(ZeroDigits(k)) == 0
  {
    if k > 0 {
      assert ZeroDigits(k)[..k - 1] == ZeroDigits(k - 1);
      ZerosValue(k - 1);
    }
  }

  // A text reads as a number exactly if it is the number's own text behind
  // some zeros, of at most 20 digits in all.
  lemma {:induction false} ParseU64Exact(s: Bytes, v: U64)
    ensures ParseU64(s) == Some(v) <==> |s| <= 20 && exists k: nat :: s == ZeroDigits(k) + Dec(v)
  {
    if ParseU64(s) == Some(v) {
      var k := DigitsReadAs(s);
    }
    if k: nat :| s == ZeroDigits(k) + Dec(v) {
      PaddedValue(k, v);
    }
  }

  // The same for the energy files, whatever their length; a plus sign may stand
  // in front, but not alone.
  lemma {:induction false} ParseUnsignedExact(s: Bytes, v: U64)
    ensures ParseUnsigned(s) == Some(v) <==>
      exists k: nat :: s == ZeroDigits(k) + Dec(v) || s == [0x2B] + (ZeroDigits(k) + Dec(v))
  {
    if ParseUnsigned(s) == Some(v) {
      var t := if s != [] && s[0] == 0x2B then s[1..] else s;
      var k := DigitsReadAs(t);
      assert s == t || s == [0x2B] + t;
    }
    if k: nat :| s == ZeroDigits(k) + Dec(v) || s == [0x2B] + (ZeroDigits(k) + Dec(v)) {
      var t := ZeroDigits(k) + Dec(v);
      PaddedValue(k, v);
      assert IsDigit(t[0]) && ([0x2B] + t)[1..] == t;
    }
  }

  lemma {:induction false} DecValuePrefix(s: Bytes, i: nat)
    requires AllDigits(s) && i <= |s|
    ensures AllDigits(s[..i])
    ensures DecValue(s[..i]) <= DecValue(s)
    decreases |s|
  {
    if i < |s| {
      var t := s[..|s| - 1];
      DecValuePrefix(t, i);
      assert t[..i] == s[..i];
      assert IsDigit(s[|s| - 1]);
    } else {
      assert s[..i] == s;
    }
  }

  method ParseU64Loop(s: Bytes) returns (r: Option<U64>)
    ensures r == ParseU64(s)
  {
    if |s| == 0 || |s| > 20 {
      return None;
    }
    var acc: int := 0;
    for i := 0 to |s|
      invariant AllDigits(s[..i])
      invariant acc == DecValue(s[..i]) && 0 <= acc <= U64_MAX
    {
      var c := s[i];
      assert s[..i + 1][..i] == s[..i];
      if c < 0x30 || c > 0x39 {
        assert !IsDigit(s[i]);
        return None;
      }
      assert s[..i + 1] == s[..i] + [c];
      var d: int := c - 0x30;
      assert DecValue(s[..i + 1]) == 10 * acc + d;
      if acc > (U64_MAX - d) / 10 {
        if AllDigits(s) {
          DecValuePrefix(s, i + 1);
        }
        return None;
      }
      acc := acc * 10 + d;
    }
    assert s[..|s|] == s;
    r := Some(acc);
  }

  lemma {:induction false} ParseU64RoundTrip(n: U64)
    ensures ParseU64(Dec(n)) == Some(n)
  {
    DecRoundTrip(n);
    DecLengthU64(n);
  }

  lemma {:induction false} HexDecodeFrom(t: Bytes, i: nat)
    requires i + 1 < |t| && HexVal(t[i]).Some? && HexVal(t[i + 1]).Some?
    ensures HexDecode(t[i..]).Some? <==> HexDecode(t[i + 2..]).Some?
    ensures HexDecode(t[i..]).Some? ==>
      HexDecode(t[i..]).value == [HexVal(t[i]).value * 16 + HexVal(t[i + 1]).value] + HexDecode(t[i + 2..]).value
  {
    var u := t[i..];
    assert u[0] == t[i] && u[1] == t[i + 1];
    assert u[2..] == t[i + 2..];
  }

  // `out` is what the first i characters decode to.
  ghost predicate DecodedUpTo(t: Bytes, i: nat, out: Bytes)
    requires i <= |t|
  {
    && (HexDecode(t).Some? <==> HexDecode(t[i..]).Some?)
    && (HexDecode(t).Some? ==> HexDecode(t).value == out + HexDecode(t[i..]).value)
  }

  lemma {:induction false} DecodedStep(t: Bytes, i: nat, out: Bytes)
    requires i + 1 < |t| && HexVal(t[i]).Some? && HexVal(t[i + 1]).Some?
    requires DecodedUpTo(t, i, out)
    ensures DecodedUpTo(t, i + 2, out + [HexVal(t[i]).value * 16 + HexVal(t[i + 1]).value])
  {
    hide HexDecode, HexVal;
    HexDecodeFrom(t, i);
  }

  lemma {:induction false} DecodedAll(t: Bytes, out: Bytes)
    requires DecodedUpTo(t, |t|, out)
    ensures HexDecode(t) == Some(out)
  {
    assert t[|t|..] == [] && out + [] == out;
  }

  // `hex_decode`, two characters at a time.
  method HexDecodeLoop(t: Bytes) returns (r: Option<Bytes>)
    ensures r == HexDecode(t)
  {
    hide HexVal, HexDecode;
    if |t| % 2 != 0 {
      return None;
    }
    var out: Bytes := [];
    var i := 0;
    ghost var k := |t| / 2;
    assert t[0..] == t;
    while i + 1 < |t|
      invariant 0 <= i <= |t| && i + k + k == |t|
      invariant DecodedUpTo(t, i, out)
    {
      var hi, lo := HexVal(t[i]), HexVal(t[i + 1]);
      if hi.None? || lo.None? {
        return None;
      }
      DecodedStep(t, i, out);
      out := out + [hi.value * 16 + lo.value];
      i, k := i + 2, k - 1;
    }
    DecodedAll(t, out);
    r := Some(out);
  }

  // ---- UTF-8 --------------------------------------------------------------------------------

  // How long a character is by its first byte; 0 if none starts so.
  function CharWidth(b: Byte): nat {
    if b < 0x80 then 1
    else if 0xC2 <= b <= 0xDF then 2
    else if 0xE0 <= b <= 0xEF then 3
    else if 0xF0 <= b <= 0xF4 then 4
    else 0
  }

  predicate Continuation(b: Byte) {
    0x80 <= b <= 0xBF
  }

  // No overlong form, no surrogate, nothing above U+10FFFF.
  predicate SecondFits(first: Byte, second: Byte) {
    match first
    case 0xE0 => 0xA0 <= second <= 0xBF
    case 0xED => 0x80 <= second <= 0x9F
    case 0xF0 => 0x90 <= second <= 0xBF
    case 0xF4 => 0x80 <= second <= 0x8F
    case _ => Continuation(second)
  }

  // How many bytes at the front could begin one character.
  function GoodFront(s: Bytes): (n: nat)
    requires s != []
    ensures n <= |s| && n <= CharWidth(s[0])
  {
    var w := CharWidth(s[0]);
    if w <= 1 then w
    else if |s| < 2 || !SecondFits(s[0], s[1]) then 1
    else if w == 2 || |s| < 3 || !Continuation(s[2]) then 2
    else if w == 3 || |s| < 4 || !Continuation(s[3]) then 3
    else 4
  }

  predicate StartsWhole(s: Bytes) {
    s != [] && GoodFront(s) > 0 && GoodFront(s) == CharWidth(s[0])
  }

  predicate ValidUtf8(s: Bytes)
    decreases |s|
  {
    s == [] || (StartsWhole(s) && ValidUtf8(s[GoodFront(s)..]))
  }

  // U+FFFD
  const REPLACEMENT: Bytes := [0xEF, 0xBF, 0xBD]

  // `from_utf8_lossy`: every longest front that no character completes becomes U+FFFD.
  function Lossy(s: Bytes): Bytes
    decreases |s|
  {
    if s == [] then []
    else if StartsWhole(s) then s[..GoodFront(s)] + Lossy(s[GoodFront(s)..])
    else REPLACEMENT + Lossy(s[if GoodFront(s) == 0 then 1 else GoodFront(s)..])
  }

  lemma {:induction false} WholeFront(c: Bytes, rest: Bytes)
    requires StartsWhole(c) && GoodFront(c) == |c| && ValidUtf8(rest)
    ensures ValidUtf8(c + rest)
  {
    var s := c + rest;
    assert forall i :: 0 <= i < |c| ==> s[i] == c[i];
    assert GoodFront(s) == |c|;
    assert s[|c|..] == rest;
  }

  // Lossy decoding always gives valid text ...
  lemma {:induction false} LossyIsValid(s: Bytes)
    ensures ValidUtf8(Lossy(s))
    decreases |s|
  {
    hide ValidUtf8;
    if s == [] {
      NothingIsValid();
    } else if StartsWhole(s) {
      var n := GoodFront(s);
      LossyIsValid(s[n..]);
      assert s[..n][0] == s[0] && GoodFront(s[..n]) == n;
      WholeFront(s[..n], Lossy(s[n..]));
    } else {
      var n := if GoodFront(s) == 0 then 1 else GoodFront(s);
      LossyIsValid(s[n..]);
      WholeFront(REPLACEMENT, Lossy(s[n..]));
    }
  }

  lemma {:induction false} NothingIsValid()
    ensures ValidUtf8([])
  {
  }

  // ... and changes exactly the text that is not.
  lemma {:induction false} LossyExact(s: Bytes)
    ensures Lossy(s) == s <==> ValidUtf8(s)
    decreases |s|
  {
    LossyIsValid(s);
    if ValidUtf8(s) {
      LossyKeepsValid(s);
    }
  }

  lemma {:induction false} LossyKeepsValid(s: Bytes)
    requires ValidUtf8(s)
    ensures Lossy(s) == s
    decreases |s|
  {
    hide GoodFront;
    if s != [] {
      var n := GoodFront(s);
      LossyKeepsValid(s[n..]);
      assert s == s[..n] + s[n..];
    }
  }

  // ---- tenant labels --------------------------------------------------------------------------

  predicate SafeLabelByte(b: Byte) {
    0x30 <= b <= 0x39 || 0x41 <= b <= 0x5A || 0x61 <= b <= 0x7A || b == 0x2E || b == 0x5F || b == 0x2D
  }

  // `is_valid_tenant_label`.
  predicate ValidTenantLabel(s: Bytes) {
    0 < |s| <= 64 && forall i :: 0 <= i < |s| ==> SafeLabelByte(s[i])
  }

  lemma {:induction false} LabelHasNoPipe(t: Bytes)
    requires ValidTenantLabel(t)
    ensures PIPE !in t
  {
    assert !SafeLabelByte(PIPE);
  }
}
