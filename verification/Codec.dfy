// Fixed-width little-endian integers, decimal and hexadecimal text.

module Codec {
  import opened Bytes

  // ---- little-endian integers -------------------------------------------

  function Pow256(n: nat): (r: nat)
    ensures r > 0
  {
    if n == 0 then 1 else 256 * Pow256(n - 1)
  }

  function Le(v: nat, n: nat): (r: Bytes)
    ensures |r| == n
  {
    if n == 0 then [] else [v % 256] + Le(v / 256, n - 1)
  }

  function FromLe(s: Bytes): (r: nat)
  {
    if s == [] then 0 else s[0] + 256 * FromLe(s[1..])
  }

  lemma {:induction false} LeRoundTrip(v: nat, n: nat)
    requires v < Pow256(n)
    ensures FromLe(Le(v, n)) == v
  {
    if n > 0 {
      LeRoundTrip(v / 256, n - 1);
      assert Le(v, n)[1..] == Le(v / 256, n - 1);
    }
  }

  lemma {:induction false} FromLeBound(s: Bytes)
    ensures FromLe(s) < Pow256(|s|)
  {
    if s != [] {
      FromLeBound(s[1..]);
    }
  }

  lemma {:induction false} LeOfFromLe(s: Bytes)
    ensures Le(FromLe(s), |s|) == s
  {
    if s != [] {
      LeOfFromLe(s[1..]);
      assert s == [s[0]] + s[1..];
    }
  }

  lemma {:induction false} LeInjective(a: nat, b: nat, n: nat)
    requires a < Pow256(n) && b < Pow256(n)
    requires Le(a, n) == Le(b, n)
    ensures a == b
  {
    LeRoundTrip(a, n);
    LeRoundTrip(b, n);
  }

  lemma {:induction false} Pow256Widths()
    ensures Pow256(4) == U32_LIMIT && Pow256(8) == U64_LIMIT
  {
    assert Pow256(1) == 256;
    assert Pow256(2) == 65536;
    assert Pow256(3) == 16777216;
    assert Pow256(4) == 4294967296;
    assert Pow256(5) == 256 * 4294967296;
    assert Pow256(6) == 65536 * 4294967296;
    assert Pow256(7) == 16777216 * 4294967296;
  }

  // `v as u32` followed by little-endian bytes.
  function U32Le(v: nat): (r: Bytes)
    ensures |r| == 4
  {
    Le(v % U32_LIMIT, 4)
  }

  function U64Le(v: nat): (r: Bytes)
    ensures |r| == 8
  {
    Le(v % U64_LIMIT, 8)
  }

  lemma {:induction false} U32LeInjective(a: nat, b: nat)
    requires a < U32_LIMIT && b < U32_LIMIT
    requires U32Le(a) == U32Le(b)
    ensures a == b
  {
    hide Le, Pow256;
    assert a % U32_LIMIT == a && b % U32_LIMIT == b;
    Pow256Widths();
    LeInjective(a, b, 4);
  }

  // What 64-bit little-endian bytes determine of an unbounded number.
  lemma {:induction false} U64LeModulo(a: nat, b: nat)
    requires U64Le(a) == U64Le(b)
    ensures a % U64_LIMIT == b % U64_LIMIT
  {
    hide Le, Pow256;
    Pow256Widths();
    LeInjective(a % U64_LIMIT, b % U64_LIMIT, 8);
  }

  lemma {:induction false} U64LeInjective(a: nat, b: nat)
    requires a < U64_LIMIT && b < U64_LIMIT
    requires U64Le(a) == U64Le(b)
    ensures a == b
  {
    hide Le;
    assert a % U64_LIMIT == a && b % U64_LIMIT == b;
    U64LeModulo(a, b);
  }

  // A length-prefixed field can be peeled off the front unambiguously as long
  // as its length fits the 32-bit prefix.
  lemma {:induction false} LenPrefixedSplit(x: Bytes, xs: Bytes, y: Bytes, ys: Bytes)
    requires |x| < U32_LIMIT && |y| < U32_LIMIT
    requires U32Le(|x|) + x + xs == U32Le(|y|) + y + ys
    ensures x == y && xs == ys
  {
    assert U32Le(|x|) + x + xs == U32Le(|x|) + (x + xs);
    assert U32Le(|y|) + y + ys == U32Le(|y|) + (y + ys);
    ConcatSplit(U32Le(|x|), x + xs, U32Le(|y|), y + ys);
    U32LeInjective(|x|, |y|);
    ConcatSplit(x, xs, y, ys);
  }

  // ---- decimal text ------------------------------------------------------

  predicate IsDigit(c: Byte) {
    0x30 <= c <= 0x39
  }

  function Dec(n: nat): (r: Bytes)
    ensures |r| > 0
    ensures forall i :: 0 <= i < |r| ==> IsDigit(r[i])
  {
    if n < 10 then [0x30 + n] else Dec(n / 10) + [0x30 + n % 10]
  }

  // The number a digit string denotes.
  function DecValue(s: Bytes): (r: nat)
    requires forall i :: 0 <= i < |s| ==> IsDigit(s[i])
  {
    if s == [] then 0
    else
      assert IsDigit(s[|s| - 1]);
      10 * DecValue(s[..|s| - 1]) + (s[|s| - 1] as int - 0x30)
  }

  lemma {:induction false} DecRoundTrip(n: nat)
    ensures DecValue(Dec(n)) == n
  {
    if n >= 10 {
      DecRoundTrip(n / 10);
      assert Dec(n)[..|Dec(n)| - 1] == Dec(n / 10);
    }
  }

  lemma {:induction false} DecInjective(a: nat, b: nat)
    requires Dec(a) == Dec(b)
    ensures a == b
  {
    DecRoundTrip(a);
    DecRoundTrip(b);
  }

  // No leading zeros: the decimal text of a number is unique.
  lemma {:induction false} DecCanonical(n: nat)
    ensures |Dec(n)| > 1 ==> Dec(n)[0] != 0x30
    ensures n > 0 ==> Dec(n)[0] != 0x30
  {
    if n >= 10 {
      DecCanonical(n / 10);
    }
  }

  function Pow10(n: nat): (r: nat)
    ensures r > 0
  {
    if n == 0 then 1 else 10 * Pow10(n - 1)
  }

  lemma {:induction false} DecLength(n: nat, k: nat)
    requires n < Pow10(k) && k > 0
    ensures |Dec(n)| <= k
  {
    if n >= 10 {
      assert Pow10(1) == 10;
      DecLength(n / 10, k - 1);
    }
  }

  lemma {:induction false} DecLengthU64(n: U64)
    ensures |Dec(n)| <= 20
  {
    var p5 := 100000;
    assert Pow10(1) == 10 && Pow10(2) == 100 && Pow10(3) == 1000 && Pow10(4) == 10000;
    assert Pow10(5) == p5;
    assert Pow10(6) == 10 * p5 && Pow10(7) == 100 * p5 && Pow10(8) == 1000 * p5 && Pow10(9) == 10000 * p5;
    assert Pow10(10) == 10000000000;
    assert Pow10(11) == 10 * 10000000000 && Pow10(12) == 100 * 10000000000;
    assert Pow10(13) == 1000 * 10000000000 && Pow10(14) == 10000 * 10000000000;
    assert Pow10(15) == 100000 * 10000000000 && Pow10(16) == 1000000 * 10000000000;
    assert Pow10(17) == 10000000 * 10000000000 && Pow10(18) == 100000000 * 10000000000;
    assert Pow10(19) == 1000000000 * 10000000000;
    assert Pow10(20) == 10000000000 * 10000000000;
    DecLength(n, 20);
  }

  // ---- hexadecimal text --------------------------------------------------

  function HexDigit(v: int): (c: Byte)
    requires 0 <= v < 16
  {
    if v < 10 then 0x30 + v else 0x61 + v - 10
  }

  function HexVal(c: Byte): (r: Option<int>)
    ensures r.Some? ==> 0 <= r.value < 16
  {
    if 0x30 <= c <= 0x39 then Some(c - 0x30)
    else if 0x61 <= c <= 0x66 then Some(c - 0x61 + 10)
    else if 0x41 <= c <= 0x46 then Some(c - 0x41 + 10)
    else None
  }

  // Lower-case rendering, two characters per byte.
  function HexEncode(s: Bytes): (r: Bytes)
    ensures |r| == 2 * |s|
    ensures forall i :: 0 <= i < |r| ==> HexVal(r[i]).Some?
  {
    if s == [] then [] else [HexDigit(s[0] / 16), HexDigit(s[0] % 16)] + HexEncode(s[1..])
  }

  function HexDecode(t: Bytes): (r: Option<Bytes>)
    ensures r.Some? ==> |t| == 2 * |r.value|
    ensures r.Some? <==> |t| % 2 == 0 && forall i :: 0 <= i < |t| ==> HexVal(t[i]).Some?
  {
    if t == [] then Some([])
    else if |t| == 1 then None
    else
      var rest := HexDecode(t[2..]);
      assert t == t[..2] + t[2..];
      if HexVal(t[0]).Some? && HexVal(t[1]).Some? && rest.Some?
      then Some([HexVal(t[0]).value * 16 + HexVal(t[1]).value] + rest.value)
      else
        assert HexVal(t[0]).Some? && HexVal(t[1]).Some? ==>
          (rest.None? && (|t[2..]| % 2 != 0 || exists i :: 0 <= i < |t[2..]| && HexVal(t[2..][i]).None?));
        None
  }

  lemma {:induction false} HexRoundTrip(s: Bytes)
    ensures HexDecode(HexEncode(s)) == Some(s)
  {
    if s != [] {
      HexRoundTrip(s[1..]);
      var t := HexEncode(s);
      assert t[2..] == HexEncode(s[1..]);
      assert HexVal(t[0]).value * 16 + HexVal(t[1]).value == s[0];
      assert [s[0]] + s[1..] == s;
    }
  }

  lemma {:induction false} HexInjective(a: Bytes, b: Bytes)
    requires HexEncode(a) == HexEncode(b)
    ensures a == b
  {
    HexRoundTrip(a);
    HexRoundTrip(b);
  }

  function AsciiLower(c: Byte): (r: Byte) {
    if 0x41 <= c <= 0x5A then c + 32 else c
  }

  // `eq_ignore_ascii_case`.
  predicate EqIgnoreCase(a: Bytes, b: Bytes) {
    |a| == |b| && forall i :: 0 <= i < |a| ==> AsciiLower(a[i]) == AsciiLower(b[i])
  }

  lemma {:induction false} HexDecodeStep(t: Bytes)
    requires t != [] && HexDecode(t).Some?
    ensures |t| >= 2 && HexDecode(t[2..]).Some?
    ensures HexVal(t[0]).Some? && HexVal(t[1]).Some?
    ensures HexDecode(t).value[0] == HexVal(t[0]).value * 16 + HexVal(t[1]).value
    ensures HexDecode(t).value[1..] == HexDecode(t[2..]).value
  {
  }

  lemma {:induction false} HexPairUpToCase(a0: Byte, a1: Byte, b0: Byte, b1: Byte)
    requires HexVal(a0).Some? && HexVal(a1).Some? && HexVal(b0).Some? && HexVal(b1).Some?
    requires HexVal(a0).value * 16 + HexVal(a1).value == HexVal(b0).value * 16 + HexVal(b1).value
    ensures AsciiLower(a0) == AsciiLower(b0) && AsciiLower(a1) == AsciiLower(b1)
  {
    assert HexVal(a0).value == HexVal(b0).value;
  }

  // Two texts that decode to the same bytes differ at most in letter case.
  lemma {:induction false} HexDecodeUpToCase(a: Bytes, b: Bytes)
    requires HexDecode(a).Some? && HexDecode(a) == HexDecode(b)
    ensures EqIgnoreCase(a, b)
  {
    if a != [] {
      HexDecodeStep(a);
      HexDecodeStep(b);
      HexDecodeUpToCase(a[2..], b[2..]);
      HexPairUpToCase(a[0], a[1], b[0], b[1]);
      forall i | 0 <= i < |a|
        ensures AsciiLower(a[i]) == AsciiLower(b[i])
      {
        if i >= 2 {
          assert a[i] == a[2..][i - 2] && b[i] == b[2..][i - 2];
        }
      }
    }
  }

  // Rendering uses digits and lower-case letters only.
  lemma {:induction false} HexIsLower(s: Bytes)
    ensures forall i :: 0 <= i < |HexEncode(s)| ==> IsDigit(HexEncode(s)[i]) || 0x61 <= HexEncode(s)[i] <= 0x66
  {
    if s != [] {
      HexIsLower(s[1..]);
    }
  }

  lemma {:induction false} HexValCase(a: Byte, b: Byte)
    requires AsciiLower(a) == AsciiLower(b)
    ensures HexVal(a) == HexVal(b)
  {
  }

  // Letter case never matters for what a text decodes to, and nothing else
  // leaves it unchanged.
  lemma {:induction false} HexCaseExact(a: Bytes, b: Bytes)
    requires HexDecode(a).Some?
    ensures EqIgnoreCase(a, b) <==> HexDecode(b) == HexDecode(a)
  {
    if HexDecode(b) == HexDecode(a) {
      HexDecodeUpToCase(a, b);
    }
    if EqIgnoreCase(a, b) {
      HexDecodeCase(a, b);
    }
  }

  lemma {:induction false} HexDecodeCase(a: Bytes, b: Bytes)
    requires EqIgnoreCase(a, b)
    ensures HexDecode(a) == HexDecode(b)
  {
    hide HexVal, AsciiLower;
    if |a| >= 2 {
      HexValCase(a[0], b[0]);
      HexValCase(a[1], b[1]);
      HexDecodeCase(a[2..], b[2..]);
    }
  }
}
