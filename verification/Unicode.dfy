// The byte-level text predicates against code points: which byte strings are
// characters, which are white space, and what trimming and lossy decoding do.

module Unicode {
  import opened Bytes
  import opened Text

  // ---- encoding a code point ----------------------------------------------------------------------

  predicate Scalar(cp: nat) {
    cp < 0x110000 && !(0xD800 <= cp <= 0xDFFF)
  }

  function Utf8(cp: nat): Bytes
    requires Scalar(cp)
  {
    var q1 := cp / 64;
    var q2 := q1 / 64;
    var q3 := q2 / 64;
    if cp < 0x80 then [cp]
    else if cp < 0x800 then [0xC0 + q1, 0x80 + cp % 64]
    else if cp < 0x10000 then [0xE0 + q2, 0x80 + q1 % 64, 0x80 + cp % 64]
    else [0xF0 + q3, 0x80 + q2 % 64, 0x80 + q1 % 64, 0x80 + cp % 64]
  }

  lemma {:induction false} Digits64(a: nat, b: nat)
    requires b < 64
    ensures (a * 64 + b) / 64 == a && (a * 64 + b) % 64 == b
  {
  }

  // The bytes taken as one character.
  predicate OneChar(c: Bytes) {
    StartsWhole(c) && GoodFront(c) == |c|
  }

  lemma {:induction false} Utf8IsOneChar(cp: nat)
    requires Scalar(cp)
    ensures OneChar(Utf8(cp))
  {
  }

  function CodePoint(c: Bytes): nat
    requires OneChar(c)
  {
    match |c|
    case 1 => c[0]
    case 2 => (c[0] as int - 0xC0) * 64 + (c[1] as int - 0x80)
    case 3 => ((c[0] as int - 0xE0) * 64 + (c[1] as int - 0x80)) * 64 + (c[2] as int - 0x80)
    case _ =>
      (((c[0] as int - 0xF0) * 64 + (c[1] as int - 0x80)) * 64 + (c[2] as int - 0x80)) * 64 + (c[3] as int - 0x80)
  }

  lemma {:induction false} ThreeBytes(c: Bytes)
    requires OneChar(c) && |c| == 3
    ensures Scalar(CodePoint(c)) && Utf8(CodePoint(c)) == c
  {
    var a, b, d := c[0] as int - 0xE0, c[1] as int - 0x80, c[2] as int - 0x80;
    Digits64(a * 64 + b, d);
    Digits64(a, b);
  }

  lemma {:induction false} FourBytes(c: Bytes)
    requires OneChar(c) && |c| == 4
    ensures Scalar(CodePoint(c)) && Utf8(CodePoint(c)) == c
  {
    var a, b, d, e := c[0] as int - 0xF0, c[1] as int - 0x80, c[2] as int - 0x80, c[3] as int - 0x80;
    Digits64((a * 64 + b) * 64 + d, e);
    Digits64(a * 64 + b, d);
    Digits64(a, b);
  }

  lemma {:induction false} OneCharIsUtf8(c: Bytes)
    requires OneChar(c)
    ensures Scalar(CodePoint(c)) && Utf8(CodePoint(c)) == c
  {
    if |c| == 2 {
      Digits64(c[0] - 0xC0, c[1] - 0x80);
    } else if |c| == 3 {
      ThreeBytes(c);
    } else if |c| == 4 {
      FourBytes(c);
    }
  }

  // Exactly the encodings of the Unicode scalar values count as characters.
  lemma {:induction false} CharacterExact(c: Bytes)
    ensures OneChar(c) <==> exists cp: nat :: Scalar(cp) && Utf8(cp) == c
  {
    hide Utf8, Scalar, OneChar, CodePoint;
    if OneChar(c) {
      OneCharIsUtf8(c);
    }
    if exists cp: nat :: Scalar(cp) && Utf8(cp) == c {
      var cp: nat :| Scalar(cp) && Utf8(cp) == c;
      Utf8IsOneChar(cp);
    }
  }

  // ---- white space ---------------------------------------------------------------------------------

  // The code points with the property White_Space.
  predicate WhiteSpace(cp: nat) {
    || 0x0009 <= cp <= 0x000D || cp == 0x0020 || cp == 0x0085 || cp == 0x00A0 || cp == 0x1680
    || 0x2000 <= cp <= 0x200A || cp == 0x2028 || cp == 0x2029 || cp == 0x202F || cp == 0x205F || cp == 0x3000
  }

  lemma {:induction false} WhitespaceIsOneChar(c: Bytes)
    requires IsWhitespaceChar(c)
    ensures OneChar(c) && WhiteSpace(CodePoint(c))
  {
  }

  lemma {:induction false} WhiteSpaceBytes(cp: nat)
    requires WhiteSpace(cp)
    ensures IsWhitespaceChar(Utf8(cp))
  {
  }

  lemma {:induction false} WhitespaceExact(c: Bytes)
    ensures IsWhitespaceChar(c) <==> exists cp: nat :: WhiteSpace(cp) && Scalar(cp) && Utf8(cp) == c
  {
    hide Utf8, IsWhitespaceChar, CodePoint, OneChar, WhiteSpace;
    if IsWhitespaceChar(c) {
      WhitespaceIsOneChar(c);
      OneCharIsUtf8(c);
    }
    if exists cp: nat :: WhiteSpace(cp) && Scalar(cp) && Utf8(cp) == c {
      var cp: nat :| WhiteSpace(cp) && Scalar(cp) && Utf8(cp) == c;
      WhiteSpaceBytes(cp);
    }
  }

  // ---- trimming --------------------------------------------------------------------------------------

  // The last byte of a longer white space character is not one itself, nor are its last two.
  lemma {:induction false} SuffixNotWhite(c: Bytes, n: nat)
    requires IsWhitespaceChar(c) && n < |c|
    ensures !IsWhitespaceChar(c[|c| - n..])
  {
  }

  lemma {:induction false} SuffixOfBoth(s: Bytes, c: Bytes, n: nat)
    requires IsWhitespaceChar(c) && n <= |c|
    ensures |c| <= 3
    ensures (s + c)[|s| + |c| - n..] == c[|c| - n..]
    ensures n < |c| ==> !IsWhitespaceChar((s + c)[|s| + |c| - n..])
    ensures n == |c| ==> IsWhitespaceChar((s + c)[|s| + |c| - n..])
  {
    assert (s + c)[|s| + |c| - n..] == c[|c| - n..];
    assert n == |c| ==> c[|c| - n..] == c;
    if n < |c| {
      SuffixNotWhite(c, n);
    }
  }

  lemma {:induction false} TailOfWhite(s: Bytes, c: Bytes)
    requires IsWhitespaceChar(c)
    ensures WhitespaceTail(s + c) == |c|
  {
    hide IsWhitespaceChar;
    SuffixOfBoth(s, c, 0);
    SuffixOfBoth(s, c, 1);
    if |c| >= 2 {
      SuffixOfBoth(s, c, 2);
    }
    if |c| >= 3 {
      SuffixOfBoth(s, c, 3);
    }
  }

  lemma {:induction false} HeadOfWhite(c: Bytes, s: Bytes)
    requires IsWhitespaceChar(c)
    ensures WhitespaceHead(c + s) == |c|
  {
    var t := c + s;
    assert t[..|c|] == c;
    assert |t| >= 1 ==> t[..1] == [t[0]];
    assert |t| >= 2 ==> t[..2] == [t[0], t[1]];
  }

  // Trimming removes exactly the white space at the ends: white space added
  // there makes no difference, and what is left neither starts nor ends with any.
  lemma {:induction false} TrimEndExact(s: Bytes, c: Bytes)
    requires IsWhitespaceChar(c)
    ensures TrimEnd(s + c) == TrimEnd(s)
    ensures !exists t: Bytes, w: Bytes :: IsWhitespaceChar(w) && TrimEnd(s) == t + w
  {
    hide WhitespaceTail, IsWhitespaceChar;
    TailOfWhite(s, c);
    assert (s + c)[..|s + c| - |c|] == s;
    WhitespaceNonempty(c);
    forall t: Bytes, w: Bytes | IsWhitespaceChar(w) && TrimEnd(s) == t + w
      ensures false
    {
      TailOfWhite(t, w);
      WhitespaceNonempty(w);
    }
  }

  lemma {:induction false} WhitespaceNonempty(c: Bytes)
    requires IsWhitespaceChar(c)
    ensures |c| > 0
  {
  }

  lemma {:induction false} TrimStartIsSuffix(s: Bytes)
    ensures TrimStart(s) == s[|s| - |TrimStart(s)|..]
    decreases |s|
  {
    hide WhitespaceHead;
    var n := WhitespaceHead(s);
    if n > 0 {
      TrimStartIsSuffix(s[n..]);
    }
  }

  lemma {:induction false} TrimStartExact(c: Bytes, s: Bytes)
    requires IsWhitespaceChar(c)
    ensures TrimStart(c + s) == TrimStart(s)
    ensures TrimStart(s) == s[|s| - |TrimStart(s)|..]
    ensures !exists w: Bytes, t: Bytes :: IsWhitespaceChar(w) && TrimStart(s) == w + t
  {
    hide WhitespaceHead, IsWhitespaceChar;
    TrimStartIsSuffix(s);
    HeadOfWhite(c, s);
    assert (c + s)[|c|..] == s;
    WhitespaceNonempty(c);
    forall w: Bytes, t: Bytes | IsWhitespaceChar(w) && TrimStart(s) == w + t
      ensures false
    {
      HeadOfWhite(w, t);
      WhitespaceNonempty(w);
    }
  }

  // ---- lossy decoding, on the standard's own example ---------------------------------------------------

  lemma {:induction false} LossyWhole(c: Bytes, rest: Bytes)
    requires OneChar(c)
    ensures Lossy(c + rest) == c + Lossy(rest)
  {
    var s := c + rest;
    assert forall i :: 0 <= i < |c| ==> s[i] == c[i];
    assert GoodFront(s) == |c| && s[..|c|] == c && s[|c|..] == rest;
  }

  // A front of a character that the next byte does not continue.
  lemma {:induction false} LossyBroken(s: Bytes, n: nat)
    requires s != [] && !StartsWhole(s) && n == (if GoodFront(s) == 0 then 1 else GoodFront(s))
    ensures Lossy(s) == REPLACEMENT + Lossy(s[n..])
  {
  }

  lemma {:induction false} LossyExampleEnd()
    ensures Lossy([0x80, 0xBF, 0x64]) == REPLACEMENT + (REPLACEMENT + [0x64])
  {
    hide Lossy;
    LossyNothing();
    LossyWhole([0x64], []);
    assert [0x64] + [] == [0x64];
    LossyBroken([0xBF, 0x64], 1);
    assert [0xBF, 0x64][1..] == [0x64];
    LossyBroken([0x80, 0xBF, 0x64], 1);
    assert [0x80, 0xBF, 0x64][1..] == [0xBF, 0x64];
  }

  lemma {:induction false} LossyExampleMiddle()
    ensures Lossy([0x62, 0x80, 0x63, 0x80, 0xBF, 0x64]) ==
      [0x62] + (REPLACEMENT + ([0x63] + (REPLACEMENT + (REPLACEMENT + [0x64]))))
  {
    hide Lossy;
    LossyExampleEnd();
    LossyWhole([0x63], [0x80, 0xBF, 0x64]);
    assert [0x63] + [0x80, 0xBF, 0x64] == [0x63, 0x80, 0xBF, 0x64];
    LossyBroken([0x80, 0x63, 0x80, 0xBF, 0x64], 1);
    assert [0x80, 0x63, 0x80, 0xBF, 0x64][1..] == [0x63, 0x80, 0xBF, 0x64];
    LossyWhole([0x62], [0x80, 0x63, 0x80, 0xBF, 0x64]);
    assert [0x62] + [0x80, 0x63, 0x80, 0xBF, 0x64] == [0x62, 0x80, 0x63, 0x80, 0xBF, 0x64];
  }

  // Section 3.9 of the Unicode Standard, "U+FFFD Substitution of Maximal Subparts".
  lemma {:induction false} LossyExample()
    ensures
      Lossy([0x61] + ([0xF1, 0x80, 0x80] + ([0xE1, 0x80] + ([0xC2] + [0x62, 0x80, 0x63, 0x80, 0xBF, 0x64])))) ==
      [0x61] + (REPLACEMENT + (REPLACEMENT + (REPLACEMENT +
        ([0x62] + (REPLACEMENT + ([0x63] + (REPLACEMENT + (REPLACEMENT + [0x64]))))))))
  {
    hide Lossy;
    LossyExampleMiddle();
    var r0: Bytes := [0x62, 0x80, 0x63, 0x80, 0xBF, 0x64];
    var r1 := [0xC2] + r0;
    LossyBroken(r1, 1);
    assert r1[1..] == r0;
    var r2 := [0xE1, 0x80] + r1;
    LossyBroken(r2, 2);
    assert r2[2..] == r1;
    var r3 := [0xF1, 0x80, 0x80] + r2;
    LossyBroken(r3, 3);
    assert r3[3..] == r2;
    LossyWhole([0x61], r3);
  }

  lemma {:induction false} LossyNothing()
    ensures Lossy([]) == []
  {
  }

  // ---- labels --------------------------------------------------------------------------------------------

  predicate LabelChar(c: char) {
    'A' <= c <= 'Z' || 'a' <= c <= 'z' || '0' <= c <= '9' || c in {'.', '_', '-'}
  }

  lemma {:induction false} LabelBytes(b: Byte)
    ensures SafeLabelByte(b) <==> LabelChar(b as char)
  {
  }

  // One to 64 letters, digits, full stops, low lines and hyphens, and nothing
  // else: the separators of paths, lines and keys are all out.
  lemma {:induction false} LabelExact(s: Bytes)
    ensures ValidTenantLabel(s) <==> s != [] && |s| <= 64 && forall i :: 0 <= i < |s| ==> LabelChar(s[i] as char)
    ensures ValidTenantLabel(s) ==> forall b :: b in s ==> b !in {SPACE, COLON, PIPE, SLASH, NEWLINE}
  {
    hide LabelChar, SafeLabelByte;
    forall i | 0 <= i < |s|
      ensures SafeLabelByte(s[i]) <==> LabelChar(s[i] as char)
    {
      LabelBytes(s[i]);
    }
    forall b | b in s && ValidTenantLabel(s)
      ensures b !in {SPACE, COLON, PIPE, SLASH, NEWLINE}
    {
      SeparatorsUnsafe(b);
    }
  }

  lemma {:induction false} SeparatorsUnsafe(b: Byte)
    requires SafeLabelByte(b)
    ensures b !in {SPACE, COLON, PIPE, SLASH, NEWLINE}
  {
  }
}
