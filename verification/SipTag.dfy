// The keyed tag over a measurement: the unrolled in-kernel form against
// byte-level SipHash-2-4 (section 2 of the SipHash paper).

module SipTag {

  type Word = bv64
  type Octets = seq<bv8>

  // ---- SipHash-2-4 on any byte string --------------------------------------------------------------

  datatype State = State(v0: Word, v1: Word, v2: Word, v3: Word)

  function Rotl(x: Word, b: Word): Word
    requires 0 < b < 64
  {
    (x << b) | (x >> (64 - b))
  }

  function Add(x: Word, y: Word): Word {
    x + y
  }

  function Xor(x: Word, y: Word): Word {
    x ^ y
  }

  // The ARX network with its two halves side by side.
  function SipRound(s: State): State {
    hide Rotl, Add, Xor;
    var a := State(Add(s.v0, s.v1), Rotl(s.v1, 13), Add(s.v2, s.v3), Rotl(s.v3, 16));
    var b := State(Rotl(a.v0, 32), Xor(a.v1, a.v0), a.v2, Xor(a.v3, a.v2));
    var c := State(Add(b.v0, b.v3), Rotl(b.v1, 17), Add(b.v2, b.v1), Rotl(b.v3, 21));
    State(c.v0, Xor(c.v1, c.v2), Rotl(c.v2, 32), Xor(c.v3, c.v0))
  }

  function Rounds(s: State, n: nat): State
    decreases n
  {
    hide SipRound;
    if n == 0 then s else Rounds(SipRound(s), n - 1)
  }

  function Initial(k0: Word, k1: Word): State {
    State(Xor(k0, 0x736f6d6570736575), Xor(k1, 0x646f72616e646f6d), Xor(k0, 0x6c7967656e657261), Xor(k1, 0x7465646279746573))
  }

  // One message word, c = 2 rounds.
  function Compress(s: State, m: Word): State {
    var t := Rounds(s.(v3 := Xor(s.v3, m)), 2);
    t.(v0 := Xor(t.v0, m))
  }

  // d = 4 rounds.
  function Finalize(s: State): Word {
    var t := Rounds(s.(v2 := Xor(s.v2, 0xff)), 4);
    Xor(Xor(Xor(t.v0, t.v1), t.v2), t.v3)
  }

  // The little-endian value of up to eight bytes.
  function Load(b: Octets): Word
    requires |b| <= 8
  {
    if b == [] then 0 else (b[0] as Word) | (Load(b[1..]) << 8)
  }

  // The last word: the remaining bytes, and the message length modulo 256 on top.
  function LastWord(tail: Octets, length: nat): Word
    requires |tail| < 8
  {
    Load(tail) | ((length % 256) as Word << 56)
  }

  function Absorb(s: State, msg: Octets, length: nat): State
    decreases |msg|
  {
    if |msg| < 8 then Compress(s, LastWord(msg, length))
    else Absorb(Compress(s, Load(msg[..8])), msg[8..], length)
  }

  function SipHash24(k0: Word, k1: Word, msg: Octets): Word {
    Finalize(Absorb(Initial(k0, k1), msg, |msg|))
  }

  // ---- the tagged fields ------------------------------------------------------------------------------

  datatype Fields = Fields(
    energy: bv64, timestamp: bv64, unitId: bv32, domainId: bv32, version: bv16, producer: bv16, epoch: bv32)

  function Le16(x: bv16): (r: Octets)
    ensures |r| == 2
  {
    [(x & 0xff) as bv8, (x >> 8) as bv8]
  }

  function Le32(x: bv32): (r: Octets)
    ensures |r| == 4
  {
    Le16((x & 0xffff) as bv16) + Le16((x >> 16) as bv16)
  }

  function Le64(x: bv64): (r: Octets)
    ensures |r| == 8
  {
    Le32((x & 0xffff_ffff) as bv32) + Le32((x >> 32) as bv32)
  }

  // Every field little-endian at its own width, 32 bytes in all.
  function Encode(f: Fields): (r: Octets)
    ensures |r| == 32
  {
    Le64(f.energy) + Le64(f.timestamp) + (Le32(f.unitId) + Le32(f.domainId)) +
    (Le16(f.version) + Le16(f.producer) + Le32(f.epoch))
  }

  datatype Words = Words(m0: Word, m1: Word, m2: Word, m3: Word)

  function Pack(f: Fields): Words {
    Words(f.energy, f.timestamp, Pack32(f.unitId, f.domainId), Pack16(f.version, f.producer, f.epoch))
  }

  function Pack32(lo: bv32, hi: bv32): Word {
    (lo as Word) | ((hi as Word) << 32)
  }

  function Pack16(a: bv16, b: bv16, c: bv32): Word {
    (a as Word) | ((b as Word) << 16) | ((c as Word) << 32)
  }

  // ---- the unrolled form ------------------------------------------------------------------------------

  // SIPROUND.
  method Round(w0: Word, w1: Word, w2: Word, w3: Word) returns (v0: Word, v1: Word, v2: Word, v3: Word)
    ensures State(v0, v1, v2, v3) == SipRound(State(w0, w1, w2, w3))
  {
    hide Rotl, Add, Xor;
    v0, v1, v2, v3 := w0, w1, w2, w3;
    v0 := Add(v0, v1);
    v1 := Rotl(v1, 13);
    v1 := Xor(v1, v0);
    v0 := Rotl(v0, 32);
    v2 := Add(v2, v3);
    v3 := Rotl(v3, 16);
    v3 := Xor(v3, v2);
    v0 := Add(v0, v3);
    v3 := Rotl(v3, 21);
    v3 := Xor(v3, v0);
    v2 := Add(v2, v1);
    v1 := Rotl(v1, 17);
    v1 := Xor(v1, v2);
    v2 := Rotl(v2, 32);
  }

  // SIPABSORB.
  method AbsorbWord(w0: Word, w1: Word, w2: Word, w3: Word, m: Word) returns (v0: Word, v1: Word, v2: Word, v3: Word)
    ensures State(v0, v1, v2, v3) == Compress(State(w0, w1, w2, w3), m)
  {
    hide SipRound, Rounds, Xor;
    v0, v1, v2, v3 := w0, w1, w2, w3;
    v3 := Xor(v3, m);
    ghost var s := State(v0, v1, v2, v3);
    v0, v1, v2, v3 := Round(v0, v1, v2, v3);
    v0, v1, v2, v3 := Round(v0, v1, v2, v3);
    TwoRounds(s);
    v0 := Xor(v0, m);
  }

  lemma {:induction false} TwoRounds(s: State)
    ensures Rounds(s, 2) == SipRound(SipRound(s))
  {
    hide SipRound;
    assert Rounds(s, 2) == Rounds(SipRound(s), 1);
  }

  lemma {:induction false} FourRounds(s: State)
    ensures Rounds(s, 4) == SipRound(SipRound(SipRound(SipRound(s))))
  {
    hide SipRound;
    assert Rounds(s, 4) == Rounds(SipRound(s), 3);
    assert Rounds(SipRound(s), 3) == Rounds(SipRound(SipRound(s)), 2);
    TwoRounds(SipRound(SipRound(s)));
  }

  const LEN_BLOCK: Word := 0x2000000000000000

  // `siptag`: five absorbed words, then four rounds.
  method Siptag(k0: Word, k1: Word, f: Fields) returns (tag: Word)
    ensures tag == SipHash24(k0, k1, Encode(f))
  {
    hide SipRound, Rounds, Compress, Pack32, Pack16, Absorb, Encode, Xor, Initial;
    var v0, v1, v2, v3 :=
      Xor(0x736f6d6570736575, k0), Xor(0x646f72616e646f6d, k1), Xor(0x6c7967656e657261, k0), Xor(0x7465646279746573, k1);
    InitialCommutes(k0, k1);
    var m2 := (f.unitId as Word) | ((f.domainId as Word) << 32);
    var m3 := (f.version as Word) | ((f.producer as Word) << 16) | ((f.epoch as Word) << 32);
    PackedWords(f, m2, m3);
    v0, v1, v2, v3 := AbsorbWord(v0, v1, v2, v3, f.energy);
    v0, v1, v2, v3 := AbsorbWord(v0, v1, v2, v3, f.timestamp);
    v0, v1, v2, v3 := AbsorbWord(v0, v1, v2, v3, m2);
    v0, v1, v2, v3 := AbsorbWord(v0, v1, v2, v3, m3);
    v0, v1, v2, v3 := AbsorbWord(v0, v1, v2, v3, LEN_BLOCK);
    AbsorbFields(Initial(k0, k1), f);
    v2 := Xor(v2, 0xff);
    FourRounds(State(v0, v1, v2, v3));
    v0, v1, v2, v3 := Round(v0, v1, v2, v3);
    v0, v1, v2, v3 := Round(v0, v1, v2, v3);
    v0, v1, v2, v3 := Round(v0, v1, v2, v3);
    v0, v1, v2, v3 := Round(v0, v1, v2, v3);
    tag := Xor(Xor(Xor(v0, v1), v2), v3);
  }

  lemma {:induction false} InitialCommutes(k0: Word, k1: Word)
    ensures Initial(k0, k1) ==
      State(Xor(0x736f6d6570736575, k0), Xor(0x646f72616e646f6d, k1), Xor(0x6c7967656e657261, k0), Xor(0x7465646279746573, k1))
  {
    hide Xor;
    XorCommutes(k0, 0x736f6d6570736575);
    XorCommutes(k1, 0x646f72616e646f6d);
    XorCommutes(k0, 0x6c7967656e657261);
    XorCommutes(k1, 0x7465646279746573);
  }

  lemma {:induction false} XorCommutes(x: Word, y: Word)
    ensures Xor(x, y) == Xor(y, x)
  {
  }

  lemma {:induction false} PackedWords(f: Fields, m2: Word, m3: Word)
    requires m2 == (f.unitId as Word) | ((f.domainId as Word) << 32)
    requires m3 == (f.version as Word) | ((f.producer as Word) << 16) | ((f.epoch as Word) << 32)
    ensures Pack(f) == Words(f.energy, f.timestamp, m2, m3)
  {
  }

  // ---- the bytes of the fields load as the packed words -----------------------------------------------

  lemma {:induction false} LoadCons(b: bv8, rest: Octets)
    requires |rest| < 8
    ensures Load([b] + rest) == (b as Word) | (Load(rest) << 8)
  {
    assert ([b] + rest)[1..] == rest;
  }

  // A 16-bit field in front of other bytes.
  lemma {:induction false} Load16(x: bv16, rest: Octets)
    requires |rest| <= 6
    ensures Load(Le16(x) + rest) == (x as Word) | (Load(rest) << 16)
  {
    hide Load;
    var lo, hi := (x & 0xff) as bv8, (x >> 8) as bv8;
    LoadCons(hi, rest);
    LoadCons(lo, [hi] + rest);
    assert Le16(x) + rest == [lo] + ([hi] + rest);
    Join16(x, Load(rest));
  }

  lemma {:induction false} Join16(x: bv16, w: Word)
    ensures ((x & 0xff) as bv8 as Word) | ((((x >> 8) as bv8 as Word) | (w << 8)) << 8) == (x as Word) | (w << 16)
  {
  }

  lemma {:induction false} Load32(x: bv32, rest: Octets)
    requires |rest| <= 4
    ensures Load(Le32(x) + rest) == (x as Word) | (Load(rest) << 32)
  {
    hide Load, Le16;
    var lo, hi := (x & 0xffff) as bv16, (x >> 16) as bv16;
    Load16(hi, rest);
    Load16(lo, Le16(hi) + rest);
    assert Le32(x) + rest == Le16(lo) + (Le16(hi) + rest);
    Join32(x, Load(rest));
  }

  lemma {:induction false} Join32(x: bv32, w: Word)
    ensures ((x & 0xffff) as bv16 as Word) | ((((x >> 16) as bv16 as Word) | (w << 16)) << 16) == (x as Word) | (w << 32)
  {
  }

  lemma {:induction false} Load64(x: bv64)
    ensures Load(Le64(x)) == x
  {
    hide Load, Le32;
    var lo, hi := (x & 0xffff_ffff) as bv32, (x >> 32) as bv32;
    LoadPair(lo, hi);
    Join64(x);
  }

  lemma {:induction false} Join64(x: bv64)
    ensures Pack32((x & 0xffff_ffff) as bv32, (x >> 32) as bv32) == x
  {
  }

  lemma {:induction false} LoadPair(lo: bv32, hi: bv32)
    ensures Load(Le32(lo) + Le32(hi)) == Pack32(lo, hi)
  {
    hide Load, Le32;
    Load32(lo, Le32(hi));
    Load32(hi, []);
    assert Le32(hi) + [] == Le32(hi);
    LoadNothing();
    ShiftOfZero(hi as Word);
  }

  lemma {:induction false} LoadNothing()
    ensures Load([]) == 0
  {
  }

  lemma {:induction false} ShiftOfZero(x: Word)
    ensures x | (0 << 32) == x
  {
  }

  lemma {:induction false} LoadTriple(a: bv16, b: bv16, c: bv32)
    ensures Load(Le16(a) + Le16(b) + Le32(c)) == Pack16(a, b, c)
  {
    hide Load, Le32, Le16;
    Load16(a, Le16(b) + Le32(c));
    Load16(b, Le32(c));
    Load32(c, []);
    assert Le32(c) + [] == Le32(c);
    LoadNothing();
    ShiftOfZero(c as Word);
    assert Le16(a) + Le16(b) + Le32(c) == Le16(a) + (Le16(b) + Le32(c));
    JoinTriple(a, b, c);
  }

  lemma {:induction false} JoinTriple(a: bv16, b: bv16, c: bv32)
    ensures (a as Word) | (((b as Word) | ((c as Word) << 16)) << 16) == Pack16(a, b, c)
  {
  }

  // ---- the unrolled form is SipHash-2-4 --------------------------------------------------------------

  lemma {:induction false} AbsorbStep(s: State, b: Octets, rest: Octets, length: nat)
    requires |b| == 8
    ensures Absorb(s, b + rest, length) == Absorb(Compress(s, Load(b)), rest, length)
  {
    hide Compress, Load;
    assert (b + rest)[..8] == b && (b + rest)[8..] == rest;
  }

  lemma {:induction false} AbsorbEnd(s: State)
    ensures Absorb(s, [], 32) == Compress(s, LEN_BLOCK)
  {
    hide Compress, LastWord;
    LastOfNone();
  }

  lemma {:induction false} LastOfNone()
    ensures LastWord([], 32) == LEN_BLOCK
  {
    hide Load;
    LoadNothing();
    assert (32 % 256) as Word == 32;
  }

  lemma {:induction false} AbsorbFields(s: State, f: Fields)
    ensures
      var w := Pack(f);
      Absorb(s, Encode(f), 32) ==
        Compress(Compress(Compress(Compress(Compress(s, w.m0), w.m1), w.m2), w.m3), LEN_BLOCK)
  {
    hide Compress, Load, Le16, Le32, Le64, Absorb, Pack16, Pack32;
    var b0, b1 := Le64(f.energy), Le64(f.timestamp);
    var b2 := Le32(f.unitId) + Le32(f.domainId);
    var b3 := Le16(f.version) + Le16(f.producer) + Le32(f.epoch);
    assert Encode(f) == b0 + (b1 + (b2 + (b3 + [])));
    Load64(f.energy);
    Load64(f.timestamp);
    LoadPair(f.unitId, f.domainId);
    LoadTriple(f.version, f.producer, f.epoch);
    AbsorbStep(s, b0, b1 + (b2 + (b3 + [])), 32);
    var s1 := Compress(s, f.energy);
    AbsorbStep(s1, b1, b2 + (b3 + []), 32);
    var s2 := Compress(s1, f.timestamp);
    AbsorbStep(s2, b2, b3 + [], 32);
    var s3 := Compress(s2, Load(b2));
    AbsorbStep(s3, b3, [], 32);
    AbsorbEnd(Compress(s3, Load(b3)));
  }

  // ---- packing loses nothing ---------------------------------------------------------------------------

  function Low32(w: Word): bv32 {
    (w & 0xffff_ffff) as bv32
  }

  function High32(w: Word): bv32 {
    (w >> 32) as bv32
  }

  function Low16(w: Word): bv16 {
    (w & 0xffff) as bv16
  }

  function Next16(w: Word): bv16 {
    ((w >> 16) & 0xffff) as bv16
  }

  function Unpack(w: Words): Fields {
    Fields(w.m0, w.m1, Low32(w.m2), High32(w.m2), Low16(w.m3), Next16(w.m3), High32(w.m3))
  }

  lemma {:induction false} PackRoundTrip(f: Fields)
    ensures Unpack(Pack(f)) == f
  {
    hide Pack16, Pack32, Low32, High32, Low16, Next16;
    Halves(f.unitId, f.domainId);
    Thirds(f.version, f.producer, f.epoch);
  }

  lemma {:induction false} Halves(lo: bv32, hi: bv32)
    ensures Low32(Pack32(lo, hi)) == lo && High32(Pack32(lo, hi)) == hi
  {
  }

  lemma {:induction false} Thirds(a: bv16, b: bv16, c: bv32)
    ensures Low16(Pack16(a, b, c)) == a && Next16(Pack16(a, b, c)) == b && High32(Pack16(a, b, c)) == c
  {
  }

  lemma {:induction false} PackInjective(f: Fields, g: Fields)
    requires Pack(f) == Pack(g)
    ensures f == g
  {
    hide Pack, Unpack;
    PackRoundTrip(f);
    PackRoundTrip(g);
  }

  // ---- the paper's test vector ---------------------------------------------------------------------

  // Appendix A of the SipHash paper: key 00 .. 0f, message 00 .. 0e.
  const KEY0: Word := 0x0706050403020100
  const KEY1: Word := 0x0f0e0d0c0b0a0908

  lemma {:induction false} PaperStart()
    ensures Initial(KEY0, KEY1) == State(0x7469686173716475, 0x6b617f6d656e6665, 0x6b7f62616d677361, 0x7b6b696e727e6c7b)
  {
  }

  lemma {:induction false} PaperRound1()
    ensures SipRound(State(0x7469686173716475, 0x6b617f6d656e6665, 0x6b7f62616d677361, 0x7c6d6c6a717c6d7b)) ==
            State(0x64668a929363847f, 0x4ed232083d9aa8dc, 0xf2f74892d8141a2e, 0x9290f9810552f4a8)
  {
  }

  lemma {:induction false} PaperRound2()
    ensures SipRound(State(0x64668a929363847f, 0x4ed232083d9aa8dc, 0xf2f74892d8141a2e, 0x9290f9810552f4a8)) ==
            State(0x4d07749cdd0858e0, 0x0d52f6f62a4f59a4, 0x634cb3577b01fd3d, 0xa5224d6f55c7d9c8)
  {
  }

  lemma {:induction false} PaperRound3()
    ensures SipRound(State(0x4a017198de0a59e0, 0x0d52f6f62a4f59a4, 0x634cb3577b01fd3d, 0xaa2c40635ecdd0c0)) ==
            State(0x557560fb6063d060, 0x4c8e675bd961133e, 0xbd3d002b1703a181, 0xfb9441179a4a7315)
  {
  }

  lemma {:induction false} PaperRound4()
    ensures SipRound(State(0x557560fb6063d060, 0x4c8e675bd961133e, 0xbd3d002b1703a181, 0xfb9441179a4a7315)) ==
            State(0x338bbea7645fb759, 0x414fc3fb98efe374, 0xccf13ea527b9f4bd, 0x5293f5da84008f82)
  {
  }

  lemma {:induction false} PaperRound5()
    ensures SipRound(State(0x3c85b3ab6f55be51, 0x414fc3fb98efe374, 0xccf13ea527b9f442, 0x5293f5da84008f82)) ==
            State(0xf2a55244a20e48fe, 0xac5ad16ccc3ca6e4, 0x9fe5adb0a52f393a, 0xfd41d55e88f30308)
  {
  }

  lemma {:induction false} PaperRound6()
    ensures SipRound(State(0xf2a55244a20e48fe, 0xac5ad16ccc3ca6e4, 0x9fe5adb0a52f393a, 0xfd41d55e88f30308)) ==
            State(0xb6c3fbdecc2ae4b4, 0x1638c86adc6b3cf0, 0x28b8b6ab62553d46, 0xc9465e86ec43eb95)
  {
  }

  lemma {:induction false} PaperRound7()
    ensures SipRound(State(0xb6c3fbdecc2ae4b4, 0x1638c86adc6b3cf0, 0x28b8b6ab62553d46, 0xc9465e86ec43eb95)) ==
            State(0x58101b167209a5e6, 0xf8792ae75b66e7dd, 0x1da14c3ec7f0b4f7, 0x7624ba8a41bc4ad9)
  {
  }

  lemma {:induction false} PaperRound8()
    ensures SipRound(State(0x58101b167209a5e6, 0xf8792ae75b66e7dd, 0x1da14c3ec7f0b4f7, 0x7624ba8a41bc4ad9)) ==
            State(0xf6bcd53893fecff1, 0x54b9964c7ea0d937, 0x1b38329c099bb55a, 0x1814bb89ad7be679)
  {
  }

  lemma {:induction false} PaperWord1()
    ensures Compress(State(0x7469686173716475, 0x6b617f6d656e6665, 0x6b7f62616d677361, 0x7b6b696e727e6c7b), 0x0706050403020100) ==
            State(0x4a017198de0a59e0, 0x0d52f6f62a4f59a4, 0x634cb3577b01fd3d, 0xa5224d6f55c7d9c8)
  {
    hide SipRound, Rounds;
    PaperRound1();
    PaperRound2();
    TwoRounds(State(0x7469686173716475, 0x6b617f6d656e6665, 0x6b7f62616d677361, 0x7c6d6c6a717c6d7b));
  }

  lemma {:induction false} PaperWord2()
    ensures Compress(State(0x4a017198de0a59e0, 0x0d52f6f62a4f59a4, 0x634cb3577b01fd3d, 0xa5224d6f55c7d9c8), 0x0f0e0d0c0b0a0908) ==
            State(0x3c85b3ab6f55be51, 0x414fc3fb98efe374, 0xccf13ea527b9f4bd, 0x5293f5da84008f82)
  {
    hide SipRound, Rounds;
    PaperRound3();
    PaperRound4();
    TwoRounds(State(0x4a017198de0a59e0, 0x0d52f6f62a4f59a4, 0x634cb3577b01fd3d, 0xaa2c40635ecdd0c0));
  }

  lemma {:induction false} PaperEnd()
    ensures Finalize(State(0x3c85b3ab6f55be51, 0x414fc3fb98efe374, 0xccf13ea527b9f4bd, 0x5293f5da84008f82)) == 0xa129ca6149be45e5
  {
    hide SipRound, Rounds;
    PaperRound5();
    PaperRound6();
    PaperRound7();
    PaperRound8();
    FourRounds(State(0x3c85b3ab6f55be51, 0x414fc3fb98efe374, 0xccf13ea527b9f442, 0x5293f5da84008f82));
  }

  lemma {:induction false} PaperFirst()
    ensures Load([0, 1, 2, 3, 4, 5, 6, 7]) == 0x0706050403020100
  {
    hide Load;
    LoadNothing();
    var s7: Octets := [7];
    LoadCons(7, []);
    assert s7 == [7] + [] && Load(s7) == 0x7;
    var s6: Octets := [6, 7];
    LoadCons(6, s7);
    assert s6 == [6] + s7 && Load(s6) == 0x706;
    var s5: Octets := [5, 6, 7];
    LoadCons(5, s6);
    assert s5 == [5] + s6 && Load(s5) == 0x70605;
    var s4: Octets := [4, 5, 6, 7];
    LoadCons(4, s5);
    assert s4 == [4] + s5 && Load(s4) == 0x7060504;
    var s3: Octets := [3, 4, 5, 6, 7];
    LoadCons(3, s4);
    assert s3 == [3] + s4 && Load(s3) == 0x706050403;
    var s2: Octets := [2, 3, 4, 5, 6, 7];
    LoadCons(2, s3);
    assert s2 == [2] + s3 && Load(s2) == 0x70605040302;
    var s1: Octets := [1, 2, 3, 4, 5, 6, 7];
    LoadCons(1, s2);
    assert s1 == [1] + s2 && Load(s1) == 0x7060504030201;
    var s0: Octets := [0, 1, 2, 3, 4, 5, 6, 7];
    LoadCons(0, s1);
    assert s0 == [0] + s1 && Load(s0) == 0x706050403020100;
  }

  lemma {:induction false} PaperTail()
    ensures Load([8, 9, 10, 11, 12, 13, 14]) == 0x000e0d0c0b0a0908
  {
    hide Load;
    LoadNothing();
    var s14: Octets := [14];
    LoadCons(14, []);
    assert s14 == [14] + [] && Load(s14) == 0xe;
    var s13: Octets := [13, 14];
    LoadCons(13, s14);
    assert s13 == [13] + s14 && Load(s13) == 0xe0d;
    var s12: Octets := [12, 13, 14];
    LoadCons(12, s13);
    assert s12 == [12] + s13 && Load(s12) == 0xe0d0c;
    var s11: Octets := [11, 12, 13, 14];
    LoadCons(11, s12);
    assert s11 == [11] + s12 && Load(s11) == 0xe0d0c0b;
    var s10: Octets := [10, 11, 12, 13, 14];
    LoadCons(10, s11);
    assert s10 == [10] + s11 && Load(s10) == 0xe0d0c0b0a;
    var s9: Octets := [9, 10, 11, 12, 13, 14];
    LoadCons(9, s10);
    assert s9 == [9] + s10 && Load(s9) == 0xe0d0c0b0a09;
    var s8: Octets := [8, 9, 10, 11, 12, 13, 14];
    LoadCons(8, s9);
    assert s8 == [8] + s9 && Load(s8) == 0xe0d0c0b0a0908;
  }

  lemma {:induction false} PaperLoads()
    ensures Load([0, 1, 2, 3, 4, 5, 6, 7]) == 0x0706050403020100
    ensures LastWord([8, 9, 10, 11, 12, 13, 14], 15) == 0x0f0e0d0c0b0a0908
  {
    hide Load;
    PaperFirst();
    PaperTail();
    assert (15 % 256) as Word == 15;
  }

  // The reference used above is SipHash-2-4: it gives the published value.
  lemma {:induction false} PaperVector()
    ensures SipHash24(KEY0, KEY1, [0, 1, 2, 3, 4, 5, 6, 7] + [8, 9, 10, 11, 12, 13, 14]) == 0xa129ca6149be45e5
  {
    hide Initial, Compress, Finalize, Load, LastWord;
    PaperStart();
    PaperLoads();
    var first: Octets, tail: Octets := [0, 1, 2, 3, 4, 5, 6, 7], [8, 9, 10, 11, 12, 13, 14];
    AbsorbStep(Initial(KEY0, KEY1), first, tail, 15);
    PaperWord1();
    PaperWord2();
    PaperEnd();
  }
}
