// Byte strings, digests and the hash-function parameter shared by the whole model.
//
// SHA-256 is never axiomatised.  Every definition that hashes takes the hash as
// a parameter `h: Hash`, so each theorem holds for every function from byte
// strings to 32-byte digests.  Binding results therefore cannot assume that
// `h` is injective; they say "... or `h` collides on the strings that these
// computations actually hashed", where that finite set is spelled out.

module Bytes {

  type Byte = b: int | 0 <= b < 256
  type Bytes = seq<Byte>

  const U32_LIMIT: nat := 0x1_0000_0000
  const U64_LIMIT: nat := 0x1_0000_0000_0000_0000
  const U64_MAX: nat := 0xFFFF_FFFF_FFFF_FFFF

  type U32 = x: int | 0 <= x < 0x1_0000_0000
  type U64 = x: int | 0 <= x < 0x1_0000_0000_0000_0000

  type Digest = d: Bytes | |d| == 32
    witness [0, 0, 0, 0, 0, 0, 0, 0, 0, 0, 0, 0, 0, 0, 0, 0, 0, 0, 0, 0, 0, 0, 0, 0, 0, 0, 0, 0, 0, 0, 0, 0]
  type Hash = Bytes -> Digest

  const ZERO_DIGEST: Digest :=
    [0, 0, 0, 0, 0, 0, 0, 0, 0, 0, 0, 0, 0, 0, 0, 0, 0, 0, 0, 0, 0, 0, 0, 0, 0, 0, 0, 0, 0, 0, 0, 0]
  const ONES_DIGEST: Digest :=
   [0xFF, 0xFF, 0xFF, 0xFF, 0xFF, 0xFF, 0xFF, 0xFF, 0xFF, 0xFF, 0xFF, 0xFF, 0xFF, 0xFF, 0xFF, 0xFF,
    0xFF, 0xFF, 0xFF, 0xFF, 0xFF, 0xFF, 0xFF, 0xFF, 0xFF, 0xFF, 0xFF, 0xFF, 0xFF, 0xFF, 0xFF, 0xFF]

  datatype Option<+T> = None | Some(value: T)

  // Two different members of `inputs` have the same hash.
  ghost predicate Collides(h: Hash, inputs: set<Bytes>)
  {
    exists x, y :: x in inputs && y in inputs && x != y && h(x) == h(y)
  }

  // Some member of `inputs` hashes to `d`.
  ghost predicate Hits(h: Hash, inputs: set<Bytes>, d: Digest)
  {
    exists x :: x in inputs && h(x) == d
  }

  // Equal hashes of two hashed strings: the strings are equal or they collide.
  lemma {:induction false} EqualOrCollides(h: Hash, inputs: set<Bytes>, x: Bytes, y: Bytes)
    requires x in inputs && y in inputs && h(x) == h(y)
    ensures x == y || Collides(h, inputs)
  {
  }

  function SaturatingAdd(a: U64, b: U64): (r: U64)
    ensures r == U64_MAX || r == a + b
    ensures a <= r && b <= r
  {
    if a + b > U64_MAX then U64_MAX else a + b
  }

  // Concatenations that agree and whose heads have equal length agree piecewise.
  lemma {:induction false} ConcatSplit<T>(a: seq<T>, b: seq<T>, c: seq<T>, d: seq<T>)
    requires a + b == c + d && |a| == |c|
    ensures a == c && b == d
  {
    assert a == (a + b)[..|a|] && c == (c + d)[..|c|];
    assert b == (a + b)[|a|..] && d == (c + d)[|c|..];
  }

  // A separator that occurs in neither head marks the same place in both.
  lemma {:induction false} SplitAtFirst<T>(a: seq<T>, x: seq<T>, b: seq<T>, y: seq<T>, sep: T)
    requires a + [sep] + x == b + [sep] + y
    requires sep !in a && sep !in b
    ensures a == b && x == y
  {
    var s := a + [sep] + x;
    assert s == b + [sep] + y;
    assert forall i :: 0 <= i < |a| ==> s[i] == a[i];
    assert forall i :: 0 <= i < |b| ==> s[i] == b[i];
    assert s[|a|] == sep && s[|b|] == sep;
    assert |a| == |b|;
    ConcatSplit(a + [sep], x, b + [sep], y);
    ConcatSplit(a, [sep], b, [sep]);
  }

  // The same from the right: the separator occurs in neither tail.
  lemma {:induction false} SplitAtLast<T>(a: seq<T>, x: seq<T>, b: seq<T>, y: seq<T>, sep: T)
    requires a + [sep] + x == b + [sep] + y
    requires sep !in x && sep !in y
    ensures a == b && x == y
  {
    var s := a + [sep] + x;
    assert s == b + [sep] + y;
    assert forall i :: |a| < i < |s| ==> s[i] == x[i - |a| - 1];
    assert forall i :: |b| < i < |s| ==> s[i] == y[i - |b| - 1];
    assert s[|a|] == sep && s[|b|] == sep;
    assert |a| == |b|;
    ConcatSplit(a + [sep], x, b + [sep], y);
    ConcatSplit(a, [sep], b, [sep]);
  }
}
