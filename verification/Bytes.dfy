/** Fixed-width integers, byte texts, and little-endian images. */
module Bytes {
  type Byte = x: int | 0 <= x < 0x100
  type uint16 = x: int | 0 <= x < 0x1_0000
  type uint32 = x: int | 0 <= x < 0x1_0000_0000
  type int32 = x: int | -0x8000_0000 <= x < 0x8000_0000

  // A std::string: bytes, NUL included.
  type Text = seq<Byte>

  function AsBytes(s: string): (t: Text)
    ensures |t| == |s|
  {
    seq(|s|, i requires 0 <= i < |s| => s[i] as int % 0x100)
  }

  function Le16(x: uint16): (b: Text)
    ensures |b| == 2 && FromLe16(b) == x
  {
    [x % 0x100, x / 0x100]
  }

  function FromLe16(b: Text): (x: uint16)
    requires |b| == 2
  {
    (b[0] as int) + 0x100 * (b[1] as int)
  }

  lemma FromLe16Injective(b: Text)
    requires |b| == 2
    ensures Le16(FromLe16(b)) == b
  {
  }

  function Le32(x: uint32): (b: Text)
    ensures |b| == 4
  {
    Le16(x % 0x1_0000) + Le16(x / 0x1_0000)
  }

  function FromLe32(b: Text): uint32
    requires |b| == 4
  {
    (FromLe16(b[..2]) as int) + 0x1_0000 * (FromLe16(b[2..]) as int)
  }

  lemma Le32RoundTrip(x: uint32)
    ensures FromLe32(Le32(x)) == x
  {
    assert Le32(x)[..2] == Le16(x % 0x1_0000) && Le32(x)[2..] == Le16(x / 0x1_0000);
  }

  lemma Halves(lo: uint16, hi: uint16)
    ensures (lo + 0x1_0000 * hi) % 0x1_0000 == lo && (lo + 0x1_0000 * hi) / 0x1_0000 == hi
  {
  }

  lemma Le32OfWord(b: Text)
    requires |b| == 4
    ensures Le32(FromLe32(b)) == b
  {
    hide Le16, FromLe16;
    Halves(FromLe16(b[..2]), FromLe16(b[2..]));
    FromLe16Injective(b[..2]);
    FromLe16Injective(b[2..]);
    assert b == b[..2] + b[2..];
  }

  // The word that stands at a position.
  function Word(b: Text, at: nat): uint32
    requires at + 4 <= |b|
  {
    FromLe32(b[at..at + 4])
  }

  /** The word at a position, from its four bytes, lowest first. */
  lemma WordBytes(b: Text, at: nat)
    requires at + 4 <= |b|
    ensures Word(b, at) as int
            == b[at] as int + 0x100 * b[at + 1] as int + 0x1_0000 * b[at + 2] as int + 0x100_0000 * b[at + 3] as int
  {
    var w := b[at..at + 4];
    assert w[..2] == [b[at], b[at + 1]] && w[2..] == [b[at + 2], b[at + 3]];
  }

  // The bit pattern of an int32 read as a uint32, and back.
  function Unsigned(x: int32): uint32 { if x < 0 then x + 0x1_0000_0000 else x }

  function Signed(x: uint32): (y: int32)
    ensures Unsigned(y) == x
  {
    if x >= 0x8000_0000 then x - 0x1_0000_0000 else x
  }

  function I32(x: int32): (b: Text)
    ensures |b| == 4
  {
    Le32(Unsigned(x))
  }

  lemma I32RoundTrip(x: int32)
    ensures Signed(FromLe32(I32(x))) == x
  {
    Le32RoundTrip(Unsigned(x));
  }

  // The bytes of piece stand in b from position at on.
  predicate Holds(b: Text, at: nat, piece: Text) {
    at + |piece| <= |b| && b[at..at + |piece|] == piece
  }

  lemma WordIs(b: Text, at: nat, x: uint32)
    requires Holds(b, at, Le32(x))
    ensures at + 4 <= |b| && Word(b, at) == x
  {
    Le32RoundTrip(x);
  }

  lemma SignedWordIs(b: Text, at: nat, x: int32)
    requires Holds(b, at, I32(x))
    ensures at + 4 <= |b| && Signed(Word(b, at)) == x
  {
    WordIs(b, at, Unsigned(x));
  }

  lemma HoldsBoth(b: Text, at: nat, p: Text, q: Text)
    ensures Holds(b, at, p + q) <==> Holds(b, at, p) && Holds(b, at + |p|, q)
  {
    if at + |p| + |q| <= |b| {
      var s := b[at..at + |p| + |q|];
      assert s == b[at..at + |p|] + b[at + |p|..at + |p| + |q|];
      if s == p + q {
        assert b[at..at + |p|] == s[..|p|] && b[at + |p|..at + |p| + |q|] == s[|p|..];
      }
    }
  }

  function U32(n: nat): uint32 { n % 0x1_0000_0000 }

  lemma U32Sum(a: nat, b: nat)
    ensures U32(U32(a) + b) == U32(a + b)
  {
  }

  // The first n pieces one after the other, and the sum of the first n sizes.
  function Concat(pieces: seq<Text>, n: nat): Text
    requires n <= |pieces|
  {
    if n == 0 then [] else Concat(pieces, n - 1) + pieces[n - 1]
  }

  function Sum(sizes: seq<nat>, n: nat): nat
    requires n <= |sizes|
  {
    if n == 0 then 0 else Sum(sizes, n - 1) + sizes[n - 1]
  }

  lemma {:induction false} ConcatSize(pieces: seq<Text>, sizes: seq<nat>, n: nat)
    requires n <= |pieces| == |sizes| && forall i :: 0 <= i < |pieces| ==> |pieces[i]| == sizes[i]
    ensures |Concat(pieces, n)| == Sum(sizes, n)
  {
    if n > 0 { ConcatSize(pieces, sizes, n - 1); }
  }

  lemma {:induction false} SumMonotone(sizes: seq<nat>, m: nat, n: nat)
    requires m <= n <= |sizes|
    ensures Sum(sizes, m) <= Sum(sizes, n)
    ensures m < n ==> Sum(sizes, m) + sizes[m] <= Sum(sizes, n)
  {
    if m < n { SumMonotone(sizes, m, n - 1); }
  }

  /** Where the first n pieces stand, each of them stands behind those before it. */
  lemma {:induction false} ConcatHolds(b: Text, at: nat, pieces: seq<Text>, n: nat, i: nat)
    requires i < n <= |pieces| && Holds(b, at, Concat(pieces, n))
    ensures Holds(b, at + |Concat(pieces, i)|, pieces[i])
    decreases n
  {
    HoldsBoth(b, at, Concat(pieces, n - 1), pieces[n - 1]);
    hide Holds;
    if i < n - 1 { ConcatHolds(b, at, pieces, n - 1, i); }
  }

  lemma Associate<T>(a: seq<T>, b: seq<T>, c: seq<T>)
    ensures (a + b) + c == a + (b + c)
  {
  }

  lemma AssociateFour<T>(a: seq<T>, b: seq<T>, c: seq<T>, d: seq<T>)
    ensures ((a + b) + c) + d == a + (b + (c + d))
  {
  }

  lemma HoldsFour(b: Text, at: nat, p: Text, q: Text, r: Text, s: Text)
    requires Holds(b, at, p + (q + (r + s)))
    ensures Holds(b, at, p) && Holds(b, at + |p|, q)
    ensures Holds(b, at + |p| + |q|, r) && Holds(b, at + |p| + |q| + |r|, s)
  {
    HoldsBoth(b, at, p, q + (r + s));
    HoldsBoth(b, at + |p|, q, r + s);
    HoldsBoth(b, at + |p| + |q|, r, s);
  }

  lemma HoldsWhole(b: Text)
    ensures Holds(b, 0, b)
  {
  }
}
