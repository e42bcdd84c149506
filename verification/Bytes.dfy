/**
 Bytes, big-endian numbers, padding, and pieces of a byte sequence.
 */
module Bytes {
  type Byte = b: int | 0 <= b < 256
  type Bytes = seq<Byte>

  type U32 = x: int | 0 <= x < 0x1_0000_0000
  type U64 = x: int | 0 <= x < 0x1_0000_0000_0000_0000

  /** Conversion to `uint32`. */
  function Wrap(x: nat): U32 {
    x % 0x1_0000_0000
  }

  /** Conversions in between do not change a sum. */
  lemma WrapSum(x: nat, y: nat)
    ensures Wrap(Wrap(x) + y) == Wrap(x + y) && Wrap(x + Wrap(y)) == Wrap(x + y) && Wrap(Wrap(x)) == Wrap(x)
  {
    var m := 0x1_0000_0000;
    var p, q := x / m, y / m;
    assert x == p * m + Wrap(x) && y == q * m + Wrap(y);
    WrapShift(Wrap(x) + y, p);
    WrapShift(x + Wrap(y), q);
    hide Wrap;
  }

  lemma WrapShift(x: nat, k: nat)
    ensures Wrap(k * 0x1_0000_0000 + x) == Wrap(x) && Wrap(Wrap(x)) == Wrap(x)
  {
  }

  lemma WrapExact(x: nat)
    ensures Wrap(x) == x <==> x < 0x1_0000_0000
  {
  }

  function Zeros(n: nat): Bytes {
    seq(n, i => 0)
  }

  // ----- alignment

  /** The operator `&^` of Go: the bits of x that are not set in mask. */
  function AndNot(x: nat, mask: nat): nat {
    if x == 0 then 0 else 2 * AndNot(x / 2, mask / 2) + (if x % 2 == 1 && mask % 2 == 0 then 1 else 0)
  }

  /** `align.Up`. */
  function Up(v: nat, a: nat): nat
    requires a > 0
  {
    AndNot(v + (a - 1), a - 1)
  }

  predicate IsPowerOfTwo(a: nat) {
    a == 1 || (a > 1 && a % 2 == 0 && IsPowerOfTwo(a / 2))
  }

  /** The least multiple of a from v on. */
  predicate IsLeastMultiple(r: nat, v: nat, a: nat)
    requires a > 0
  {
    v <= r < v + a && r % a == 0
  }

  lemma {:induction false} AndNotNothing(x: nat)
    ensures AndNot(x, 0) == x && AndNot(x, x) == 0
  {
    if x > 0 {
      AndNotNothing(x / 2);
    }
  }

  lemma MulBound(d: int, a: nat)
    ensures d >= 1 ==> d * a >= a
    ensures d <= -1 ==> d * a <= 0 - a
  {
  }

  lemma ModUnique(x: nat, a: nat, q: nat, r: nat)
    requires x == q * a + r && r < a
    ensures x % a == r
  {
    var d := x / a - q;
    assert d * a == r - x % a;
    MulBound(d, a);
  }

  /** A mask below a power of two clears the remainder. */
  lemma {:induction false} MaskClears(x: nat, a: nat)
    requires IsPowerOfTwo(a)
    ensures AndNot(x, a - 1) == x - x % a
  {
    if a == 1 {
      AndNotNothing(x);
    } else {
      var h, b := x / 2, a / 2;
      MaskClears(h, b);
      assert (a - 1) / 2 == b - 1;
      MulTwice(h, b);
      ModUnique(x, a, h / b, 2 * (h % b) + x % 2);
    }
  }

  lemma MulTwice(h: nat, b: nat)
    requires b > 0
    ensures 2 * h == (h / b) * (2 * b) + 2 * (h % b)
  {
    assert h == (h / b) * b + h % b;
  }

  /** The lowest bit that is set. */
  function LowBit(a: nat): (r: nat)
    requires a > 0
    ensures r == a <==> IsPowerOfTwo(a)
  {
    if a % 2 == 1 then 1 else 2 * LowBit(a / 2)
  }

  lemma {:induction false} MaskOfItself(a: nat)
    requires a > 0
    ensures AndNot(a, a - 1) == LowBit(a)
  {
    if a % 2 == 1 {
      AndNotNothing(a / 2);
    } else {
      MaskOfItself(a / 2);
      assert (a - 1) / 2 == a / 2 - 1;
    }
  }

  /** `align.Up` gives the next multiple for every value exactly when it is asked for a power of two. */
  lemma UpExact(a: nat)
    requires a > 0
    ensures (forall v: nat :: IsLeastMultiple(Up(v, a), v, a)) <==> IsPowerOfTwo(a)
  {
    if IsPowerOfTwo(a) {
      forall v: nat ensures IsLeastMultiple(Up(v, a), v, a) {
        UpIsLeast(v, a);
      }
    } else {
      MaskOfItself(a);
      LowBitIsLess(a);
      ModUnique(LowBit(a), a, 0, LowBit(a));
      assert !IsLeastMultiple(Up(1, a), 1, a);
    }
  }

  lemma RemainderOff(x: nat, a: nat)
    requires a > 0
    ensures x - a < x - x % a <= x && (x - x % a) % a == 0
  {
    ModUnique(x - x % a, a, x / a, 0);
  }

  lemma UpIsLeast(v: nat, a: nat)
    requires IsPowerOfTwo(a)
    ensures IsLeastMultiple(Up(v, a), v, a)
  {
    MaskClears(v + (a - 1), a);
    hide AndNot, IsPowerOfTwo;
    RemainderOff(v + (a - 1), a);
  }

  lemma {:induction false} LowBitIsLess(a: nat)
    requires a > 0 && !IsPowerOfTwo(a)
    ensures 0 < LowBit(a) < a
  {
    if a % 2 == 0 {
      LowBitIsLess(a / 2);
    }
  }

  /** The next multiple of four. */
  function Up4(v: nat): (r: nat)
    ensures v <= r < v + 4 && Aligned(r)
  {
    v + (4 - v % 4) % 4
  }

  /** This is what masking gives in `align.Up` with four, and in `round4` of the archives. */
  lemma Up4IsMasked(v: nat)
    ensures Up4(v) == Up(v, 4) == AndNot(v + 3, 3)
  {
    UpIsLeast(v, 4);
    NextIsUnique(v, Up(v, 4));
    hide AndNot;
  }

  lemma NextIsUnique(v: nat, r: nat)
    requires IsLeastMultiple(r, v, 4)
    ensures r == Up4(v)
  {
    var q, q' := r / 4, Up4(v) / 4;
    assert r == 4 * q && Up4(v) == 4 * q';
  }

  /** A multiple of four. */
  predicate Aligned(v: nat) {
    v % 4 == 0
  }

  lemma UpAfter(before: nat, n: nat)
    requires Aligned(before)
    ensures Up4(before + n) == before + Up4(n)
  {
  }

  lemma AlignedHeads(v: nat)
    ensures Aligned(4) && Aligned(48) && Aligned(8 + Up4(v)) && Aligned(12 + Up4(v)) && Aligned(16 * v)
  {
  }

  lemma Up4Exact(v: nat)
    requires Aligned(v)
    ensures Up4(v) == v
  {
  }

  lemma AlignedSum(x: nat, y: nat)
    requires Aligned(x)
    ensures Aligned(y) <==> Aligned(x + y)
  {
  }

  /** The bytes, with zeros up to the next multiple of four. */
  function Padded(s: Bytes): (r: Bytes)
    ensures |r| == Up4(|s|)
  {
    s + Zeros(Up4(|s|) - |s|)
  }

  // ----- big-endian numbers

  function Pow256(k: nat): nat {
    if k == 0 then 1 else 256 * Pow256(k - 1)
  }

  function BigEndian(k: nat, x: nat): (r: Bytes)
    ensures |r| == k
  {
    if k == 0 then [] else BigEndian(k - 1, x / 256) + [x % 256]
  }

  function Value(s: Bytes): nat {
    if s == [] then 0 else Value(s[..|s| - 1]) * 256 + s[|s| - 1]
  }

  lemma {:induction false} BigEndianValue(k: nat, x: nat)
    requires x < Pow256(k)
    ensures Value(BigEndian(k, x)) == x
  {
    if k > 0 {
      BigEndianValue(k - 1, x / 256);
      var s := BigEndian(k, x);
      assert s[..k - 1] == BigEndian(k - 1, x / 256);
    }
  }

  lemma {:induction false} ValueBound(s: Bytes)
    ensures Value(s) < Pow256(|s|)
  {
    if s != [] {
      ValueBound(s[..|s| - 1]);
    }
  }

  function Put32(x: U32): (r: Bytes)
    ensures |r| == 4
  {
    BigEndian(4, x)
  }

  function Put64(x: U64): (r: Bytes)
    ensures |r| == 8
  {
    BigEndian(8, x)
  }

  function Get32(s: Bytes, pos: nat): U32
    requires pos + 4 <= |s|
  {
    ValueBound(s[pos..pos + 4]);
    assert Pow256(4) == 0x1_0000_0000;
    Value(s[pos..pos + 4])
  }

  function Get64(s: Bytes, pos: nat): U64
    requires pos + 8 <= |s|
  {
    ValueBound(s[pos..pos + 8]);
    PowEight();
    Value(s[pos..pos + 8])
  }

  lemma PowEight()
    ensures Pow256(8) == 0x1_0000_0000_0000_0000
  {
    assert Pow256(4) == 0x1_0000_0000;
    assert Pow256(6) == 65536 * Pow256(4);
    assert Pow256(8) == 65536 * Pow256(6);
  }

  // ----- pieces

  /** The piece lies at a position of the bytes. */
  predicate At(s: Bytes, pos: nat, piece: Bytes) {
    pos + |piece| <= |s| && s[pos..pos + |piece|] == piece
  }

  lemma WholeAt(b: Bytes, x: Bytes, y: Bytes)
    requires b == x + y
    ensures At(b, 0, x) && At(b, |x|, y)
  {
  }

  lemma AtAppend(s: Bytes, pos: nat, x: Bytes, y: Bytes)
    ensures At(s, pos, x + y) <==> At(s, pos, x) && At(s, pos + |x|, y)
  {
    if pos + |x + y| <= |s| {
      var z := s[pos..pos + |x + y|];
      assert z[..|x|] == s[pos..pos + |x|] && z[|x|..] == s[pos + |x|..pos + |x| + |y|];
      assert (x + y)[..|x|] == x && (x + y)[|x|..] == y;
      assert z == z[..|x|] + z[|x|..];
    }
  }

  /** A piece of a piece. */
  lemma AtAt(s: Bytes, base: nat, t: Bytes, pos: nat, piece: Bytes)
    requires At(s, base, t) && At(t, pos, piece)
    ensures At(s, base + pos, piece)
  {
    forall i | 0 <= i < |piece| ensures s[base + pos + i] == piece[i] {
      assert s[base..base + |t|][pos + i] == s[base + pos + i];
      assert t[pos..pos + |piece|][i] == t[pos + i];
    }
  }

  lemma AtPut32(s: Bytes, pos: nat, x: U32)
    requires At(s, pos, Put32(x))
    ensures Get32(s, pos) == x
  {
    assert Pow256(4) == 0x1_0000_0000;
    BigEndianValue(4, x);
  }

  lemma {:induction false} ValueBigEndian(s: Bytes)
    ensures BigEndian(|s|, Value(s)) == s
  {
    if s != [] {
      var init, last := s[..|s| - 1], s[|s| - 1];
      ValueBigEndian(init);
      Quotient256(Value(init), last);
      assert s == init + [last];
    }
  }

  lemma Quotient256(q: nat, r: Byte)
    ensures (q * 256 + r) / 256 == q && (q * 256 + r) % 256 == r
  {
  }

  /** A number lies at a position exactly if it is read there. */
  lemma Put32Exact(s: Bytes, pos: nat, x: U32)
    ensures At(s, pos, Put32(x)) <==> pos + 4 <= |s| && Get32(s, pos) == x
  {
    if pos + 4 <= |s| {
      ValueBigEndian(s[pos..pos + 4]);
      if At(s, pos, Put32(x)) {
        AtPut32(s, pos, x);
      }
    }
  }

  lemma Put64Exact(s: Bytes, pos: nat, x: U64)
    ensures At(s, pos, Put64(x)) <==> pos + 8 <= |s| && Get64(s, pos) == x
  {
    if pos + 8 <= |s| {
      ValueBigEndian(s[pos..pos + 8]);
      if At(s, pos, Put64(x)) {
        AtPut64(s, pos, x);
      }
    }
  }

  /** A field behind others at the beginning. */
  lemma FieldReadBack(s: Bytes, before: Bytes, x: U32)
    requires At(s, 0, before + Put32(x))
    ensures At(s, 0, before) && |before| + 4 <= |s| && Get32(s, |before|) == x
  {
    AtAppend(s, 0, before, Put32(x));
    AtPut32(s, |before|, x);
  }

  lemma AtPut64(s: Bytes, pos: nat, x: U64)
    requires At(s, pos, Put64(x))
    ensures Get64(s, pos) == x
  {
    PowEight();
    BigEndianValue(8, x);
  }

  // ----- NUL-terminated strings

  /** The position of the first NUL from pos on, or the end of the bytes. */
  function NulFrom(s: Bytes, pos: nat): (r: nat)
    requires pos <= |s|
    ensures pos <= r <= |s| && (r < |s| ==> s[r] == 0) && forall i :: pos <= i < r ==> s[i] != 0
    decreases |s| - pos
  {
    if pos == |s| || s[pos] == 0 then pos else NulFrom(s, pos + 1)
  }

  /** What a NUL-terminated reading of the bytes gives. */
  function UpToNul(s: Bytes): Bytes {
    s[..NulFrom(s, 0)]
  }

  predicate NulFree(s: Bytes) {
    forall i :: 0 <= i < |s| ==> s[i] != 0
  }

  lemma NulIsUnique(s: Bytes, pos: nat, r: nat)
    requires pos <= r < |s| && s[r] == 0 && forall i :: pos <= i < r ==> s[i] != 0
    ensures NulFrom(s, pos) == r
  {
  }

  /** Reading the text with its terminator from a position of the bytes. */
  lemma NulAfter(s: Bytes, pos: nat, text: Bytes)
    requires At(s, pos, text + [0])
    ensures NulFrom(s, pos) == pos + |UpToNul(text)| < |s|
    ensures s[pos..NulFrom(s, pos)] == UpToNul(text)
  {
    var t := text + [0];
    var k := NulFrom(text, 0);
    assert forall i :: 0 <= i < |t| ==> s[pos + i] == s[pos..pos + |t|][i] == t[i];
    assert t[k] == 0;
    assert s[pos + k] == 0;
    forall i | pos <= i < pos + k ensures s[i] != 0 {
      assert s[i] == t[i - pos];
    }
    NulIsUnique(s, pos, pos + k);
    forall i | 0 <= i < k ensures s[pos + i] == text[i] {
      assert s[pos + i] == t[i];
    }
    assert s[pos..pos + k] == text[..k];
  }
}
