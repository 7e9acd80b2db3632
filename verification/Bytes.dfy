/** Machine integers, little-endian words and in-place byte edits, as the linker uses them.
    Go's `int`, `uintptr` and `uint32` wrap, so every wrap-around is written out here. */
module Bytes {
  type byte = x: int | 0 <= x < 256

  const HALF: nat := 4  // bytes in a 32-bit word
  const WORD: nat := 8  // bytes in a 64-bit word (`PtrSize`)

  const TWO_31 := 0x8000_0000
  const TWO_32 := 0x1_0000_0000
  const TWO_63 := 0x8000_0000_0000_0000
  const TWO_64 := 0x1_0000_0000_0000_0000

  /** Conversion to `uint32`. */
  function U32(x: int): (r: nat)
    ensures r < TWO_32
  {
    x % TWO_32
  }

  /** Conversion to `uint64` / `uintptr`. */
  function U64(x: int): (r: nat)
    ensures r < TWO_64
  {
    x % TWO_64
  }

  /** Conversion to `int32`. */
  function S32(x: int): (r: int)
    ensures -TWO_31 <= r < TWO_31
  {
    if x % TWO_32 < TWO_31 then x % TWO_32 else x % TWO_32 - TWO_32
  }

  /** Conversion to `int64`. */
  function S64(x: int): (r: int)
    ensures -TWO_63 <= r < TWO_63
  {
    if x % TWO_64 < TWO_63 then x % TWO_64 else x % TWO_64 - TWO_64
  }

  /** Adding a wrapped difference lands where the unwrapped one would. */
  lemma WrapSum(x: int, y: int)
    ensures U64(x + S64(y)) == U64(x + y)
    ensures U64(x + U64(y)) == U64(x + y)
  {
    ModShift(x + y % TWO_64, y / TWO_64);
    ModShift(x + y % TWO_64, -1);
    assert y == y % TWO_64 + TWO_64 * (y / TWO_64);
  }

  lemma ModShift(x: int, k: int)
    ensures (x + TWO_64 * k) % TWO_64 == x % TWO_64
  {
  }

  lemma InRange(x: int)
    requires 0 <= x < TWO_64
    ensures U64(x) == x
  {
  }

  lemma InWord(x: int)
    requires 0 <= x < TWO_32
    ensures U32(x) == x
  {
  }

  lemma SignedWord(d: int)
    requires -TWO_31 <= d < TWO_31
    ensures S32(U32(d)) == d
  {
  }

  // ----- little-endian encodings -----

  function Pow256(n: nat): (r: nat)
    ensures r >= 1
  {
    if n == 0 then 1 else 256 * Pow256(n - 1)
  }

  /** The `n` low bytes of `u`, least significant first. */
  function LE(u: nat, n: nat): (r: seq<byte>)
    ensures |r| == n
    decreases n
  {
    if n == 0 then [] else [u % 256] + LE(u / 256, n - 1)
  }

  /** The number that little-endian bytes denote. */
  function Val(b: seq<byte>): nat {
    if b == [] then 0 else b[0] + 256 * Val(b[1..])
  }

  /** `PutUint32(b, uint32(v))` writes these bytes. */
  function LE32(v: int): (r: seq<byte>) ensures |r| == 4 { LE(U32(v), HALF) }

  /** `PutUint64(b, uint64(v))` writes these bytes. */
  function LE64(v: int): (r: seq<byte>) ensures |r| == 8 { LE(U64(v), WORD) }

  /** `Uint32(b[i:])`. */
  function Get32(b: seq<byte>, i: nat): nat
    requires i + 4 <= |b|
  {
    Val(b[i..i + 4])
  }

  lemma {:induction false} ValBound(b: seq<byte>)
    ensures Val(b) < Pow256(|b|)
  {
    if b != [] {
      ValBound(b[1..]);
    }
  }

  /** Decoding an encoded number that fits gives the number back. */
  lemma {:induction false} ValLE(u: nat, n: nat)
    requires u < Pow256(n)
    ensures Val(LE(u, n)) == u
  {
    if n > 0 {
      assert LE(u, n)[1..] == LE(u / 256, n - 1);
      ValLE(u / 256, n - 1);
    }
  }

  /** Encoding a decoded word gives its bytes back. */
  lemma {:induction false} LEVal(b: seq<byte>)
    ensures LE(Val(b), |b|) == b
  {
    if b != [] {
      LEVal(b[1..]);
      assert b == [b[0]] + b[1..];
      var u := Val(b);
      assert u % 256 == b[0] && u / 256 == Val(b[1..]);
    }
  }

  lemma ValLE32(v: int)
    ensures Val(LE32(v)) == U32(v)
  {
    assert Pow256(4) == TWO_32;
    ValLE(U32(v), HALF);
  }

  lemma ValLE64(v: int)
    ensures Val(LE64(v)) == U64(v)
  {
    assert Pow256(8) == TWO_64;
    ValLE(U64(v), WORD);
  }

  // ----- in-place edits -----

  /** The bytes after `copy(b[off:], src)`, which stays inside `b`. */
  function Splice(b: seq<byte>, off: nat, src: seq<byte>): (r: seq<byte>)
    requires off + |src| <= |b|
    ensures |r| == |b|
    decreases |src|
  {
    if src == [] then b else Splice(b[off := src[0]], off + 1, src[1..])
  }

  /** The byte at `i` after an edit. */
  lemma {:induction false} SpliceIndex(b: seq<byte>, off: nat, src: seq<byte>, i: nat)
    requires off + |src| <= |b| && i < |b|
    ensures Splice(b, off, src)[i] == if off <= i < off + |src| then src[i - off] else b[i]
    decreases |src|
  {
    if src != [] {
      SpliceIndex(b[off := src[0]], off + 1, src[1..], i);
    }
  }

  lemma SpliceAt(b: seq<byte>, off: nat, src: seq<byte>)
    requires off + |src| <= |b|
    ensures forall i :: 0 <= i < |b| ==>
      Splice(b, off, src)[i] == if off <= i < off + |src| then src[i - off] else b[i]
  {
    forall i | 0 <= i < |b|
      ensures Splice(b, off, src)[i] == if off <= i < off + |src| then src[i - off] else b[i]
    {
      SpliceIndex(b, off, src, i);
    }
  }

  /** The edited region holds what was written. */
  lemma SpliceRegion(b: seq<byte>, off: nat, src: seq<byte>)
    requires off + |src| <= |b|
    ensures Splice(b, off, src)[off..off + |src|] == src
  {
    SpliceAt(b, off, src);
  }

  /** Writing what is already there. */
  lemma SpliceSame(b: seq<byte>, off: nat, src: seq<byte>)
    requires off + |src| <= |b| && b[off..off + |src|] == src
    ensures Splice(b, off, src) == b
  {
    SpliceAt(b, off, src);
    forall i | 0 <= i < |b| ensures Splice(b, off, src)[i] == b[i] {
      if off <= i < off + |src| {
        assert src[i - off] == b[off..off + |src|][i - off];
      }
    }
  }

  lemma SpliceSlices(b: seq<byte>, off: nat, src: seq<byte>)
    requires off + |src| <= |b|
    ensures Splice(b, off, src) == b[..off] + src + b[off + |src|..]
  {
    SpliceAt(b, off, src);
  }

  /** What lies before an edit is unchanged. */
  lemma SpliceBefore(b: seq<byte>, off: nat, src: seq<byte>, lo: nat, hi: nat)
    requires lo <= hi <= off && off + |src| <= |b|
    ensures Splice(b, off, src)[lo..hi] == b[lo..hi]
  {
    SpliceAt(b, off, src);
  }

  /** An edit that runs to the end. */
  lemma SpliceTail(b: seq<byte>, off: nat, src: seq<byte>)
    requires off + |src| == |b|
    ensures Splice(b, off, src) == b[..off] + src
  {
    SpliceAt(b, off, src);
  }

  /** An edit inside a region just written edits the written bytes. */
  lemma SpliceWithin(b: seq<byte>, off: nat, outer: seq<byte>, k: nat, inner: seq<byte>)
    requires off + |outer| <= |b| && k + |inner| <= |outer|
    ensures Splice(Splice(b, off, outer), off + k, inner) == Splice(b, off, Splice(outer, k, inner))
  {
    SpliceAt(b, off, outer);
    SpliceAt(Splice(b, off, outer), off + k, inner);
    SpliceAt(outer, k, inner);
    SpliceAt(b, off, Splice(outer, k, inner));
  }

  /** Two adjacent edits are one longer edit. */
  lemma SpliceAppend(b: seq<byte>, off: nat, s1: seq<byte>, s2: seq<byte>)
    requires off + |s1| + |s2| <= |b|
    ensures Splice(Splice(b, off, s1), off + |s1|, s2) == Splice(b, off, s1 + s2)
  {
    SpliceAt(b, off, s1);
    SpliceAt(Splice(b, off, s1), off + |s1|, s2);
    SpliceAt(b, off, s1 + s2);
  }

  lemma AppendThree(b: seq<byte>, off: nat, s1: seq<byte>, s2: seq<byte>, s3: seq<byte>)
    requires off + |s1| + |s2| + |s3| <= |b|
    ensures Splice(Splice(Splice(b, off, s1), off + |s1|, s2), off + |s1| + |s2|, s3)
         == Splice(b, off, s1 + s2 + s3)
  {
    SpliceAppend(b, off, s1, s2);
    SpliceAppend(b, off, s1 + s2, s3);
  }

  /** Both of two edits can be read back when the second lies behind the first; so can the
      byte before them. */
  lemma SplicePair(b: seq<byte>, o1: nat, s1: seq<byte>, o2: nat, s2: seq<byte>)
    requires 1 <= o1 && o1 + |s1| <= o2 && o2 + |s2| <= |b|
    ensures var r := Splice(Splice(b, o1, s1), o2, s2);
      && r[o1 - 1..o1 + |s1|] == [b[o1 - 1]] + s1
      && r[o2..o2 + |s2|] == s2
  {
    SpliceAt(b, o1, s1);
    SpliceAt(Splice(b, o1, s1), o2, s2);
  }

  lemma SpliceApart(b: seq<byte>, o1: nat, s1: seq<byte>, o2: nat, s2: seq<byte>)
    requires o1 + |s1| <= o2 && o2 + |s2| <= |b|
    ensures var r := Splice(Splice(b, o1, s1), o2, s2);
      r[o1..o1 + |s1|] == s1 && r[o2..o2 + |s2|] == s2
  {
    SpliceAt(b, o1, s1);
    SpliceAt(Splice(b, o1, s1), o2, s2);
  }

  /** Edits of disjoint regions commute. */
  lemma SpliceCommute(b: seq<byte>, o1: nat, s1: seq<byte>, o2: nat, s2: seq<byte>)
    requires o1 + |s1| <= o2 && o2 + |s2| <= |b|
    ensures Splice(Splice(b, o1, s1), o2, s2) == Splice(Splice(b, o2, s2), o1, s1)
  {
    SpliceAt(b, o1, s1);
    SpliceAt(Splice(b, o1, s1), o2, s2);
    SpliceAt(b, o2, s2);
    SpliceAt(Splice(b, o2, s2), o1, s1);
  }

  /** Go's `copy(a[off:], src)`. */
  method CopyInto(a: array<byte>, off: nat, src: seq<byte>)
    requires off + |src| <= a.Length
    modifies a
    ensures a[..] == Splice(old(a[..]), off, src)
  {
    var i := 0;
    while i < |src|
      invariant 0 <= i <= |src|
      invariant Splice(a[..], off + i, src[i..]) == Splice(old(a[..]), off, src)
    {
      ghost var before := a[..];
      a[off + i] := src[i];
      assert a[..] == before[off + i := src[i]] && src[i..][1..] == src[i + 1..];
      i := i + 1;
    }
  }

  /** Go's `a[i] = v`. */
  method PutByte(a: array<byte>, i: nat, v: byte)
    requires i < a.Length
    modifies a
    ensures a[..] == Splice(old(a[..]), i, [v])
  {
    a[i] := v;
    assert a[..] == old(a[..])[i := v];
  }

  // ----- bitwise or -----

  function Pow2(k: nat): (r: nat)
    ensures r >= 1
  {
    if k == 0 then 1 else 2 * Pow2(k - 1)
  }

  /** Bitwise `|` of two naturals. */
  function Or(a: nat, b: nat): nat
    decreases a + b
  {
    if a == 0 && b == 0 then 0
    else (if a % 2 == 1 || b % 2 == 1 then 1 else 0) + 2 * Or(a / 2, b / 2)
  }

  lemma {:induction false} OrZero(a: nat)
    ensures Or(a, 0) == a && Or(0, a) == a
  {
    if a > 0 {
      OrZero(a / 2);
    }
  }

  /** `|` of a value below a clear field of `width` bits is addition. */
  lemma {:induction false} OrLowField(w: nat, v: nat, width: nat)
    requires w % Pow2(width) == 0 && v < Pow2(width)
    ensures Or(w, v) == w + v
    decreases width
  {
    if width == 0 {
      OrZero(w);
    } else {
      EvenPart(w, Pow2(width - 1));
      OrLowField(w / 2, v / 2, width - 1);
    }
  }

  lemma EvenPart(w: nat, p: nat)
    requires p >= 1 && w % (2 * p) == 0
    ensures w % 2 == 0 && (w / 2) % p == 0
  {
    var q := w / (2 * p);
    assert w == 2 * (p * q);
    assert w / 2 == p * q;
    MulMod(p, q);
  }

  lemma MulMod(p: nat, q: nat)
    requires p >= 1
    ensures (p * q) % p == 0
  {
    assert p * q == q * p;
    ModMultiple(q, p);
  }

  lemma {:induction false} ModMultiple(q: nat, p: nat)
    requires p >= 1
    ensures (q * p) % p == 0
  {
    if q > 0 {
      ModMultiple(q - 1, p);
      assert q * p == (q - 1) * p + p;
      AddModulus((q - 1) * p, p);
    }
  }

  lemma AddModulus(x: nat, p: nat)
    requires p >= 1
    ensures (x + p) % p == x % p
  {
    var q, r := x / p, x % p;
    assert x + p == (q + 1) * p + r;
    QuotientUnique(x + p, p, q + 1, r);
  }

  lemma QuotientUnique(x: nat, p: nat, q: nat, r: nat)
    requires p >= 1 && r < p && x == q * p + r
    ensures x / p == q && x % p == r
  {
    SameQuotient(p, x / p, x % p, q, r);
  }

  lemma SameQuotient(p: nat, q: nat, r: nat, q': nat, r': nat)
    requires r < p && r' < p && q * p + r == q' * p + r'
    ensures q == q' && r == r'
  {
    if q < q' {
      assert (q' - q) * p == q' * p - q * p;
      AtLeast(q' - q, p);
    } else if q' < q {
      assert (q - q') * p == q * p - q' * p;
      AtLeast(q - q', p);
    }
  }

  lemma AtLeast(d: nat, p: nat)
    requires d >= 1
    ensures d * p >= p
  {
    assert d * p == (d - 1) * p + p;
  }

  /** `|` into a clear field starting at bit `k` is addition. */
  lemma {:induction false} OrField(w: nat, v: nat, k: nat, width: nat)
    requires (w / Pow2(k)) % Pow2(width) == 0 && v < Pow2(width)
    ensures Or(w, v * Pow2(k)) == w + v * Pow2(k)
    decreases k
  {
    if k == 0 {
      OrLowField(w, v, width);
    } else {
      var p := Pow2(k - 1);
      HalfQuotient(w, p);
      OrField(w / 2, v, k - 1, width);
      assert v * Pow2(k) == 2 * (v * p);
      OrHalves(w, v * p);
    }
  }

  lemma HalfQuotient(w: nat, p: nat)
    requires p >= 1
    ensures w / (2 * p) == (w / 2) / p
  {
    var q, r := (w / 2) / p, (w / 2) % p;
    assert w / 2 == q * p + r;
    assert w == q * (2 * p) + (2 * r + w % 2);
    QuotientUnique(w, 2 * p, q, 2 * r + w % 2);
  }

  lemma OrHalves(w: nat, u: nat)
    ensures Or(w, 2 * u) == w % 2 + 2 * Or(w / 2, u)
  {
    if w == 0 && u == 0 {
    } else {
      assert (2 * u) % 2 == 0 && (2 * u) / 2 == u;
    }
  }

  /** `|` works on the bits from `k` on and on the bits below separately. */
  lemma {:induction false} OrParts(a1: nat, a0: nat, b1: nat, b0: nat, k: nat)
    requires a0 < Pow2(k) && b0 < Pow2(k)
    ensures Or(a1 * Pow2(k) + a0, b1 * Pow2(k) + b0) == Or(a1, b1) * Pow2(k) + Or(a0, b0)
    decreases k
  {
    hide Or;
    if k == 0 {
      OrZero(0);
    } else {
      var p := Pow2(k - 1);
      OrParts(a1, a0 / 2, b1, b0 / 2, k - 1);
      Double(a1, p);
      Double(b1, p);
      Double(Or(a1, b1), p);
      OrStep(a1 * p + a0 / 2, a0 % 2, b1 * p + b0 / 2, b0 % 2);
      OrStep(a0 / 2, a0 % 2, b0 / 2, b0 % 2);
    }
  }

  lemma Double(a: nat, p: nat)
    ensures a * (2 * p) == 2 * (a * p)
  {
  }

  lemma OrStep(a: nat, x: nat, b: nat, y: nat)
    requires x < 2 && y < 2
    ensures Or(2 * a + x, 2 * b + y) == 2 * Or(a, b) + (if x == 1 || y == 1 then 1 else 0)
  {
    if a == 0 && x == 0 && b == 0 && y == 0 {
    } else {
      assert (2 * a + x) % 2 == x && (2 * a + x) / 2 == a;
      assert (2 * b + y) % 2 == y && (2 * b + y) / 2 == b;
    }
  }

  /** What was read as two parts in a row is each of them. */
  lemma TwoParts(code: seq<byte>, k: nat, a: seq<byte>, b: seq<byte>)
    requires k + |a + b| <= |code| && code[k..k + |a + b|] == a + b
    ensures code[k..k + |a|] == a && code[k + |a|..k + |a| + |b|] == b
  {
    var whole := code[k..k + |a + b|];
    assert whole[..|a|] == a && whole[|a|..] == b;
    assert code[k..k + |a|] == whole[..|a|];
    assert code[k + |a|..k + |a| + |b|] == whole[|a|..];
  }

  /** `alignof(i, 8)` for i >= 0. */
  function Align8(i: nat): (r: nat)
    ensures i <= r < i + 8 && r % 8 == 0
  {
    if i % 8 != 0 then i + (8 - i % 8) else i
  }
}
