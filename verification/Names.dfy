/** reflectlite/reflectlite1.19/type.go: the byte form of type and field names, with their tag and
    flags.  A name is a pointer into memory, so readers see bytes that go on behind the name. */
module Names {
  import opened Bytes
  import opened Varint

  const MAX_LENGTH: nat := 0x2000_0000
  const EXPORTED: nat := 1
  const TAGGED: nat := 2
  const PATHED: nat := 4
  const EMBEDDED: nat := 8

  datatype Result = Ok(bytes: seq<byte>) | NameTooLong | TagTooLong

  function Flags(tag: seq<byte>, exported: bool, embedded: bool): (bits: byte) {
    (if exported then EXPORTED else 0) + (if |tag| > 0 then TAGGED else 0) + (if embedded then EMBEDDED else 0)
  }

  /** A length and the bytes it counts. */
  function Block(s: seq<byte>): seq<byte> { Uvarint(|s|) + s }

  function Encoded(n: seq<byte>, tag: seq<byte>, exported: bool, embedded: bool): seq<byte> {
    [Flags(tag, exported, embedded)] + Block(n) + (if |tag| > 0 then Block(tag) else [])
  }

  // ----- reading -----

  predicate HasFlag(b: seq<byte>, flag: nat)
    requires |b| > 0 && flag > 0
  {
    b[0] / flag % 2 == 1
  }

  /** A counted block starts at `off` and ends within `b`. */
  predicate BlockAt(b: seq<byte>, off: nat) {
    off <= |b|
    && var r := ReadUvarint(b, off);
       r.Number? && off + r.size + r.value <= |b|
  }

  function BlockText(b: seq<byte>, off: nat): seq<byte>
    requires BlockAt(b, off)
  {
    var r := ReadUvarint(b, off);
    b[off + r.size..off + r.size + r.value]
  }

  function BlockEnd(b: seq<byte>, off: nat): nat
    requires BlockAt(b, off)
  {
    var r := ReadUvarint(b, off);
    off + r.size + r.value
  }

  /** What a name in memory must look like for the readers to stay within it. */
  predicate WellFormed(b: seq<byte>) {
    |b| > 0 && BlockAt(b, 1) && (HasFlag(b, TAGGED) ==> BlockAt(b, BlockEnd(b, 1)))
  }

  method IsExported(b: seq<byte>) returns (r: bool)
    requires WellFormed(b)
    ensures r == HasFlag(b, EXPORTED)
    ensures r <==> b[0] % 2 == 1
  {
    r := b[0] % 2 != 0;
  }

  method Embedded(b: seq<byte>) returns (r: bool)
    requires WellFormed(b)
    ensures r == HasFlag(b, EMBEDDED)
    ensures r <==> b[0] / 8 % 2 == 1
  {
    r := b[0] / EMBEDDED % 2 != 0;
  }

  method Name(b: seq<byte>) returns (s: seq<byte>)
    requires WellFormed(b)
    ensures s == BlockText(b, 1)
  {
    var i, l := ReadVarint(b, 1);
    s := b[1 + i..1 + i + l];
  }

  method Tag(b: seq<byte>) returns (s: seq<byte>)
    requires WellFormed(b)
    ensures s == if HasFlag(b, TAGGED) then BlockText(b, BlockEnd(b, 1)) else []
    ensures b[0] / 2 % 2 == 0 ==> s == []
  {
    if b[0] / TAGGED % 2 == 0 {
      return [];
    }
    var i, l := ReadVarint(b, 1);
    var i2, l2 := ReadVarint(b, 1 + i + l);
    s := b[1 + i + l + i2..1 + i + l + i2 + l2];
  }

  // ----- writing -----

  lemma LengthFits(n: nat)
    requires n < MAX_LENGTH
    ensures |Uvarint(n)| <= 5
  {
    assert Pow128(5) == 0x80 * Pow128(4);
    assert Pow128(4) == 0x80 * Pow128(3);
    assert Pow128(3) == 0x80 * Pow128(2);
    UvarintSize(n, 5);
  }

  /** Two copies behind a part that is done extend it by both. */
  lemma TwoFills(b: seq<byte>, off: nat, s1: seq<byte>, s2: seq<byte>)
    requires off + |s1| + |s2| <= |b|
    ensures Splice(Splice(b, off, s1), off + |s1|, s2)[..off + |s1| + |s2|] == b[..off] + (s1 + s2)
  {
    hide *;
    SpliceAppend(b, off, s1, s2);
    SpliceSlices(b, off, s1 + s2);
  }

  /** `newName`: lengths go through two ten-byte buffers, then everything into one slice. */
  method NewName(n: seq<byte>, tag: seq<byte>, exported: bool, embedded: bool) returns (r: Result)
    ensures |n| >= MAX_LENGTH ==> r == NameTooLong
    ensures |n| < MAX_LENGTH <= |tag| ==> r == TagTooLong
    ensures |n| < MAX_LENGTH && |tag| < MAX_LENGTH ==> r == Ok(Encoded(n, tag, exported, embedded))
    ensures r.Ok? <==> |n| < 0x2000_0000 && |tag| < 0x2000_0000
    ensures r.Ok? ==>
      && r.bytes != []
      && r.bytes[0] == (if exported then 1 else 0) + (if tag != [] then 2 else 0) + (if embedded then 8 else 0)
  {
    hide Uvarint;
    if |n| >= MAX_LENGTH {
      return NameTooLong;
    }
    if |tag| >= MAX_LENGTH {
      return TagTooLong;
    }
    LengthFits(|n|);
    LengthFits(|tag|);
    var nameLen, tagLen := new byte[10], new byte[10];
    var nameLenLen := WriteVarint(nameLen, |n|);
    var tagLenLen := WriteVarint(tagLen, |tag|);

    var bits := 0;
    if exported {
      bits := bits + EXPORTED;
    }
    if |tag| > 0 {
      bits := bits + TAGGED;
    }
    if embedded {
      bits := bits + EMBEDDED;
    }
    var bytes := Assemble(bits, nameLen[..nameLenLen], n, tagLen[..tagLenLen], tag);
    r := Ok(bytes);
  }

  /** The slice of the new name, filled by copies one behind the other. */
  method Assemble(bits: byte, nameLen: seq<byte>, n: seq<byte>, tagLen: seq<byte>, tag: seq<byte>)
    returns (bytes: seq<byte>)
    ensures bytes == [bits] + (nameLen + n) + (if |tag| > 0 then tagLen + tag else [])
  {
    hide *;
    var l := 1 + |nameLen| + |n|;
    if |tag| > 0 {
      l := l + |tagLen| + |tag|;
    }
    var b := new byte[l];
    b[0] := bits;
    ghost var blank := b[..];
    TwoFills(blank, 1, nameLen, n);
    CopyInto(b, 1, nameLen);
    CopyInto(b, 1 + |nameLen|, n);
    ghost var named := b[..];
    if |tag| > 0 {
      TwoFills(named, 1 + |nameLen| + |n|, tagLen, tag);
      CopyInto(b, 1 + |nameLen| + |n|, tagLen);
      CopyInto(b, 1 + |nameLen| + |n| + |tagLen|, tag);
    }
    assert b[..] == b[..l];
    bytes := b[..];
  }

  // ----- round trip -----

  lemma BlockReadBack(before: seq<byte>, s: seq<byte>, after: seq<byte>)
    ensures var b := before + Block(s) + after;
            BlockAt(b, |before|) && BlockText(b, |before|) == s && BlockEnd(b, |before|) == |before + Block(s)|
  {
    hide Uvarint, ReadUvarint;
    var b := before + Block(s) + after;
    ReadBack(before, |s|, s + after);
    assert b == before + Uvarint(|s|) + (s + after);
    assert b[|before| + |Uvarint(|s|)|..|before| + |Uvarint(|s|)| + |s|] == s;
  }

  lemma FlagsReadBack(b: seq<byte>, tag: seq<byte>, exported: bool, embedded: bool)
    requires |b| > 0 && b[0] == Flags(tag, exported, embedded)
    ensures HasFlag(b, EXPORTED) == exported && HasFlag(b, EMBEDDED) == embedded
    ensures HasFlag(b, TAGGED) == (|tag| > 0) && !HasFlag(b, PATHED)
  {
  }

  /** For every name, tag and flags, whatever memory follows: the readers return what was written,
      and no package path is found (`pkgPath` returns the empty string when its flag is off). */
  lemma NameRoundTrip(n: seq<byte>, tag: seq<byte>, exported: bool, embedded: bool, after: seq<byte>)
    ensures var b := Encoded(n, tag, exported, embedded) + after;
            && WellFormed(b)
            && BlockText(b, 1) == n
            && (if HasFlag(b, TAGGED) then BlockText(b, BlockEnd(b, 1)) else []) == tag
            && HasFlag(b, EXPORTED) == exported && HasFlag(b, EMBEDDED) == embedded && !HasFlag(b, PATHED)
  {
    hide Block, BlockAt, BlockText, BlockEnd, Flags, HasFlag;
    var b := Encoded(n, tag, exported, embedded) + after;
    var head := [Flags(tag, exported, embedded)];
    var rest := if |tag| > 0 then Block(tag) else [];
    assert b == head + Block(n) + (rest + after);
    BlockReadBack(head, n, rest + after);
    FlagsReadBack(b, tag, exported, embedded);
    if |tag| > 0 {
      assert b == (head + Block(n)) + Block(tag) + after;
      BlockReadBack(head + Block(n), tag, after);
    }
  }

  /** Encoded names delimit themselves: two that agree in memory agree in everything. */
  lemma SelfDelimiting(n1: seq<byte>, t1: seq<byte>, x1: bool, m1: bool, after1: seq<byte>,
                       n2: seq<byte>, t2: seq<byte>, x2: bool, m2: bool, after2: seq<byte>)
    requires Encoded(n1, t1, x1, m1) + after1 == Encoded(n2, t2, x2, m2) + after2
    ensures n1 == n2 && t1 == t2 && x1 == x2 && m1 == m2 && after1 == after2
  {
    hide BlockAt, BlockText, BlockEnd, Encoded, HasFlag, WellFormed;
    NameRoundTrip(n1, t1, x1, m1, after1);
    NameRoundTrip(n2, t2, x2, m2, after2);
    var k := |Encoded(n1, t1, x1, m1)|;
    assert after1 == (Encoded(n1, t1, x1, m1) + after1)[k..];
  }
}
