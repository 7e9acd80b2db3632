/** Variable-length numbers: seven bits a byte, least significant first, the high bit set on every
    byte but the last.  The pc-value tables and the type names both use them. */
module Varint {
  import opened Bytes

  /** `PutUvarint`. */
  function Uvarint(n: nat): (r: seq<byte>)
    ensures |r| >= 1
  {
    if n < 0x80 then [n] else [n % 0x80 + 0x80] + Uvarint(n / 0x80)
  }

  /** The number read at `off` and the number of bytes it takes; `None` past the end. */
  datatype Read = Cut | Number(value: nat, size: nat)

  function ReadUvarint(p: seq<byte>, off: nat): (r: Read)
    requires off <= |p|
    ensures r.Number? ==> 1 <= r.size && off + r.size <= |p|
    decreases |p| - off
  {
    if off == |p| then Cut
    else if p[off] < 0x80 then Number(p[off], 1)
    else match ReadUvarint(p, off + 1)
      case Cut => Cut
      case Number(v, k) => Number(p[off] - 0x80 + 0x80 * v, k + 1)
  }

  /** Reading what was written gives the number back, whatever stands before and behind it. */
  lemma {:induction false} ReadBack(before: seq<byte>, n: nat, after: seq<byte>)
    ensures ReadUvarint(before + Uvarint(n) + after, |before|) == Number(n, |Uvarint(n)|)
    decreases n
  {
    var p := before + Uvarint(n) + after;
    assert p[|before|] == Uvarint(n)[0];
    if n >= 0x80 {
      var head := [n % 0x80 + 0x80];
      ReadBack(before + head, n / 0x80, after);
      assert (before + head) + Uvarint(n / 0x80) + after == p;
    }
  }

  /** The number that seven-bit digits stand for, the least significant first. */
  ghost function Digits(b: seq<byte>): nat {
    if b == [] then 0 else b[0] % 128 + 128 * Digits(b[1..])
  }

  /** An encoding holds the number in seven-bit digits; every byte but the last has its high bit set, and
      no digit is superfluous. */
  lemma {:induction false} UvarintDigits(n: nat)
    ensures Digits(Uvarint(n)) == n
    ensures forall i :: 0 <= i < |Uvarint(n)| ==> (Uvarint(n)[i] >= 128 <==> i < |Uvarint(n)| - 1)
    ensures |Uvarint(n)| > 1 ==> Uvarint(n)[|Uvarint(n)| - 1] > 0
    decreases n
  {
    if n >= 0x80 {
      UvarintDigits(n / 0x80);
      assert Uvarint(n)[1..] == Uvarint(n / 0x80);
    } else {
      assert Uvarint(n)[1..] == [];
    }
  }

  /** The length of an encoding grows with each seven bits. */
  lemma {:induction false} UvarintSize(n: nat, k: nat)
    requires k >= 1
    ensures |Uvarint(n)| <= k <==> n < Pow128(k)
    decreases k
  {
    if n >= 0x80 && k > 1 {
      UvarintSize(n / 0x80, k - 1);
    } else if n >= 0x80 {
      assert |Uvarint(n)| >= 2 && Pow128(1) == 0x80;
    } else {
      Pow128Grows(k);
    }
  }

  function Pow128(k: nat): (r: nat)
    ensures r >= 1
  {
    if k == 0 then 1 else 0x80 * Pow128(k - 1)
  }

  lemma Pow128Grows(k: nat)
    requires k >= 1
    ensures Pow128(k) >= 0x80
  {
  }

  /** The loop of `writeVarint` and of `PutUvarint`. */
  method WriteVarint(buf: array<byte>, n: nat) returns (written: nat)
    requires |Uvarint(n)| <= buf.Length
    modifies buf
    ensures written == |Uvarint(n)|
    ensures buf[..written] == Uvarint(n) && buf[written..] == old(buf[written..])
  {
    var rest := n;
    var i := 0;
    while rest >= 0x80
      invariant 0 <= i && i + |Uvarint(rest)| <= buf.Length
      invariant buf[..i] + Uvarint(rest) == Uvarint(n)
      invariant forall j :: i <= j < buf.Length ==> buf[j] == old(buf[j])
      decreases rest
    {
      ghost var before := buf[..i];
      buf[i] := rest % 0x80 + 0x80;
      assert buf[..i + 1] == before + [rest % 0x80 + 0x80];
      rest := rest / 0x80;
      i := i + 1;
    }
    buf[i] := rest;
    written := i + 1;
    assert buf[..written] == buf[..i] + [rest];
  }

  /** The loop of `readVarint`, on bytes that hold a whole number at `off`. */
  method ReadVarint(p: seq<byte>, off: nat) returns (size: nat, value: nat)
    requires off <= |p| && ReadUvarint(p, off).Number?
    ensures ReadUvarint(p, off) == Number(value, size)
  {
    value, size := 0, 0;
    var unit := 1;
    while p[off + size] >= 0x80
      invariant off + size < |p| && unit >= 1
      invariant ReadUvarint(p, off + size).Number?
      invariant ReadUvarint(p, off)
             == var rest := ReadUvarint(p, off + size); Number(value + unit * rest.value, size + rest.size)
      decreases |p| - off - size
    {
      ghost var rest := ReadUvarint(p, off + size + 1);
      Shift(unit, p[off + size] - 0x80, rest.value);
      value := value + (p[off + size] - 0x80) * unit;
      unit := 0x80 * unit;
      size := size + 1;
    }
    value := value + p[off + size] * unit;
    size := size + 1;
  }

  lemma Shift(unit: nat, low: nat, high: nat)
    ensures unit * (low + 0x80 * high) == low * unit + 0x80 * unit * high
  {
  }
}
