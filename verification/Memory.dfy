/** Byte-addressed memory that holds code, data and stack alike. */
module Memory {
  import opened Bytes

  /** Memory holds `bs` from address `a` on. */
  ghost predicate Holds(mem: int -> byte, a: int, bs: seq<byte>) {
    forall i :: 0 <= i < |bs| ==> mem(a + i) == bs[i]
  }

  /** The little-endian `n`-byte word at `a`; addresses wrap at 2^64. */
  function Load(mem: int -> byte, a: int, n: nat): nat
    decreases n
  {
    if n == 0 then 0 else mem(U64(a)) + 256 * Load(mem, a + 1, n - 1)
  }

  function Load32(mem: int -> byte, a: int): nat { Load(mem, a, HALF) }

  function Load64(mem: int -> byte, a: int): nat { Load(mem, a, WORD) }

  /** Writes the eight bytes of `v` at `a`. */
  function Store64(mem: int -> byte, a: int, v: int): int -> byte {
    (x: int) => if 0 <= U64(x - a) < 8 then LE64(v)[U64(x - a)] else mem(x)
  }

  // ----- reading encoded words back -----

  lemma {:induction false} LoadVal(mem: int -> byte, a: int, bs: seq<byte>)
    requires 0 <= a && a + |bs| <= TWO_64 && Holds(mem, a, bs)
    ensures Load(mem, a, |bs|) == Val(bs)
    decreases |bs|
  {
    if bs != [] {
      assert mem(a + 0) == bs[0] && U64(a) == a;
      HoldsPart(mem, a, bs, 1, bs[1..]);
      LoadVal(mem, a + 1, bs[1..]);
    }
  }

  lemma Load64Bound(mem: int -> byte, a: int)
    ensures Load64(mem, a) < TWO_64
  {
    LoadBound(mem, a, WORD);
    assert WORD == 8 && Pow256(8) == TWO_64;
  }

  lemma {:induction false} LoadBound(mem: int -> byte, a: int, n: nat)
    ensures Load(mem, a, n) < Pow256(n)
    decreases n
  {
    if n > 0 {
      LoadBound(mem, a + 1, n - 1);
    }
  }

  lemma Load32Of(mem: int -> byte, a: int, v: int)
    requires 0 <= a && a + 4 <= TWO_64 && Holds(mem, a, LE32(v))
    ensures Load32(mem, a) == U32(v)
  {
    LoadVal(mem, a, LE32(v));
    ValLE32(v);
  }

  lemma Load64Of(mem: int -> byte, a: int, v: int)
    requires 0 <= a && a + 8 <= TWO_64 && Holds(mem, a, LE64(v))
    ensures Load64(mem, a) == U64(v)
  {
    LoadVal(mem, a, LE64(v));
    ValLE64(v);
  }

  lemma HoldsPart(mem: int -> byte, a: int, bs: seq<byte>, k: nat, part: seq<byte>)
    requires Holds(mem, a, bs)
    requires k + |part| <= |bs| && bs[k..k + |part|] == part
    ensures Holds(mem, a + k, part)
  {
    forall i | 0 <= i < |part| ensures mem(a + k + i) == part[i] {
      assert part[i] == bs[k..k + |part|][i] == bs[k + i];
      assert mem(a + (k + i)) == bs[k + i];
    }
  }

  /** The low half of a word. */
  lemma LoadHalves(mem: int -> byte, a: int)
    ensures Load64(mem, a) == Load32(mem, a) + TWO_32 * Load32(mem, a + 4)
    ensures Load32(mem, a) < TWO_32
  {
    Halves(mem, a, 4);
    LoadBound(mem, a, 4);
    assert Pow256(4) == TWO_32;
  }

  lemma {:induction false} Halves(mem: int -> byte, a: int, n: nat)
    ensures Load(mem, a, n + 4) == Load(mem, a, n) + Pow256(n) * Load(mem, a + n, 4)
    decreases n
  {
    hide U64;
    if n > 0 {
      Halves(mem, a + 1, n - 1);
      var low, rest, p := Load(mem, a + 1, n - 1), Load(mem, a + n, 4), Pow256(n - 1);
      assert Load(mem, a + 1, n + 3) == low + p * rest;
      assert Pow256(n) == 256 * p;
      Shifted(low, p, rest);
    }
  }

  lemma Shifted(low: nat, p: nat, rest: nat)
    ensures 256 * (low + p * rest) == 256 * low + (256 * p) * rest
  {
  }

  /** What was pushed is what is popped. */
  lemma PushedWord(mem: int -> byte, sp: int, v: int)
    requires 0 <= v < TWO_64
    ensures Load64(Store64(mem, sp, v), sp) == v
  {
    hide Store64, Load, Val, LE, U64;
    PushedBytes(mem, sp, v, 0);
    assert LE64(v)[0..] == LE64(v);
    ValLE64(v);
    InRange(v);
  }

  lemma {:induction false} PushedBytes(mem: int -> byte, sp: int, v: int, k: nat)
    requires k <= 8
    ensures Load(Store64(mem, sp, v), sp + k, 8 - k) == Val(LE64(v)[k..])
    decreases 8 - k
  {
    hide LE64;
    if k < 8 {
      SlotIndex(sp, k);
      PushedBytes(mem, sp, v, k + 1);
      assert LE64(v)[k..][1..] == LE64(v)[k + 1..];
    }
  }

  lemma SlotIndex(sp: int, i: nat)
    requires i < 8
    ensures U64(U64(sp + i) - sp) == i
  {
    WrapSum(-sp, sp + i);
    assert -sp + U64(sp + i) == U64(sp + i) - sp;
  }

  /** The eight bytes at `a` and the eight bytes at `b` share no address. */
  predicate Apart(a: int, b: int) { 8 <= U64(a - b) <= TWO_64 - 8 }

  lemma LoadPastStore(mem: int -> byte, sp: int, v: int, a: int)
    requires Apart(a, sp)
    ensures Load64(Store64(mem, sp, v), a) == Load64(mem, a)
  {
    hide Store64, Load, U64;
    BytesPastStore(mem, sp, v, a, 0);
  }

  lemma {:induction false} BytesPastStore(mem: int -> byte, sp: int, v: int, a: int, k: nat)
    requires Apart(a, sp) && k <= 8
    ensures Load(Store64(mem, sp, v), a + k, 8 - k) == Load(mem, a + k, 8 - k)
    decreases 8 - k
  {
    hide LE64;
    if k < 8 {
      OutsideSlot(sp, a, k);
      BytesPastStore(mem, sp, v, a, k + 1);
    }
  }

  lemma OutsideSlot(sp: int, a: int, i: nat)
    requires Apart(a, sp) && i < 8
    ensures U64(U64(a + i) - sp) >= 8
  {
    WrapSum(-sp, a + i);
    assert -sp + U64(a + i) == U64(a + i) - sp;
    assert -sp + (a + i) == i + (a - sp);
    WrapSum(i, a - sp);
  }

  /** Bytes from `a` on, `n` of them, lie outside the eight bytes at `sp`. */
  predicate Clear(a: int, n: nat, sp: int) {
    forall x :: a <= x < a + n ==> !InSlot(x, sp)
  }

  predicate InSlot(x: int, sp: int) { U64(x - sp) < 8 }

  lemma StoreMisses(mem: int -> byte, sp: int, v: int, x: int)
    requires !InSlot(x, sp)
    ensures Store64(mem, sp, v)(x) == mem(x)
  {
  }

  /** Code away from the scratch slot survives a push. */
  lemma HoldsPastStore(mem: int -> byte, sp: int, v: int, a: int, bs: seq<byte>)
    requires Holds(mem, a, bs) && Clear(a, |bs|, sp)
    ensures Holds(Store64(mem, sp, v), a, bs)
  {
    forall i | 0 <= i < |bs| ensures Store64(mem, sp, v)(a + i) == bs[i] {
      StoreMisses(mem, sp, v, a + i);
    }
  }
}
