/** ld.go: the pc-value tables and how epilogues are added to them.
    A table is a list of (value, pc) pairs, each coded as a difference from the one before: the
    value as a signed varint, the pc as an unsigned one in units of the instruction quantum, with
    a zero byte at the end. */
module PcTable {
  import opened Bytes
  import opened Varint

  datatype Pair = Pair(dv: int, dpc: nat)

  /** The signed varint of `PutVarint`. */
  function ZigZag(x: int): nat { if x >= 0 then 2 * x else -2 * x - 1 }

  function UnZigZag(u: nat): int { if u % 2 == 0 then u / 2 else -(u / 2) - 1 }

  function EncodePair(r: Pair): (b: seq<byte>)
    ensures |b| >= 2
  {
    Uvarint(ZigZag(r.dv)) + Uvarint(r.dpc)
  }

  function Encode(pairs: seq<Pair>): seq<byte> {
    if pairs == [] then [] else EncodePair(pairs[0]) + Encode(pairs[1..])
  }

  /** The bytes of a whole table. */
  function Table(pairs: seq<Pair>): seq<byte> { Encode(pairs) + [0] }

  /** The quanta that the pairs cover. */
  function Span(pairs: seq<Pair>): nat {
    if pairs == [] then 0 else Span(pairs[..|pairs| - 1]) + pairs[|pairs| - 1].dpc
  }

  /** The value of the last pair, in the runtime's int32. */
  function LastValue(pairs: seq<Pair>): int {
    if pairs == [] then -1 else S32(LastValue(pairs[..|pairs| - 1]) + pairs[|pairs| - 1].dv)
  }

  /** A table as the compiler writes it: the value changes from pair to pair, the first pair covers
      something, and pcs fit 32 bits. */
  ghost predicate Canonical(pairs: seq<Pair>, q: nat) {
    && |pairs| > 0 && pairs[0].dpc > 0 && q >= 1 && q * Span(pairs) < TWO_32
    && forall i :: 0 <= i < |pairs| ==>
         -TWO_31 <= pairs[i].dv < TWO_31 && (i > 0 ==> pairs[i].dv != 0)
  }

  // ----- what a table says -----

  datatype Hit = Miss | Hit(value: int, start: nat)

  /** The value at `pc`: that of the first pair that ends behind it. */
  function Lookup(pairs: seq<Pair>, q: nat, pc: nat): Hit {
    if pairs == [] then Miss
    else
      var init := pairs[..|pairs| - 1];
      if pc < q * Span(init) then Lookup(init, q, pc)
      else if pc < q * Span(pairs) then Hit(LastValue(pairs), q * Span(init))
      else Miss
  }

  lemma {:induction false} LookupCovers(pairs: seq<Pair>, q: nat, pc: nat)
    ensures Lookup(pairs, q, pc).Hit? <==> pc < q * Span(pairs)
  {
    if pairs != [] {
      var init := pairs[..|pairs| - 1];
      LookupCovers(init, q, pc);
      SpanGrows(init, pairs[|pairs| - 1], q);
    }
  }

  lemma SpanGrows(init: seq<Pair>, last: Pair, q: nat)
    ensures Span(init + [last]) == Span(init) + last.dpc
    ensures q * Span(init) <= q * Span(init + [last])
    ensures LastValue(init + [last]) == S32(LastValue(init) + last.dv)
  {
    assert (init + [last])[..|init|] == init;
    Monotone(q, Span(init), Span(init) + last.dpc);
  }

  lemma Monotone(q: nat, a: nat, b: nat)
    requires a <= b
    ensures q * a <= q * b
  {
  }

  // ----- one step of the runtime's decoder -----

  datatype Stepped = End | Next(off: nat, pc: nat, value: int)

  /** `runtime.step` at `off`, for a reader that has come to (`pc`, `value`). */
  function Step(p: seq<byte>, off: nat, pc: nat, value: int, q: nat, first: bool): (r: Stepped)
    requires off <= |p|
    ensures r.Next? ==> off < r.off <= |p|
  {
    match ReadUvarint(p, off)
    case Cut => End
    case Number(u, n) =>
      if u == 0 && !first then End
      else match ReadUvarint(p, off + n)
        case Cut => End
        case Number(dpc, k) => Next(off + n + k, pc + U32(dpc * q), S32(value + UnZigZag(u)))
  }

  /** The byte form of a pair of small differences: the value's sign in the lowest bit of the first byte,
      negative ones counted from -1 on, then the pc. */
  lemma SmallPair(dv: int, dpc: nat)
    requires -64 <= dv < 64 && dpc < 128
    ensures EncodePair(Pair(dv, dpc)) == [if dv < 0 then 2 * (-1 - dv) + 1 else 2 * dv, dpc]
  {
  }

  /** A signed number is coded as an unsigned one, even from zero up and odd from -1 down. */
  lemma ZigZagIs(x: int)
    ensures ZigZag(x) % 2 == 0 <==> x >= 0
    ensures x == if ZigZag(x) % 2 == 0 then ZigZag(x) / 2 else -1 - ZigZag(x) / 2
  {
  }

  lemma ZigZagBack(x: int)
    ensures UnZigZag(ZigZag(x)) == x
    ensures ZigZag(x) == 0 <==> x == 0
  {
  }

  lemma {:induction false} EncodeAppend(a: seq<Pair>, b: seq<Pair>)
    ensures Encode(a + b) == Encode(a) + Encode(b)
  {
    hide EncodePair;
    if a == [] {
      assert a + b == b;
    } else {
      EncodeAppend(a[1..], b);
      assert (a + b)[1..] == a[1..] + b;
    }
  }

  /** Decoding a pair where it was encoded. */
  lemma StepPair(before: seq<byte>, r: Pair, after: seq<byte>, pc: nat, value: int, q: nat, first: bool)
    requires first || r.dv != 0
    requires r.dpc * q < TWO_32
    ensures Step(before + EncodePair(r) + after, |before|, pc, value, q, first)
         == Next(|before| + |EncodePair(r)|, pc + r.dpc * q, S32(value + r.dv))
  {
    hide U32, S32, Uvarint, ReadUvarint, ZigZag, UnZigZag;
    var v, d := Uvarint(ZigZag(r.dv)), Uvarint(r.dpc);
    var p := before + EncodePair(r) + after;
    ReadBack(before, ZigZag(r.dv), d + after);
    assert before + v + (d + after) == p;
    ReadBack(before + v, r.dpc, after);
    assert (before + v) + d + after == p;
    ZigZagBack(r.dv);
    InWord(r.dpc * q);
  }

  /** Position `i` of an encoded table. */
  lemma StepAt(pairs: seq<Pair>, i: nat, tail: seq<byte>, q: nat)
    requires Canonical(pairs, q) && i < |pairs|
    ensures var p, off := Encode(pairs) + tail, |Encode(pairs[..i])|;
      && off < |p| && (i > 0 ==> Span(pairs[..i]) > 0)
      && Step(p, off, q * Span(pairs[..i]), LastValue(pairs[..i]), q, i == 0)
         == Next(|Encode(pairs[..i + 1])|, q * Span(pairs[..i + 1]), LastValue(pairs[..i + 1]))
  {
    hide Step, LastValue, EncodePair;
    var before, after := Encode(pairs[..i]), Encode(pairs[i + 1..]) + tail;
    SplitAt(pairs, i);
    assert Encode(pairs) + tail == before + EncodePair(pairs[i]) + after;
    SpanGrows(pairs[..i], pairs[i], q);
    assert pairs[..i] + [pairs[i]] == pairs[..i + 1];
    SpanPrefix(pairs, i + 1);
    SpanPrefix(pairs, i);
    Distribute(q, Span(pairs[..i]), pairs[i].dpc);
    Monotone(q, Span(pairs[..i + 1]), Span(pairs));
    StepPair(before, pairs[i], after, q * Span(pairs[..i]), LastValue(pairs[..i]), q, i == 0);
  }

  lemma Distribute(q: nat, a: nat, b: nat)
    ensures q * (a + b) == q * a + b * q
  {
  }

  lemma SplitAt(pairs: seq<Pair>, i: nat)
    requires i < |pairs|
    ensures Encode(pairs) == Encode(pairs[..i]) + EncodePair(pairs[i]) + Encode(pairs[i + 1..])
    ensures Encode(pairs[..i + 1]) == Encode(pairs[..i]) + EncodePair(pairs[i])
  {
    hide EncodePair, Encode;
    EncodeAppend(pairs[..i], pairs[i..]);
    assert pairs[..i] + pairs[i..] == pairs;
    EncodeFirst(pairs[i..]);
    assert pairs[i..][1..] == pairs[i + 1..];
    EncodeAppend(pairs[..i], [pairs[i]]);
    assert pairs[..i] + [pairs[i]] == pairs[..i + 1];
    EncodeOne(pairs[i]);
  }

  lemma EncodeFirst(pairs: seq<Pair>)
    requires pairs != []
    ensures Encode(pairs) == EncodePair(pairs[0]) + Encode(pairs[1..])
  {
  }

  lemma EncodeOne(r: Pair)
    ensures Encode([r]) == EncodePair(r)
  {
    hide EncodePair;
    assert Encode([r]) == EncodePair(r) + Encode([]);
  }

  /** Prefixes span less; nonempty ones of a canonical table span something. */
  lemma {:induction false} SpanPrefix(pairs: seq<Pair>, i: nat)
    requires i <= |pairs|
    ensures Span(pairs[..i]) <= Span(pairs)
    ensures i > 0 ==> Span(pairs[..i]) >= pairs[0].dpc
    decreases |pairs|
  {
    if i == |pairs| {
      assert pairs[..i] == pairs;
      if |pairs| > 1 {
        SpanPrefix(pairs[..|pairs| - 1], |pairs| - 1);
        assert pairs[..|pairs| - 1][..|pairs| - 1] == pairs[..|pairs| - 1];
      }
    } else {
      SpanPrefix(pairs[..|pairs| - 1], i);
      assert pairs[..|pairs| - 1][..i] == pairs[..i];
    }
  }

  // ----- reading a table -----

  lemma {:induction false} LookupAt(pairs: seq<Pair>, i: nat, q: nat, pc: nat)
    requires i < |pairs| && q * Span(pairs[..i]) <= pc < q * Span(pairs[..i + 1])
    ensures Lookup(pairs, q, pc) == Hit(LastValue(pairs[..i + 1]), q * Span(pairs[..i]))
    decreases |pairs|
  {
    var init := pairs[..|pairs| - 1];
    if i == |pairs| - 1 {
      assert pairs[..i + 1] == pairs && pairs[..i] == init;
    } else {
      assert init[..i] == pairs[..i] && init[..i + 1] == pairs[..i + 1];
      LookupAt(init, i, q, pc);
      SpanPrefix(init, i + 1);
      Monotone(q, Span(init[..i + 1]), Span(init));
    }
  }

  lemma AtTerminator(pairs: seq<Pair>, pc: nat, value: int, q: nat)
    ensures Step(Table(pairs), |Encode(pairs)|, pc, value, q, false) == End
  {
    ReadBack(Encode(pairs), 0, []);
    assert Encode(pairs) + Uvarint(0) + [] == Table(pairs);
  }

  /** `pcValue`: the value at `targetOffset` and where its range starts. */
  method PcValue(p: seq<byte>, targetOffset: nat, q: nat, ghost pairs: seq<Pair>) returns (hit: Hit)
    requires Canonical(pairs, q) && p == Table(pairs)
    ensures hit == Lookup(pairs, q, targetOffset)
  {
    hide Step, Encode, Lookup, Span, LastValue;
    var off, pc, val, prevpc := 0, 0, -1, 0;
    ghost var i := 0;
    NothingYet(pairs, q);
    while true
      invariant 0 <= i <= |pairs| && off == |Encode(pairs[..i])| && off < |p|
      invariant pc == prevpc == q * Span(pairs[..i]) && val == LastValue(pairs[..i])
      invariant pc <= targetOffset && (pc == 0 <==> i == 0)
      decreases |p| - off
    {
      if i < |pairs| {
        StepAt(pairs, i, [0], q);
        PositiveSpan(pairs, i + 1, q);
      } else {
        assert pairs[..i] == pairs;
        AtTerminator(pairs, pc, val, q);
      }
      var next := Step(p, off, pc, val, q, pc == 0);
      if next.End? {
        LookupCovers(pairs, q, targetOffset);
        return Miss;
      }
      off, pc, val := next.off, next.pc, next.value;
      EncodePrefix(pairs, i + 1);
      if targetOffset < pc {
        LookupAt(pairs, i, q, targetOffset);
        return Hit(val, prevpc);
      }
      prevpc := pc;
      i := i + 1;
    }
  }

  lemma NothingYet(pairs: seq<Pair>, q: nat)
    ensures Encode(pairs[..0]) == [] && q * Span(pairs[..0]) == 0 && LastValue(pairs[..0]) == -1
  {
  }

  lemma PositiveSpan(pairs: seq<Pair>, i: nat, q: nat)
    requires Canonical(pairs, q) && 0 < i <= |pairs|
    ensures q * Span(pairs[..i]) > 0
  {
    SpanPrefix(pairs, i);
    Monotone(q, 1, Span(pairs[..i]));
  }

  lemma EncodePrefix(pairs: seq<Pair>, i: nat)
    requires i <= |pairs|
    ensures |Encode(pairs[..i])| < |Table(pairs)|
  {
    EncodeAppend(pairs[..i], pairs[i..]);
    assert pairs[..i] + pairs[i..] == pairs;
  }

  /** `readPCData` on a table without its terminator: where each pair ends and its value. */
  method ReadPCData(p: seq<byte>, q: nat, ghost pairs: seq<Pair>) returns (pcs: seq<nat>, vals: seq<int>)
    requires Canonical(pairs, q) && p == Encode(pairs)
    ensures |pcs| == |vals| == |pairs|
    ensures forall k :: 0 <= k < |pairs| ==> pcs[k] == q * Span(pairs[..k + 1]) && vals[k] == LastValue(pairs[..k + 1])
  {
    hide Step, Encode, Span, LastValue;
    var off, pc, val := 0, 0, -1;
    pcs, vals := [], [];
    ghost var i := 0;
    NothingYet(pairs, q);
    while off < |p|
      invariant 0 <= i <= |pairs| && off == |Encode(pairs[..i])| && off <= |p|
      invariant pc == q * Span(pairs[..i]) && val == LastValue(pairs[..i]) && (pc == 0 <==> i == 0)
      invariant |pcs| == |vals| == i
      invariant forall k :: 0 <= k < i ==> pcs[k] == q * Span(pairs[..k + 1]) && vals[k] == LastValue(pairs[..k + 1])
      decreases |p| - off
    {
      EncodeWhole(pairs);
      StepAt(pairs, i, [], q);
      assert Encode(pairs) + [] == p;
      PositiveSpan(pairs, i + 1, q);
      EncodePrefix(pairs, i + 1);
      var next := Step(p, off, pc, val, q, pc == 0);
      off, pc, val := next.off, next.pc, next.value;
      pcs, vals := pcs + [pc], vals + [val];
      i := i + 1;
    }
    EncodeOfAll(pairs, i);
  }

  lemma EncodeWhole(pairs: seq<Pair>)
    ensures |Encode(pairs[..|pairs|])| == |Encode(pairs)|
  {
    assert pairs[..|pairs|] == pairs;
  }

  /** Only the whole table encodes to all the bytes. */
  lemma EncodeOfAll(pairs: seq<Pair>, i: nat)
    requires i <= |pairs| && |Encode(pairs[..i])| >= |Encode(pairs)|
    ensures i == |pairs|
  {
    EncodeAppend(pairs[..i], pairs[i..]);
    assert pairs[..i] + pairs[i..] == pairs;
  }

  // ----- patching in an epilogue -----

  /** The quantum is 1 on amd64 and 4 on arm64. */
  predicate IsQuantum(q: nat) { q == 1 || q == 4 }

  /** The table extended to `end` with `value`: the last pair grows when it has that value already,
      otherwise a pair is added. */
  function Patched(pairs: seq<Pair>, q: nat, value: int, end: nat): seq<Pair>
    requires |pairs| > 0 && IsQuantum(q) && end % q == 0 && q * Span(pairs) <= end
  {
    var init, last := pairs[..|pairs| - 1], pairs[|pairs| - 1];
    SpanPrefix(pairs, |pairs| - 1);
    if LastValue(pairs) == value then init + [Pair(last.dv, end / q - Span(init))]
    else pairs + [Pair(S32(value - LastValue(pairs)), end / q - Span(pairs))]
  }

  /** `end` in quanta. */
  lemma InQuanta(q: nat, span: nat, end: nat)
    requires IsQuantum(q) && end % q == 0 && q * span <= end
    ensures q * (end / q) == end && span <= end / q
  {
    if q == 1 {
    } else {
    }
  }

  /** Extending keeps the table canonical and makes it cover exactly up to `end`. */
  lemma PatchedCanonical(pairs: seq<Pair>, q: nat, value: int, end: nat)
    requires Canonical(pairs, q) && IsQuantum(q) && end % q == 0 && q * Span(pairs) <= end < TWO_32
    requires -TWO_31 <= value < TWO_31
    ensures Canonical(Patched(pairs, q, value, end), q)
    ensures q * Span(Patched(pairs, q, value, end)) == end
    ensures LastValue(Patched(pairs, q, value, end)) == value
  {
    hide S32, Span, LastValue;
    var init, last := pairs[..|pairs| - 1], pairs[|pairs| - 1];
    var quanta := end / q;
    InQuanta(q, Span(pairs), end);
    SpanPrefix(pairs, |pairs| - 1);
    LastValueRange(pairs);
    assert init + [last] == pairs;
    SpanGrows(init, last, q);
    if LastValue(pairs) == value {
      SpanGrows(init, Pair(last.dv, quanta - Span(init)), q);
      PositiveSpan(pairs, |pairs|, q);
      assert pairs[..|pairs|] == pairs;
      if |pairs| == 1 {
        SpanOfNone();
      }
    } else {
      WrapBack(LastValue(pairs), value);
      SpanGrows(pairs, Pair(S32(value - LastValue(pairs)), quanta - Span(pairs)), q);
    }
  }

  lemma SpanOfNone()
    ensures Span([]) == 0
  {
  }

  lemma WrapBack(a: int, b: int)
    requires -TWO_31 <= a < TWO_31 && -TWO_31 <= b < TWO_31
    ensures S32(a + S32(b - a)) == b
    ensures -TWO_31 <= S32(b - a) < TWO_31
    ensures S32(b - a) == 0 <==> a == b
  {
  }

  lemma LastValueRange(pairs: seq<Pair>)
    ensures -TWO_31 <= LastValue(pairs) < TWO_31
  {
  }

  /** Extending changes no answer below the old end, and answers `value` from there to `end`. */
  lemma PatchedLookup(pairs: seq<Pair>, q: nat, value: int, end: nat, pc: nat)
    requires Canonical(pairs, q) && IsQuantum(q) && end % q == 0 && q * Span(pairs) <= end < TWO_32
    requires -TWO_31 <= value < TWO_31
    ensures pc < q * Span(pairs) ==> Lookup(Patched(pairs, q, value, end), q, pc) == Lookup(pairs, q, pc)
    ensures q * Span(pairs) <= pc < end ==>
      Lookup(Patched(pairs, q, value, end), q, pc).Hit? && Lookup(Patched(pairs, q, value, end), q, pc).value == value
  {
    hide S32, LastValue;
    var init, last := pairs[..|pairs| - 1], pairs[|pairs| - 1];
    var patched := Patched(pairs, q, value, end);
    PatchedCanonical(pairs, q, value, end);
    assert init + [last] == pairs;
    SpanGrows(init, last, q);
    if LastValue(pairs) == value {
      assert patched[..|patched| - 1] == init;
    } else {
      assert patched[..|patched| - 1] == pairs;
    }
  }

  predicate OccursAt(p: seq<byte>, sub: seq<byte>, k: int) {
    0 <= k <= |p| - |sub| && p[k..k + |sub|] == sub
  }

  /** Go's `bytes.LastIndex`. */
  method LastIndex(p: seq<byte>, sub: seq<byte>) returns (index: int)
    ensures index == -1 || OccursAt(p, sub, index)
    ensures forall k :: index < k ==> !OccursAt(p, sub, k)
  {
    index := |p| - |sub|;
    while index >= 0
      invariant forall k :: index < k ==> !OccursAt(p, sub, k)
    {
      if p[index..index + |sub|] == sub {
        return;
      }
      index := index - 1;
    }
    index := -1;
  }

  /** `PutUvarint` into a scratch buffer of ten bytes. */
  method PutUvarint(n: nat) returns (b: seq<byte>)
    requires n < 0x2_0000_0000
    ensures b == Uvarint(n)
  {
    FitsBuffer(n);
    var buf := new byte[10];
    var k := WriteVarint(buf, n);
    b := buf[..k];
  }

  lemma FitsBuffer(n: nat)
    requires n < 0x2_0000_0000
    ensures |Uvarint(n)| <= 10
  {
    UvarintSize(n, 10);
    assert Pow128(10) >= 0x2_0000_0000;
  }

  /** The panics of `patchPCValuesForReloc`. */
  datatype Patch = Panic | Rebuilt(bytes: seq<byte>)

  /** Extends the last pair: its pc delta is cut off and written anew. */
  method GrowLastPair(p: seq<byte>, previous: nat, lastPC: nat, end: nat, q: nat, ghost pairs: seq<Pair>)
    returns (p': seq<byte>)
    requires Canonical(pairs, q) && IsQuantum(q) && p == Encode(pairs)
    requires end % q == 0 && q * Span(pairs) <= end < TWO_32
    requires previous == q * Span(pairs[..|pairs| - 1]) && lastPC == q * Span(pairs)
    ensures p' == Encode(Patched(pairs, q, LastValue(pairs), end))
  {
    hide Encode, Span, S32, Uvarint, Patched, ZigZag;
    LastPair(pairs, q);
    GrownTable(pairs, q, LastValue(pairs), end);
    ghost var before := Encode(pairs[..|pairs| - 1]) + Uvarint(ZigZag(pairs[|pairs| - 1].dv));
    var buf := PutUvarint((lastPC - previous) / q);
    var index := LastIndex(p, buf);
    CutLastDelta(before, buf, p);
    assert index == |before|;
    p' := p[..index];
    buf := PutUvarint((end - previous) / q);
    p' := p' + buf;
  }

  /** Appends a pair with the new value. */
  method AppendPair(p: seq<byte>, value: int, lastValue: int, lastPC: nat, end: nat, q: nat, ghost pairs: seq<Pair>)
    returns (p': seq<byte>)
    requires Canonical(pairs, q) && IsQuantum(q) && p == Encode(pairs)
    requires end % q == 0 && q * Span(pairs) <= end < TWO_32
    requires lastValue == LastValue(pairs) != value && lastPC == q * Span(pairs)
    ensures p' == Encode(Patched(pairs, q, value, end))
  {
    hide Encode, Span, S32, Uvarint, Patched, LastValue, ZigZag;
    AddedTable(pairs, q, value, end);
    var valDelta := S32(value - lastValue);
    ZigZagRange(valDelta);
    var buf := PutUvarint(ZigZag(valDelta));
    p' := p + buf;
    buf := PutUvarint((end - lastPC) / q);
    p' := p' + buf;
  }

  /** `patchPCValuesForReloc`: the epilogue of the relocation at `relocOffset` takes the value at
      the relocation site.  It panics exactly when the table does not cover the site. */
  method PatchPCValuesForReloc(pcvalues: seq<byte>, relocOffset: nat, epilogueOffset: nat, epilogueSize: nat, q: nat,
                               ghost pairs: seq<Pair>) returns (r: Patch)
    requires Canonical(pairs, q) && IsQuantum(q) && pcvalues == Table(pairs)
    requires q * Span(pairs) <= epilogueOffset + epilogueSize < TWO_32
    requires (epilogueOffset + epilogueSize) % q == 0
    ensures r.Panic? <==> Lookup(pairs, q, relocOffset).Miss?
    ensures !r.Panic? ==>
      r.bytes == Table(Patched(pairs, q, Lookup(pairs, q, relocOffset).value, epilogueOffset + epilogueSize))
  {
    hide Encode, Span, Lookup, LastValue, Patched;
    var p := pcvalues;
    var hit := PcValue(p, relocOffset, q, pairs);
    if hit.Miss? {
      return Panic;
    }
    p := p[..|p| - 1];
    assert p == Encode(pairs);
    var pcs, vals := ReadPCData(p, q, pairs);
    assert pairs[..|pairs|] == pairs;
    var lastValue, lastPC := vals[|vals| - 1], pcs[|pcs| - 1];
    var end := epilogueOffset + epilogueSize;
    if lastValue == hit.value {
      PreviousEnd(pairs, q);
      var previous := if |pcs| > 1 then pcs[|pcs| - 2] else 0;
      p := GrowLastPair(p, previous, lastPC, end, q, pairs);
    } else {
      p := AppendPair(p, hit.value, lastValue, lastPC, end, q, pairs);
    }
    return Rebuilt(p + [0]);
  }

  lemma ZigZagRange(x: int)
    requires -TWO_31 <= x < TWO_31
    ensures ZigZag(x) < TWO_32
  {
  }

  /** The bytes end with the last pair's pc delta, and it is what the spans say. */
  lemma LastPair(pairs: seq<Pair>, q: nat)
    requires Canonical(pairs, q) && IsQuantum(q)
    ensures var init, last := pairs[..|pairs| - 1], pairs[|pairs| - 1];
      && Encode(pairs) == (Encode(init) + Uvarint(ZigZag(last.dv))) + Uvarint(last.dpc)
      && q * Span(pairs) == q * Span(init) + q * last.dpc
      && last.dpc <= Span(pairs) < TWO_32
  {
    hide Uvarint;
    var n := |pairs|;
    SplitAt(pairs, n - 1);
    assert pairs[..n - 1 + 1] == pairs;
  }

  lemma PreviousEnd(pairs: seq<Pair>, q: nat)
    requires |pairs| > 0
    ensures |pairs| == 1 ==> Span(pairs[..|pairs| - 1]) == 0
    ensures |pairs| > 1 ==> pairs[..|pairs| - 2 + 1] == pairs[..|pairs| - 1]
  {
  }

  /** A byte search from the end finds the last pc delta, however often its bytes occur before. */
  lemma CutLastDelta(before: seq<byte>, buf: seq<byte>, p: seq<byte>)
    requires p == before + buf
    ensures OccursAt(p, buf, |before|) && forall k :: |before| < k ==> !OccursAt(p, buf, k)
    ensures p[..|before|] == before
  {
  }

  lemma GrownTable(pairs: seq<Pair>, q: nat, value: int, end: nat)
    requires Canonical(pairs, q) && IsQuantum(q) && end % q == 0 && q * Span(pairs) <= end
    requires LastValue(pairs) == value
    ensures var init, last := pairs[..|pairs| - 1], pairs[|pairs| - 1];
      && q * Span(init) <= end && (end - q * Span(init)) / q == end / q - Span(init)
      && Encode(Patched(pairs, q, value, end))
         == Encode(init) + Uvarint(ZigZag(last.dv)) + Uvarint((end - q * Span(init)) / q)
  {
    hide Uvarint, Encode, LastValue;
    var init, last := pairs[..|pairs| - 1], pairs[|pairs| - 1];
    assert init + [last] == pairs;
    SpanGrows(init, last, q);
    EncodeAppend(init, [Pair(last.dv, end / q - Span(init))]);
    EncodeOne(Pair(last.dv, end / q - Span(init)));
  }

  lemma AddedTable(pairs: seq<Pair>, q: nat, value: int, end: nat)
    requires Canonical(pairs, q) && IsQuantum(q) && end % q == 0 && q * Span(pairs) <= end
    requires LastValue(pairs) != value
    ensures (end - q * Span(pairs)) / q == end / q - Span(pairs)
    ensures Encode(Patched(pairs, q, value, end))
         == Encode(pairs) + Uvarint(ZigZag(S32(value - LastValue(pairs)))) + Uvarint((end - q * Span(pairs)) / q)
  {
    hide Uvarint, Encode, LastValue, S32;
    var added := Pair(S32(value - LastValue(pairs)), end / q - Span(pairs));
    EncodeAppend(pairs, [added]);
    EncodeOne(added);
  }

  // ----- all relocations of a function -----

  /** A relocation site and the epilogue reserved for it. */
  datatype Epilogue = Epilogue(site: nat, offset: nat, size: nat) {
    function End(): nat { offset + size }
  }

  /** Epilogues follow one another behind `covered`, each a whole number of quanta long, and their
      sites lie in the first `text` bytes. */
  ghost predicate InOrder(epilogues: seq<Epilogue>, covered: nat, text: nat, q: nat)
    requires IsQuantum(q)
  {
    epilogues == []
    || (covered <= epilogues[0].offset && epilogues[0].site < text <= covered
        && epilogues[0].End() % q == 0 && epilogues[0].End() < TWO_32
        && InOrder(epilogues[1..], epilogues[0].End(), text, q))
  }

  /** The table with one epilogue after the other patched in. */
  ghost function PatchedAll(pairs: seq<Pair>, q: nat, epilogues: seq<Epilogue>): seq<Pair>
    requires Canonical(pairs, q) && IsQuantum(q)
    requires exists text :: InOrder(epilogues, q * Span(pairs), text, q)
    decreases |epilogues|
  {
    if epilogues == [] then pairs
    else
      var text :| InOrder(epilogues, q * Span(pairs), text, q);
      SiteValue(pairs, q, epilogues[0].site);
      var value := Lookup(pairs, q, epilogues[0].site).value;
      PatchedCanonical(pairs, q, value, epilogues[0].End());
      assert InOrder(epilogues[1..], epilogues[0].End(), text, q);
      PatchedAll(Patched(pairs, q, value, epilogues[0].End()), q, epilogues[1..])
  }

  lemma {:induction false} SiteValue(pairs: seq<Pair>, q: nat, site: nat)
    requires site < q * Span(pairs)
    ensures Lookup(pairs, q, site).Hit? && -TWO_31 <= Lookup(pairs, q, site).value < TWO_31
  {
    LookupCovers(pairs, q, site);
    if pairs != [] && site < q * Span(pairs[..|pairs| - 1]) {
      SiteValue(pairs[..|pairs| - 1], q, site);
    } else if pairs != [] {
      LastValueRange(pairs);
    }
  }

  /** After all relocations are patched in, every pc of the function's own text decodes to its old
      value, and every pc of an epilogue decodes to the value at that epilogue's relocation site. */
  lemma {:induction false} PatchedAllLookup(pairs: seq<Pair>, q: nat, epilogues: seq<Epilogue>, text: nat)
    requires Canonical(pairs, q) && IsQuantum(q) && InOrder(epilogues, q * Span(pairs), text, q)
    ensures var all := PatchedAll(pairs, q, epilogues);
      && Canonical(all, q)
      && (forall pc :: 0 <= pc < q * Span(pairs) ==> Lookup(all, q, pc) == Lookup(pairs, q, pc))
      && (forall i, pc :: 0 <= i < |epilogues| && epilogues[i].offset <= pc < epilogues[i].End() ==>
            Lookup(all, q, pc).Hit? && Lookup(pairs, q, epilogues[i].site).Hit?
            && Lookup(all, q, pc).value == Lookup(pairs, q, epilogues[i].site).value)
    decreases |epilogues|
  {
    hide Patched, Lookup, Span, S32;
    if epilogues != [] {
      var first, rest := epilogues[0], epilogues[1..];
      SiteValue(pairs, q, first.site);
      var value := Lookup(pairs, q, first.site).value;
      var patched := Patched(pairs, q, value, first.End());
      PatchedCanonical(pairs, q, value, first.End());
      PatchedAllLookup(patched, q, rest, text);
      var all := PatchedAll(patched, q, rest);
      forall pc: nat | pc < first.End()
        ensures pc < q * Span(pairs) ==> Lookup(patched, q, pc) == Lookup(pairs, q, pc)
        ensures first.offset <= pc ==> Lookup(patched, q, pc).Hit? && Lookup(patched, q, pc).value == value
      {
        PatchedLookup(pairs, q, value, first.End(), pc);
      }
      forall i, pc | 0 <= i < |epilogues| && epilogues[i].offset <= pc < epilogues[i].End()
        ensures Lookup(all, q, pc).Hit? && Lookup(pairs, q, epilogues[i].site).Hit?
             && Lookup(all, q, pc).value == Lookup(pairs, q, epilogues[i].site).value
      {
        if i > 0 {
          assert rest[i - 1] == epilogues[i];
          SitesBelow(rest, first.End(), text, q, i - 1);
          SiteValue(pairs, q, epilogues[i].site);
        }
      }
    }
  }

  lemma {:induction false} SitesBelow(epilogues: seq<Epilogue>, covered: nat, text: nat, q: nat, i: nat)
    requires IsQuantum(q) && InOrder(epilogues, covered, text, q) && i < |epilogues|
    ensures epilogues[i].site < text
    decreases |epilogues|
  {
    if i > 0 {
      SitesBelow(epilogues[1..], epilogues[0].End(), text, q, i - 1);
    }
  }

  /** The loop of `readFuncData` over one of a function's tables. */
  method PatchForRelocs(pcvalues: seq<byte>, epilogues: seq<Epilogue>, q: nat, ghost pairs: seq<Pair>, ghost text: nat)
    returns (patched: seq<byte>)
    requires Canonical(pairs, q) && IsQuantum(q) && pcvalues == Table(pairs)
    requires InOrder(epilogues, q * Span(pairs), text, q)
    ensures patched == Table(PatchedAll(pairs, q, epilogues))
  {
    hide Encode, Lookup, Span, Patched, S32;
    patched := pcvalues;
    ghost var now := pairs;
    var i := 0;
    while i < |epilogues|
      invariant 0 <= i <= |epilogues| && Canonical(now, q) && patched == Table(now)
      invariant InOrder(epilogues[i..], q * Span(now), text, q)
      invariant PatchedAll(now, q, epilogues[i..]) == PatchedAll(pairs, q, epilogues)
    {
      var reloc := epilogues[i];
      ghost var rest := epilogues[i..];
      assert rest[0] == reloc && rest[1..] == epilogues[i + 1..];
      SiteValue(now, q, reloc.site);
      ghost var value := Lookup(now, q, reloc.site).value;
      PatchedCanonical(now, q, value, reloc.End());
      var r := PatchPCValuesForReloc(patched, reloc.site, reloc.offset, reloc.size, q, now);
      now := Patched(now, q, value, reloc.End());
      patched := r.bytes;
      i := i + 1;
    }
  }
}
