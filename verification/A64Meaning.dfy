/** What relocated arm64 code does when it runs: the near and the far form of a relocation
    have the same effect. */
module A64Meaning {
  import opened Bytes
  import opened Memory
  import opened Optional
  import opened Patching
  import opened RelocArm64
  import opened A64

  /** Memory holds the segment at `base`. */
  ghost predicate Holding(m: Machine, code: seq<byte>, base: nat) {
    Valid(m) && base + |code| <= TWO_64 && Holds(m.mem, base, code)
  }

  /** Any code can stand in memory, with any register contents and any byte of it next: what is proved
      below about machines that hold the code is about something. */
  lemma SomeMachineHolds(code: seq<byte>, base: nat, regs: seq<int>, k: nat)
    requires base + |code| <= TWO_64 && k < |code|
    requires |regs| == 31 && forall r :: 0 <= r < 31 ==> 0 <= regs[r] < TWO_64
    ensures exists m: Machine :: Holding(m, code, base) && m.regs == regs && m.pc == base + k
  {
    var m := Machine((x: int) => if base <= x < base + |code| then code[x - base] else 0, regs, base + k, []);
    assert Holding(m, code, base);
  }

  lemma WordAt(m: Machine, code: seq<byte>, base: nat, k: nat, w: nat)
    requires Holding(m, code, base) && w < TWO_32
    requires k + 4 <= |code| && code[k..k + 4] == LE32(w) && m.pc == base + k
    ensures At(m, w)
  {
    HoldsPart(m.mem, base, code, k, LE32(w));
  }

  // ----- instruction words -----

  /** ADRP Xd with clear immediate fields, as the compiler emits it. */
  function BareADRP(d: nat): nat { 0x9000_0000 + d }

  /** ADD Xd, Xn or a load or store with base register n: `op` are the bits above the immediate. */
  function BareOp(op: nat, n: nat, d: nat): nat { op * 0x40_0000 + n * 32 + d }

  lemma ADRPWord(d: nat, lo: nat, hi: nat)
    requires d < 32 && lo < 4 && hi < 0x8_0000
    ensures var w := Or(BareADRP(d), Or(lo * 0x2000_0000, hi * 32));
      w < TWO_32 && IsADRP(w) && Rd(w) == d && Imm21(w) == hi * 4 + lo
  {
    OrImmediates(d, lo, hi);
    ADRPFields(d, lo, hi);
  }

  lemma ADRPFields(d: nat, lo: nat, hi: nat)
    requires d < 32 && lo < 4 && hi < 0x8_0000
    ensures var w := BareADRP(d) + lo * 0x2000_0000 + hi * 32;
      w < TWO_32 && IsADRP(w) && Rd(w) == d && Imm21(w) == hi * 4 + lo
  {
    var w := BareADRP(d) + lo * 0x2000_0000 + hi * 32;
    assert w / 32 == 0x480_0000 + lo * 0x100_0000 + hi;
    assert w / 0x100_0000 == 0x90 + lo * 32;
    assert w / 0x2000_0000 == 4 + lo;
  }

  /** Or-ing both immediate fields into ADRP adds them. */
  lemma OrImmediates(d: nat, lo: nat, hi: nat)
    requires d < 32 && lo < 4 && hi < 0x8_0000
    ensures Or(BareADRP(d), Or(lo * 0x2000_0000, hi * 32)) == BareADRP(d) + lo * 0x2000_0000 + hi * 32
  {
    hide Or;
    PowersOfTwo();
    OrField(lo * 0x2000_0000, hi, 5, 19);
    OrParts(0x90, d, lo * 32, hi * 32, 24);
    OrField(0x90, lo, 5, 2);
    OrField(d, hi, 5, 19);
  }

  lemma LiteralWord(bytes: nat, d: nat)
    requires d < 32 && (bytes == 8 || bytes == 12)
    ensures var code := if bytes == 8 then LDR_CODE_8_BYTES else LDR_CODE_12_BYTES; var w := Or(code, d);
      w < TWO_32 && IsLDRLiteral(w) && Rd(w) == d && w / 32 % 0x8_0000 * 4 == bytes
  {
    hide Or;
    PowersOfTwo();
    var code := if bytes == 8 then LDR_CODE_8_BYTES else LDR_CODE_12_BYTES;
    OrField(code, d, 0, 5);
  }

  lemma OpWord(op: nat, n: nat, d: nat, imm: nat)
    requires op < 0x400 && n < 32 && d < 32 && imm < 0x1000
    ensures var w := Or(BareOp(op, n, d), imm * 0x400);
      w < TWO_32 && w / 0x40_0000 == op && Rn(w) == n && Rd(w) == d && Imm12(w) == imm
  {
    hide Or;
    PowersOfTwo();
    OpFields(op, n, d, 0);
    assert BareOp(op, n, d) / 0x400 == op * 0x1000;
    OrField(BareOp(op, n, d), imm, 10, 12);
    OpFields(op, n, d, imm);
  }

  lemma OpFields(op: nat, n: nat, d: nat, imm: nat)
    requires op < 0x400 && n < 32 && d < 32 && imm < 0x1000
    ensures var w := BareOp(op, n, d) + imm * 0x400;
      w < TWO_32 && w / 0x40_0000 == op && Rn(w) == n && Rd(w) == d && Imm12(w) == imm
    ensures imm == 0 ==> BareOp(op, n, d) < TWO_32
  {
    var w := BareOp(op, n, d) + imm * 0x400;
    assert w / 0x400 == op * 0x1000 + imm;
    assert w / 32 == (op * 0x1000 + imm) * 32 + n;
  }

  /** A branch over a multiple of four bytes decodes to that distance exactly when the distance is
      within 128 MiB; the code masks longer ones without a check. */
  lemma BranchWordDecodes(d: int)
    requires d % 4 == 0 && -TWO_31 <= d < TWO_31
    ensures Branch(d) < TWO_32 && IsB(Branch(d))
    ensures Signed(Branch(d) % 0x400_0000, 0x200_0000) * 4 == d <==> -0x800_0000 <= d < 0x800_0000
  {
    if d >= 0 {
      InWord(d);
    } else {
      assert U32(d) == d + TWO_32;
      assert U32(d) / 4 == d / 4 + 0x4000_0000;
    }
  }

  // ----- the site before relocation -----

  /** The second instruction of an ADRP pair: ADD of the page register to itself for
      R_ADDRARM64, a 64-bit LDR through it for a slot, else a load or store of the relocation's
      size through it. */
  predicate SecondOp(kind: Kind, op: nat, d: nat, t: nat) {
    && op < 0x400 && t < 32
    && match kind
       case AddrArm64 => op == 0x244 && t == d
       case GotPcrel | TlsIe => op == 0x3E5 && t < 31
       case _ => IsLoadStore(op * 0x40_0000) && Scale(op * 0x40_0000) == kind.Shift()
  }

  /** The pair as the compiler emits it: ADRP Xd and an instruction using Xd, both with clear
      immediate fields. */
  ghost predicate BarePair(pair: seq<byte>, kind: Kind, op: nat, d: nat, t: nat) {
    && |pair| == 8 && d < 31 && SecondOp(kind, op, d, t)
    && pair[..4] == LE32(BareADRP(d)) && pair[4..] == LE32(BareOp(op, d, t))
  }

  lemma BareWords(pair: seq<byte>, kind: Kind, op: nat, d: nat, t: nat)
    requires BarePair(pair, kind, op, d, t)
    ensures Get32(pair, 0) == BareADRP(d) && Get32(pair, 4) == BareOp(op, d, t)
  {
    hide LE32, Val, U32, BareOp;
    OpFields(op, d, t, 0);
    assert pair[0..4] == pair[..4] && pair[4..8] == pair[4..];
    ValLE32(BareADRP(d));
    ValLE32(BareOp(op, d, t));
    InWord(BareADRP(d));
    InWord(BareOp(op, d, t));
  }

  // ----- near -----

  /** The page that a patched ADRP forms; its 21-bit count covers distances below 2^32 only. */
  function FormedPage(pc: int, d: int): nat {
    U64(PageOf(pc) + Signed(U64(d) / 0x1000 % 0x20_0000, 0x10_0000) * PAGE)
  }

  lemma PageCount(d: int)
    requires -TWO_32 <= d <= TWO_32
    ensures var pages := Signed(U64(d) / 0x1000 % 0x20_0000, 0x10_0000) * PAGE;
      pages == if d == TWO_32 then -TWO_32 else d - d % PAGE
    ensures U64(d) % 0x1000 == d % 0x1000
  {
    var q, r := d / 0x1000, d % 0x1000;
    var wrapped := if d < 0 then 0x10_0000_0000_0000 else 0;
    assert d == 0x1000 * q + r && -0x10_0000 <= q <= 0x10_0000;
    assert U64(d) == 0x1000 * (q + wrapped) + r;
    DivideBy4096(U64(d), q + wrapped, r);
    CountModulo(q, wrapped / 0x20_0000);
  }

  lemma DivideBy4096(x: int, q: int, r: int)
    requires x == 0x1000 * q + r && 0 <= r < 0x1000
    ensures x / 0x1000 == q && x % 0x1000 == r
  {
  }

  lemma CountModulo(q: int, k: int)
    requires -0x10_0000 <= q <= 0x10_0000
    ensures (q + 0x20_0000 * k) % 0x20_0000 == if q < 0 then q + 0x20_0000 else q
  {
  }

  /** Executing a patched ADRP. */
  lemma StepADRP(m: Machine, code: seq<byte>, base: nat, k: nat, reg: nat, d: int)
    requires Holding(m, code, base) && m.pc == base + k && k + 4 <= |code| && reg < 31
    requires code[k..k + 4] == LE32(PatchedADRP(BareADRP(reg), d))
    ensures Step(m) == Some(m.(regs := m.regs[reg := FormedPage(m.pc, d)], pc := m.pc + 4))
  {
    hide LE32, Or, U64;
    var lo, hi := U64(d) / 0x1000 % 4, U64(d) / 0x4000 % 0x8_0000;
    ADRPWord(reg, lo, hi);
    var w := PatchedADRP(BareADRP(reg), d);
    WordAt(m, code, base, k, w);
    FetchAt(m, w);
    CountParts(U64(d) / 0x1000);
    assert U64(d) / 0x4000 == U64(d) / 0x1000 / 4;
  }

  lemma CountParts(n: nat)
    ensures n / 4 % 0x8_0000 * 4 + n % 4 == n % 0x20_0000
  {
  }

  /** The near distance adds up to the target, except at exactly 2^32. */
  lemma NearSum(symAddr: int, loc: Reloc, base: nat)
    requires var d := PageDistance(symAddr, loc, base); -TWO_32 <= d < TWO_32
    ensures var d := PageDistance(symAddr, loc, base);
      U64(FormedPage(base + loc.offset, d) + d % 0x1000) == U64(Target(symAddr, loc))
  {
    var d, page := PageDistance(symAddr, loc, base), PageOf(base + loc.offset);
    FormedSum(base + loc.offset, d);
    WrapSum(page, symAddr + loc.add - page);
  }

  /** A relocated near pair is in place. */
  lemma NearPair(code: seq<byte>, saved: map<nat, seq<byte>>, loc: Reloc, symAddr: int, base: nat, force: bool,
                 op: nat, reg: nat, t: nat)
    requires InBounds(code, saved, loc) && BarePair(Original(code, saved, loc), loc.kind, op, reg, t)
    requires !loc.kind.ThroughSlot() && !IsFar(symAddr, loc, base, force)
    ensures var code' := RelocatedADRP(code, saved, loc, symAddr, base, force).code;
      var d := PageDistance(symAddr, loc, base);
      && |code'| == |code|
      && code'[loc.offset..loc.offset + 4] == LE32(PatchedADRP(BareADRP(reg), d))
      && code'[loc.offset + 4..loc.offset + 8] == LE32(PatchedOp(BareOp(op, reg, t), d, loc.kind.Shift()))
  {
    hide LE32, Or, PatchedADRP, PatchedOp, Reset, PageDistance;
    var pair, d := Original(code, saved, loc), PageDistance(symAddr, loc, base);
    BareWords(pair, loc.kind, op, reg, t);
    PatchedPair(Reset(code, pair, loc), pair, loc, d);
  }

  lemma PatchedPair(ready: seq<byte>, pair: seq<byte>, loc: Reloc, d: int)
    requires |pair| == 8 && loc.offset + 8 <= |ready|
    ensures var r := NearPatched(ready, pair, loc, d);
      && r[loc.offset..loc.offset + 4] == LE32(PatchedADRP(Get32(pair, 0), d))
      && r[loc.offset + 4..loc.offset + 8] == LE32(PatchedOp(Get32(pair, 4), d, loc.kind.Shift()))
  {
    hide LE32, Or, PatchedADRP, PatchedOp;
    var w0 := LE32(PatchedADRP(Get32(pair, 0), d));
    var w1 := LE32(PatchedOp(Get32(pair, 4), d, loc.kind.Shift()));
    SpliceRegion(ready, loc.offset, w0 + w1);
    Halving(NearPatched(ready, pair, loc, d), loc.offset, w0, w1);
  }

  lemma Halving(b: seq<byte>, at: nat, w0: seq<byte>, w1: seq<byte>)
    requires |w0| == 4 && |w1| == 4 && at + 8 <= |b| && b[at..at + |w0 + w1|] == w0 + w1
    ensures b[at..at + 4] == w0 && b[at + 4..at + 8] == w1
  {
    assert b[at..at + 4] == b[at..at + 8][..4] && b[at + 4..at + 8] == b[at..at + 8][4..];
  }

  lemma RunTwo(m: Machine, m1: Machine, m2: Machine)
    requires |m.regs| == 31 && Step(m) == Some(m1) && |m1.regs| == 31 && Step(m1) == Some(m2) && |m2.regs| == 31
    ensures Run(m, 2) == Some(m2)
  {
    hide Step, Run;
    RunNone(m2);
    RunCons(m1, m2, 0);
    RunCons(m, m1, 1);
  }

  /** Executing a patched ADD of the page register to itself. */
  lemma StepADD(m: Machine, code: seq<byte>, base: nat, k: nat, reg: nat, d: int)
    requires Holding(m, code, base) && m.pc == base + k && k + 4 <= |code| && reg < 31
    requires code[k..k + 4] == LE32(PatchedOp(BareOp(0x244, reg, reg), d, 0))
    ensures Step(m) == Some(m.(regs := m.regs[reg := U64(m.regs[reg] + U64(d) % 0x1000)], pc := m.pc + 4))
  {
    hide LE32, Or, U64;
    PowersOfTwo();
    var imm := U64(d) % 0x1000;
    OpWord(0x244, reg, reg, imm);
    var w := PatchedOp(BareOp(0x244, reg, reg), d, 0);
    WordAt(m, code, base, k, w);
    FetchAt(m, w);
    assert w / 0x8000_0000 == 1 && w / 0x100_0000 == 0x91;
  }

  /** Near R_ADDRARM64 forms the target in the register. */
  lemma NearAddMeaning(m: Machine, code: seq<byte>, saved: map<nat, seq<byte>>, loc: Reloc,
                       symAddr: int, base: nat, force: bool, reg: nat)
    requires InBounds(code, saved, loc) && loc.kind == AddrArm64
    requires BarePair(Original(code, saved, loc), AddrArm64, 0x244, reg, reg)
    requires !IsFar(symAddr, loc, base, force)
    requires Holding(m, RelocatedADRP(code, saved, loc, symAddr, base, force).code, base)
    requires m.pc == base + loc.offset
    ensures var d := PageDistance(symAddr, loc, base);
      Run(m, 2) == Some(m.(regs := m.regs[reg := U64(FormedPage(m.pc, d) + d % 0x1000)],
                           pc := base + loc.offset + 8))
  {
    hide Step, Run, LE32, Or, PatchedADRP, PatchedOp, RelocatedADRP, S64, U64;
    var d := PageDistance(symAddr, loc, base);
    var code' := RelocatedADRP(code, saved, loc, symAddr, base, force).code;
    NearPair(code, saved, loc, symAddr, base, force, 0x244, reg, reg);
    PageCount(d);
    StepADRP(m, code', base, loc.offset, reg, d);
    var m1 := m.(regs := m.regs[reg := FormedPage(m.pc, d)], pc := m.pc + 4);
    StepADD(m1, code', base, loc.offset + 4, reg, d);
    var formed := U64(m1.regs[reg] + U64(d) % 0x1000);
    assert m1.regs[reg := formed] == m.regs[reg := formed];
    RunTwo(m, m1, m1.(regs := m1.regs[reg := formed], pc := m1.pc + 4));
  }

  /** At a page distance of exactly 2^32, which the near test lets through, ADRP's sign bit turns
      the page around; everywhere else the near form reaches the target. */
  lemma NearReachIff(symAddr: int, loc: Reloc, base: nat)
    requires var d := PageDistance(symAddr, loc, base); -TWO_32 <= d <= TWO_32
    ensures var d := PageDistance(symAddr, loc, base);
      U64(FormedPage(base + loc.offset, d) + d % 0x1000) == U64(Target(symAddr, loc)) <==> d < TWO_32
  {
    var d, page := PageDistance(symAddr, loc, base), PageOf(base + loc.offset);
    PageCount(d);
    if d < TWO_32 {
      NearSum(symAddr, loc, base);
    } else {
      WrapSum(page, symAddr + loc.add - page);
      assert U64(page + TWO_32) == U64(Target(symAddr, loc));
      assert U64(page - TWO_32) != U64(page + TWO_32) by { FarApart(page); }
      InRange(U64(page - TWO_32));
    }
  }

  lemma FarApart(x: int)
    ensures U64(x - TWO_32) != U64(x + TWO_32)
  {
  }

  /** The second instruction only contributes its transfer, its size and its registers. */
  lemma PerformAlike(m: Machine, op: nat, n: nat, t: nat, imm: nat, a: int)
    requires |m.regs| == 31 && op < 0x400 && n < 32 && t < 32 && imm < 0x1000
    ensures Perform(m, BareOp(op, n, t) + imm * 0x400, a) == Perform(m, BareOp(op, n, t), a)
  {
    hide Perform, Scale, BareOp;
    var w, w0 := BareOp(op, n, t) + imm * 0x400, BareOp(op, n, t);
    OpFields(op, n, t, imm);
    OpFields(op, n, t, 0);
    HighBits(w, w0);
    SameFields(m, w, w0, a);
  }

  lemma SameFields(m: Machine, w: nat, w0: nat, a: int)
    requires |m.regs| == 31 && w / 0x40_0000 == w0 / 0x40_0000 && w / 0x400_0000 == w0 / 0x400_0000
    requires Scale(w) == Scale(w0) && Rd(w) == Rd(w0)
    ensures Perform(m, w, a) == Perform(m, w0, a)
  {
    hide Transferred, Scale, Pow2;
  }

  /** Words that agree from bit 22 on agree in every field above. */
  lemma HighBits(w: nat, w0: nat)
    requires w / 0x40_0000 == w0 / 0x40_0000
    ensures w / 0x400_0000 == w0 / 0x400_0000 && w / 0x80_0000 == w0 / 0x80_0000
    ensures w / 0x4000_0000 == w0 / 0x4000_0000 && w / 0x100_0000 == w0 / 0x100_0000
    ensures Scale(w) == Scale(w0)
  {
    var h := w / 0x40_0000;
    assert w / 0x400_0000 == h / 16 && w / 0x80_0000 == h / 2 && w / 0x4000_0000 == h / 256 && w / 0x100_0000 == h / 4;
    assert w0 / 0x400_0000 == h / 16 && w0 / 0x80_0000 == h / 2;
    assert w0 / 0x4000_0000 == h / 256 && w0 / 0x100_0000 == h / 4;
  }

  /** Executing a load or store whose immediate was patched for an aligned distance. */
  lemma StepLoadStore(m: Machine, code: seq<byte>, base: nat, k: nat, kind: Kind, op: nat, n: nat, t: nat, d: int)
    requires Holding(m, code, base) && m.pc == base + k && k + 4 <= |code| && n < 31
    requires kind != AddrArm64 && SecondOp(kind, op, n, t) && Aligned(d, kind.Shift())
    requires code[k..k + 4] == LE32(PatchedOp(BareOp(op, n, t), d, kind.Shift()))
    ensures Step(m)
         == Some(Perform(m, BareOp(op, n, t), U64(m.regs[n] + d % 0x1000)).(pc := m.pc + 4))
  {
    hide LE32, Or, U64, Perform, ShiftRight, Aligned, SecondOp, IsLoadStore, IsADRP, IsADD, Scale, Pow2, BareOp;
    ScaledOffset(d, kind.Shift());
    SecondOpBounds(kind, op, n, t);
    var imm := ShiftRight(U64(d) % 0x1000, kind.Shift());
    OpFields(op, n, t, imm);
    OrField2(op, n, t, imm);
    var w := BareOp(op, n, t) + imm * 0x400;
    WordAt(m, code, base, k, w);
    FetchAt(m, w);
    LoadStoreFields(kind, op, n, t, imm);
    PerformAlike(m, op, n, t, imm, U64(m.regs[n] + d % 0x1000));
  }

  /** The scaled immediate stands for the low twelve bits of an aligned distance. */
  lemma ScaledOffset(d: int, shift: nat)
    requires shift <= 3 && Aligned(d, shift)
    ensures var imm := ShiftRight(U64(d) % 0x1000, shift); imm < 0x1000 && imm * Pow2(shift) == d % 0x1000
  {
    hide U64;
    LowTwelve(d);
    PowersOfTwo();
    LowBits(d);
  }

  lemma LowTwelve(d: int)
    ensures U64(d) % 0x1000 == d % 0x1000
  {
    assert U64(d) == d - 0x1000 * (0x10_0000_0000_0000 * (d / TWO_64));
    LowTwelveShift(d, 0x10_0000_0000_0000 * (d / TWO_64));
  }

  lemma LowTwelveShift(d: int, k: int)
    ensures (d - 0x1000 * k) % 0x1000 == d % 0x1000
  {
  }

  lemma LowBits(d: int)
    ensures d % 0x1000 % 2 == d % 2 && d % 0x1000 % 4 == d % 4 && d % 0x1000 % 8 == d % 8
  {
    PlusMultiple(d % 0x1000, 0x200 * (d / 0x1000));
  }

  lemma PlusMultiple(r: int, k: int)
    ensures (r + 8 * k) % 2 == r % 2 && (r + 8 * k) % 4 == r % 4 && (r + 8 * k) % 8 == r % 8
  {
    assert r + 8 * k == r + 2 * (4 * k) && r + 8 * k == r + 4 * (2 * k);
  }

  lemma SecondOpBounds(kind: Kind, op: nat, d: nat, t: nat)
    requires SecondOp(kind, op, d, t)
    ensures op < 0x400 && t < 32
  {
    hide IsLoadStore, Scale;
  }

  lemma OrField2(op: nat, n: nat, t: nat, imm: nat)
    requires op < 0x400 && n < 32 && t < 32 && imm < 0x1000
    ensures Or(BareOp(op, n, t), imm * 0x400) == BareOp(op, n, t) + imm * 0x400
  {
    hide Or;
    PowersOfTwo();
    OpFields(op, n, t, 0);
    assert BareOp(op, n, t) / 0x400 == op * 0x1000;
    OrField(BareOp(op, n, t), imm, 10, 12);
  }

  lemma LoadStoreFields(kind: Kind, op: nat, n: nat, t: nat, imm: nat)
    requires kind != AddrArm64 && SecondOp(kind, op, n, t) && n < 31 && imm < 0x1000
    ensures var w := BareOp(op, n, t) + imm * 0x400;
      && IsLoadStore(w) && Scale(w) == kind.Shift()
      && !(IsADRP(w) && Rd(w) < 31) && !IsADD(w)
  {
    var w, w0 := BareOp(op, n, t) + imm * 0x400, op * 0x40_0000;
    OpFields(op, n, t, imm);
    HighBits(w, w0);
    assert IsLoadStore(w0) && Scale(w0) == kind.Shift();
  }

  /** A near load or store accesses the target, through the page register. */
  lemma NearLoadStoreMeaning(m: Machine, code: seq<byte>, saved: map<nat, seq<byte>>, loc: Reloc,
                             symAddr: int, base: nat, force: bool, op: nat, reg: nat, t: nat)
    requires InBounds(code, saved, loc) && loc.kind != AddrArm64 && !loc.kind.ThroughSlot()
    requires BarePair(Original(code, saved, loc), loc.kind, op, reg, t)
    requires !IsFar(symAddr, loc, base, force) && PageDistance(symAddr, loc, base) < TWO_32
    requires RelocatedADRP(code, saved, loc, symAddr, base, force).outcome == Done
    requires Holding(m, RelocatedADRP(code, saved, loc, symAddr, base, force).code, base)
    requires m.pc == base + loc.offset
    ensures var page := FormedPage(m.pc, PageDistance(symAddr, loc, base));
      Run(m, 2) == Some(Perform(m.(regs := m.regs[reg := page], pc := m.pc + 4), BareOp(op, reg, t),
                                U64(Target(symAddr, loc))).(pc := base + loc.offset + 8))
  {
    hide Step, Run, LE32, Or, PatchedADRP, PatchedOp, S64, U64, Perform, Reset, NearPatched;
    var d := PageDistance(symAddr, loc, base);
    var code' := RelocatedADRP(code, saved, loc, symAddr, base, force).code;
    NearPair(code, saved, loc, symAddr, base, force, op, reg, t);
    NearSum(symAddr, loc, base);
    StepADRP(m, code', base, loc.offset, reg, d);
    var m1 := m.(regs := m.regs[reg := FormedPage(m.pc, d)], pc := m.pc + 4);
    StepLoadStore(m1, code', base, loc.offset + 4, loc.kind, op, reg, t, d);
    RunTwo(m, m1, Perform(m1, BareOp(op, reg, t), U64(Target(symAddr, loc))).(pc := m1.pc + 4));
  }

  // ----- through a slot -----

  lemma SlotPair(code: seq<byte>, saved: map<nat, seq<byte>>, loc: Reloc, symAddr: int, base: nat, force: bool,
                 reg: nat, t: nat)
    requires InBounds(code, saved, loc) && loc.kind.ThroughSlot() && loc.offset <= loc.epilogueOffset
    requires BarePair(Original(code, saved, loc), loc.kind, 0x3E5, reg, t)
    ensures var code' := RelocatedADRP(code, saved, loc, symAddr, base, force).code;
      var d := SlotDistance(base, loc);
      && |code'| == |code| && loc.epilogueOffset + 8 <= |code|
      && code'[loc.offset..loc.offset + 4] == LE32(PatchedADRP(BareADRP(reg), d))
      && code'[loc.offset + 4..loc.offset + 8] == LE32(PatchedOp(BareOp(0x3E5, reg, t), d, 3))
      && code'[loc.epilogueOffset..loc.epilogueOffset + 8] == LE64(Target(symAddr, loc))
  {
    hide LE32, LE64, Or, PatchedADRP, PatchedOp, Reset, SlotDistance;
    var pair, d := Original(code, saved, loc), SlotDistance(base, loc);
    BareWords(pair, loc.kind, 0x3E5, reg, t);
    var ready := Reset(code, pair, loc);
    var slot := LE64(Target(symAddr, loc));
    var slotted := Splice(ready, loc.epilogueOffset, slot);
    PatchedPair(slotted, pair, loc, d);
    var words := LE32(PatchedADRP(Get32(pair, 0), d)) + LE32(PatchedOp(Get32(pair, 4), d, 3));
    SpliceCommute(ready, loc.offset, words, loc.epilogueOffset, slot);
    SpliceRegion(Splice(ready, loc.offset, words), loc.epilogueOffset, slot);
  }

  /** R_ARM64_GOTPCREL: the pair loads the target address from the slot in the epilogue, which is
      aligned when the segment and the epilogue are. */
  lemma SlotMeaning(m: Machine, code: seq<byte>, saved: map<nat, seq<byte>>, loc: Reloc,
                    symAddr: int, base: nat, force: bool, reg: nat, t: nat)
    requires InBounds(code, saved, loc) && loc.kind.ThroughSlot() && loc.offset <= loc.epilogueOffset
    requires BarePair(Original(code, saved, loc), loc.kind, 0x3E5, reg, t)
    requires (base + loc.epilogueOffset) % 8 == 0
    requires Holding(m, RelocatedADRP(code, saved, loc, symAddr, base, force).code, base)
    requires m.pc == base + loc.offset
    ensures RelocatedADRP(code, saved, loc, symAddr, base, force).outcome == Done
    ensures var page := FormedPage(m.pc, SlotDistance(base, loc));
      Run(m, 2) == Some(m.(regs := m.regs[reg := page][t := U64(Target(symAddr, loc))],
                           pc := base + loc.offset + 8,
                           trace := m.trace + [Access(Transfer(BareOp(0x3E5, reg, t)), base + loc.epilogueOffset)]))
  {
    hide Step, Run, LE32, LE64, Or, PatchedADRP, PatchedOp, U64, Perform, Reset, NearPatched, Load, Splice;
    var slot, d := base + loc.epilogueOffset, SlotDistance(base, loc);
    SlotSum(base, loc);
    var code' := RelocatedADRP(code, saved, loc, symAddr, base, force).code;
    SlotPair(code, saved, loc, symAddr, base, force, reg, t);
    StepADRP(m, code', base, loc.offset, reg, d);
    var m1 := m.(regs := m.regs[reg := FormedPage(m.pc, d)], pc := m.pc + 4);
    StepLoadStore(m1, code', base, loc.offset + 4, loc.kind, 0x3E5, reg, t, d);
    HoldsPart(m.mem, base, code', loc.epilogueOffset, LE64(Target(symAddr, loc)));
    Load64Of(m.mem, slot, Target(symAddr, loc));
    PerformLDR(m1, reg, t, slot);
    RunTwo(m, m1, Perform(m1, BareOp(0x3E5, reg, t), slot).(pc := m1.pc + 4));
  }

  lemma SlotSum(base: nat, loc: Reloc)
    requires loc.offset <= loc.epilogueOffset && (base + loc.epilogueOffset) % 8 == 0
    requires loc.epilogueOffset < TWO_31 && base + loc.epilogueOffset < TWO_64
    ensures var d := SlotDistance(base, loc);
      && d % 8 == 0 && 0 <= d < TWO_32
      && U64(FormedPage(base + loc.offset, d) + d % 0x1000) == base + loc.epilogueOffset
  {
    hide U64, FormedPage;
    var d, page := SlotDistance(base, loc), PageOf(base + loc.offset);
    SlotIsAligned(base, loc);
    FormedSum(base + loc.offset, d);
    InRange(base + loc.epilogueOffset);
  }

  lemma SlotIsAligned(base: nat, loc: Reloc)
    requires loc.offset <= loc.epilogueOffset && (base + loc.epilogueOffset) % 8 == 0
    ensures var d := SlotDistance(base, loc);
      d % 8 == 0 && d == base + loc.epilogueOffset - PageOf(base + loc.offset)
  {
    var site := base + loc.offset;
    assert PageOf(site) == 8 * (0x200 * (site / 0x1000));
    var slot := base + loc.epilogueOffset;
    assert slot == 8 * (slot / 8);
    assert slot - PageOf(site) == 8 * (slot / 8 - 0x200 * (site / 0x1000));
  }

  lemma FormedSum(pc: int, d: int)
    requires -TWO_32 <= d < TWO_32
    ensures U64(FormedPage(pc, d) + d % 0x1000) == U64(PageOf(pc) + d)
  {
    hide U64;
    PageCount(d);
    WrapSum(d % 0x1000, PageOf(pc) + (d - d % 0x1000));
  }

  /** LDR Xt, [Xn]. */
  lemma PerformLDR(m: Machine, n: nat, t: nat, a: int)
    requires |m.regs| == 31 && n < 31 && t < 31
    ensures Perform(m, BareOp(0x3E5, n, t), a)
         == m.(regs := m.regs[t := Load64(m.mem, a)],
               trace := m.trace + [Access(Transfer(BareOp(0x3E5, n, t)), a)])
  {
    hide Load, StoreBytes, Pow256, BareOp;
    var w := BareOp(0x3E5, n, t);
    OpFields(0x3E5, n, t, 0);
    HighBits(w, 0x3E5 * 0x40_0000);
    PowersOfTwo();
  }

  // ----- far -----

  /** Where a relocated far pair branches to and what stands there. */
  lemma FarPair(code: seq<byte>, saved: map<nat, seq<byte>>, loc: Reloc, symAddr: int, base: nat, force: bool,
                op: nat, reg: nat, t: nat)
    requires InBounds(code, saved, loc) && BarePair(Original(code, saved, loc), loc.kind, op, reg, t)
    requires !loc.kind.ThroughSlot() && IsFar(symAddr, loc, base, force) && loc.epilogueSize > 0
    ensures RelocatedADRP(code, saved, loc, symAddr, base, force).outcome == Done
    ensures var code' := RelocatedADRP(code, saved, loc, symAddr, base, force).code;
      var epilogue := FarEpilogue(BareADRP(reg), LE32(BareOp(op, reg, t)), loc, Target(symAddr, loc));
      && |code'| == |code| && loc.epilogueOffset + |epilogue| <= |code|
      && code'[loc.offset..loc.offset + 4] == LE32(Branch(loc.epilogueOffset - loc.offset))
      && code'[loc.epilogueOffset..loc.epilogueOffset + |epilogue|] == epilogue
  {
    hide LE32, LE64, Or, Branch, Reset, IsFar, FarEpilogue, PageDistance;
    var pair := Original(code, saved, loc);
    BareWords(pair, loc.kind, op, reg, t);
    var ready := Reset(code, pair, loc);
    SpliceApart(ready, loc.offset, LE32(Branch(loc.epilogueOffset - loc.offset)), loc.epilogueOffset,
                FarEpilogue(BareADRP(reg), LE32(BareOp(op, reg, t)), loc, Target(symAddr, loc)));
  }

  /** A branch over a distance within 128 MiB. */
  lemma StepBranch(m: Machine, code: seq<byte>, base: nat, k: nat, d: int)
    requires Holding(m, code, base) && m.pc == base + k && k + 4 <= |code|
    requires code[k..k + 4] == LE32(Branch(d)) && d % 4 == 0 && -0x800_0000 <= d < 0x800_0000
    requires 0 <= base + k + d < TWO_64
    ensures Step(m) == Some(m.(pc := base + k + d))
  {
    hide LE32, Branch;
    BranchWordDecodes(d);
    WordAt(m, code, base, k, Branch(d));
    FetchAt(m, Branch(d));
    BranchOnly(Branch(d));
    InRange(base + k + d);
  }

  lemma BranchOnly(w: nat)
    requires IsB(w)
    ensures !IsADRP(w) && !IsADD(w) && !IsLoadStore(w) && !IsLDRLiteral(w)
  {
    assert w / 0x8000_0000 == 0;
    assert w / 0x100_0000 / 4 == 5;
    assert w / 0x40_0000 / 16 == 5;
  }

  /** LDR Xd, the 64-bit literal `bytes` behind. */
  lemma StepLiteral(m: Machine, code: seq<byte>, base: nat, k: nat, bytes: nat, reg: nat, v: int)
    requires Holding(m, code, base) && m.pc == base + k && (bytes == 8 || bytes == 12) && reg < 31
    requires k + bytes + 8 <= |code|
    requires code[k..k + 4] == LE32(Or(if bytes == 8 then LDR_CODE_8_BYTES else LDR_CODE_12_BYTES, BareADRP(reg) % 32))
    requires code[k + bytes..k + bytes + 8] == LE64(v)
    ensures Step(m) == Some(m.(regs := m.regs[reg := U64(v)], pc := m.pc + 4))
  {
    hide LE32, LE64, Or, Load, U64;
    assert BareADRP(reg) % 32 == reg;
    LiteralWord(bytes, reg);
    var w := Or(if bytes == 8 then LDR_CODE_8_BYTES else LDR_CODE_12_BYTES, reg);
    WordAt(m, code, base, k, w);
    FetchAt(m, w);
    LiteralOnly(w);
    InRange(m.pc + bytes);
    HoldsPart(m.mem, base, code, k + bytes, LE64(v));
    Load64Of(m.mem, base + k + bytes, v);
  }

  lemma LiteralOnly(w: nat)
    requires IsLDRLiteral(w)
    ensures !IsADRP(w) && !IsADD(w) && !IsLoadStore(w)
  {
    assert w / 0x8000_0000 == 0;
    assert w / 0x40_0000 / 4 == 0x58;
  }

  /** The epilogue of a far ADD, piece by piece. */
  lemma FarAddParts(code: seq<byte>, loc: Reloc, reg: nat, op: seq<byte>, target: int)
    requires loc.kind == AddrArm64 && |op| == 4
    requires loc.epilogueOffset + 16 <= |code|
    requires code[loc.epilogueOffset..loc.epilogueOffset + 16] == FarEpilogue(BareADRP(reg), op, loc, target)
    ensures var epi := loc.epilogueOffset;
      && code[epi..epi + 4] == LE32(Or(LDR_CODE_8_BYTES, BareADRP(reg) % 32))
      && code[epi + 4..epi + 8] == LE32(Branch(loc.offset + 8 - (epi + 4)))
      && code[epi + 8..epi + 16] == LE64(target)
  {
    hide LE32, LE64, Or, Branch;
    var load := LE32(Or(LDR_CODE_8_BYTES, BareADRP(reg) % 32));
    var back := LE32(Branch(loc.offset + 8 - (loc.epilogueOffset + 4)));
    TwoParts(code, loc.epilogueOffset, load + back, LE64(target));
    TwoParts(code, loc.epilogueOffset, load, back);
  }

  /** Sites and epilogues are instruction-aligned and within reach of a branch. */
  predicate BranchReach(loc: Reloc) {
    loc.offset % 4 == 0 && loc.epilogueOffset % 4 == 0
    && loc.offset + 8 <= loc.epilogueOffset && loc.epilogueOffset - loc.offset < 0x800_0000
  }

  /** Far R_ADDRARM64 forms the target in the register: branch, load the literal, branch back. */
  lemma FarAddMeaning(m: Machine, code: seq<byte>, saved: map<nat, seq<byte>>, loc: Reloc,
                      symAddr: int, base: nat, force: bool, reg: nat)
    requires InBounds(code, saved, loc) && loc.kind == AddrArm64 && BranchReach(loc)
    requires BarePair(Original(code, saved, loc), AddrArm64, 0x244, reg, reg)
    requires IsFar(symAddr, loc, base, force) && loc.epilogueSize > 0
    requires Holding(m, RelocatedADRP(code, saved, loc, symAddr, base, force).code, base)
    requires m.pc == base + loc.offset
    ensures RelocatedADRP(code, saved, loc, symAddr, base, force).outcome == Done
    ensures Run(m, 3) == Some(m.(regs := m.regs[reg := U64(Target(symAddr, loc))], pc := base + loc.offset + 8))
  {
    hide Step, Run, LE32, LE64, Or, Branch, RelocatedADRP, FarEpilogue, U64, IsFar, Target;
    var epi, target := loc.epilogueOffset, Target(symAddr, loc);
    var code' := RelocatedADRP(code, saved, loc, symAddr, base, force).code;
    FarPair(code, saved, loc, symAddr, base, force, 0x244, reg, reg);
    FarAddParts(code', loc, reg, LE32(BareOp(0x244, reg, reg)), target);
    StepBranch(m, code', base, loc.offset, epi - loc.offset);
    var m1 := m.(pc := base + epi);
    StepLiteral(m1, code', base, epi, 8, reg, target);
    var m2 := m1.(regs := m.regs[reg := U64(target)], pc := base + epi + 4);
    StepBranch(m2, code', base, epi + 4, loc.offset + 8 - (epi + 4));
    var m3 := m2.(pc := base + loc.offset + 8);
    RunTwo(m1, m2, m3);
    RunCons(m, m1, 2);
  }

  /** The branch of a far pair carries 25 bits of its distance, unchecked: it reaches the epilogue if and
      only if that starts less than 128 MiB behind the site; the branch back is the shorter one. */
  lemma FarPairReachIff(m: Machine, code: seq<byte>, saved: map<nat, seq<byte>>, loc: Reloc,
                        symAddr: int, base: nat, force: bool, op: nat, reg: nat, t: nat)
    requires InBounds(code, saved, loc) && !loc.kind.ThroughSlot()
    requires BarePair(Original(code, saved, loc), loc.kind, op, reg, t)
    requires IsFar(symAddr, loc, base, force) && loc.epilogueSize > 0
    requires loc.offset % 4 == 0 && loc.epilogueOffset % 4 == 0
    requires Holding(m, RelocatedADRP(code, saved, loc, symAddr, base, force).code, base)
    requires m.pc == base + loc.offset
    ensures Step(m).Some?
    ensures Step(m).value.pc == base + loc.epilogueOffset <==> BranchReach(loc)
  {
    hide Step, LE32, LE64, Or, Branch, RelocatedADRP, FarEpilogue, U64, IsFar, Target;
    var d := loc.epilogueOffset - loc.offset;
    var code' := RelocatedADRP(code, saved, loc, symAddr, base, force).code;
    FarPair(code, saved, loc, symAddr, base, force, op, reg, t);
    ForwardBranch(d);
    WordAt(m, code', base, loc.offset, Branch(d));
    FetchAt(m, Branch(d));
    BranchOnly(Branch(d));
    InRange(base + loc.offset + d % 0x800_0000);
  }

  lemma ForwardBranch(d: nat)
    requires d % 4 == 0 && d < TWO_31
    ensures Branch(d) < TWO_32 && IsB(Branch(d))
    ensures Signed(Branch(d) % 0x400_0000, 0x200_0000) * 4 == d % 0x800_0000
  {
    InWord(d);
    assert d / 4 % 0x200_0000 * 4 == d % 0x800_0000;
  }

  /** The epilogue of a far load or store, piece by piece. */
  lemma FarAccessParts(code: seq<byte>, loc: Reloc, reg: nat, op: seq<byte>, target: int)
    requires loc.kind != AddrArm64 && |op| == 4
    requires loc.epilogueOffset + 20 <= |code|
    requires code[loc.epilogueOffset..loc.epilogueOffset + 20] == FarEpilogue(BareADRP(reg), op, loc, target)
    ensures var epi := loc.epilogueOffset;
      && code[epi..epi + 4] == LE32(Or(LDR_CODE_12_BYTES, BareADRP(reg) % 32))
      && code[epi + 4..epi + 8] == op
      && code[epi + 8..epi + 12] == LE32(Branch(loc.offset + 8 - (epi + 8)))
      && code[epi + 12..epi + 20] == LE64(target)
  {
    hide LE32, LE64, Or, Branch;
    var load := LE32(Or(LDR_CODE_12_BYTES, BareADRP(reg) % 32));
    var back := LE32(Branch(loc.offset + 8 - (loc.epilogueOffset + 8)));
    TwoParts(code, loc.epilogueOffset, load + op + back, LE64(target));
    TwoParts(code, loc.epilogueOffset, load + op, back);
    TwoParts(code, loc.epilogueOffset, load, op);
  }

  /** Executing the bare load or store accesses exactly the address in its base register. */
  lemma StepBareAccess(m: Machine, code: seq<byte>, base: nat, k: nat, kind: Kind, op: nat, n: nat, t: nat)
    requires Holding(m, code, base) && m.pc == base + k && k + 4 <= |code| && n < 31
    requires kind != AddrArm64 && SecondOp(kind, op, n, t)
    requires code[k..k + 4] == LE32(BareOp(op, n, t))
    ensures Step(m) == Some(Perform(m, BareOp(op, n, t), m.regs[n]).(pc := m.pc + 4))
  {
    hide LE32, Perform, U64, Pow2, BareOp, SecondOp, IsLoadStore, IsADRP, IsADD, Scale;
    SecondOpBounds(kind, op, n, t);
    OpFields(op, n, t, 0);
    LoadStoreFields(kind, op, n, t, 0);
    WordAt(m, code, base, k, BareOp(op, n, t));
    FetchAt(m, BareOp(op, n, t));
    InRange(m.regs[n]);
  }

  // ----- what an access leaves alone -----

  /** Address `x` is one of the `n` bytes from `a` on. */
  predicate Touches(x: int, a: int, n: nat) { U64(x - a) < n }

  /** The load or store `w` does not store into the segment. */
  ghost predicate SparesCode(w: nat, a: int, base: nat, length: nat) {
    w / 0x400_0000 % 2 == 0 && w / 0x40_0000 % 4 == 0 ==>
      forall x :: base <= x < base + length ==> !Touches(x, a, Pow2(Scale(w)))
  }

  /** Executing it keeps the segment in memory. */
  lemma PerformKeepsCode(m: Machine, w: nat, a: int, code: seq<byte>, base: nat)
    requires Holding(m, code, base) && SparesCode(w, a, base, |code|)
    ensures Holding(Perform(m, w, a), code, base)
  {
    hide StoreBytes, Load, Loaded, Pow2, Holding, Touches;
    assert |m.regs| == 31 by { HoldingRegs(m, code, base); }
    var logged := m.(trace := m.trace + [Access(Transfer(w), a)]);
    HoldingLogged(m, logged, code, base);
    var n, opc := Pow2(Scale(w)), w / 0x40_0000 % 4;
    if w / 0x400_0000 % 2 == 0 {
      ScaleWidth(w);
      if opc == 0 {
        StoreKeepsCode(logged, a, if Rd(w) == 31 then 0 else U64(m.regs[Rd(w)]), n, code, base);
      } else if Rd(w) < 31 {
        LoadKeepsCode(logged, Rd(w), a, n, opc, code, base);
      }
    }
  }

  lemma ScaleWidth(w: nat)
    requires w / 0x400_0000 % 2 == 0
    ensures var n := Pow2(Scale(w)); n == 1 || n == 2 || n == 4 || n == 8
  {
    PowersOfTwo();
  }

  lemma HoldingRegs(m: Machine, code: seq<byte>, base: nat)
    requires Holding(m, code, base)
    ensures |m.regs| == 31
  {
  }

  lemma HoldingLogged(m: Machine, m': Machine, code: seq<byte>, base: nat)
    requires Holding(m, code, base) && m'.mem == m.mem && m'.regs == m.regs && m'.pc == m.pc
    ensures Holding(m', code, base)
  {
  }

  lemma StoreKeepsCode(m: Machine, a: int, v: nat, n: nat, code: seq<byte>, base: nat)
    requires Holding(m, code, base) && forall x :: base <= x < base + |code| ==> !Touches(x, a, n)
    ensures Holding(m.(mem := StoreBytes(m.mem, a, v, n)), code, base)
  {
    hide LE;
    var mem := StoreBytes(m.mem, a, v, n);
    forall i | 0 <= i < |code| ensures mem(base + i) == code[i] {
      assert !Touches(base + i, a, n) && m.mem(base + i) == code[i];
    }
  }

  lemma LoadKeepsCode(m: Machine, rt: nat, a: int, n: nat, opc: nat, code: seq<byte>, base: nat)
    requires Holding(m, code, base) && rt < 31 && (n == 1 || n == 2 || n == 4 || n == 8)
    ensures Holding(m.(regs := m.regs[rt := Loaded(Load(m.mem, a, n), n, opc)]), code, base)
  {
    hide Load, Loaded;
    LoadBound(m.mem, a, n);
    LoadedBound(Load(m.mem, a, n), n, opc);
  }

  lemma LoadedBound(v: nat, n: nat, opc: nat)
    requires (n == 1 || n == 2 || n == 4 || n == 8) && v < Pow256(n)
    ensures 0 <= Loaded(v, n, opc) < TWO_64
  {
    assert Pow256(1) == 0x100 && Pow256(2) == 0x1_0000 && Pow256(4) == TWO_32 && Pow256(8) == TWO_64;
  }

  /** A far load or store: branch, load the literal, perform the access, branch back. */
  lemma FarLoadStoreMeaning(m: Machine, code: seq<byte>, saved: map<nat, seq<byte>>, loc: Reloc,
                            symAddr: int, base: nat, force: bool, op: nat, reg: nat, t: nat)
    requires InBounds(code, saved, loc) && loc.kind != AddrArm64 && !loc.kind.ThroughSlot() && BranchReach(loc)
    requires BarePair(Original(code, saved, loc), loc.kind, op, reg, t)
    requires IsFar(symAddr, loc, base, force) && loc.epilogueSize > 0
    requires SparesCode(BareOp(op, reg, t), U64(Target(symAddr, loc)), base, |code|)
    requires Holding(m, RelocatedADRP(code, saved, loc, symAddr, base, force).code, base)
    requires m.pc == base + loc.offset
    ensures RelocatedADRP(code, saved, loc, symAddr, base, force).outcome == Done
    ensures var target := U64(Target(symAddr, loc));
      Run(m, 4) == Some(Perform(m.(regs := m.regs[reg := target]), BareOp(op, reg, t), target)
                        .(pc := base + loc.offset + 8))
  {
    hide Step, Run, LE32, LE64, Or, Branch, RelocatedADRP, FarEpilogue, U64, IsFar, Target, Perform, SparesCode;
    var epi, target, w := loc.epilogueOffset, Target(symAddr, loc), BareOp(op, reg, t);
    var code' := RelocatedADRP(code, saved, loc, symAddr, base, force).code;
    FarPair(code, saved, loc, symAddr, base, force, op, reg, t);
    FarAccessParts(code', loc, reg, LE32(w), target);
    StepBranch(m, code', base, loc.offset, epi - loc.offset);
    var m1 := m.(pc := base + epi);
    StepLiteral(m1, code', base, epi, 12, reg, target);
    var m2 := m1.(regs := m.regs[reg := U64(target)], pc := base + epi + 4);
    StepBareAccess(m2, code', base, epi + 4, loc.kind, op, reg, t);
    PerformKeepsCode(m2, w, U64(target), code', base);
    var m3 := Perform(m2, w, U64(target)).(pc := base + epi + 8);
    StepBranch(m3, code', base, epi + 8, loc.offset + 8 - (epi + 8));
    RunTwo(m2, m3, m3.(pc := base + loc.offset + 8));
    RunCons(m1, m2, 2);
    RunCons(m, m1, 3);
    PerformAnywhere(m2, w, U64(target), m.pc);
  }

  /** An access does not depend on the program counter. */
  lemma PerformAnywhere(m: Machine, w: nat, a: int, pc: int)
    requires |m.regs| == 31
    ensures Perform(m.(pc := pc), w, a) == Perform(m, w, a).(pc := pc)
  {
    hide Load, StoreBytes, Loaded, U64;
  }

  // ----- near and far alike -----

  /** R_ADDRARM64: whatever the distance, the pair leaves the target address in its register,
      continues behind itself and changes nothing else. */
  lemma AddMeaning(m: Machine, code: seq<byte>, saved: map<nat, seq<byte>>, loc: Reloc,
                   symAddr: int, base: nat, force: bool, reg: nat)
    requires InBounds(code, saved, loc) && loc.kind == AddrArm64
    requires BarePair(Original(code, saved, loc), AddrArm64, 0x244, reg, reg)
    requires IsFar(symAddr, loc, base, force) ==> loc.epilogueSize > 0 && BranchReach(loc)
    requires PageDistance(symAddr, loc, base) != TWO_32 || IsFar(symAddr, loc, base, force)
    requires Holding(m, RelocatedADRP(code, saved, loc, symAddr, base, force).code, base)
    requires m.pc == base + loc.offset
    ensures Run(m, if IsFar(symAddr, loc, base, force) then 3 else 2)
         == Some(m.(regs := m.regs[reg := U64(Target(symAddr, loc))], pc := base + loc.offset + 8))
  {
    if IsFar(symAddr, loc, base, force) {
      hide *;
      FarAddMeaning(m, code, saved, loc, symAddr, base, force, reg);
    } else {
      hide U64, S64, Run, RelocatedADRP, FormedPage;
      NearAddMeaning(m, code, saved, loc, symAddr, base, force, reg);
      NearSum(symAddr, loc, base);
    }
  }

  /** R_ARM64_PCREL_LDST*: whatever the distance, the pair performs its load or store at exactly
      the target address and continues behind itself.  Only the page register differs: it holds
      the page in the near form and the target in the far form. */
  lemma LoadStoreMeaning(m: Machine, code: seq<byte>, saved: map<nat, seq<byte>>, loc: Reloc,
                         symAddr: int, base: nat, force: bool, op: nat, reg: nat, t: nat)
    requires InBounds(code, saved, loc) && loc.kind != AddrArm64 && !loc.kind.ThroughSlot()
    requires BarePair(Original(code, saved, loc), loc.kind, op, reg, t)
    requires IsFar(symAddr, loc, base, force) ==> loc.epilogueSize > 0 && BranchReach(loc)
    requires PageDistance(symAddr, loc, base) != TWO_32 || IsFar(symAddr, loc, base, force)
    requires RelocatedADRP(code, saved, loc, symAddr, base, force).outcome == Done
    requires IsFar(symAddr, loc, base, force) ==>
      SparesCode(BareOp(op, reg, t), U64(Target(symAddr, loc)), base, |code|)
    requires Holding(m, RelocatedADRP(code, saved, loc, symAddr, base, force).code, base)
    requires m.pc == base + loc.offset
    ensures var far, target := IsFar(symAddr, loc, base, force), U64(Target(symAddr, loc));
      var through := if far then target else FormedPage(m.pc, PageDistance(symAddr, loc, base));
      Run(m, if far then 4 else 2)
      == Some(Perform(m.(regs := m.regs[reg := through]), BareOp(op, reg, t), target)
              .(pc := base + loc.offset + 8))
  {
    if IsFar(symAddr, loc, base, force) {
      hide *;
      FarLoadStoreMeaning(m, code, saved, loc, symAddr, base, force, op, reg, t);
    } else {
      hide U64, S64, Run, RelocatedADRP, FormedPage, Perform, SparesCode, SecondOp, BareOp;
      NearLoadStoreMeaning(m, code, saved, loc, symAddr, base, force, op, reg, t);
      var page := FormedPage(m.pc, PageDistance(symAddr, loc, base));
      PerformAnywhere(m.(regs := m.regs[reg := page]), BareOp(op, reg, t), U64(Target(symAddr, loc)), m.pc + 4);
    }
  }

  // ----- R_CALLARM64 -----

  const BARE_BL: nat := 0x9400_0000
  const IP1 := 17  // X17, free for veneers

  /** BL with a clear immediate field, or-ed with a distance. */
  lemma CallWord(d: int)
    requires -0x80_0000 <= d <= 0x7F_FFFF
    ensures var w := Or(BARE_BL, U32(d) % 0x400_0000);
      && w < TWO_32 && IsBL(w) && Signed(w % 0x400_0000, 0x200_0000) == d
      && !IsADRP(w) && !IsADD(w) && !IsLoadStore(w) && !IsLDRLiteral(w) && !IsB(w)
  {
    PowersOfTwo();
    OrField(BARE_BL, U32(d) % 0x400_0000, 0, 26);
    BLWord(d);
  }

  lemma BLWord(d: int)
    requires -0x200_0000 <= d < 0x200_0000
    ensures var w := BARE_BL + U32(d) % 0x400_0000;
      && w < TWO_32 && IsBL(w) && Signed(w % 0x400_0000, 0x200_0000) == d
      && !IsADRP(w) && !IsADD(w) && !IsLoadStore(w) && !IsLDRLiteral(w) && !IsB(w)
  {
    var w := BARE_BL + U32(d) % 0x400_0000;
    if d < 0 {
      assert U32(d) == d + TWO_32;
    }
    assert w / 0x400_0000 == 0x25;
    assert w / 0x100_0000 / 4 == 0x25;
    assert w / 0x40_0000 / 16 == 0x25;
  }

  /** BL over `d` words. */
  lemma StepBL(m: Machine, code: seq<byte>, base: nat, k: nat, w: nat, d: int)
    requires Holding(m, code, base) && m.pc == base + k && k + 4 <= |code| && w < TWO_32
    requires code[k..k + 4] == LE32(w)
    requires IsBL(w) && Signed(w % 0x400_0000, 0x200_0000) == d
    requires !IsADRP(w) && !IsADD(w) && !IsLoadStore(w) && !IsLDRLiteral(w) && !IsB(w)
    ensures Step(m) == Some(m.(regs := m.regs[30 := m.pc + 4], pc := U64(m.pc + d * 4)))
  {
    hide LE32, U64, IsADRP, IsADD, IsLoadStore, IsLDRLiteral, IsB;
    WordAt(m, code, base, k, w);
    FetchAt(m, w);
  }

  /** A near call to a target a whole number of instructions away. */
  lemma NearCallMeaning(m: Machine, code: seq<byte>, loc: Reloc, addr: int, base: nat, force: bool)
    requires CallInBounds(code, loc) && !IsFarCall(addr, loc, base, force)
    requires code[loc.offset..loc.offset + 4] == LE32(BARE_BL)
    requires (Target(addr, loc) - (base + loc.offset)) % 4 == 0
    requires Holding(m, RelocatedCALL(code, loc, addr, base, force).0, base) && m.pc == base + loc.offset
    ensures Step(m) == Some(m.(regs := m.regs[30 := base + loc.offset + 4], pc := U64(Target(addr, loc))))
  {
    hide Step, LE32, Or, U64, S64, Val;
    var d := CallDistance(addr, loc, base);
    var ready := Splice(code, loc.epilogueOffset, seq(loc.epilogueSize, _ => 0));
    SpliceAt(code, loc.epilogueOffset, seq(loc.epilogueSize, _ => 0));
    assert ready[loc.offset..loc.offset + 4] == LE32(BARE_BL);
    ValLE32(BARE_BL);
    assert U32(BARE_BL) == BARE_BL;
    CallWord(d);
    var w := Or(BARE_BL, U32(d) % 0x400_0000);
    SpliceRegion(ready, loc.offset, LE32(w));
    StepBL(m, RelocatedCALL(code, loc, addr, base, force).0, base, loc.offset, w, d);
    WordDistance(addr, loc, base);
  }

  lemma WordDistance(addr: int, loc: Reloc, base: nat)
    requires (Target(addr, loc) - (base + loc.offset)) % 4 == 0
    ensures U64(base + loc.offset + CallDistance(addr, loc, base) * 4) == U64(Target(addr, loc))
  {
    var x := Target(addr, loc) - (base + loc.offset);
    WrapSum(base + loc.offset, x);
    WholeWords(x);
  }

  lemma WholeWords(x: int)
    requires x % 4 == 0
    ensures Quotient(S64(x), 4) * 4 == S64(x)
  {
    hide S64;
    var k := SignedMultiple(x);
    if k < 0 {
      assert -S64(x) == 4 * (-k);
    }
  }

  lemma SignedMultiple(x: int) returns (k: int)
    requires x % 4 == 0
    ensures S64(x) == 4 * k
  {
    k := x / 4 - 0x4000_0000_0000_0000 * (x / TWO_64);
    assert x % TWO_64 == 4 * k;
    if x % TWO_64 >= TWO_63 {
      k := k - 0x4000_0000_0000_0000;
    }
  }

  /** A far call goes through X17, with the return address behind the site. */
  lemma FarCallMeaning(m: Machine, code: seq<byte>, loc: Reloc, addr: int, base: nat, force: bool)
    requires CallInBounds(code, loc) && IsFarCall(addr, loc, base, force) && loc.epilogueSize > 0
    requires code[loc.offset..loc.offset + 4] == LE32(BARE_BL)
    requires (loc.epilogueOffset - loc.offset) % 4 == 0 && loc.epilogueOffset - loc.offset < 0x400_0000
    requires Holding(m, RelocatedCALL(code, loc, addr, base, force).0, base) && m.pc == base + loc.offset
    ensures Run(m, 3) == Some(m.(regs := m.regs[30 := base + loc.offset + 4][IP1 := U64(Target(addr, loc))],
                                 pc := U64(Target(addr, loc))))
  {
    hide Step, Run, LE32, LE64, Or, U64, S64, RelocatedCALL, Target;
    var epi, target := loc.epilogueOffset, Target(addr, loc);
    var code' := RelocatedCALL(code, loc, addr, base, force).0;
    FarCallBytes(code, loc, addr, base, force);
    FarCallStep(m, code, loc, addr, base, force);
    InRange(base + epi);
    var m1 := m.(regs := m.regs[30 := base + loc.offset + 4], pc := base + epi);
    CallThroughIP1(m1, code', base, epi, target);
    RunCons(m, m1, 2);
  }

  /** The branch of a far call carries 24 bits of its distance, unchecked: it reaches the epilogue if and
      only if that starts less than 64 MiB behind the site. */
  lemma FarCallReachIff(m: Machine, code: seq<byte>, loc: Reloc, addr: int, base: nat, force: bool)
    requires CallInBounds(code, loc) && IsFarCall(addr, loc, base, force) && loc.epilogueSize > 0
    requires code[loc.offset..loc.offset + 4] == LE32(BARE_BL)
    requires (loc.epilogueOffset - loc.offset) % 4 == 0
    requires Holding(m, RelocatedCALL(code, loc, addr, base, force).0, base) && m.pc == base + loc.offset
    ensures Step(m).Some? && Step(m).value.regs[30] == base + loc.offset + 4
    ensures Step(m).value.pc == base + loc.epilogueOffset <==> loc.epilogueOffset - loc.offset < 0x400_0000
  {
    hide Step, LE32, LE64, RelocatedCALL, U64;
    var d := loc.epilogueOffset - loc.offset;
    FarCallStep(m, code, loc, addr, base, force);
    InRange(base + loc.offset + d % 0x400_0000);
  }

  lemma FarCallStep(m: Machine, code: seq<byte>, loc: Reloc, addr: int, base: nat, force: bool)
    requires CallInBounds(code, loc) && IsFarCall(addr, loc, base, force) && loc.epilogueSize > 0
    requires code[loc.offset..loc.offset + 4] == LE32(BARE_BL)
    requires (loc.epilogueOffset - loc.offset) % 4 == 0
    requires Holding(m, RelocatedCALL(code, loc, addr, base, force).0, base) && m.pc == base + loc.offset
    ensures Step(m) == Some(m.(regs := m.regs[30 := base + loc.offset + 4],
                               pc := U64(base + loc.offset + (loc.epilogueOffset - loc.offset) % 0x400_0000)))
  {
    hide Step, LE32, LE64, RelocatedCALL, U64;
    var code' := RelocatedCALL(code, loc, addr, base, force).0;
    var d := (loc.epilogueOffset - loc.offset) / 4 % 0x100_0000;
    FarCallBytes(code, loc, addr, base, force);
    BLWord(d);
    assert BARE_BL + d == BARE_BL + U32(d) % 0x400_0000;
    StepBL(m, code', base, loc.offset, BARE_BL + d, d);
    InBytes(loc.epilogueOffset - loc.offset);
  }

  lemma InBytes(x: nat)
    requires x % 4 == 0
    ensures x / 4 % 0x100_0000 * 4 == x % 0x400_0000
  {
  }

  /** LDR X17 from the literal eight bytes on, BR X17. */
  lemma CallThroughIP1(m: Machine, code: seq<byte>, base: nat, at: nat, target: int)
    requires Holding(m, code, base) && m.pc == base + at && at + 16 <= |code|
    requires code[at..at + 16] == CALL_CODE + LE64(target)
    ensures Run(m, 2) == Some(m.(regs := m.regs[IP1 := U64(target)], pc := U64(target)))
  {
    hide Step, Run, LE64, U64;
    VeneerWords();
    TwoParts(code, at, CALL_CODE, LE64(target));
    TwoParts(code, at, LE32(Or(LDR_CODE_8_BYTES, BareADRP(IP1) % 32)), LE32(0xD61F_0220));
    StepLiteral(m, code, base, at, 8, IP1, target);
    var m1 := m.(regs := m.regs[IP1 := U64(target)], pc := m.pc + 4);
    StepBR(m1, code, base, at + 4);
    RunTwo(m, m1, m1.(pc := U64(target)));
  }

  lemma VeneerWords()
    ensures CALL_CODE == LE32(Or(LDR_CODE_8_BYTES, BareADRP(IP1) % 32)) + LE32(0xD61F_0220)
  {
    hide Or, LE32;
    LiteralIP1();
    LEFour(0x58, 0, 0, 0x51);
    LEFour(0xD6, 0x1F, 0x02, 0x20);
  }

  lemma LiteralIP1()
    ensures Or(LDR_CODE_8_BYTES, BareADRP(IP1) % 32) == 0x5800_0051
  {
    hide Or;
    PowersOfTwo();
    OrField(LDR_CODE_8_BYTES, 17, 0, 5);
  }

  lemma LEFour(b3: byte, b2: byte, b1: byte, b0: byte)
    ensures LE32(b3 * 0x100_0000 + b2 * 0x1_0000 + b1 * 0x100 + b0) == [b0, b1, b2, b3]
  {
    hide U32, LE;
    var w: nat := b3 * 0x100_0000 + b2 * 0x1_0000 + b1 * 0x100 + b0;
    InWord(w);
    LowByte(b0, b3 * 0x1_0000 + b2 * 0x100 + b1, 3);
    LowByte(b1, b3 * 0x100 + b2, 2);
    LowByte(b2, b3, 1);
    LowByte(b3, 0, 0);
    NoBytes(0);
  }

  lemma LowByte(b: byte, rest: nat, n: nat)
    ensures LE(rest * 0x100 + b, n + 1) == [b] + LE(rest, n)
  {
    var w := rest * 0x100 + b;
    assert w % 256 == b && w / 256 == rest;
  }

  lemma NoBytes(w: nat)
    ensures LE(w, 0) == []
  {
  }

  lemma StepBR(m: Machine, code: seq<byte>, base: nat, k: nat)
    requires Holding(m, code, base) && m.pc == base + k && k + 4 <= |code|
    requires code[k..k + 4] == LE32(0xD61F_0220)
    ensures Step(m) == Some(m.(pc := m.regs[IP1]))
  {
    hide LE32, Perform, U64, Load64;
    WordAt(m, code, base, k, 0xD61F_0220);
    FetchAt(m, 0xD61F_0220);
  }

  lemma FarCallBytes(code: seq<byte>, loc: Reloc, addr: int, base: nat, force: bool)
    requires CallInBounds(code, loc) && IsFarCall(addr, loc, base, force) && loc.epilogueSize > 0
    requires code[loc.offset..loc.offset + 4] == LE32(BARE_BL)
    requires (loc.epilogueOffset - loc.offset) % 4 == 0
    ensures var code', epi := RelocatedCALL(code, loc, addr, base, force).0, loc.epilogueOffset;
      && |code'| == |code|
      && code'[loc.offset..loc.offset + 4] == LE32(BARE_BL + (epi - loc.offset) / 4 % 0x100_0000)
      && code'[epi..epi + 16] == CALL_CODE + LE64(Target(addr, loc))
  {
    hide IsFarCall, LE64, LE32, LE, Target;
    var epi := loc.epilogueOffset;
    var ready := Splice(code, epi, seq(loc.epilogueSize, _ => 0));
    SpliceAt(code, epi, seq(loc.epilogueSize, _ => 0));
    assert code[loc.offset..loc.offset + 4][3] == code[loc.offset + 3];
    var d := (epi - loc.offset) / 4;
    assert U32(epi - loc.offset) == epi - loc.offset;
    BLBytes(d % 0x100_0000);
    assert LE24(d) == LE24(d % 0x100_0000);
    ThreeBytes(ready, loc.offset, LE24(d), epi, CALL_CODE + LE64(Target(addr, loc)));
  }

  lemma ThreeBytes(ready: seq<byte>, off: nat, site: seq<byte>, epi: nat, veneer: seq<byte>)
    requires |site| == 3 && off + 4 <= epi && epi + |veneer| <= |ready|
    ensures var r := Splice(Splice(ready, off, site), epi, veneer);
      r[off..off + 4] == site + [ready[off + 3]] && r[epi..epi + |veneer|] == veneer
  {
    SpliceApart(ready, off, site, epi, veneer);
    SpliceAt(ready, off, site);
    SpliceAt(Splice(ready, off, site), epi, veneer);
  }

  /** The low three bytes carry a 24-bit distance, the top byte is BL's. */
  lemma BLBytes(d: nat)
    requires d < 0x100_0000
    ensures LE32(BARE_BL)[3] == 0x94
    ensures LE32(BARE_BL + d) == LE24(d) + [0x94]
  {
    hide LE32, LE;
    var b0, b1, b2 := d % 256, d / 256 % 256, d / 0x1_0000;
    LEFour(0x94, 0, 0, 0);
    LEFour(0x94, b2, b1, b0);
    assert d / 256 == b2 * 256 + b1 && d == b2 * 0x1_0000 + b1 * 0x100 + b0;
    LEThree(b2, b1, b0);
  }

  lemma LEThree(b2: byte, b1: byte, b0: byte)
    ensures LE(b2 * 0x1_0000 + b1 * 0x100 + b0, 3) == [b0, b1, b2]
  {
    assert LE(b2 * 0x1_0000 + b1 * 0x100 + b0, 3) == [b0] + LE(b2 * 0x100 + b1, 2);
    assert LE(b2 * 0x100 + b1, 2) == [b1] + LE(b2, 1);
    assert LE(b2, 1) == [b2] + LE(0, 0);
  }
}
