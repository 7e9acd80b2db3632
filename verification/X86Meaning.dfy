/** What relocated x86-64 code does when it runs: the near and the far form of a relocation
    have the same effect. */
module X86Meaning {
  import opened Bytes
  import opened Memory
  import opened Optional
  import opened Patching
  import opened RelocX86
  import opened X86

  /** Memory holds the segment at `base`, with room for fetches behind it. */
  ghost predicate Loaded(m: Machine, code: seq<byte>, base: int) {
    && Valid(m)
    && 0 <= base && base + |code| + 16 <= TWO_64
    && Holds(m.mem, base, code)
  }

  /** Any code can stand in memory, with any register contents and any byte of it next: what is proved
      below about machines that hold the code is about something. */
  lemma SomeMachineHolds(code: seq<byte>, base: nat, regs: seq<int>, k: nat)
    requires base + |code| + 16 <= TWO_64 && k < |code|
    requires |regs| == 16 && forall r :: 0 <= r < 16 ==> 0 <= regs[r] < TWO_64
    ensures exists m: Machine :: Loaded(m, code, base) && m.regs == regs && m.rip == base + k
  {
    var m := Machine((x: int) => if base <= x < base + |code| then code[x - base] else 0, regs, base + k);
    assert Loaded(m, code, base);
  }

  /** A segment is shorter than a 32-bit displacement can reach. */
  predicate ShortSegment(code: seq<byte>) { |code| < TWO_31 }

  /** The linker's precondition for a text relocation in a short segment. */
  predicate Ready(code: seq<byte>, saved: map<nat, seq<byte>>, loc: Reloc) {
    InBounds(code, saved, loc) && Fits(code, saved, loc) && ShortSegment(code)
  }

  lemma Segment(m: Machine, code: seq<byte>, base: int, k: nat, part: seq<byte>)
    requires Loaded(m, code, base)
    requires k + |part| <= |code| && code[k..k + |part|] == part
    requires m.rip == base + k && |part| > 0
    ensures Fetches(m, part)
  {
    HoldsPart(m.mem, base, code, k, part);
  }

  // ----- the bytes that relocation leaves behind -----

  /** The relocated segment around a near site. */
  lemma NearBytes(code: seq<byte>, saved: map<nat, seq<byte>>, loc: Reloc, addr: int, base: int, force: bool)
    requires Ready(code, saved, loc) && !IsFar(addr, loc, base, force)
    ensures var code' := RelocatedPCREL(code, saved, loc, addr, base, force).code;
      && |code'| == |code|
      && code'[loc.offset - 3..loc.End()]
         == [code[loc.offset - 3]] + Original(code, saved, loc)[..2] + LE32(Distance(addr, loc, base))
  {
    var site := Original(code, saved, loc);
    ResetAround(code, site, loc);
    PatchedSite(Reset(code, site, loc), loc.offset - 2, site, LE32(Distance(addr, loc, base)));
  }

  lemma PatchedSite(b: seq<byte>, at: nat, site: seq<byte>, disp: seq<byte>)
    requires 1 <= at && at + 6 <= |b| && |site| == 6 && |disp| == 4 && b[at..at + 6] == site
    ensures Splice(b, at + 2, disp)[at - 1..at + 6] == [b[at - 1]] + site[..2] + disp
  {
    SpliceAt(b, at + 2, disp);
    assert b[at] == b[at..at + 6][0] && b[at + 1] == b[at..at + 6][1];
  }

  /** Resetting a site keeps the byte before it and restores the site. */
  lemma ResetAround(code: seq<byte>, site: seq<byte>, loc: Reloc)
    requires |site| == 6 && 3 <= loc.offset && loc.End() <= |code|
    requires loc.epilogueOffset + loc.epilogueSize <= |code|
    requires loc.epilogueSize > 0 ==> loc.End() <= loc.epilogueOffset
    ensures var ready := Reset(code, site, loc);
      ready[loc.offset - 3] == code[loc.offset - 3] && ready[loc.offset - 2..loc.End()] == site
  {
    var put := Splice(code, loc.offset - 2, site);
    SpliceAt(code, loc.offset - 2, site);
    SpliceAt(put, loc.epilogueOffset, Nops(loc.epilogueSize));
    SpliceRegion(code, loc.offset - 2, site);
    assert Reset(code, site, loc)[loc.offset - 2..loc.End()] == put[loc.offset - 2..loc.End()];
  }

  /** The relocated segment around a far site, and its epilogue. */
  lemma FarBytes(code: seq<byte>, saved: map<nat, seq<byte>>, loc: Reloc, addr: int, base: int, force: bool)
    requires Ready(code, saved, loc) && IsFar(addr, loc, base, force)
    requires RelocatedPCREL(code, saved, loc, addr, base, force).outcome == Done
    requires Classify(Original(code, saved, loc)) != Cmpl
    ensures var code' := RelocatedPCREL(code, saved, loc, addr, base, force).code;
      var site := Original(code, saved, loc);
      var epilogue := FarEpilogue(Reset(code, site, loc), site, loc, Target(addr, loc));
      && |code'| == |code|
      && code'[loc.offset - 3..loc.End()] == [code[loc.offset - 3]] + FarSite(site, loc)
      && loc.epilogueSize > 0 && loc.epilogueOffset + |epilogue| <= |code|
      && code'[loc.epilogueOffset..loc.epilogueOffset + |epilogue|] == epilogue
  {
    hide IsFar, LE64, LE32, Nops, Reset, Epilogue, EpilogueLength, Target, Splice;
    var site := Original(code, saved, loc);
    var ready := Reset(code, site, loc);
    ResetAround(code, site, loc);
    SplicePair(ready, loc.offset - 2, FarSite(site, loc), loc.epilogueOffset,
               FarEpilogue(ready, site, loc, Target(addr, loc)));
  }

  // ----- the return jump -----

  /** The return jump goes to the instruction after the site and changes nothing else. */
  lemma ReturnJumpReturns(m: Machine, code: seq<byte>, base: int, loc: Reloc, from: nat)
    requires Loaded(m, code, base) && ShortSegment(code)
    requires loc.End() <= from && from + |ReturnJump(loc, from)| <= |code|
    requires code[from..from + |ReturnJump(loc, from)|] == ReturnJump(loc, from)
    requires m.rip == base + from
    ensures Step(m) == Some(m.(rip := base + loc.End()))
  {
    var back := ReturnJump(loc, from);
    Segment(m, code, base, from, back);
    var d := ReturnOffset(loc, from);
    if ShortReturn(loc, from) {
      assert d % 0x100 == d + 0x100;
      StepShortJump(m, d);
      InRange(base + loc.End());
    } else {
      StepNearJump(m, d - 3);
      InRange(base + loc.End());
    }
  }

  /** A near displacement reaches the target. */
  lemma NearReaches(addr: int, loc: Reloc, base: int)
    ensures U64(base + loc.End() + Distance(addr, loc, base)) == U64(Target(addr, loc))
  {
    WrapSum(base + loc.End(), addr - (base + loc.End()) + loc.add);
  }

  // ----- LEA -----

  /** MOV through the slot at the start of the epilogue. */
  lemma SlotLoad(m: Machine, code: seq<byte>, base: int, loc: Reloc, rex: byte, modrm: byte, target: int)
    requires Loaded(m, code, base) && ShortSegment(code) && m.rip == base + loc.offset - 3
    requires 3 <= loc.offset && loc.End() <= loc.epilogueOffset && loc.epilogueOffset + 8 <= |code|
    requires 0x48 <= rex < 0x50 && RipRelative(modrm)
    requires code[loc.offset - 3..loc.End()] == [rex, MOV, modrm] + LE32(ToEpilogue(loc))
    requires code[loc.epilogueOffset..loc.epilogueOffset + 8] == LE64(target)
    ensures Step(m) == Some(m.(regs := m.regs[RegField(rex, modrm) := U64(target)], rip := base + loc.End()))
  {
    hide Step, Load, Load64, LE64, LE32, U64, RegField;
    Segment(m, code, base, loc.offset - 3, [rex, MOV, modrm] + LE32(ToEpilogue(loc)));
    StepRipRelative(m, rex, MOV, modrm, ToEpilogue(loc));
    InRange(base + loc.epilogueOffset);
    HoldsPart(m.mem, base, code, loc.epilogueOffset, LE64(target));
    Load64Of(m.mem, base + loc.epilogueOffset, target);
  }

  /** A RIP-relative instruction whose displacement was patched. */
  lemma NearOperand(m: Machine, code: seq<byte>, base: int, loc: Reloc, addr: int,
                    rex: byte, op: byte, modrm: byte)
    requires Loaded(m, code, base) && m.rip == base + loc.offset - 3
    requires 3 <= loc.offset && loc.End() <= |code| && IsInt32(Distance(addr, loc, base))
    requires 0x48 <= rex < 0x50 && RipRelative(modrm) && (op == LEA || op == MOV)
    requires code[loc.offset - 3..loc.End()] == [rex, op, modrm] + LE32(Distance(addr, loc, base))
    ensures var target := U64(Target(addr, loc));
      var v := if op == LEA then target else Load64(m.mem, target);
      Step(m) == Some(m.(regs := m.regs[RegField(rex, modrm) := v], rip := base + loc.End()))
  {
    hide Step, LE32, U64, S64, Load, Load64, RegField;
    var d := Distance(addr, loc, base);
    Segment(m, code, base, loc.offset - 3, [rex, op, modrm] + LE32(d));
    StepRipRelative(m, rex, op, modrm, d);
    NearReaches(addr, loc, base);
  }

  /** A 64-bit LEA forms the target address in its register in one step, near or far. */
  lemma LeaMeaning(m: Machine, code: seq<byte>, saved: map<nat, seq<byte>>, loc: Reloc,
                   addr: int, base: int, force: bool)
    requires Ready(code, saved, loc)
    requires Classify(Original(code, saved, loc)) == Lea
    requires 0x48 <= code[loc.offset - 3] < 0x50 && RipRelative(Original(code, saved, loc)[1])
    requires RelocatedPCREL(code, saved, loc, addr, base, force).outcome == Done
    requires Loaded(m, RelocatedPCREL(code, saved, loc, addr, base, force).code, base)
    requires m.rip == base + loc.offset - 3
    ensures var dst := RegField(code[loc.offset - 3], Original(code, saved, loc)[1]);
      Step(m) == Some(m.(regs := m.regs[dst := U64(Target(addr, loc))], rip := base + loc.End()))
  {
    hide Step, LE64, LE32, U64, S64;
    var code' := RelocatedPCREL(code, saved, loc, addr, base, force).code;
    var site, rex := Original(code, saved, loc), code[loc.offset - 3];
    if IsFar(addr, loc, base, force) {
      FarBytes(code, saved, loc, addr, base, force);
      assert [rex] + FarSite(site, loc) == [rex, MOV, site[1]] + LE32(ToEpilogue(loc));
      SlotLoad(m, code', base, loc, rex, site[1], Target(addr, loc));
    } else {
      NearBytes(code, saved, loc, addr, base, force);
      assert [rex] + site[..2] + LE32(Distance(addr, loc, base))
          == [rex, LEA, site[1]] + LE32(Distance(addr, loc, base));
      NearOperand(m, code', base, loc, addr, rex, LEA, site[1]);
    }
  }

  // ----- MOV -----

  /** The scratch slot that the far MOV pushes RAX to. */
  function ScratchSlot(m: Machine): int
    requires |m.regs| == 16
  {
    U64(m.regs[RSP] - 8)
  }

  lemma RunThree(m: Machine, m1: Machine, m2: Machine, m3: Machine)
    requires |m.regs| == 16 && Step(m) == Some(m1) && Step(m1) == Some(m2) && Step(m2) == Some(m3)
    ensures Run(m, 3) == Some(m3)
  {
    RunCons(m2, m3, 0);
    RunCons(m1, m2, 1);
    RunCons(m, m1, 2);
  }

  /** A MOV is entered at its opcode, or at a REX prefix in front of that. */
  predicate MovEntry(m: Machine, base: int, loc: Reloc, rex: byte) {
    || m.rip == base + loc.offset - 2
    || (m.rip == base + loc.offset - 3 && 0x40 <= rex < 0x50)
  }

  /** The site jumps to its epilogue, behind a REX prefix, if there is one, that stays in place. */
  lemma MovJumpsIn(m: Machine, code: seq<byte>, base: int, loc: Reloc, rex: byte)
    requires Loaded(m, code, base) && ShortSegment(code) && MovEntry(m, base, loc, rex)
    requires 3 <= loc.offset && loc.End() <= loc.epilogueOffset < |code|
    requires code[loc.offset - 3..loc.End()] == [rex, JMP] + LE32(ToEpilogue(loc) + 1) + [NOP]
    ensures Step(m) == Some(m.(rip := base + loc.epilogueOffset))
  {
    hide Step, LE32, U64;
    var jump := [rex, JMP] + LE32(ToEpilogue(loc) + 1);
    assert code[loc.offset - 3..loc.offset + 3] == code[loc.offset - 3..loc.End()][..6] == jump;
    InRange(base + loc.epilogueOffset);
    if m.rip == base + loc.offset - 3 {
      Segment(m, code, base, loc.offset - 3, jump);
      StepRexNearJump(m, rex, ToEpilogue(loc) + 1);
    } else {
      SubSlice(code, loc.offset - 3, jump, 1, 6);
      assert jump[1..] == [JMP] + LE32(ToEpilogue(loc) + 1);
      Segment(m, code, base, loc.offset - 2, jump[1..]);
      StepNearJump(m, ToEpilogue(loc) + 1);
    }
  }

  /** PUSH RAX, then MOV RAX, imm64. */
  lemma SaveAndForm(m: Machine, code: seq<byte>, base: int, at: nat, imm: seq<byte>) returns (m1: Machine, m2: Machine)
    requires Loaded(m, code, base) && m.rip == base + at && |imm| == WORD && at + 11 <= |code|
    requires code[at..at + 1] == [0x50] && code[at + 1..at + 11] == [0x48, 0xB8] + imm
    requires Clear(base, |code|, ScratchSlot(m))
    ensures Step(m) == Some(m1) && Step(m1) == Some(m2) && Loaded(m2, code, base)
    ensures m2 == Machine(Store64(m.mem, ScratchSlot(m), m.regs[RAX]),
                          m.regs[RSP := ScratchSlot(m)][RAX := Val(imm)], base + at + 11)
  {
    hide Step, Store64;
    var sp := ScratchSlot(m);
    Segment(m, code, base, at, [0x50]);
    StepPush(m);
    m1 := Machine(Store64(m.mem, sp, m.regs[RAX]), m.regs[RSP := sp], base + at + 1);
    HoldsPastStore(m.mem, sp, m.regs[RAX], base, code);
    Segment(m1, code, base, at + 1, [0x48, 0xB8] + imm);
    StepMovImmediate(m1, imm);
    ValBound(imm);
    assert Pow256(WORD) == TWO_64;
    m2 := m1.(regs := m1.regs[RAX := Val(imm)], rip := base + at + 11);
  }

  /** MOV dst, [RAX], then POP RAX. */
  lemma LoadAndRestore(m: Machine, code: seq<byte>, base: int, at: nat, dst: nat) returns (m1: Machine, m2: Machine)
    requires Loaded(m, code, base) && m.rip == base + at && at + 4 <= |code| && dst < 16
    requires code[at..at + 3] == [0x48 + 4 * (dst / 8), 0x8B, 8 * (dst % 8)] && code[at + 3..at + 4] == [0x58]
    ensures Step(m) == Some(m1) && Step(m1) == Some(m2) && Loaded(m2, code, base)
    ensures m1.regs == m.regs[dst := Load64(m.mem, m.regs[RAX])]
    ensures m2 == m.(regs := m1.regs[RSP := U64(m1.regs[RSP] + 8)][RAX := Load64(m.mem, m1.regs[RSP])],
                     rip := base + at + 4)
  {
    hide Step, Load64;
    Segment(m, code, base, at, [0x48 + 4 * (dst / 8), 0x8B, 8 * (dst % 8)]);
    StepMovThroughRAX(m, dst);
    Load64Bound(m.mem, m.regs[RAX]);
    m1 := m.(regs := m.regs[dst := Load64(m.mem, m.regs[RAX])], rip := base + at + 3);
    Segment(m1, code, base, at + 3, [0x58]);
    StepPop(m1);
    Load64Bound(m.mem, m1.regs[RSP]);
    m2 := m1.(regs := m1.regs[RSP := U64(m1.regs[RSP] + 8)][RAX := Load64(m1.mem, m1.regs[RSP])],
              rip := base + at + 4);
  }

  lemma FarMovParts(dst: nat, target: int)
    requires 0 < dst < 16
    ensures var load := FarMov(dst, target);
      && load[0..1] == [0x50] && load[1..11] == [0x48, 0xB8] + LE64(target)
      && load[11..14] == [0x48 + 4 * (dst / 8), 0x8B, 8 * (dst % 8)] && load[14..15] == [0x58]
  {
    hide LE64;
    FourParts([0x50], [0x48, 0xB8] + LE64(target), [0x48 + 4 * (dst / 8), 0x8B, 8 * (dst % 8)], [0x58]);
    assert FarMov(dst, target)
        == [0x50] + ([0x48, 0xB8] + LE64(target)) + [0x48 + 4 * (dst / 8), 0x8B, 8 * (dst % 8)] + [0x58];
  }

  lemma FourParts(a: seq<byte>, b: seq<byte>, c: seq<byte>, d: seq<byte>)
    ensures var s := a + b + c + d;
      && s[..|a|] == a && s[|a|..|a| + |b|] == b
      && s[|a| + |b|..|a| + |b| + |c|] == c && s[|a| + |b| + |c|..] == d
  {
  }

  lemma SubSlice(code: seq<byte>, k: nat, part: seq<byte>, i: nat, j: nat)
    requires k + |part| <= |code| && code[k..k + |part|] == part && i <= j <= |part|
    ensures code[k + i..k + j] == part[i..j]
  {
    forall n | 0 <= n < j - i ensures code[k + i..k + j][n] == part[i..j][n] {
      assert part[i + n] == code[k..k + |part|][i + n];
    }
  }

  /** The replacement of a MOV into another register than RAX: RAX is saved around the load.
      The register receives the word at `target`, and RAX and RSP end as they began, unless the
      register is RSP itself. */
  lemma FarMovBody(m: Machine, code: seq<byte>, base: int, at: nat, dst: nat, target: int) returns (m4: Machine)
    requires Loaded(m, code, base) && m.rip == base + at && 0 < dst < 16
    requires at + 15 <= |code| && code[at..at + 15] == FarMov(dst, target)
    requires Clear(base, |code|, ScratchSlot(m)) && Apart(U64(target), ScratchSlot(m))
    ensures Loaded(m4, code, base) && Run(m, 4) == Some(m4)
    ensures m4.mem == Store64(m.mem, ScratchSlot(m), m.regs[RAX]) && m4.rip == base + at + 15
    ensures dst != RSP ==> m4.regs == m.regs[dst := Load64(m.mem, U64(target))]
    ensures dst == RSP ==> m4.regs[RSP] == U64(Load64(m.mem, U64(target)) + 8)
  {
    hide Step, Run, Load64, Store64, FarMov, LE64, U64;
    var sp, load := ScratchSlot(m), FarMov(dst, target);
    FarMovParts(dst, target);
    SubSlice(code, at, load, 0, 1);
    SubSlice(code, at, load, 1, 11);
    SubSlice(code, at, load, 11, 14);
    SubSlice(code, at, load, 14, 15);
    var m1, m2 := SaveAndForm(m, code, base, at, LE64(target));
    ValLE64(target);
    var m3;
    m3, m4 := LoadAndRestore(m2, code, base, at + 11, dst);
    LoadPastStore(m.mem, sp, m.regs[RAX], U64(target));
    PushedWord(m.mem, sp, m.regs[RAX]);
    BackToTop(m.regs[RSP]);
    RunFour(m, m1, m2, m3, m4);
  }

  lemma BackToTop(sp: int)
    requires 0 <= sp < TWO_64
    ensures U64(U64(sp - 8) + 8) == sp
  {
    WrapSum(8, sp - 8);
    InRange(sp);
  }

  lemma RunFour(m: Machine, m1: Machine, m2: Machine, m3: Machine, m4: Machine)
    requires |m.regs| == 16 && Step(m) == Some(m1)
    requires Step(m1) == Some(m2) && Step(m2) == Some(m3) && Step(m3) == Some(m4)
    ensures Run(m, 4) == Some(m4)
  {
    hide Step, Run;
    RunThree(m1, m2, m3, m4);
    RunCons(m, m1, 3);
  }

  /** Site and epilogue of a far MOV into register `dst`. */
  ghost predicate FarMovBytes(code: seq<byte>, loc: Reloc, rex: byte, dst: nat, target: int) {
    && dst < 16 && 3 <= loc.offset && loc.End() <= loc.epilogueOffset
    && var load, back := FarMov(dst, target), ReturnJump(loc, loc.epilogueOffset + |FarMov(dst, target)|);
    && var behind := loc.epilogueOffset + |load|;
    && behind + |back| <= |code|
    && code[loc.offset - 3..loc.End()] == [rex, JMP] + LE32(ToEpilogue(loc) + 1) + [NOP]
    && code[loc.epilogueOffset..behind] == load
    && code[behind..behind + |back|] == back
  }

  /** The far MOV of RAX: jump, load, jump back. */
  lemma FarMovRAXRuns(m: Machine, code: seq<byte>, base: int, loc: Reloc, rex: byte, target: int)
    requires Loaded(m, code, base) && ShortSegment(code) && MovEntry(m, base, loc, rex)
    requires FarMovBytes(code, loc, rex, 0, target)
    ensures Run(m, 3) == Some(m.(regs := m.regs[RAX := Load64(m.mem, U64(target))], rip := base + loc.End()))
  {
    hide Step, Run, Load64, LE64, LE32, U64, S64, ReturnJump, ShortReturn, ReturnOffset, ToEpilogue;
    var epi := loc.epilogueOffset;
    MovJumpsIn(m, code, base, loc, rex);
    var m1 := m.(rip := base + epi);
    Segment(m1, code, base, epi, [0x48, 0xA1] + LE64(target));
    StepMovAbsolute(m1, LE64(target));
    ValLE64(target);
    Load64Bound(m.mem, U64(target));
    var m2 := m1.(regs := m1.regs[RAX := Load64(m.mem, U64(target))], rip := m1.rip + 10);
    ReturnJumpReturns(m2, code, base, loc, epi + 10);
    RunThree(m, m1, m2, m2.(rip := base + loc.End()));
  }

  /** The far MOV of any other register: jump, the four steps above, jump back. */
  lemma FarMovRuns(m: Machine, code: seq<byte>, base: int, loc: Reloc, rex: byte, dst: nat, target: int)
    returns (m': Machine)
    requires Loaded(m, code, base) && ShortSegment(code) && MovEntry(m, base, loc, rex)
    requires FarMovBytes(code, loc, rex, dst, target) && dst != RAX
    requires Clear(base, |code|, ScratchSlot(m)) && Apart(U64(target), ScratchSlot(m))
    ensures Run(m, 6) == Some(m') && |m'.regs| == 16
    ensures m'.mem == Store64(m.mem, ScratchSlot(m), m.regs[RAX]) && m'.rip == base + loc.End()
    ensures dst != RSP ==> m'.regs == m.regs[dst := Load64(m.mem, U64(target))]
    ensures dst == RSP ==> m'.regs[RSP] == U64(Load64(m.mem, U64(target)) + 8)
  {
    hide Step, Run, Load64, Store64, FarMov, LE64, ReturnJump;
    MovJumpsIn(m, code, base, loc, rex);
    var m1 := m.(rip := base + loc.epilogueOffset);
    var m5 := FarMovBody(m1, code, base, loc.epilogueOffset, dst, target);
    ReturnJumpReturns(m5, code, base, loc, loc.epilogueOffset + 15);
    m' := m5.(rip := base + loc.End());
    RunOneMore(m1, 4, m5, m');
    RunCons(m, m1, 5);
  }

  lemma RunOneMore(m: Machine, n: nat, m1: Machine, m2: Machine)
    requires |m.regs| == 16 && Run(m, n) == Some(m1) && |m1.regs| == 16 && Step(m1) == Some(m2)
    ensures Run(m, n + 1) == Some(m2)
  {
    hide Step;
    RunPlus(m, n, 1);
    RunCons(m1, m2, 0);
  }

  /** What relocating a MOV site leaves, in terms of `FarMovBytes`. */
  lemma FarMovSite(code: seq<byte>, saved: map<nat, seq<byte>>, loc: Reloc, addr: int, base: int, force: bool)
    requires Ready(code, saved, loc) && IsFar(addr, loc, base, force)
    requires Classify(Original(code, saved, loc)) == Mov
    requires RelocatedPCREL(code, saved, loc, addr, base, force).outcome == Done
    ensures FarMovBytes(RelocatedPCREL(code, saved, loc, addr, base, force).code, loc, code[loc.offset - 3],
                        RegField(code[loc.offset - 3], Original(code, saved, loc)[1]), Target(addr, loc))
  {
    hide FarMov, LE64, LE32, IsFar, Target, RelocatedPCREL, Reset, ReturnJump, EpilogueLength, FarSite, FarEpilogue,
      Classify, Original;
    FarBytes(code, saved, loc, addr, base, force);
    ResetAround(code, Original(code, saved, loc), loc);
    var site, rex := Original(code, saved, loc), code[loc.offset - 3];
    var code' := RelocatedPCREL(code, saved, loc, addr, base, force).code;
    var dst, target := RegField(rex, site[1]), Target(addr, loc);
    var load := FarMov(dst, target);
    var back := ReturnJump(loc, loc.epilogueOffset + |load|);
    MovSource(code, saved, loc, addr, base, force);
    MovBytes(Reset(code, site, loc), site, loc, target);
    TwoParts(code', loc.epilogueOffset, load, back);
    assert [rex] + FarSite(site, loc) == [rex, JMP] + LE32(ToEpilogue(loc) + 1) + [NOP];
  }

  /** A far MOV is relocated only if it reads relative to RIP. */
  lemma MovSource(code: seq<byte>, saved: map<nat, seq<byte>>, loc: Reloc, addr: int, base: int, force: bool)
    requires Ready(code, saved, loc) && IsFar(addr, loc, base, force)
    requires Classify(Original(code, saved, loc)) == Mov
    requires RelocatedPCREL(code, saved, loc, addr, base, force).outcome == Done
    ensures Original(code, saved, loc)[1] % 8 == 5
  {
    hide Reset, IsFar, Target, Epilogue, EpilogueLength, FarSite, Splice, Nops;
  }

  lemma MovBytes(ready: seq<byte>, site: seq<byte>, loc: Reloc, target: int)
    requires |site| == 6 && 3 <= loc.offset && loc.End() < |ready| && Classify(site) == Mov && site[1] % 8 == 5
    ensures var load := FarMov(RegField(ready[loc.offset - 3], site[1]), target);
      FarEpilogue(ready, site, loc, target) == load + ReturnJump(loc, loc.epilogueOffset + |load|)
    ensures FarSite(site, loc) == [JMP] + LE32(ToEpilogue(loc) + 1) + [NOP]
  {
    hide FarMov, ReturnJump, LE32;
  }

  /** Nothing is pushed for RAX; otherwise the scratch slot holds neither code nor the word to be loaded. */
  ghost predicate ScratchFree(m: Machine, code: seq<byte>, base: int, dst: nat, target: int)
    requires |m.regs| == 16
  {
    dst != RAX ==> Clear(base, |code|, ScratchSlot(m)) && Apart(U64(target), ScratchSlot(m))
  }

  /** A 64-bit RIP-relative MOV loads the word at the target into its register, near or far,
      and changes no other register.  The far form, for registers but RSP, borrows the eight bytes
      below the stack for RAX, except when the register is RAX. */
  lemma MovMeaning(m: Machine, code: seq<byte>, saved: map<nat, seq<byte>>, loc: Reloc,
                   addr: int, base: int, force: bool)
    requires Ready(code, saved, loc)
    requires Classify(Original(code, saved, loc)) == Mov
    requires 0x48 <= code[loc.offset - 3] < 0x50 && RipRelative(Original(code, saved, loc)[1])
    requires RelocatedPCREL(code, saved, loc, addr, base, force).outcome == Done
    requires Loaded(m, RelocatedPCREL(code, saved, loc, addr, base, force).code, base)
    requires m.rip == base + loc.offset - 3
    requires IsFar(addr, loc, base, force) ==>
      var dst := RegField(code[loc.offset - 3], Original(code, saved, loc)[1]);
      ScratchFree(m, code, base, dst, Target(addr, loc)) && dst != RSP
    ensures var dst, far := RegField(code[loc.offset - 3], Original(code, saved, loc)[1]),
                            IsFar(addr, loc, base, force);
      Run(m, if !far then 1 else if dst == RAX then 3 else 6)
      == Some(Machine(if far && dst != RAX then Store64(m.mem, ScratchSlot(m), m.regs[RAX]) else m.mem,
                      m.regs[dst := Load64(m.mem, U64(Target(addr, loc)))], base + loc.End()))
  {
    hide *;
    if IsFar(addr, loc, base, force) {
      AtPrefix(m, code, saved, base, loc);
      FarMovMeaning(m, code, saved, loc, addr, base, force);
    } else {
      NearMov(m, code, saved, loc, addr, base, force);
    }
  }

  lemma AtPrefix(m: Machine, code: seq<byte>, saved: map<nat, seq<byte>>, base: int, loc: Reloc)
    requires Ready(code, saved, loc) && m.rip == base + loc.offset - 3 && 0x40 <= code[loc.offset - 3] < 0x50
    ensures MovEntry(m, base, loc, code[loc.offset - 3])
  {
    hide Fits;
  }

  lemma FarMovMeaning(m: Machine, code: seq<byte>, saved: map<nat, seq<byte>>, loc: Reloc,
                      addr: int, base: int, force: bool)
    requires Ready(code, saved, loc) && IsFar(addr, loc, base, force)
    requires Classify(Original(code, saved, loc)) == Mov
    requires RelocatedPCREL(code, saved, loc, addr, base, force).outcome == Done
    requires Loaded(m, RelocatedPCREL(code, saved, loc, addr, base, force).code, base)
    requires MovEntry(m, base, loc, code[loc.offset - 3])
    requires var dst := RegField(code[loc.offset - 3], Original(code, saved, loc)[1]);
      ScratchFree(m, code, base, dst, Target(addr, loc)) && dst != RSP
    ensures var dst := RegField(code[loc.offset - 3], Original(code, saved, loc)[1]);
      Run(m, if dst == RAX then 3 else 6)
      == Some(Machine(if dst != RAX then Store64(m.mem, ScratchSlot(m), m.regs[RAX]) else m.mem,
                      m.regs[dst := Load64(m.mem, U64(Target(addr, loc)))], base + loc.End()))
  {
    hide Step, Run, Load64, Store64, LE64, LE32, U64, S64, FarMovBytes, RelocatedPCREL, Reset, IsFar, Target, RegField,
      Apart, Clear, ScratchSlot, Classify, Original, Loaded, EpilogueLength;
    var code' := RelocatedPCREL(code, saved, loc, addr, base, force).code;
    var rex, dst := code[loc.offset - 3], RegField(code[loc.offset - 3], Original(code, saved, loc)[1]);
    FarBytes(code, saved, loc, addr, base, force);
    FarMovSite(code, saved, loc, addr, base, force);
    if dst == RAX {
      FarMovRAXRuns(m, code', base, loc, rex, Target(addr, loc));
    } else {
      var m' := FarMovRuns(m, code', base, loc, rex, dst, Target(addr, loc));
    }
  }

  lemma NearMov(m: Machine, code: seq<byte>, saved: map<nat, seq<byte>>, loc: Reloc,
                addr: int, base: int, force: bool)
    requires Ready(code, saved, loc) && !IsFar(addr, loc, base, force)
    requires Classify(Original(code, saved, loc)) == Mov
    requires 0x48 <= code[loc.offset - 3] < 0x50 && RipRelative(Original(code, saved, loc)[1])
    requires Loaded(m, RelocatedPCREL(code, saved, loc, addr, base, force).code, base)
    requires m.rip == base + loc.offset - 3
    ensures var dst := RegField(code[loc.offset - 3], Original(code, saved, loc)[1]);
      Run(m, 1) == Some(m.(regs := m.regs[dst := Load64(m.mem, U64(Target(addr, loc)))], rip := base + loc.End()))
  {
    hide Step, Run, Load64, LE32, U64, S64, RelocatedPCREL, Reset, Target, RegField;
    var site, rex := Original(code, saved, loc), code[loc.offset - 3];
    NearBytes(code, saved, loc, addr, base, force);
    assert [rex] + site[..2] + LE32(Distance(addr, loc, base))
        == [rex, MOV, site[1]] + LE32(Distance(addr, loc, base));
    NearOperand(m, RelocatedPCREL(code, saved, loc, addr, base, force).code, base, loc, addr, rex, MOV, site[1]);
    RunNone(Step(m).value);
    RunCons(m, Step(m).value, 0);
  }

  /** The far form of a MOV into RSP pops RAX through the new stack pointer: it never leaves the loaded
      word in RSP, nor its low half. */
  lemma FarMovIntoRSP(m: Machine, code: seq<byte>, saved: map<nat, seq<byte>>, loc: Reloc,
                      addr: int, base: int, force: bool)
    requires Ready(code, saved, loc) && IsFar(addr, loc, base, force)
    requires Classify(Original(code, saved, loc)) == Mov
    requires RegField(code[loc.offset - 3], Original(code, saved, loc)[1]) == RSP
    requires RelocatedPCREL(code, saved, loc, addr, base, force).outcome == Done
    requires Loaded(m, RelocatedPCREL(code, saved, loc, addr, base, force).code, base)
    requires MovEntry(m, base, loc, code[loc.offset - 3])
    requires Clear(base, |code|, ScratchSlot(m)) && Apart(U64(Target(addr, loc)), ScratchSlot(m))
    ensures Run(m, 6).Some? && |Run(m, 6).value.regs| == 16
    ensures Run(m, 6).value.rip == base + loc.End()
    ensures Run(m, 6).value.regs[RSP] != Load64(m.mem, U64(Target(addr, loc)))
    ensures Run(m, 6).value.regs[RSP] != Load32(m.mem, U64(Target(addr, loc)))
  {
    hide Step, Run, Load64, Load32, Store64, LE64, LE32, FarMovBytes, S64, U64, RelocatedPCREL, Reset, Target, RegField;
    var target := U64(Target(addr, loc));
    FarBytes(code, saved, loc, addr, base, force);
    FarMovSite(code, saved, loc, addr, base, force);
    var m' := FarMovRuns(m, RelocatedPCREL(code, saved, loc, addr, base, force).code, base, loc,
                         code[loc.offset - 3], RSP, Target(addr, loc));
    Load64Bound(m.mem, target);
    LoadHalves(m.mem, target);
    NotEightOff(Load64(m.mem, target), Load32(m.mem, target), Load32(m.mem, target + 4));
  }

  /** The far form of a 64-bit MOV leaves the registers as the MOV would exactly when its register is
      not RSP, which a caller reads off the REX prefix and the ModRM byte. */
  lemma FarMovIff(m: Machine, code: seq<byte>, saved: map<nat, seq<byte>>, loc: Reloc,
                  addr: int, base: int, force: bool)
    requires Ready(code, saved, loc) && IsFar(addr, loc, base, force)
    requires Classify(Original(code, saved, loc)) == Mov && 0x48 <= code[loc.offset - 3] < 0x50
    requires RelocatedPCREL(code, saved, loc, addr, base, force).outcome == Done
    requires Loaded(m, RelocatedPCREL(code, saved, loc, addr, base, force).code, base)
    requires m.rip == base + loc.offset - 3
    requires var dst := RegField(code[loc.offset - 3], Original(code, saved, loc)[1]);
      ScratchFree(m, code, base, dst, Target(addr, loc))
    ensures var dst := RegField(code[loc.offset - 3], Original(code, saved, loc)[1]);
      var end := Run(m, if dst == RAX then 3 else 6);
      && end.Some? && end.value.rip == base + loc.End()
      && (end.value.regs == m.regs[dst := Load64(m.mem, U64(Target(addr, loc)))] <==> dst != RSP)
  {
    hide Run, Load64, Store64, U64, RelocatedPCREL, Original, RegField, Clear, Apart, ScratchSlot, Loaded,
      IsFar, Target, Classify;
    var dst := RegField(code[loc.offset - 3], Original(code, saved, loc)[1]);
    SixteenRegs(m, RelocatedPCREL(code, saved, loc, addr, base, force).code, base);
    if dst == RSP {
      FarMovIntoRSP(m, code, saved, loc, addr, base, force);
    } else {
      FarMovMeaning(m, code, saved, loc, addr, base, force);
    }
  }

  // ----- MOV of 32 bits -----

  /** The register an 8B without REX.W names; `rex` says whether the byte in front is its prefix. */
  function NamedRegister(rex: bool, before: byte, modrm: byte): (r: nat)
    ensures r < 16
  {
    RegField(if rex then before else 0, modrm)
  }

  /** A RIP-relative MOV of 32 bits, near: it loads the half word at the target. */
  lemma NearHalfMov(m: Machine, code: seq<byte>, saved: map<nat, seq<byte>>, loc: Reloc,
                    addr: int, base: int, force: bool, rex: bool)
    requires Ready(code, saved, loc) && !IsFar(addr, loc, base, force)
    requires Classify(Original(code, saved, loc)) == Mov && RipRelative(Original(code, saved, loc)[1])
    requires Loaded(m, RelocatedPCREL(code, saved, loc, addr, base, force).code, base)
    requires rex ==> 0x40 <= code[loc.offset - 3] < 0x48
    requires m.rip == base + loc.offset - if rex then 3 else 2
    ensures var dst := NamedRegister(rex, code[loc.offset - 3], Original(code, saved, loc)[1]);
      Step(m) == Some(m.(regs := m.regs[dst := Load32(m.mem, U64(Target(addr, loc)))], rip := base + loc.End()))
  {
    hide Step, LE32, U64, S64, RelocatedPCREL, Reset, Target, RegField, Load32;
    var site, before, d := Original(code, saved, loc), code[loc.offset - 3], Distance(addr, loc, base);
    var code' := RelocatedPCREL(code, saved, loc, addr, base, force).code;
    NearBytes(code, saved, loc, addr, base, force);
    NearReaches(addr, loc, base);
    assert [before] + site[..2] + LE32(d) == [before] + ([MOV, site[1]] + LE32(d));
    TwoParts(code', loc.offset - 3, [before], [MOV, site[1]] + LE32(d));
    if rex {
      assert [before] + ([MOV, site[1]] + LE32(d)) == [before, MOV, site[1]] + LE32(d);
      Segment(m, code', base, loc.offset - 3, [before, MOV, site[1]] + LE32(d));
      StepRexHalfLoad(m, before, site[1], d);
    } else {
      Segment(m, code', base, loc.offset - 2, [MOV, site[1]] + LE32(d));
      StepHalfLoad(m, site[1], d);
    }
  }

  /** When the far form of such a MOV is right.  It loads a whole word into the register that the byte in
      front extends, prefix or not: into the register named, that is right exactly when the upper half
      loaded is zero; into another, when both happen to hold what was to be loaded already; never into RSP. */
  lemma FarHalfMovIff(m: Machine, code: seq<byte>, saved: map<nat, seq<byte>>, loc: Reloc,
                      addr: int, base: int, force: bool, rex: bool)
    requires Ready(code, saved, loc) && IsFar(addr, loc, base, force)
    requires Classify(Original(code, saved, loc)) == Mov
    requires RelocatedPCREL(code, saved, loc, addr, base, force).outcome == Done
    requires Loaded(m, RelocatedPCREL(code, saved, loc, addr, base, force).code, base)
    requires rex ==> 0x40 <= code[loc.offset - 3] < 0x48
    requires m.rip == base + loc.offset - if rex then 3 else 2
    requires var used := RegField(code[loc.offset - 3], Original(code, saved, loc)[1]);
      ScratchFree(m, code, base, used, Target(addr, loc))
    ensures var before, modrm := code[loc.offset - 3], Original(code, saved, loc)[1];
      var dst, used, target := NamedRegister(rex, before, modrm), RegField(before, modrm), U64(Target(addr, loc));
      var end := Run(m, if used == RAX then 3 else 6);
      && |m.regs| == 16 && end.Some? && end.value.rip == base + loc.End()
      && (end.value.regs == m.regs[dst := Load32(m.mem, target)]
          <==> used != RSP && (if used == dst then Load32(m.mem, target + 4) == 0
                               else m.regs[dst] == Load32(m.mem, target) && m.regs[used] == Load64(m.mem, target)))
  {
    hide Run, Load64, Load32, Store64, U64, RelocatedPCREL, Original, Clear, Apart, ScratchSlot, Loaded,
      IsFar, Target, Classify;
    var before, modrm := code[loc.offset - 3], Original(code, saved, loc)[1];
    var dst, used, target := NamedRegister(rex, before, modrm), RegField(before, modrm), U64(Target(addr, loc));
    SixteenRegs(m, RelocatedPCREL(code, saved, loc, addr, base, force).code, base);
    if used == RSP {
      FarMovIntoRSP(m, code, saved, loc, addr, base, force);
    } else {
      FarMovMeaning(m, code, saved, loc, addr, base, force);
      LoadHalves(m.mem, target);
      Updates(m.regs, dst, Load32(m.mem, target), used, Load64(m.mem, target));
    }
  }

  /** Two single updates agree. */
  lemma Updates(regs: seq<int>, i: nat, x: int, j: nat, y: int)
    requires i < |regs| && j < |regs|
    ensures regs[j := y] == regs[i := x] <==> if i == j then x == y else regs[i] == x && regs[j] == y
  {
    var a, b := regs[j := y], regs[i := x];
    if i != j {
      assert a[i] == regs[i] && b[i] == x && a[j] == y && b[j] == regs[j];
      if regs[i] == x && regs[j] == y {
        assert forall k :: 0 <= k < |regs| ==> a[k] == b[k];
        assert a == b;
      }
    } else {
      assert a[i] == y && b[i] == x;
    }
  }

  lemma SixteenRegs(m: Machine, code: seq<byte>, base: int)
    requires Loaded(m, code, base)
    ensures |m.regs| == 16
  {
  }

  lemma NotEightOff(v: int, low: nat, high: nat)
    requires 0 <= v < TWO_64 && v == low + TWO_32 * high && low < TWO_32
    ensures U64(v + 8) != v && U64(v + 8) != low
  {
  }

  // ----- CALL -----

  /** From `m`, `n` steps reach the entry of the callee at `target` with return address `ret` on
      the stack and every other register unchanged. */
  ghost predicate EntersCallee(m: Machine, n: nat, target: int, ret: int) {
    && |m.regs| == 16
    && Run(m, n) == Some(Push(m, ret).(rip := target))
  }

  /** Whoever comes back to `ret` with the segment intact continues at `next`, with memory and
      registers as they were on return. */
  ghost predicate ReturnsTo(code: seq<byte>, base: int, ret: int, next: int) {
    forall k: Machine :: Loaded(k, code, base) && k.rip == ret ==>
      ret == next || Step(k) == Some(k.(rip := next))
  }

  /** A far CALL: the site jumps to the epilogue, which calls through the stored address and
      jumps back behind the site. */
  lemma FarCallRuns(m: Machine, code: seq<byte>, base: int, loc: Reloc, target: int)
    requires Loaded(m, code, base) && |code| < TWO_31 && m.rip == base + loc.offset - 1
    requires 1 <= loc.offset && loc.End() <= loc.epilogueOffset
    requires loc.epilogueOffset + |FarCall(loc, target)| <= |code|
    requires code[loc.offset - 1..loc.End()] == [JMP] + LE32(ToEpilogue(loc))
    requires code[loc.epilogueOffset..loc.epilogueOffset + |FarCall(loc, target)|] == FarCall(loc, target)
    ensures EntersCallee(m, 2, U64(target), base + loc.epilogueOffset + 6)
    ensures ReturnsTo(code, base, base + loc.epilogueOffset + 6, base + loc.End())
  {
    hide Step, Run, Load64, LE64, LE32, ReturnJump;
    var epi, jump := loc.epilogueOffset, ReturnJump(loc, loc.epilogueOffset + 6);
    FarCallParts(code, loc, target);
    Segment(m, code, base, loc.offset - 1, [JMP] + LE32(ToEpilogue(loc)));
    StepNearJump(m, ToEpilogue(loc));
    InRange(base + epi);
    var m1 := m.(rip := base + epi);
    CallThroughSlot(m1, code, base, epi, |jump|, target);
    var m2 := Push(m1, m1.rip + 6).(rip := U64(target));
    RunNone(m2);
    RunCons(m1, m2, 0);
    RunCons(m, m1, 1);
    forall k: Machine | Loaded(k, code, base) && k.rip == base + epi + 6
      ensures Step(k) == Some(k.(rip := base + loc.End()))
    {
      ReturnJumpReturns(k, code, base, loc, epi + 6);
    }
  }

  lemma FarCallParts(code: seq<byte>, loc: Reloc, target: int)
    requires loc.epilogueOffset + |FarCall(loc, target)| <= |code|
    requires code[loc.epilogueOffset..loc.epilogueOffset + |FarCall(loc, target)|] == FarCall(loc, target)
    ensures var epi, jump := loc.epilogueOffset, ReturnJump(loc, loc.epilogueOffset + 6);
      && code[epi..epi + 6] == IndirectCall(|jump|)
      && code[epi + 6..epi + 6 + |jump|] == jump
      && code[epi + 6 + |jump|..epi + 14 + |jump|] == LE64(target)
  {
    hide LE64, ReturnJump, IndirectCall;
    var epi, jump := loc.epilogueOffset, ReturnJump(loc, loc.epilogueOffset + 6);
    var call := IndirectCall(|jump|);
    TwoParts(code, epi, call + jump, LE64(target));
    TwoParts(code, epi, call, jump);
  }

  /** `CALL ptr [RIP + skip]` with the address stored `skip` bytes behind it. */
  lemma CallThroughSlot(m: Machine, code: seq<byte>, base: int, at: nat, skip: nat, target: int)
    requires Loaded(m, code, base) && m.rip == base + at && skip < TWO_31 && at + 14 + skip <= |code|
    requires code[at..at + 6] == IndirectCall(skip)
    requires code[at + 6 + skip..at + 14 + skip] == LE64(target)
    ensures Step(m) == Some(Push(m, m.rip + 6).(rip := U64(target)))
  {
    hide Step, Load64, LE64, LE32, Push;
    Segment(m, code, base, at, IndirectCall(skip));
    StepIndirectCall(m, skip);
    InRange(m.rip + 6 + skip);
    HoldsPart(m.mem, base, code, at + 6 + skip, LE64(target));
    Load64Of(m.mem, base + at + 6 + skip, target);
  }

  /** A CALL through a pointer, FF 15.  Near, it calls what the word at `addr + Add` holds; far, it calls
      `addr + Add` itself. */
  lemma IndirectCallMeaning(m: Machine, code: seq<byte>, saved: map<nat, seq<byte>>, loc: Reloc,
                            addr: int, base: int, force: bool)
    requires Ready(code, saved, loc)
    requires Original(code, saved, loc)[0] == 0xFF && Original(code, saved, loc)[1] == 0x15
    requires RelocatedPCREL(code, saved, loc, addr, base, force).outcome == Done
    requires Loaded(m, RelocatedPCREL(code, saved, loc, addr, base, force).code, base)
    requires m.rip == base + loc.offset - 2
    ensures var target := U64(Target(addr, loc));
      EntersCallee(m, 1, if IsFar(addr, loc, base, force) then target else Load64(m.mem, target), base + loc.End())
  {
    hide Step, Run, LE64, LE32, U64, S64, RelocatedPCREL, Reset, IsFar, Target, Original, FarSite, FarEpilogue, Load64;
    var site, rex, d := Original(code, saved, loc), code[loc.offset - 3], Distance(addr, loc, base);
    var code' := RelocatedPCREL(code, saved, loc, addr, base, force).code;
    if IsFar(addr, loc, base, force) {
      IsIndirect(site);
      FarBytes(code, saved, loc, addr, base, force);
      ThroughPointer(Reset(code, site, loc), site, loc, Target(addr, loc));
      assert [rex] + ([0xFF, 0x15] + LE32(ToEpilogue(loc))) == code'[loc.offset - 3..loc.End()];
      TwoParts(code', loc.offset - 3, [rex], [0xFF, 0x15] + LE32(ToEpilogue(loc)));
      CallThroughSlot(m, code', base, loc.offset - 2, ToEpilogue(loc), Target(addr, loc));
    } else {
      NearBytes(code, saved, loc, addr, base, force);
      assert [rex] + site[..2] + LE32(d) == [rex] + ([0xFF, 0x15] + LE32(d));
      TwoParts(code', loc.offset - 3, [rex], [0xFF, 0x15] + LE32(d));
      Segment(m, code', base, loc.offset - 2, [0xFF, 0x15] + LE32(d));
      NearIsInt32(addr, loc, base, force);
      StepIndirectCall(m, d);
      NearReaches(addr, loc, base);
    }
    RunNone(Step(m).value);
    RunCons(m, Step(m).value, 0);
  }

  lemma IsIndirect(site: seq<byte>)
    requires |site| == 6 && site[0] == 0xFF
    ensures Classify(site) == CallIndirect
  {
  }

  lemma ThroughPointer(ready: seq<byte>, site: seq<byte>, loc: Reloc, target: int)
    requires |site| == 6 && site[0] == 0xFF && site[1] == 0x15 && 3 <= loc.offset && loc.End() < |ready|
    ensures Classify(site) == CallIndirect && FarEpilogue(ready, site, loc, target) == LE64(target)
    ensures FarSite(site, loc) == [0xFF, 0x15] + LE32(ToEpilogue(loc))
  {
    hide LE64, LE32;
  }

  /** A near CALL. */
  lemma NearCallRuns(m: Machine, code: seq<byte>, base: int, loc: Reloc, addr: int)
    requires Loaded(m, code, base) && m.rip == base + loc.offset - 1
    requires 1 <= loc.offset && loc.End() <= |code| && IsInt32(Distance(addr, loc, base))
    requires code[loc.offset - 1..loc.End()] == [CALL] + LE32(Distance(addr, loc, base))
    ensures EntersCallee(m, 1, U64(Target(addr, loc)), base + loc.End())
    ensures ReturnsTo(code, base, base + loc.End(), base + loc.End())
  {
    hide Step, Run, LE32;
    var d := Distance(addr, loc, base);
    Segment(m, code, base, loc.offset - 1, [CALL] + LE32(d));
    StepCall(m, d);
    NearReaches(addr, loc, base);
    var m1 := Push(m, m.rip + 5).(rip := U64(Target(addr, loc)));
    RunNone(m1);
    RunCons(m, m1, 0);
  }

  /** Where a relocated CALL leaves the return address. */
  function ReturnAddress(addr: int, loc: Reloc, base: int, force: bool): int {
    if IsFar(addr, loc, base, force) then base + loc.epilogueOffset + 6 else base + loc.End()
  }

  /** The bytes that, in front of a CALL or JMP, make the far form take it for another instruction. */
  predicate Misread(before: byte) { before == LEA || before == MOV || before == CMPL || before == CALL2 }

  /** A CALL relocated by `relocatePCREL` calls `addr + Add` and comes back behind the site: near,
      whatever stands in front of it, and far, unless it is misread. */
  lemma PcrelCallMeaning(m: Machine, code: seq<byte>, saved: map<nat, seq<byte>>, loc: Reloc,
                         addr: int, base: int, force: bool)
    requires Ready(code, saved, loc) && Original(code, saved, loc)[1] == CALL
    requires IsFar(addr, loc, base, force) ==> !Misread(Original(code, saved, loc)[0])
    requires RelocatedPCREL(code, saved, loc, addr, base, force).outcome == Done
    requires Loaded(m, RelocatedPCREL(code, saved, loc, addr, base, force).code, base)
    requires m.rip == base + loc.offset - 1
    ensures var ret := ReturnAddress(addr, loc, base, force);
      && EntersCallee(m, if IsFar(addr, loc, base, force) then 2 else 1, U64(Target(addr, loc)), ret)
      && ReturnsTo(RelocatedPCREL(code, saved, loc, addr, base, force).code, base, ret, base + loc.End())
  {
    hide Step, Run, LE64, LE32, U64, S64, EntersCallee, ReturnsTo, RelocatedPCREL, IsFar, Target, Misread, Original;
    var code' := RelocatedPCREL(code, saved, loc, addr, base, force).code;
    if IsFar(addr, loc, base, force) {
      ReadAs(code, saved, loc, addr, base, force);
      FarCallSite(code, saved, loc, addr, base, force);
      FarCallRuns(m, code', base, loc, Target(addr, loc));
    } else {
      NearCallSite(code, saved, loc, addr, base, force);
      NearCallRuns(m, code', base, loc, addr);
    }
  }

  /** What a far CALL or JMP is taken for when its relocation succeeds. */
  lemma ReadAs(code: seq<byte>, saved: map<nat, seq<byte>>, loc: Reloc, addr: int, base: int, force: bool)
    requires Ready(code, saved, loc) && IsFar(addr, loc, base, force)
    requires Original(code, saved, loc)[1] == CALL || Original(code, saved, loc)[1] == JMP
    requires RelocatedPCREL(code, saved, loc, addr, base, force).outcome == Done
    ensures var site := Original(code, saved, loc);
      && (!Misread(site[0]) ==> Classify(site) == if site[1] == CALL then Call else Jump)
      && (site[0] == LEA ==> Classify(site) == Lea) && (site[0] == CALL2 ==> Classify(site) == CallIndirect)
      && (site[0] == CMPL ==> Classify(site) == Cmpl) && site[0] != MOV
    ensures loc.epilogueSize > 0
  {
    hide Reset, IsFar, Target, Epilogue, EpilogueLength, FarSite, Splice, Nops;
  }

  lemma FarCallSite(code: seq<byte>, saved: map<nat, seq<byte>>, loc: Reloc, addr: int, base: int, force: bool)
    requires Ready(code, saved, loc) && IsFar(addr, loc, base, force)
    requires Classify(Original(code, saved, loc)) == Call
    requires RelocatedPCREL(code, saved, loc, addr, base, force).outcome == Done
    ensures var code', far := RelocatedPCREL(code, saved, loc, addr, base, force).code, FarCall(loc, Target(addr, loc));
      && |code'| == |code| < TWO_31 && 1 <= loc.offset && loc.End() <= loc.epilogueOffset
      && loc.epilogueOffset + |far| <= |code|
      && code'[loc.offset - 1..loc.End()] == [JMP] + LE32(ToEpilogue(loc))
      && code'[loc.epilogueOffset..loc.epilogueOffset + |far|] == far
  {
    hide LE64, LE32, S64, FarCall, RelocatedPCREL, Reset, IsFar, Target, Classify, FarEpilogue, Epilogue, FarSite,
      EpilogueLength, Original, ReturnJump;
    var code' := RelocatedPCREL(code, saved, loc, addr, base, force).code;
    var site, rex, disp := Original(code, saved, loc), code[loc.offset - 3], LE32(ToEpilogue(loc));
    FarBytes(code, saved, loc, addr, base, force);
    CallBytes(Reset(code, site, loc), site, loc, Target(addr, loc));
    Regroup(rex, site[0], JMP, disp);
    TwoParts(code', loc.offset - 3, [rex, site[0]], [JMP] + disp);
  }

  lemma Regroup(rex: byte, a: byte, b: byte, disp: seq<byte>)
    ensures [rex] + ([a, b] + disp) == [rex, a] + ([b] + disp)
  {
  }

  lemma CallBytes(ready: seq<byte>, site: seq<byte>, loc: Reloc, target: int)
    requires |site| == 6 && 3 <= loc.offset && loc.End() < |ready| && Classify(site) == Call
    ensures FarEpilogue(ready, site, loc, target) == FarCall(loc, target)
    ensures FarSite(site, loc) == [site[0], JMP] + LE32(ToEpilogue(loc))
  {
    hide FarCall, LE32;
  }

  lemma NearCallSite(code: seq<byte>, saved: map<nat, seq<byte>>, loc: Reloc, addr: int, base: int, force: bool)
    requires Ready(code, saved, loc) && !IsFar(addr, loc, base, force)
    requires Original(code, saved, loc)[1] == CALL
    ensures var code' := RelocatedPCREL(code, saved, loc, addr, base, force).code;
      && |code'| == |code| && 1 <= loc.offset && loc.End() <= |code|
      && code'[loc.offset - 1..loc.End()] == [CALL] + LE32(Distance(addr, loc, base))
    ensures IsInt32(Distance(addr, loc, base))
  {
    hide LE32, S64, RelocatedPCREL, Reset;
    var code' := RelocatedPCREL(code, saved, loc, addr, base, force).code;
    var site, rex := Original(code, saved, loc), code[loc.offset - 3];
    NearBytes(code, saved, loc, addr, base, force);
    var d := LE32(Distance(addr, loc, base));
    assert [rex] + site[..2] + d == [rex, site[0]] + ([CALL] + d);
    TwoParts(code', loc.offset - 3, [rex, site[0]], [CALL] + d);
  }

  /** A CALL or JMP behind LEA's or CALL's own opcode byte (8D, FF) keeps its opcode and leads to the
      first byte of the epilogue, where the address is stored and no code is. */
  lemma MisreadSite(code: seq<byte>, saved: map<nat, seq<byte>>, loc: Reloc, addr: int, base: int, force: bool)
    requires Ready(code, saved, loc) && IsFar(addr, loc, base, force)
    requires Original(code, saved, loc)[1] == CALL || Original(code, saved, loc)[1] == JMP
    requires Original(code, saved, loc)[0] == LEA || Original(code, saved, loc)[0] == CALL2
    requires RelocatedPCREL(code, saved, loc, addr, base, force).outcome == Done
    ensures var code', site := RelocatedPCREL(code, saved, loc, addr, base, force).code, Original(code, saved, loc);
      && |code'| == |code| && loc.End() <= loc.epilogueOffset && loc.epilogueOffset + 8 <= |code|
      && code'[loc.offset - 2] == (if site[0] == LEA then MOV else CALL2)
      && code'[loc.offset - 1..loc.End()] == [site[1]] + LE32(ToEpilogue(loc))
      && code'[loc.epilogueOffset..loc.epilogueOffset + 8] == LE64(Target(addr, loc))
  {
    hide LE64, LE32, S64, RelocatedPCREL, Reset, IsFar, Target, Classify, FarEpilogue, FarSite, EpilogueLength,
      Original;
    var code' := RelocatedPCREL(code, saved, loc, addr, base, force).code;
    var site, rex, disp := Original(code, saved, loc), code[loc.offset - 3], LE32(ToEpilogue(loc));
    ReadAs(code, saved, loc, addr, base, force);
    FarBytes(code, saved, loc, addr, base, force);
    SlotBytes(Reset(code, site, loc), site, loc, Target(addr, loc));
    var before := if site[0] == LEA then MOV else CALL2;
    Regroup(rex, before, site[1], disp);
    TwoParts(code', loc.offset - 3, [rex, before], [site[1]] + disp);
    assert code'[loc.offset - 3..loc.offset - 1][1] == before;
  }

  lemma SlotBytes(ready: seq<byte>, site: seq<byte>, loc: Reloc, target: int)
    requires |site| == 6 && 3 <= loc.offset && loc.End() < |ready|
    requires (site[0] == LEA && Classify(site) == Lea) || (site[0] == CALL2 && Classify(site) == CallIndirect)
    ensures FarEpilogue(ready, site, loc, target) == LE64(target)
    ensures FarSite(site, loc) == [if site[0] == LEA then MOV else CALL2, site[1]] + LE32(ToEpilogue(loc))
  {
    hide LE64, LE32;
  }

  /** A site behind 83 is rewritten from one byte earlier on, over the end of the instruction before. */
  lemma BehindCmpl(code: seq<byte>, saved: map<nat, seq<byte>>, loc: Reloc, addr: int, base: int, force: bool)
    requires Ready(code, saved, loc) && IsFar(addr, loc, base, force)
    requires Classify(Original(code, saved, loc)) == Cmpl
    requires RelocatedPCREL(code, saved, loc, addr, base, force).outcome == Done
    ensures RelocatedPCREL(code, saved, loc, addr, base, force).code[loc.offset - 2] == JMP
  {
    hide LE32, LE64, Splice, Nops, EpilogueLength, IsFar, Target, Reset;
    var site := Original(code, saved, loc);
    var ready := Reset(code, site, loc);
    var far, epilogue := FarSite(site, loc), FarEpilogue(ready, site, loc, Target(addr, loc));
    SpliceAt(ready, loc.offset - 2, far);
    SpliceAt(Splice(ready, loc.offset - 2, far), loc.epilogueOffset, epilogue);
  }

  /** Where the far form of a site stores the address. */
  function AddressOffset(site: seq<byte>, loc: Reloc): nat
    requires |site| == 6
  {
    match Classify(site)
    case Call => loc.epilogueOffset + 6 + |ReturnJump(loc, loc.epilogueOffset + 6)|
    case Jump => loc.epilogueOffset + 6
    case Mov => loc.epilogueOffset + 2
    case Cmpl => loc.epilogueOffset + 3
    case _ => loc.epilogueOffset
  }

  /** The first `n` instructions executed from `m` on are not taken from the eight bytes at `a`. */
  ghost predicate NeverExecutes(m: Machine, n: nat, a: int)
    requires |m.regs| == 16
  {
    forall k :: 0 <= k < n && Run(m, k).Some? ==> !(a <= Run(m, k).value.rip < a + 8)
  }

  /** In `n` steps the callee at `target` is entered, by way of code and not of the stored address, and
      whoever returns from it continues at `next`. */
  ghost predicate Calls(m: Machine, code: seq<byte>, base: int, n: nat, ret: int, target: int, next: int, stored: int) {
    EntersCallee(m, n, target, ret) && ReturnsTo(code, base, ret, next) && NeverExecutes(m, n, stored)
  }

  ghost predicate CallReaches(m: Machine, code: seq<byte>, base: int, target: int, next: int, stored: int) {
    exists n: nat, ret: int :: Calls(m, code, base, n, ret, target, next, stored)
  }

  /** A far CALL with the instruction in front of it left alone calls its target and comes back behind
      the site if and only if the byte in front of it is not 8D, 8B, 83 or FF.  Behind 8D and FF it
      never does; behind 8B it is not relocated; behind 83 the instruction in front is overwritten. */
  lemma FarCallIff(m: Machine, code: seq<byte>, saved: map<nat, seq<byte>>, loc: Reloc,
                   addr: int, base: int, force: bool)
    requires Ready(code, saved, loc) && IsFar(addr, loc, base, force)
    requires Original(code, saved, loc)[1] == CALL && U64(Target(addr, loc)) != base + loc.epilogueOffset
    requires RelocatedPCREL(code, saved, loc, addr, base, force).outcome == Done
    requires Loaded(m, RelocatedPCREL(code, saved, loc, addr, base, force).code, base)
    requires m.rip == base + loc.offset - 1
    ensures var code', site := RelocatedPCREL(code, saved, loc, addr, base, force).code, Original(code, saved, loc);
      var stored, target := base + AddressOffset(site, loc), U64(Target(addr, loc));
      && (code'[loc.offset - 2] == site[0] && CallReaches(m, code', base, target, base + loc.End(), stored)
          <==> !Misread(site[0]))
      && (site[0] == LEA || site[0] == CALL2 ==>
            EntersCallee(m, 1, base + loc.epilogueOffset, base + loc.End())
            && !CallReaches(m, code', base, target, base + loc.End(), stored))
  {
    hide Step, Run, LE64, LE32, U64, S64, RelocatedPCREL, Reset, IsFar, Target, Classify, Original, EpilogueLength,
      EntersCallee, ReturnsTo, ReturnJump, FarCall, NeverExecutes, Loaded;
    var code', site := RelocatedPCREL(code, saved, loc, addr, base, force).code, Original(code, saved, loc);
    var stored, target := base + AddressOffset(site, loc), U64(Target(addr, loc));
    ReadAs(code, saved, loc, addr, base, force);
    if !Misread(site[0]) {
      PcrelCallMeaning(m, code, saved, loc, addr, base, force);
      FarCallSite(code, saved, loc, addr, base, force);
      FarKeepsFront(code, saved, loc, addr, base, force);
      JumpsIn(m, code', base, loc);
      TwoSteps(m, m.(rip := base + loc.epilogueOffset), stored);
      var next := base + loc.End();
      assert Calls(m, code', base, 2, base + loc.epilogueOffset + 6, target, next, stored);
    } else if site[0] == CMPL {
      BehindCmpl(code, saved, loc, addr, base, force);
    } else {
      MisreadSite(code, saved, loc, addr, base, force);
      CallsIn(m, code', base, loc);
      var next := base + loc.End();
      forall n: nat, ret: int ensures !Calls(m, code', base, n, ret, target, next, stored) {
        NeverCalls(m, n, ret, target, next, base + loc.epilogueOffset);
      }
    }
  }

  /** A site taken for a CALL or JMP keeps the byte in front of it. */
  lemma FarKeepsFront(code: seq<byte>, saved: map<nat, seq<byte>>, loc: Reloc, addr: int, base: int, force: bool)
    requires Ready(code, saved, loc) && IsFar(addr, loc, base, force)
    requires Classify(Original(code, saved, loc)) == Call || Classify(Original(code, saved, loc)) == Jump
    requires RelocatedPCREL(code, saved, loc, addr, base, force).outcome == Done
    ensures RelocatedPCREL(code, saved, loc, addr, base, force).code[loc.offset - 2] == Original(code, saved, loc)[0]
  {
    hide LE32, LE64, RelocatedPCREL, Reset, IsFar, Target, EpilogueLength, Original, Classify;
    var code', site := RelocatedPCREL(code, saved, loc, addr, base, force).code, Original(code, saved, loc);
    FarBytes(code, saved, loc, addr, base, force);
    assert code'[loc.offset - 3..loc.End()][1] == FarSite(site, loc)[0];
  }

  /** The first step of a rewritten site goes into the epilogue: by a JMP that changes nothing else, */
  lemma JumpsIn(m: Machine, code: seq<byte>, base: int, loc: Reloc)
    requires Loaded(m, code, base) && |code| < TWO_31 && m.rip == base + loc.offset - 1
    requires 1 <= loc.offset && loc.End() <= loc.epilogueOffset <= |code|
    requires code[loc.offset - 1..loc.End()] == [JMP] + LE32(ToEpilogue(loc))
    ensures |m.regs| == 16 && Step(m) == Some(m.(rip := base + loc.epilogueOffset))
  {
    hide Step, LE32;
    Segment(m, code, base, loc.offset - 1, [JMP] + LE32(ToEpilogue(loc)));
    StepNearJump(m, ToEpilogue(loc));
    InRange(base + loc.epilogueOffset);
  }

  /** or by a CALL with the return address behind the site. */
  lemma CallsIn(m: Machine, code: seq<byte>, base: int, loc: Reloc)
    requires Loaded(m, code, base) && |code| < TWO_31 && m.rip == base + loc.offset - 1
    requires 1 <= loc.offset && loc.End() <= loc.epilogueOffset <= |code|
    requires code[loc.offset - 1..loc.End()] == [CALL] + LE32(ToEpilogue(loc))
    ensures EntersCallee(m, 1, base + loc.epilogueOffset, base + loc.End())
  {
    hide Step, Run, LE32, Push;
    Segment(m, code, base, loc.offset - 1, [CALL] + LE32(ToEpilogue(loc)));
    StepCall(m, ToEpilogue(loc));
    InRange(base + loc.epilogueOffset);
    var m1 := Push(m, m.rip + 5).(rip := base + loc.epilogueOffset);
    PushedRegs(m, m.rip + 5);
    RunNone(m1);
    RunCons(m, m1, 0);
  }

  lemma PushedRegs(m: Machine, v: int)
    requires |m.regs| == 16
    ensures |Push(m, v).regs| == 16 && Push(m, v).regs[RSP] != m.regs[RSP]
  {
  }

  lemma TwoSteps(m: Machine, m1: Machine, stored: int)
    requires |m.regs| == 16 && Step(m) == Some(m1) && |m1.regs| == 16
    requires !(stored <= m.rip < stored + 8) && !(stored <= m1.rip < stored + 8)
    ensures NeverExecutes(m, 2, stored)
  {
    hide Step;
    RunNone(m);
    RunNone(m1);
    RunCons(m, m1, 0);
    forall k | 0 <= k < 2 && Run(m, k).Some? ensures !(stored <= Run(m, k).value.rip < stored + 8) {
      if k == 0 {
        assert Run(m, k) == Some(m);
      } else {
        assert Run(m, k) == Some(m1);
      }
    }
  }

  /** From a machine that calls the stored address at `a` first, no run calls anything else without
      executing it. */
  lemma NeverCalls(m: Machine, n: nat, ret: int, target: int, back: int, a: int)
    requires EntersCallee(m, 1, a, back) && target != a
    ensures !(EntersCallee(m, n, target, ret) && NeverExecutes(m, n, a))
  {
    hide Step, Push;
    PushedRegs(m, ret);
    PushedRegs(m, back);
    if n == 0 {
      RunNone(m);
    } else if n > 1 {
      assert Run(m, 1).value.rip == a;
    }
  }

  /** A CALL relocated by `relocateCALL` calls `addr + Add` and comes back behind the site,
      near or far. */
  lemma CallMeaning(m: Machine, code: seq<byte>, loc: Reloc, addr: int, base: int, force: bool)
    requires CallInBounds(code, loc) && ShortSegment(code) && code[loc.offset - 1] == CALL
    requires RelocatedCALL(code, loc, addr, base, force).1 == Done
    requires Loaded(m, RelocatedCALL(code, loc, addr, base, force).0, base)
    requires m.rip == base + loc.offset - 1
    ensures var ret := ReturnAddress(addr, loc, base, force);
      && EntersCallee(m, if IsFar(addr, loc, base, force) then 2 else 1, U64(Target(addr, loc)), ret)
      && ReturnsTo(RelocatedCALL(code, loc, addr, base, force).0, base, ret, base + loc.End())
  {
    hide Step, Run, LE64, LE32, U64, S64, EntersCallee, ReturnsTo, FarCall, RelocatedCALL, IsFar, Target;
    var code' := RelocatedCALL(code, loc, addr, base, force).0;
    if IsFar(addr, loc, base, force) {
      CallSiteFar(code, loc, addr, base, force);
      FarCallRuns(m, code', base, loc, Target(addr, loc));
    } else {
      CallSiteNear(code, loc, addr, base, force);
      NearCallRuns(m, code', base, loc, addr);
    }
  }

  lemma CallSiteFar(code: seq<byte>, loc: Reloc, addr: int, base: int, force: bool)
    requires CallInBounds(code, loc) && RelocatedCALL(code, loc, addr, base, force).1 == Done
    requires IsFar(addr, loc, base, force)
    ensures var code', far := RelocatedCALL(code, loc, addr, base, force).0, FarCall(loc, Target(addr, loc));
      && |code'| == |code| && loc.End() <= loc.epilogueOffset && loc.epilogueOffset + |far| <= |code|
      && code'[loc.offset - 1..loc.End()] == [JMP] + LE32(ToEpilogue(loc))
      && code'[loc.epilogueOffset..loc.epilogueOffset + |far|] == far
  {
    hide LE64, LE32, S64, Splice, IsFar, Target, ReturnJump, IndirectCall;
    var ready := Splice(code, loc.epilogueOffset, Nops(loc.epilogueSize));
    SpliceApart(ready, loc.offset - 1, [JMP] + LE32(ToEpilogue(loc)), loc.epilogueOffset,
                FarCall(loc, Target(addr, loc)));
  }

  lemma CallSiteNear(code: seq<byte>, loc: Reloc, addr: int, base: int, force: bool)
    requires CallInBounds(code, loc) && code[loc.offset - 1] == CALL && !IsFar(addr, loc, base, force)
    ensures var code' := RelocatedCALL(code, loc, addr, base, force).0;
      && |code'| == |code| && IsInt32(Distance(addr, loc, base))
      && code'[loc.offset - 1..loc.End()] == [CALL] + LE32(Distance(addr, loc, base))
  {
    hide LE32, S64, U64, Splice, FarCall, Nops, Distance;
    var nops, d := Nops(loc.epilogueSize), LE32(Distance(addr, loc, base));
    var ready := Splice(code, loc.epilogueOffset, nops);
    SpliceIndex(code, loc.epilogueOffset, nops, loc.offset - 1);
    SpliceIndex(ready, loc.offset, d, loc.offset - 1);
    SpliceRegion(ready, loc.offset, d);
    Prepend(Splice(ready, loc.offset, d), loc.offset - 1, d);
    NearIsInt32(addr, loc, base, force);
  }

  lemma NearIsInt32(addr: int, loc: Reloc, base: int, force: bool)
    requires !IsFar(addr, loc, base, force)
    ensures IsInt32(Distance(addr, loc, base))
  {
    hide Distance;
  }

  lemma Prepend(b: seq<byte>, k: nat, d: seq<byte>)
    requires k + 1 + |d| <= |b| && b[k + 1..k + 1 + |d|] == d
    ensures b[k..k + 1 + |d|] == [b[k]] + d
  {
  }

  // ----- JMP -----

  /** A JMP relocated by `relocatePCREL` goes to `addr + Add` and changes nothing else: near, whatever
      stands in front of it, and far, unless it is misread. */
  lemma JumpMeaning(m: Machine, code: seq<byte>, saved: map<nat, seq<byte>>, loc: Reloc,
                    addr: int, base: int, force: bool)
    requires Ready(code, saved, loc) && Original(code, saved, loc)[1] == JMP
    requires IsFar(addr, loc, base, force) ==> !Misread(Original(code, saved, loc)[0])
    requires RelocatedPCREL(code, saved, loc, addr, base, force).outcome == Done
    requires Loaded(m, RelocatedPCREL(code, saved, loc, addr, base, force).code, base)
    requires m.rip == base + loc.offset - 1
    ensures Run(m, if IsFar(addr, loc, base, force) then 2 else 1)
         == Some(m.(rip := U64(Target(addr, loc))))
  {
    hide Step, Run, RelocatedPCREL, IsFar, Target, Misread, Original, Loaded, U64;
    if IsFar(addr, loc, base, force) {
      ReadAs(code, saved, loc, addr, base, force);
      FarJump(m, code, saved, loc, addr, base, force);
    } else {
      NearJump(m, code, saved, loc, addr, base, force);
    }
  }

  /** In `n` steps, one at least, `target` is reached by way of code with nothing else changed. */
  ghost predicate JumpsTo(m: Machine, n: nat, target: int, stored: int) {
    |m.regs| == 16 && n > 0 && Run(m, n) == Some(m.(rip := target)) && NeverExecutes(m, n, stored)
  }

  ghost predicate JumpReaches(m: Machine, target: int, stored: int) {
    exists n: nat :: JumpsTo(m, n, target, stored)
  }

  /** A far JMP with the instruction in front of it left alone reaches its target if and only if the
      byte in front of it is not 8D, 8B, 83 or FF; behind 8D and FF it jumps to the stored address. */
  lemma FarJumpIff(m: Machine, code: seq<byte>, saved: map<nat, seq<byte>>, loc: Reloc,
                   addr: int, base: int, force: bool)
    requires Ready(code, saved, loc) && IsFar(addr, loc, base, force)
    requires Original(code, saved, loc)[1] == JMP && U64(Target(addr, loc)) != base + loc.epilogueOffset
    requires RelocatedPCREL(code, saved, loc, addr, base, force).outcome == Done
    requires Loaded(m, RelocatedPCREL(code, saved, loc, addr, base, force).code, base)
    requires m.rip == base + loc.offset - 1
    ensures var code', site := RelocatedPCREL(code, saved, loc, addr, base, force).code, Original(code, saved, loc);
      var stored, target := base + AddressOffset(site, loc), U64(Target(addr, loc));
      && (code'[loc.offset - 2] == site[0] && JumpReaches(m, target, stored) <==> !Misread(site[0]))
      && (site[0] == LEA || site[0] == CALL2 ==>
            |m.regs| == 16 && Run(m, 1) == Some(m.(rip := base + loc.epilogueOffset))
            && !JumpReaches(m, target, stored))
  {
    hide Step, Run, LE64, LE32, U64, S64, RelocatedPCREL, Reset, IsFar, Target, Classify, Original, EpilogueLength,
      NeverExecutes, Loaded;
    var code', site := RelocatedPCREL(code, saved, loc, addr, base, force).code, Original(code, saved, loc);
    var stored, target := base + AddressOffset(site, loc), U64(Target(addr, loc));
    ReadAs(code, saved, loc, addr, base, force);
    var m1 := m.(rip := base + loc.epilogueOffset);
    if !Misread(site[0]) {
      JumpMeaning(m, code, saved, loc, addr, base, force);
      FarKeepsFront(code, saved, loc, addr, base, force);
      FarJumpSite(code, saved, loc, addr, base, force);
      JumpsIn(m, code', base, loc);
      TwoSteps(m, m1, stored);
      assert JumpsTo(m, 2, target, stored);
    } else if site[0] == CMPL {
      BehindCmpl(code, saved, loc, addr, base, force);
    } else {
      MisreadSite(code, saved, loc, addr, base, force);
      JumpsIn(m, code', base, loc);
      RunNone(m1);
      RunCons(m, m1, 0);
      forall n: nat ensures !JumpsTo(m, n, target, stored) {
        NeverJumps(m, n, target, base + loc.epilogueOffset);
      }
    }
  }

  lemma NeverJumps(m: Machine, n: nat, target: int, a: int)
    requires |m.regs| == 16 && Run(m, 1) == Some(m.(rip := a)) && target != a
    ensures !JumpsTo(m, n, target, a)
  {
    hide Step;
    if n > 1 {
      assert Run(m, 1).value.rip == a;
    }
  }

  lemma FarJumpSite(code: seq<byte>, saved: map<nat, seq<byte>>, loc: Reloc, addr: int, base: int, force: bool)
    requires Ready(code, saved, loc) && IsFar(addr, loc, base, force)
    requires Classify(Original(code, saved, loc)) == Jump
    requires RelocatedPCREL(code, saved, loc, addr, base, force).outcome == Done
    ensures var code' := RelocatedPCREL(code, saved, loc, addr, base, force).code;
      && |code'| == |code| < TWO_31 && 1 <= loc.offset && loc.End() <= loc.epilogueOffset <= |code|
      && code'[loc.offset - 1..loc.End()] == [JMP] + LE32(ToEpilogue(loc))
  {
    hide LE64, LE32, S64, RelocatedPCREL, Reset, IsFar, Target, Classify, FarEpilogue, FarSite, EpilogueLength,
      Original;
    var code' := RelocatedPCREL(code, saved, loc, addr, base, force).code;
    var site, rex, disp := Original(code, saved, loc), code[loc.offset - 3], LE32(ToEpilogue(loc));
    FarBytes(code, saved, loc, addr, base, force);
    JumpBytes(site, loc);
    Regroup(rex, site[0], JMP, disp);
    TwoParts(code', loc.offset - 3, [rex, site[0]], [JMP] + disp);
  }

  lemma JumpBytes(site: seq<byte>, loc: Reloc)
    requires |site| == 6 && Classify(site) == Jump
    ensures site[1] == JMP && FarSite(site, loc) == [site[0], JMP] + LE32(ToEpilogue(loc))
  {
    hide LE32;
    assert site[..2] == [site[0], site[1]];
  }

  lemma FarJump(m: Machine, code: seq<byte>, saved: map<nat, seq<byte>>, loc: Reloc,
                addr: int, base: int, force: bool)
    requires Ready(code, saved, loc) && IsFar(addr, loc, base, force)
    requires Classify(Original(code, saved, loc)) == Jump
    requires RelocatedPCREL(code, saved, loc, addr, base, force).outcome == Done
    requires Loaded(m, RelocatedPCREL(code, saved, loc, addr, base, force).code, base)
    requires m.rip == base + loc.offset - 1
    ensures Run(m, 2) == Some(m.(rip := U64(Target(addr, loc))))
  {
    hide Step, Run, LE64, LE32, U64, S64, Reset, RelocatedPCREL, IsFar, Target;
    var code' := RelocatedPCREL(code, saved, loc, addr, base, force).code;
    var site, rex, disp := Original(code, saved, loc), code[loc.offset - 3], LE32(ToEpilogue(loc));
    FarBytes(code, saved, loc, addr, base, force);
    assert [rex] + FarSite(site, loc) == [rex, site[0]] + ([JMP] + disp);
    TwoParts(code', loc.offset - 3, [rex, site[0]], [JMP] + disp);
    Segment(m, code', base, loc.offset - 1, [JMP] + disp);
    StepNearJump(m, ToEpilogue(loc));
    InRange(base + loc.epilogueOffset);
    var m1 := m.(rip := base + loc.epilogueOffset);
    JumpThroughSlot(m1, code', base, loc.epilogueOffset, Target(addr, loc));
    var m2 := m.(rip := U64(Target(addr, loc)));
    RunNone(m2);
    RunCons(m1, m2, 0);
    RunCons(m, m1, 1);
  }

  lemma NearJump(m: Machine, code: seq<byte>, saved: map<nat, seq<byte>>, loc: Reloc,
                 addr: int, base: int, force: bool)
    requires Ready(code, saved, loc) && !IsFar(addr, loc, base, force)
    requires Original(code, saved, loc)[1] == JMP
    requires Loaded(m, RelocatedPCREL(code, saved, loc, addr, base, force).code, base)
    requires m.rip == base + loc.offset - 1
    ensures Run(m, 1) == Some(m.(rip := U64(Target(addr, loc))))
  {
    hide Step, Run, LE32, U64, S64, Reset, RelocatedPCREL, Target;
    var code' := RelocatedPCREL(code, saved, loc, addr, base, force).code;
    var site, rex, d := Original(code, saved, loc), code[loc.offset - 3], Distance(addr, loc, base);
    NearBytes(code, saved, loc, addr, base, force);
    assert [rex] + site[..2] + LE32(d) == [rex, site[0]] + ([JMP] + LE32(d));
    TwoParts(code', loc.offset - 3, [rex, site[0]], [JMP] + LE32(d));
    Segment(m, code', base, loc.offset - 1, [JMP] + LE32(d));
    StepNearJump(m, d);
    NearReaches(addr, loc, base);
    var m1 := m.(rip := U64(Target(addr, loc)));
    RunNone(m1);
    RunCons(m, m1, 0);
  }

  lemma JumpThroughSlot(m: Machine, code: seq<byte>, base: int, at: nat, target: int)
    requires Loaded(m, code, base) && m.rip == base + at && at + 14 <= |code|
    requires code[at..at + 14] == JMPL_CODE + LE64(target)
    ensures Step(m) == Some(m.(rip := U64(target)))
  {
    hide Step, Load64, LE64;
    TwoParts(code, at, JMPL_CODE, LE64(target));
    ZeroWord();
    Segment(m, code, base, at, [0xFF, 0x25] + LE32(0));
    StepIndirectJump(m, 0);
    InRange(m.rip + 6);
    HoldsPart(m.mem, base, code, at + 6, LE64(target));
    Load64Of(m.mem, base + at + 6, target);
  }

  lemma ZeroWord()
    ensures [0xFF, 0x25] + LE32(0) == JMPL_CODE
  {
    assert LE(0, 1) == [0] && LE(0, 2) == [0, 0] && LE(0, 3) == [0, 0, 0] && LE(0, 4) == [0, 0, 0, 0];
  }
}
