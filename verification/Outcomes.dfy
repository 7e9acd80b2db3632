/** relocate.go: exactly when each relocation succeeds, and what the near and the remaining far forms
    write, in the numbers and bytes of the instruction sets. */
module Outcomes {
  import opened Bytes
  import opened Patching
  import X = RelocX86
  import FX = FrameX86
  import A = RelocArm64

  // ----- x86-64 -----

  /** The distance from the end of the site, as an int64. */
  function Displacement(addr: int, loc: X.Reloc, base: int): int { S64(addr + loc.add - (base + loc.offset + 4)) }

  /** It fits the instruction, and no test of epilogues is asked for. */
  predicate FitsSite(d: int, loc: X.Reloc, force: bool) {
    -0x8000_0000 <= d < 0x8000_0000 && !(force && loc.epilogueSize > 0)
  }

  /** The sites that have a far form: LEA, a MOV relative to RIP, CMPL, an indirect CALL and, behind none of
      their opcodes, a JMP or a CALL without a displacement. */
  predicate HasFarForm(site: seq<byte>)
    requires |site| == 6
  {
    if site[0] == 0x8B then site[1] % 8 == 5
    else
      || site[0] == 0x8D || site[0] == 0x83 || site[0] == 0xFF || site[1] == 0xE9
      || (site[1] == 0xE8 && site[2] == 0 && site[3] == 0 && site[4] == 0 && site[5] == 0)
  }

  lemma WordIsZero(b: seq<byte>, i: nat)
    requires i + 4 <= |b|
    ensures Get32(b, i) == 0 <==> b[i] == 0 && b[i + 1] == 0 && b[i + 2] == 0 && b[i + 3] == 0
  {
    var w := b[i..i + 4];
    assert Val(w) == w[0] + 256 * Val(w[1..]) && w[1..][1..] == w[2..] && w[2..][1..] == w[3..] && w[3..][1..] == [];
    assert Val(w[1..]) == w[1] + 256 * Val(w[2..]) && Val(w[2..]) == w[2] + 256 * Val(w[3..]);
    assert Val(w[3..]) == w[3] + 256 * Val([]);
  }

  lemma FarFormIff(site: seq<byte>)
    requires |site| == 6
    ensures HasFarForm(site)
       <==> X.Classify(site) != X.Unsupported && (X.Classify(site) == X.Mov ==> site[1] % 8 == 5)
  {
    hide Get32;
    WordIsZero(site, 2);
  }

  /** R_PCREL succeeds if and only if the distance fits, or there are an epilogue and a far form. */
  lemma PcrelDoneIff(code: seq<byte>, saved: map<nat, seq<byte>>, loc: X.Reloc, addr: int, base: int, force: bool)
    requires FX.Ready(code, saved, loc)
    ensures X.RelocatedPCREL(code, saved, loc, addr, base, force).outcome == Done
       <==> FitsSite(Displacement(addr, loc, base), loc, force)
            || (loc.epilogueSize > 0 && HasFarForm(X.Original(code, saved, loc)))
  {
    hide LE32, S64, X.Classify, X.Reset, X.FarSite, X.FarEpilogue, X.EpilogueLength, HasFarForm;
    SameDistance(addr, loc, base);
    FarFormIff(X.Original(code, saved, loc));
  }

  lemma SameDistance(addr: int, loc: X.Reloc, base: int)
    ensures X.Distance(addr, loc, base) == Displacement(addr, loc, base)
  {
    assert addr - (base + loc.End()) + loc.add == addr + loc.add - (base + loc.offset + 4);
  }

  /** A displacement that fits is written, and nothing else but the refill of the epilogue and the two
      opcode bytes of a site relocated before. */
  lemma PcrelNearBytes(code: seq<byte>, saved: map<nat, seq<byte>>, loc: X.Reloc, addr: int, base: int, force: bool)
    requires FX.Ready(code, saved, loc) && FitsSite(Displacement(addr, loc, base), loc, force)
    ensures var s, site := X.RelocatedPCREL(code, saved, loc, addr, base, force), X.Original(code, saved, loc);
      && |s.code| == |code| && S32(Get32(s.code, loc.offset)) == Displacement(addr, loc, base)
      && forall i :: 0 <= i < |code| && !(loc.offset <= i < loc.offset + 4) ==>
           s.code[i] == if loc.epilogueOffset <= i < loc.epilogueOffset + loc.epilogueSize then 0x90
                        else if loc.offset - 2 <= i < loc.offset then site[i - (loc.offset - 2)] else code[i]
  {
    hide LE32, S64, S32, X.Classify, X.Reset, X.Nops, Get32, X.Fits;
    SameDistance(addr, loc, base);
    var site := X.Original(code, saved, loc);
    var ready := X.Reset(code, site, loc);
    var d := X.Distance(addr, loc, base);
    WordReadsBack(ready, loc.offset, d);
    forall i | 0 <= i < |code| && !(loc.offset <= i < loc.offset + 4)
      ensures Splice(ready, loc.offset, LE32(d))[i]
           == if loc.epilogueOffset <= i < loc.epilogueOffset + loc.epilogueSize then 0x90
              else if loc.offset - 2 <= i < loc.offset then site[i - (loc.offset - 2)] else code[i]
    {
      SpliceIndex(ready, loc.offset, LE32(d), i);
      FX.ResetAt(code, site, loc, i);
    }
  }

  lemma WordReadsBack(b: seq<byte>, off: nat, d: int)
    requires off + 4 <= |b| && -0x8000_0000 <= d < 0x8000_0000
    ensures S32(Get32(Splice(b, off, LE32(d)), off)) == d
  {
    hide LE32;
    SpliceRegion(b, off, LE32(d));
    ValLE32(d);
  }

  /** A far CMPL: the site becomes a JMP into the epilogue and no-ops, the last of which replaces the
      immediate; the epilogue compares the word at the address, one byte on because of the immediate,
      with that immediate, RAX saved around it. */
  lemma FarCmplBytes(code: seq<byte>, saved: map<nat, seq<byte>>, loc: X.Reloc, addr: int, base: int, force: bool)
    requires FX.Ready(code, saved, loc) && loc.epilogueSize > 0 && X.Original(code, saved, loc)[0] == 0x83
    requires !FitsSite(Displacement(addr, loc, base), loc, force)
    ensures var s, epi := X.RelocatedPCREL(code, saved, loc, addr, base, force), loc.epilogueOffset;
      var immediate := if loc.offset + 4 < epi then code[loc.offset + 4] else 0x90;
      var jump := [0xE9] + LE32(epi - (loc.offset + 4) + 1) + [0x90, 0x90];
      var compare := [0x50, 0x48, 0xB8] + LE64(addr + loc.add + 1) + [0x48, 0x83, 0x38, immediate, 0x58];
      && s.outcome == Done && |s.code| == |code| && epi + 16 <= |code|
      && (forall i :: 0 <= i < 7 && loc.offset - 2 + i < epi ==> s.code[loc.offset - 2 + i] == jump[i])
      && (forall i :: 0 <= i < 16 ==> s.code[epi + i] == compare[i])
  {
    hide LE32, LE64, S64, X.Reset, X.Nops, X.ReturnJump, X.EpilogueLength, X.FarSite, X.FarEpilogue, X.RelocatedFar;
    SameDistance(addr, loc, base);
    var site := X.Original(code, saved, loc);
    var ready := X.Reset(code, site, loc);
    CmplRoom(ready, site, loc);
    FX.ResetAt(code, site, loc, loc.offset + 4);
    CmplParts(ready, site, loc, X.Target(addr, loc));
    var epilogue := X.FarEpilogue(ready, site, loc, X.Target(addr, loc));
    CmplRelocated(ready, site, loc, X.Target(addr, loc));
    assert forall i :: 0 <= i < 16 ==> epilogue[i] == epilogue[..16][i];
    forall i | loc.offset - 2 <= i < loc.offset + 5 || loc.epilogueOffset <= i < loc.epilogueOffset + 16 {
      FX.FarAt(ready, site, loc, X.Target(addr, loc), i);
    }
  }

  lemma CmplRelocated(ready: seq<byte>, site: seq<byte>, loc: X.Reloc, target: int)
    requires |site| == 6 && site[0] == 0x83 && 3 <= loc.offset && loc.offset + 4 < |ready|
    requires loc.epilogueOffset + |X.FarEpilogue(ready, site, loc, target)| <= |ready|
    ensures X.RelocatedFar(ready, site, loc, target).1 == Done
  {
    hide LE32, LE64, X.ReturnJump;
  }

  lemma CmplParts(ready: seq<byte>, site: seq<byte>, loc: X.Reloc, target: int)
    requires |site| == 6 && site[0] == 0x83 && 3 <= loc.offset && loc.offset + 4 < |ready|
    ensures X.FarSite(site, loc) == [0xE9] + LE32(loc.epilogueOffset - (loc.offset + 4) + 1) + [0x90, 0x90]
    ensures var e := X.FarEpilogue(ready, site, loc, target);
      |e| >= 18 && e[..16] == [0x50, 0x48, 0xB8] + LE64(target + 1) + [0x48, 0x83, 0x38, ready[loc.offset + 4], 0x58]
  {
    hide LE32, LE64, X.ReturnJump;
  }

  lemma CmplRoom(ready: seq<byte>, site: seq<byte>, loc: X.Reloc)
    requires |site| == 6 && site[0] == 0x83 && 3 <= loc.offset && loc.offset + 4 < |ready|
    ensures X.Classify(site) == X.Cmpl && X.EpilogueLength(ready[loc.offset - 3], site, loc) >= 18
  {
  }

  /** R_CALL succeeds if and only if the distance fits or there is an epilogue. */
  lemma CallDoneIff(code: seq<byte>, loc: X.Reloc, addr: int, base: int, force: bool)
    requires X.CallInBounds(code, loc)
    ensures X.RelocatedCALL(code, loc, addr, base, force).1 == Done
       <==> FitsSite(Displacement(addr, loc, base), loc, force) || loc.epilogueSize > 0
  {
    hide LE32, S64, X.FarCall, X.Nops;
    SameDistance(addr, loc, base);
  }

  lemma CallNearBytes(code: seq<byte>, loc: X.Reloc, addr: int, base: int, force: bool)
    requires X.CallInBounds(code, loc) && FitsSite(Displacement(addr, loc, base), loc, force)
    ensures var r := X.RelocatedCALL(code, loc, addr, base, force).0;
      && |r| == |code| && S32(Get32(r, loc.offset)) == Displacement(addr, loc, base)
      && forall i :: 0 <= i < |code| && !(loc.offset <= i < loc.offset + 4) ==>
           r[i] == if loc.epilogueOffset <= i < loc.epilogueOffset + loc.epilogueSize then 0x90 else code[i]
  {
    hide LE32, S64, S32, Get32, X.FarCall, X.Nops;
    SameDistance(addr, loc, base);
    var d := X.Distance(addr, loc, base);
    var ready := Splice(code, loc.epilogueOffset, X.Nops(loc.epilogueSize));
    WordReadsBack(ready, loc.offset, d);
    forall i | 0 <= i < |code| && !(loc.offset <= i < loc.offset + 4)
      ensures Splice(ready, loc.offset, LE32(d))[i]
           == if loc.epilogueOffset <= i < loc.epilogueOffset + loc.epilogueSize then 0x90 else code[i]
    {
      SpliceIndex(ready, loc.offset, LE32(d), i);
      SpliceIndex(code, loc.epilogueOffset, X.Nops(loc.epilogueSize), i);
      FX.NopAt(loc.epilogueSize);
    }
  }

  // ----- arm64 -----

  /** The distance from the site's page, as an int64. */
  function FromPage(symAddr: int, loc: A.Reloc, base: nat): int {
    S64(symAddr + loc.add - (base + loc.offset - (base + loc.offset) % 4096))
  }

  /** How many bytes the second instruction of a pair accesses; an ADD takes any address. */
  function Width(kind: A.Kind): nat {
    match kind
    case AddrArm64 | PcrelLdst8 => 1
    case PcrelLdst16 => 2
    case PcrelLdst32 => 4
    case _ => 8
  }

  /** A multiple of the width. */
  predicate AlignedTo(target: int, kind: A.Kind) {
    match Width(kind)
    case 1 => true
    case 2 => target % 2 == 0
    case 4 => target % 4 == 0
    case _ => target % 8 == 0
  }

  /** A pair within 4 GiB succeeds if and only if its target is aligned to what is accessed there; one
      farther away, if and only if it has an epilogue. */
  lemma AdrpDoneIff(code: seq<byte>, saved: map<nat, seq<byte>>, loc: A.Reloc, symAddr: int, base: nat, force: bool)
    requires A.InBounds(code, saved, loc) && !loc.kind.ThroughSlot()
    ensures var d := FromPage(symAddr, loc, base);
      A.RelocatedADRP(code, saved, loc, symAddr, base, force).outcome == Done
      <==> if -0x1_0000_0000 <= d <= 0x1_0000_0000 && !(force && loc.epilogueSize > 0)
           then AlignedTo(symAddr + loc.add, loc.kind) else loc.epilogueSize > 0
  {
    hide S64, A.Reset, A.NearPatched, A.FarPatched, A.Aligned, AlignedTo;
    SamePageDistance(symAddr, loc, base);
    AlignedIff(symAddr, loc, base);
  }

  lemma SamePageDistance(symAddr: int, loc: A.Reloc, base: nat)
    ensures A.PageDistance(symAddr, loc, base) == FromPage(symAddr, loc, base)
  {
  }

  /** Pages and the wrap at 2^64 are multiples of eight. */
  lemma AlignedIff(symAddr: int, loc: A.Reloc, base: nat)
    requires !loc.kind.ThroughSlot()
    ensures A.Aligned(FromPage(symAddr, loc, base), loc.kind.Shift()) <==> AlignedTo(symAddr + loc.add, loc.kind)
  {
    hide S64;
    var x := symAddr + loc.add;
    var page := base + loc.offset - (base + loc.offset) % 4096;
    assert page == 4096 * ((base + loc.offset) / 4096);
    var k := WrapsByEights(x - page);
    assert FromPage(symAddr, loc, base) == x - 8 * (512 * ((base + loc.offset) / 4096) + k);
    EightsAway(x, 512 * ((base + loc.offset) / 4096) + k);
  }

  lemma WrapsByEights(x: int) returns (k: int)
    ensures S64(x) == x - 8 * k
  {
    k := 0x2000_0000_0000_0000 * (x / TWO_64);
    if x % TWO_64 >= TWO_63 {
      k := k + 0x2000_0000_0000_0000;
    }
  }

  lemma EightsAway(x: int, k: int)
    ensures (x - 8 * k) % 2 == x % 2 && (x - 8 * k) % 4 == x % 4 && (x - 8 * k) % 8 == x % 8
  {
  }

  /** A pair that goes through a slot succeeds if and only if the slot does not lie in front of it. */
  lemma SlotDoneIff(code: seq<byte>, saved: map<nat, seq<byte>>, loc: A.Reloc, symAddr: int, base: nat, force: bool)
    requires A.InBounds(code, saved, loc) && loc.kind.ThroughSlot()
    ensures A.RelocatedADRP(code, saved, loc, symAddr, base, force).outcome == Done
            <==> loc.offset <= loc.epilogueOffset
  {
    hide A.Reset, A.NearPatched, Align8;
  }

  /** R_CALLARM64 succeeds if and only if the target is within 32 MiB, rounded toward the site to whole
      instructions, or there is an epilogue. */
  lemma CallArm64DoneIff(code: seq<byte>, loc: A.Reloc, addr: int, base: nat, force: bool)
    requires A.CallInBounds(code, loc)
    ensures var d := S64(addr + loc.add - (base + loc.offset));
      A.RelocatedCALL(code, loc, addr, base, force).1 == Done
      <==> (-0x200_0003 <= d <= 0x1FF_FFFF && !(force && loc.epilogueSize > 0)) || loc.epilogueSize > 0
  {
    hide S64, LE32, LE64, A.LE24, Or, Get32;
  }
}
