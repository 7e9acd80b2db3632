/** relocate.go for x86-64: `relocatePCREL` and `relocateCALL`.
    A site whose target is within 32 bits gets a new displacement (the near form).  Otherwise the
    site is redirected into an epilogue reserved behind the function, which holds the 64-bit
    address and jumps back (the far form). */
module RelocX86 {
  import opened Bytes
  import opened Patching

  // ----- asm_bytes.go -----

  const MOV: byte := 0x8B
  const LEA: byte := 0x8D
  const CMPL: byte := 0x83
  const CALL: byte := 0xE8
  const CALL2: byte := 0xFF
  const JMP: byte := 0xE9
  const NOP: byte := 0x90

  const JMPL_CODE: seq<byte> := [0xFF, 0x25, 0, 0, 0, 0]
  const JMP_NEAR_CODE: seq<byte> := [0xE9, 0, 0, 0, 0]
  const JMP_SHORT_CODE: seq<byte> := [0xEB, 0]
  const CALL_FAR_CODE: seq<byte> := [0xFF, 0x15, 0, 0, 0, 0]
  const REPLACE_CMPL_CODE: seq<byte> :=
    [0x50, 0x48, 0xB8, 0, 0, 0, 0, 0, 0, 0, 0, 0x48, 0x83, 0x38, 0, 0x58]
  const REPLACE_MOVQ_CODE_RAX: seq<byte> := [0x48, 0xA1, 0, 0, 0, 0, 0, 0, 0, 0]
  const REPLACE_MOVQ_CODE: seq<byte> :=
    [0x50, 0x48, 0xB8, 0, 0, 0, 0, 0, 0, 0, 0, 0x48, 0x8B, 0, 0x58]

  // ----- relocations -----

  /** obj.Reloc with both offsets taken from the start of the segment.  `Size` is four for the
      relocation types below: the displacement occupies [offset, offset + 4). */
  datatype Reloc = Reloc(offset: nat, add: int, epilogueOffset: nat, epilogueSize: nat) {
    function End(): nat { offset + 4 }
  }

  function Nops(n: nat): (r: seq<byte>)
    ensures |r| == n
  {
    seq(n, _ => NOP)
  }

  /** The signed distance from the end of the site to the target, in Go's 64-bit `int`. */
  function Distance(addr: int, loc: Reloc, base: int): int {
    S64(addr - (base + loc.End()) + loc.add)
  }

  predicate IsFar(addr: int, loc: Reloc, base: int, force: bool) {
    var d := Distance(addr, loc, base);
    d > 0x7FFF_FFFF || d < -0x8000_0000 || (force && loc.epilogueSize > 0)
  }

  /** The address to reach, `addr + loc.Add`; it wraps when it is stored or jumped to. */
  function Target(addr: int, loc: Reloc): int { addr + loc.add }

  // ----- the return jump -----

  function ReturnOffset(loc: Reloc, from: int): int { loc.End() - from - 2 }

  predicate ShortReturn(loc: Reloc, from: int) {
    -0x80 < ReturnOffset(loc, from) < 0
  }

  /** The jump at `from` back to the instruction after the site. */
  function ReturnJump(loc: Reloc, from: int): (r: seq<byte>)
    ensures |r| == if ShortReturn(loc, from) then 2 else 5
  {
    if ShortReturn(loc, from) then [0xEB, ReturnOffset(loc, from) % 0x100]
    else [0xE9] + LE32(ReturnOffset(loc, from) - 3)
  }

  // ----- relocatePCREL -----

  datatype Opcode = Lea | Mov | Cmpl | CallIndirect | Call | Jump | Unsupported

  /** The instruction kind, judged by the six bytes from two before the displacement. */
  function Classify(site: seq<byte>): Opcode
    requires |site| == 6
  {
    if site[0] == LEA then Lea
    else if site[0] == MOV then Mov
    else if site[0] == CMPL then Cmpl
    else if site[0] == CALL2 then CallIndirect
    else if site[1] == CALL && Get32(site, 2) == 0 then Call
    else if site[1] == JMP then Jump
    else Unsupported
  }

  /** `((modrm >> 3) & 7) | ((rex & 4) << 1)`: REX.R is the high bit of the register. */
  function DstRegister(rex: byte, modrm: byte): (r: nat)
    ensures r == modrm / 8 % 8 + 8 * (rex / 4 % 2)
    ensures r < 16
  {
    OrHighBit(modrm / 8 % 8, rex / 4 % 2);
    Or(modrm / 8 % 8, rex / 4 % 2 * 8)
  }

  lemma OrHighBit(low: nat, high: nat)
    requires low < 8 && high < 2
    ensures Or(low, high * 8) == low + high * 8
  {
    OrField(low, high, 3, 1);
  }

  /** What replaces the memory operand of a 64-bit MOV in the epilogue. */
  function FarMov(dst: nat, target: int): (r: seq<byte>)
    requires dst < 16
    ensures |r| == if dst == 0 then 10 else 15
  {
    if dst == 0 then [0x48, 0xA1] + LE64(target)
    else [0x50, 0x48, 0xB8] + LE64(target) + [0x48 + 4 * (dst / 8), 0x8B, 8 * (dst % 8), 0x58]
  }

  function FarCmpl(comparator: byte, target: int): (r: seq<byte>)
    ensures |r| == 16
  {
    [0x50, 0x48, 0xB8] + LE64(target) + [0x48, 0x83, 0x38, comparator, 0x58]
  }

  /** `CALL ptr [RIP + skip]`. */
  function IndirectCall(skip: int): (r: seq<byte>)
    ensures |r| == 6
  {
    [0xFF, 0x15] + LE32(skip)
  }

  /** Indirect CALL through the address stored behind the return jump. */
  function FarCall(loc: Reloc, target: int): (r: seq<byte>)
    ensures |r| == 14 + |ReturnJump(loc, loc.epilogueOffset + 6)|
  {
    var back := ReturnJump(loc, loc.epilogueOffset + 6);
    IndirectCall(|back|) + back + LE64(target)
  }

  /** The bytes the far form puts at the start of the epilogue.
      `rex` precedes the site and `comparator` follows it. */
  function Epilogue(rex: byte, site: seq<byte>, comparator: byte, loc: Reloc, target: int): (r: seq<byte>)
    requires |site| == 6
    ensures |r| == EpilogueLength(rex, site, loc)
  {
    match Classify(site)
    case Lea => LE64(target)
    case Mov => if site[1] % 8 == 5 then MovEpilogue(DstRegister(rex, site[1]), loc, target) else []
    case Cmpl => CmplEpilogue(comparator, loc, target + 1)
    case CallIndirect => LE64(target)
    case Call => FarCall(loc, target)
    case Jump => JMPL_CODE + LE64(target)
    case Unsupported => []
  }

  function MovEpilogue(dst: nat, loc: Reloc, target: int): (r: seq<byte>)
    requires dst < 16
    ensures var load := if dst == 0 then 10 else 15;
      |r| == load + |ReturnJump(loc, loc.epilogueOffset + load)|
  {
    var load := FarMov(dst, target);
    load + ReturnJump(loc, loc.epilogueOffset + |load|)
  }

  function CmplEpilogue(comparator: byte, loc: Reloc, target: int): (r: seq<byte>)
    ensures |r| == 16 + |ReturnJump(loc, loc.epilogueOffset + 16)|
  {
    var compare := FarCmpl(comparator, target);
    compare + ReturnJump(loc, loc.epilogueOffset + |compare|)
  }

  /** The room the far form takes, whatever the target; none where it is refused. */
  function EpilogueLength(rex: byte, site: seq<byte>, loc: Reloc): nat
    requires |site| == 6
  {
    match Classify(site)
    case Lea | CallIndirect => 8
    case Mov =>
      if site[1] % 8 == 5 then
        var load := if DstRegister(rex, site[1]) == 0 then 10 else 15;
        load + |ReturnJump(loc, loc.epilogueOffset + load)|
      else 0
    case Cmpl => 16 + |ReturnJump(loc, loc.epilogueOffset + 16)|
    case Call => 14 + |ReturnJump(loc, loc.epilogueOffset + 6)|
    case Jump => 14
    case Unsupported => 0
  }

  /** The distance from the end of the site to its epilogue. */
  function ToEpilogue(loc: Reloc): int { loc.epilogueOffset - loc.End() }

  /** The bytes the far form leaves at the site, from two before the displacement. */
  function FarSite(site: seq<byte>, loc: Reloc): (r: seq<byte>)
    requires |site| == 6
    ensures |r| == if Classify(site) == Cmpl then 7 else 6
  {
    match Classify(site)
    case Lea => [MOV, site[1]] + LE32(ToEpilogue(loc))
    case Mov => [JMP] + LE32(ToEpilogue(loc) + 1) + [NOP]
    case Cmpl => [JMP] + LE32(ToEpilogue(loc) + 1) + [NOP, NOP]
    case Call => [site[0], JMP] + LE32(ToEpilogue(loc))
    case _ => site[..2] + LE32(ToEpilogue(loc))
  }

  /** The six site bytes as they were before any relocation. */
  function Original(code: seq<byte>, saved: map<nat, seq<byte>>, loc: Reloc): (site: seq<byte>)
    requires 3 <= loc.offset && loc.End() <= |code|
    requires loc.offset in saved ==> |saved[loc.offset]| == 6
    ensures |site| == 6
  {
    if loc.offset in saved then saved[loc.offset] else code[loc.offset - 2..loc.End()]
  }

  /** The site restored and the epilogue refilled with no-ops. */
  function Reset(code: seq<byte>, site: seq<byte>, loc: Reloc): (r: seq<byte>)
    requires |site| == 6 && 3 <= loc.offset && loc.End() <= |code|
    requires loc.epilogueOffset + loc.epilogueSize <= |code|
    ensures |r| == |code|
  {
    Splice(Splice(code, loc.offset - 2, site), loc.epilogueOffset, Nops(loc.epilogueSize))
  }

  /** The epilogue of a site in `ready`; the prefix byte and the comparator are read from there. */
  function FarEpilogue(ready: seq<byte>, site: seq<byte>, loc: Reloc, target: int): (r: seq<byte>)
    requires |site| == 6 && 3 <= loc.offset && loc.End() < |ready|
    ensures |r| == EpilogueLength(ready[loc.offset - 3], site, loc)
  {
    Epilogue(ready[loc.offset - 3], site, ready[loc.End()], loc, target)
  }

  /** The displacement and the epilogue lie inside the segment, the epilogue behind the
      instruction; a saved site has its six bytes. */
  predicate InBounds(code: seq<byte>, saved: map<nat, seq<byte>>, loc: Reloc) {
    && 3 <= loc.offset && loc.End() <= |code|
    && loc.epilogueOffset + loc.epilogueSize <= |code|
    && (loc.epilogueSize > 0 ==> loc.End() <= loc.epilogueOffset)
    && (loc.offset in saved ==> |saved[loc.offset]| == 6)
  }

  /** The far form needs no more room than was reserved. */
  predicate Fits(code: seq<byte>, saved: map<nat, seq<byte>>, loc: Reloc)
    requires InBounds(code, saved, loc)
  {
    var site := Original(code, saved, loc);
    loc.epilogueSize > 0 ==>
      EpilogueLength(Reset(code, site, loc)[loc.offset - 3], site, loc) <= loc.epilogueSize
  }

  /** The whole effect of `relocatePCREL`. */
  function RelocatedPCREL(code: seq<byte>, saved: map<nat, seq<byte>>, loc: Reloc,
                          addr: int, base: int, force: bool): (s: State)
    requires InBounds(code, saved, loc) && Fits(code, saved, loc)
    ensures |s.code| == |code|
  {
    var site := Original(code, saved, loc);
    var saved' := saved[loc.offset := site];
    var ready := Reset(code, site, loc);
    if !IsFar(addr, loc, base, force) then
      State(Splice(ready, loc.offset, LE32(Distance(addr, loc, base))), saved', Done)
    else if loc.epilogueSize == 0 then State(ready, saved', Failed(NoEpilogue))
    else
      var (code', outcome) := RelocatedFar(ready, site, loc, Target(addr, loc));
      State(code', saved', outcome)
  }

  /** The far rewrite of a reset site. */
  function RelocatedFar(ready: seq<byte>, site: seq<byte>, loc: Reloc, target: int): (r: (seq<byte>, Outcome))
    requires |site| == 6 && 3 <= loc.offset && loc.End() < |ready|
    requires loc.epilogueOffset + |FarEpilogue(ready, site, loc, target)| <= |ready|
    ensures |r.0| == |ready|
  {
    if Classify(site) == Unsupported then (ready, Failed(UnsupportedOpcode))
    else if Classify(site) == Mov && site[1] % 8 != 5 then (ready, Failed(UnexpectedSource))
    else
      var withSite := Splice(ready, loc.offset - 2, FarSite(site, loc));
      (Splice(withSite, loc.epilogueOffset, FarEpilogue(ready, site, loc, target)), Done)
  }

  // ----- relocateCALL -----

  /** The whole effect of `relocateCALL`: an E8 CALL with its displacement at `loc.offset`. */
  function RelocatedCALL(code: seq<byte>, loc: Reloc, addr: int, base: int, force: bool): (r: (seq<byte>, Outcome))
    requires CallInBounds(code, loc)
    ensures |r.0| == |code|
  {
    var ready := Splice(code, loc.epilogueOffset, Nops(loc.epilogueSize));
    if !IsFar(addr, loc, base, force) then
      (Splice(ready, loc.offset, LE32(Distance(addr, loc, base))), Done)
    else if loc.epilogueSize == 0 then (ready, Failed(NoEpilogue))
    else
      var withSite := Splice(ready, loc.offset - 1, [JMP] + LE32(ToEpilogue(loc)));
      (Splice(withSite, loc.epilogueOffset, FarCall(loc, Target(addr, loc))), Done)
  }

  /** The segment holds the site, the reserved epilogue and whatever the far form writes. */
  predicate CallInBounds(code: seq<byte>, loc: Reloc) {
    && 1 <= loc.offset && loc.End() <= |code|
    && loc.epilogueOffset + loc.epilogueSize <= |code|
    && (loc.epilogueSize > 0 ==>
          loc.End() <= loc.epilogueOffset && loc.epilogueOffset + |FarCall(loc, 0)| <= |code|)
  }

  // ----- the linker's in-place rewriting -----

  /** `createX86Nops`. */
  method CreateX86Nops(size: nat) returns (nops: seq<byte>)
    ensures nops == Nops(size)
  {
    nops := seq(size, _ => 0);
    var i := 0;
    while i < size
      invariant 0 <= i <= size && |nops| == size
      invariant forall k :: 0 <= k < i ==> nops[k] == NOP
    {
      nops := nops[i := NOP];
      i := i + 1;
    }
  }

  /** The part of the Linker and of the mapped segment that relocation updates. */
  class Relocator {
    const codeByte: array<byte>
    const codeBase: nat
    const forceTestRelocationEpilogues: bool
    var appliedPCRelRelocs: map<nat, seq<byte>>

    constructor (code: array<byte>, base: nat, force: bool)
      ensures codeByte == code && codeBase == base && forceTestRelocationEpilogues == force
      ensures appliedPCRelRelocs == map[]
    {
      codeByte := code;
      codeBase := base;
      forceTestRelocationEpilogues := force;
      appliedPCRelRelocs := map[];
    }

    /** Writes the jump back at `from`; returns the offset behind it. */
    method PutReturnJump(loc: Reloc, from: nat) returns (next: nat)
      requires from + |ReturnJump(loc, from)| <= codeByte.Length
      modifies codeByte
      ensures codeByte[..] == Splice(old(codeByte[..]), from, ReturnJump(loc, from))
      ensures next == from + |ReturnJump(loc, from)|
    {
      ghost var before := codeByte[..];
      var returnOffset := loc.End() - from - |JMP_SHORT_CODE|;
      if returnOffset > -0x80 && returnOffset < 0 {
        CopyInto(codeByte, from, JMP_SHORT_CODE);
        PutByte(codeByte, from + 1, returnOffset % 0x100);
        SpliceWithin(before, from, JMP_SHORT_CODE, 1, [returnOffset % 0x100]);
        next := from + |JMP_SHORT_CODE|;
        assert Splice(JMP_SHORT_CODE, 1, [returnOffset % 0x100]) == [0xEB, returnOffset % 0x100];
      } else {
        returnOffset := returnOffset - (|JMP_NEAR_CODE| - |JMP_SHORT_CODE|);
        CopyInto(codeByte, from, JMP_NEAR_CODE);
        CopyInto(codeByte, from + 1, LE32(returnOffset));
        next := from + |JMP_NEAR_CODE|;
        SpliceWithin(before, from, JMP_NEAR_CODE, 1, LE32(returnOffset));
        SpliceTail(JMP_NEAR_CODE, 1, LE32(returnOffset));
        assert JMP_NEAR_CODE[..1] == [0xE9];
      }
    }

    /** Writes `CALL ptr [RIP + skip]`. */
    method PutIndirectCall(at: nat, skip: nat)
      requires at + 6 <= codeByte.Length
      modifies codeByte
      ensures codeByte[..] == Splice(old(codeByte[..]), at, IndirectCall(skip))
    {
      CopyInto(codeByte, at, CALL_FAR_CODE);
      CopyInto(codeByte, at + 2, LE32(skip));
      SpliceWithin(old(codeByte[..]), at, CALL_FAR_CODE, 2, LE32(skip));
      SpliceTail(CALL_FAR_CODE, 2, LE32(skip));
      assert CALL_FAR_CODE[..2] == [0xFF, 0x15];
    }

    /** Writes the far CALL with its return jump and address. */
    method PutFarCall(loc: Reloc, target: int)
      requires loc.epilogueOffset + |FarCall(loc, 0)| <= codeByte.Length
      modifies codeByte
      ensures codeByte[..] == Splice(old(codeByte[..]), loc.epilogueOffset, FarCall(loc, target))
    {
      hide Splice, LE64, IndirectCall, ReturnJump, FarCall;
      var epilogueOffset := loc.epilogueOffset + |CALL_FAR_CODE|;
      var returnOffset := loc.End() - epilogueOffset - |JMP_SHORT_CODE|;
      var back := if returnOffset > -0x80 && returnOffset < 0 then |JMP_SHORT_CODE| else |JMP_NEAR_CODE|;
      ghost var jump := ReturnJump(loc, epilogueOffset);
      assert back == |jump|;
      PutIndirectCall(loc.epilogueOffset, back);
      ghost var step1 := codeByte[..];
      epilogueOffset := PutReturnJump(loc, epilogueOffset);
      ghost var step2 := codeByte[..];
      CopyInto(codeByte, epilogueOffset, LE64(target));
      FarCallSteps(old(codeByte[..]), loc, target, step1, step2, codeByte[..]);
    }

    method RelocateCALL(addr: int, loc: Reloc) returns (outcome: Outcome)
      requires CallInBounds(codeByte[..], loc)
      modifies codeByte
      ensures (codeByte[..], outcome)
           == RelocatedCALL(old(codeByte[..]), loc, addr, codeBase, forceTestRelocationEpilogues)
    {
      hide Splice, LE32, S64, FarCall, Nops;
      var offset := S64(addr - (codeBase + loc.End()) + loc.add);
      var nops := CreateX86Nops(loc.epilogueSize);
      CopyInto(codeByte, loc.epilogueOffset, nops);
      ghost var ready := codeByte[..];
      if offset > 0x7FFF_FFFF || offset < -0x8000_0000
         || (forceTestRelocationEpilogues && loc.epilogueSize > 0) {
        if loc.epilogueSize == 0 {
          return Failed(NoEpilogue);
        }
        PutByte(codeByte, loc.offset - 1, JMP);
        offset := (codeBase + loc.epilogueOffset) - (codeBase + loc.End());
        PutFarCall(loc, Target(addr, loc));
        CopyInto(codeByte, loc.offset, LE32(offset));
        ghost var far := FarCall(loc, Target(addr, loc));
        ghost var withJmp := Splice(ready, loc.offset - 1, [JMP]);
        SpliceCommute(withJmp, loc.offset, LE32(offset), loc.epilogueOffset, far);
        SpliceAppend(ready, loc.offset - 1, [JMP], LE32(offset));
        return Done;
      }
      CopyInto(codeByte, loc.offset, LE32(offset));
      return Done;
    }

    /** Overwrites the site with a jump into the epilogue, padded with no-ops. */
    method PutEpilogueJump(loc: Reloc, nops: seq<byte>)
      requires 2 <= loc.offset && loc.offset + 3 + |nops| <= codeByte.Length
      modifies codeByte
      ensures codeByte[..] == Splice(old(codeByte[..]), loc.offset - 2, [JMP] + LE32(ToEpilogue(loc) + 1) + nops)
    {
      ghost var before := codeByte[..];
      var jump := JMP_NEAR_CODE + nops;
      CopyInto(codeByte, loc.offset - 2, jump);
      CopyInto(codeByte, loc.offset - 1, LE32(ToEpilogue(loc) + 1));
      SpliceWithin(before, loc.offset - 2, jump, 1, LE32(ToEpilogue(loc) + 1));
      SpliceSlices(jump, 1, LE32(ToEpilogue(loc) + 1));
      assert jump[..1] == [JMP] && jump[5..] == nops;
    }

    /** Redirects the site into its epilogue. */
    method PutFarSite(loc: Reloc, ghost site: seq<byte>)
      requires |site| == 6 && Classify(site) != Unsupported
      requires 3 <= loc.offset && loc.End() < codeByte.Length
      requires codeByte[..][loc.offset - 2..loc.End()] == site
      modifies codeByte
      ensures codeByte[..] == Splice(old(codeByte[..]), loc.offset - 2, FarSite(site, loc))
    {
      ghost var before := codeByte[..];
      var at := loc.offset - 2;
      SiteBytes(before, at, site);
      if codeByte[at] == LEA {
        PutByte(codeByte, at, MOV);
        CopyInto(codeByte, loc.offset, LE32(ToEpilogue(loc)));
        SiteFirstByte(before, at, site, MOV, LE32(ToEpilogue(loc)));
      } else if codeByte[at] == MOV {
        PutEpilogueJump(loc, [NOP]);
      } else if codeByte[at] == CMPL {
        PutEpilogueJump(loc, [NOP, NOP]);
      } else if codeByte[at] == CALL2 {
        CopyInto(codeByte, loc.offset, LE32(ToEpilogue(loc)));
        SiteKeepsOpcode(before, at, site, LE32(ToEpilogue(loc)));
      } else if codeByte[at + 1] == CALL && Get32(codeByte[..], loc.offset) == 0 {
        CopyInto(codeByte, loc.offset, LE32(ToEpilogue(loc)));
        PutByte(codeByte, at + 1, JMP);
        SpliceCommute(before, at + 1, [JMP], loc.offset, LE32(ToEpilogue(loc)));
        SiteSecondByte(before, at, site, JMP, LE32(ToEpilogue(loc)));
      } else {
        CopyInto(codeByte, loc.offset, LE32(ToEpilogue(loc)));
        SiteKeepsOpcode(before, at, site, LE32(ToEpilogue(loc)));
      }
    }

    /** Fills the start of the epilogue. */
    method PutEpilogue(op: Opcode, rex: byte, modrm: byte, comparator: byte, loc: Reloc, target: int,
                       ghost site: seq<byte>)
      requires |site| == 6 && op == Classify(site) && op != Unsupported && modrm == site[1]
      requires op == Mov ==> modrm % 8 == 5
      requires loc.epilogueOffset + EpilogueLength(rex, site, loc) <= codeByte.Length
      modifies codeByte
      ensures codeByte[..]
           == Splice(old(codeByte[..]), loc.epilogueOffset, Epilogue(rex, site, comparator, loc, target))
    {
      hide Splice, LE64, ReturnJump, MovEpilogue, CmplEpilogue, FarCall, DstRegister;
      match op {
        case Lea | CallIndirect =>
          CopyInto(codeByte, loc.epilogueOffset, LE64(target));
        case Jump =>
          CopyInto(codeByte, loc.epilogueOffset, JMPL_CODE);
          CopyInto(codeByte, loc.epilogueOffset + |JMPL_CODE|, LE64(target));
          SpliceAppend(old(codeByte[..]), loc.epilogueOffset, JMPL_CODE, LE64(target));
        case Call =>
          PutFarCall(loc, target);
        case Mov =>
          PutMovEpilogue(DstRegister(rex, modrm), loc, target);
        case Cmpl =>
          PutCmplEpilogue(comparator, loc, target + 1);
      }
    }

    method PutMovEpilogue(dst: nat, loc: Reloc, target: int)
      requires dst < 16 && loc.epilogueOffset + |MovEpilogue(dst, loc, target)| <= codeByte.Length
      modifies codeByte
      ensures codeByte[..] == Splice(old(codeByte[..]), loc.epilogueOffset, MovEpilogue(dst, loc, target))
    {
      hide Splice, LE64, FarMov, ReturnJump;
      PutFarMov(loc.epilogueOffset, dst, target);
      var length := if dst == 0 then |REPLACE_MOVQ_CODE_RAX| else |REPLACE_MOVQ_CODE|;
      var _ := PutReturnJump(loc, loc.epilogueOffset + length);
      SpliceAppend(old(codeByte[..]), loc.epilogueOffset, FarMov(dst, target),
                   ReturnJump(loc, loc.epilogueOffset + length));
    }

    method PutCmplEpilogue(comparator: byte, loc: Reloc, target: int)
      requires loc.epilogueOffset + |CmplEpilogue(comparator, loc, target)| <= codeByte.Length
      modifies codeByte
      ensures codeByte[..] == Splice(old(codeByte[..]), loc.epilogueOffset, CmplEpilogue(comparator, loc, target))
    {
      hide Splice, LE64, FarCmpl, ReturnJump;
      PutFarCmpl(loc.epilogueOffset, comparator, target);
      var _ := PutReturnJump(loc, loc.epilogueOffset + |REPLACE_CMPL_CODE|);
      SpliceAppend(old(codeByte[..]), loc.epilogueOffset, FarCmpl(comparator, target),
                   ReturnJump(loc, loc.epilogueOffset + |REPLACE_CMPL_CODE|));
    }

    method PutFarMov(at: nat, dst: nat, target: int)
      requires dst < 16 && at + |FarMov(dst, target)| <= codeByte.Length
      modifies codeByte
      ensures codeByte[..] == Splice(old(codeByte[..]), at, FarMov(dst, target))
    {
      if dst == 0 {
        PutFarMovRAX(at, target);
      } else {
        ghost var load := Splice(REPLACE_MOVQ_CODE, 3, LE64(target));
        CopyInto(codeByte, at, REPLACE_MOVQ_CODE);
        CopyInto(codeByte, at + 3, LE64(target));
        SpliceWithin(old(codeByte[..]), at, REPLACE_MOVQ_CODE, 3, LE64(target));
        SpliceIndex(REPLACE_MOVQ_CODE, 3, LE64(target), 11);
        PutDstRegister(at, dst, old(codeByte[..]), load);
        FarMovTemplate(dst, target);
      }
    }

    method PutFarMovRAX(at: nat, target: int)
      requires at + 10 <= codeByte.Length
      modifies codeByte
      ensures codeByte[..] == Splice(old(codeByte[..]), at, FarMov(0, target))
    {
      CopyInto(codeByte, at, REPLACE_MOVQ_CODE_RAX);
      CopyInto(codeByte, at + 2, LE64(target));
      SpliceWithin(old(codeByte[..]), at, REPLACE_MOVQ_CODE_RAX, 2, LE64(target));
      SpliceTail(REPLACE_MOVQ_CODE_RAX, 2, LE64(target));
      assert REPLACE_MOVQ_CODE_RAX[..2] == [0x48, 0xA1];
    }

    /** Fills REX.R and the register field of the MOV in the template. */
    method PutDstRegister(at: nat, dst: nat, ghost before: seq<byte>, ghost load: seq<byte>)
      requires dst < 16 && |load| == 15 && load[11] == 0x48
      requires at + 15 <= codeByte.Length == |before| && codeByte[..] == Splice(before, at, load)
      modifies codeByte
      ensures codeByte[..]
           == Splice(before, at, Splice(Splice(load, 11, [0x48 + 4 * (dst / 8)]), 13, [8 * (dst % 8)]))
    {
      SpliceIndex(before, at, load, at + 11);
      RexBits(0x48, dst);
      ghost var rex: byte := 0x48 + 4 * (dst / 8);
      PutByte(codeByte, at + 11, Or(codeByte[at + 11], dst / 8 % 2 * 4));
      SpliceWithin(before, at, load, 11, [rex]);
      PutByte(codeByte, at + 13, 8 * (dst % 8));
      SpliceWithin(before, at, Splice(load, 11, [rex]), 13, [8 * (dst % 8)]);
    }

    method PutFarCmpl(at: nat, comparator: byte, target: int)
      requires at + 16 <= codeByte.Length
      modifies codeByte
      ensures codeByte[..] == Splice(old(codeByte[..]), at, FarCmpl(comparator, target))
    {
      ghost var before := codeByte[..];
      CopyInto(codeByte, at, REPLACE_CMPL_CODE);
      PutByte(codeByte, at + 14, comparator);
      SpliceWithin(before, at, REPLACE_CMPL_CODE, 14, [comparator]);
      ghost var step := Splice(REPLACE_CMPL_CODE, 14, [comparator]);
      CopyInto(codeByte, at + 3, LE64(target));
      SpliceWithin(before, at, step, 3, LE64(target));
      FarCmplTemplate(comparator, target);
    }

    method RewriteFar(target: int, loc: Reloc, ghost site: seq<byte>) returns (outcome: Outcome)
      requires |site| == 6 && 3 <= loc.offset && loc.End() < codeByte.Length
      requires codeByte[..][loc.offset - 2..loc.End()] == site
      requires loc.epilogueOffset + EpilogueLength(codeByte[loc.offset - 3], site, loc) <= codeByte.Length
      modifies codeByte
      ensures (codeByte[..], outcome) == RelocatedFar(old(codeByte[..]), site, loc, target)
    {
      assert codeByte[..][loc.offset - 2..loc.End()] == codeByte[loc.offset - 2..loc.End()];
      SiteBytes(codeByte[..], loc.offset - 2, site);
      var op := Classify(codeByte[loc.offset - 2..loc.End()]);
      var rexPrefix, modrm, comparator := codeByte[loc.offset - 3], codeByte[loc.offset - 1], codeByte[loc.End()];
      if op == Unsupported {
        return Failed(UnsupportedOpcode);
      }
      if op == Mov && modrm % 8 != 5 {
        return Failed(UnexpectedSource);
      }
      PutFarSite(loc, site);
      PutEpilogue(op, rexPrefix, modrm, comparator, loc, target, site);
      return Done;
    }

    method RelocatePCREL(addr: int, loc: Reloc) returns (outcome: Outcome)
      requires InBounds(codeByte[..], appliedPCRelRelocs, loc)
      requires Fits(codeByte[..], appliedPCRelRelocs, loc)
      modifies this, codeByte
      ensures State(codeByte[..], appliedPCRelRelocs, outcome)
           == RelocatedPCREL(old(codeByte[..]), old(appliedPCRelRelocs), loc, addr, codeBase,
                             forceTestRelocationEpilogues)
    {
      hide Splice, LE32, S64, RelocatedFar, EpilogueLength, Nops;
      ghost var before := codeByte[..];
      ghost var site := Original(before, appliedPCRelRelocs, loc);
      var offset := S64(addr - (codeBase + loc.End()) + loc.add);
      if loc.offset !in appliedPCRelRelocs {
        appliedPCRelRelocs := appliedPCRelRelocs[loc.offset := codeByte[loc.offset - 2..loc.End()]];
        SpliceSame(before, loc.offset - 2, site);
      } else {
        CopyInto(codeByte, loc.offset - 2, appliedPCRelRelocs[loc.offset]);
        assert appliedPCRelRelocs[loc.offset := site] == appliedPCRelRelocs;
      }
      var nops := CreateX86Nops(loc.epilogueSize);
      CopyInto(codeByte, loc.epilogueOffset, nops);
      ghost var ready := codeByte[..];
      assert ready == Reset(before, site, loc);
      if offset > 0x7FFF_FFFF || offset < -0x8000_0000
         || (forceTestRelocationEpilogues && loc.epilogueSize > 0) {
        if loc.epilogueSize == 0 {
          return Failed(NoEpilogue);
        }
        ResetSite(before, site, loc);
        outcome := RewriteFar(Target(addr, loc), loc, site);
        return;
      }
      CopyInto(codeByte, loc.offset, LE32(offset));
      return Done;
    }
  }

  // ----- facts about the edits -----

  lemma SiteBytes(b: seq<byte>, at: nat, site: seq<byte>)
    requires |site| == 6 && at + 6 <= |b| && b[at..at + 6] == site
    ensures b[at] == site[0] && b[at + 1] == site[1] && Get32(b, at + 2) == Get32(site, 2)
  {
    assert b[at] == b[at..at + 6][0] && b[at + 1] == b[at..at + 6][1];
    assert b[at + 2..at + 6] == site[2..6];
  }

  /** Rewriting the displacement of a site, as an edit of the whole site. */
  lemma SiteKeepsOpcode(b: seq<byte>, at: nat, site: seq<byte>, disp: seq<byte>)
    requires |site| == 6 && at + 6 <= |b| && b[at..at + 6] == site && |disp| == 4
    ensures Splice(b, at + 2, disp) == Splice(b, at, site[..2] + disp)
  {
    SiteBytes(b, at, site);
    SpliceAt(b, at, site[..2] + disp);
    SpliceAt(b, at + 2, disp);
  }

  /** Rewriting the first opcode byte and the displacement. */
  lemma SiteFirstByte(b: seq<byte>, at: nat, site: seq<byte>, op: byte, disp: seq<byte>)
    requires |site| == 6 && at + 6 <= |b| && b[at..at + 6] == site && |disp| == 4
    ensures Splice(Splice(b, at, [op]), at + 2, disp) == Splice(b, at, [op, site[1]] + disp)
  {
    SiteBytes(b, at, site);
    SpliceAt(b, at, [op, site[1]] + disp);
    SpliceAt(b, at, [op]);
    SpliceAt(Splice(b, at, [op]), at + 2, disp);
  }

  /** Rewriting the second opcode byte and the displacement. */
  lemma SiteSecondByte(b: seq<byte>, at: nat, site: seq<byte>, op: byte, disp: seq<byte>)
    requires |site| == 6 && at + 6 <= |b| && b[at..at + 6] == site && |disp| == 4
    ensures Splice(Splice(b, at + 1, [op]), at + 2, disp) == Splice(b, at, [site[0], op] + disp)
  {
    SiteBytes(b, at, site);
    SpliceAt(b, at, [site[0], op] + disp);
    SpliceAt(b, at + 1, [op]);
    SpliceAt(Splice(b, at + 1, [op]), at + 2, disp);
  }

  lemma ResetSite(code: seq<byte>, site: seq<byte>, loc: Reloc)
    requires |site| == 6 && 3 <= loc.offset && loc.End() <= |code|
    requires loc.epilogueOffset + loc.epilogueSize <= |code|
    requires loc.End() <= loc.epilogueOffset
    ensures Reset(code, site, loc)[loc.offset - 2..loc.End()] == site
  {
    SpliceAt(code, loc.offset - 2, site);
    SpliceAt(Splice(code, loc.offset - 2, site), loc.epilogueOffset, Nops(loc.epilogueSize));
  }

  /** The three writes of a far CALL are one write. */
  lemma FarCallSteps(b: seq<byte>, loc: Reloc, target: int, step1: seq<byte>, step2: seq<byte>, step3: seq<byte>)
    requires loc.epilogueOffset + |FarCall(loc, target)| <= |b|
    requires var epi := loc.epilogueOffset; var jump := ReturnJump(loc, epi + 6);
      && step1 == Splice(b, epi, IndirectCall(|jump|))
      && step2 == Splice(step1, epi + 6, jump)
      && step3 == Splice(step2, epi + 6 + |jump|, LE64(target))
    ensures step3 == Splice(b, loc.epilogueOffset, FarCall(loc, target))
  {
    var jump := ReturnJump(loc, loc.epilogueOffset + 6);
    AppendThree(b, loc.epilogueOffset, IndirectCall(|jump|), jump, LE64(target));
  }

  lemma RexBits(rex: nat, dst: nat)
    requires rex == 0x48 && dst < 16
    ensures Or(rex, dst / 8 % 2 * 4) == rex + 4 * (dst / 8)
  {
    hide Or;
    OrBit2(rex, dst / 8);
  }

  lemma OrBit2(rex: nat, bit: nat)
    requires rex / 4 % 2 == 0 && bit < 2
    ensures Or(rex, bit * 4) == rex + bit * 4
  {
    OrField(rex, bit, 2, 1);
  }

  lemma FarMovTemplate(dst: nat, target: int)
    requires 0 < dst < 16
    ensures Splice(Splice(Splice(REPLACE_MOVQ_CODE, 3, LE64(target)), 11, [0x48 + 4 * (dst / 8)]),
                   13, [8 * (dst % 8)])
         == FarMov(dst, target)
  {
    hide Splice, LE64;
    var a := Splice(REPLACE_MOVQ_CODE, 3, LE64(target));
    var b := Splice(a, 11, [0x48 + 4 * (dst / 8)]);
    SpliceAt(REPLACE_MOVQ_CODE, 3, LE64(target));
    SpliceAt(a, 11, [0x48 + 4 * (dst / 8)]);
    SpliceAt(b, 13, [8 * (dst % 8)]);
  }

  lemma FarCmplTemplate(comparator: byte, target: int)
    ensures Splice(Splice(REPLACE_CMPL_CODE, 14, [comparator]), 3, LE64(target)) == FarCmpl(comparator, target)
  {
    hide Splice, LE64;
    SpliceAt(REPLACE_CMPL_CODE, 14, [comparator]);
    SpliceAt(Splice(REPLACE_CMPL_CODE, 14, [comparator]), 3, LE64(target));
  }
}
