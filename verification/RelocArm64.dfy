/** relocate.go for arm64: `relocateADRP` and `relocateCALLARM` (R_CALLARM64). */
module RelocArm64 {
  import opened Bytes
  import opened Patching

  // ----- asm_bytes.go -----

  const B_CODE: nat := 0x1400_0000
  const LDR_CODE_8_BYTES: nat := 0x5800_0040
  const LDR_CODE_12_BYTES: nat := 0x5800_0060
  const NOP_CODE: seq<byte> := [0x1F, 0x20, 0x03, 0xD5]
  const CALL_CODE: seq<byte> := [0x51, 0, 0, 0x58, 0x20, 0x02, 0x1F, 0xD6]

  // ----- relocations -----

  datatype Kind = AddrArm64 | PcrelLdst8 | PcrelLdst16 | PcrelLdst32 | PcrelLdst64 | GotPcrel | TlsIe {
    /** The instruction pair reads the address from a slot in the epilogue. */
    predicate ThroughSlot() { this == GotPcrel || this == TlsIe }

    /** log2 of the unit of the second instruction's immediate. */
    function Shift(): (s: nat)
      ensures s <= 3
    {
      match this
      case AddrArm64 | PcrelLdst8 => 0
      case PcrelLdst16 => 1
      case PcrelLdst32 => 2
      case _ => 3
    }
  }

  /** obj.Reloc with both offsets taken from the start of the segment. */
  datatype Reloc = Reloc(kind: Kind, offset: nat, add: int, epilogueOffset: nat, epilogueSize: nat)

  /** `createARM64Nops` for a size that is a multiple of four. */
  function Nops(size: nat): (r: seq<byte>)
    ensures |r| == size
  {
    seq(size, (i: int) requires 0 <= i => NOP_CODE[i % 4])
  }

  /** `x &^ 0xFFF`. */
  function PageOf(x: int): int { x - x % 0x1000 }

  function Target(symAddr: int, loc: Reloc): int { symAddr + loc.add }

  /** The signed distance from the site's page to the target, in Go's int64. */
  function PageDistance(symAddr: int, loc: Reloc, base: nat): int {
    S64(symAddr + loc.add - PageOf(base + loc.offset))
  }

  /** The distance from the site's page to the slot in the epilogue. */
  function SlotDistance(base: nat, loc: Reloc): nat
    requires loc.offset <= loc.epilogueOffset
  {
    Align8(base + loc.epilogueOffset - PageOf(base + loc.offset))
  }

  /** Too far for ADRP, or forced out of line. */
  predicate IsFar(symAddr: int, loc: Reloc, base: nat, force: bool) {
    var d := PageDistance(symAddr, loc, base);
    d > TWO_32 || d < -TWO_32 || (force && loc.epilogueSize > 0)
  }

  /** An unconditional branch over `d` bytes: 25 magnitude bits and the sign in bit 25. */
  function Branch(d: int): (w: nat)
    ensures B_CODE <= w < B_CODE + 0x400_0000
  {
    B_CODE + U32(d) / 4 % 0x200_0000 + if d < 0 then 0x200_0000 else 0
  }

  /** ADRP with the page count of `d` or-ed in. */
  function PatchedADRP(adrp: nat, d: int): nat {
    Or(adrp, Or(U64(d) / 0x1000 % 4 * 0x2000_0000, U64(d) / 0x4000 % 0x8_0000 * 32))
  }

  /** `x >> shift`. */
  function ShiftRight(x: nat, shift: nat): nat
    requires shift <= 3
  {
    if shift == 0 then x else if shift == 1 then x / 2 else if shift == 2 then x / 4 else x / 8
  }

  /** A multiple of the unit that `shift` stands for. */
  predicate Aligned(d: int, shift: nat)
    requires shift <= 3
  {
    if shift == 0 then true else if shift == 1 then d % 2 == 0 else if shift == 2 then d % 4 == 0 else d % 8 == 0
  }

  /** The second instruction with its immediate or-ed in. */
  function PatchedOp(op: nat, d: int, shift: nat): nat
    requires shift <= 3
  {
    Or(op, ShiftRight(U64(d) % 0x1000, shift) * 0x400)
  }

  /** What the far form puts into the epilogue: load the address, perform a load or store,
      branch back behind the site, and the address itself. */
  function FarEpilogue(adrp: nat, op: seq<byte>, loc: Reloc, target: int): (r: seq<byte>)
    requires |op| == 4
    ensures |r| == if loc.kind == AddrArm64 then 16 else 20
  {
    if loc.kind == AddrArm64 then
      LE32(Or(LDR_CODE_8_BYTES, adrp % 32)) + LE32(Branch(loc.offset + 8 - (loc.epilogueOffset + 4))) + LE64(target)
    else
      LE32(Or(LDR_CODE_12_BYTES, adrp % 32)) + op + LE32(Branch(loc.offset + 8 - (loc.epilogueOffset + 8)))
      + LE64(target)
  }

  /** The two instructions as they were before any relocation. */
  function Original(code: seq<byte>, saved: map<nat, seq<byte>>, loc: Reloc): (pair: seq<byte>)
    requires loc.offset + 8 <= |code|
    requires loc.offset in saved ==> |saved[loc.offset]| == 8
    ensures |pair| == 8
  {
    if loc.offset in saved then saved[loc.offset] else code[loc.offset..loc.offset + 8]
  }

  /** The pair restored and the epilogue refilled with no-ops. */
  function Reset(code: seq<byte>, pair: seq<byte>, loc: Reloc): (r: seq<byte>)
    requires |pair| == 8 && loc.offset + 8 <= |code|
    requires loc.epilogueOffset + loc.epilogueSize <= |code|
    ensures |r| == |code|
  {
    Splice(Splice(code, loc.offset, pair), loc.epilogueOffset, Nops(loc.epilogueSize))
  }

  /** How much of the epilogue the relocation may write. */
  function Need(kind: Kind): nat {
    if kind.ThroughSlot() then 8 else if kind == AddrArm64 then 16 else 20
  }

  /** The pair and the epilogue lie inside a segment of less than 2 GiB, the epilogue behind the
      pair, and what was reserved suffices; a pair saved earlier has its eight bytes. */
  predicate InBounds(code: seq<byte>, saved: map<nat, seq<byte>>, loc: Reloc) {
    && |code| < TWO_31 && loc.offset + 8 <= |code|
    && loc.epilogueOffset + loc.epilogueSize <= |code| && loc.epilogueSize % 4 == 0
    && (loc.epilogueSize > 0 ==> loc.offset + 8 <= loc.epilogueOffset && Need(loc.kind) <= loc.epilogueSize)
    && (loc.kind.ThroughSlot() ==> 0 < loc.epilogueSize || loc.epilogueOffset < loc.offset)
    && (loc.offset in saved ==> |saved[loc.offset]| == 8)
  }

  /** The whole effect of `relocateADRP`. */
  function RelocatedADRP(code: seq<byte>, saved: map<nat, seq<byte>>, loc: Reloc,
                         symAddr: int, base: nat, force: bool): (s: State)
    requires InBounds(code, saved, loc)
    ensures |s.code| == |code|
  {
    var pair := Original(code, saved, loc);
    var saved' := saved[loc.offset := pair];
    var ready := Reset(code, pair, loc);
    if loc.kind.ThroughSlot() && loc.epilogueOffset < loc.offset then
      State(ready, saved', Failed(BadSlotDistance))
    else if loc.kind.ThroughSlot() then
      var slotted := Splice(ready, loc.epilogueOffset, LE64(Target(symAddr, loc)));
      State(NearPatched(slotted, pair, loc, SlotDistance(base, loc)), saved', NearOutcome(loc, SlotDistance(base, loc)))
    else if !IsFar(symAddr, loc, base, force) then
      var d := PageDistance(symAddr, loc, base);
      State(NearPatched(ready, pair, loc, d), saved', NearOutcome(loc, d))
    else if loc.epilogueSize == 0 then State(ready, saved', Failed(NoEpilogue))
    else State(FarPatched(ready, pair, loc, Target(symAddr, loc)), saved', Done)
  }

  /** Both instructions patched. */
  function NearPatched(code: seq<byte>, pair: seq<byte>, loc: Reloc, d: int): (r: seq<byte>)
    requires |pair| == 8 && loc.offset + 8 <= |code|
    ensures |r| == |code|
  {
    Splice(code, loc.offset,
           LE32(PatchedADRP(Get32(pair, 0), d)) + LE32(PatchedOp(Get32(pair, 4), d, loc.kind.Shift())))
  }

  /** An unaligned load or store is patched and reported. */
  function NearOutcome(loc: Reloc, d: int): Outcome {
    if Aligned(d, loc.kind.Shift()) then Done else Failed(Unaligned)
  }

  /** A branch into the epilogue, which does the work and branches back. */
  function FarPatched(code: seq<byte>, pair: seq<byte>, loc: Reloc, target: int): (r: seq<byte>)
    requires |pair| == 8 && loc.offset + 8 <= |code|
    requires loc.epilogueOffset + (if loc.kind == AddrArm64 then 16 else 20) <= |code|
    ensures |r| == |code|
  {
    var jump := Splice(code, loc.offset, LE32(Branch(loc.epilogueOffset - loc.offset)));
    Splice(jump, loc.epilogueOffset, FarEpilogue(Get32(pair, 0), pair[4..], loc, target))
  }

  // ----- relocateCALLARM, R_CALLARM64 -----

  /** Go's integer division, which truncates toward zero. */
  function Quotient(x: int, y: int): int
    requires y > 0
  {
    if x >= 0 then x / y else -((-x) / y)
  }

  function CallDistance(addr: int, loc: Reloc, base: nat): int {
    Quotient(S64(addr + loc.add - (base + loc.offset)), 4)
  }

  predicate IsFarCall(addr: int, loc: Reloc, base: nat, force: bool) {
    var d := CallDistance(addr, loc, base);
    d > 0x7F_FFFF || d < -0x80_0000 || (force && loc.epilogueSize > 0)
  }

  /** `putUint24`. */
  function LE24(v: nat): (r: seq<byte>)
    ensures |r| == 3
  {
    LE(v % 0x100_0000, 3)
  }

  predicate CallInBounds(code: seq<byte>, loc: Reloc) {
    && |code| < TWO_31 && loc.offset + 4 <= |code|
    && loc.epilogueOffset + loc.epilogueSize <= |code|
    && (loc.epilogueSize > 0 ==> loc.offset + 4 <= loc.epilogueOffset && 16 <= loc.epilogueSize)
  }

  /** The whole effect of `relocateCALLARM` for R_CALLARM64: a BL at `loc.offset`. */
  function RelocatedCALL(code: seq<byte>, loc: Reloc, addr: int, base: nat, force: bool): (r: (seq<byte>, Outcome))
    requires CallInBounds(code, loc)
    ensures |r.0| == |code|
  {
    var ready := Splice(code, loc.epilogueOffset, seq(loc.epilogueSize, _ => 0));
    if !IsFarCall(addr, loc, base, force) then
      var bl := Or(Get32(ready, loc.offset), U32(CallDistance(addr, loc, base)) % 0x400_0000);
      (Splice(ready, loc.offset, LE32(bl)), Done)
    else if loc.epilogueSize == 0 then (ready, Failed(NoEpilogue))
    else
      var jump := Splice(ready, loc.offset, LE24(U32(loc.epilogueOffset - loc.offset) / 4));
      (Splice(jump, loc.epilogueOffset, CALL_CODE + LE64(Target(addr, loc))), Done)
  }

  // ----- the linker's in-place rewriting -----

  /** `createARM64Nops`. */
  method CreateARM64Nops(size: nat) returns (nops: seq<byte>)
    requires size % 4 == 0
    ensures nops == Nops(size)
  {
    nops := seq(size, _ => 0);
    var i := 0;
    while i < size
      invariant 0 <= i <= size && i % 4 == 0 && |nops| == size
      invariant forall k :: 0 <= k < i ==> nops[k] == NOP_CODE[k % 4]
    {
      nops := nops[i := NOP_CODE[0]][i + 1 := NOP_CODE[1]][i + 2 := NOP_CODE[2]][i + 3 := NOP_CODE[3]];
      i := i + 4;
    }
  }

  /** The part of the Linker and of the mapped segment that relocation updates. */
  class Relocator {
    const codeByte: array<byte>
    const codeBase: nat
    const forceTestRelocationEpilogues: bool
    var appliedADRPRelocs: map<nat, seq<byte>>

    constructor (code: array<byte>, base: nat, force: bool)
      ensures codeByte == code && codeBase == base && forceTestRelocationEpilogues == force
      ensures appliedADRPRelocs == map[]
    {
      codeByte := code;
      codeBase := base;
      forceTestRelocationEpilogues := force;
      appliedADRPRelocs := map[];
    }

    method PutWords(at: nat, w0: nat, w1: nat)
      requires at + 8 <= codeByte.Length
      modifies codeByte
      ensures codeByte[..] == Splice(old(codeByte[..]), at, LE32(w0) + LE32(w1))
    {
      hide Splice, LE32;
      CopyInto(codeByte, at, LE32(w0));
      CopyInto(codeByte, at + 4, LE32(w1));
      SpliceAppend(old(codeByte[..]), at, LE32(w0), LE32(w1));
    }

    /** ADRP and the second instruction take the distance `d`. */
    method PatchNear(loc: Reloc, d: int, ghost pair: seq<byte>) returns (outcome: Outcome)
      requires |pair| == 8 && loc.offset + 8 <= codeByte.Length
      requires codeByte[..][loc.offset..loc.offset + 8] == pair
      modifies codeByte
      ensures codeByte[..] == NearPatched(old(codeByte[..]), pair, loc, d) && outcome == NearOutcome(loc, d)
    {
      hide Splice, LE32, Or, U64;
      PairWords(codeByte[..], loc.offset, pair);
      var immLow := U64(d) / 0x1000 % 4 * 0x2000_0000;
      var immHigh := U64(d) / 0x1000 / 4 % 0x8_0000 * 32;
      assert immHigh == U64(d) / 0x4000 % 0x8_0000 * 32;
      var adrp := Or(Get32(codeByte[..], loc.offset), Or(immLow, immHigh));
      var addOrLdOrSt := Get32(codeByte[..], loc.offset + 4);
      outcome := Done;
      match loc.kind {
        case AddrArm64 | PcrelLdst8 =>
          addOrLdOrSt := Or(addOrLdOrSt, U64(d) % 0x1000 * 0x400);
        case PcrelLdst16 =>
          if d % 2 != 0 { outcome := Failed(Unaligned); }
          addOrLdOrSt := Or(addOrLdOrSt, U64(d) % 0x1000 / 2 * 0x400);
        case PcrelLdst32 =>
          if d % 4 != 0 { outcome := Failed(Unaligned); }
          addOrLdOrSt := Or(addOrLdOrSt, U64(d) % 0x1000 / 4 * 0x400);
        case PcrelLdst64 | GotPcrel | TlsIe =>
          if d % 8 != 0 { outcome := Failed(Unaligned); }
          addOrLdOrSt := Or(addOrLdOrSt, U64(d) % 0x1000 / 8 * 0x400);
      }
      PutWords(loc.offset, adrp, addOrLdOrSt);
    }

    /** A branch into the epilogue, the epilogue's instructions, and the address. */
    method PatchFar(loc: Reloc, target: int, ghost pair: seq<byte>)
      requires |pair| == 8 && loc.offset + 8 <= loc.epilogueOffset
      requires loc.epilogueOffset + (if loc.kind == AddrArm64 then 16 else 20) <= codeByte.Length
      requires codeByte[..][loc.offset..loc.offset + 8] == pair
      modifies codeByte
      ensures codeByte[..] == FarPatched(old(codeByte[..]), pair, loc, target)
    {
      hide Splice, LE32, LE64, Or, Branch;
      PairWords(codeByte[..], loc.offset, pair);
      var epilogueOffset := loc.epilogueOffset;
      var adrp := Get32(codeByte[..], loc.offset);
      var ldOrSt := codeByte[loc.offset + 4..loc.offset + 8];
      assert ldOrSt == pair[4..];
      var bcode := BranchWord(epilogueOffset - loc.offset);
      CopyInto(codeByte, loc.offset, LE32(bcode));
      ghost var jump := codeByte[..];
      if loc.kind == AddrArm64 {
        CopyInto(codeByte, epilogueOffset, LE32(Or(LDR_CODE_8_BYTES, adrp % 32)));
        epilogueOffset := epilogueOffset + 4;
        bcode := BranchWord(loc.offset + 8 - epilogueOffset);
        CopyInto(codeByte, epilogueOffset, LE32(bcode));
        CopyInto(codeByte, epilogueOffset + 4, LE64(target));
        AppendThree(jump, loc.epilogueOffset, LE32(Or(LDR_CODE_8_BYTES, adrp % 32)), LE32(bcode), LE64(target));
      } else {
        CopyInto(codeByte, epilogueOffset, LE32(Or(LDR_CODE_12_BYTES, adrp % 32)));
        epilogueOffset := epilogueOffset + 4;
        CopyInto(codeByte, epilogueOffset, ldOrSt);
        epilogueOffset := epilogueOffset + 4;
        SpliceAppend(jump, loc.epilogueOffset, LE32(Or(LDR_CODE_12_BYTES, adrp % 32)), ldOrSt);
        bcode := BranchWord(loc.offset + 8 - epilogueOffset);
        CopyInto(codeByte, epilogueOffset, LE32(bcode));
        CopyInto(codeByte, epilogueOffset + 4, LE64(target));
        AppendThree(jump, loc.epilogueOffset, LE32(Or(LDR_CODE_12_BYTES, adrp % 32)) + ldOrSt,
                    LE32(bcode), LE64(target));
      }
    }

    method RelocateADRP(loc: Reloc, symAddr: int) returns (outcome: Outcome)
      requires InBounds(codeByte[..], appliedADRPRelocs, loc)
      modifies this, codeByte
      ensures State(codeByte[..], appliedADRPRelocs, outcome)
           == RelocatedADRP(old(codeByte[..]), old(appliedADRPRelocs), loc, symAddr, codeBase,
                            forceTestRelocationEpilogues)
    {
      hide Splice, LE64, S64, NearPatched, FarPatched, NearOutcome, Nops, Align8;
      ghost var before := codeByte[..];
      ghost var pair := Original(before, appliedADRPRelocs, loc);
      var signedOffset := S64(symAddr + loc.add - PageOf(codeBase + loc.offset));
      if loc.offset !in appliedADRPRelocs {
        appliedADRPRelocs := appliedADRPRelocs[loc.offset := codeByte[loc.offset..loc.offset + 8]];
        SpliceSame(before, loc.offset, pair);
      } else {
        CopyInto(codeByte, loc.offset, appliedADRPRelocs[loc.offset]);
        assert appliedADRPRelocs[loc.offset := pair] == appliedADRPRelocs;
      }
      var nops := CreateARM64Nops(loc.epilogueSize);
      CopyInto(codeByte, loc.epilogueOffset, nops);
      ghost var ready := codeByte[..];
      assert ready == Reset(before, pair, loc);
      ResetPair(before, pair, loc);
      if loc.kind.ThroughSlot() {
        var distance := loc.epilogueOffset - loc.offset;
        if distance < 0 || distance > TWO_32 {
          return Failed(BadSlotDistance);
        }
        signedOffset := Align8(codeBase + loc.epilogueOffset - PageOf(codeBase + loc.offset));
        CopyInto(codeByte, loc.epilogueOffset, LE64(symAddr + loc.add));
        SpliceBefore(ready, loc.epilogueOffset, LE64(symAddr + loc.add), loc.offset, loc.offset + 8);
        assert signedOffset < TWO_32;
      }
      if signedOffset > TWO_32 || signedOffset < -TWO_32
         || (forceTestRelocationEpilogues && loc.epilogueSize > 0 && !loc.kind.ThroughSlot()) {
        if loc.epilogueSize == 0 {
          return Failed(NoEpilogue);
        }
        PatchFar(loc, symAddr + loc.add, pair);
        return Done;
      }
      outcome := PatchNear(loc, signedOffset, pair);
    }

    method RelocateCALLARM64(addr: int, loc: Reloc) returns (outcome: Outcome)
      requires CallInBounds(codeByte[..], loc)
      modifies codeByte
      ensures (codeByte[..], outcome)
           == RelocatedCALL(old(codeByte[..]), loc, addr, codeBase, forceTestRelocationEpilogues)
    {
      hide Splice, LE32, LE64, LE24, S64, U32, Or;
      CopyInto(codeByte, loc.epilogueOffset, seq(loc.epilogueSize, _ => 0));
      var offset := Quotient(S64(addr + loc.add - (codeBase + loc.offset)), 4);
      if offset > 0x7F_FFFF || offset < -0x80_0000 || (forceTestRelocationEpilogues && loc.epilogueSize > 0) {
        if loc.epilogueSize == 0 {
          return Failed(NoEpilogue);
        }
        CopyInto(codeByte, loc.offset, LE24(U32(loc.epilogueOffset - loc.offset) / 4));
        ghost var jump := codeByte[..];
        CopyInto(codeByte, loc.epilogueOffset, CALL_CODE);
        CopyInto(codeByte, loc.epilogueOffset + |CALL_CODE|, LE64(addr + loc.add));
        SpliceAppend(jump, loc.epilogueOffset, CALL_CODE, LE64(addr + loc.add));
        return Done;
      }
      var val := Or(Get32(codeByte[..], loc.offset), U32(offset) % 0x400_0000);
      CopyInto(codeByte, loc.offset, LE32(val));
      return Done;
    }
  }

  /** The branch word, by or-ing magnitude and sign into B. */
  function BranchWord(d: int): (w: nat)
    ensures w == Branch(d)
  {
    var magnitude := U32(d) / 4 % 0x200_0000;
    BranchParts(magnitude);
    var w := Or(B_CODE, magnitude);
    if d < 0 then Or(w, 0x200_0000) else w
  }

  lemma BranchParts(magnitude: nat)
    requires magnitude < 0x200_0000
    ensures Or(B_CODE, magnitude) == B_CODE + magnitude
    ensures Or(B_CODE + magnitude, 0x200_0000) == B_CODE + magnitude + 0x200_0000
  {
    hide Or;
    PowersOfTwo();
    OrField(B_CODE, magnitude, 0, 26);
    SignClear(magnitude);
    OrField(B_CODE + magnitude, 1, 25, 1);
  }

  lemma SignClear(magnitude: nat)
    requires magnitude < 0x200_0000
    ensures (B_CODE + magnitude) / 0x200_0000 % 2 == 0
  {
  }

  lemma PowersOfTwo()
    ensures Pow2(0) == 1 && Pow2(1) == 2 && Pow2(2) == 4 && Pow2(3) == 8 && Pow2(4) == 16 && Pow2(5) == 32
    ensures Pow2(10) == 0x400 && Pow2(12) == 0x1000 && Pow2(19) == 0x8_0000 && Pow2(24) == 0x100_0000
    ensures Pow2(25) == 0x200_0000 && Pow2(26) == 0x400_0000 && Pow2(29) == 0x2000_0000
  {
  }

  lemma PairWords(b: seq<byte>, at: nat, pair: seq<byte>)
    requires |pair| == 8 && at + 8 <= |b| && b[at..at + 8] == pair
    ensures Get32(b, at) == Get32(pair, 0) && Get32(b, at + 4) == Get32(pair, 4)
    ensures b[at + 4..at + 8] == pair[4..]
  {
    assert b[at..at + 4] == b[at..at + 8][0..4] && b[at + 4..at + 8] == b[at..at + 8][4..8];
    assert pair[4..8] == pair[4..];
  }

  lemma ResetPair(code: seq<byte>, pair: seq<byte>, loc: Reloc)
    requires |pair| == 8 && loc.offset + 8 <= |code|
    requires loc.epilogueOffset + loc.epilogueSize <= |code|
    requires loc.epilogueSize > 0 ==> loc.offset + 8 <= loc.epilogueOffset
    ensures Reset(code, pair, loc)[loc.offset..loc.offset + 8] == pair
  {
    SpliceAt(code, loc.offset, pair);
    SpliceAt(Splice(code, loc.offset, pair), loc.epilogueOffset, Nops(loc.epilogueSize));
  }
}
