/** Which bytes an arm64 relocation reads and writes. */
module FrameArm64 {
  import opened Bytes
  import opened Patching
  import opened RelocArm64

  predicate InEpilogue(loc: Reloc, i: int) {
    loc.epilogueOffset <= i < loc.epilogueOffset + loc.epilogueSize
  }

  /** The ADRP pair and its epilogue. */
  predicate InPairFoot(loc: Reloc, i: int) { loc.offset <= i < loc.offset + 8 || InEpilogue(loc, i) }

  /** The BL and its epilogue. */
  predicate InCallFoot(loc: Reloc, i: int) { loc.offset <= i < loc.offset + 4 || InEpilogue(loc, i) }

  lemma ResetAt(code: seq<byte>, pair: seq<byte>, loc: Reloc, i: nat)
    requires |pair| == 8 && loc.offset + 8 <= |code| && i < |code|
    requires loc.epilogueOffset + loc.epilogueSize <= |code|
    ensures Reset(code, pair, loc)[i]
         == if InEpilogue(loc, i) then Nops(loc.epilogueSize)[i - loc.epilogueOffset]
            else if loc.offset <= i < loc.offset + 8 then pair[i - loc.offset] else code[i]
  {
    hide Nops;
    SpliceIndex(code, loc.offset, pair, i);
    SpliceIndex(Splice(code, loc.offset, pair), loc.epilogueOffset, Nops(loc.epilogueSize), i);
  }

  /** Byte `i` after relocating a pair: a fixed byte inside the foot, the old byte outside. */
  lemma AdrpAt(code: seq<byte>, code2: seq<byte>, saved: map<nat, seq<byte>>, saved2: map<nat, seq<byte>>,
               loc: Reloc, symAddr: int, base: nat, force: bool, i: nat)
    requires InBounds(code, saved, loc) && InBounds(code2, saved2, loc) && |code2| == |code| && i < |code|
    requires Original(code, saved, loc) == Original(code2, saved2, loc)
    ensures var s, s2 := RelocatedADRP(code, saved, loc, symAddr, base, force),
                         RelocatedADRP(code2, saved2, loc, symAddr, base, force);
      && s.outcome == s2.outcome
      && if InPairFoot(loc, i) then s.code[i] == s2.code[i] else s.code[i] == code[i]
  {
    hide LE32, LE64, FarEpilogue, PatchedADRP, PatchedOp, Nops, IsFar, PageDistance, SlotDistance, NearOutcome, Reset;
    var pair := Original(code, saved, loc);
    var ready, ready2 := Reset(code, pair, loc), Reset(code2, pair, loc);
    ResetAt(code, pair, loc, i);
    ResetAt(code2, pair, loc, i);
    if loc.kind.ThroughSlot() {
      if loc.offset <= loc.epilogueOffset {
        var slot := LE64(Target(symAddr, loc));
        SpliceIndex(ready, loc.epilogueOffset, slot, i);
        SpliceIndex(ready2, loc.epilogueOffset, slot, i);
        NearAt(Splice(ready, loc.epilogueOffset, slot), pair, loc, SlotDistance(base, loc), i);
        NearAt(Splice(ready2, loc.epilogueOffset, slot), pair, loc, SlotDistance(base, loc), i);
      }
    } else if !IsFar(symAddr, loc, base, force) {
      NearAt(ready, pair, loc, PageDistance(symAddr, loc, base), i);
      NearAt(ready2, pair, loc, PageDistance(symAddr, loc, base), i);
    } else if loc.epilogueSize > 0 {
      FarAt(ready, ready2, pair, loc, Target(symAddr, loc), i);
    }
  }

  lemma NearAt(code: seq<byte>, pair: seq<byte>, loc: Reloc, d: int, i: nat)
    requires |pair| == 8 && loc.offset + 8 <= |code| && i < |code|
    ensures var words := LE32(PatchedADRP(Get32(pair, 0), d)) + LE32(PatchedOp(Get32(pair, 4), d, loc.kind.Shift()));
      NearPatched(code, pair, loc, d)[i]
      == if loc.offset <= i < loc.offset + 8 then words[i - loc.offset] else code[i]
  {
    hide LE32, PatchedADRP, PatchedOp;
    SpliceIndex(code, loc.offset, LE32(PatchedADRP(Get32(pair, 0), d))
                                  + LE32(PatchedOp(Get32(pair, 4), d, loc.kind.Shift())), i);
  }

  lemma FarAt(code: seq<byte>, code2: seq<byte>, pair: seq<byte>, loc: Reloc, target: int, i: nat)
    requires |pair| == 8 && loc.offset + 8 <= loc.epilogueOffset && i < |code| == |code2|
    requires loc.epilogueOffset + loc.epilogueSize <= |code| && Need(loc.kind) <= loc.epilogueSize
    requires !loc.kind.ThroughSlot()
    requires InPairFoot(loc, i) ==> (code[i] == code2[i] || loc.offset <= i < loc.offset + 8)
    requires loc.offset <= i < loc.offset + 8 ==> code[i] == code2[i]
    ensures InPairFoot(loc, i) ==> FarPatched(code, pair, loc, target)[i] == FarPatched(code2, pair, loc, target)[i]
    ensures !InPairFoot(loc, i) ==> FarPatched(code, pair, loc, target)[i] == code[i]
  {
    hide LE32, LE64, Branch, FarEpilogue;
    var word, far := LE32(Branch(loc.epilogueOffset - loc.offset)), FarEpilogue(Get32(pair, 0), pair[4..], loc, target);
    SpliceIndex(code, loc.offset, word, i);
    SpliceIndex(Splice(code, loc.offset, word), loc.epilogueOffset, far, i);
    SpliceIndex(code2, loc.offset, word, i);
    SpliceIndex(Splice(code2, loc.offset, word), loc.epilogueOffset, far, i);
  }

  /** Byte `i` after relocating a call. */
  lemma CallAt(code: seq<byte>, code2: seq<byte>, loc: Reloc, addr: int, base: nat, force: bool, i: nat)
    requires CallInBounds(code, loc) && CallInBounds(code2, loc) && |code2| == |code| && i < |code|
    requires code[loc.offset..loc.offset + 4] == code2[loc.offset..loc.offset + 4]
    ensures var (r, outcome) := RelocatedCALL(code, loc, addr, base, force);
      var (r2, outcome2) := RelocatedCALL(code2, loc, addr, base, force);
      && outcome == outcome2
      && if InCallFoot(loc, i) then r[i] == r2[i] else r[i] == code[i]
  {
    hide LE32, LE64, LE24, IsFarCall, CallDistance, Or, U32;
    var zeros := seq(loc.epilogueSize, _ => 0);
    var ready, ready2 := Splice(code, loc.epilogueOffset, zeros), Splice(code2, loc.epilogueOffset, zeros);
    SpliceIndex(code, loc.epilogueOffset, zeros, i);
    SpliceIndex(code2, loc.epilogueOffset, zeros, i);
    SameWord(code, code2, loc, i);
    if loc.epilogueSize == 0 {
      SpliceSame(code, loc.epilogueOffset, zeros);
      SpliceSame(code2, loc.epilogueOffset, zeros);
    } else {
      SpliceBefore(code, loc.epilogueOffset, zeros, loc.offset, loc.offset + 4);
      SpliceBefore(code2, loc.epilogueOffset, zeros, loc.offset, loc.offset + 4);
    }
    if !IsFarCall(addr, loc, base, force) {
      var bl := Or(Get32(ready, loc.offset), U32(CallDistance(addr, loc, base)) % 0x400_0000);
      SpliceIndex(ready, loc.offset, LE32(bl), i);
      SpliceIndex(ready2, loc.offset, LE32(bl), i);
    } else if loc.epilogueSize > 0 {
      var jump, far := LE24(U32(loc.epilogueOffset - loc.offset) / 4), CALL_CODE + LE64(Target(addr, loc));
      SpliceIndex(ready, loc.offset, jump, i);
      SpliceIndex(Splice(ready, loc.offset, jump), loc.epilogueOffset, far, i);
      SpliceIndex(ready2, loc.offset, jump, i);
      SpliceIndex(Splice(ready2, loc.offset, jump), loc.epilogueOffset, far, i);
    }
  }

  lemma SameWord(code: seq<byte>, code2: seq<byte>, loc: Reloc, i: nat)
    requires loc.offset + 4 <= |code| && |code2| == |code|
    requires code[loc.offset..loc.offset + 4] == code2[loc.offset..loc.offset + 4]
    ensures loc.offset <= i < loc.offset + 4 ==> code[i] == code2[i]
  {
    if loc.offset <= i < loc.offset + 4 {
      assert code[i] == code[loc.offset..loc.offset + 4][i - loc.offset];
    }
  }

  /** Relocating a pair to `a` and later to `b` leaves what relocating it once to `b` leaves: the
      saved instructions are restored and the epilogue is refilled first. */
  lemma LastWriterWins(code: seq<byte>, saved: map<nat, seq<byte>>, loc: Reloc, a: int, b: int, base: nat, force: bool)
    requires InBounds(code, saved, loc)
    ensures var s := RelocatedADRP(code, saved, loc, a, base, force);
      && InBounds(s.code, s.saved, loc)
      && RelocatedADRP(s.code, s.saved, loc, b, base, force) == RelocatedADRP(code, saved, loc, b, base, force)
  {
    hide IsFar, NearPatched, FarPatched, NearOutcome, SlotDistance, PageDistance, Reset;
    var s := RelocatedADRP(code, saved, loc, a, base, force);
    var pair := Original(code, saved, loc);
    assert s.saved == saved[loc.offset := pair];
    assert Original(s.code, s.saved, loc) == pair;
    forall i: nat | i < |code| ensures Reset(s.code, pair, loc)[i] == Reset(code, pair, loc)[i] {
      ResetAt(s.code, pair, loc, i);
      ResetAt(code, pair, loc, i);
      AdrpAt(code, code, saved, saved, loc, a, base, force, i);
    }
    assert Reset(s.code, pair, loc) == Reset(code, pair, loc);
    assert s.saved[loc.offset := pair] == s.saved;
  }
}
