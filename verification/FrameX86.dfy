/** Which bytes an x86-64 relocation reads and writes. */
module FrameX86 {
  import opened Bytes
  import opened Patching
  import opened RelocX86

  predicate Ready(code: seq<byte>, saved: map<nat, seq<byte>>, loc: Reloc) {
    InBounds(code, saved, loc) && Fits(code, saved, loc)
  }

  // ----- what one relocation reads and writes -----

  /** The site with the bytes around it that the rewrite looks at: the prefix byte of a MOV and
      the immediate of a CMPL belong to it. */
  predicate InSite(op: Opcode, loc: Reloc, i: int) {
    var from := if op == Mov then loc.offset - 3 else loc.offset - 2;
    var to := if op == Cmpl then loc.End() + 1 else loc.End();
    from <= i < to
  }

  predicate InEpilogue(loc: Reloc, i: int) {
    loc.epilogueOffset <= i < loc.epilogueOffset + loc.epilogueSize
  }

  predicate InFoot(op: Opcode, loc: Reloc, i: int) { InSite(op, loc, i) || InEpilogue(loc, i) }

  lemma ResetAt(code: seq<byte>, site: seq<byte>, loc: Reloc, i: nat)
    requires |site| == 6 && 3 <= loc.offset && loc.End() <= |code| && i < |code|
    requires loc.epilogueOffset + loc.epilogueSize <= |code|
    ensures Reset(code, site, loc)[i]
         == if InEpilogue(loc, i) then NOP
            else if loc.offset - 2 <= i < loc.End() then site[i - (loc.offset - 2)] else code[i]
  {
    SpliceIndex(code, loc.offset - 2, site, i);
    SpliceIndex(Splice(code, loc.offset - 2, site), loc.epilogueOffset, Nops(loc.epilogueSize), i);
  }

  /** Byte `i` after a far rewrite. */
  lemma FarAt(ready: seq<byte>, site: seq<byte>, loc: Reloc, target: int, i: nat)
    requires |site| == 6 && 3 <= loc.offset && loc.End() < |ready| && i < |ready|
    requires loc.epilogueOffset + EpilogueLength(ready[loc.offset - 3], site, loc) <= |ready|
    requires RelocatedFar(ready, site, loc, target).1 == Done
    ensures var epilogue, far := FarEpilogue(ready, site, loc, target), FarSite(site, loc);
      RelocatedFar(ready, site, loc, target).0[i]
      == if loc.epilogueOffset <= i < loc.epilogueOffset + |epilogue| then epilogue[i - loc.epilogueOffset]
         else if loc.offset - 2 <= i < loc.offset - 2 + |far| then far[i - (loc.offset - 2)] else ready[i]
  {
    hide FarEpilogue, FarSite, Classify, EpilogueLength, LE32;
    SpliceIndex(ready, loc.offset - 2, FarSite(site, loc), i);
    SpliceIndex(Splice(ready, loc.offset - 2, FarSite(site, loc)), loc.epilogueOffset,
                FarEpilogue(ready, site, loc, target), i);
  }

  /** Nothing outside the site and its epilogue changes. */
  lemma PcrelFrame(code: seq<byte>, saved: map<nat, seq<byte>>, loc: Reloc, addr: int, base: int, force: bool, i: nat)
    requires Ready(code, saved, loc) && i < |code|
    requires !InFoot(Classify(Original(code, saved, loc)), loc, i)
    ensures |RelocatedPCREL(code, saved, loc, addr, base, force).code| == |code|
    ensures RelocatedPCREL(code, saved, loc, addr, base, force).code[i] == code[i]
  {
    hide LE32, IsFar, Classify, Epilogue, EpilogueLength, FarSite, Distance, Nops;
    var site := Original(code, saved, loc);
    var ready := Reset(code, site, loc);
    ResetAt(code, site, loc, i);
    if !IsFar(addr, loc, base, force) {
      SpliceIndex(ready, loc.offset, LE32(Distance(addr, loc, base)), i);
    } else if loc.epilogueSize > 0 && RelocatedFar(ready, site, loc, Target(addr, loc)).1 == Done {
      FarAt(ready, site, loc, Target(addr, loc), i);
    }
  }

  /** Inside, the result depends on the bytes inside only. */
  lemma PcrelLocal(code: seq<byte>, code2: seq<byte>, saved: map<nat, seq<byte>>, saved2: map<nat, seq<byte>>,
                   loc: Reloc, addr: int, base: int, force: bool, i: nat)
    requires Ready(code, saved, loc) && |code2| == |code| && i < |code|
    requires loc.offset !in saved && loc.offset !in saved2
    requires var op := Classify(Original(code, saved, loc));
      InFoot(op, loc, i) && forall k :: 0 <= k < |code| && InFoot(op, loc, k) ==> code[k] == code2[k]
    ensures Ready(code2, saved2, loc) && Original(code2, saved2, loc) == Original(code, saved, loc)
    ensures var s, s2 := RelocatedPCREL(code, saved, loc, addr, base, force),
                         RelocatedPCREL(code2, saved2, loc, addr, base, force);
      s2.code[i] == s.code[i] && s2.outcome == s.outcome
  {
    hide LE32, IsFar, Classify, Distance, Nops, Epilogue, EpilogueLength, FarSite, Reset;
    var site := Original(code, saved, loc);
    assert Original(code2, saved2, loc) == site by {
      assert code2[loc.offset - 2..loc.End()] == code[loc.offset - 2..loc.End()];
    }
    var ready, ready2 := Reset(code, site, loc), Reset(code2, site, loc);
    SameReset(code, code2, site, loc);
    if !IsFar(addr, loc, base, force) {
      SpliceIndex(ready, loc.offset, LE32(Distance(addr, loc, base)), i);
      SpliceIndex(ready2, loc.offset, LE32(Distance(addr, loc, base)), i);
    } else if loc.epilogueSize > 0 && RelocatedFar(ready, site, loc, Target(addr, loc)).1 == Done {
      SameEpilogue(ready, ready2, site, loc, Target(addr, loc));
      FarAt(ready, site, loc, Target(addr, loc), i);
      FarAt(ready2, site, loc, Target(addr, loc), i);
    }
  }

  lemma SameReset(code: seq<byte>, code2: seq<byte>, site: seq<byte>, loc: Reloc)
    requires |site| == 6 && |code2| == |code| && 3 <= loc.offset && loc.End() <= |code|
    requires loc.epilogueOffset + loc.epilogueSize <= |code|
    requires loc.epilogueSize > 0 ==> loc.End() <= loc.epilogueOffset
    requires forall k :: 0 <= k < |code| && InFoot(Classify(site), loc, k) ==> code[k] == code2[k]
    ensures forall k :: 0 <= k < |code| && InFoot(Classify(site), loc, k) ==>
      Reset(code, site, loc)[k] == Reset(code2, site, loc)[k]
    ensures Classify(site) == Mov ==> Reset(code, site, loc)[loc.offset - 3] == Reset(code2, site, loc)[loc.offset - 3]
    ensures EpilogueLength(Reset(code, site, loc)[loc.offset - 3], site, loc)
         == EpilogueLength(Reset(code2, site, loc)[loc.offset - 3], site, loc)
  {
    hide Classify, Reset, Nops;
    forall k: nat | k < |code| && InFoot(Classify(site), loc, k)
      ensures Reset(code, site, loc)[k] == Reset(code2, site, loc)[k]
    {
      ResetAt(code, site, loc, k);
      ResetAt(code2, site, loc, k);
    }
    assert InFoot(Mov, loc, loc.offset - 3);
  }

  lemma SameEpilogue(ready: seq<byte>, ready2: seq<byte>, site: seq<byte>, loc: Reloc, target: int)
    requires |site| == 6 && |ready2| == |ready| && 3 <= loc.offset && loc.End() < |ready|
    requires Classify(site) == Mov ==> ready[loc.offset - 3] == ready2[loc.offset - 3]
    requires Classify(site) == Cmpl ==> ready[loc.End()] == ready2[loc.End()]
    ensures FarEpilogue(ready, site, loc, target) == FarEpilogue(ready2, site, loc, target)
  {
    hide LE64, MovEpilogue, CmplEpilogue, FarCall, Classify;
  }

  /** `relocateCALL` writes its opcode, its displacement and its epilogue, and reads nothing. */
  predicate InCallFoot(loc: Reloc, i: int) { loc.offset - 1 <= i < loc.End() || InEpilogue(loc, i) }

  /** The far call fits its epilogue. */
  predicate CallReady(code: seq<byte>, loc: Reloc) {
    CallInBounds(code, loc) && (loc.epilogueSize > 0 ==> |FarCall(loc, 0)| <= loc.epilogueSize)
  }

  lemma CallAt(code: seq<byte>, loc: Reloc, addr: int, base: int, force: bool, i: nat)
    requires CallReady(code, loc) && i < |code|
    ensures var (r, outcome) := RelocatedCALL(code, loc, addr, base, force);
      var far, jump := FarCall(loc, Target(addr, loc)), [JMP] + LE32(ToEpilogue(loc));
      && |r| == |code|
      && r[i] == if outcome == Done && IsFar(addr, loc, base, force)
                    && loc.epilogueOffset <= i < loc.epilogueOffset + |far|
                 then far[i - loc.epilogueOffset]
                 else if outcome == Done && IsFar(addr, loc, base, force) && loc.offset - 1 <= i < loc.End()
                 then jump[i - (loc.offset - 1)]
                 else if !IsFar(addr, loc, base, force) && loc.offset <= i < loc.End()
                 then LE32(Distance(addr, loc, base))[i - loc.offset]
                 else if InEpilogue(loc, i) then NOP else code[i]
  {
    hide LE32, IsFar, Distance, FarCall, Nops;
    var far, jump := FarCall(loc, Target(addr, loc)), [JMP] + LE32(ToEpilogue(loc));
    var ready := Splice(code, loc.epilogueOffset, Nops(loc.epilogueSize));
    SpliceIndex(code, loc.epilogueOffset, Nops(loc.epilogueSize), i);
    NopAt(loc.epilogueSize);
    if !IsFar(addr, loc, base, force) {
      SpliceIndex(ready, loc.offset, LE32(Distance(addr, loc, base)), i);
    } else if loc.epilogueSize > 0 {
      SpliceIndex(ready, loc.offset - 1, jump, i);
      SpliceIndex(Splice(ready, loc.offset - 1, jump), loc.epilogueOffset, far, i);
    }
  }

  lemma NopAt(n: nat)
    ensures forall i :: 0 <= i < n ==> Nops(n)[i] == NOP
  {
  }

  lemma CallFrame(code: seq<byte>, loc: Reloc, addr: int, base: int, force: bool, i: nat)
    requires CallReady(code, loc) && i < |code| && !InCallFoot(loc, i)
    ensures |RelocatedCALL(code, loc, addr, base, force).0| == |code|
    ensures RelocatedCALL(code, loc, addr, base, force).0[i] == code[i]
  {
    hide LE32, Target, Splice, FarCall;
    CallAt(code, loc, addr, base, force, i);
  }

  lemma CallLocal(code: seq<byte>, code2: seq<byte>, loc: Reloc, addr: int, base: int, force: bool, i: nat)
    requires CallReady(code, loc) && |code2| == |code| && i < |code| && InCallFoot(loc, i)
    requires code[i] == code2[i]
    ensures CallReady(code2, loc)
    ensures RelocatedCALL(code2, loc, addr, base, force).0[i] == RelocatedCALL(code, loc, addr, base, force).0[i]
    ensures RelocatedCALL(code2, loc, addr, base, force).1 == RelocatedCALL(code, loc, addr, base, force).1
  {
    hide LE32, Target, Distance, FarCall;
    CallAt(code, loc, addr, base, force, i);
    CallAt(code2, loc, addr, base, force, i);
  }

  // ----- relocating a site again -----

  /** The one byte a far CMPL destroys outside the saved six: its immediate becomes a no-op. */
  predicate LosesImmediate(code: seq<byte>, saved: map<nat, seq<byte>>, loc: Reloc, addr: int, base: int, force: bool)
    requires Ready(code, saved, loc)
  {
    && IsFar(addr, loc, base, force) && loc.epilogueSize > 0
    && Classify(Original(code, saved, loc)) == Cmpl && Reset(code, Original(code, saved, loc), loc)[loc.End()] != NOP
  }

  /** Everything that the next relocation of the same site reads is restored, unless a CMPL lost
      its immediate. */
  lemma ReadyAgain(code: seq<byte>, saved: map<nat, seq<byte>>, loc: Reloc, a: int, base: int, force: bool)
    requires Ready(code, saved, loc)
    ensures var s, site := RelocatedPCREL(code, saved, loc, a, base, force), Original(code, saved, loc);
      && Ready(s.code, s.saved, loc) && Original(s.code, s.saved, loc) == site
      && s.saved == saved[loc.offset := site]
      && Reset(s.code, site, loc)
         == if LosesImmediate(code, saved, loc, a, base, force) then Reset(code, site, loc)[loc.End() := NOP]
            else Reset(code, site, loc)
  {
    hide IsFar, Classify, Epilogue, EpilogueLength, FarSite, Distance, Nops, LE32, Reset;
    var s := RelocatedPCREL(code, saved, loc, a, base, force);
    var site := Original(code, saved, loc);
    var lost := LosesImmediate(code, saved, loc, a, base, force);
    forall i: nat | i < |code|
      ensures Reset(s.code, site, loc)[i] == if lost && i == loc.End() then NOP else Reset(code, site, loc)[i]
    {
      ResetAt(s.code, site, loc, i);
      ResetAt(code, site, loc, i);
      if InEpilogue(loc, i) {
      } else if !InFoot(Classify(site), loc, i) {
        PcrelFrame(code, saved, loc, a, base, force, i);
      } else if i == loc.offset - 3 || i == loc.End() {
        EdgeBytes(code, saved, loc, a, base, force, i);
      }
    }
  }

  /** The two bytes beside the saved six. */
  lemma EdgeBytes(code: seq<byte>, saved: map<nat, seq<byte>>, loc: Reloc, a: int, base: int, force: bool, i: nat)
    requires Ready(code, saved, loc) && i < |code|
    requires i == loc.offset - 3 || i == loc.End()
    requires !InEpilogue(loc, i)
    ensures var site := Original(code, saved, loc);
      RelocatedPCREL(code, saved, loc, a, base, force).code[i]
      == if i == loc.End() && Classify(site) == Cmpl && IsFar(a, loc, base, force) && loc.epilogueSize > 0 then NOP
         else code[i]
  {
    hide IsFar, Epilogue, EpilogueLength, Distance, Nops, LE32, Reset;
    var site := Original(code, saved, loc);
    var ready := Reset(code, site, loc);
    ResetAt(code, site, loc, i);
    if !IsFar(a, loc, base, force) {
      SpliceIndex(ready, loc.offset, LE32(Distance(a, loc, base)), i);
    } else if loc.epilogueSize > 0 && RelocatedFar(ready, site, loc, Target(a, loc)).1 == Done {
      FarAt(ready, site, loc, Target(a, loc), i);
    }
  }

  /** Relocating a site to `a` and later to `b`, as type deduplication does, leaves exactly what
      relocating it once to `b` leaves, if and only if the first relocation was not a far CMPL
      that lost its immediate. */
  lemma LastWriterWinsIff(code: seq<byte>, saved: map<nat, seq<byte>>, loc: Reloc, a: int, b: int,
                          base: int, force: bool)
    requires Ready(code, saved, loc)
    ensures var s := RelocatedPCREL(code, saved, loc, a, base, force);
      && Ready(s.code, s.saved, loc)
      && (RelocatedPCREL(s.code, s.saved, loc, b, base, force) == RelocatedPCREL(code, saved, loc, b, base, force)
          <==> !LosesImmediate(code, saved, loc, a, base, force))
  {
    hide IsFar, Classify, Epilogue, EpilogueLength, FarSite, Distance, Nops, LE32, Reset, RelocatedFar;
    ReadyAgain(code, saved, loc, a, base, force);
    var s, site := RelocatedPCREL(code, saved, loc, a, base, force), Original(code, saved, loc);
    assert s.saved[loc.offset := site] == s.saved;
    if LosesImmediate(code, saved, loc, a, base, force) {
      ResetAt(code, site, loc, loc.End());
      ImmediateShows(Reset(code, site, loc), site, loc, b, base, force);
    }
  }

  /** A lost immediate shows, in the site or in the epilogue's comparison. */
  lemma ImmediateShows(ready: seq<byte>, site: seq<byte>, loc: Reloc, b: int, base: int, force: bool)
    requires |site| == 6 && Classify(site) == Cmpl && 3 <= loc.offset && loc.End() < |ready|
    requires loc.epilogueOffset + EpilogueLength(ready[loc.offset - 3], site, loc) <= |ready|
    requires !InEpilogue(loc, loc.End()) && ready[loc.End()] != NOP && loc.End() <= loc.epilogueOffset
    requires loc.epilogueSize > 0
    ensures var lost := ready[loc.End() := NOP];
      && Splice(lost, loc.offset, LE32(Distance(b, loc, base)))
         != Splice(ready, loc.offset, LE32(Distance(b, loc, base)))
      && RelocatedFar(lost, site, loc, Target(b, loc)).0 != RelocatedFar(ready, site, loc, Target(b, loc)).0
  {
    hide Distance, LE32, LE64, Classify, ReturnJump;
    var lost := ready[loc.End() := NOP];
    var disp := LE32(Distance(b, loc, base));
    SpliceIndex(lost, loc.offset, disp, loc.End());
    SpliceIndex(ready, loc.offset, disp, loc.End());
    var at := loc.epilogueOffset + 14;
    FarAt(lost, site, loc, Target(b, loc), at);
    FarAt(ready, site, loc, Target(b, loc), at);
    assert FarEpilogue(ready, site, loc, Target(b, loc))[14] == ready[loc.End()];
    assert FarEpilogue(lost, site, loc, Target(b, loc))[14] == NOP;
  }
}
