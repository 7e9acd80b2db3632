/** relocate.go, `relocatePCREL`: two sites, each a CALL or a JMP, one right behind the other.  A site is
    judged by the byte before its opcode, and that is the last displacement byte of the one in front. */
module Adjacent {
  import opened Bytes
  import opened Patching
  import opened Order
  import X = RelocX86
  import FX = FrameX86

  // ----- what the rewriting of a CALL or JMP writes -----

  predicate IsBranch(op: byte) { op == X.CALL || op == X.JMP }

  /** What it is classified as when nothing misleads. */
  function Direct(op: byte): X.Opcode { if op == X.CALL then X.Call else X.Jump }

  /** Byte `i` is written; the far form also writes the opcode. */
  predicate Written(loc: X.Reloc, far: bool, i: int) {
    (if far then loc.offset - 1 else loc.offset) <= i < loc.End() || FX.InEpilogue(loc, i)
  }

  function DirectEpilogue(op: byte, loc: X.Reloc, target: int): seq<byte> {
    if op == X.CALL then X.FarCall(loc, target) else X.JMPL_CODE + LE64(target)
  }

  /** What it becomes. */
  function DirectByte(op: byte, loc: X.Reloc, addr: int, base: int, far: bool, i: int): byte
    requires Written(loc, far, i) && (FX.InEpilogue(loc, i) ==> loc.End() <= loc.epilogueOffset)
  {
    var code := DirectEpilogue(op, loc, X.Target(addr, loc));
    if far && loc.epilogueOffset <= i < loc.epilogueOffset + |code| then code[i - loc.epilogueOffset]
    else if FX.InEpilogue(loc, i) then X.NOP
    else if i == loc.offset - 1 then X.JMP
    else if far then LE32(X.ToEpilogue(loc))[i - loc.offset]
    else LE32(X.Distance(addr, loc, base))[i - loc.offset]
  }

  lemma DirectFormAt(op: byte, code: seq<byte>, saved: map<nat, seq<byte>>, loc: X.Reloc, addr: int, base: int,
                     force: bool, i: nat)
    requires FX.Ready(code, saved, loc) && loc.offset !in saved && i < |code|
    requires X.IsFar(addr, loc, base, force) ==>
      loc.epilogueSize > 0 && X.Classify(X.Original(code, saved, loc)) == Direct(op)
    ensures var s, far := X.RelocatedPCREL(code, saved, loc, addr, base, force), X.IsFar(addr, loc, base, force);
      && s.outcome == Done && s.saved == saved[loc.offset := X.Original(code, saved, loc)]
      && s.code[i] == if Written(loc, far, i) then DirectByte(op, loc, addr, base, far, i) else code[i]
  {
    hide X.IsFar, X.Distance, X.FarCall, LE32, LE64, X.Nops, X.Classify, X.Reset;
    var site := X.Original(code, saved, loc);
    var ready := X.Reset(code, site, loc);
    FX.ResetAt(code, site, loc, i);
    if !X.IsFar(addr, loc, base, force) {
      SpliceIndex(ready, loc.offset, LE32(X.Distance(addr, loc, base)), i);
    } else {
      JumpOpcode(site);
      FX.FarAt(ready, site, loc, X.Target(addr, loc), i);
    }
  }

  lemma JumpOpcode(site: seq<byte>)
    requires |site| == 6
    ensures X.Classify(site) == X.Jump ==> site[1] == X.JMP
  {
  }

  // ----- what the byte in front makes of the second site -----

  /** Behind these bytes a CALL or JMP is taken for another instruction. */
  predicate Misleads(front: byte) { front == X.LEA || front == X.MOV || front == X.CMPL || front == X.CALL2 }

  lemma ClassifiedBy(site: seq<byte>)
    requires |site| == 6 && (site[1] == X.JMP || (site[1] == X.CALL && Get32(site, 2) == 0))
    ensures X.Classify(site) == if site[0] == X.LEA then X.Lea else if site[0] == X.MOV then X.Mov
                                else if site[0] == X.CMPL then X.Cmpl
                                else if site[0] == X.CALL2 then X.CallIndirect else Direct(site[1])
  {
  }

  /** Taken for an LEA or an indirect call, the site keeps its opcode and the epilogue holds the address. */
  function SlotByte(op: byte, loc: X.Reloc, addr: int, i: int): byte
    requires Written(loc, true, i) && (FX.InEpilogue(loc, i) ==> loc.End() <= loc.epilogueOffset)
  {
    if loc.epilogueOffset <= i < loc.epilogueOffset + 8 then LE64(X.Target(addr, loc))[i - loc.epilogueOffset]
    else if FX.InEpilogue(loc, i) then X.NOP
    else if i == loc.offset - 1 then op
    else LE32(X.ToEpilogue(loc))[i - loc.offset]
  }

  lemma SlotFormAt(code: seq<byte>, saved: map<nat, seq<byte>>, loc: X.Reloc, addr: int, base: int, force: bool, i: nat)
    requires FX.Ready(code, saved, loc) && loc.offset !in saved && i < |code|
    requires X.IsFar(addr, loc, base, force) && loc.epilogueSize > 0
    requires code[loc.offset - 2] == X.LEA || code[loc.offset - 2] == X.CALL2
    ensures var s := X.RelocatedPCREL(code, saved, loc, addr, base, force);
      && s.outcome == Done
      && s.code[i] == if Written(loc, true, i) then SlotByte(code[loc.offset - 1], loc, addr, i)
                      else if i == loc.offset - 2 && code[i] == X.LEA then X.MOV else code[i]
  {
    hide X.IsFar, X.FarCall, LE32, LE64, X.Nops, X.Reset;
    var site := X.Original(code, saved, loc);
    var ready := X.Reset(code, site, loc);
    assert site[0] == code[loc.offset - 2] && site[1] == code[loc.offset - 1];
    FX.ResetAt(code, site, loc, i);
    FX.FarAt(ready, site, loc, X.Target(addr, loc), i);
  }

  /** Taken for a CMPL it becomes a JMP one byte in front of the instruction, and ends in no-ops. */
  lemma CmplForm(code: seq<byte>, saved: map<nat, seq<byte>>, loc: X.Reloc, addr: int, base: int, force: bool)
    requires FX.Ready(code, saved, loc) && loc.offset !in saved
    requires X.IsFar(addr, loc, base, force) && loc.epilogueSize > 0 && code[loc.offset - 2] == X.CMPL
    ensures var s := X.RelocatedPCREL(code, saved, loc, addr, base, force);
      s.outcome == Done && s.code[loc.offset - 2] == X.JMP && s.code[loc.End() - 1] == X.NOP
  {
    hide X.IsFar, X.FarCall, LE32, LE64, X.Nops, X.Reset;
    var site := X.Original(code, saved, loc);
    var ready := X.Reset(code, site, loc);
    assert site[0] == code[loc.offset - 2];
    FX.FarAt(ready, site, loc, X.Target(addr, loc), loc.offset - 2);
    FX.FarAt(ready, site, loc, X.Target(addr, loc), loc.End() - 1);
  }

  /** Taken for a MOV it is refused. */
  lemma MovForm(code: seq<byte>, saved: map<nat, seq<byte>>, loc: X.Reloc, addr: int, base: int, force: bool)
    requires FX.Ready(code, saved, loc) && loc.offset !in saved
    requires X.IsFar(addr, loc, base, force) && loc.epilogueSize > 0
    requires code[loc.offset - 2] == X.MOV && IsBranch(code[loc.offset - 1])
    ensures X.RelocatedPCREL(code, saved, loc, addr, base, force).outcome == Failed(UnexpectedSource)
  {
    hide X.IsFar, X.Reset, X.Fits, X.EpilogueLength, X.FarEpilogue, LE32, LE64, X.Distance, X.FarSite, X.Nops, Get32;
    var site := X.Original(code, saved, loc);
    assert site[0] == code[loc.offset - 2] && site[1] == code[loc.offset - 1];
  }

  /** Taken for an LEA or an indirect call, not for what it is. */
  predicate SlotForm(far: bool, front: byte) { far && (front == X.LEA || front == X.CALL2) }

  function SecondByte(op: byte, loc: X.Reloc, addr: int, base: int, far: bool, front: byte, i: int): byte
    requires Written(loc, far, i) && (FX.InEpilogue(loc, i) ==> loc.End() <= loc.epilogueOffset)
  {
    if SlotForm(far, front) then SlotByte(op, loc, addr, i) else DirectByte(op, loc, addr, base, far, i)
  }

  /** What stands at the second site: a CALL that was not relocated, or a JMP. */
  predicate BranchAt(code: seq<byte>, loc: X.Reloc) {
    && 3 <= loc.offset && loc.End() <= |code| && IsBranch(code[loc.offset - 1])
    && (code[loc.offset - 1] == X.CALL ==> Get32(code, loc.offset) == 0)
  }

  lemma SecondAt(code: seq<byte>, saved: map<nat, seq<byte>>, loc: X.Reloc, addr: int, base: int, force: bool, i: nat)
    requires FX.Ready(code, saved, loc) && loc.offset !in saved && i < |code| && BranchAt(code, loc)
    requires X.IsFar(addr, loc, base, force) ==>
      loc.epilogueSize > 0 && code[loc.offset - 2] != X.MOV && code[loc.offset - 2] != X.CMPL
    ensures var s := X.RelocatedPCREL(code, saved, loc, addr, base, force);
      var far, front := X.IsFar(addr, loc, base, force), code[loc.offset - 2];
      && s.outcome == Done && (forall k :: k in s.saved <==> k in saved || k == loc.offset)
      && s.code[i] == if Written(loc, far, i) then SecondByte(code[loc.offset - 1], loc, addr, base, far, front, i)
                      else if i == loc.offset - 2 && far && front == X.LEA then X.MOV else code[i]
  {
    hide X.IsFar, X.RelocatedPCREL, SlotByte, DirectByte, X.Classify, X.Fits;
    var site := X.Original(code, saved, loc);
    assert site[0] == code[loc.offset - 2] && site[1] == code[loc.offset - 1];
    assert site[2..6] == code[loc.offset..loc.offset + 4];
    ClassifiedBy(site);
    if SlotForm(X.IsFar(addr, loc, base, force), code[loc.offset - 2]) {
      SlotFormAt(code, saved, loc, addr, base, force, i);
    } else {
      DirectFormAt(code[loc.offset - 1], code, saved, loc, addr, base, force, i);
    }
    SavesSite(code, saved, loc, addr, base, force);
  }

  lemma SavesSite(code: seq<byte>, saved: map<nat, seq<byte>>, loc: X.Reloc, addr: int, base: int, force: bool)
    requires FX.Ready(code, saved, loc)
    ensures X.RelocatedPCREL(code, saved, loc, addr, base, force).saved
         == saved[loc.offset := X.Original(code, saved, loc)]
  {
    hide X.IsFar, X.RelocatedFar, X.Reset, LE32;
  }

  // ----- two calls -----

  /** Two sites, the second right behind the first, with epilogues behind both. */
  ghost predicate AdjacentBranches(code: seq<byte>, first: X.Reloc, a: int, second: X.Reloc, b: int, base: nat,
                                   force: bool) {
    && FX.Ready(code, map[], first) && FX.Ready(code, map[], second) && |code| < TWO_31
    && second.offset == first.End() + 1 && IsBranch(code[first.offset - 1]) && BranchAt(code, second)
    && (X.IsFar(a, first, base, force) ==>
          first.epilogueSize > 0 && X.Classify(X.Original(code, map[], first)) == Direct(code[first.offset - 1]))
    && (X.IsFar(b, second, base, force) ==> second.epilogueSize > 0)
    && (first.epilogueSize > 0 ==> second.End() <= first.epilogueOffset)
    && forall i :: !(FX.InEpilogue(first, i) && FX.InEpilogue(second, i))
  }

  /** Both orders succeed and leave the same code. */
  predicate Agree(code: seq<byte>, x: Job, y: Job, base: nat, force: bool) {
    var s, t := Relocated(code, map[], [x, y], base, force), Relocated(code, map[], [y, x], base, force);
    s.outcome == Done && t.outcome == Done && s.code == t.code
  }

  /** The last displacement byte of the first call, which stands in front of the second: once the first is
      relocated. */
  function NewFront(code: seq<byte>, first: X.Reloc, a: int, second: X.Reloc, base: nat, force: bool): byte
    requires FX.Ready(code, map[], first) && 3 <= second.offset && second.End() <= |code|
  {
    X.RelocatedPCREL(code, map[], first, a, base, force).code[second.offset - 2]
  }

  /** After the first call: the second site is as it was, but for the byte in front. */
  lemma AfterFirst(code: seq<byte>, first: X.Reloc, a: int, second: X.Reloc, b: int, base: nat, force: bool)
    requires AdjacentBranches(code, first, a, second, b, base, force)
    ensures var s := X.RelocatedPCREL(code, map[], first, a, base, force);
      && s.outcome == Done && s.saved.Keys == {first.offset} && BranchAt(s.code, second)
      && s.code[second.offset - 1] == code[second.offset - 1]
      && s.code[second.offset - 2]
         == DirectByte(code[first.offset - 1], first, a, base, X.IsFar(a, first, base, force), second.offset - 2)
      && (X.IsFar(a, first, base, force) ==> !Misleads(s.code[second.offset - 2]))
  {
    hide X.IsFar, X.RelocatedPCREL, X.FarCall, X.Fits, X.Classify, LE32, X.Distance;
    var s := X.RelocatedPCREL(code, map[], first, a, base, force);
    forall i: nat | second.offset - 2 <= i < second.End()
      ensures s.outcome == Done && s.saved.Keys == {first.offset}
      ensures i > second.offset - 2 ==> s.code[i] == code[i]
    {
      DirectFormAt(code[first.offset - 1], code, map[], first, a, base, force, i);
    }
    assert s.code[second.offset..second.End()] == code[second.offset..second.End()];
    DirectFormAt(code[first.offset - 1], code, map[], first, a, base, force, second.offset - 2);
    if X.IsFar(a, first, base, force) {
      TopByte(X.ToEpilogue(first));
    }
  }

  /** The last byte of a displacement below 2^31 is small. */
  lemma TopByte(d: nat)
    requires d < TWO_31
    ensures LE32(d)[3] < 0x80
  {
    var w := U32(d);
    InWord(d);
    assert LE(w, 4)[1..] == LE(w / 256, 3) && LE(w / 256, 3)[1..] == LE(w / 256 / 256, 2);
    assert LE(w / 256 / 256, 2)[1..] == LE(w / 256 / 256 / 256, 1);
    assert w / 256 / 256 / 256 < 0x80;
  }

  /** A far first call is one without a displacement yet. */
  lemma FrontIsZero(code: seq<byte>, first: X.Reloc)
    requires X.InBounds(code, map[], first) && X.Classify(X.Original(code, map[], first)) == X.Call
    ensures code[first.End() - 1] == 0
  {
    var site := X.Original(code, map[], first);
    ZeroBytes(site[2..6]);
    assert site[2..6][3] == code[first.End() - 1];
  }

  lemma {:induction false} ZeroBytes(bs: seq<byte>)
    requires Val(bs) == 0
    ensures forall i :: 0 <= i < |bs| ==> bs[i] == 0
  {
    if bs != [] {
      ZeroBytes(bs[1..]);
      assert forall i :: 1 <= i < |bs| ==> bs[i] == bs[1..][i - 1];
    }
  }

  /** Relocating the second leaves what the first is taken for. */
  lemma FirstStays(code: seq<byte>, first: X.Reloc, a: int, second: X.Reloc, b: int, base: nat, force: bool)
    requires AdjacentBranches(code, first, a, second, b, base, force) && X.IsFar(a, first, base, force)
    requires X.RelocatedPCREL(code, map[], second, b, base, force).outcome == Done
    ensures var s := X.RelocatedPCREL(code, map[], second, b, base, force);
      && first.offset !in s.saved && 3 <= first.offset && first.End() <= |s.code|
      && X.Classify(X.Original(s.code, s.saved, first)) == Direct(code[first.offset - 1])
  {
    hide X.IsFar, X.RelocatedPCREL, X.FarCall, X.Fits, X.Classify, LE32, X.Distance, Get32;
    var s := X.RelocatedPCREL(code, map[], second, b, base, force);
    SavesSite(code, map[], second, b, base, force);
    if code[first.offset - 1] == X.CALL {
      FrontIsZero(code, first);
      forall k: nat | first.offset - 2 <= k < first.End() ensures s.code[k] == code[k] {
        SecondAt(code, map[], second, b, base, force, k);
      }
      assert s.code[first.offset - 2..first.End()] == code[first.offset - 2..first.End()];
    } else {
      forall k: nat | first.offset - 2 <= k < first.offset ensures s.code[k] == code[k] {
        BeforeSecond(code, first, a, second, b, base, force, k);
      }
      JumpByFirstTwo(X.Original(code, map[], first), X.Original(s.code, s.saved, first));
    }
  }

  lemma BeforeSecond(code: seq<byte>, first: X.Reloc, a: int, second: X.Reloc, b: int, base: nat, force: bool, k: nat)
    requires AdjacentBranches(code, first, a, second, b, base, force) && k < second.offset - 3
    ensures k < |code| && |X.RelocatedPCREL(code, map[], second, b, base, force).code| == |code|
    ensures X.RelocatedPCREL(code, map[], second, b, base, force).code[k] == code[k]
  {
    hide X.IsFar, X.RelocatedPCREL, X.Fits, X.Classify, Get32;
    FX.PcrelFrame(code, map[], second, b, base, force, k);
  }

  lemma JumpByFirstTwo(site: seq<byte>, site2: seq<byte>)
    requires |site| == 6 == |site2| && X.Classify(site) == X.Jump && site2[..2] == site[..2]
    ensures X.Classify(site2) == X.Jump
  {
    assert site2[0] == site[..2][0] && site2[1] == site[..2][1];
  }

  /** The first call writes the same after the second as before it. */
  lemma FirstAfterSecond(code: seq<byte>, first: X.Reloc, a: int, second: X.Reloc, b: int, base: nat, force: bool,
                         i: nat)
    requires AdjacentBranches(code, first, a, second, b, base, force) && i < |code|
    requires var s := X.RelocatedPCREL(code, map[], second, b, base, force);
      s.outcome == Done && FX.Ready(s.code, s.saved, first)
    ensures var s := X.RelocatedPCREL(code, map[], second, b, base, force);
      var t, far := X.RelocatedPCREL(s.code, s.saved, first, a, base, force), X.IsFar(a, first, base, force);
      && t.outcome == Done
      && t.code[i] == if Written(first, far, i) then DirectByte(code[first.offset - 1], first, a, base, far, i)
                    else s.code[i]
  {
    hide X.IsFar, X.RelocatedPCREL, X.FarCall, X.Fits, X.Classify, LE32, X.Distance, Get32;
    var s := X.RelocatedPCREL(code, map[], second, b, base, force);
    SavesSite(code, map[], second, b, base, force);
    if X.IsFar(a, first, base, force) {
      FirstStays(code, first, a, second, b, base, force);
    }
    DirectFormAt(code[first.offset - 1], s.code, s.saved, first, a, base, force, i);
  }

  /** Both rewrites succeed, in either order, and meet their room. */
  ghost predicate BothRun(code: seq<byte>, first: X.Reloc, a: int, second: X.Reloc, b: int, base: nat, force: bool) {
    && Runnable(code, map[], [Pcrel(first, a), Pcrel(second, b)], base, force)
    && Runnable(code, map[], [Pcrel(second, b), Pcrel(first, a)], base, force)
  }

  lemma RunnableTwo(code: seq<byte>, x: Job, y: Job, base: nat, force: bool)
    requires Runnable(code, map[], [x, y], base, force)
    ensures JobReady(code, map[], x)
    ensures var s := Apply(code, map[], x, base, force);
      && (s.outcome == Done ==>
            && JobReady(s.code, s.saved, y)
            && Relocated(code, map[], [x, y], base, force) == Apply(s.code, s.saved, y, base, force))
      && (s.outcome != Done ==> Relocated(code, map[], [x, y], base, force) == s)
  {
    hide JobReady, Apply;
    var s := Apply(code, map[], x, base, force);
    assert [x, y][1..] == [y];
    if s.outcome == Done {
      RelocatedTwo(code, map[], x, y, base, force);
    }
  }

  /** What the byte in front of the second call may be, before and after the first is relocated. */
  predicate FrontsAgree(before: byte, after: byte) {
    || (!Misleads(before) && !Misleads(after))
    || ((before == X.LEA || before == X.CALL2) && after == X.CALL2)
  }

  /** Byte `i` after both orders, when neither takes the second site for a CMPL or MOV. */
  lemma SameByte(code: seq<byte>, first: X.Reloc, a: int, second: X.Reloc, b: int, base: nat, force: bool, i: nat)
    requires AdjacentBranches(code, first, a, second, b, base, force) && i < |code|
    requires BothRun(code, first, a, second, b, base, force)
    requires var before, after := code[second.offset - 2], NewFront(code, first, a, second, base, force);
      X.IsFar(b, second, base, force) ==> before != X.MOV && before != X.CMPL && after != X.MOV && after != X.CMPL
    ensures var s, t := Relocated(code, map[], [Pcrel(first, a), Pcrel(second, b)], base, force),
                        Relocated(code, map[], [Pcrel(second, b), Pcrel(first, a)], base, force);
      var before, after := code[second.offset - 2], NewFront(code, first, a, second, base, force);
      var far := X.IsFar(b, second, base, force);
      && s.outcome == Done && t.outcome == Done
      && (s.code[i] != t.code[i] <==>
            || (i == second.offset - 2 && far && after == X.LEA)
            || (Written(second, far, i)
                && SecondByte(code[second.offset - 1], second, b, base, far, before, i)
                   != SecondByte(code[second.offset - 1], second, b, base, far, after, i)))
  {
    hide X.IsFar, X.RelocatedPCREL, X.Fits, X.Classify, X.FarCall, LE32, X.Distance, Relocated, Runnable, DirectByte,
      SecondByte, BranchAt, X.InBounds;
    var x, y := Pcrel(first, a), Pcrel(second, b);
    RunnableTwo(code, x, y, base, force);
    RunnableTwo(code, y, x, base, force);
    AfterFirst(code, first, a, second, b, base, force);
    var s1 := X.RelocatedPCREL(code, map[], first, a, base, force);
    SecondAt(s1.code, s1.saved, second, b, base, force, i);
    SecondAt(code, map[], second, b, base, force, i);
    FirstWrites(code, first, a, second, b, base, force, i);
    WritesApart(code, first, a, second, b, base, force, i);
    FirstAfterSecond(code, first, a, second, b, base, force, i);
  }

  lemma WritesApart(code: seq<byte>, first: X.Reloc, a: int, second: X.Reloc, b: int, base: nat, force: bool, i: nat)
    requires AdjacentBranches(code, first, a, second, b, base, force)
    ensures !(Written(first, X.IsFar(a, first, base, force), i) && Written(second, X.IsFar(b, second, base, force), i))
    ensures i == second.offset - 2 ==>
      Written(first, X.IsFar(a, first, base, force), i) && !Written(second, X.IsFar(b, second, base, force), i)
  {
    hide X.IsFar, X.Fits, X.Classify;
  }

  lemma FirstWrites(code: seq<byte>, first: X.Reloc, a: int, second: X.Reloc, b: int, base: nat, force: bool, i: nat)
    requires AdjacentBranches(code, first, a, second, b, base, force) && i < |code|
    ensures var s, far := X.RelocatedPCREL(code, map[], first, a, base, force), X.IsFar(a, first, base, force);
      s.code[i] == if Written(first, far, i) then DirectByte(code[first.offset - 1], first, a, base, far, i)
                else code[i]
  {
    hide X.IsFar, X.RelocatedPCREL, X.Fits, X.Classify, DirectByte;
    DirectFormAt(code[first.offset - 1], code, map[], first, a, base, force, i);
  }

  /** A byte that would take the second site for a MOV makes its order fail. */
  lemma MovDisagrees(code: seq<byte>, first: X.Reloc, a: int, second: X.Reloc, b: int, base: nat, force: bool)
    requires AdjacentBranches(code, first, a, second, b, base, force) && BothRun(code, first, a, second, b, base, force)
    requires X.IsFar(b, second, base, force)
    requires code[second.offset - 2] == X.MOV || NewFront(code, first, a, second, base, force) == X.MOV
    ensures !Agree(code, Pcrel(first, a), Pcrel(second, b), base, force)
  {
    hide X.IsFar, X.RelocatedPCREL, X.Fits, X.FarCall, LE32, X.Distance, Relocated, Runnable, Get32;
    var x, y := Pcrel(first, a), Pcrel(second, b);
    RunnableTwo(code, x, y, base, force);
    RunnableTwo(code, y, x, base, force);
    AfterFirst(code, first, a, second, b, base, force);
    if code[second.offset - 2] == X.MOV {
      MovForm(code, map[], second, b, base, force);
    } else {
      var s := X.RelocatedPCREL(code, map[], first, a, base, force);
      MovForm(s.code, s.saved, second, b, base, force);
    }
  }

  /** One that would take it for a CMPL shows in the byte in front, or at its end. */
  lemma CmplDisagrees(code: seq<byte>, first: X.Reloc, a: int, second: X.Reloc, b: int, base: nat, force: bool)
    requires AdjacentBranches(code, first, a, second, b, base, force) && BothRun(code, first, a, second, b, base, force)
    requires X.IsFar(b, second, base, force)
    requires var before, after := code[second.offset - 2], NewFront(code, first, a, second, base, force);
      before != X.MOV && after != X.MOV && (before == X.CMPL || after == X.CMPL)
    ensures !Agree(code, Pcrel(first, a), Pcrel(second, b), base, force)
  {
    hide X.IsFar, X.RelocatedPCREL, X.Fits, X.FarCall, X.Classify, LE32, X.Distance, Relocated, Runnable, Get32,
      DirectByte, SecondByte;
    var x, y := Pcrel(first, a), Pcrel(second, b);
    RunnableTwo(code, x, y, base, force);
    RunnableTwo(code, y, x, base, force);
    AfterFirst(code, first, a, second, b, base, force);
    var s := X.RelocatedPCREL(code, map[], first, a, base, force);
    var front, last := second.offset - 2, second.End() - 1;
    WritesApart(code, first, a, second, b, base, force, front);
    WritesApart(code, first, a, second, b, base, force, last);
    var done := code[front] != X.CMPL;
    if done {
      SecondAt(code, map[], second, b, base, force, last);
    } else {
      CmplForm(code, map[], second, b, base, force);
    }
    if s.code[front] == X.CMPL {
      CmplForm(s.code, s.saved, second, b, base, force);
      FirstAfterSecond(code, first, a, second, b, base, force, front);
    } else {
      SecondAt(s.code, s.saved, second, b, base, force, last);
      LastByte(code[second.offset - 1], second, b, base, s.code[front]);
      FirstAfterSecond(code, first, a, second, b, base, force, last);
    }
  }

  lemma LastByte(op: byte, loc: X.Reloc, addr: int, base: int, front: byte)
    requires 0 <= X.ToEpilogue(loc) < TWO_31
    ensures Written(loc, true, loc.End() - 1) && SecondByte(op, loc, addr, base, true, front, loc.End() - 1) < 0x80
  {
    hide LE32, LE64, X.FarCall;
    TopByte(X.ToEpilogue(loc));
  }

  /** Two adjacent sites may be relocated in any order if and only if the second is near, or its far form
      does not depend on the byte in front of it: neither the old nor the new last displacement byte of the
      first misleads, or both make an instruction of it that goes through the slot and the new one,
      unlike 8D, is left in place. */
  lemma AdjacentAgreeIff(code: seq<byte>, first: X.Reloc, a: int, second: X.Reloc, b: int, base: nat, force: bool)
    requires AdjacentBranches(code, first, a, second, b, base, force) && BothRun(code, first, a, second, b, base, force)
    ensures Agree(code, Pcrel(first, a), Pcrel(second, b), base, force)
       <==> !X.IsFar(b, second, base, force)
            || FrontsAgree(code[second.offset - 2], NewFront(code, first, a, second, base, force))
  {
    hide X.IsFar, X.RelocatedPCREL, X.Fits, X.FarCall, X.Classify, LE32, X.Distance, Relocated, Runnable, DirectByte,
      SlotByte, BothRun;
    var before, after := code[second.offset - 2], NewFront(code, first, a, second, base, force);
    var far := X.IsFar(b, second, base, force);
    if far && (before == X.MOV || after == X.MOV) {
      MovDisagrees(code, first, a, second, b, base, force);
    } else if far && (before == X.CMPL || after == X.CMPL) {
      CmplDisagrees(code, first, a, second, b, base, force);
    } else {
      OtherwiseAgreeIff(code, first, a, second, b, base, force);
    }
  }

  lemma OtherwiseAgreeIff(code: seq<byte>, first: X.Reloc, a: int, second: X.Reloc, b: int, base: nat, force: bool)
    requires AdjacentBranches(code, first, a, second, b, base, force) && BothRun(code, first, a, second, b, base, force)
    requires var before, after := code[second.offset - 2], NewFront(code, first, a, second, base, force);
      X.IsFar(b, second, base, force) ==> before != X.MOV && before != X.CMPL && after != X.MOV && after != X.CMPL
    ensures Agree(code, Pcrel(first, a), Pcrel(second, b), base, force)
       <==> !X.IsFar(b, second, base, force)
            || FrontsAgree(code[second.offset - 2], NewFront(code, first, a, second, base, force))
  {
    hide X.IsFar, X.RelocatedPCREL, X.Fits, X.FarCall, X.Classify, LE32, X.Distance, Relocated, DirectByte, SlotByte,
      BothRun, NewFront, Get32;
    var before, after := code[second.offset - 2], NewFront(code, first, a, second, base, force);
    var far := X.IsFar(b, second, base, force);
    var s, t := Relocated(code, map[], [Pcrel(first, a), Pcrel(second, b)], base, force),
                Relocated(code, map[], [Pcrel(second, b), Pcrel(first, a)], base, force);
    SameByte(code, first, a, second, b, base, force, second.offset - 2);
    if far {
      Bounds(code, second);
      if SlotForm(far, before) != SlotForm(far, after) {
        DirectRoom(code, first, a, second, b, base, force);
        var i := FormsDiffer(code[second.offset - 1], second, b, base, before, after);
        SameByte(code, first, a, second, b, base, force, i);
      }
    }
    if !far || FrontsAgree(before, after) {
      forall i: nat | i < |code| ensures s.code[i] == t.code[i] {
        SameByte(code, first, a, second, b, base, force, i);
      }
    }
  }

  lemma Bounds(code: seq<byte>, loc: X.Reloc)
    requires FX.Ready(code, map[], loc)
    ensures loc.epilogueSize > 0 ==> loc.End() <= loc.epilogueOffset
    ensures loc.epilogueOffset + loc.epilogueSize <= |code|
  {
    hide X.Fits;
  }

  /** When one order takes the second site for what it is, its epilogue has room for that. */
  lemma DirectRoom(code: seq<byte>, first: X.Reloc, a: int, second: X.Reloc, b: int, base: nat, force: bool)
    requires AdjacentBranches(code, first, a, second, b, base, force) && BothRun(code, first, a, second, b, base, force)
    requires X.IsFar(b, second, base, force)
    requires !Misleads(code[second.offset - 2]) || !Misleads(NewFront(code, first, a, second, base, force))
    ensures second.epilogueSize >= 14
  {
    hide X.IsFar, X.RelocatedPCREL, X.Fits, X.Classify, LE32, X.Distance, Relocated, Runnable, X.InBounds, Get32;
    if !Misleads(code[second.offset - 2]) {
      DirectFits(code, map[], second);
    } else {
      var x, y := Pcrel(first, a), Pcrel(second, b);
      RunnableTwo(code, x, y, base, force);
      AfterFirst(code, first, a, second, b, base, force);
      var s := X.RelocatedPCREL(code, map[], first, a, base, force);
      DirectFits(s.code, s.saved, second);
    }
  }

  lemma DirectFits(code: seq<byte>, saved: map<nat, seq<byte>>, loc: X.Reloc)
    requires FX.Ready(code, saved, loc) && loc.offset !in saved && BranchAt(code, loc)
    requires !Misleads(code[loc.offset - 2])
    ensures loc.epilogueSize == 0 || loc.epilogueSize >= 14
  {
    hide X.Reset, X.Classify, Get32;
    var site := X.Original(code, saved, loc);
    assert site[0] == code[loc.offset - 2] && site[1] == code[loc.offset - 1];
    assert site[2..6] == code[loc.offset..loc.offset + 4];
    SameWord(site, code, loc);
    ClassifiedBy(site);
  }

  lemma SameWord(site: seq<byte>, code: seq<byte>, loc: X.Reloc)
    requires |site| == 6 && loc.End() <= |code| && site[2..6] == code[loc.offset..loc.offset + 4]
    ensures Get32(site, 2) == Get32(code, loc.offset)
  {
  }

  /** The two forms differ: of a CALL in the opcode, of a JMP in the third or ninth byte of the epilogue. */
  lemma FormsDiffer(op: byte, loc: X.Reloc, addr: int, base: int, before: byte, after: byte) returns (i: nat)
    requires IsBranch(op) && loc.offset >= 1 && loc.epilogueSize >= 14 && loc.End() <= loc.epilogueOffset
    requires SlotForm(true, before) != SlotForm(true, after)
    ensures Written(loc, true, i) && i < loc.epilogueOffset + loc.epilogueSize
    ensures SecondByte(op, loc, addr, base, true, before, i) != SecondByte(op, loc, addr, base, true, after, i)
  {
    hide LE32, LE64, X.FarCall;
    if op == X.CALL {
      i := loc.offset - 1;
    } else if LE64(X.Target(addr, loc))[2] != 0 {
      i := loc.epilogueOffset + 2;
    } else {
      i := loc.epilogueOffset + 8;
    }
  }

  /** So two calls depend on it when the first goes backwards by at most 16 MiB (last displacement byte FF)
      and the second is far: after the first it is taken for an indirect call and keeps its E8, before it
      becomes a JMP. */
  lemma AdjacentCallsDependOnOrder(code: seq<byte>, first: X.Reloc, a: int, second: X.Reloc, b: int, base: nat)
    requires AdjacentBranches(code, first, a, second, b, base, false)
    requires code[second.offset - 1] == X.CALL && !Misleads(code[second.offset - 2])
    requires -0x100_0000 <= X.Distance(a, first, base) < 0 && X.IsFar(b, second, base, false)
    ensures var s, t := Relocated(code, map[], [Pcrel(first, a), Pcrel(second, b)], base, false),
                        Relocated(code, map[], [Pcrel(second, b), Pcrel(first, a)], base, false);
      && s.outcome == Done && t.outcome == Done
      && s.code[second.offset - 1] == X.CALL && t.code[second.offset - 1] == X.JMP
  {
    hide X.RelocatedPCREL, X.FarCall, X.Classify, LE32, LE64, X.Distance, Relocated, X.Fits, Get32;
    AfterFirst(code, first, a, second, b, base, false);
    BackwardByte(X.Distance(a, first, base));
    var s := X.RelocatedPCREL(code, map[], first, a, base, false);
    var t := X.RelocatedPCREL(code, map[], second, b, base, false);
    var at := second.offset - 1;
    WritesApart(code, first, a, second, b, base, false, at);
    SecondAt(code, map[], second, b, base, false, at);
    DirectFits(code, map[], second);
    SlotRoom(s.code, s.saved, second);
    RoomAgain(code, first, a, second, b, base);
    SecondAt(s.code, s.saved, second, b, base, false, at);
    FirstAfterSecond(code, first, a, second, b, base, false, at);
    RelocatedTwo(code, map[], Pcrel(first, a), Pcrel(second, b), base, false);
    RelocatedTwo(code, map[], Pcrel(second, b), Pcrel(first, a), base, false);
  }

  /** The last byte of a displacement of up to 16 MiB backwards. */
  lemma BackwardByte(d: int)
    requires -0x100_0000 <= d < 0
    ensures LE32(d)[3] == 0xFF
  {
    var w := U32(d);
    assert w == d + TWO_32;
    assert LE(w, 4)[1..] == LE(w / 256, 3) && LE(w / 256, 3)[1..] == LE(w / 256 / 256, 2);
    assert LE(w / 256 / 256, 2)[1..] == LE(w / 256 / 256 / 256, 1);
    assert w / 256 / 256 / 256 == 0xFF;
  }

  lemma SlotRoom(code: seq<byte>, saved: map<nat, seq<byte>>, loc: X.Reloc)
    requires X.InBounds(code, saved, loc) && loc.offset !in saved
    requires loc.epilogueSize >= 8 && code[loc.offset - 2] == X.CALL2
    ensures FX.Ready(code, saved, loc)
  {
    hide X.Reset;
    assert X.Original(code, saved, loc)[0] == code[loc.offset - 2];
  }

  /** The first has its room after the second, which left the bytes it is judged by. */
  lemma RoomAgain(code: seq<byte>, first: X.Reloc, a: int, second: X.Reloc, b: int, base: nat)
    requires AdjacentBranches(code, first, a, second, b, base, false) && !Misleads(code[second.offset - 2])
    ensures var t := X.RelocatedPCREL(code, map[], second, b, base, false); FX.Ready(t.code, t.saved, first)
  {
    hide X.RelocatedPCREL, X.FarCall, X.Classify, LE32, LE64, X.Distance, X.Reset, X.EpilogueLength, Get32, X.IsFar;
    var t := X.RelocatedPCREL(code, map[], second, b, base, false);
    SavesSite(code, map[], second, b, base, false);
    forall k: nat | first.offset - 3 <= k < first.End() ensures t.code[k] == code[k] {
      SecondAt(code, map[], second, b, base, false, k);
    }
    var site := X.Original(code, map[], first);
    assert t.code[first.offset - 2..first.End()] == code[first.offset - 2..first.End()];
    FX.ResetAt(code, site, first, first.offset - 3);
    FX.ResetAt(t.code, site, first, first.offset - 3);
  }
}
