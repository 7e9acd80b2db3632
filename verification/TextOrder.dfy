/** The relocations of a text section laid out by ld.go: they touch no common byte, so the order in which
    relocate.go applies them does not matter. */
module TextOrder {
  import opened Bytes
  import opened Patching
  import opened Order
  import opened Reserve
  import X = RelocX86
  import FX = FrameX86
  import A = RelocArm64
  import FA = FrameArm64

  // ----- the laid-out section -----

  /** A function in the section: where it starts, its bytes, its relocations as read and as placed, and
      the space up to the next function. */
  datatype Func = Func(start: nat, data: seq<byte>, objRelocs: seq<ObjReloc>, relocs: seq<ObjReloc>, length: nat) {
    ghost predicate LaidOut(noEpilogues: bool) {
      && |data| <= length && |relocs| == |objRelocs| && Laid(relocs, |relocs|, length)
      && forall i :: 0 <= i < |relocs| ==>
           && objRelocs[i].offset < |data| && objRelocs[i].epilogueOffset == objRelocs[i].epilogueSize == 0
           && Given(objRelocs[i], relocs[i], data, noEpilogues)
    }

    predicate InEpilogue(i: nat, x: int)
      requires i < |relocs|
    {
      start + relocs[i].epilogueOffset <= x < start + relocs[i].epilogueOffset + relocs[i].epilogueSize
    }

    /** One of the function's own bytes, as the compiler left them. */
    predicate InData(x: int) { start <= x < start + |data| }
  }

  /** The functions stand in the section one behind the other. */
  ghost predicate Section(code: seq<byte>, funcs: seq<Func>, noEpilogues: bool) {
    && (forall k :: 0 <= k < |funcs| ==>
          && funcs[k].LaidOut(noEpilogues) && funcs[k].start + funcs[k].length <= |code|
          && code[funcs[k].start..funcs[k].start + |funcs[k].data|] == funcs[k].data)
    && forall k, l :: 0 <= k < l < |funcs| ==> funcs[k].start + funcs[k].length <= funcs[l].start
  }

  /** A text symbol of an object file. */
  datatype TextSymbol = TextSymbol(data: seq<byte>, relocs: seq<ObjReloc>)

  /** Lays out one function after another. */
  method AddTexts(section: TextSection, symbols: seq<TextSymbol>) returns (funcs: seq<Func>)
    requires section.code == []
    requires forall s :: s in symbols ==>
      forall r :: r in s.relocs ==>
        WellPlaced(s.data, r) && r.offset < |s.data| && r.epilogueOffset == r.epilogueSize == 0
    modifies section
    ensures |funcs| == |symbols| && Section(section.code, funcs, section.noRelocationEpilogues)
    ensures forall k :: 0 <= k < |funcs| ==> funcs[k].data == symbols[k].data && funcs[k].objRelocs == symbols[k].relocs
  {
    hide Laid, Given, WellPlaced;
    funcs := [];
    var k := 0;
    while k < |symbols|
      invariant 0 <= k <= |symbols| && |funcs| == k && |section.code| % 8 == 0
      invariant Section(section.code, funcs, section.noRelocationEpilogues)
      invariant forall l :: 0 <= l < k ==> funcs[l].data == symbols[l].data && funcs[l].objRelocs == symbols[l].relocs
    {
      ghost var code := section.code;
      assert symbols[k] in symbols;
      var start, relocs := section.AddText(symbols[k].data, symbols[k].relocs);
      var f := Func(start, symbols[k].data, symbols[k].relocs, relocs, |section.code| - start);
      SectionGrows(code, section.code, funcs, f, section.noRelocationEpilogues);
      funcs := funcs + [f];
      k := k + 1;
    }
  }

  /** A function added behind the others disturbs none of them. */
  lemma SectionGrows(code: seq<byte>, code': seq<byte>, funcs: seq<Func>, f: Func, noEpilogues: bool)
    requires Section(code, funcs, noEpilogues) && f.LaidOut(noEpilogues)
    requires f.start == |code| && code + f.data <= code' && f.length == |code'| - f.start
    ensures Section(code', funcs + [f], noEpilogues)
  {
    hide Laid, Given;
    var all := funcs + [f];
    forall k | 0 <= k < |all|
      ensures code'[all[k].start..all[k].start + |all[k].data|] == all[k].data
    {
      if k < |funcs| {
        assert code'[..|code|] == code;
      } else {
        assert code'[..|code| + |f.data|] == code + f.data;
      }
    }
  }

  // ----- epilogues are apart from everything else -----

  /** An epilogue lies behind its function's bytes and before the next function. */
  lemma EpilogueBehindData(f: Func, i: nat, x: int, noEpilogues: bool)
    requires f.LaidOut(noEpilogues) && i < |f.relocs| && f.InEpilogue(i, x)
    ensures f.start + |f.data| <= x < f.start + f.length && f.relocs[i].epilogueOffset > 0
  {
    hide PcrelSize, CallSize;
    assert Given(f.objRelocs[i], f.relocs[i], f.data, noEpilogues);
  }

  /** In no epilogue of the section. */
  predicate Clear(funcs: seq<Func>, x: int) {
    forall l, j :: 0 <= l < |funcs| && 0 <= j < |funcs[l].relocs| ==> !funcs[l].InEpilogue(j, x)
  }

  lemma DataIsClear(code: seq<byte>, funcs: seq<Func>, noEpilogues: bool, k: nat, x: int)
    requires Section(code, funcs, noEpilogues) && k < |funcs| && funcs[k].InData(x)
    ensures Clear(funcs, x)
  {
    hide Func.LaidOut;
    forall l: nat, j: nat | l < |funcs| && j < |funcs[l].relocs| ensures !funcs[l].InEpilogue(j, x) {
      DataInLength(funcs[k], noEpilogues);
      DataInLength(funcs[l], noEpilogues);
      if funcs[l].InEpilogue(j, x) {
        EpilogueBehindData(funcs[l], j, x, noEpilogues);
      }
    }
  }

  lemma DataInLength(f: Func, noEpilogues: bool)
    requires f.LaidOut(noEpilogues)
    ensures |f.data| <= f.length
  {
  }

  /** Different epilogues share no byte, in one function or across functions. */
  lemma EpiloguesApart(code: seq<byte>, funcs: seq<Func>, noEpilogues: bool, k: nat, i: nat, l: nat, j: nat, x: int)
    requires Section(code, funcs, noEpilogues) && k < |funcs| && l < |funcs| && (k, i) != (l, j)
    requires i < |funcs[k].relocs| && j < |funcs[l].relocs|
    ensures !(funcs[k].InEpilogue(i, x) && funcs[l].InEpilogue(j, x))
  {
    hide Given;
    if funcs[k].InEpilogue(i, x) && funcs[l].InEpilogue(j, x) {
      EpilogueBehindData(funcs[k], i, x, noEpilogues);
      EpilogueBehindData(funcs[l], j, x, noEpilogues);
    }
  }

  // ----- the relocations of the section -----

  /** One relocation to apply: which it is, the instruction pair on arm64, and the resolved address. */
  datatype Use = Use(func: nat, index: nat, pair: A.Kind, add: int, addr: int)

  predicate Names(funcs: seq<Func>, u: Use) {
    u.func < |funcs| && u.index < |funcs[u.func].relocs|
    && Rewritten(funcs[u.func].relocs[u.index].kind, u.pair)
  }

  /** The relocation rewrites an instruction, on arm64 one of the right kind. */
  predicate Rewritten(kind: Kind, pair: A.Kind) {
    match kind
    case Pcrel | Call | CallArm64 => true
    case _ => ReservedFor(kind, pair)
  }

  /** The relocation `relocate` applies for it. */
  function JobOf(funcs: seq<Func>, u: Use): Job
    requires Names(funcs, u)
  {
    JobAt(funcs[u.func], funcs[u.func].relocs[u.index], u)
  }

  function JobAt(f: Func, r: ObjReloc, u: Use): Job
    requires Rewritten(r.kind, u.pair)
  {
    match r.kind
    case Pcrel => Job.Pcrel(PlacedX86(r, f.start, u.add), u.addr)
    case Call => Job.CallTo(PlacedX86(r, f.start, u.add), u.addr)
    case CallArm64 => Job.CallArm64(PlacedArm64(r, u.pair, f.start, u.add), u.addr)
    case _ => Job.Adrp(PlacedArm64(r, u.pair, f.start, u.add), u.addr)
  }

  function Jobs(funcs: seq<Func>, uses: seq<Use>): (jobs: seq<Job>)
    requires forall u :: u in uses ==> Names(funcs, u)
    ensures |jobs| == |uses|
    ensures forall i :: 0 <= i < |uses| ==> Names(funcs, uses[i]) && jobs[i] == JobOf(funcs, uses[i])
  {
    seq(|uses|, i requires 0 <= i < |uses| => assert uses[i] in uses; JobOf(funcs, uses[i]))
  }

  /** Byte `x` belongs to the instruction: what the relocation reads or writes outside its epilogue. */
  predicate InInstruction(code: seq<byte>, job: Job, x: int)
    requires JobReady(code, map[], job)
  {
    match job
    case Pcrel(loc, _) => FX.InSite(X.Classify(X.Original(code, map[], loc)), loc, x)
    case CallTo(loc, _) => loc.offset - 1 <= x < loc.End()
    case Adrp(loc, _) => loc.offset <= x < loc.offset + 8
    case CallArm64(loc, _) => loc.offset <= x < loc.offset + 4
  }

  lemma FootParts(code: seq<byte>, funcs: seq<Func>, u: Use, x: int)
    requires Names(funcs, u) && JobReady(code, map[], JobOf(funcs, u))
    ensures var job := JobOf(funcs, u);
      && (Foot(code, map[], job, x) <==> InInstruction(code, job, x) || funcs[u.func].InEpilogue(u.index, x))
      && InInstruction(code, job, job.Site())
  {
    hide X.Classify, X.Original, X.InBounds, X.Fits, X.CallInBounds, A.InBounds, A.CallInBounds, FX.Ready, FX.CallReady;
  }

  /** The relocations are different ones, each succeeds, and their instructions share no byte with each
      other or with an epilogue. */
  ghost predicate InstructionsApart(code: seq<byte>, funcs: seq<Func>, uses: seq<Use>, base: nat, force: bool) {
    && (forall i :: 0 <= i < |uses| ==>
          && Names(funcs, uses[i]) && var job := JobOf(funcs, uses[i]);
          && JobReady(code, map[], job) && Apply(code, map[], job, base, force).outcome == Done
          && forall x :: InInstruction(code, job, x) ==> Clear(funcs, x))
    && (forall i, j :: 0 <= i < j < |uses| ==>
          (uses[i].func, uses[i].index) != (uses[j].func, uses[j].index) && Disjoint(code, funcs, uses[i], uses[j]))
  }

  ghost predicate Disjoint(code: seq<byte>, funcs: seq<Func>, u: Use, v: Use) {
    Names(funcs, u) && Names(funcs, v)
    && JobReady(code, map[], JobOf(funcs, u)) && JobReady(code, map[], JobOf(funcs, v))
    && forall x :: !(InInstruction(code, JobOf(funcs, u), x) && InInstruction(code, JobOf(funcs, v), x))
  }

  lemma FeetApart(code: seq<byte>, funcs: seq<Func>, noEpilogues: bool, u: Use, v: Use)
    requires Section(code, funcs, noEpilogues) && (u.func, u.index) != (v.func, v.index)
    requires Disjoint(code, funcs, u, v)
    requires forall x :: InInstruction(code, JobOf(funcs, u), x) || InInstruction(code, JobOf(funcs, v), x) ==>
      Clear(funcs, x)
    ensures Apart(code, map[], JobOf(funcs, u), JobOf(funcs, v)) && JobOf(funcs, u).Site() != JobOf(funcs, v).Site()
  {
    hide Section, InInstruction, JobReady, Foot, JobOf, Func.InEpilogue;
    var a, b := JobOf(funcs, u), JobOf(funcs, v);
    forall x ensures !(Foot(code, map[], a, x) && Foot(code, map[], b, x)) {
      FootParts(code, funcs, u, x);
      FootParts(code, funcs, v, x);
      EpiloguesApart(code, funcs, noEpilogues, u.func, u.index, v.func, v.index, x);
    }
    FootParts(code, funcs, u, a.Site());
    FootParts(code, funcs, v, b.Site());
  }

  /** Relocations of a laid-out section whose instructions are apart are separate: the reserved epilogues
      share no byte with anything. */
  lemma SectionIsSeparate(code: seq<byte>, funcs: seq<Func>, noEpilogues: bool, uses: seq<Use>, base: nat, force: bool)
    requires Section(code, funcs, noEpilogues) && InstructionsApart(code, funcs, uses, base, force)
    ensures forall u :: u in uses ==> Names(funcs, u)
    ensures Separate(code, map[], Jobs(funcs, uses), base, force)
  {
    hide Section, InInstruction, JobReady, Apply, JobOf, Apart, Names, Clear;
    var jobs := Jobs(funcs, uses);
    forall i, j | 0 <= i < j < |jobs|
      ensures jobs[i].Site() != jobs[j].Site() && Apart(code, map[], jobs[i], jobs[j])
    {
      FeetApart(code, funcs, noEpilogues, uses[i], uses[j]);
    }
  }

  // ----- any order -----

  lemma TwiceIn<T>(s: seq<T>, i: nat, j: nat)
    requires i < j < |s| && s[i] == s[j]
    ensures multiset(s)[s[i]] >= 2
  {
    assert s == s[..j] + [s[j]] + s[j + 1..];
    assert s[i] in s[..j];
  }

  lemma {:induction false} OnceIn<T>(s: seq<T>, i: nat)
    requires i < |s| && forall j, k :: 0 <= j < k < |s| ==> s[j] != s[k]
    ensures multiset(s)[s[i]] == 1
  {
    var n := |s| - 1;
    assert s == s[..n] + [s[n]];
    if i < n {
      OnceIn(s[..n], i);
    }
  }

  /** Being apart does not depend on the order in which the relocations are listed. */
  lemma ApartInAnyOrder(code: seq<byte>, funcs: seq<Func>, uses: seq<Use>, uses': seq<Use>, base: nat, force: bool)
    requires InstructionsApart(code, funcs, uses, base, force) && multiset(uses) == multiset(uses')
    ensures InstructionsApart(code, funcs, uses', base, force)
  {
    hide Names, InInstruction, JobReady, Apply, JobOf, Clear, Disjoint;
    forall i | 0 <= i < |uses'| ensures uses'[i] in uses {
      assert uses'[i] in multiset(uses');
    }
    forall i: nat, j: nat | i < j < |uses'|
      ensures (uses'[i].func, uses'[i].index) != (uses'[j].func, uses'[j].index)
      ensures Disjoint(code, funcs, uses'[i], uses'[j])
    {
      var k: nat :| k < |uses| && uses[k] == uses'[i];
      var l: nat :| l < |uses| && uses[l] == uses'[j];
      if k == l {
        TwiceIn(uses', i, j);
        OnceIn(uses, k);
      } else if l < k {
        DisjointSymmetric(code, funcs, uses[l], uses[k]);
      }
    }
  }

  lemma DisjointSymmetric(code: seq<byte>, funcs: seq<Func>, u: Use, v: Use)
    requires Disjoint(code, funcs, u, v)
    ensures Disjoint(code, funcs, v, u)
  {
    hide Names, InInstruction, JobReady, JobOf;
  }

  /** The relocations of a laid-out text section may be applied in any order: all orders succeed and end
      in the same code and the same saved bytes. */
  lemma SectionOrderIrrelevant(code: seq<byte>, funcs: seq<Func>, noEpilogues: bool, uses: seq<Use>, uses': seq<Use>,
                               base: nat, force: bool)
    requires Section(code, funcs, noEpilogues) && InstructionsApart(code, funcs, uses, base, force)
    requires multiset(uses) == multiset(uses')
    ensures forall u :: (u in uses ==> Names(funcs, u)) && (u in uses' ==> Names(funcs, u))
    ensures var s, s' := Relocated(code, map[], Jobs(funcs, uses), base, force),
                         Relocated(code, map[], Jobs(funcs, uses'), base, force);
      s.outcome == Done && s == s'
  {
    hide Section, Names, InInstruction, JobReady, Apply, JobOf, Disjoint, Relocated, Separate;
    ApartInAnyOrder(code, funcs, uses, uses', base, force);
    SectionIsSeparate(code, funcs, noEpilogues, uses, base, force);
    SectionIsSeparate(code, funcs, noEpilogues, uses', base, force);
    var jobs, jobs' := Jobs(funcs, uses), Jobs(funcs, uses');
    SameJobs(funcs, uses, uses');
    SameJobs(funcs, uses', uses);
    OrderIrrelevant(code, jobs, jobs', base, force);
  }

  lemma SameJobs(funcs: seq<Func>, uses: seq<Use>, uses': seq<Use>)
    requires forall u :: (u in uses ==> Names(funcs, u)) && (u in uses' ==> Names(funcs, u))
    requires multiset(uses) == multiset(uses')
    ensures forall job :: job in Jobs(funcs, uses) ==> job in Jobs(funcs, uses')
  {
    hide Names, JobOf;
    var jobs, jobs' := Jobs(funcs, uses), Jobs(funcs, uses');
    forall job | job in jobs ensures job in jobs' {
      var i :| 0 <= i < |jobs| && jobs[i] == job;
      assert uses[i] in multiset(uses');
      var k :| 0 <= k < |uses'| && uses'[k] == uses[i];
      assert jobs'[k] == job;
    }
  }

  // ----- when they are apart, and when there is room -----

  /** Instructions that lie in their own functions are clear of all epilogues and of each other, unless
      they overlap in one function. */
  lemma OwnInstructionsApart(code: seq<byte>, funcs: seq<Func>, noEpilogues: bool, u: Use, v: Use)
    requires Section(code, funcs, noEpilogues) && Names(funcs, u) && Names(funcs, v)
    requires JobReady(code, map[], JobOf(funcs, u)) && JobReady(code, map[], JobOf(funcs, v))
    requires forall x :: InInstruction(code, JobOf(funcs, u), x) ==> funcs[u.func].InData(x)
    requires forall x :: InInstruction(code, JobOf(funcs, v), x) ==> funcs[v.func].InData(x)
    ensures forall x :: InInstruction(code, JobOf(funcs, u), x) ==> Clear(funcs, x)
    ensures u.func != v.func ==> Disjoint(code, funcs, u, v)
  {
    hide Func.LaidOut, InInstruction, JobReady, JobOf, Clear;
    forall x | InInstruction(code, JobOf(funcs, u), x) ensures Clear(funcs, x) {
      DataIsClear(code, funcs, noEpilogues, u.func, x);
    }
    if u.func != v.func {
      DataInLength(funcs[u.func], noEpilogues);
      DataInLength(funcs[v.func], noEpilogues);
    }
  }

  /** What the reservation leaves open: a relocation for which it is too small. */
  predicate TooSmall(code: seq<byte>, f: Func, r: ObjReloc)
    requires r.kind == Kind.Pcrel ==> 1 <= r.offset && r.offset + 4 <= |f.data| && 3 <= f.start + r.offset <= |code|
  {
    match r.kind
    case Pcrel =>
      r.epilogueSize > 0
      && Overruns(code[f.start + r.offset - 3], code[f.start + r.offset - 2], f.data, r.offset, r.epilogueOffset)
    case Call => r.epilogueSize > 0 && r.offset < 17 && r.epilogueOffset - (r.offset + 4) >= 120
    case SlotArm64 => r.epilogueSize == 0 && r.offset == 0
    case _ => false
  }

  /** The instruction lies in the function, and the segment has the three bytes `relocatePCREL` reads in
      front of a displacement. */
  predicate InFunction(f: Func, r: ObjReloc) {
    match r.kind
    case Pcrel => 1 <= r.offset && 3 <= f.start + r.offset && r.offset + 4 <= |f.data|
    case Call => 1 <= r.offset && r.offset + 4 <= |f.data|
    case CallArm64 => r.offset + 4 <= |f.data|
    case _ => r.offset + 8 <= |f.data|
  }

  /** Every relocation of the section has the room its rewriting needs, if and only if it is not one of
      those the reservation is too small for. */
  lemma SectionIsReadyIff(code: seq<byte>, funcs: seq<Func>, noEpilogues: bool, u: Use)
    requires Section(code, funcs, noEpilogues) && Names(funcs, u) && |code| < TWO_31
    requires InFunction(funcs[u.func], funcs[u.func].relocs[u.index])
    ensures JobReady(code, map[], JobOf(funcs, u)) <==> !TooSmall(code, funcs[u.func], funcs[u.func].relocs[u.index])
  {
    hide JobAt, JobReady, Laid, TooSmall, PcrelSize, CallSize;
    var f := funcs[u.func];
    var before, r := f.objRelocs[u.index], f.relocs[u.index];
    assert Given(before, r, f.data, noEpilogues);
    EpilogueInBounds(f, u.index, noEpilogues);
    if r == before {
      UnreservedIsReadyIff(code, f, r, u);
    } else {
      var length :| length >= |f.data| && length % 8 == 0 && r == Reserved(length, f.data, before);
      ReservedIsReadyIff(code, f, before, u, length);
    }
  }

  lemma EpilogueInBounds(f: Func, i: nat, noEpilogues: bool)
    requires f.LaidOut(noEpilogues) && i < |f.relocs|
    ensures f.relocs[i].epilogueOffset + f.relocs[i].epilogueSize <= f.length
  {
    hide PcrelSize, CallSize;
    assert Given(f.objRelocs[i], f.relocs[i], f.data, noEpilogues);
  }

  lemma UnreservedIsReadyIff(code: seq<byte>, f: Func, r: ObjReloc, u: Use)
    requires Rewritten(r.kind, u.pair) && InFunction(f, r) && |code| < TWO_31 && f.start + |f.data| <= |code|
    requires r.epilogueOffset == r.epilogueSize == 0
    ensures JobReady(code, map[], JobAt(f, r, u)) <==> !TooSmall(code, f, r)
  {
    hide Overruns, X.EpilogueLength, X.FarCall;
  }

  lemma ReservedIsReadyIff(code: seq<byte>, f: Func, before: ObjReloc, u: Use, length: nat)
    requires Rewritten(before.kind, u.pair) && |code| < TWO_31 && f.start + |f.data| <= |code|
    requires code[f.start..f.start + |f.data|] == f.data && |f.data| <= length && length % 8 == 0
    requires before.epilogueOffset == 0 && InFunction(f, before)
    requires var r := Reserved(length, f.data, before); f.start + r.epilogueOffset + r.epilogueSize <= |code|
    ensures JobReady(code, map[], JobAt(f, Reserved(length, f.data, before), u))
       <==> !TooSmall(code, f, Reserved(length, f.data, before))
  {
    hide JobReady, JobAt, TooSmall, Reserved;
    match before.kind
    case Pcrel => PcrelIsReadyIff(code, f, before, u, length);
    case Call => CallIsReadyIff(code, f, before, u, length);
    case _ => Arm64IsReady(code, f, before, u, length);
  }

  lemma PcrelIsReadyIff(code: seq<byte>, f: Func, before: ObjReloc, u: Use, length: nat)
    requires before.kind == Kind.Pcrel && f.start + |f.data| <= |code|
    requires code[f.start..f.start + |f.data|] == f.data && |f.data| <= length && length % 8 == 0
    requires before.epilogueOffset == 0 && InFunction(f, before)
    requires var r := Reserved(length, f.data, before); f.start + r.epilogueOffset + r.epilogueSize <= |code|
    ensures JobReady(code, map[], JobAt(f, Reserved(length, f.data, before), u))
       <==> !TooSmall(code, f, Reserved(length, f.data, before))
  {
    hide Overruns, FX.Ready, PcrelSize, X.EpilogueLength, SiteBytes;
    ReservedIsReady(code, f.start, f.data, before, length, u.add);
    PcrelFitsIff(f.data, before, length, f.start, u.add, code[f.start + before.offset - 3],
                 code[f.start + before.offset - 2]);
  }

  lemma CallIsReadyIff(code: seq<byte>, f: Func, before: ObjReloc, u: Use, length: nat)
    requires before.kind == Call && |f.data| <= length && before.epilogueOffset == 0 && InFunction(f, before)
    requires var r := Reserved(length, f.data, before); f.start + r.epilogueOffset + r.epilogueSize <= |code|
    ensures JobReady(code, map[], JobAt(f, Reserved(length, f.data, before), u))
       <==> !TooSmall(code, f, Reserved(length, f.data, before))
  {
    hide FX.CallReady;
    ReservedCallIsReady(code, f.start, f.data, before, length, u.add);
  }

  lemma Arm64IsReady(code: seq<byte>, f: Func, before: ObjReloc, u: Use, length: nat)
    requires before.kind == Kind.CallArm64 || ReservedFor(before.kind, u.pair)
    requires |code| < TWO_31 && |f.data| <= length && length % 8 == 0 && f.start + |f.data| <= |code|
    requires InFunction(f, before)
    requires var r := Reserved(length, f.data, before); f.start + r.epilogueOffset + r.epilogueSize <= |code|
    ensures JobReady(code, map[], JobAt(f, Reserved(length, f.data, before), u))
    ensures !TooSmall(code, f, Reserved(length, f.data, before))
  {
    hide LE64;
    Arm64Fits(f.data, before, u.pair, length, 0);
  }
}
