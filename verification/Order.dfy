/** What the order of relocations can change.  `relocate` visits the symbols in map order. */
module Order {
  import opened Bytes
  import opened Patching
  import X = RelocX86
  import FX = FrameX86
  import A = RelocArm64
  import FA = FrameArm64

  // ----- many relocations -----

  /** One relocation with its resolved address. */
  datatype Job =
    | Pcrel(pc: X.Reloc, addr: int)
    | CallTo(call: X.Reloc, addr: int)
    | Adrp(pair: A.Reloc, addr: int)
    | CallArm64(bl: A.Reloc, addr: int)
  {
    /** Where the site is; the linker saves original bytes under it. */
    function Site(): nat {
      match this
      case Pcrel(loc, _) => loc.offset
      case CallTo(loc, _) => loc.offset
      case Adrp(loc, _) => loc.offset
      case CallArm64(loc, _) => loc.offset
    }
  }

  predicate JobReady(code: seq<byte>, saved: map<nat, seq<byte>>, job: Job) {
    match job
    case Pcrel(loc, _) => FX.Ready(code, saved, loc)
    case CallTo(loc, _) => FX.CallReady(code, loc)
    case Adrp(loc, _) => A.InBounds(code, saved, loc)
    case CallArm64(loc, _) => A.CallInBounds(code, loc)
  }

  function Apply(code: seq<byte>, saved: map<nat, seq<byte>>, job: Job, base: nat, force: bool): (s: State)
    requires JobReady(code, saved, job)
    ensures |s.code| == |code|
  {
    match job
    case Pcrel(loc, addr) => X.RelocatedPCREL(code, saved, loc, addr, base, force)
    case CallTo(loc, addr) =>
      var (code', outcome) := X.RelocatedCALL(code, loc, addr, base, force);
      State(code', saved, outcome)
    case Adrp(loc, addr) => A.RelocatedADRP(code, saved, loc, addr, base, force)
    case CallArm64(loc, addr) =>
      var (code', outcome) := A.RelocatedCALL(code, loc, addr, base, force);
      State(code', saved, outcome)
  }

  /** Byte `i` belongs to the job's site or epilogue. */
  predicate Foot(code: seq<byte>, saved: map<nat, seq<byte>>, job: Job, i: int)
    requires JobReady(code, saved, job)
  {
    match job
    case Pcrel(loc, _) => FX.InFoot(X.Classify(X.Original(code, saved, loc)), loc, i)
    case CallTo(loc, _) => FX.InCallFoot(loc, i)
    case Adrp(loc, _) => FA.InPairFoot(loc, i)
    case CallArm64(loc, _) => FA.InCallFoot(loc, i)
  }

  /** The relocations one after another, stopping at the first error, as `relocate` does. */
  function Relocated(code: seq<byte>, saved: map<nat, seq<byte>>, jobs: seq<Job>, base: nat, force: bool): (s: State)
    ensures |s.code| == |code|
    decreases |jobs|
  {
    if jobs == [] then State(code, saved, Done)
    else if !JobReady(code, saved, jobs[0]) then State(code, saved, Failed(NoEpilogue))
    else
      var s := Apply(code, saved, jobs[0], base, force);
      if s.outcome != Done then s else Relocated(s.code, s.saved, jobs[1..], base, force)
  }

  /** A relocation changes nothing outside its foot. */
  lemma ApplyFrame(code: seq<byte>, saved: map<nat, seq<byte>>, job: Job, base: nat, force: bool)
    requires JobReady(code, saved, job)
    ensures forall i :: 0 <= i < |code| && !Foot(code, saved, job, i) ==>
      Apply(code, saved, job, base, force).code[i] == code[i]
  {
    hide X.RelocatedPCREL, X.RelocatedCALL, A.RelocatedADRP, A.RelocatedCALL, X.Classify, X.Original, A.Original,
      FX.InFoot, FX.InCallFoot, FA.InPairFoot, FA.InCallFoot;
    forall i: nat | i < |code| && !Foot(code, saved, job, i)
      ensures Apply(code, saved, job, base, force).code[i] == code[i]
    {
      match job
      case Pcrel(loc, addr) => FX.PcrelFrame(code, saved, loc, addr, base, force, i);
      case CallTo(loc, addr) => FX.CallFrame(code, loc, addr, base, force, i);
      case Adrp(loc, addr) => FA.AdrpAt(code, code, saved, saved, loc, addr, base, force, i);
      case CallArm64(loc, addr) => FA.CallAt(code, code, loc, addr, base, force, i);
    }
  }

  /** Inside its foot a relocation depends on the bytes of its foot only. */
  lemma ApplyLocal(code: seq<byte>, saved: map<nat, seq<byte>>, code2: seq<byte>, saved2: map<nat, seq<byte>>,
                   job: Job, base: nat, force: bool)
    requires JobReady(code, saved, job) && |code2| == |code|
    requires job.Site() !in saved && job.Site() !in saved2
    requires forall k :: 0 <= k < |code| && Foot(code, saved, job, k) ==> code[k] == code2[k]
    ensures JobReady(code2, saved2, job)
    ensures forall k :: Foot(code2, saved2, job, k) <==> Foot(code, saved, job, k)
    ensures Apply(code2, saved2, job, base, force).outcome == Apply(code, saved, job, base, force).outcome
    ensures forall i :: 0 <= i < |code| && Foot(code, saved, job, i) ==>
      Apply(code2, saved2, job, base, force).code[i] == Apply(code, saved, job, base, force).code[i]
  {
    hide X.RelocatedPCREL, X.RelocatedCALL, A.RelocatedADRP, A.RelocatedCALL, X.Classify, X.Original;
    LocalAt(code, saved, code2, saved2, job, base, force, job.Site());
    forall i: nat | i < |code| && Foot(code, saved, job, i)
      ensures Apply(code2, saved2, job, base, force).code[i] == Apply(code, saved, job, base, force).code[i]
    {
      LocalAt(code, saved, code2, saved2, job, base, force, i);
    }
  }

  lemma LocalAt(code: seq<byte>, saved: map<nat, seq<byte>>, code2: seq<byte>, saved2: map<nat, seq<byte>>,
                job: Job, base: nat, force: bool, i: nat)
    requires JobReady(code, saved, job) && |code2| == |code| && i < |code| && Foot(code, saved, job, i)
    requires job.Site() !in saved && job.Site() !in saved2
    requires forall k :: 0 <= k < |code| && Foot(code, saved, job, k) ==> code[k] == code2[k]
    ensures JobReady(code2, saved2, job)
    ensures forall k :: Foot(code2, saved2, job, k) <==> Foot(code, saved, job, k)
    ensures Apply(code2, saved2, job, base, force).outcome == Apply(code, saved, job, base, force).outcome
    ensures Apply(code2, saved2, job, base, force).code[i] == Apply(code, saved, job, base, force).code[i]
  {
    hide X.RelocatedPCREL, X.RelocatedCALL, A.RelocatedADRP, A.RelocatedCALL, X.Classify;
    match job
    case Pcrel(loc, addr) =>
      forall k | 0 <= k < |code| && FX.InFoot(X.Classify(X.Original(code, saved, loc)), loc, k)
        ensures code[k] == code2[k]
      {
        assert Foot(code, saved, job, k);
      }
      FX.PcrelLocal(code, code2, saved, saved2, loc, addr, base, force, i);
    case CallTo(loc, addr) =>
      FX.CallLocal(code, code2, loc, addr, base, force, i);
    case Adrp(loc, addr) =>
      assert forall k :: loc.offset <= k < loc.offset + 8 ==> Foot(code, saved, job, k);
      assert code[loc.offset..loc.offset + 8] == code2[loc.offset..loc.offset + 8];
      FA.AdrpAt(code, code2, saved, saved2, loc, addr, base, force, i);
    case CallArm64(loc, addr) =>
      assert forall k :: loc.offset <= k < loc.offset + 4 ==> Foot(code, saved, job, k);
      assert code[loc.offset..loc.offset + 4] == code2[loc.offset..loc.offset + 4];
      FA.CallAt(code, code2, loc, addr, base, force, i);
  }

  // ----- order -----

  /** The relocations concern different sites, have room, succeed, and share no byte. */
  ghost predicate Separate(code: seq<byte>, saved: map<nat, seq<byte>>, jobs: seq<Job>, base: nat, force: bool) {
    && (forall j :: 0 <= j < |jobs| ==>
          JobReady(code, saved, jobs[j]) && jobs[j].Site() !in saved
          && Apply(code, saved, jobs[j], base, force).outcome == Done)
    && (forall j, k :: 0 <= j < k < |jobs| ==>
          jobs[j].Site() != jobs[k].Site() && Apart(code, saved, jobs[j], jobs[k]))
  }

  ghost predicate Apart(code: seq<byte>, saved: map<nat, seq<byte>>, a: Job, b: Job) {
    JobReady(code, saved, a) && JobReady(code, saved, b)
    && forall i :: !(Foot(code, saved, a, i) && Foot(code, saved, b, i))
  }

  /** After one of them, the others are as they were. */
  lemma SeparateAfter(code: seq<byte>, saved: map<nat, seq<byte>>, jobs: seq<Job>, base: nat, force: bool)
    requires |jobs| > 0 && Separate(code, saved, jobs, base, force)
    ensures var s := Apply(code, saved, jobs[0], base, force);
      && Separate(s.code, s.saved, jobs[1..], base, force)
      && forall j :: 1 <= j < |jobs| ==>
           JobReady(s.code, s.saved, jobs[j])
           && (forall k :: Foot(s.code, s.saved, jobs[j], k) <==> Foot(code, saved, jobs[j], k))
           && (forall i :: 0 <= i < |code| && Foot(code, saved, jobs[j], i) ==>
                 Apply(s.code, s.saved, jobs[j], base, force).code[i]
                 == Apply(code, saved, jobs[j], base, force).code[i])
  {
    hide JobReady, Foot, Apply;
    var s := Apply(code, saved, jobs[0], base, force);
    ApplyFrame(code, saved, jobs[0], base, force);
    SavedAfter(code, saved, jobs[0], base, force);
    forall j | 1 <= j < |jobs|
      ensures JobReady(s.code, s.saved, jobs[j])
      ensures forall k :: Foot(s.code, s.saved, jobs[j], k) <==> Foot(code, saved, jobs[j], k)
      ensures Apply(s.code, s.saved, jobs[j], base, force).outcome == Done
      ensures forall i :: 0 <= i < |code| && Foot(code, saved, jobs[j], i) ==>
        Apply(s.code, s.saved, jobs[j], base, force).code[i] == Apply(code, saved, jobs[j], base, force).code[i]
    {
      assert Apart(code, saved, jobs[0], jobs[j]);
      ApplyLocal(code, saved, s.code, s.saved, jobs[j], base, force);
    }
    forall j, k | 1 <= j < k < |jobs| ensures Apart(s.code, s.saved, jobs[j], jobs[k]) {
      assert Apart(code, saved, jobs[j], jobs[k]);
    }
  }

  lemma SavedAfter(code: seq<byte>, saved: map<nat, seq<byte>>, job: Job, base: nat, force: bool)
    requires JobReady(code, saved, job)
    ensures forall k :: k in Apply(code, saved, job, base, force).saved ==> k in saved || k == job.Site()
  {
    hide LE32, X.IsFar, X.RelocatedFar, X.RelocatedCALL, X.Reset, A.IsFar, A.RelocatedCALL, A.Reset, A.NearPatched,
      A.FarPatched, A.NearOutcome;
  }

  /** Byte `i` of the result is written by the one job whose foot it lies in, as if that job had
      run alone; otherwise it is the original byte. */
  ghost predicate WrittenBy(code: seq<byte>, saved: map<nat, seq<byte>>, jobs: seq<Job>, base: nat, force: bool,
                            i: nat, v: byte)
    requires i < |code| && Separate(code, saved, jobs, base, force)
  {
    if exists j :: 0 <= j < |jobs| && Foot(code, saved, jobs[j], i) then
      exists j :: 0 <= j < |jobs| && Foot(code, saved, jobs[j], i)
               && v == Apply(code, saved, jobs[j], base, force).code[i]
    else v == code[i]
  }

  lemma {:induction false} SeparateSucceed(code: seq<byte>, saved: map<nat, seq<byte>>, jobs: seq<Job>,
                                           base: nat, force: bool)
    requires Separate(code, saved, jobs, base, force)
    ensures Relocated(code, saved, jobs, base, force).outcome == Done
    decreases |jobs|
  {
    hide JobReady, Foot, Apply;
    if jobs != [] {
      var s := Apply(code, saved, jobs[0], base, force);
      SeparateAfter(code, saved, jobs, base, force);
      SeparateSucceed(s.code, s.saved, jobs[1..], base, force);
    }
  }

  lemma {:induction false} RelocatedBytes(code: seq<byte>, saved: map<nat, seq<byte>>, jobs: seq<Job>,
                                          base: nat, force: bool, i: nat)
    requires Separate(code, saved, jobs, base, force) && i < |code|
    ensures var s := Relocated(code, saved, jobs, base, force);
      WrittenBy(code, saved, jobs, base, force, i, s.code[i])
    decreases |jobs|
  {
    hide JobReady, Foot, Apply;
    if jobs != [] {
      var s1 := Apply(code, saved, jobs[0], base, force);
      SeparateAfter(code, saved, jobs, base, force);
      RelocatedBytes(s1.code, s1.saved, jobs[1..], base, force, i);
      ApplyFrame(code, saved, jobs[0], base, force);
      var s := Relocated(code, saved, jobs, base, force);
      var rest := jobs[1..];
      if j :| 0 <= j < |rest| && Foot(s1.code, s1.saved, rest[j], i) {
        var k :| 0 <= k < |rest| && Foot(s1.code, s1.saved, rest[k], i)
              && s.code[i] == Apply(s1.code, s1.saved, rest[k], base, force).code[i];
        assert rest[k] == jobs[k + 1];
        assert Foot(code, saved, jobs[k + 1], i);
      } else {
        forall j | 1 <= j < |jobs| ensures !Foot(code, saved, jobs[j], i) {
          assert rest[j - 1] == jobs[j];
        }
        if Foot(code, saved, jobs[0], i) {
        }
      }
    }
  }

  /** R_CALL sites are not saved; the others save the bytes they found. */
  predicate Saves(job: Job) { job.Pcrel? || job.Adrp? }

  function SavedBytes(code: seq<byte>, saved: map<nat, seq<byte>>, job: Job): seq<byte>
    requires Saves(job) && JobReady(code, saved, job)
  {
    match job
    case Pcrel(loc, _) => X.Original(code, saved, loc)
    case Adrp(loc, _) => A.Original(code, saved, loc)
  }

  lemma ApplySaves(code: seq<byte>, saved: map<nat, seq<byte>>, job: Job, base: nat, force: bool)
    requires JobReady(code, saved, job)
    ensures Apply(code, saved, job, base, force).saved
         == if Saves(job) then saved[job.Site() := SavedBytes(code, saved, job)] else saved
  {
    hide LE32, X.IsFar, X.RelocatedFar, X.RelocatedCALL, X.Reset, A.IsFar, A.RelocatedCALL, A.Reset, A.NearPatched,
      A.FarPatched, A.NearOutcome, X.Original, A.Original;
  }

  lemma SameSavedBytes(code: seq<byte>, saved: map<nat, seq<byte>>, code2: seq<byte>, saved2: map<nat, seq<byte>>,
                       job: Job)
    requires Saves(job) && JobReady(code, saved, job) && JobReady(code2, saved2, job) && |code2| == |code|
    requires job.Site() !in saved && job.Site() !in saved2
    requires forall k :: 0 <= k < |code| && Foot(code, saved, job, k) ==> code[k] == code2[k]
    ensures SavedBytes(code2, saved2, job) == SavedBytes(code, saved, job)
  {
    hide X.Fits, X.Classify;
    match job
    case Pcrel(loc, _) =>
      assert forall k :: loc.offset - 2 <= k < loc.End() ==> Foot(code, saved, job, k);
      assert code2[loc.offset - 2..loc.End()] == code[loc.offset - 2..loc.End()];
    case Adrp(loc, _) =>
      assert forall k :: loc.offset <= k < loc.offset + 8 ==> Foot(code, saved, job, k);
      assert code2[loc.offset..loc.offset + 8] == code[loc.offset..loc.offset + 8];
  }

  /** The saved bytes at `k` are those its relocation found, as if it had run alone. */
  ghost predicate SavedBy(code: seq<byte>, saved: map<nat, seq<byte>>, jobs: seq<Job>, base: nat, force: bool,
                          k: nat, saved': map<nat, seq<byte>>)
    requires Separate(code, saved, jobs, base, force)
  {
    && (k in saved' <==> k in saved || exists j :: 0 <= j < |jobs| && Saves(jobs[j]) && jobs[j].Site() == k)
    && (k in saved && k in saved' ==> saved'[k] == saved[k])
    && (forall j :: 0 <= j < |jobs| && Saves(jobs[j]) && jobs[j].Site() == k && k in saved' ==>
          saved'[k] == SavedBytes(code, saved, jobs[j]))
  }

  lemma {:induction false} RelocatedSaved(code: seq<byte>, saved: map<nat, seq<byte>>, jobs: seq<Job>,
                                          base: nat, force: bool, k: nat)
    requires Separate(code, saved, jobs, base, force)
    ensures SavedBy(code, saved, jobs, base, force, k, Relocated(code, saved, jobs, base, force).saved)
    decreases |jobs|
  {
    hide JobReady, Foot, Apply, Apart, SavedBytes, Saves;
    if jobs != [] {
      var s := Apply(code, saved, jobs[0], base, force);
      var rest := jobs[1..];
      SeparateAfter(code, saved, jobs, base, force);
      RelocatedSaved(s.code, s.saved, rest, base, force, k);
      ApplySaves(code, saved, jobs[0], base, force);
      forall j | 1 <= j < |jobs| && Saves(jobs[j])
        ensures SavedBytes(s.code, s.saved, jobs[j]) == SavedBytes(code, saved, jobs[j]) {
        OthersSaved(code, saved, jobs, base, force, j);
      }
      assert forall j :: 1 <= j < |jobs| ==> rest[j - 1] == jobs[j];
      if j :| 0 <= j < |jobs| && Saves(jobs[j]) && jobs[j].Site() == k {
        assert j > 0 ==> rest[j - 1] == jobs[j];
      }
    }
  }

  lemma OthersSaved(code: seq<byte>, saved: map<nat, seq<byte>>, jobs: seq<Job>, base: nat, force: bool, j: nat)
    requires Separate(code, saved, jobs, base, force) && 1 <= j < |jobs| && Saves(jobs[j])
    ensures var s := Apply(code, saved, jobs[0], base, force);
      JobReady(s.code, s.saved, jobs[j]) && SavedBytes(s.code, s.saved, jobs[j]) == SavedBytes(code, saved, jobs[j])
  {
    hide JobReady, Foot, Apply, SavedBytes, Saves;
    var s := Apply(code, saved, jobs[0], base, force);
    SeparateAfter(code, saved, jobs, base, force);
    ApplyFrame(code, saved, jobs[0], base, force);
    SavedAfter(code, saved, jobs[0], base, force);
    assert Apart(code, saved, jobs[0], jobs[j]);
    SameSavedBytes(code, saved, s.code, s.saved, jobs[j]);
  }

  /** The final code, and what is saved, do not depend on the order in which separate relocations are
      applied. */
  lemma OrderIrrelevant(code: seq<byte>, jobs: seq<Job>, jobs': seq<Job>, base: nat, force: bool)
    requires Separate(code, map[], jobs, base, force) && Separate(code, map[], jobs', base, force)
    requires forall job :: job in jobs <==> job in jobs'
    ensures Relocated(code, map[], jobs, base, force).outcome == Done
    ensures Relocated(code, map[], jobs', base, force).outcome == Done
    ensures Relocated(code, map[], jobs, base, force) == Relocated(code, map[], jobs', base, force)
  {
    hide JobReady, Foot, Apply, Relocated, SavedBy, WrittenBy, Separate;
    var r, r' := Relocated(code, map[], jobs, base, force), Relocated(code, map[], jobs', base, force);
    SeparateSucceed(code, map[], jobs, base, force);
    SeparateSucceed(code, map[], jobs', base, force);
    forall i: nat | i < |code| ensures r.code[i] == r'.code[i] {
      RelocatedBytes(code, map[], jobs, base, force, i);
      RelocatedBytes(code, map[], jobs', base, force, i);
      SameWriter(code, jobs, jobs', base, force, i, r.code[i], r'.code[i]);
    }
    forall k: nat ensures (k in r.saved <==> k in r'.saved) && (k in r.saved ==> r.saved[k] == r'.saved[k]) {
      RelocatedSaved(code, map[], jobs, base, force, k);
      RelocatedSaved(code, map[], jobs', base, force, k);
      SameSaver(code, jobs, jobs', base, force, k, r.saved, r'.saved);
    }
    assert r.saved == r'.saved;
  }

  lemma SameSaver(code: seq<byte>, jobs: seq<Job>, jobs': seq<Job>, base: nat, force: bool, k: nat,
                  saved: map<nat, seq<byte>>, saved': map<nat, seq<byte>>)
    requires Separate(code, map[], jobs, base, force) && Separate(code, map[], jobs', base, force)
    requires forall job :: job in jobs <==> job in jobs'
    requires SavedBy(code, map[], jobs, base, force, k, saved) && SavedBy(code, map[], jobs', base, force, k, saved')
    ensures (k in saved <==> k in saved') && (k in saved ==> saved[k] == saved'[k])
  {
    hide JobReady, Foot, Apply, Apart, SavedBytes, Saves;
    SaverListed(jobs, jobs', k);
    SaverListed(jobs', jobs, k);
    if j :| 0 <= j < |jobs| && Saves(jobs[j]) && jobs[j].Site() == k {
      assert jobs[j] in jobs';
    }
  }

  lemma SaverListed(jobs: seq<Job>, jobs': seq<Job>, k: nat)
    requires forall job :: job in jobs ==> job in jobs'
    ensures (exists j :: 0 <= j < |jobs| && Saves(jobs[j]) && jobs[j].Site() == k) ==>
            exists j :: 0 <= j < |jobs'| && Saves(jobs'[j]) && jobs'[j].Site() == k
  {
    hide Saves;
    if j :| 0 <= j < |jobs| && Saves(jobs[j]) && jobs[j].Site() == k {
      assert jobs[j] in jobs';
    }
  }

  lemma OneFoot(code: seq<byte>, saved: map<nat, seq<byte>>, jobs: seq<Job>, base: nat, force: bool,
                b: nat, c: nat, i: int)
    requires Separate(code, saved, jobs, base, force) && b < |jobs| && c < |jobs|
    requires Foot(code, saved, jobs[b], i) && Foot(code, saved, jobs[c], i)
    ensures b == c
  {
    hide JobReady, Foot, Apply;
  }

  lemma SameWriter(code: seq<byte>, jobs: seq<Job>, jobs': seq<Job>, base: nat, force: bool, i: nat, v: byte, v': byte)
    requires Separate(code, map[], jobs, base, force) && Separate(code, map[], jobs', base, force) && i < |code|
    requires forall job :: job in jobs <==> job in jobs'
    requires WrittenBy(code, map[], jobs, base, force, i, v) && WrittenBy(code, map[], jobs', base, force, i, v')
    ensures v == v'
  {
    hide JobReady, Foot, Apply;
    if j :| 0 <= j < |jobs| && Foot(code, map[], jobs[j], i) {
      var a :| 0 <= a < |jobs| && Foot(code, map[], jobs[a], i)
            && v == Apply(code, map[], jobs[a], base, force).code[i];
      assert jobs[a] in jobs';
      var b :| 0 <= b < |jobs'| && jobs'[b] == jobs[a];
      var c :| 0 <= c < |jobs'| && Foot(code, map[], jobs'[c], i)
            && v' == Apply(code, map[], jobs'[c], base, force).code[i];
      OneFoot(code, map[], jobs', base, force, b, c, i);
    } else {
      forall k | 0 <= k < |jobs'| ensures !Foot(code, map[], jobs'[k], i) {
        assert jobs'[k] in jobs;
      }
    }
  }

  /** Every relocation that is reached has its bytes and its room. */
  predicate Runnable(code: seq<byte>, saved: map<nat, seq<byte>>, jobs: seq<Job>, base: nat, force: bool)
    decreases |jobs|
  {
    jobs == []
    || (JobReady(code, saved, jobs[0])
        && var s := Apply(code, saved, jobs[0], base, force);
           s.outcome == Done ==> Runnable(s.code, s.saved, jobs[1..], base, force))
  }

  /** Separate relocations are all reached and all have room. */
  lemma {:induction false} SeparateRunnable(code: seq<byte>, saved: map<nat, seq<byte>>, jobs: seq<Job>,
                                            base: nat, force: bool)
    requires Separate(code, saved, jobs, base, force)
    ensures Runnable(code, saved, jobs, base, force)
    decreases |jobs|
  {
    hide JobReady, Foot, Apply;
    if jobs != [] {
      var s := Apply(code, saved, jobs[0], base, force);
      SeparateAfter(code, saved, jobs, base, force);
      SeparateRunnable(s.code, s.saved, jobs[1..], base, force);
    }
  }

  /** The relocation loop on amd64, over resolved relocations in any order. */
  method RelocateAmd64(r: X.Relocator, jobs: seq<Job>) returns (outcome: Outcome)
    requires forall job :: job in jobs ==> job.Pcrel? || job.CallTo?
    requires Runnable(r.codeByte[..], r.appliedPCRelRelocs, jobs, r.codeBase, r.forceTestRelocationEpilogues)
    modifies r, r.codeByte
    ensures State(r.codeByte[..], r.appliedPCRelRelocs, outcome)
         == Relocated(old(r.codeByte[..]), old(r.appliedPCRelRelocs), jobs, r.codeBase,
                      r.forceTestRelocationEpilogues)
  {
    hide Apply, Foot;
    outcome := Done;
    var i := 0;
    while i < |jobs|
      invariant 0 <= i <= |jobs| && outcome == Done
      invariant Runnable(r.codeByte[..], r.appliedPCRelRelocs, jobs[i..], r.codeBase, r.forceTestRelocationEpilogues)
      invariant Relocated(r.codeByte[..], r.appliedPCRelRelocs, jobs[i..], r.codeBase, r.forceTestRelocationEpilogues)
             == Relocated(old(r.codeByte[..]), old(r.appliedPCRelRelocs), jobs, r.codeBase,
                          r.forceTestRelocationEpilogues)
    {
      ghost var code, saved := r.codeByte[..], r.appliedPCRelRelocs;
      assert jobs[i..][0] == jobs[i] && jobs[i..][1..] == jobs[i + 1..] && jobs[i] in jobs;
      ApplyAmd64(code, saved, jobs[i], r.codeBase, r.forceTestRelocationEpilogues);
      match jobs[i] {
        case Pcrel(loc, addr) => outcome := r.RelocatePCREL(addr, loc);
        case CallTo(loc, addr) => outcome := r.RelocateCALL(addr, loc);
      }
      if outcome != Done {
        return;
      }
      i := i + 1;
    }
  }

  lemma ApplyAmd64(code: seq<byte>, saved: map<nat, seq<byte>>, job: Job, base: nat, force: bool)
    requires JobReady(code, saved, job)
    ensures job.Pcrel? ==>
      Apply(code, saved, job, base, force) == X.RelocatedPCREL(code, saved, job.pc, job.addr, base, force)
    ensures job.CallTo? ==>
      var (code', outcome) := X.RelocatedCALL(code, job.call, job.addr, base, force);
      Apply(code, saved, job, base, force) == State(code', saved, outcome)
  {
    hide X.RelocatedPCREL, X.RelocatedCALL;
  }

  /** The relocation loop on arm64. */
  method RelocateArm64(r: A.Relocator, jobs: seq<Job>) returns (outcome: Outcome)
    requires forall job :: job in jobs ==> job.Adrp? || job.CallArm64?
    requires Runnable(r.codeByte[..], r.appliedADRPRelocs, jobs, r.codeBase, r.forceTestRelocationEpilogues)
    modifies r, r.codeByte
    ensures State(r.codeByte[..], r.appliedADRPRelocs, outcome)
         == Relocated(old(r.codeByte[..]), old(r.appliedADRPRelocs), jobs, r.codeBase,
                      r.forceTestRelocationEpilogues)
  {
    hide Apply, Foot;
    outcome := Done;
    var i := 0;
    while i < |jobs|
      invariant 0 <= i <= |jobs| && outcome == Done
      invariant Runnable(r.codeByte[..], r.appliedADRPRelocs, jobs[i..], r.codeBase, r.forceTestRelocationEpilogues)
      invariant Relocated(r.codeByte[..], r.appliedADRPRelocs, jobs[i..], r.codeBase, r.forceTestRelocationEpilogues)
             == Relocated(old(r.codeByte[..]), old(r.appliedADRPRelocs), jobs, r.codeBase,
                          r.forceTestRelocationEpilogues)
    {
      ghost var code, saved := r.codeByte[..], r.appliedADRPRelocs;
      assert jobs[i..][0] == jobs[i] && jobs[i..][1..] == jobs[i + 1..] && jobs[i] in jobs;
      ApplyArm64(code, saved, jobs[i], r.codeBase, r.forceTestRelocationEpilogues);
      match jobs[i] {
        case Adrp(loc, addr) => outcome := r.RelocateADRP(loc, addr);
        case CallArm64(loc, addr) => outcome := r.RelocateCALLARM64(addr, loc);
      }
      if outcome != Done {
        return;
      }
      i := i + 1;
    }
  }

  lemma ApplyArm64(code: seq<byte>, saved: map<nat, seq<byte>>, job: Job, base: nat, force: bool)
    requires JobReady(code, saved, job)
    ensures job.Adrp? ==>
      Apply(code, saved, job, base, force) == A.RelocatedADRP(code, saved, job.pair, job.addr, base, force)
    ensures job.CallArm64? ==>
      var (code', outcome) := A.RelocatedCALL(code, job.bl, job.addr, base, force);
      Apply(code, saved, job, base, force) == State(code', saved, outcome)
  {
    hide A.RelocatedADRP, A.RelocatedCALL;
  }

  /** Two relocations in a row, the first of which succeeds. */
  lemma RelocatedTwo(code: seq<byte>, saved: map<nat, seq<byte>>, x: Job, y: Job, base: nat, force: bool)
    requires JobReady(code, saved, x)
    requires var s := Apply(code, saved, x, base, force);
      s.outcome == Done && JobReady(s.code, s.saved, y)
    ensures var s := Apply(code, saved, x, base, force);
      Relocated(code, saved, [x, y], base, force) == Apply(s.code, s.saved, y, base, force)
  {
    hide JobReady, Apply;
    var s := Apply(code, saved, x, base, force);
    var t := Apply(s.code, s.saved, y, base, force);
    assert [x, y][1..] == [y] && [y][1..] == [];
    assert Relocated(s.code, s.saved, [y], base, force) == t by {
      assert t.outcome == Done ==> Relocated(t.code, t.saved, [], base, force) == t;
    }
  }
}
