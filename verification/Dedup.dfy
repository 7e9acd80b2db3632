/** ld.go, type deduplication: after all relocations have been applied, some sites are relocated again, to
    the address of the type that is kept.  Only the kinds that save their original bytes are. */
module Dedup {
  import opened Bytes
  import opened Patching
  import opened Order
  import X = RelocX86
  import FX = FrameX86
  import A = RelocArm64
  import FA = FrameArm64

  /** A relocation to be applied again, with its new address. */
  datatype Again = Again(index: nat, addr: int)

  function Readdressed(job: Job, addr: int): Job { job.(addr := addr) }

  /** Every relocation with the last address it is given. */
  function Latest(jobs: seq<Job>, again: seq<Again>): (r: seq<Job>)
    requires forall a :: a in again ==> a.index < |jobs|
    ensures |r| == |jobs|
    decreases |again|
  {
    if again == [] then jobs
    else Latest(jobs[again[0].index := Readdressed(jobs[again[0].index], again[0].addr)], again[1..])
  }

  /** The relocations applied again, one after the other. */
  function Reapplied(s: State, jobs: seq<Job>, again: seq<Again>, base: nat, force: bool): State
    requires forall a :: a in again ==> a.index < |jobs|
    decreases |again|
  {
    if again == [] || s.outcome != Done then s
    else
      var job := Readdressed(jobs[again[0].index], again[0].addr);
      if !JobReady(s.code, s.saved, job) then s.(outcome := Failed(NoEpilogue))
      else Reapplied(Apply(s.code, s.saved, job, base, force), jobs, again[1..], base, force)
  }

  /** The site can be reset: its original bytes are saved, and no far CMPL lost its immediate. */
  predicate Resets(code: seq<byte>, job: Job, base: nat, force: bool)
    requires JobReady(code, map[], job)
  {
    match job
    case Pcrel(loc, addr) => !FX.LosesImmediate(code, map[], loc, addr, base, force)
    case Adrp(_, _) => true
    case _ => false
  }

  /** Each relocation applied again could be reset when it was applied before, and succeeds alone. */
  ghost predicate CanReapply(code: seq<byte>, jobs: seq<Job>, again: seq<Again>, base: nat, force: bool)
    requires forall a :: a in again ==> a.index < |jobs|
    decreases |again|
  {
    again == []
    || var job := jobs[again[0].index];
       var job' := Readdressed(job, again[0].addr);
       && JobReady(code, map[], job) && Resets(code, job, base, force)
       && JobReady(code, map[], job') && Apply(code, map[], job', base, force).outcome == Done
       && CanReapply(code, jobs[again[0].index := job'], again[1..], base, force)
  }

  // ----- the last relocation of a list -----

  lemma {:induction false} RelocatedSnoc(code: seq<byte>, saved: map<nat, seq<byte>>, jobs: seq<Job>, x: Job,
                                         base: nat, force: bool)
    requires var s := Relocated(code, saved, jobs, base, force); s.outcome == Done && JobReady(s.code, s.saved, x)
    ensures var s := Relocated(code, saved, jobs, base, force);
      Relocated(code, saved, jobs + [x], base, force) == Apply(s.code, s.saved, x, base, force)
    decreases |jobs|
  {
    hide JobReady, Apply;
    var all := jobs + [x];
    if jobs == [] {
      var t := Apply(code, saved, x, base, force);
      assert all == [x] && all[1..] == [];
      assert t.outcome == Done ==> Relocated(t.code, t.saved, [], base, force) == t;
    } else {
      var t := Apply(code, saved, jobs[0], base, force);
      RelocatedSnoc(t.code, t.saved, jobs[1..], x, base, force);
      assert all[1..] == jobs[1..] + [x];
    }
  }

  /** Separate relocations without one of them are separate, and so they are with it at the end. */
  lemma MovedToEnd(code: seq<byte>, jobs: seq<Job>, i: nat, x: Job, base: nat, force: bool)
    requires Separate(code, map[], jobs, base, force) && i < |jobs| && SamePlace(code, jobs[i], x)
    requires Apply(code, map[], x, base, force).outcome == Done
    ensures var rest := jobs[..i] + jobs[i + 1..];
      Separate(code, map[], rest, base, force) && Separate(code, map[], rest + [x], base, force)
    ensures Separate(code, map[], jobs[i := x], base, force)
    ensures var updated, moved := jobs[i := x], jobs[..i] + jobs[i + 1..] + [x];
      forall job :: job in updated <==> job in moved
  {
    hide JobReady, Foot, Apply;
    var rest, updated := jobs[..i] + jobs[i + 1..], jobs[i := x];
    forall j, k | 0 <= j < k < |rest|
      ensures rest[j].Site() != rest[k].Site() && Apart(code, map[], rest[j], rest[k])
    {
      var j', k' := if j < i then j else j + 1, if k < i then k else k + 1;
      assert rest[j] == jobs[j'] && rest[k] == jobs[k'];
    }
    forall j | 0 <= j < |rest| ensures rest[j].Site() != x.Site() && Apart(code, map[], rest[j], x) {
      AlsoApart(code, jobs, i, j, x, base, force);
    }
    forall j, k | 0 <= j < k < |updated|
      ensures updated[j].Site() != updated[k].Site() && Apart(code, map[], updated[j], updated[k])
    {
      assert Apart(code, map[], jobs[j], jobs[k]);
    }
    forall job ensures job in updated <==> job in rest + [x] {
      SameMembers(jobs, i, x, job);
    }
  }

  lemma SameMembers(jobs: seq<Job>, i: nat, x: Job, job: Job)
    requires i < |jobs|
    ensures job in jobs[i := x] <==> job in jobs[..i] + jobs[i + 1..] + [x]
  {
    assert jobs[i := x] == jobs[..i] + [x] + jobs[i + 1..];
  }

  /** The same site and the same bytes. */
  ghost predicate SamePlace(code: seq<byte>, a: Job, b: Job) {
    && JobReady(code, map[], a) && JobReady(code, map[], b) && a.Site() == b.Site()
    && forall k :: Foot(code, map[], a, k) <==> Foot(code, map[], b, k)
  }

  lemma AlsoApart(code: seq<byte>, jobs: seq<Job>, i: nat, j: nat, x: Job, base: nat, force: bool)
    requires Separate(code, map[], jobs, base, force) && i < |jobs| && SamePlace(code, jobs[i], x) && j < |jobs| - 1
    ensures var job := (jobs[..i] + jobs[i + 1..])[j];
      job.Site() != x.Site() && Apart(code, map[], job, x) && JobReady(code, map[], job)
  {
    hide JobReady, Foot, Apply;
    if j < i {
      assert Apart(code, map[], jobs[j], jobs[i]);
    } else {
      assert Apart(code, map[], jobs[i], jobs[j + 1]);
    }
  }

  lemma SamePlaceReaddressed(code: seq<byte>, job: Job, addr: int)
    requires JobReady(code, map[], job)
    ensures SamePlace(code, job, Readdressed(job, addr))
  {
    hide X.Classify, X.Original, X.InBounds, X.Fits, X.CallInBounds, A.InBounds, A.CallInBounds, FX.CallReady;
  }

  // ----- once more -----

  /** After others that are apart from it, a site is as it was. */
  lemma UntouchedBy(code: seq<byte>, jobs: seq<Job>, x: Job, base: nat, force: bool)
    requires Separate(code, map[], jobs + [x], base, force)
    ensures Separate(code, map[], jobs, base, force) && JobReady(code, map[], x)
    ensures var s := Relocated(code, map[], jobs, base, force);
      && s.outcome == Done && x.Site() !in s.saved && JobReady(s.code, s.saved, x)
      && (forall k :: 0 <= k < |code| && Foot(code, map[], x, k) ==> s.code[k] == code[k])
      && (forall k :: Foot(s.code, s.saved, x, k) <==> Foot(code, map[], x, k))
  {
    hide JobReady, Foot, Apply, Relocated;
    var all := jobs + [x];
    var s := Relocated(code, map[], jobs, base, force);
    assert all[|jobs|] == x && forall j :: 0 <= j < |jobs| ==> all[j] == jobs[j];
    forall j, k | 0 <= j < k < |jobs|
      ensures jobs[j].Site() != jobs[k].Site() && Apart(code, map[], jobs[j], jobs[k])
    {
      assert Apart(code, map[], all[j], all[k]);
    }
    SeparateSucceed(code, map[], jobs, base, force);
    RelocatedSaved(code, map[], jobs, base, force, x.Site());
    forall k: nat | k < |code| && Foot(code, map[], x, k) ensures s.code[k] == code[k] {
      forall j | 0 <= j < |jobs| ensures !Foot(code, map[], jobs[j], k) {
        assert Apart(code, map[], all[j], all[|jobs|]);
      }
      RelocatedBytes(code, map[], jobs, base, force, k);
    }
    ApplyLocal(code, map[], s.code, s.saved, x, base, force);
  }

  /** Whether it can be reset depends on its own bytes. */
  lemma ResetsThere(code: seq<byte>, code2: seq<byte>, saved2: map<nat, seq<byte>>, job: Job, base: nat, force: bool)
    requires JobReady(code, map[], job) && |code2| == |code| && Resets(code, job, base, force) && job.Pcrel?
    requires job.Site() !in saved2 && JobReady(code2, saved2, job)
    requires forall k :: 0 <= k < |code| && Foot(code, map[], job, k) ==> code2[k] == code[k]
    ensures !FX.LosesImmediate(code2, saved2, job.pc, job.addr, base, force)
  {
    hide X.Classify, X.EpilogueLength, X.IsFar, X.Reset;
    var loc := job.pc;
    var site := X.Original(code, map[], loc);
    assert forall k :: loc.offset - 2 <= k < loc.End() ==> Foot(code, map[], job, k);
    assert X.Original(code2, saved2, loc) == site by {
      assert code2[loc.offset - 2..loc.End()] == code[loc.offset - 2..loc.End()];
    }
    if X.Classify(site) == X.Cmpl && loc.epilogueSize > 0 {
      assert Foot(code, map[], job, loc.End());
      FX.ResetAt(code, site, loc, loc.End());
      FX.ResetAt(code2, site, loc, loc.End());
    }
  }

  /** A site that can be reset, relocated to `job.addr` and then to `addr`, is as if it had been relocated
      to `addr` only. */
  lemma AgainIs(code: seq<byte>, saved: map<nat, seq<byte>>, job: Job, addr: int, base: nat, force: bool)
    requires JobReady(code, saved, job) && (job.Pcrel? || job.Adrp?)
    requires job.Pcrel? ==> !FX.LosesImmediate(code, saved, job.pc, job.addr, base, force)
    ensures var s, x := Apply(code, saved, job, base, force), Readdressed(job, addr);
      && JobReady(s.code, s.saved, x) && JobReady(code, saved, x)
      && Apply(s.code, s.saved, x, base, force) == Apply(code, saved, x, base, force)
  {
    hide X.RelocatedPCREL, A.RelocatedADRP, X.InBounds, X.Fits, A.InBounds, FX.LosesImmediate;
    match job
    case Pcrel(loc, a) => FX.LastWriterWinsIff(code, saved, loc, a, addr, base, force);
    case Adrp(loc, a) => FA.LastWriterWins(code, saved, loc, a, addr, base, force);
  }

  /** Relocating one site of a separate list again, after all of them, is relocating it to its new address
      in the first place. */
  lemma OneAgain(code: seq<byte>, jobs: seq<Job>, i: nat, addr: int, base: nat, force: bool)
    requires Separate(code, map[], jobs, base, force) && i < |jobs| && Resets(code, jobs[i], base, force)
    requires var x := Readdressed(jobs[i], addr);
      JobReady(code, map[], x) && Apply(code, map[], x, base, force).outcome == Done
    ensures var s, x := Relocated(code, map[], jobs, base, force), Readdressed(jobs[i], addr);
      && JobReady(s.code, s.saved, x) && Separate(code, map[], jobs[i := x], base, force)
      && Apply(s.code, s.saved, x, base, force) == Relocated(code, map[], jobs[i := x], base, force)
  {
    hide JobReady, Foot, Apply, Relocated, Separate, SamePlace, FX.LosesImmediate;
    var job, x, rest := jobs[i], Readdressed(jobs[i], addr), jobs[..i] + jobs[i + 1..];
    IsReady(code, jobs, i, base, force);
    SamePlaceReaddressed(code, job, job.addr);
    SamePlaceReaddressed(code, job, addr);
    MovedToEnd(code, jobs, i, job, base, force);
    MovedToEnd(code, jobs, i, x, base, force);
    assert jobs[i := job] == jobs;
    OrderIrrelevant(code, jobs, rest + [job], base, force);
    OrderIrrelevant(code, jobs[i := x], rest + [x], base, force);
    UntouchedBy(code, rest, job, base, force);
    UntouchedBy(code, rest, x, base, force);
    var s := Relocated(code, map[], rest, base, force);
    RelocatedSnoc(code, map[], rest, job, base, force);
    RelocatedSnoc(code, map[], rest, x, base, force);
    if job.Pcrel? {
      ResetsThere(code, s.code, s.saved, job, base, force);
    }
    AgainIs(s.code, s.saved, job, addr, base, force);
  }

  lemma IsReady(code: seq<byte>, jobs: seq<Job>, i: nat, base: nat, force: bool)
    requires Separate(code, map[], jobs, base, force) && i < |jobs|
    ensures JobReady(code, map[], jobs[i]) && Apply(code, map[], jobs[i], base, force).outcome == Done
  {
    hide JobReady, Foot, Apply;
  }

  /** Relocating separate sites, and then some of them again and again, leaves what relocating each once to
      the last address it was given leaves. */
  lemma {:induction false} LastAddressesWin(code: seq<byte>, jobs: seq<Job>, again: seq<Again>, base: nat, force: bool)
    requires Separate(code, map[], jobs, base, force) && forall a :: a in again ==> a.index < |jobs|
    requires CanReapply(code, jobs, again, base, force)
    ensures var s := Reapplied(Relocated(code, map[], jobs, base, force), jobs, again, base, force);
      s.outcome == Done && s == Relocated(code, map[], Latest(jobs, again), base, force)
    decreases |again|
  {
    hide JobReady, Foot, Apply, Relocated, Separate, Resets;
    SeparateSucceed(code, map[], jobs, base, force);
    if again != [] {
      var a := again[0];
      var jobs' := jobs[a.index := Readdressed(jobs[a.index], a.addr)];
      OneAgain(code, jobs, a.index, a.addr, base, force);
      LastAddressesWin(code, jobs', again[1..], base, force);
      SamePlaces(Relocated(code, map[], jobs', base, force), jobs, jobs', again[1..], base, force);
    }
  }

  /** What is applied again depends on the sites, not on the addresses they had. */
  lemma {:induction false} SamePlaces(s: State, jobs: seq<Job>, jobs': seq<Job>, again: seq<Again>, base: nat,
                                      force: bool)
    requires |jobs| == |jobs'| && forall a :: a in again ==> a.index < |jobs|
    requires forall i :: 0 <= i < |jobs| ==> Readdressed(jobs[i], 0) == Readdressed(jobs'[i], 0)
    ensures Reapplied(s, jobs, again, base, force) == Reapplied(s, jobs', again, base, force)
    decreases |again|
  {
    hide JobReady, Apply;
    if again != [] && s.outcome == Done {
      var i := again[0].index;
      assert Readdressed(Readdressed(jobs[i], 0), again[0].addr) == Readdressed(jobs[i], again[0].addr);
      assert Readdressed(Readdressed(jobs'[i], 0), again[0].addr) == Readdressed(jobs'[i], again[0].addr);
      var job := Readdressed(jobs[i], again[0].addr);
      if JobReady(s.code, s.saved, job) {
        SamePlaces(Apply(s.code, s.saved, job, base, force), jobs, jobs', again[1..], base, force);
      }
    }
  }
}
