/** ld.go, `readFuncData`: the epilogues reserved for a function's relocations are what its pc-value
    tables are patched for. */
module EpilogueTables {
  import opened Bytes
  import opened Reserve
  import P = PcTable

  /** The relocations that have an epilogue, in order. */
  function Epilogues(relocs: seq<ObjReloc>): seq<P.Epilogue> {
    if relocs == [] then []
    else (if relocs[0].epilogueOffset > 0
          then [P.Epilogue(relocs[0].offset, relocs[0].epilogueOffset, relocs[0].epilogueSize)] else [])
         + Epilogues(relocs[1..])
  }

  predicate OnArm64(k: Kind) { k.AddrArm64? || k.LdstArm64? || k.CallArm64? || k.SlotArm64? || k.Other? }

  /** One relocation with the epilogue it was given. */
  ghost predicate Fits(data: seq<byte>, r: ObjReloc, q: nat)
    requires P.IsQuantum(q)
  {
    r.offset < |data|
    && (r.epilogueOffset > 0 ==> |data| <= r.epilogueOffset && (r.epilogueOffset + r.epilogueSize) % q == 0)
  }

  lemma GivenFits(before: ObjReloc, after: ObjReloc, data: seq<byte>, noEpilogues: bool, q: nat)
    requires P.IsQuantum(q) && (q == 4 ==> OnArm64(before.kind))
    requires Given(before, after, data, noEpilogues) && before.epilogueOffset == 0 && before.offset < |data|
    ensures Fits(data, after, q)
  {
    hide PcrelSize, CallSize;
    if !Skipped(before, noEpilogues) {
      var length :| length >= |data| && length % 8 == 0 && after == Reserved(length, data, before);
      WholeInstructions(length, 16);
      WholeInstructions(length, 20);
      WholeInstructions(length, 8);
      OneByte(after.epilogueOffset + after.epilogueSize);
    }
  }

  lemma WholeInstructions(length: nat, size: nat)
    requires length % 8 == 0 && size % 4 == 0
    ensures (length + size) % 4 == 0 && Align8(length) == length
  {
    var a, b := length / 8, size / 4;
    assert length == 8 * a && size == 4 * b;
    Fours(length + size, 2 * a + b);
  }

  lemma Fours(x: nat, n: nat)
    requires x == 4 * n
    ensures x % 4 == 0
  {
  }

  lemma OneByte(n: nat)
    ensures n % 1 == 0
  {
  }

  /** Whatever relocations a function has, the epilogues reserved for them are ready to be patched into
      its tables: behind its text, one behind the other, in whole instructions. */
  lemma ReservedAreInOrder(before: seq<ObjReloc>, relocs: seq<ObjReloc>, data: seq<byte>, noEpilogues: bool,
                           length: nat, q: nat)
    requires P.IsQuantum(q) && |before| == |relocs| && length < TWO_32
    requires forall i :: 0 <= i < |relocs| ==>
      && Given(before[i], relocs[i], data, noEpilogues)
      && before[i].epilogueOffset == 0 && before[i].offset < |data| && (q == 4 ==> OnArm64(before[i].kind))
    requires Laid(relocs, |relocs|, length)
    ensures P.InOrder(Epilogues(relocs), |data|, |data|, q)
  {
    hide Given;
    forall i | 0 <= i < |relocs| ensures Fits(data, relocs[i], q) {
      GivenFits(before[i], relocs[i], data, noEpilogues, q);
    }
    InOrderFrom(relocs, data, |data|, length, q);
  }

  lemma {:induction false} InOrderFrom(relocs: seq<ObjReloc>, data: seq<byte>, covered: nat, length: nat, q: nat)
    requires P.IsQuantum(q) && length < TWO_32 && |data| <= covered
    requires forall i :: 0 <= i < |relocs| ==>
      Fits(data, relocs[i], q) && (relocs[i].epilogueOffset > 0 ==> covered <= relocs[i].epilogueOffset)
    requires Laid(relocs, |relocs|, length)
    ensures P.InOrder(Epilogues(relocs), covered, |data|, q)
    decreases |relocs|
  {
    hide Fits, Laid;
    if relocs != [] {
      var r, rest := relocs[0], relocs[1..];
      FitsIs(data, r, q);
      LaidRest(relocs, length);
      forall i | 0 <= i < |rest| ensures Fits(data, rest[i], q) {
        assert Fits(data, relocs[i + 1], q);
      }
      if r.epilogueOffset > 0 {
        var e := P.Epilogue(r.offset, r.epilogueOffset, r.epilogueSize);
        InOrderFrom(rest, data, e.End(), length, q);
        assert Epilogues(relocs)[1..] == Epilogues(rest);
      } else {
        InOrderFrom(rest, data, covered, length, q);
        assert Epilogues(relocs) == Epilogues(rest);
      }
    }
  }

  lemma FitsIs(data: seq<byte>, r: ObjReloc, q: nat)
    requires P.IsQuantum(q) && Fits(data, r, q)
    ensures r.offset < |data| && (r.epilogueOffset > 0 ==> (r.epilogueOffset + r.epilogueSize) % q == 0)
  {
  }

  lemma LaidRest(relocs: seq<ObjReloc>, length: nat)
    requires relocs != [] && Laid(relocs, |relocs|, length)
    ensures var r, rest := relocs[0], relocs[1..];
            && Laid(rest, |rest|, length)
            && (r.epilogueOffset > 0 ==> r.epilogueOffset + r.epilogueSize <= length)
            && forall i :: 0 <= i < |rest| && r.epilogueOffset > 0 && rest[i].epilogueOffset > 0 ==>
                 r.epilogueOffset + r.epilogueSize <= rest[i].epilogueOffset
  {
  }
}
