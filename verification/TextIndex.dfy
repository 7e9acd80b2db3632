/** The laid-out text and the find-func index over it: ld.go, from `addSymbol` to `buildModule`. */
module TextIndex {
  import opened Layout
  import F = FindFunc

  /** The entry offsets of the functions, in the order recorded. */
  function EntryOffsets(w: World, l: Layout): (r: seq<nat>)
    requires forall f :: f in l.funcs ==> f in l.symMap && l.symMap[f].offset >= 0
    ensures |r| == |l.funcs|
  {
    seq(|l.funcs|, i requires 0 <= i < |l.funcs| => assert l.funcs[i] in l.funcs; l.symMap[l.funcs[i]].offset)
  }

  lemma OffsetsAreAddresses(w: World, l: Layout)
    requires Laid(w, l) && forall f :: f in l.funcs ==> Placed(w, l, f)
    ensures forall f :: f in l.funcs ==>
      f in l.symMap && 0 <= l.symMap[f].offset <= |l.code| && SectionOf(w, f) == InCode
  {
    hide AllApart, FuncDataRecorded, StringsKept, Content, Extent;
    forall f | f in l.funcs
      ensures f in l.symMap && 0 <= l.symMap[f].offset <= |l.code| && SectionOf(w, f) == InCode
    {
      assert IsFunction(w, f) && Faithful(w, l, f);
    }
  }

  /** What the layout records is what the bucket builder demands: offsets that start at zero, do not
      decrease and stay within the text. */
  lemma LayoutIsIndexable(w: World, l: Layout, maxpc: nat)
    requires Laid(w, l) && l.funcs != [] && |l.code| <= maxpc && forall f :: f in l.funcs ==> Placed(w, l, f)
    ensures forall f :: f in l.funcs ==> f in l.symMap && l.symMap[f].offset >= 0
    ensures F.Entries(EntryOffsets(w, l), maxpc)
  {
    OffsetsAreAddresses(w, l);
    var entry := EntryOffsets(w, l);
    assert l.funcs[0] in l.funcs && l.funcs[|l.funcs| - 1] in l.funcs;
    forall i, j | 0 <= i <= j < |entry| ensures entry[i] <= entry[j] {
      if i < j {
        assert l.funcs[i] in l.funcs && l.funcs[j] in l.funcs;
        FunctionsIncrease(w, l, i, j);
        assert SectionOf(w, l.funcs[i]) == InCode && SectionOf(w, l.funcs[j]) == InCode;
      }
    }
  }

  /** An address inside the code of `g` belongs to no function that starts at or below it but later. */
  lemma OwnCode(w: World, l: Layout, g: string, f: string, pc: nat)
    requires Laid(w, l) && (forall x :: x in l.funcs ==> Placed(w, l, x)) && g in l.funcs && f in l.funcs
    requires l.symMap[g].offset <= pc < l.symMap[g].offset + Extent(w, g)
    requires l.symMap[g].offset <= l.symMap[f].offset <= pc
    ensures f == g
  {
    hide Laid, Extent;
    var i: nat :| i < |l.funcs| && l.funcs[i] == f;
    var k: nat :| k < |l.funcs| && l.funcs[k] == g;
    OffsetsAreAddresses(w, l);
    if k < i {
      FunctionsIncrease(w, l, k, i);
    } else if i < k {
      FunctionsIncrease(w, l, i, k);
    }
  }

  /** Every address inside the text is attributed to the last function that starts at or below it; if
      it lies in the code of a function, epilogues included, to that one. */
  method Attribute(w: World, l: Layout, maxpc: nat, pc: nat) returns (f: string)
    requires Laid(w, l) && |l.code| <= maxpc && pc < maxpc
    requires l.funcs != [] && forall f :: f in l.funcs ==> Placed(w, l, f)
    ensures f in l.funcs && f in l.symMap && l.symMap[f].offset <= pc
    ensures forall g :: g in l.funcs && g in l.symMap && l.symMap[g].offset <= pc ==>
      l.symMap[g].offset <= l.symMap[f].offset
    ensures forall g :: g in l.funcs && g in l.symMap ==>
      (l.symMap[g].offset <= pc < l.symMap[g].offset + Extent(w, g) ==> f == g)
  {
    hide Laid, Extent;
    LayoutIsIndexable(w, l, maxpc);
    var entry := EntryOffsets(w, l);
    var idx := F.BuildAndFind(entry, maxpc, pc);
    f := l.funcs[idx - 1];
    forall g | g in l.funcs && g in l.symMap && l.symMap[g].offset <= pc
      ensures l.symMap[g].offset <= l.symMap[f].offset
    {
      var k :| 0 <= k < |l.funcs| && l.funcs[k] == g;
      assert entry[k] == l.symMap[g].offset;
    }
    forall g | g in l.funcs && g in l.symMap && l.symMap[g].offset <= pc < l.symMap[g].offset + Extent(w, g)
      ensures f == g
    {
      OwnCode(w, l, g, f, pc);
    }
  }
}
