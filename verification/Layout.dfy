/** ld.go: `addSymbol`, `addSymbols` and the segment copy in `Load`.  Symbols go into five buffers as
    they are met, recursively; afterwards their offsets are moved to where the buffers end up in the
    loaded data segment. */
module Layout {
  import opened Bytes

  const TYPE_STRING_PREFIX := "go:string."  // const_type.1.20.go
  const INVALID_OFFSET: int := -1
  const TLS_NAME := "(TLS)"

  datatype Kind = Text | SData | NoptrData | ROData | Bss | NoptrBss | TlsBss | Unknown

  /** The relocation types that `addSymbol` tells apart: R_CALLIND, R_TLS_LE and R_TLS_IE, the others. */
  datatype RelocType = CallInd | Tls | Plain

  datatype Reloc = Reloc(target: string, typ: RelocType, offset: nat, size: nat)

  /** A symbol of an object file.  `tail` is what is reserved behind a text symbol: alignment and
      epilogues (module `Reserve`).  `root` says whether `addSymbols` adds it for its own sake: data, and
      text unless it is duplicate-allowed and no assembly wrapper. */
  datatype ObjSym = ObjSym(kind: Kind, data: seq<byte>, size: nat, relocs: seq<Reloc>, tail: seq<byte>,
                           funcData: seq<string>, typ: string, root: bool)

  /** All object symbols, and the bytes made up for others (import paths and `$` constants). */
  datatype World = World(objs: map<string, ObjSym>, synth: map<string, seq<byte>>)

  datatype Sym = Sym(offset: int, size: nat)

  /** Where symbols live: the five buffers, or nowhere in the module. */
  datatype Section = InCode | InData | InNoptr | InBss | InNoptrBss | Nowhere

  datatype Layout = Layout(
    code: seq<byte>, data: seq<byte>, noptrdata: seq<byte>, bss: seq<byte>, noptrbss: seq<byte>,
    symMap: map<string, Sym>, heapStrings: map<string, seq<byte>>,
    funcs: seq<string>, funcData: map<string, seq<int>>)

  predicate IsTypeString(name: string) { TYPE_STRING_PREFIX <= name }

  function SectionOfKind(name: string, kind: Kind): Section {
    match kind
    case Text => InCode
    case SData => InData
    case NoptrData | ROData => if IsTypeString(name) then Nowhere else InNoptr
    case Bss => InBss
    case NoptrBss => InNoptrBss
    case _ => Nowhere
  }

  function SectionOf(w: World, name: string): Section {
    if name in w.objs then SectionOfKind(name, w.objs[name].kind)
    else if name in w.synth then InNoptr
    else Nowhere
  }

  function Content(w: World, name: string): seq<byte> {
    if name in w.objs then w.objs[name].data else if name in w.synth then w.synth[name] else []
  }

  /** The bytes a symbol takes: for a function, with what is reserved behind it. */
  function Extent(w: World, name: string): nat {
    |Content(w, name)| + if name in w.objs && w.objs[name].kind == Text then |w.objs[name].tail| else 0
  }

  function Buffer(l: Layout, s: Section): seq<byte> {
    match s
    case InCode => l.code
    case InData => l.data
    case InNoptr => l.noptrdata
    case InBss => l.bss
    case InNoptrBss => l.noptrbss
    case Nowhere => []
  }

  /** What is reserved behind a function fills up its last word; no type is a made-up symbol; the name for
      thread-local storage is the linker's own. */
  ghost predicate WellFormed(w: World) {
    && TLS_NAME !in w.objs && TLS_NAME !in w.synth
    && forall name :: name in w.objs ==>
      && (w.objs[name].kind == Text ==> (|w.objs[name].data| + |w.objs[name].tail|) % 8 == 0)
      && w.objs[name].typ !in w.synth
  }

  /** What `addSymbol` can build: kinds it knows, funcdata it can find, and no reference to more than a
      word of a symbol that has no bytes. */
  ghost predicate Buildable(w: World) {
    forall name :: name in w.objs ==> BuildableSymbol(w, w.objs[name])
  }

  ghost predicate BuildableSymbol(w: World, o: ObjSym) {
    && o.kind != Unknown
    && (o.kind == Text ==> forall f :: f in o.funcData ==> f == "" || f in w.objs)
    && forall r :: r in o.relocs ==> FitsReserved(w, r)
  }

  predicate FitsReserved(w: World, r: Reloc) {
    r.target in w.objs && w.objs[r.target].data == [] ==> r.size <= WORD
  }

  // ----- what the layout keeps -----

  /** A symbol with bytes of its own in the module. */
  ghost predicate Placed(w: World, l: Layout, name: string) {
    name in l.symMap && SectionOf(w, name) != Nowhere && Content(w, name) != []
  }

  /** Its bytes are at its offset; behind the reserved word, in the no-pointer data. */
  ghost predicate Faithful(w: World, l: Layout, name: string)
    requires name in l.symMap
  {
    var off, b := l.symMap[name].offset, Buffer(l, SectionOf(w, name));
    && 0 <= off && off % 8 == 0 && off + Extent(w, name) <= |b|
    && b[off..off + |Content(w, name)|] == Content(w, name)
    && (SectionOf(w, name) == InNoptr ==> off >= 8)
  }

  ghost predicate ApartAt(w: World, l: Layout, a: string, b: string)
    requires a in l.symMap && b in l.symMap
  {
    || l.symMap[a].offset + Extent(w, a) <= l.symMap[b].offset
    || l.symMap[b].offset + Extent(w, b) <= l.symMap[a].offset
  }

  ghost predicate AllFaithful(w: World, l: Layout) {
    forall name :: Placed(w, l, name) ==> Faithful(w, l, name)
  }

  ghost predicate AllApart(w: World, l: Layout) {
    forall a, b :: Placed(w, l, a) && Placed(w, l, b) && a != b && SectionOf(w, a) == SectionOf(w, b) ==>
      ApartAt(w, l, a, b)
  }

  ghost predicate Whole(l: Layout) {
    |l.code| % 8 == 0 && |l.data| % 8 == 0 && |l.noptrdata| % 8 == 0 && |l.bss| % 8 == 0 && |l.noptrbss| % 8 == 0
    && |l.noptrdata| >= 8
  }

  predicate IsFunction(w: World, name: string) { name in w.objs && w.objs[name].kind == Text }

  /** The functions recorded are the text symbols met, once each, in the order of their code, the first
      at its start. */
  ghost predicate FunctionsInOrder(w: World, l: Layout) {
    && (forall name :: name in l.funcs <==> name in l.symMap && IsFunction(w, name))
    && (forall i, j :: 0 <= i < j < |l.funcs| ==> l.funcs[i] != l.funcs[j])
    && (if l.funcs == [] then l.code == []
        else l.funcs[0] in l.symMap && (Placed(w, l, l.funcs[0]) ==> l.symMap[l.funcs[0]].offset == 0))
    && (forall i, j :: 0 <= i < j < |l.funcs| && Placed(w, l, l.funcs[i]) && Placed(w, l, l.funcs[j]) ==>
          l.symMap[l.funcs[i]].offset + Extent(w, l.funcs[i]) <= l.symMap[l.funcs[j]].offset)
  }

  /** A recorded funcdata offset is the offset of its symbol, and not zero, which means none. */
  ghost predicate Records(w: World, l: Layout, name: string, v: int) {
    if name == "" then v == 0
    else name in l.symMap && (Placed(w, l, name) && SectionOf(w, name) == InNoptr ==>
           v == l.symMap[name].offset && v > 0)
  }

  ghost predicate FuncDataRecorded(w: World, l: Layout) {
    && (forall f :: f in l.funcData <==> f in l.symMap && IsFunction(w, f))
    && (forall f :: f in l.funcData && f in w.objs ==> |l.funcData[f]| <= |w.objs[f].funcData|)
    && (forall f, k :: f in l.funcData && f in w.objs && 0 <= k < |l.funcData[f]| && k < |w.objs[f].funcData| ==>
          Records(w, l, w.objs[f].funcData[k], l.funcData[f][k]))
  }

  predicate IsStringConstant(w: World, name: string) {
    name in w.objs && w.objs[name].kind in {NoptrData, ROData} && IsTypeString(name)
  }

  /** String constants are kept outside the module. */
  ghost predicate StringsKept(w: World, l: Layout) {
    forall name :: name in l.symMap && IsStringConstant(w, name) ==>
      name in l.heapStrings && l.heapStrings[name] == w.objs[name].data
  }

  ghost predicate Kept(w: World, l: Layout) {
    AllFaithful(w, l) && AllApart(w, l) && Whole(l) && FunctionsInOrder(w, l)
    && FuncDataRecorded(w, l) && StringsKept(w, l)
  }

  /** From one layout to a later one: buffers only grow, and symbols stay where they are, except that one
      without bytes may be pointed at the start of its buffer. */
  ghost predicate Extends(w: World, l: Layout, l': Layout) {
    && l.code <= l'.code && l.data <= l'.data && l.noptrdata <= l'.noptrdata
    && l.bss <= l'.bss && l.noptrbss <= l'.noptrbss
    && l.symMap.Keys <= l'.symMap.Keys
    && (forall name :: name in l.symMap ==> Stays(w, l, l', name))
    && l.funcs <= l'.funcs
    && (forall f :: f in l.funcData ==> f in l'.funcData && l'.funcData[f] == l.funcData[f])
  }

  predicate Stays(w: World, l: Layout, l': Layout, name: string)
    requires name in l.symMap && name in l'.symMap
  {
    l'.symMap[name].offset == l.symMap[name].offset || (Content(w, name) == [] && l'.symMap[name].offset == 0)
  }

  lemma ExtendsTrans(w: World, a: Layout, b: Layout, c: Layout)
    requires Extends(w, a, b) && Extends(w, b, c)
    ensures Extends(w, a, c)
  {
    hide Content;
    forall name | name in a.symMap ensures Stays(w, a, c, name) {
      assert Stays(w, a, b, name) && Stays(w, b, c, name);
    }
  }

  // ----- one symbol more -----

  /** `name` goes to the end of its buffer, with padding; the other buffers stay. */
  ghost predicate Appended(w: World, l: Layout, l': Layout, name: string, pad: seq<byte>) {
    var s := SectionOf(w, name);
    && (s != Nowhere ==> Buffer(l', s) == Buffer(l, s) + (Content(w, name) + pad))
    && (s != InCode ==> l'.code == l.code) && (s != InData ==> l'.data == l.data)
    && (s != InNoptr ==> l'.noptrdata == l.noptrdata) && (s != InBss ==> l'.bss == l.bss)
    && (s != InNoptrBss ==> l'.noptrbss == l.noptrbss)
    && name in l'.symMap && l'.symMap == l.symMap[name := l'.symMap[name]]
    && (s != Nowhere ==> (|Buffer(l, s)| + |Content(w, name)| + |pad|) % 8 == 0)
    && (s != Nowhere ==> l'.symMap[name].offset == |Buffer(l, s)| && Extent(w, name) <= |Content(w, name)| + |pad|)
  }

  lemma BufferGrows(w: World, l: Layout, l': Layout, name: string, pad: seq<byte>, s: Section)
    requires Appended(w, l, l', name, pad)
    ensures Buffer(l, s) <= Buffer(l', s)
  {
  }

  lemma AppendFaithful(w: World, l: Layout, l': Layout, name: string, pad: seq<byte>)
    requires AllFaithful(w, l) && Whole(l) && name !in l.symMap && Appended(w, l, l', name, pad)
    ensures AllFaithful(w, l')
  {
    hide Content, Extent, SectionOf, Faithful, Whole;
    forall x | Placed(w, l', x) ensures Faithful(w, l', x) {
      BufferGrows(w, l, l', name, pad, SectionOf(w, x));
      if x == name {
        WholeBuffer(l, SectionOf(w, x));
        EndFaithful(w, l, l', name, pad);
      } else {
        assert Placed(w, l, x);
        FaithfulStays(w, l, l', x);
      }
    }
  }

  lemma EndFaithful(w: World, l: Layout, l': Layout, name: string, pad: seq<byte>)
    requires Appended(w, l, l', name, pad) && SectionOf(w, name) != Nowhere
    requires var s := SectionOf(w, name); |Buffer(l, s)| % 8 == 0 && (s == InNoptr ==> |Buffer(l, s)| >= 8)
    ensures Faithful(w, l', name)
  {
    hide Content, Extent, SectionOf, Buffer;
    var b, b' := Buffer(l, SectionOf(w, name)), Buffer(l', SectionOf(w, name));
    assert b'[|b|..|b| + |Content(w, name)|] == Content(w, name);
  }

  lemma FaithfulStays(w: World, l: Layout, l': Layout, x: string)
    requires x in l.symMap && Faithful(w, l, x) && x in l'.symMap && l'.symMap[x].offset == l.symMap[x].offset
    requires Buffer(l, SectionOf(w, x)) <= Buffer(l', SectionOf(w, x))
    ensures Faithful(w, l', x)
  {
    hide Content, Extent, SectionOf, Buffer;
    var off, n := l.symMap[x].offset, |Content(w, x)|;
    ContentFits(w, x);
    var b, b' := Buffer(l, SectionOf(w, x)), Buffer(l', SectionOf(w, x));
    assert b'[off..off + n] == b[off..off + n];
  }

  lemma ContentFits(w: World, name: string)
    ensures |Content(w, name)| <= Extent(w, name)
  {
  }

  lemma WholeBuffer(l: Layout, s: Section)
    requires Whole(l)
    ensures |Buffer(l, s)| % 8 == 0 && (s == InNoptr ==> |Buffer(l, s)| >= 8)
  {
  }

  lemma AppendApart(w: World, l: Layout, l': Layout, name: string, pad: seq<byte>)
    requires AllFaithful(w, l) && AllApart(w, l) && name !in l.symMap && Appended(w, l, l', name, pad)
    ensures AllApart(w, l')
  {
    hide Content, Extent, SectionOf;
    forall a, b | Placed(w, l', a) && Placed(w, l', b) && a != b && SectionOf(w, a) == SectionOf(w, b)
      ensures ApartAt(w, l', a, b)
    {
      if a == name {
        assert Placed(w, l, b) && Faithful(w, l, b);
      } else if b == name {
        assert Placed(w, l, a) && Faithful(w, l, a);
      } else {
        assert Placed(w, l, a) && Placed(w, l, b) && ApartAt(w, l, a, b);
      }
    }
  }

  lemma AppendExtends(w: World, l: Layout, l': Layout, name: string, pad: seq<byte>)
    requires name !in l.symMap && Appended(w, l, l', name, pad) && l.funcs <= l'.funcs
    requires forall f :: f in l.funcData ==> f in l'.funcData && l'.funcData[f] == l.funcData[f]
    ensures Extends(w, l, l')
  {
    hide Content, Extent, SectionOf;
    BufferGrows(w, l, l', name, pad, InCode);
    BufferGrows(w, l, l', name, pad, InData);
    BufferGrows(w, l, l', name, pad, InNoptr);
    BufferGrows(w, l, l', name, pad, InBss);
    BufferGrows(w, l, l', name, pad, InNoptrBss);
  }

  /** A function met is recorded at once, behind those before it, with no funcdata yet. */
  ghost predicate NotesFunction(w: World, l: Layout, l': Layout, name: string) {
    if IsFunction(w, name) then l'.funcs == l.funcs + [name] && l'.funcData == l.funcData[name := []]
    else l'.funcs == l.funcs && l'.funcData == l.funcData
  }

  lemma AppendFunctions(w: World, l: Layout, l': Layout, name: string, pad: seq<byte>)
    requires AllFaithful(w, l) && FunctionsInOrder(w, l) && name !in l.symMap
    requires Appended(w, l, l', name, pad) && NotesFunction(w, l, l', name)
    ensures FunctionsInOrder(w, l')
  {
    hide Content, Extent;
    forall i, j | 0 <= i < j < |l'.funcs| && Placed(w, l', l'.funcs[i]) && Placed(w, l', l'.funcs[j])
      ensures l'.symMap[l'.funcs[i]].offset + Extent(w, l'.funcs[i]) <= l'.symMap[l'.funcs[j]].offset
    {
      var a := l'.funcs[i];
      assert a == l.funcs[i];
      assert Placed(w, l, a) && Faithful(w, l, a);
    }
  }

  lemma AppendFuncData(w: World, l: Layout, l': Layout, name: string, pad: seq<byte>)
    requires FuncDataRecorded(w, l) && name !in l.symMap
    requires Appended(w, l, l', name, pad) && NotesFunction(w, l, l', name)
    ensures FuncDataRecorded(w, l')
  {
    hide Content, Extent, SectionOf;
    forall f, k | f in l'.funcData && f in w.objs && 0 <= k < |l'.funcData[f]| && k < |w.objs[f].funcData|
      ensures Records(w, l', w.objs[f].funcData[k], l'.funcData[f][k])
    {
      assert f in l.funcData && l'.funcData[f] == l.funcData[f];
      assert Records(w, l, w.objs[f].funcData[k], l.funcData[f][k]);
    }
  }

  ghost predicate KeepsString(w: World, l: Layout, l': Layout, name: string) {
    if IsStringConstant(w, name)
    then l'.heapStrings == l.heapStrings[name := w.objs[name].data]
    else l'.heapStrings == l.heapStrings
  }

  /** Appending a symbol keeps it all. */
  lemma AppendKeeps(w: World, l: Layout, l': Layout, name: string, pad: seq<byte>)
    requires Kept(w, l) && name !in l.symMap && Appended(w, l, l', name, pad)
    requires NotesFunction(w, l, l', name) && KeepsString(w, l, l', name)
    ensures Kept(w, l') && Extends(w, l, l')
  {
    hide AllFaithful, AllApart, FunctionsInOrder, FuncDataRecorded, Whole, Extends;
    AppendFaithful(w, l, l', name, pad);
    AppendApart(w, l, l', name, pad);
    AppendFunctions(w, l, l', name, pad);
    AppendFuncData(w, l, l', name, pad);
    AppendWhole(w, l, l', name, pad);
    assert name !in l.funcData by { NotYetRecorded(w, l, name); }
    AppendExtends(w, l, l', name, pad);
  }

  lemma AppendWhole(w: World, l: Layout, l': Layout, name: string, pad: seq<byte>)
    requires Whole(l) && Appended(w, l, l', name, pad)
    ensures Whole(l')
  {
    hide Content, Extent, SectionOf;
  }

  lemma NotYetRecorded(w: World, l: Layout, name: string)
    requires FuncDataRecorded(w, l) && name !in l.symMap
    ensures name !in l.funcData
  {
  }

  /** A symbol without bytes may be pointed at the start of its buffer, where the reserved word is. */
  lemma ResetKeeps(w: World, l: Layout, name: string)
    requires Kept(w, l) && name in l.symMap && Content(w, name) == []
    ensures var l' := l.(symMap := l.symMap[name := l.symMap[name].(offset := 0)]);
            Kept(w, l') && Extends(w, l, l')
  {
    hide Kept;
    var l' := l.(symMap := l.symMap[name := l.symMap[name].(offset := 0)]);
    SameAgreed(w, l, l');
  }

  /** Layouts that differ at most in symbols without bytes. */
  lemma SameAgreed(w: World, l: Layout, l': Layout)
    requires Kept(w, l) && l' == l.(symMap := l'.symMap) && l'.symMap.Keys == l.symMap.Keys
    requires forall x :: x in l.symMap ==> Stays(w, l, l', x)
    ensures Kept(w, l') && Extends(w, l, l')
  {
    hide Content, Extent, SectionOf, Faithful, FunctionsInOrder, FuncDataRecorded;
    assert forall x :: Placed(w, l, x) ==> Stays(w, l, l', x);
    assert forall x :: Placed(w, l', x) <==> Placed(w, l, x);
    forall x | Placed(w, l', x) ensures Faithful(w, l', x) {
      FaithfulStays(w, l, l', x);
    }
    forall a, b | Placed(w, l', a) && Placed(w, l', b) && a != b && SectionOf(w, a) == SectionOf(w, b)
      ensures ApartAt(w, l', a, b)
    {
      assert ApartAt(w, l, a, b);
    }
    SameRecords(w, l, l');
  }

  lemma SameRecords(w: World, l: Layout, l': Layout)
    requires FunctionsInOrder(w, l) && FuncDataRecorded(w, l)
    requires l' == l.(symMap := l'.symMap) && l'.symMap.Keys == l.symMap.Keys
    requires forall x :: Placed(w, l, x) ==> l'.symMap[x].offset == l.symMap[x].offset
    ensures FunctionsInOrder(w, l') && FuncDataRecorded(w, l')
  {
    hide Content, Extent, SectionOf;
    assert forall x :: Placed(w, l', x) ==> Placed(w, l, x);
    forall f, k | f in l'.funcData && f in w.objs && 0 <= k < |l'.funcData[f]| && k < |w.objs[f].funcData|
      ensures Records(w, l', w.objs[f].funcData[k], l'.funcData[f][k])
    {
      assert Records(w, l, w.objs[f].funcData[k], l.funcData[f][k]);
    }
  }

  /** Recording one funcdata offset. */
  lemma RecordKeeps(w: World, l: Layout, f: string, v: int)
    requires Kept(w, l) && f in l.funcData && f in w.objs && |l.funcData[f]| < |w.objs[f].funcData|
    requires Records(w, l, w.objs[f].funcData[|l.funcData[f]|], v)
    ensures Kept(w, l.(funcData := l.funcData[f := l.funcData[f] + [v]]))
  {
    hide Content, Extent, SectionOf;
    var l' := l.(funcData := l.funcData[f := l.funcData[f] + [v]]);
    forall x | Placed(w, l', x) ensures Faithful(w, l', x) {
      assert Placed(w, l, x) && Faithful(w, l, x);
    }
    forall a, b | Placed(w, l', a) && Placed(w, l', b) && a != b && SectionOf(w, a) == SectionOf(w, b)
      ensures ApartAt(w, l', a, b)
    {
      assert Placed(w, l, a) && Placed(w, l, b) && ApartAt(w, l, a, b);
    }
    forall g, k | g in l'.funcData && g in w.objs && 0 <= k < |l'.funcData[g]| && k < |w.objs[g].funcData|
      ensures Records(w, l', w.objs[g].funcData[k], l'.funcData[g][k])
    {
      if g == f && k == |l.funcData[f]| {
        assert Records(w, l, w.objs[g].funcData[k], v);
      } else {
        assert Records(w, l, w.objs[g].funcData[k], l.funcData[g][k]);
      }
    }
  }

  /** Every function new since `l0`, but for `except`, has all its funcdata recorded. */
  ghost predicate Completed(w: World, l0: Layout, l: Layout, except: set<string>) {
    forall f :: f in l.funcData && f !in l0.funcData && f !in except && f in w.objs ==>
      |l.funcData[f]| == |w.objs[f].funcData|
  }

  /** A later stretch of the work that completed all it met. */
  lemma ThenMore(w: World, l0: Layout, l1: Layout, l2: Layout, except: set<string>)
    requires Extends(w, l0, l1) && Completed(w, l0, l1, except)
    requires Extends(w, l1, l2) && Completed(w, l1, l2, {})
    ensures Extends(w, l0, l2) && Completed(w, l0, l2, except)
  {
    ExtendsTrans(w, l0, l1, l2);
  }

  lemma Nothing(w: World, l: Layout)
    ensures Extends(w, l, l) && Completed(w, l, l, {})
  {
  }

  /** A step that notes no new function completes nothing and owes nothing. */
  lemma NoFunction(w: World, l: Layout, l': Layout)
    requires l'.funcData == l.funcData
    ensures Completed(w, l, l', {})
  {
  }

  /** Placing one symbol: a function is yet to be completed. */
  lemma PlacedOne(w: World, l: Layout, l': Layout, name: string)
    requires NotesFunction(w, l, l', name)
    ensures Completed(w, l, l', if IsFunction(w, name) then {name} else {})
    ensures IsFunction(w, name) ==> name in l'.funcData && l'.funcData[name] == []
  {
  }

  // ----- what is referred to is met -----

  /** The name a reference ends up with: thread-local storage the host has is renamed. */
  function RefName(w: World, r: Reloc): string {
    if r.target !in w.objs && r.typ == Tls then TLS_NAME else r.target
  }

  /** The offset a name left to the host is entered with. */
  function HostOffset(r: Reloc): int {
    match r.typ
    case CallInd => 0
    case Tls => r.offset
    case Plain => INVALID_OFFSET
  }

  /** The target of a relocation is in the symbol map; one without bytes is at the start of its buffer and
      the reference fits the reserved word. */
  predicate TargetMet(w: World, l: Layout, r: Reloc) {
    && (r.target in w.objs || RefName(w, r) != "" ==> RefName(w, r) in l.symMap)
    && (r.target in w.objs && w.objs[r.target].data == [] && r.size > 0 ==>
          r.size <= WORD && r.target in l.symMap && l.symMap[r.target].offset == 0)
  }

  /** All that a symbol refers to is met: its relocation targets, and its type if it is a foreign one. */
  ghost predicate AllMet(w: World, l: Layout, name: string)
    requires name in w.objs
  {
    && (forall r :: r in w.objs[name].relocs ==> TargetMet(w, l, r))
    && (w.objs[name].typ != "" ==> w.objs[name].typ in l.symMap || w.objs[name].typ in w.objs)
  }

  /** Every object symbol new since `l0`, but for `except`, has all that it refers to. */
  ghost predicate Closed(w: World, l0: Layout, l: Layout, except: set<string>) {
    forall name :: name in l.symMap && name !in l0.symMap && name !in except && name in w.objs ==> AllMet(w, l, name)
  }

  lemma StillMet(w: World, l: Layout, l': Layout, r: Reloc)
    requires Extends(w, l, l') && TargetMet(w, l, r)
    ensures TargetMet(w, l', r)
  {
    if r.target in l.symMap {
      assert Stays(w, l, l', r.target);
    }
  }

  lemma AllStillMet(w: World, l: Layout, l': Layout, relocs: seq<Reloc>)
    requires Extends(w, l, l') && forall r :: r in relocs ==> TargetMet(w, l, r)
    ensures forall r :: r in relocs ==> TargetMet(w, l', r)
  {
    hide TargetMet, Extends;
    forall r | r in relocs ensures TargetMet(w, l', r) {
      StillMet(w, l, l', r);
    }
  }

  lemma ThenMoreMet(w: World, l0: Layout, l1: Layout, l2: Layout, except: set<string>)
    requires Extends(w, l0, l1) && Closed(w, l0, l1, except) && Extends(w, l1, l2) && Closed(w, l1, l2, {})
    ensures Closed(w, l0, l2, except)
  {
    hide TargetMet;
    forall name | name in l2.symMap && name !in l0.symMap && name !in except && name in w.objs
      ensures AllMet(w, l2, name)
    {
      if name in l1.symMap {
        assert AllMet(w, l1, name);
        AllStillMet(w, l1, l2, w.objs[name].relocs);
      }
    }
  }

  /** A symbol met completes the closure once all it refers to is met. */
  lemma NowMet(w: World, l0: Layout, l: Layout, name: string)
    requires Closed(w, l0, l, {name}) && name in w.objs && AllMet(w, l, name)
    ensures Closed(w, l0, l, {})
  {
  }

  /** A step that brings in no object symbol. */
  lemma NoObject(w: World, l: Layout, l': Layout)
    requires forall name :: name in l'.symMap && name !in l.symMap ==> name !in w.objs
    ensures Closed(w, l, l', {})
  {
  }

  function Zeros(n: nat): (r: seq<byte>)
    ensures |r| == n
  {
    seq(n, _ => 0)
  }

  /** `bytearrayAlign`: zeros up to a multiple of eight. */
  function Padding(n: nat): (r: seq<byte>)
    ensures (n + |r|) % 8 == 0
  {
    if n % 8 != 0 then Zeros(8 - n % 8) else []
  }

  class Linker {
    const w: World
    var code: seq<byte>
    var data: seq<byte>
    var noptrdata: seq<byte>
    var bss: seq<byte>
    var noptrbss: seq<byte>
    var symMap: map<string, Sym>
    var heapStrings: map<string, seq<byte>>
    var funcs: seq<string>
    var funcData: map<string, seq<int>>

    constructor (w: World)
      ensures this.w == w && Now() == Layout([], [], [], [], [], map[], map[], [], map[])
    {
      this.w := w;
      code, data, noptrdata, bss, noptrbss := [], [], [], [], [];
      symMap, heapStrings, funcs, funcData := map[], map[], [], map[];
    }

    ghost function Now(): Layout
      reads this
    {
      Layout(code, data, noptrdata, bss, noptrbss, symMap, heapStrings, funcs, funcData)
    }

    /** A text symbol: its bytes, with what is reserved behind them; recorded as a function. */
    method PlaceText(name: string)
      requires WellFormed(w) && Kept(w, Now()) && name in w.objs && name !in symMap
      requires w.objs[name].kind == Text
      modifies this
      ensures Kept(w, Now()) && Extends(w, old(Now()), Now()) && symMap.Keys == old(symMap).Keys + {name}
      ensures NotesFunction(w, old(Now()), Now(), name)
    {
      hide Kept, Extends;
      ghost var l := Now();
      WholeNow(w, l);
      var o := w.objs[name];
      symMap := symMap[name := Sym(|code|, |o.data| + |o.tail|)];
      code := code + (o.data + o.tail);
      funcs := funcs + [name];
      funcData := funcData[name := []];
      AppendKeeps(w, l, Now(), name, o.tail);
    }

    /** A data symbol, or a string constant, which is kept outside the module. */
    method PlaceData(name: string)
      requires WellFormed(w) && Kept(w, Now()) && name in w.objs && name !in symMap
      requires w.objs[name].kind in {SData, NoptrData, ROData}
      modifies this
      ensures Kept(w, Now()) && Extends(w, old(Now()), Now()) && symMap.Keys == old(symMap).Keys + {name}
      ensures NotesFunction(w, old(Now()), Now(), name)
    {
      hide Kept, Extends, Padding, WellFormed;
      ghost var l := Now();
      var o := w.objs[name];
      var pad: seq<byte> := [];
      if o.kind == SData {
        pad := Padding(|data| + |o.data|);
        symMap := symMap[name := Sym(|data|, o.size)];
        data := data + (o.data + pad);
      } else if IsTypeString(name) {
        symMap := symMap[name := Sym(0, o.size)];
        heapStrings := heapStrings[name := o.data];
      } else {
        pad := Padding(|noptrdata| + |o.data|);
        symMap := symMap[name := Sym(|noptrdata|, o.size)];
        noptrdata := noptrdata + (o.data + pad);
      }
      AppendKeeps(w, l, Now(), name, pad);
    }

    /** A symbol of zeros, or of thread-local storage, for which there is nothing to do. */
    method PlaceZeros(name: string)
      requires WellFormed(w) && Kept(w, Now()) && name in w.objs && name !in symMap
      requires w.objs[name].kind in {Bss, NoptrBss, TlsBss}
      modifies this
      ensures Kept(w, Now()) && Extends(w, old(Now()), Now()) && symMap.Keys == old(symMap).Keys + {name}
      ensures NotesFunction(w, old(Now()), Now(), name)
    {
      hide Kept, Extends, Padding, WellFormed;
      ghost var l := Now();
      var o := w.objs[name];
      var pad: seq<byte> := [];
      if o.kind == Bss {
        pad := Padding(|bss| + |o.data|);
        symMap := symMap[name := Sym(|bss|, o.size)];
        bss := bss + (o.data + pad);
      } else if o.kind == NoptrBss {
        pad := Padding(|noptrbss| + |o.data|);
        symMap := symMap[name := Sym(|noptrbss|, o.size)];
        noptrbss := noptrbss + (o.data + pad);
      } else {
        symMap := symMap[name := Sym(0, o.size)];
      }
      AppendKeeps(w, l, Now(), name, pad);
    }

    /** The switch over kinds in `addSymbol`: the symbol takes its place. */
    method PlaceSymbol(name: string) returns (ok: bool)
      requires WellFormed(w) && Kept(w, Now()) && name in w.objs && name !in symMap
      modifies this
      ensures ok ==> Kept(w, Now()) && Extends(w, old(Now()), Now()) && symMap.Keys == old(symMap).Keys + {name}
      ensures ok ==> NotesFunction(w, old(Now()), Now(), name)
      ensures ok <==> w.objs[name].kind != Unknown
    {
      hide Kept, Extends, NotesFunction;
      match w.objs[name].kind {
        case Text => PlaceText(name);
        case SData | NoptrData | ROData => PlaceData(name);
        case Bss | NoptrBss | TlsBss => PlaceZeros(name);
        case Unknown => return false;
      }
      ok := true;
    }

    /** A symbol that no object file has: one made up here, or one to be found in the host, which the first
        reference to it enters at `offset`. */
    method AddExternal(name: string, offset: int)
      requires Kept(w, Now()) && name !in w.objs
      modifies this
      ensures Kept(w, Now()) && Extends(w, old(Now()), Now()) && Completed(w, old(Now()), Now(), {})
      ensures symMap.Keys == old(symMap).Keys + if name != "" || name in w.synth then {name} else {}
      ensures name != "" && name !in old(symMap) && name !in w.synth ==> symMap[name].offset == offset
      ensures Closed(w, old(Now()), Now(), {})
    {
      hide Kept, Extends, Completed;
      ghost var l := Now();
      WholeNow(w, l);
      Nothing(w, l);
      if name !in symMap && name in w.synth {
        var pad := Padding(|noptrdata| + |w.synth[name]|);
        symMap := symMap[name := Sym(|noptrdata|, 0)];
        noptrdata := noptrdata + (w.synth[name] + pad);
        AppendKeeps(w, l, Now(), name, pad);
      } else if name !in symMap && name != "" {
        symMap := symMap[name := Sym(offset, 0)];
        AppendKeeps(w, l, Now(), name, []);
      }
      NoFunction(w, l, Now());
      NoObject(w, l, Now());
    }

    /** The funcdata loop of `readFuncData`, for the function just placed. */
    method ReadFuncData(name: string, ghost l0: Layout) returns (ok: bool)
      requires WellFormed(w) && Kept(w, Now()) && IsFunction(w, name) && name in symMap
      requires name !in l0.funcData && name in funcData && funcData[name] == []
      requires Extends(w, l0, Now()) && Completed(w, l0, Now(), {name}) && Closed(w, l0, Now(), {name})
      modifies this
      ensures ok ==> Kept(w, Now()) && Extends(w, l0, Now())
      ensures ok ==> Completed(w, l0, Now(), {}) && Closed(w, l0, Now(), {name})
      ensures ok ==> old(symMap).Keys <= symMap.Keys
      ensures Buildable(w) ==> ok
      decreases w.objs.Keys - symMap.Keys, 1
    {
      hide Kept, Extends, Completed, Closed, WellFormed, Records;
      var names := w.objs[name].funcData;
      var k := 0;
      while k < |names|
        invariant 0 <= k <= |names| && name in funcData && |funcData[name]| == k
        invariant Kept(w, Now()) && Extends(w, l0, Now())
        invariant Completed(w, l0, Now(), {name}) && Closed(w, l0, Now(), {name})
        invariant old(symMap).Keys <= symMap.Keys
      {
        var offset := 0;
        if names[k] != "" {
          if names[k] !in symMap {
            if names[k] !in w.objs {
              return false;  // unknown gcobj
            }
            ghost var l := Now();
            ok := AddSymbol(names[k]);
            if !ok {
              return;
            }
            ThenMoreMet(w, l0, l, Now(), {name});
            ThenMore(w, l0, l, Now(), {name});
            StaysRecorded(w, l, Now(), name);
          }
          offset := symMap[names[k]].offset;
        }
        OffsetRecords(w, Now(), names[k], offset);
        RecordKeeps(w, Now(), name, offset);
        RecordExtends(w, l0, Now(), name, offset);
        RecordCloses(w, l0, Now(), name, offset);
        funcData := funcData[name := funcData[name] + [offset]];
        k := k + 1;
      }
      NowComplete(w, l0, Now(), name);
      ok := true;
    }

    /** The relocation loop of `addSymbol`: whatever is referred to is added too.  What has no bytes is
        pointed at the reserved word, if that is large enough for the reference. */
    method AddRelocs(name: string, ghost l0: Layout) returns (ok: bool)
      requires WellFormed(w) && Kept(w, Now()) && name in w.objs && name in symMap
      requires Extends(w, l0, Now()) && Completed(w, l0, Now(), {}) && Closed(w, l0, Now(), {name})
      modifies this
      ensures ok ==> Kept(w, Now()) && Extends(w, l0, Now())
      ensures ok ==> Completed(w, l0, Now(), {}) && Closed(w, l0, Now(), {name})
      ensures ok ==> old(symMap).Keys <= symMap.Keys
      ensures ok ==> forall r :: r in w.objs[name].relocs ==> TargetMet(w, Now(), r)
      ensures Buildable(w) ==> ok
      decreases w.objs.Keys - symMap.Keys, 2
    {
      hide Kept, Extends, Completed, Closed, WellFormed, TargetMet;
      var relocs := w.objs[name].relocs;
      var k := 0;
      while k < |relocs|
        invariant 0 <= k <= |relocs|
        invariant Kept(w, Now()) && Extends(w, l0, Now()) && Completed(w, l0, Now(), {}) && Closed(w, l0, Now(), {name})
        invariant old(symMap).Keys <= symMap.Keys
        invariant forall r :: r in relocs[..k] ==> TargetMet(w, Now(), r)
      {
        ghost var l := Now();
        assert relocs[..k + 1] == relocs[..k] + [relocs[k]] && relocs[k] in relocs;
        Buildables(w, name, relocs[k]);
        ok := AddTarget(relocs[k]);
        if !ok {
          return;
        }
        ThenMoreMet(w, l0, l, Now(), {name});
        ThenMore(w, l0, l, Now(), {});
        KeysStay(w, l, Now());
        AllStillMet(w, l, Now(), relocs[..k]);
        k := k + 1;
      }
      assert relocs[..|relocs|] == relocs;
      ok := true;
    }

    /** The loop body: one reference. */
    method AddTarget(reloc: Reloc) returns (ok: bool)
      requires WellFormed(w) && Kept(w, Now())
      modifies this
      ensures ok ==> Kept(w, Now()) && Extends(w, old(Now()), Now()) && Completed(w, old(Now()), Now(), {})
      ensures ok ==> Closed(w, old(Now()), Now(), {}) && TargetMet(w, Now(), reloc)
      ensures var name := if reloc.typ == Tls then "(TLS)" else reloc.target;
        ok && reloc.target !in w.objs && name != "" ==>
          && name in symMap
          && (name !in old(symMap) && name !in w.synth ==>
                symMap[name].offset
                == if reloc.typ == Tls then reloc.offset else if reloc.typ == CallInd then 0 else -1)
      ensures Buildable(w) && FitsReserved(w, reloc) ==> ok
      decreases w.objs.Keys - symMap.Keys, 1
    {
      hide Kept, Extends, Completed, Closed, Buildable;
      var target := reloc.target;
      ghost var l := Now();
      if target in w.objs {
        ok := AddSymbol(target);
        if !ok {
          return;
        }
        if |w.objs[target].data| == 0 && reloc.size > 0 {
          if reloc.size > WORD {
            return false;
          }
          ghost var l1 := Now();
          ResetKeeps(w, l1, target);
          symMap := symMap[target := symMap[target].(offset := 0)];
          NoFunction(w, l1, Now());
          NoObject(w, l1, Now());
          ThenMoreMet(w, l, l1, Now(), {});
          ThenMore(w, l, l1, Now(), {});
        }
      } else {
        AddExternal(RefName(w, reloc), HostOffset(reloc));
      }
      ok := true;
    }

    /** `addSymbol`: places the symbol and, recursively, all that it refers to. */
    method AddSymbol(name: string) returns (ok: bool)
      requires WellFormed(w) && Kept(w, Now()) && name in w.objs
      modifies this
      ensures ok ==> Kept(w, Now()) && Extends(w, old(Now()), Now()) && Completed(w, old(Now()), Now(), {})
      ensures ok ==> name in symMap && Closed(w, old(Now()), Now(), {})
      ensures Buildable(w) ==> ok
      decreases w.objs.Keys - symMap.Keys, 0
    {
      hide Kept, Extends, Completed, Closed, NotesFunction, WellFormed, TargetMet;
      ghost var l0 := Now();
      if name in symMap {
        Nothing(w, l0);
        NoObject(w, l0, l0);
        return true;
      }
      NotYetNoted(w, l0, name);
      ok := PlaceSymbol(name);
      if !ok {
        return;
      }
      PlacedOne(w, l0, Now(), name);
      OneToMeet(w, l0, Now(), name);
      if w.objs[name].kind == Text {
        ok := ReadFuncData(name, l0);
        if !ok {
          return;
        }
      }
      ok := AddRelocs(name, l0);
      if !ok {
        return;
      }
      var typ := w.objs[name].typ;
      if typ != "" && typ !in symMap && typ !in w.objs {
        ghost var l := Now();
        AddExternal(typ, INVALID_OFFSET);
        AllStillMet(w, l, Now(), w.objs[name].relocs);
        ThenMoreMet(w, l0, l, Now(), {name});
        ThenMore(w, l0, l, Now(), {});
      }
      NowMet(w, l0, Now(), name);
    }

    /** `addSymbols`: the reserved word, all reachable symbols in the given order, then the shift of
        all offsets to where the buffers end up. */
    method AddSymbols(names: seq<string>, reachable: set<string>) returns (ok: bool, ghost met: Layout)
      requires WellFormed(w) && Now() == Layout([], [], [], [], [], map[], map[], [], map[])
      requires forall name :: name in names ==> name in w.objs
      modifies this
      ensures ok ==> Laid(w, met) && Now() == met.(symMap := Shifted(w, met))
      ensures ok ==> forall name :: name in names && name in reachable && w.objs[name].root ==> name in symMap
      ensures ok ==> forall name :: name in met.symMap && name in w.objs ==> AllMet(w, met, name)
      ensures Buildable(w) ==> ok
    {
      hide Kept, Extends, Completed, Closed, WellFormed, AllMet;
      noptrdata := noptrdata + Zeros(WORD);
      ghost var l0 := Now();
      EmptyIsKept(w, l0);
      NoObject(w, l0, l0);
      var k := 0;
      while k < |names|
        invariant 0 <= k <= |names|
        invariant Kept(w, Now()) && Extends(w, l0, Now()) && Completed(w, l0, Now(), {}) && Closed(w, l0, Now(), {})
        invariant forall i :: 0 <= i < k && names[i] in reachable && w.objs[names[i]].root ==> names[i] in symMap
      {
        var name := names[k];
        k := k + 1;
        if name in symMap {
          continue;
        }
        if name !in reachable {
          continue;
        }
        if w.objs[name].root {
          ghost var l := Now();
          ok := AddSymbol(name);
          if !ok {
            met := Now();
            return;
          }
          ThenMoreMet(w, l0, l, Now(), {});
          ThenMore(w, l0, l, Now(), {});
          KeysStay(w, l, Now());
        }
      }
      met := Now();
      AllComplete(w, l0, met);
      AllClosed(w, l0, met);
      ShiftOffsets();
      ok := true;
    }

    /** The last loop of `addSymbols`, in map order. */
    method ShiftOffsets()
      modifies `symMap
      ensures symMap == Shifted(w, old(Now()))
    {
      hide SectionOf, ShiftFor;
      ghost var l := Now();
      var rest := symMap.Keys;
      while rest != {}
        invariant rest <= symMap.Keys == l.symMap.Keys
        invariant forall x :: x in symMap ==> symMap[x] == if x in rest then l.symMap[x] else Shifted(w, l)[x]
        invariant code == l.code && data == l.data && noptrdata == l.noptrdata && bss == l.bss
        decreases rest
      {
        var name :| name in rest;
        rest := rest - {name};
        var offset := ShiftFor(|data|, |noptrdata|, |bss|, SectionOf(w, name));
        symMap := symMap[name := symMap[name].(offset := symMap[name].offset + offset)];
      }
      assert symMap == Shifted(w, l);
    }

    /** The copies in `Load`: code into one mapping, the four data buffers into another, in order. */
    method Load(maxCodeLength: nat, maxDataLength: nat) returns (codeByte: seq<byte>, dataByte: seq<byte>)
      requires |code| <= maxCodeLength && |data| + |noptrdata| + |bss| + |noptrbss| <= maxDataLength
      ensures code <= codeByte && DataSegment(Now()) <= dataByte
      ensures data + noptrdata + bss + noptrbss <= dataByte
    {
      hide Splice;
      var c, d := new byte[maxCodeLength], new byte[maxDataLength];
      SpliceSlices(c[..], 0, code);
      CopyInto(c, 0, code);
      var dataOff := 0;
      ghost var blank := d[..];
      CopyInto(d, dataOff, data);
      dataOff := |data|;
      CopyInto(d, dataOff, noptrdata);
      dataOff := dataOff + |noptrdata|;
      CopyInto(d, dataOff, bss);
      dataOff := dataOff + |bss|;
      CopyInto(d, dataOff, noptrbss);
      FourCopies(blank, data, noptrdata, bss, noptrbss);
      codeByte, dataByte := c[..], d[..];
    }
  }

  lemma NotYetNoted(w: World, l: Layout, name: string)
    requires Kept(w, l) && name !in l.symMap
    ensures name !in l.funcData
  {
  }

  lemma KeysStay(w: World, l: Layout, l': Layout)
    requires Extends(w, l, l')
    ensures l.symMap.Keys <= l'.symMap.Keys
  {
  }

  lemma StaysRecorded(w: World, l: Layout, l': Layout, f: string)
    requires Extends(w, l, l') && f in l.funcData
    ensures f in l'.funcData && l'.funcData[f] == l.funcData[f] && l.symMap.Keys <= l'.symMap.Keys
  {
  }

  lemma OffsetRecords(w: World, l: Layout, name: string, v: int)
    requires Kept(w, l) && if name == "" then v == 0 else name in l.symMap && v == l.symMap[name].offset
    ensures Records(w, l, name, v)
  {
    hide AllApart, FunctionsInOrder, FuncDataRecorded, StringsKept, Whole;
    if name != "" && Placed(w, l, name) {
      assert Faithful(w, l, name);
    }
  }

  lemma RecordExtends(w: World, l0: Layout, l: Layout, f: string, v: int)
    requires Extends(w, l0, l) && Completed(w, l0, l, {f}) && f in l.funcData && f !in l0.funcData
    ensures var l' := l.(funcData := l.funcData[f := l.funcData[f] + [v]]);
            Extends(w, l0, l') && Completed(w, l0, l', {f})
  {
  }

  lemma RecordCloses(w: World, l0: Layout, l: Layout, f: string, v: int)
    requires Closed(w, l0, l, {f}) && f in l.funcData
    ensures Closed(w, l0, l.(funcData := l.funcData[f := l.funcData[f] + [v]]), {f})
  {
    var l' := l.(funcData := l.funcData[f := l.funcData[f] + [v]]);
    forall name | name in l'.symMap && name !in l0.symMap && name !in {f} && name in w.objs
      ensures AllMet(w, l', name)
    {
      assert AllMet(w, l, name);
    }
  }

  lemma OneToMeet(w: World, l: Layout, l': Layout, name: string)
    requires l'.symMap.Keys == l.symMap.Keys + {name}
    ensures Closed(w, l, l', {name})
  {
  }

  lemma AllClosed(w: World, l0: Layout, l: Layout)
    requires Closed(w, l0, l, {}) && l0.symMap == map[]
    ensures forall name :: name in l.symMap && name in w.objs ==> AllMet(w, l, name)
  {
    hide AllMet;
  }

  lemma Buildables(w: World, name: string, r: Reloc)
    requires name in w.objs && r in w.objs[name].relocs
    ensures Buildable(w) ==> FitsReserved(w, r)
  {
  }

  lemma NowComplete(w: World, l0: Layout, l: Layout, f: string)
    requires Completed(w, l0, l, {f}) && f in w.objs && f in l.funcData && |l.funcData[f]| == |w.objs[f].funcData|
    ensures Completed(w, l0, l, {})
  {
  }

  lemma WholeNow(w: World, l: Layout)
    requires Kept(w, l)
    ensures Whole(l)
  {
  }

  lemma EmptyIsKept(w: World, l: Layout)
    requires |l.noptrdata| == 8 && l == Layout([], [], l.noptrdata, [], [], map[], map[], [], map[])
    ensures Kept(w, l) && Extends(w, l, l) && Completed(w, l, l, {})
  {
  }

  /** All symbols met, and the funcdata of every function complete. */
  ghost predicate Laid(w: World, l: Layout) {
    Kept(w, l) && forall f :: f in l.funcs && f in w.objs && f in l.funcData ==> |l.funcData[f]| == |w.objs[f].funcData|
  }

  lemma AllComplete(w: World, l0: Layout, l: Layout)
    requires Kept(w, l) && Completed(w, l0, l, {}) && l0.funcData == map[]
    ensures Laid(w, l)
  {
  }

  // ----- the loaded segment -----

  function DataSegment(l: Layout): seq<byte> {
    l.data + l.noptrdata + l.bss + l.noptrbss
  }

  lemma FourCopies(b: seq<byte>, b1: seq<byte>, b2: seq<byte>, b3: seq<byte>, b4: seq<byte>)
    requires |b1| + |b2| + |b3| + |b4| <= |b|
    ensures b1 + b2 + b3 + b4
         <= Splice(Splice(Splice(Splice(b, 0, b1), |b1|, b2), |b1| + |b2|, b3), |b1| + |b2| + |b3|, b4)
  {
    hide Splice;
    ThenCopy(b, b1, |b1|, b2);
    ThenCopy(b, b1 + b2, |b1| + |b2|, b3);
    ThenCopy(b, b1 + b2 + b3, |b1| + |b2| + |b3|, b4);
    SplicePrefix(b, b1 + b2 + b3 + b4);
  }

  lemma ThenCopy(b: seq<byte>, done: seq<byte>, off: nat, x: seq<byte>)
    requires off == |done| && off + |x| <= |b|
    ensures Splice(Splice(b, 0, done), off, x) == Splice(b, 0, done + x)
  {
    hide Splice;
    SpliceAppend(b, 0, done, x);
  }

  lemma SplicePrefix(b: seq<byte>, x: seq<byte>)
    requires |x| <= |b|
    ensures x <= Splice(b, 0, x)
  {
    hide Splice;
    SpliceRegion(b, 0, x);
  }

  /** How far a section's offsets are moved. */
  function ShiftFor(data: nat, noptrdata: nat, bss: nat, s: Section): nat {
    match s
    case InNoptr => data
    case InBss => data + noptrdata
    case InNoptrBss => data + noptrdata + bss
    case _ => 0
  }

  function Shift(l: Layout, s: Section): nat { ShiftFor(|l.data|, |l.noptrdata|, |l.bss|, s) }

  function Shifted(w: World, l: Layout): map<string, Sym> {
    map name | name in l.symMap :: l.symMap[name].(offset := l.symMap[name].offset + Shift(l, SectionOf(w, name)))
  }

  lemma BufferInSegment(l: Layout, s: Section, i: nat, j: nat)
    requires s != InCode && s != Nowhere && i <= j <= |Buffer(l, s)|
    ensures Shift(l, s) + j <= |DataSegment(l)|
    ensures DataSegment(l)[Shift(l, s) + i..Shift(l, s) + j] == Buffer(l, s)[i..j]
  {
  }

  /** Every symbol with bytes is, at its final offset in the loaded segment, exactly those bytes. */
  lemma FinalBytes(w: World, l: Layout, name: string, codeByte: seq<byte>, dataByte: seq<byte>)
    requires Laid(w, l) && Placed(w, l, name) && l.code <= codeByte && DataSegment(l) <= dataByte
    ensures var b := if SectionOf(w, name) == InCode then codeByte else dataByte;
            var off := Shifted(w, l)[name].offset;
            0 <= off && off + |Content(w, name)| <= |b| && b[off..off + |Content(w, name)|] == Content(w, name)
  {
    hide Content, SectionOf, AllApart, FunctionsInOrder, FuncDataRecorded, StringsKept, DataSegment;
    assert Faithful(w, l, name);
    ContentFits(w, name);
    var off, n, s := l.symMap[name].offset, |Content(w, name)|, SectionOf(w, name);
    if s == InCode {
      assert codeByte[off..off + n] == l.code[off..off + n];
    } else {
      BufferInSegment(l, s, off, off + n);
      var d := DataSegment(l);
      var off' := Shift(l, s) + off;
      assert dataByte[off'..off' + n] == d[off'..off' + n];
    }
  }

  /** Different symbols with bytes never overlap, be they in the same buffer or not. */
  lemma FinalApart(w: World, l: Layout, a: string, b: string)
    requires Laid(w, l) && Placed(w, l, a) && Placed(w, l, b) && a != b
    requires (SectionOf(w, a) == InCode) == (SectionOf(w, b) == InCode)
    ensures var x, y := Shifted(w, l)[a].offset, Shifted(w, l)[b].offset;
            x + Extent(w, a) <= y || y + Extent(w, b) <= x
  {
    hide Content, Extent, SectionOf, FunctionsInOrder, FuncDataRecorded, StringsKept;
    assert Faithful(w, l, a) && Faithful(w, l, b);
    if SectionOf(w, a) == SectionOf(w, b) {
      assert ApartAt(w, l, a, b);
    }
  }

  /** Functions are recorded in increasing address order, each ending before the next begins. */
  lemma FunctionsIncrease(w: World, l: Layout, i: nat, j: nat)
    requires Laid(w, l) && i < j < |l.funcs| && Placed(w, l, l.funcs[i]) && Placed(w, l, l.funcs[j])
    ensures Shifted(w, l)[l.funcs[i]].offset + Extent(w, l.funcs[i]) <= Shifted(w, l)[l.funcs[j]].offset
    ensures Shifted(w, l)[l.funcs[i]].offset < Shifted(w, l)[l.funcs[j]].offset
  {
    hide AllApart, FuncDataRecorded, StringsKept;
    assert IsFunction(w, l.funcs[i]) && IsFunction(w, l.funcs[j]);
    ContentFits(w, l.funcs[i]);
  }

  /** `data` stands at `off`, between `from` and `to`. */
  predicate InPart(b: seq<byte>, off: int, data: seq<byte>, from: nat, to: nat) {
    from <= off && off + |data| <= to <= |b| && b[off..off + |data|] == data
  }

  /** Where the symbols of each kind end up: functions in the code; in the data segment initialized data
      first, then what holds no pointers, then zeros, then zeros that hold no pointers; string constants
      on the heap. */
  lemma FinalPlace(w: World, l: Layout, name: string, codeByte: seq<byte>, dataByte: seq<byte>)
    requires Laid(w, l) && name in l.symMap && name in w.objs && w.objs[name].data != []
    requires l.code <= codeByte && l.data + l.noptrdata + l.bss + l.noptrbss <= dataByte
    ensures var off, bytes := Shifted(w, l)[name].offset, w.objs[name].data;
            var data, noptr, bss := |l.data|, |l.data| + |l.noptrdata|, |l.data| + |l.noptrdata| + |l.bss|;
            match w.objs[name].kind
            case Text => InPart(codeByte, off, bytes, 0, |l.code|)
            case SData => InPart(dataByte, off, bytes, 0, data)
            case NoptrData | ROData =>
              if "go:string." <= name then name in l.heapStrings && l.heapStrings[name] == bytes
              else InPart(dataByte, off, bytes, data, noptr)
            case Bss => InPart(dataByte, off, bytes, noptr, bss)
            case NoptrBss => InPart(dataByte, off, bytes, bss, bss + |l.noptrbss|)
            case _ => true
  {
    hide AllApart, FunctionsInOrder, FuncDataRecorded, DataSegment;
    assert DataSegment(l) == l.data + l.noptrdata + l.bss + l.noptrbss by { SegmentIs(l); }
    if Placed(w, l, name) {
      assert Faithful(w, l, name);
      ContentFits(w, name);
      FinalBytes(w, l, name, codeByte, dataByte);
    }
  }

  /** Symbols made up here end up in the data without pointers. */
  lemma FinalPlaceMadeUp(w: World, l: Layout, name: string, dataByte: seq<byte>)
    requires Laid(w, l) && name in l.symMap && name !in w.objs && name in w.synth && w.synth[name] != []
    requires l.data + l.noptrdata + l.bss + l.noptrbss <= dataByte
    ensures InPart(dataByte, Shifted(w, l)[name].offset, w.synth[name], |l.data|, |l.data| + |l.noptrdata|)
  {
    hide AllApart, FunctionsInOrder, FuncDataRecorded, DataSegment;
    assert DataSegment(l) == l.data + l.noptrdata + l.bss + l.noptrbss by { SegmentIs(l); }
    assert Placed(w, l, name) && Faithful(w, l, name);
    FinalBytes(w, l, name, l.code, dataByte);
  }

  lemma SegmentIs(l: Layout)
    ensures DataSegment(l) == l.data + l.noptrdata + l.bss + l.noptrbss
  {
  }

  /** A funcdata offset was recorded before the shift; the runtime adds it to `gofunc`, the address of
      the no-pointer data, and so reaches the final address of read-only data and the like.  It is never
      zero, which means none. */
  lemma FuncDataReaches(w: World, l: Layout, f: string, k: nat, dataBase: nat)
    requires Laid(w, l) && f in l.funcs && f in w.objs && k < |w.objs[f].funcData|
    ensures f in l.funcData && |l.funcData[f]| == |w.objs[f].funcData|
    ensures var g, gofunc := w.objs[f].funcData[k], dataBase + |l.data|;
            && (g == "" ==> l.funcData[f][k] == 0)
            && (g != "" && g in w.objs && w.objs[g].kind in {NoptrData, ROData} && w.objs[g].data != []
                && !("go:string." <= g) ==>
                  g in l.symMap && l.funcData[f][k] > 0
                  && gofunc + l.funcData[f][k] == dataBase + Shifted(w, l)[g].offset)
  {
    hide AllFaithful, AllApart, StringsKept;
    assert f in l.funcData;
    assert Records(w, l, w.objs[f].funcData[k], l.funcData[f][k]);
  }
}
