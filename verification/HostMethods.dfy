/** itab.go and module.go: several loaded modules patch the same methods of the host's types.  A host
    method that the host's linker found unreachable is made to point into a loaded module, and so are
    the host's itab entries for it; unloading a module has to leave none of them behind. */
module HostMethods {
  import opened Optional

  type ModuleId = nat
  type Slot = (nat, nat)  // a host type and the index of one of its methods

  /** Where a method's code is; `Unreachable` stands for the offset -1. */
  datatype Target = Unreachable | Host(addr: nat) | In(m: ModuleId, off: nat)

  /** A host method: its two entry points, and whether its type offset was -1 to begin with. */
  datatype Method = Method(ifn: Target, tfn: Target, mtypMissing: bool)

  /** The same method in a loaded type, by offsets into the module's text. */
  datatype JitMethod = JitMethod(ifn: Option<nat>, tfn: Option<nat>, mtyp: bool)

  type JitTypes = map<nat, seq<JitMethod>>  // by the host type each duplicates

  /** `patchedTypeMethodsIfn` and `patchedTypeMethodsTfn` of one module. */
  datatype Patches = Patches(ifn: set<Slot>, tfn: set<Slot>)

  /** Everything the patching touches.  `entries` are the itab entries of the host, by the method slot
      each resolves to, and `fun` is what they hold; `list` is the list of modules in load order. */
  datatype State = State(
    count: map<nat, nat>,
    methods: map<Slot, Method>,
    missing: set<Slot>,
    entries: seq<Slot>,
    fun: seq<Target>,
    patched: map<ModuleId, Patches>,
    list: seq<ModuleId>)

  predicate Distinct(list: seq<ModuleId>) {
    forall i, j :: 0 <= i < j < |list| ==> list[i] != list[j]
  }

  ghost predicate WellFormed(s: State) {
    && |s.entries| == |s.fun|
    && (forall slot :: slot in s.methods <==> slot.0 in s.count && slot.1 < s.count[slot.0])
    && (forall e :: 0 <= e < |s.entries| ==> s.entries[e] in s.methods)
    && (forall m :: m in s.list <==> m in s.patched)
    && Distinct(s.list)
    && s.missing <= s.methods.Keys
    && (forall m :: m in s.patched ==> s.patched[m].ifn + s.patched[m].tfn <= s.missing)
  }

  // ----- one load and one unload, as relations on states -----

  predicate NeedsPatch(h: Method, marked: bool) {
    h.tfn.Unreachable? || h.ifn.Unreachable? || h.mtypMissing || marked
  }

  /** A host method after the pass for one module. */
  function AfterPatch(h: Method, marked: bool, m: ModuleId, j: JitMethod): Method {
    if !NeedsPatch(h, marked) then h
    else Method(
           if j.ifn.Some? then In(m, j.ifn.value) else h.ifn,
           if j.tfn.Some? then In(m, j.tfn.value) else h.tfn,
           h.mtypMissing)
  }

  /** Loaded types keep all their methods: no dead code is eliminated from them. */
  ghost predicate Complete(jit: JitTypes) {
    forall t, i :: t in jit && 0 <= i < |jit[t]| ==> jit[t][i].ifn.Some? && jit[t][i].tfn.Some?
  }

  /** The module brings a copy of the slot's type, with as many methods. */
  ghost predicate Covers(s: State, jit: JitTypes, slot: Slot) {
    slot.0 in jit && slot.0 in s.count && |jit[slot.0]| == s.count[slot.0] && slot.1 < s.count[slot.0]
  }

  ghost predicate Touched(s: State, jit: JitTypes, slot: Slot) {
    slot in s.methods && Covers(s, jit, slot) && NeedsPatch(s.methods[slot], slot in s.missing)
  }

  ghost function TouchedSlots(s: State, jit: JitTypes): set<Slot> {
    set slot | slot in s.methods && Touched(s, jit, slot)
  }

  /** Loading `m`: what is touched points into `m`, is marked missing and is recorded. */
  ghost predicate LoadStep(s: State, s': State, m: ModuleId, jit: JitTypes)
    requires WellFormed(s)
  {
    var touched := TouchedSlots(s, jit);
    && s'.count == s.count && s'.methods.Keys == s.methods.Keys
    && (forall slot :: slot in s.methods ==>
          s'.methods[slot] == if slot in touched
                              then AfterPatch(s.methods[slot], slot in s.missing, m, jit[slot.0][slot.1])
                              else s.methods[slot])
    && s'.missing == s.missing + touched
    && s'.entries == s.entries && |s'.fun| == |s.fun|
    && (forall e :: 0 <= e < |s.entries| ==>
          s'.fun[e] == if s.entries[e] in touched then s'.methods[s.entries[e]].ifn else s.fun[e])
    && s'.patched == s.patched[m := Patches(touched, touched)]
    && s'.list == s.list + [m]
  }

  ghost predicate PatchedType(p: Patches, t: nat) {
    exists slot :: slot in p.ifn + p.tfn && slot.0 == t
  }

  /** Another loaded module has patched methods of the type. */
  ghost predicate OtherPatched(s: State, m: ModuleId, t: nat) {
    exists o :: o in s.patched && o != m && PatchedType(s.patched[o], t)
  }

  ghost predicate Recorded(s: State, slot: Slot) {
    exists o :: o in s.patched && slot in s.patched[o].ifn + s.patched[o].tfn
  }

  /** `removeModule` on the list. */
  function Without(list: seq<ModuleId>, m: ModuleId): (r: seq<ModuleId>)
    ensures m !in list ==> r == list
  {
    if list == [] then [] else if list[0] == m then list[1..] else [list[0]] + Without(list[1..], m)
  }

  /** Unloading `m`: what it had patched is reset, unless another module patched the same type; then
      the slots stay as they are, and itab entries are at most copied from them again. */
  ghost predicate UnloadStep(s: State, s': State, m: ModuleId)
    requires WellFormed(s) && m in s.patched
  {
    var p := s.patched[m];
    && s'.count == s.count && s'.methods.Keys == s.methods.Keys
    && (forall slot :: slot in s.methods ==> UnloadedMethod(s, m, slot, s'.methods[slot]))
    && s'.missing == s.missing
    && s'.entries == s.entries && |s'.fun| == |s.fun|
    && (forall e :: 0 <= e < |s.entries| ==> UnloadedEntry(s, m, e, s'.methods[s.entries[e]], s'.fun[e]))
    && s'.patched == s.patched - {m}
    && s'.list == Without(s.list, m)
  }

  ghost predicate UnloadedMethod(s: State, m: ModuleId, slot: Slot, h': Method)
    requires slot in s.methods && m in s.patched
  {
    var h, p := s.methods[slot], s.patched[m];
    && h'.ifn == (if slot in p.ifn && !OtherPatched(s, m, slot.0) then Unreachable else h.ifn)
    && h'.tfn == (if slot in p.tfn && !OtherPatched(s, m, slot.0) then Unreachable else h.tfn)
    && h'.mtypMissing == h.mtypMissing
  }

  ghost predicate UnloadedEntry(s: State, m: ModuleId, e: nat, h': Method, now: Target)
    requires e < |s.entries| == |s.fun| && m in s.patched
  {
    var slot, p := s.entries[e], s.patched[m];
    && (now == s.fun[e] || (Recorded(s, slot) && now == h'.ifn))
    && (slot in p.ifn + p.tfn && !OtherPatched(s, m, slot.0) ==> now == h'.ifn)
  }

  // ----- what every run keeps -----

  predicate RefersTo(t: Target, m: ModuleId) { t.In? && t.m == m }

  predicate Loaded(s: State, t: Target) { t.In? ==> t.m in s.list }

  /** No host slot and no itab entry refers to a module that is not loaded. */
  ghost predicate Safe(s: State) {
    && (forall slot :: slot in s.methods ==> Loaded(s, s.methods[slot].ifn) && Loaded(s, s.methods[slot].tfn))
    && (forall e :: 0 <= e < |s.fun| ==> Loaded(s, s.fun[e]))
  }

  /** A module has recorded the same methods in both maps. */
  ghost predicate Agree(s: State) {
    forall m :: m in s.patched ==> s.patched[m].ifn == s.patched[m].tfn
  }

  /** A module that patched a type has recorded all its missing methods. */
  ghost predicate Covering(s: State) {
    forall m, a, b :: m in s.patched && a in s.patched[m].ifn && b in s.missing && a.0 == b.0 ==> b in s.patched[m].ifn
  }

  /** Once a method of a type is marked missing, all that need a patch are. */
  ghost predicate AllMarked(s: State) {
    forall a, b :: a in s.missing && b in s.methods && a.0 == b.0 && NeedsPatch(s.methods[b], false) ==> b in s.missing
  }

  /** Slots never marked are the host's own. */
  ghost predicate HostOwn(s: State) {
    forall slot :: slot in s.methods && slot !in s.missing ==> !s.methods[slot].ifn.In? && !s.methods[slot].tfn.In?
  }

  /** A marked slot refers to a module that recorded it or, if none did, is unreachable. */
  ghost predicate SlotKept(s: State, slot: Slot, t: Target) {
    (t.In? && t.m in s.patched && slot in s.patched[t.m].ifn) || (t.Unreachable? && !Recorded(s, slot))
  }

  ghost predicate SlotsKept(s: State) {
    forall slot :: slot in s.missing && slot in s.methods ==>
      SlotKept(s, slot, s.methods[slot].ifn) && SlotKept(s, slot, s.methods[slot].tfn)
  }

  /** An itab entry holds what its slot holds, once that is marked; before, it is the host's own. */
  ghost predicate EntriesFollow(s: State)
    requires WellFormed(s)
  {
    forall e :: 0 <= e < |s.fun| ==>
      if s.entries[e] in s.missing then s.fun[e] == s.methods[s.entries[e]].ifn else !s.fun[e].In?
  }

  /** The bookkeeping: what every load keeps, and every unload that may go ahead. */
  ghost predicate Kept(s: State) {
    WellFormed(s) && Agree(s) && Covering(s) && AllMarked(s) && HostOwn(s) && SlotsKept(s) && EntriesFollow(s)
  }

  lemma KeptIsSafe(s: State)
    requires Kept(s)
    ensures Safe(s)
  {
    hide Covering, AllMarked, Agree;
  }

  lemma LoadWellFormed(s: State, s': State, m: ModuleId, jit: JitTypes)
    requires WellFormed(s) && m !in s.patched && LoadStep(s, s', m, jit)
    ensures WellFormed(s')
  {
    hide Touched;
  }

  lemma LoadSlots(s: State, s': State, m: ModuleId, jit: JitTypes)
    requires WellFormed(s) && m !in s.patched && LoadStep(s, s', m, jit) && Complete(jit) && SlotsKept(s) && HostOwn(s)
    ensures SlotsKept(s') && HostOwn(s')
  {
    var touched := TouchedSlots(s, jit);
    assert s'.patched[m].ifn == touched;
    forall slot | slot in s'.missing && slot in s'.methods
      ensures SlotKept(s', slot, s'.methods[slot].ifn) && SlotKept(s', slot, s'.methods[slot].tfn)
    {
      if slot !in touched {
        assert SlotKept(s, slot, s.methods[slot].ifn) && SlotKept(s, slot, s.methods[slot].tfn);
        RecordedBefore(s, s', m, slot);
      }
    }
  }

  lemma RecordedBefore(s: State, s': State, m: ModuleId, slot: Slot)
    requires m !in s.patched && m in s'.patched && s'.patched == s.patched[m := s'.patched[m]]
    requires slot !in s'.patched[m].ifn + s'.patched[m].tfn
    ensures Recorded(s', slot) <==> Recorded(s, slot)
  {
    if Recorded(s, slot) {
      var o :| o in s.patched && slot in s.patched[o].ifn + s.patched[o].tfn;
      assert o in s'.patched && slot in s'.patched[o].ifn + s'.patched[o].tfn;
    }
  }

  /** What is touched in a type: all its marked methods, and all that need a patch. */
  lemma TouchesAll(s: State, jit: JitTypes, a: Slot, b: Slot)
    requires WellFormed(s) && a in TouchedSlots(s, jit) && b in s.methods && a.0 == b.0
    requires b in s.missing || NeedsPatch(s.methods[b], false)
    ensures b in TouchedSlots(s, jit)
  {
  }

  lemma LoadCovering(s: State, s': State, m: ModuleId, jit: JitTypes)
    requires WellFormed(s) && m !in s.patched && LoadStep(s, s', m, jit) && Complete(jit)
    requires Covering(s) && AllMarked(s) && Agree(s)
    ensures Covering(s') && Agree(s')
  {
    hide TouchedSlots;
    forall o, a, b | o in s'.patched && a in s'.patched[o].ifn && b in s'.missing && a.0 == b.0
      ensures b in s'.patched[o].ifn
    {
      if o == m {
        TouchedIs(s, jit, b);
        TouchesAll(s, jit, a, b);
      } else {
        assert a in s.missing;
        MarkedNow(s, jit, a, b);
      }
    }
  }

  lemma LoadAllMarked(s: State, s': State, m: ModuleId, jit: JitTypes)
    requires WellFormed(s) && LoadStep(s, s', m, jit) && AllMarked(s)
    ensures AllMarked(s')
  {
    hide TouchedSlots;
    forall a, b | a in s'.missing && b in s'.methods && a.0 == b.0 && NeedsPatch(s'.methods[b], false)
      ensures b in s'.missing
    {
      NeededBefore(s, s', m, jit, b);
      if a !in s.missing {
        TouchesAll(s, jit, a, b);
      }
    }
  }

  lemma TouchedIs(s: State, jit: JitTypes, slot: Slot)
    ensures slot in TouchedSlots(s, jit)
      ==> slot in s.methods && NeedsPatch(s.methods[slot], slot in s.missing)
  {
  }

  /** Nothing new is marked in a type that had a marked method. */
  lemma MarkedNow(s: State, jit: JitTypes, a: Slot, b: Slot)
    requires WellFormed(s) && AllMarked(s) && a in s.missing && a.0 == b.0 && b in s.missing + TouchedSlots(s, jit)
    ensures b in s.missing
  {
  }

  lemma NeededBefore(s: State, s': State, m: ModuleId, jit: JitTypes, slot: Slot)
    requires WellFormed(s) && LoadStep(s, s', m, jit) && slot in s.methods && NeedsPatch(s'.methods[slot], false)
    ensures slot in s.missing || NeedsPatch(s.methods[slot], false)
  {
  }

  lemma LoadEntries(s: State, s': State, m: ModuleId, jit: JitTypes)
    requires WellFormed(s) && WellFormed(s') && LoadStep(s, s', m, jit) && EntriesFollow(s)
    ensures EntriesFollow(s')
  {
    hide Touched;
  }

  /** Loading a module with complete types keeps it all. */
  lemma LoadKeeps(s: State, s': State, m: ModuleId, jit: JitTypes)
    requires Kept(s) && m !in s.patched && Complete(jit) && LoadStep(s, s', m, jit)
    ensures Kept(s')
  {
    hide LoadStep, WellFormed, Agree, Covering, AllMarked, HostOwn, SlotsKept, EntriesFollow, Complete;
    LoadWellFormed(s, s', m, jit);
    LoadSlots(s, s', m, jit);
    LoadCovering(s, s', m, jit);
    LoadAllMarked(s, s', m, jit);
    LoadEntries(s, s', m, jit);
  }

  /** The module brings a copy of the slot's type with as many methods, and the host's method is
      unreachable by one of its entry points, lacks its type offset, or was patched before. */
  ghost predicate ToPatch(s: State, jit: JitTypes, slot: Slot)
    requires slot in s.methods
  {
    && slot.0 in jit && slot.0 in s.count && |jit[slot.0]| == s.count[slot.0] && slot.1 < |jit[slot.0]|
    && (s.methods[slot].ifn == Unreachable || s.methods[slot].tfn == Unreachable || s.methods[slot].mtypMissing
        || slot in s.missing)
  }

  /** After a load of complete types, exactly the methods to patch point at the module's own code for them:
      each entry point at the same one of the copy, and itab entries at the one for interface calls. */
  lemma LoadPointsInside(s: State, s': State, m: ModuleId, jit: JitTypes)
    requires WellFormed(s) && Complete(jit) && LoadStep(s, s', m, jit)
    ensures forall slot :: slot in s.methods ==>
      if ToPatch(s, jit, slot)
      then && jit[slot.0][slot.1].ifn.Some? && s'.methods[slot].ifn == In(m, jit[slot.0][slot.1].ifn.value)
           && jit[slot.0][slot.1].tfn.Some? && s'.methods[slot].tfn == In(m, jit[slot.0][slot.1].tfn.value)
           && s'.methods[slot].mtypMissing == s.methods[slot].mtypMissing && slot in s'.missing
      else s'.methods[slot] == s.methods[slot] && (slot in s'.missing <==> slot in s.missing)
    ensures |s'.fun| == |s.fun| == |s.entries| && s'.entries == s.entries
    ensures forall e :: 0 <= e < |s.fun| ==>
      s'.fun[e] == if ToPatch(s, jit, s.entries[e])
                   then In(m, jit[s.entries[e].0][s.entries[e].1].ifn.value) else s.fun[e]
  {
    forall slot | slot in s.methods ensures slot in TouchedSlots(s, jit) <==> ToPatch(s, jit, slot) {
      assert slot in TouchedSlots(s, jit) <==> Touched(s, jit, slot);
    }
  }

  // ----- unloading -----

  lemma {:induction false} WithoutMembers(list: seq<ModuleId>, m: ModuleId, x: ModuleId)
    requires Distinct(list)
    ensures x in Without(list, m) <==> x in list && x != m
  {
    if list != [] {
      assert list == [list[0]] + list[1..];
      assert Distinct(list[1..]);
      if list[0] != m {
        WithoutMembers(list[1..], m, x);
      }
    }
  }

  lemma {:induction false} WithoutDistinct(list: seq<ModuleId>, m: ModuleId)
    requires Distinct(list)
    ensures Distinct(Without(list, m))
  {
    if list != [] {
      var rest := list[1..];
      assert Distinct(rest);
      if list[0] != m {
        WithoutDistinct(rest, m);
        WithoutMembers(rest, m, list[0]);
        assert list[0] !in rest;
        DistinctCons(list[0], Without(rest, m));
      }
    }
  }

  lemma DistinctCons(x: ModuleId, list: seq<ModuleId>)
    requires Distinct(list) && x !in list
    ensures Distinct([x] + list)
  {
  }

  lemma WithoutIs(list: seq<ModuleId>, m: ModuleId)
    requires Distinct(list)
    ensures Distinct(Without(list, m)) && forall x :: x in Without(list, m) <==> x in list && x != m
  {
    WithoutDistinct(list, m);
    forall x ensures x in Without(list, m) <==> x in list && x != m {
      WithoutMembers(list, m, x);
    }
  }

  lemma UnloadWellFormed(s: State, s': State, m: ModuleId)
    requires WellFormed(s) && m in s.patched && UnloadStep(s, s', m)
    ensures WellFormed(s')
  {
    hide UnloadedMethod, UnloadedEntry;
    WithoutIs(s.list, m);
  }

  /** Which modules but `m` have recorded a slot is not touched by unloading it. */
  lemma RecordedAfter(s: State, s': State, m: ModuleId, slot: Slot)
    requires m in s.patched && s'.patched == s.patched - {m}
    ensures Recorded(s', slot) ==> Recorded(s, slot) && OtherPatched(s, m, slot.0)
    ensures Recorded(s, slot) ==> Recorded(s', slot) || slot in s.patched[m].ifn + s.patched[m].tfn
  {
    if Recorded(s', slot) {
      var o :| o in s'.patched && slot in s'.patched[o].ifn + s'.patched[o].tfn;
      assert o in s.patched && o != m && slot in s.patched[o].ifn + s.patched[o].tfn;
      assert PatchedType(s.patched[o], slot.0);
    }
    if Recorded(s, slot) && slot !in s.patched[m].ifn + s.patched[m].tfn {
      var o :| o in s.patched && slot in s.patched[o].ifn + s.patched[o].tfn;
      assert o in s'.patched && slot in s'.patched[o].ifn + s'.patched[o].tfn;
    }
  }

  /** A marked slot of a type another module patched is recorded by that module. */
  lemma OtherRecorded(s: State, m: ModuleId, slot: Slot)
    requires Covering(s) && Agree(s) && slot in s.missing && OtherPatched(s, m, slot.0)
    ensures exists o :: o in s.patched && o != m && slot in s.patched[o].ifn
  {
    var o :| o in s.patched && o != m && PatchedType(s.patched[o], slot.0);
    var a :| a in s.patched[o].ifn + s.patched[o].tfn && a.0 == slot.0;
    assert a in s.patched[o].ifn;
  }

  /** What unloading makes of one entry point of a marked slot. */
  lemma UnloadSlot(s: State, s': State, m: ModuleId, slot: Slot, t: Target, t': Target)
    requires m in s.patched && s'.patched == s.patched - {m} && SlotKept(s, slot, t)
    requires t' == if slot in s.patched[m].ifn && !OtherPatched(s, m, slot.0) then Unreachable else t
    ensures RefersTo(t', m) <==> RefersTo(t, m) && OtherPatched(s, m, slot.0)
    ensures !RefersTo(t', m) ==> SlotKept(s', slot, t')
  {
    RecordedAfter(s, s', m, slot);
    if t.In? && t.m != m {
      assert PatchedType(s.patched[t.m], slot.0);
      assert OtherPatched(s, m, slot.0);
    }
    if t.Unreachable? {
      assert slot !in s.patched[m].ifn;
    }
  }

  /** What a caller can look at before unloading `m`: every slot that refers to it belongs to a type no
      other loaded module has patched. */
  ghost predicate CanUnload(s: State, m: ModuleId) {
    forall slot :: slot in s.methods && (RefersTo(s.methods[slot].ifn, m) || RefersTo(s.methods[slot].tfn, m))
      ==> !OtherPatched(s, m, slot.0)
  }

  lemma UnloadSlots(s: State, s': State, m: ModuleId)
    requires Kept(s) && m in s.patched && UnloadStep(s, s', m) && CanUnload(s, m)
    ensures SlotsKept(s') && HostOwn(s')
  {
    hide SlotKept, OtherPatched, EntriesFollow, Covering, Agree, AllMarked, UnloadedEntry;
    forall slot | slot in s'.missing && slot in s'.methods
      ensures SlotKept(s', slot, s'.methods[slot].ifn) && SlotKept(s', slot, s'.methods[slot].tfn)
    {
      var h, h' := s.methods[slot], s'.methods[slot];
      assert UnloadedMethod(s, m, slot, h');
      AgreesOn(s, m, slot);
      UnloadSlot(s, s', m, slot, h.ifn, h'.ifn);
      UnloadSlot(s, s', m, slot, h.tfn, h'.tfn);
    }
    forall slot | slot in s'.methods && slot !in s'.missing
      ensures !s'.methods[slot].ifn.In? && !s'.methods[slot].tfn.In?
    {
      assert UnloadedMethod(s, m, slot, s'.methods[slot]);
    }
  }

  lemma AgreesOn(s: State, m: ModuleId, slot: Slot)
    requires Agree(s) && m in s.patched
    ensures slot in s.patched[m].ifn <==> slot in s.patched[m].tfn
  {
  }

  /** Unloading marks no method, but resetting may leave more to patch; those were marked before. */
  lemma UnloadCovering(s: State, s': State, m: ModuleId)
    requires WellFormed(s) && m in s.patched && UnloadStep(s, s', m) && Covering(s) && AllMarked(s) && Agree(s)
    ensures Covering(s') && AllMarked(s') && Agree(s')
  {
    hide OtherPatched, UnloadedEntry;
    forall a, b | a in s'.missing && b in s'.methods && a.0 == b.0 && NeedsPatch(s'.methods[b], false)
      ensures b in s'.missing
    {
      assert UnloadedMethod(s, m, b, s'.methods[b]);
      assert b in s.missing || NeedsPatch(s.methods[b], false);
    }
  }

  lemma UnloadEntries(s: State, s': State, m: ModuleId)
    requires Kept(s) && m in s.patched && UnloadStep(s, s', m) && WellFormed(s')
    ensures EntriesFollow(s')
  {
    hide OtherPatched, AllMarked, Covering, HostOwn, SlotsKept;
    forall e | 0 <= e < |s'.fun|
      ensures if s'.entries[e] in s'.missing then s'.fun[e] == s'.methods[s'.entries[e]].ifn else !s'.fun[e].In?
    {
      var slot := s.entries[e];
      assert UnloadedEntry(s, m, e, s'.methods[slot], s'.fun[e]);
      assert UnloadedMethod(s, m, slot, s'.methods[slot]);
      AgreesOn(s, m, slot);
      if slot !in s.missing {
        assert !Recorded(s, slot);
      }
    }
  }

  /** Unloading leaves no reference to `m` behind exactly when it may go ahead, and then keeps all the
      rest, whatever order modules are unloaded in. */
  lemma UnloadIff(s: State, s': State, m: ModuleId)
    requires Kept(s) && m in s.patched && UnloadStep(s, s', m)
    ensures CanUnload(s, m) ==> Kept(s')
    ensures Safe(s') <==> CanUnload(s, m)
  {
    hide UnloadStep, WellFormed, Agree, Covering, AllMarked, HostOwn, SlotsKept, EntriesFollow, Safe;
    UnloadWellFormed(s, s', m);
    UnloadEntries(s, s', m);
    UnloadCovering(s, s', m);
    if CanUnload(s, m) {
      UnloadSlots(s, s', m);
      KeptIsSafe(s');
    } else {
      var slot :| slot in s.methods && (RefersTo(s.methods[slot].ifn, m) || RefersTo(s.methods[slot].tfn, m))
        && OtherPatched(s, m, slot.0);
      StaysBehind(s, s', m, slot);
    }
  }

  lemma StaysBehind(s: State, s': State, m: ModuleId, slot: Slot)
    requires WellFormed(s) && m in s.patched && UnloadStep(s, s', m) && slot in s.methods
    requires RefersTo(s.methods[slot].ifn, m) || RefersTo(s.methods[slot].tfn, m)
    requires OtherPatched(s, m, slot.0)
    ensures !Safe(s')
  {
    assert UnloadedMethod(s, m, slot, s'.methods[slot]);
    WithoutIs(s.list, m);
  }

  // ----- unloading in load order -----

  /** The module a slot refers to is the last one on the list that recorded the slot. */
  ghost predicate Newest(s: State, slot: Slot, t: Target) {
    forall i, j ::
      0 <= i < j < |s.list| && t.In? && s.list[i] == t.m && s.list[j] in s.patched
      ==> slot !in s.patched[s.list[j]].ifn
  }

  ghost predicate LatestOwns(s: State) {
    forall slot :: slot in s.methods ==> Newest(s, slot, s.methods[slot].ifn) && Newest(s, slot, s.methods[slot].tfn)
  }

  lemma LoadKeepsLatest(s: State, s': State, m: ModuleId, jit: JitTypes)
    requires Kept(s) && LatestOwns(s) && m !in s.patched && Complete(jit) && LoadStep(s, s', m, jit)
    ensures LatestOwns(s')
  {
    hide Covering, AllMarked, HostOwn, SlotsKept, EntriesFollow, Touched, TouchedSlots, Newest, Agree, Complete;
    forall slot | slot in s'.methods
      ensures Newest(s', slot, s'.methods[slot].ifn) && Newest(s', slot, s'.methods[slot].tfn)
    {
      if slot in TouchedSlots(s, jit) {
        TouchedTargets(s, s', m, jit, slot);
        NewestIsLast(s, s', m, slot, s'.methods[slot].ifn);
        NewestIsLast(s, s', m, slot, s'.methods[slot].tfn);
      } else {
        NewestBefore(s, s', m, slot, s.methods[slot].ifn);
        NewestBefore(s, s', m, slot, s.methods[slot].tfn);
      }
    }
  }

  lemma NewestIsLast(s: State, s': State, m: ModuleId, slot: Slot, t: Target)
    requires s'.list == s.list + [m] && m !in s.list && RefersTo(t, m)
    ensures Newest(s', slot, t)
  {
  }

  lemma NewestBefore(s: State, s': State, m: ModuleId, slot: Slot, t: Target)
    requires s'.list == s.list + [m] && m in s'.patched && s'.patched == s.patched[m := s'.patched[m]]
    requires m !in s.list && slot !in s'.patched[m].ifn && Newest(s, slot, t)
    ensures Newest(s', slot, t)
  {
  }

  lemma TouchedTargets(s: State, s': State, m: ModuleId, jit: JitTypes, slot: Slot)
    requires WellFormed(s) && Complete(jit) && LoadStep(s, s', m, jit) && slot in TouchedSlots(s, jit)
    ensures RefersTo(s'.methods[slot].ifn, m) && RefersTo(s'.methods[slot].tfn, m)
  {
  }

  /** The oldest module can always be unloaded: whoever else patched a type owns its slots by now. */
  lemma OldestCanBeUnloaded(s: State)
    requires Kept(s) && LatestOwns(s) && s.list != []
    ensures CanUnload(s, s.list[0])
  {
    hide AllMarked, EntriesFollow, OtherPatched;
    var m := s.list[0];
    forall slot | slot in s.methods && (RefersTo(s.methods[slot].ifn, m) || RefersTo(s.methods[slot].tfn, m))
      ensures !OtherPatched(s, m, slot.0)
    {
      assert Newest(s, slot, s.methods[slot].ifn) && Newest(s, slot, s.methods[slot].tfn);
      if OtherPatched(s, m, slot.0) {
        OtherRecorded(s, m, slot);
        var o :| o in s.patched && o != m && slot in s.patched[o].ifn;
        var j :| 0 <= j < |s.list| && s.list[j] == o;
      }
    }
  }

  lemma UnloadOldestKeepsLatest(s: State, s': State)
    requires Kept(s) && LatestOwns(s) && s.list != [] && s.list[0] in s.patched && UnloadStep(s, s', s.list[0])
    ensures LatestOwns(s')
  {
    hide Covering, AllMarked, HostOwn, SlotsKept, EntriesFollow, OtherPatched, UnloadedEntry, Newest, Agree;
    forall slot | slot in s'.methods
      ensures Newest(s', slot, s'.methods[slot].ifn) && Newest(s', slot, s'.methods[slot].tfn)
    {
      assert UnloadedMethod(s, s.list[0], slot, s'.methods[slot]);
      assert Newest(s, slot, s.methods[slot].ifn) && Newest(s, slot, s.methods[slot].tfn);
      StillNewest(s, s', slot, s.methods[slot].ifn);
      StillNewest(s, s', slot, s.methods[slot].tfn);
      NewestUnreachable(s', slot);
    }
  }

  lemma NewestUnreachable(s: State, slot: Slot)
    ensures Newest(s, slot, Unreachable)
  {
  }

  lemma StillNewest(s: State, s': State, slot: Slot, t: Target)
    requires s.list != [] && s'.list == s.list[1..] && s'.patched == s.patched - {s.list[0]} && Newest(s, slot, t)
    ensures Newest(s', slot, t)
  {
    forall i, j | 0 <= i < j < |s'.list| && t.In? && s'.list[i] == t.m && s'.list[j] in s'.patched
      ensures slot !in s'.patched[s'.list[j]].ifn
    {
      assert s.list[i + 1] == t.m && s.list[j + 1] in s.patched;
    }
  }

  // ----- whole runs -----

  datatype Event = Load(m: ModuleId, jit: JitTypes) | Unload(m: ModuleId)

  /** The host before anything is loaded. */
  ghost predicate Fresh(s: State) {
    && WellFormed(s) && s.list == [] && s.missing == {} && s.patched == map[]
    && (forall slot :: slot in s.methods ==> !s.methods[slot].ifn.In? && !s.methods[slot].tfn.In?)
    && (forall e :: 0 <= e < |s.fun| ==> !s.fun[e].In?)
  }

  /** A load of a module not on the list, with complete types, or an unload of the oldest one. */
  ghost predicate Step(s: State, ev: Event, s': State) {
    WellFormed(s)
    && match ev
       case Load(m, jit) => m !in s.patched && Complete(jit) && LoadStep(s, s', m, jit)
       case Unload(m) => m in s.patched && s.list != [] && m == s.list[0] && UnloadStep(s, s', m)
  }

  ghost predicate Run(states: seq<State>, events: seq<Event>) {
    |states| == |events| + 1 && Fresh(states[0])
    && forall k :: 0 <= k < |events| ==> Step(states[k], events[k], states[k + 1])
  }

  lemma StepKeeps(s: State, ev: Event, s': State)
    requires Kept(s) && LatestOwns(s) && Step(s, ev, s')
    ensures Kept(s') && LatestOwns(s')
  {
    hide Kept, LatestOwns, LoadStep, UnloadStep, Complete, CanUnload, WellFormed;
    match ev
    case Load(m, jit) =>
      LoadKeeps(s, s', m, jit);
      LoadKeepsLatest(s, s', m, jit);
    case Unload(m) =>
      OldestCanBeUnloaded(s);
      UnloadIff(s, s', m);
      UnloadOldestKeepsLatest(s, s');
  }

  lemma FreshIsKept(s: State)
    requires Fresh(s)
    ensures Kept(s) && LatestOwns(s)
  {
  }

  lemma {:induction false} RunKeeps(states: seq<State>, events: seq<Event>, k: nat)
    requires Run(states, events) && k < |states|
    ensures Kept(states[k]) && LatestOwns(states[k])
  {
    hide Step, Kept, LatestOwns, Fresh;
    if k == 0 {
      FreshIsKept(states[0]);
    } else {
      RunKeeps(states, events, k - 1);
      assert Step(states[k - 1], events[k - 1], states[k]);
      StepKeeps(states[k - 1], events[k - 1], states[k]);
    }
  }

  /** With no module left, all that was ever patched is unreachable. */
  ghost predicate NoneLeft(s: State) {
    s.list == [] ==>
      && (forall slot :: slot in s.missing && slot in s.methods ==>
            s.methods[slot].ifn.Unreachable? && s.methods[slot].tfn.Unreachable?)
      && (forall e :: 0 <= e < |s.fun| && e < |s.entries| && s.entries[e] in s.missing ==> s.fun[e].Unreachable?)
  }

  lemma KeptLeavesNone(s: State)
    requires Kept(s)
    ensures NoneLeft(s)
  {
    hide Covering, AllMarked, Agree;
    forall slot | s.list == [] && slot in s.missing && slot in s.methods
      ensures s.methods[slot].ifn.Unreachable? && s.methods[slot].tfn.Unreachable?
    {
      assert SlotKept(s, slot, s.methods[slot].ifn) && SlotKept(s, slot, s.methods[slot].tfn);
    }
  }

  /** Through every run that unloads in load order, host slots and itab entries refer to loaded modules
      only; with no module left, all that was ever patched is unreachable. */
  lemma RunIsSafe(states: seq<State>, events: seq<Event>, k: nat)
    requires Run(states, events) && k < |states|
    ensures Safe(states[k]) && NoneLeft(states[k])
  {
    hide Kept, Safe, NoneLeft;
    RunKeeps(states, events, k);
    KeptIsSafe(states[k]);
    KeptLeavesNone(states[k]);
  }

  // ----- runs in any order -----

  /** A load as before, or an unload of any module that may go. */
  ghost predicate AllowedStep(s: State, ev: Event, s': State) {
    WellFormed(s)
    && match ev
       case Load(m, jit) => m !in s.patched && Complete(jit) && LoadStep(s, s', m, jit)
       case Unload(m) => m in s.patched && CanUnload(s, m) && UnloadStep(s, s', m)
  }

  ghost predicate AllowedRun(states: seq<State>, events: seq<Event>) {
    |states| == |events| + 1 && Fresh(states[0])
    && forall k :: 0 <= k < |events| ==> AllowedStep(states[k], events[k], states[k + 1])
  }

  /** What no module has touched is as the host had it. */
  ghost predicate AsBefore(s0: State, s: State) {
    && s.count == s0.count && s.methods.Keys == s0.methods.Keys && s.entries == s0.entries && |s.fun| == |s0.fun|
    && (forall slot :: slot in s.methods ==>
          && s.methods[slot].mtypMissing == s0.methods[slot].mtypMissing
          && (slot !in s.missing ==> s.methods[slot] == s0.methods[slot]))
    && (forall e :: 0 <= e < |s.fun| && e < |s.entries| && s.entries[e] !in s.missing ==> s.fun[e] == s0.fun[e])
  }

  lemma LoadAsBefore(s0: State, s: State, s': State, m: ModuleId, jit: JitTypes)
    requires WellFormed(s) && LoadStep(s, s', m, jit) && AsBefore(s0, s)
    ensures AsBefore(s0, s')
  {
    hide Touched;
  }

  lemma UnloadAsBefore(s0: State, s: State, s': State, m: ModuleId)
    requires WellFormed(s) && m in s.patched && UnloadStep(s, s', m) && AsBefore(s0, s)
    ensures AsBefore(s0, s')
  {
    hide OtherPatched;
    forall slot | slot in s'.methods
      ensures s'.methods[slot].mtypMissing == s0.methods[slot].mtypMissing
      ensures slot !in s'.missing ==> s'.methods[slot] == s0.methods[slot]
    {
      assert UnloadedMethod(s, m, slot, s'.methods[slot]);
    }
    forall e | 0 <= e < |s'.fun| && e < |s'.entries| && s'.entries[e] !in s'.missing ensures s'.fun[e] == s0.fun[e] {
      assert UnloadedEntry(s, m, e, s'.methods[s.entries[e]], s'.fun[e]);
    }
  }

  lemma {:induction false} AllowedRunKeeps(states: seq<State>, events: seq<Event>, k: nat)
    requires AllowedRun(states, events) && k < |states|
    ensures Kept(states[k]) && AsBefore(states[0], states[k])
  {
    hide Kept, LoadStep, UnloadStep, Complete, CanUnload, WellFormed, AsBefore, LatestOwns;
    if k == 0 {
      FreshIsKept(states[0]);
      BeforeAll(states[0]);
    } else {
      AllowedRunKeeps(states, events, k - 1);
      var s, ev, s' := states[k - 1], events[k - 1], states[k];
      assert AllowedStep(s, ev, s');
      match ev {
        case Load(m, jit) =>
          LoadKeeps(s, s', m, jit);
          LoadAsBefore(states[0], s, s', m, jit);
        case Unload(m) =>
          UnloadIff(s, s', m);
          UnloadAsBefore(states[0], s, s', m);
      }
    }
  }

  lemma BeforeAll(s: State)
    ensures AsBefore(s, s)
  {
  }

  /** The entry point `off` of the slot is the one the module was loaded with. */
  ghost predicate LoadedWith(events: seq<Event>, k: nat, slot: Slot, t: Target, interface: bool)
    requires k <= |events| && t.In?
  {
    exists j :: 0 <= j < k && Brings(events[j], slot, t, interface)
  }

  predicate Brings(ev: Event, slot: Slot, t: Target, interface: bool)
    requires t.In?
  {
    && ev.Load? && ev.m == t.m && slot.0 in ev.jit && slot.1 < |ev.jit[slot.0]|
    && (if interface then ev.jit[slot.0][slot.1].ifn else ev.jit[slot.0][slot.1].tfn) == Some(t.off)
  }

  ghost predicate OwnEntries(events: seq<Event>, k: nat, s: State)
    requires k <= |events|
  {
    && (forall slot :: slot in s.methods && s.methods[slot].ifn.In? ==>
          LoadedWith(events, k, slot, s.methods[slot].ifn, true))
    && (forall slot :: slot in s.methods && s.methods[slot].tfn.In? ==>
          LoadedWith(events, k, slot, s.methods[slot].tfn, false))
  }

  /** Whatever a host method refers to in a module, through every run, is that module's own code for that
      method: its interface entry from the one entry point, its direct entry from the other. */
  lemma {:induction false} RunPointsInside(states: seq<State>, events: seq<Event>, k: nat)
    requires AllowedRun(states, events) && k < |states|
    ensures OwnEntries(events, k, states[k])
  {
    hide Kept, LoadStep, UnloadStep, Complete, CanUnload, WellFormed, LoadedWith, Fresh;
    if k == 0 {
      NothingLoaded(states[0], events);
    } else {
      RunPointsInside(states, events, k - 1);
      assert AllowedStep(states[k - 1], events[k - 1], states[k]);
      StepPointsInside(states[k - 1], events, k - 1, states[k]);
    }
  }

  lemma NothingLoaded(s: State, events: seq<Event>)
    requires Fresh(s)
    ensures OwnEntries(events, 0, s)
  {
  }

  lemma StillLoadedWith(events: seq<Event>, k: nat, slot: Slot, t: Target, interface: bool)
    requires k < |events| && t.In? && LoadedWith(events, k, slot, t, interface)
    ensures LoadedWith(events, k + 1, slot, t, interface)
  {
  }

  lemma StepPointsInside(s: State, events: seq<Event>, k: nat, s': State)
    requires k < |events| && AllowedStep(s, events[k], s') && OwnEntries(events, k, s)
    ensures OwnEntries(events, k + 1, s')
  {
    hide Complete, CanUnload, LoadStep, UnloadStep;
    StepMoves(s, events[k], s');
    forall slot | slot in s'.methods && s'.methods[slot].ifn.In?
      ensures LoadedWith(events, k + 1, slot, s'.methods[slot].ifn, true)
    {
      assert s'.methods[slot].ifn == s.methods[slot].ifn || Brings(events[k], slot, s'.methods[slot].ifn, true);
    }
    forall slot | slot in s'.methods && s'.methods[slot].tfn.In?
      ensures LoadedWith(events, k + 1, slot, s'.methods[slot].tfn, false)
    {
      assert s'.methods[slot].tfn == s.methods[slot].tfn || Brings(events[k], slot, s'.methods[slot].tfn, false);
    }
  }

  /** A step leaves an entry point, takes it off, or sets it to what the module brings. */
  lemma StepMoves(s: State, ev: Event, s': State)
    requires AllowedStep(s, ev, s')
    ensures s'.methods.Keys == s.methods.Keys
    ensures forall slot :: slot in s'.methods && s'.methods[slot].ifn.In? ==>
      s'.methods[slot].ifn == s.methods[slot].ifn || Brings(ev, slot, s'.methods[slot].ifn, true)
    ensures forall slot :: slot in s'.methods && s'.methods[slot].tfn.In? ==>
      s'.methods[slot].tfn == s.methods[slot].tfn || Brings(ev, slot, s'.methods[slot].tfn, false)
  {
    match ev
    case Load(m, jit) =>
      LoadPointsInside(s, s', m, jit);
    case Unload(m) =>
      forall slot | slot in s.methods ensures UnloadedMethod(s, m, slot, s'.methods[slot]) {
      }
  }

  /** Through every run in which each module that is unloaded may go, in whatever order, the same holds.
      (`UnloadIff`: an unload that may not leaves a reference behind.) */
  lemma AllowedRunIsSafe(states: seq<State>, events: seq<Event>, k: nat)
    requires AllowedRun(states, events) && k < |states|
    ensures Safe(states[k]) && NoneLeft(states[k])
  {
    hide Kept, Safe, NoneLeft, AsBefore;
    AllowedRunKeeps(states, events, k);
    KeptIsSafe(states[k]);
    KeptLeavesNone(states[k]);
  }

  /** With no module left the host is as it was before anything was loaded, if and only if all that was
      touched had been unreachable: both entry points of each method and every itab entry. */
  lemma GivenBackIff(states: seq<State>, events: seq<Event>, k: nat)
    requires AllowedRun(states, events) && k < |states| && states[k].list == []
    ensures var s0, s := states[0], states[k];
      s.methods == s0.methods && s.fun == s0.fun
      <==> && (forall slot :: slot in s.missing && slot in s0.methods ==>
                 s0.methods[slot].ifn.Unreachable? && s0.methods[slot].tfn.Unreachable?)
           && (forall e :: 0 <= e < |s0.fun| && e < |s0.entries| && s0.entries[e] in s.missing ==>
                 s0.fun[e].Unreachable?)
  {
    hide Kept, AllowedRun;
    AllowedRunKeeps(states, events, k);
    KeptLeavesNone(states[k]);
    KeptWellFormed(states[k]);
    SameHostIff(states[0], states[k]);
  }

  lemma KeptWellFormed(s: State)
    requires Kept(s)
    ensures WellFormed(s)
  {
  }

  lemma SameHostIff(s0: State, s: State)
    requires WellFormed(s) && AsBefore(s0, s) && NoneLeft(s) && s.list == []
    ensures s.methods == s0.methods && s.fun == s0.fun
      <==> && (forall slot :: slot in s.missing && slot in s0.methods ==>
                 s0.methods[slot].ifn.Unreachable? && s0.methods[slot].tfn.Unreachable?)
           && (forall e :: 0 <= e < |s0.fun| && e < |s0.entries| && s0.entries[e] in s.missing ==>
                 s0.fun[e].Unreachable?)
  {
    if s.methods == s0.methods && s.fun == s0.fun {
    } else if s.methods != s0.methods {
      var slot :| slot in s.methods && s.methods[slot] != s0.methods[slot];
      assert slot in s.missing;
    } else {
      var e :| 0 <= e < |s.fun| && s.fun[e] != s0.fun[e];
      assert s.entries[e] in s.missing;
    }
  }

  const ONE: Slot := (0, 0)
  const COPY: JitTypes := map[0 := [JitMethod(Some(0), Some(0), true)]]

  /** A host with one unreachable method, then with modules 1 to `n` loaded, all with that type. */
  function Example(n: nat): State
    requires n <= 2
  {
    var t := if n == 0 then Unreachable else In(n, 0);
    var p := Patches({ONE}, {ONE});
    State(map[0 := 1], map[ONE := Method(t, t, false)], if n == 0 then {} else {ONE}, [ONE], [t],
          if n == 0 then map[] else if n == 1 then map[1 := p] else map[1 := p, 2 := p],
          if n == 0 then [] else if n == 1 then [1] else [1, 2])
  }

  lemma ExampleLoads(n: nat)
    requires n < 2
    ensures WellFormed(Example(n)) && LoadStep(Example(n), Example(n + 1), n + 1, COPY)
  {
    var s := Example(n);
    assert s.methods.Keys == {ONE};
    assert Touched(s, COPY, ONE);
    assert TouchedSlots(s, COPY) == {ONE};
  }

  /** A host whose one method is reachable and lacks only its type offset: after one load and one unload
      it is gone, from the itab too. */
  lemma ReachableMethodIsLost()
    ensures var s0 := State(map[0 := 1], map[ONE := Method(Host(7), Host(9), true)], {}, [ONE], [Host(7)], map[], []);
      var s1 := State(map[0 := 1], map[ONE := Method(In(1, 0), In(1, 0), true)], {ONE}, [ONE], [In(1, 0)],
                      map[1 := Patches({ONE}, {ONE})], [1]);
      var s2 := State(map[0 := 1], map[ONE := Method(Unreachable, Unreachable, true)], {ONE}, [ONE], [Unreachable],
                      map[], []);
      && Fresh(s0) && LoadStep(s0, s1, 1, COPY)
      && WellFormed(s1) && CanUnload(s1, 1) && UnloadStep(s1, s2, 1)
  {
    var s0 := State(map[0 := 1], map[ONE := Method(Host(7), Host(9), true)], {}, [ONE], [Host(7)], map[], []);
    assert s0.methods.Keys == {ONE};
    assert Touched(s0, COPY, ONE);
    assert TouchedSlots(s0, COPY) == {ONE};
  }

  /** Out of load order it fails: two modules bring the same type, and unloading the second leaves the
      host's method in the memory it gave back. */
  lemma UnloadingTheNewestDangles(after: State)
    ensures Fresh(Example(0)) && WellFormed(Example(0)) && LoadStep(Example(0), Example(1), 1, COPY)
    ensures WellFormed(Example(1)) && LoadStep(Example(1), Example(2), 2, COPY)
    ensures WellFormed(Example(2)) && 2 in Example(2).patched
    ensures UnloadStep(Example(2), after, 2) ==> !Safe(after)
  {
    hide LoadStep, UnloadStep;
    ExampleLoads(0);
    ExampleLoads(1);
    LoadWellFormed(Example(1), Example(2), 2, COPY);
    assert ONE in Example(2).patched[1].ifn;
    assert PatchedType(Example(2).patched[1], 0);
    if UnloadStep(Example(2), after, 2) {
      StaysBehind(Example(2), after, 2, ONE);
    }
  }
}
