/** itab.go and module.go, in place: the passes over the host's method tables and itab entries that a
    load and an unload make.  `HostMethods` says what they come to and what runs of them keep. */
module HostModules {
  import opened HostMethods
  import opened Optional

  /** Whether a pass records the slot for `ifn` (for `tfn`: with that offset). */
  predicate Records(h: Method, marked: bool, off: Option<nat>, mtyp: bool) {
    NeedsPatch(h, marked) && (off.Some? || marked || (mtyp && h.mtypMissing))
  }

  /** The slot is one of the first `n` of the type. */
  predicate Among(slot: Slot, t: nat, n: nat) { slot.0 == t && slot.1 < n }

  /** The first `n` methods of a type after a pass for module `m`. */
  ghost predicate Passed(before: map<Slot, Method>, missing: set<Slot>, m: ModuleId, t: nat, prev: seq<JitMethod>,
                         n: nat, after: map<Slot, Method>, missing': set<Slot>)
    requires n <= |prev|
  {
    && after.Keys == before.Keys
    && (forall slot :: slot in before ==>
          after[slot] == if Among(slot, t, n) then AfterPatch(before[slot], slot in missing, m, prev[slot.1])
                         else before[slot])
    && (forall slot :: slot in missing' <==>
          slot in missing || (slot in before && Among(slot, t, n) && NeedsPatch(before[slot], slot in missing)))
  }

  ghost predicate RecordedPass(before: map<Slot, Method>, missing: set<Slot>, t: nat, prev: seq<JitMethod>, n: nat,
                               ifn: set<Slot>, ifn': set<Slot>, tfn: set<Slot>, tfn': set<Slot>)
    requires n <= |prev|
  {
    && (forall slot :: slot in ifn' <==> slot in ifn || RecordsIfn(before, missing, t, prev, n, slot))
    && (forall slot :: slot in tfn' <==> slot in tfn || RecordsTfn(before, missing, t, prev, n, slot))
  }

  ghost predicate RecordsIfn(before: map<Slot, Method>, missing: set<Slot>, t: nat, prev: seq<JitMethod>, n: nat,
                             slot: Slot)
    requires n <= |prev|
  {
    slot in before && Among(slot, t, n) && Records(before[slot], slot in missing, prev[slot.1].ifn, prev[slot.1].mtyp)
  }

  ghost predicate RecordsTfn(before: map<Slot, Method>, missing: set<Slot>, t: nat, prev: seq<JitMethod>, n: nat,
                             slot: Slot)
    requires n <= |prev|
  {
    slot in before && Among(slot, t, n) && Records(before[slot], slot in missing, prev[slot.1].tfn, prev[slot.1].mtyp)
  }

  function PlusIf(s: set<Slot>, slot: Slot, c: bool): set<Slot> { if c then s + {slot} else s }

  /** One more method. */
  lemma PassedStep(before: map<Slot, Method>, missing0: set<Slot>, m: ModuleId, t: nat, prev: seq<JitMethod>,
                   i: nat, methods: map<Slot, Method>, missing: set<Slot>)
    requires i < |prev| && (t, i) in before && Passed(before, missing0, m, t, prev, i, methods, missing)
    ensures var slot := (t, i);
            && methods[slot] == before[slot] && (slot in missing <==> slot in missing0)
            && Passed(before, missing0, m, t, prev, i + 1,
                 methods[slot := AfterPatch(methods[slot], slot in missing, m, prev[i])],
                 PlusIf(missing, slot, NeedsPatch(methods[slot], slot in missing)))
  {
    hide AfterPatch, NeedsPatch;
  }

  lemma RecordedStep(before: map<Slot, Method>, missing: set<Slot>, t: nat, prev: seq<JitMethod>, i: nat,
                     ifn0: set<Slot>, ifn: set<Slot>, tfn0: set<Slot>, tfn: set<Slot>)
    requires i < |prev| && (t, i) in before && RecordedPass(before, missing, t, prev, i, ifn0, ifn, tfn0, tfn)
    ensures var slot := (t, i);
            RecordedPass(before, missing, t, prev, i + 1,
              ifn0, PlusIf(ifn, slot, Records(before[slot], slot in missing, prev[i].ifn, prev[i].mtyp)),
              tfn0, PlusIf(tfn, slot, Records(before[slot], slot in missing, prev[i].tfn, prev[i].mtyp)))
  {
    hide Records;
  }

  lemma NothingRecorded(before: map<Slot, Method>, missing: set<Slot>, t: nat, prev: seq<JitMethod>,
                        ifn: set<Slot>, tfn: set<Slot>)
    ensures RecordedPass(before, missing, t, prev, 0, ifn, ifn, tfn, tfn)
  {
  }

  class HostTypes {
    const count: map<nat, nat>
    const entries: seq<Slot>
    var methods: map<Slot, Method>
    var missing: set<Slot>
    var fun: seq<Target>
    var patched: map<ModuleId, Patches>
    var list: seq<ModuleId>

    ghost function Now(): State
      reads this
    {
      State(count, methods, missing, entries, fun, patched, list)
    }

    /** The body of the loop of `patchTypeMethodOffsets`. */
    method PatchMethod(m: ModuleId, slot: Slot, prev: JitMethod, ifn: set<Slot>, tfn: set<Slot>)
      returns (ifn': set<Slot>, tfn': set<Slot>)
      requires slot in methods
      modifies `methods, `missing
      ensures var h, marked := old(methods)[slot], slot in old(missing);
              && methods == old(methods)[slot := AfterPatch(h, marked, m, prev)]
              && missing == PlusIf(old(missing), slot, NeedsPatch(h, marked))
              && ifn' == PlusIf(ifn, slot, Records(h, marked, prev.ifn, prev.mtyp))
              && tfn' == PlusIf(tfn, slot, Records(h, marked, prev.tfn, prev.mtyp))
      ensures var h := old(methods)[slot];
              var patch := h.ifn == Unreachable || h.tfn == Unreachable || h.mtypMissing || slot in old(missing);
              && methods[slot].ifn == (if patch && prev.ifn.Some? then In(m, prev.ifn.value) else h.ifn)
              && methods[slot].tfn == (if patch && prev.tfn.Some? then In(m, prev.tfn.value) else h.tfn)
              && (slot in missing <==> patch)
    {
      ifn', tfn' := ifn, tfn;
      var h := methods[slot];
      var markedMissing := slot in missing;
      if h.tfn.Unreachable? || h.ifn.Unreachable? || h.mtypMissing || markedMissing {
        missing := missing + {slot};
        if prev.ifn.Some? {
          methods := methods[slot := methods[slot].(ifn := In(m, prev.ifn.value))];
          ifn' := ifn' + {slot};
        }
        if prev.tfn.Some? {
          methods := methods[slot := methods[slot].(tfn := In(m, prev.tfn.value))];
          tfn' := tfn' + {slot};
        }
        if prev.mtyp && h.mtypMissing {
          markedMissing := true;
        }
        if markedMissing {
          ifn' := ifn' + {slot};
          tfn' := tfn' + {slot};
        }
      }
    }

    method PatchTypeMethodOffsets(m: ModuleId, t: nat, prev: seq<JitMethod>, ifn: set<Slot>, tfn: set<Slot>)
      returns (ifn': set<Slot>, tfn': set<Slot>)
      requires t in count ==> forall i :: 0 <= i < count[t] ==> (t, i) in methods
      modifies `methods, `missing
      ensures var n := if t in count && |prev| == count[t] then |prev| else 0;
              && Passed(old(methods), old(missing), m, t, prev, n, methods, missing)
              && RecordedPass(old(methods), old(missing), t, prev, n, ifn, ifn', tfn, tfn')
    {
      hide AfterPatch, NeedsPatch, Records, RecordedPass;
      ifn', tfn' := ifn, tfn;
      NothingRecorded(methods, missing, t, prev, ifn, tfn);
      if t !in count || |prev| != count[t] {
        return;
      }
      var i := 0;
      while i < |prev|
        invariant 0 <= i <= |prev|
        invariant Passed(old(methods), old(missing), m, t, prev, i, methods, missing)
        invariant RecordedPass(old(methods), old(missing), t, prev, i, ifn, ifn', tfn, tfn')
      {
        PassedStep(old(methods), old(missing), m, t, prev, i, methods, missing);
        RecordedStep(old(methods), old(missing), t, prev, i, ifn, ifn', tfn, tfn');
        ifn', tfn' := PatchMethod(m, (t, i), prev[i], ifn', tfn');
        i := i + 1;
      }
    }

    /** `patchTypeMethodTextPtrs`: itab entries of patched methods follow their slots. */
    method PatchTypeMethodTextPtrs(ifn: set<Slot>, tfn: set<Slot>)
      requires |entries| == |fun| && forall e :: 0 <= e < |entries| ==> entries[e] in methods
      modifies `fun
      ensures |fun| == |old(fun)|
      ensures forall e :: 0 <= e < |entries| ==>
        fun[e] == if entries[e] in ifn + tfn then methods[entries[e]].ifn else old(fun)[e]
    {
      AdjustMethods(ifn);
      AdjustMethods(tfn);
    }

    /** `adjustMethods`, over the itabs at hand: the entries whose method is among the indices. */
    method AdjustMethods(indices: set<Slot>)
      requires |entries| == |fun| && forall e :: 0 <= e < |entries| ==> entries[e] in methods
      modifies `fun
      ensures |fun| == |old(fun)|
      ensures forall e :: 0 <= e < |entries| ==>
        fun[e] == if entries[e] in indices then methods[entries[e]].ifn else old(fun)[e]
    {
      var e := 0;
      while e < |entries|
        invariant 0 <= e <= |entries| == |fun|
        invariant forall k :: 0 <= k < |fun| ==>
          fun[k] == if k < e && entries[k] in indices then methods[entries[k]].ifn else old(fun)[k]
      {
        if entries[e] in indices {
          fun := fun[e := methods[entries[e]].ifn];
        }
        e := e + 1;
      }
    }

    /** Every reference to a duplicated type patches that type, again if need be. */
    method PatchTypes(m: ModuleId, jit: JitTypes, refs: seq<nat>, ghost s: State)
      returns (ifn: set<Slot>, tfn: set<Slot>)
      requires WellFormed(s) && s.count == count && s.methods == methods && s.missing == missing && Complete(jit)
      requires forall t :: t in refs <==> t in jit
      modifies `methods, `missing
      ensures ifn == tfn && Patched(s, m, jit, methods, missing, ifn)
    {
      hide Complete, Passed, RecordedPass, Progress, Patched;
      ifn, tfn := {}, {};
      var k := 0;
      ghost var done: set<nat> := {};
      NoProgress(s, m, jit);
      while k < |refs|
        invariant 0 <= k <= |refs|
        invariant (forall t :: t in done <==> t in refs[..k])
        invariant Progress(s, m, jit, done, methods, missing, ifn, tfn)
      {
        ghost var methods0, missing0, ifn0, tfn0 := methods, missing, ifn, tfn;
        ProgressKeys(s, m, jit, done, methods, missing, ifn, tfn);
        ifn, tfn := PatchTypeMethodOffsets(m, refs[k], jit[refs[k]], ifn, tfn);
        ProgressStep(s, m, jit, done, refs[k], methods0, missing0, ifn0, tfn0, methods, missing, ifn, tfn);
        done := done + {refs[k]};
        assert refs[..k + 1] == refs[..k] + [refs[k]];
        k := k + 1;
      }
      assert refs[..k] == refs;
      Progressed(s, m, jit, done, methods, missing, ifn, tfn);
    }

    /** One load: the module goes on the list, its duplicated types are patched, then the itab entries
        follow. */
    method Load(m: ModuleId, jit: JitTypes, refs: seq<nat>)
      requires WellFormed(Now()) && m !in patched && Complete(jit)
      requires forall t :: t in refs <==> t in jit
      modifies this
      ensures LoadStep(old(Now()), Now(), m, jit)
      ensures forall slot :: slot in methods ==>
        if slot in old(methods) && ToPatch(old(Now()), jit, slot)
        then && jit[slot.0][slot.1].ifn.Some? && methods[slot].ifn == In(m, jit[slot.0][slot.1].ifn.value)
             && jit[slot.0][slot.1].tfn.Some? && methods[slot].tfn == In(m, jit[slot.0][slot.1].tfn.value)
        else slot in old(methods) && methods[slot] == old(methods)[slot]
      ensures |fun| == |entries| && forall e :: 0 <= e < |fun| ==>
        fun[e] == if entries[e] in old(methods) && ToPatch(old(Now()), jit, entries[e])
                  then methods[entries[e]].ifn else old(fun)[e]
    {
      hide Complete, LoadStep, Patched;
      ghost var s := Now();
      list := list + [m];
      patched := patched[m := Patches({}, {})];
      var ifn, tfn := PatchTypes(m, jit, refs, s);
      patched := patched[m := Patches(ifn, tfn)];
      PatchedSame(s, m, jit, methods, missing, ifn);
      PatchTypeMethodTextPtrs(ifn, tfn);
      LoadDone(s, Now(), m, jit, ifn);
      LoadPointsInside(s, Now(), m, jit);
    }

    /** `getOtherPatchedMethodsForType`: some other module that patched the type, in map order.  Its
        type offsets need not be asked about: where one was patched, the method was recorded too. */
    method GetOther(t: nat, m: ModuleId) returns (found: bool, ifn: set<Slot>, tfn: set<Slot>)
      ensures found <==> OtherPatched(Now(), m, t)
      ensures found ==> forall slot :: slot in ifn + tfn ==> slot.0 == t && Recorded(Now(), slot)
    {
      hide Recorded, OtherPatched, PatchedType;
      var rest := patched.Keys;
      OtherIs(Now(), m, t);
      while rest != {}
        invariant rest <= patched.Keys
        invariant OtherPatched(Now(), m, t) <==> exists o :: o in rest && o != m && PatchedType(patched[o], t)
        decreases rest
      {
        var o :| o in rest;
        rest := rest - {o};
        if o != m {
          ifn := set slot | slot in patched[o].ifn && slot.0 == t;
          tfn := set slot | slot in patched[o].tfn && slot.0 == t;
          PatchedTypeIs(Now(), m, t, o, ifn, tfn);
          if ifn + tfn != {} {
            return true, ifn, tfn;
          }
        }
      }
      return false, {}, {};
    }

    /** The reset loops: the offsets of these methods become -1 again. */
    method ResetIfn(indices: set<Slot>)
      requires indices <= methods.Keys
      modifies `methods
      ensures methods.Keys == old(methods).Keys
      ensures forall slot :: slot in methods ==>
        methods[slot] == if slot in indices then old(methods)[slot].(ifn := Unreachable) else old(methods)[slot]
    {
      var rest := indices;
      while rest != {}
        invariant rest <= indices && methods.Keys == old(methods).Keys
        invariant forall slot :: slot in methods ==>
          methods[slot] == if slot in indices - rest then old(methods)[slot].(ifn := Unreachable)
                           else old(methods)[slot]
        decreases rest
      {
        var slot :| slot in rest;
        methods := methods[slot := methods[slot].(ifn := Unreachable)];
        rest := rest - {slot};
      }
    }

    method ResetTfn(indices: set<Slot>)
      requires indices <= methods.Keys
      modifies `methods
      ensures methods.Keys == old(methods).Keys
      ensures forall slot :: slot in methods ==>
        methods[slot] == if slot in indices then old(methods)[slot].(tfn := Unreachable) else old(methods)[slot]
    {
      var rest := indices;
      while rest != {}
        invariant rest <= indices && methods.Keys == old(methods).Keys
        invariant forall slot :: slot in methods ==>
          methods[slot] == if slot in indices - rest then old(methods)[slot].(tfn := Unreachable)
                           else old(methods)[slot]
        decreases rest
      {
        var slot :| slot in rest;
        methods := methods[slot := methods[slot].(tfn := Unreachable)];
        rest := rest - {slot};
      }
    }

    /** One round of the first loop of `revertPatchedTypeMethods`. */
    method RevertIfn(m: ModuleId, t: nat, ghost s: State, ghost done: set<nat>)
      requires WellFormed(s) && m in s.patched && t !in done && Reverting(s, Now(), m, done, {})
      modifies `methods, `fun
      ensures Reverting(s, Now(), m, done + {t}, {})
    {
      hide Recorded, OtherPatched, RevertedMethod, RevertedEntry;
      ghost var before := Now();
      var found, ifn, tfn := GetOther(t, m);
      SamePatches(s, before, m, t);
      if found {
        AdjustMethods(ifn);
        AdjustMethods(tfn);
        OtherStep(s, before, Now(), m, done, {}, done + {t}, {}, t, ifn + tfn);
      } else {
        var indices := set slot | slot in patched[m].ifn && slot.0 == t;
        ResetIfn(indices);
        AdjustMethods(indices);
        ResetIfnStep(s, before, Now(), m, done, t, indices);
      }
    }

    /** One round of its second loop, after all of the first. */
    method RevertTfn(m: ModuleId, t: nat, ghost s: State, ghost first: set<nat>, ghost done: set<nat>)
      requires WellFormed(s) && m in s.patched && t !in done && Reverting(s, Now(), m, first, done)
      modifies `methods, `fun
      ensures Reverting(s, Now(), m, first, done + {t})
    {
      hide Recorded, OtherPatched, RevertedMethod, RevertedEntry;
      ghost var before := Now();
      var found, ifn, tfn := GetOther(t, m);
      SamePatches(s, before, m, t);
      if found {
        AdjustMethods(ifn);
        AdjustMethods(tfn);
        OtherStep(s, before, Now(), m, first, done, first, done + {t}, t, ifn + tfn);
      } else {
        var indices := set slot | slot in patched[m].tfn && slot.0 == t;
        ResetTfn(indices);
        AdjustMethods(indices);
        ResetTfnStep(s, before, Now(), m, first, done, t, indices);
      }
    }

    /** `revertPatchedTypeMethods`, type by type in map order, then `removeModule`. */
    method Unload(m: ModuleId)
      requires WellFormed(Now()) && m in patched
      modifies this
      ensures UnloadStep(old(Now()), Now(), m)
    {
      hide Reverting, WellFormed;
      ghost var s := Now();
      NothingReverted(s, m);
      var todo := set slot | slot in patched[m].ifn :: slot.0;
      ghost var first: set<nat>, second: set<nat> := {}, {};
      while todo != {}
        invariant todo !! first && patched == s.patched && list == s.list
        invariant forall slot :: slot in s.patched[m].ifn ==> slot.0 in todo + first
        invariant Reverting(s, Now(), m, first, {})
        decreases todo
      {
        var t :| t in todo;
        todo := todo - {t};
        RevertIfn(m, t, s, first);
        first := first + {t};
      }
      todo := set slot | slot in patched[m].tfn :: slot.0;
      while todo != {}
        invariant todo !! second && patched == s.patched && list == s.list
        invariant forall slot :: slot in s.patched[m].tfn ==> slot.0 in todo + second
        invariant Reverting(s, Now(), m, first, second)
        decreases todo
      {
        var t :| t in todo;
        todo := todo - {t};
        RevertTfn(m, t, s, first, second);
        second := second + {t};
      }
      ghost var reverted := Now();
      list := Without(list, m);
      patched := patched - {m};
      RevertDone(s, reverted, Now(), m, first, second);
    }
  }

  // ----- a load, type by type -----

  /** With the types `done` patched. */
  ghost predicate Progress(s: State, m: ModuleId, jit: JitTypes, done: set<nat>,
                           methods: map<Slot, Method>, missing: set<Slot>, ifn: set<Slot>, tfn: set<Slot>)
    requires WellFormed(s)
  {
    && methods.Keys == s.methods.Keys
    && (forall slot :: slot in s.methods ==>
          methods[slot] == if slot.0 in done && Touched(s, jit, slot)
                           then AfterPatch(s.methods[slot], slot in s.missing, m, jit[slot.0][slot.1])
                           else s.methods[slot])
    && (forall slot :: slot in missing <==> slot in s.missing || (slot.0 in done && Touched(s, jit, slot)))
    && (forall slot :: slot in ifn <==> slot.0 in done && Touched(s, jit, slot))
    && tfn == ifn
  }

  lemma NoProgress(s: State, m: ModuleId, jit: JitTypes)
    requires WellFormed(s)
    ensures forall done: set<nat> :: done == {} ==> Progress(s, m, jit, done, s.methods, s.missing, {}, {})
  {
  }

  lemma ProgressKeys(s: State, m: ModuleId, jit: JitTypes, done: set<nat>,
                     methods: map<Slot, Method>, missing: set<Slot>, ifn: set<Slot>, tfn: set<Slot>)
    requires WellFormed(s) && Progress(s, m, jit, done, methods, missing, ifn, tfn)
    ensures methods.Keys == s.methods.Keys
  {
  }

  /** One more reference; a type patched before is patched to the same again. */
  lemma ProgressStep(s: State, m: ModuleId, jit: JitTypes, done: set<nat>, t: nat,
                     methods: map<Slot, Method>, missing: set<Slot>, ifn: set<Slot>, tfn: set<Slot>,
                     methods': map<Slot, Method>, missing': set<Slot>, ifn': set<Slot>, tfn': set<Slot>)
    requires WellFormed(s) && Complete(jit) && t in jit && Progress(s, m, jit, done, methods, missing, ifn, tfn)
    requires var n := if t in s.count && |jit[t]| == s.count[t] then |jit[t]| else 0;
             && Passed(methods, missing, m, t, jit[t], n, methods', missing')
             && RecordedPass(methods, missing, t, jit[t], n, ifn, ifn', tfn, tfn')
    ensures Progress(s, m, jit, done + {t}, methods', missing', ifn', tfn')
  {
  }

  /** With all types patched: what is touched is patched, marked and recorded. */
  ghost predicate Patched(s: State, m: ModuleId, jit: JitTypes, methods: map<Slot, Method>, missing: set<Slot>,
                          touched: set<Slot>)
    requires WellFormed(s)
  {
    && touched == TouchedSlots(s, jit) && missing == s.missing + touched && methods.Keys == s.methods.Keys
    && (forall slot :: slot in s.methods ==>
          methods[slot] == if slot in touched
                           then AfterPatch(s.methods[slot], slot in s.missing, m, jit[slot.0][slot.1])
                           else s.methods[slot])
  }

  lemma Progressed(s: State, m: ModuleId, jit: JitTypes, done: set<nat>,
                   methods: map<Slot, Method>, missing: set<Slot>, ifn: set<Slot>, tfn: set<Slot>)
    requires WellFormed(s) && (forall t :: t in done <==> t in jit)
    requires Progress(s, m, jit, done, methods, missing, ifn, tfn)
    ensures ifn == tfn && Patched(s, m, jit, methods, missing, ifn)
  {
  }

  lemma PatchedSame(s: State, m: ModuleId, jit: JitTypes, methods: map<Slot, Method>, missing: set<Slot>,
                    touched: set<Slot>)
    requires WellFormed(s) && Patched(s, m, jit, methods, missing, touched)
    ensures methods.Keys == s.methods.Keys
  {
  }

  lemma LoadDone(s: State, s': State, m: ModuleId, jit: JitTypes, touched: set<Slot>)
    requires WellFormed(s) && Patched(s, m, jit, s'.methods, s'.missing, touched)
    requires s'.count == s.count && s'.entries == s.entries && |s'.fun| == |s.fun| && s'.list == s.list + [m]
    requires s'.patched == s.patched[m := Patches(touched, touched)]
    requires forall e :: 0 <= e < |s.entries| ==>
      s'.fun[e] == if s.entries[e] in touched + touched then s'.methods[s.entries[e]].ifn else s.fun[e]
    ensures LoadStep(s, s', m, jit)
  {
    hide AfterPatch, TouchedSlots;
  }

  // ----- an unload, type by type -----

  /** With the types `d1` gone through in the first loop and `d2` in the second. */
  ghost predicate Reverting(s: State, now: State, m: ModuleId, d1: set<nat>, d2: set<nat>)
    requires WellFormed(s) && m in s.patched
  {
    && now.count == s.count && now.missing == s.missing && now.entries == s.entries
    && now.patched == s.patched && now.list == s.list
    && now.methods.Keys == s.methods.Keys && |now.fun| == |s.fun|
    && (forall slot :: slot in s.methods ==> RevertedMethod(s, m, d1, d2, slot, now.methods[slot]))
    && (forall e :: 0 <= e < |s.entries| ==> RevertedEntry(s, m, d1, d2, e, now.methods[s.entries[e]], now.fun[e]))
  }

  ghost predicate RevertedMethod(s: State, m: ModuleId, d1: set<nat>, d2: set<nat>, slot: Slot, h': Method)
    requires slot in s.methods && m in s.patched
  {
    var h, p := s.methods[slot], s.patched[m];
    && h'.ifn == (if slot in p.ifn && slot.0 in d1 && !OtherPatched(s, m, slot.0) then Unreachable else h.ifn)
    && h'.tfn == (if slot in p.tfn && slot.0 in d2 && !OtherPatched(s, m, slot.0) then Unreachable else h.tfn)
    && h'.mtypMissing == h.mtypMissing
  }

  ghost predicate RevertedEntry(s: State, m: ModuleId, d1: set<nat>, d2: set<nat>, e: nat, h': Method, now: Target)
    requires e < |s.entries| == |s.fun| && m in s.patched
  {
    var slot, p := s.entries[e], s.patched[m];
    && (now == s.fun[e] || (slot.0 in d1 + d2 && Recorded(s, slot) && now == h'.ifn))
    && ((slot in p.ifn && slot.0 in d1) || (slot in p.tfn && slot.0 in d2)
        ==> OtherPatched(s, m, slot.0) || now == h'.ifn)
  }

  lemma SamePatches(s: State, now: State, m: ModuleId, t: nat)
    requires now.patched == s.patched
    ensures OtherPatched(now, m, t) <==> OtherPatched(s, m, t)
    ensures forall slot :: Recorded(now, slot) <==> Recorded(s, slot)
  {
  }

  lemma OtherIs(s: State, m: ModuleId, t: nat)
    ensures OtherPatched(s, m, t) <==> exists o :: o in s.patched.Keys && o != m && PatchedType(s.patched[o], t)
  {
  }

  lemma PatchedTypeIs(s: State, m: ModuleId, t: nat, o: ModuleId, ifn: set<Slot>, tfn: set<Slot>)
    requires o in s.patched && o != m
    requires ifn == set slot | slot in s.patched[o].ifn && slot.0 == t
    requires tfn == set slot | slot in s.patched[o].tfn && slot.0 == t
    ensures PatchedType(s.patched[o], t) <==> ifn + tfn != {}
    ensures PatchedType(s.patched[o], t) ==> OtherPatched(s, m, t)
    ensures forall slot :: slot in ifn + tfn ==> slot.0 == t && Recorded(s, slot)
  {
    if ifn + tfn != {} {
      var slot :| slot in ifn + tfn;
      assert slot in s.patched[o].ifn + s.patched[o].tfn;
    }
    if PatchedType(s.patched[o], t) {
      var slot :| slot in s.patched[o].ifn + s.patched[o].tfn && slot.0 == t;
      assert slot in ifn + tfn;
    }
  }

  lemma NothingReverted(s: State, m: ModuleId)
    requires WellFormed(s) && m in s.patched
    ensures Reverting(s, s, m, {}, {})
  {
  }

  /** Another module patched the type: entries are copied from their slots again. */
  lemma OtherStep(s: State, now: State, now': State, m: ModuleId, d1: set<nat>, d2: set<nat>,
                  e1: set<nat>, e2: set<nat>, t: nat, indices: set<Slot>)
    requires WellFormed(s) && m in s.patched && Reverting(s, now, m, d1, d2) && OtherPatched(s, m, t)
    requires d1 <= e1 <= d1 + {t} && d2 <= e2 <= d2 + {t} && t in e1 + e2
    requires now' == now.(fun := now'.fun) && |now'.fun| == |now.fun|
    requires forall slot :: slot in indices ==> slot.0 == t && Recorded(s, slot)
    requires forall e :: 0 <= e < |s.entries| ==>
      now'.fun[e] == if s.entries[e] in indices then now.methods[s.entries[e]].ifn else now.fun[e]
    ensures Reverting(s, now', m, e1, e2)
  {
    hide Recorded, OtherPatched;
    forall slot | slot in s.methods ensures RevertedMethod(s, m, e1, e2, slot, now'.methods[slot]) {
      assert RevertedMethod(s, m, d1, d2, slot, now.methods[slot]);
    }
    forall e | 0 <= e < |s.entries|
      ensures RevertedEntry(s, m, e1, e2, e, now'.methods[s.entries[e]], now'.fun[e])
    {
      assert RevertedEntry(s, m, d1, d2, e, now.methods[s.entries[e]], now.fun[e]);
    }
  }

  lemma ResetIfnStep(s: State, now: State, now': State, m: ModuleId, d1: set<nat>, t: nat, indices: set<Slot>)
    requires WellFormed(s) && m in s.patched && Reverting(s, now, m, d1, {}) && !OtherPatched(s, m, t) && t !in d1
    requires indices == set slot | slot in s.patched[m].ifn && slot.0 == t
    requires now' == now.(methods := now'.methods, fun := now'.fun)
    requires now'.methods.Keys == now.methods.Keys && |now'.fun| == |now.fun|
    requires forall slot :: slot in now.methods ==>
      now'.methods[slot] == if slot in indices then now.methods[slot].(ifn := Unreachable) else now.methods[slot]
    requires forall e :: 0 <= e < |s.entries| ==>
      now'.fun[e] == if s.entries[e] in indices then now'.methods[s.entries[e]].ifn else now.fun[e]
    ensures Reverting(s, now', m, d1 + {t}, {})
  {
    hide OtherPatched, Recorded;
    forall slot | slot in s.methods ensures RevertedMethod(s, m, d1 + {t}, {}, slot, now'.methods[slot]) {
      assert RevertedMethod(s, m, d1, {}, slot, now.methods[slot]);
    }
    forall e | 0 <= e < |s.entries|
      ensures RevertedEntry(s, m, d1 + {t}, {}, e, now'.methods[s.entries[e]], now'.fun[e])
    {
      assert RevertedEntry(s, m, d1, {}, e, now.methods[s.entries[e]], now.fun[e]);
      if s.entries[e] in indices {
        OwnRecorded(s, m, s.entries[e]);
      }
    }
  }

  lemma ResetTfnStep(s: State, now: State, now': State, m: ModuleId, d1: set<nat>, d2: set<nat>, t: nat,
                     indices: set<Slot>)
    requires WellFormed(s) && m in s.patched && Reverting(s, now, m, d1, d2) && !OtherPatched(s, m, t) && t !in d2
    requires indices == set slot | slot in s.patched[m].tfn && slot.0 == t
    requires now' == now.(methods := now'.methods, fun := now'.fun)
    requires now'.methods.Keys == now.methods.Keys && |now'.fun| == |now.fun|
    requires forall slot :: slot in now.methods ==>
      now'.methods[slot] == if slot in indices then now.methods[slot].(tfn := Unreachable) else now.methods[slot]
    requires forall e :: 0 <= e < |s.entries| ==>
      now'.fun[e] == if s.entries[e] in indices then now'.methods[s.entries[e]].ifn else now.fun[e]
    ensures Reverting(s, now', m, d1, d2 + {t})
  {
    hide OtherPatched, Recorded;
    forall slot | slot in s.methods ensures RevertedMethod(s, m, d1, d2 + {t}, slot, now'.methods[slot]) {
      assert RevertedMethod(s, m, d1, d2, slot, now.methods[slot]);
    }
    forall e | 0 <= e < |s.entries|
      ensures RevertedEntry(s, m, d1, d2 + {t}, e, now'.methods[s.entries[e]], now'.fun[e])
    {
      assert RevertedEntry(s, m, d1, d2, e, now.methods[s.entries[e]], now.fun[e]);
      if s.entries[e] in indices {
        OwnRecorded(s, m, s.entries[e]);
      }
    }
  }

  lemma OwnRecorded(s: State, m: ModuleId, slot: Slot)
    requires m in s.patched && slot in s.patched[m].ifn + s.patched[m].tfn
    ensures Recorded(s, slot)
  {
  }

  /** Both loops done, and the module off the list. */
  lemma RevertDone(s: State, now: State, s': State, m: ModuleId, d1: set<nat>, d2: set<nat>)
    requires WellFormed(s) && m in s.patched && Reverting(s, now, m, d1, d2)
    requires forall slot :: slot in s.patched[m].ifn ==> slot.0 in d1
    requires forall slot :: slot in s.patched[m].tfn ==> slot.0 in d2
    requires s' == now.(patched := s.patched - {m}, list := Without(s.list, m))
    ensures UnloadStep(s, s', m)
  {
    hide OtherPatched, Recorded;
    forall slot | slot in s.methods ensures UnloadedMethod(s, m, slot, s'.methods[slot]) {
      assert RevertedMethod(s, m, d1, d2, slot, now.methods[slot]);
    }
    forall e | 0 <= e < |s.entries| ensures UnloadedEntry(s, m, e, s'.methods[s.entries[e]], s'.fun[e]) {
      assert RevertedEntry(s, m, d1, d2, e, now.methods[s.entries[e]], now.fun[e]);
    }
  }
}
