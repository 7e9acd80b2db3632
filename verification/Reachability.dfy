/** readobj.go: `collectReachableSymbols`, the set of symbols that loading must keep. */
module Reachability {
  import opened Optional

  const TYPE_PREFIX := "type:"  // const_type.1.20.go
  const POINTER_PREFIX := TYPE_PREFIX + "*"

  /** The part of a function symbol that refers to others. */
  datatype Func = Func(inlTree: seq<string>, funcData: seq<string>)

  /** An object-file symbol and the names it refers to. */
  datatype ObjSymbol = ObjSymbol(typ: string, relocs: seq<string>, func: Option<Func>)

  type Objects = map<string, ObjSymbol>

  predicate IsPointer(name: string) { POINTER_PREFIX <= name }

  /** The name of the type pointed to. */
  function Pointee(name: string): (r: string)
    requires IsPointer(name)
    ensures |r| == |name| - 1
  {
    TYPE_PREFIX + name[|POINTER_PREFIX|..]
  }

  function References(o: ObjSymbol): seq<string> {
    (if o.typ != "" then [o.typ] else []) + o.relocs
    + (if o.func.Some? then o.func.value.inlTree + o.func.value.funcData else [])
  }

  /** The edges out of a symbol, in the order in which they are followed. */
  function Edges(objs: Objects, name: string): seq<string> {
    (if IsPointer(name) then [Pointee(name)] else []) + (if name in objs then References(objs[name]) else [])
  }

  ghost predicate Closed(objs: Objects, s: set<string>) {
    forall name, to :: name in s && to in Edges(objs, name) ==> to in s
  }

  /** The least closed set that holds all the roots. */
  ghost predicate LeastClosed(objs: Objects, roots: set<string>, s: set<string>) {
    roots <= s && Closed(objs, s) && forall t: set<string> :: roots <= t && Closed(objs, t) ==> s <= t
  }

  /** A name leads to another: its symbol has it as its type, relocates against it, inlines it or has it as
      funcdata; or the name is that of a pointer type and the other that of the type pointed to. */
  ghost predicate LeadsTo(objs: Objects, name: string, to: string) {
    || (name in objs
        && ((to == objs[name].typ && to != "") || to in objs[name].relocs
            || (objs[name].func.Some?
                && (to in objs[name].func.value.inlTree || to in objs[name].func.value.funcData))))
    || (exists t: string :: name == "type:*" + t && to == "type:" + t)
  }

  lemma EdgesLead(objs: Objects, name: string, to: string)
    ensures to in Edges(objs, name) <==> LeadsTo(objs, name, to)
  {
    PointeeIs(name, to);
    var pointer := if IsPointer(name) then [Pointee(name)] else [];
    assert to in pointer <==> exists t: string :: name == "type:*" + t && to == "type:" + t;
    if name in objs {
      ReferencesAre(objs[name], to);
    }
  }

  lemma ReferencesAre(o: ObjSymbol, to: string)
    ensures to in References(o)
       <==> (to == o.typ && to != "") || to in o.relocs
            || (o.func.Some? && (to in o.func.value.inlTree || to in o.func.value.funcData))
  {
  }

  lemma PointeeIs(name: string, to: string)
    ensures IsPointer(name) && to == Pointee(name) <==> exists t: string :: name == "type:*" + t && to == "type:" + t
  {
    assert POINTER_PREFIX == "type:*" && TYPE_PREFIX == "type:";
    if IsPointer(name) && to == Pointee(name) {
      assert name == "type:*" + name[6..];
    }
    if t: string :| name == "type:*" + t && to == "type:" + t {
      assert name[6..] == t;
    }
  }

  /** What is collected, in these terms: the roots, all they lead to, and no more than any set closed that way. */
  lemma LeastClosedLeads(objs: Objects, roots: set<string>, s: set<string>)
    requires LeastClosed(objs, roots, s)
    ensures roots <= s && forall name, to :: name in s && LeadsTo(objs, name, to) ==> to in s
    ensures forall t: set<string> ::
      roots <= t && (forall name, to :: name in t && LeadsTo(objs, name, to) ==> to in t) ==> s <= t
  {
    hide Edges, LeadsTo;
    forall name, to | name in s && LeadsTo(objs, name, to) ensures to in s {
      EdgesLead(objs, name, to);
    }
    forall t: set<string> | roots <= t && (forall name, to :: name in t && LeadsTo(objs, name, to) ==> to in t)
      ensures s <= t
    {
      forall name, to | name in t && to in Edges(objs, name) ensures to in t {
        EdgesLead(objs, name, to);
      }
    }
  }

  /** There is only one, so the order of the roots (a map iteration in the source) is of no account. */
  lemma LeastIsUnique(objs: Objects, roots: set<string>, s: set<string>, t: set<string>)
    requires LeastClosed(objs, roots, s) && LeastClosed(objs, roots, t)
    ensures s == t
  {
    assert s <= t && t <= s;
  }

  // ----- a finite universe, so that the walk ends -----

  /** A name and all it turns into by dropping stars. */
  ghost function Stripped(name: string): set<string>
    decreases |name|
  {
    if IsPointer(name) then {name} + Stripped(Pointee(name)) else {name}
  }

  lemma {:induction false} StrippedClosed(name: string, x: string)
    requires x in Stripped(name)
    ensures name in Stripped(name) && (IsPointer(x) ==> Pointee(x) in Stripped(name))
    decreases |name|
  {
    if x != name {
      StrippedClosed(Pointee(name), x);
    } else if IsPointer(name) && IsPointer(Pointee(name)) {
      StrippedClosed(Pointee(name), Pointee(name));
    }
  }

  ghost function AllStripped(names: set<string>): set<string> {
    set name, x | name in names && x in Stripped(name) :: x
  }

  /** All names the objects refer to. */
  ghost function Referred(objs: Objects): set<string> {
    set name, to | name in objs && to in References(objs[name]) :: to
  }

  ghost function Universe(objs: Objects, names: set<string>): set<string> {
    AllStripped(names + Referred(objs))
  }

  lemma UniverseIsClosed(objs: Objects, names: set<string>)
    ensures Closed(objs, Universe(objs, names)) && names <= Universe(objs, names)
  {
    hide Stripped, References;
    var base := names + Referred(objs);
    forall x | x in base ensures x in AllStripped(base) {
      SelfStripped(x);
    }
    forall x, to | x in Universe(objs, names) && to in Edges(objs, x) ensures to in Universe(objs, names) {
      if IsPointer(x) && to == Pointee(x) {
        var name :| name in base && x in Stripped(name);
        StrippedClosed(name, x);
      } else {
        assert to in Referred(objs);
      }
    }
  }

  lemma SelfStripped(name: string)
    ensures name in Stripped(name)
  {
  }

  // ----- the walk -----

  /** What a call adds: its argument, all edges out of what is new, and nothing that a closed set
      holding the argument could do without. */
  ghost predicate Collected(objs: Objects, names: seq<string>, before: set<string>, after: set<string>) {
    && before <= after
    && (forall x :: x in names ==> x in after)
    && (forall x, to :: x in after && x !in before && to in Edges(objs, x) ==> to in after)
    && (forall t: set<string>, x :: Needs(objs, names, t) && x in after && x !in before ==> x in t)
  }

  ghost predicate Needs(objs: Objects, names: seq<string>, t: set<string>) {
    Closed(objs, t) && forall x :: x in names ==> x in t
  }

  lemma CollectedMore(objs: Objects, a: seq<string>, b: seq<string>, s0: set<string>, s1: set<string>, s2: set<string>)
    requires Collected(objs, a, s0, s1) && Collected(objs, b, s1, s2)
    ensures Collected(objs, a + b, s0, s2)
  {
    forall t: set<string>, x | Needs(objs, a + b, t) && x in s2 && x !in s0 ensures x in t {
      assert Needs(objs, a, t) by {
        forall y | y in a ensures y in t { assert y in a + b; }
      }
      assert Needs(objs, b, t) by {
        forall y | y in b ensures y in t { assert y in a + b; }
      }
    }
  }

  lemma CollectedNothing(objs: Objects, s: set<string>)
    ensures Collected(objs, [], s, s)
  {
  }

  /** Marking a symbol and then collecting along all its edges. */
  lemma CollectedSymbol(objs: Objects, name: string, before: set<string>, after: set<string>)
    requires name !in before && Collected(objs, Edges(objs, name), before + {name}, after)
    ensures Collected(objs, [name], before, after)
  {
    forall t: set<string>, x | Needs(objs, [name], t) && x in after && x !in before ensures x in t {
      assert name in [name];
      assert Needs(objs, Edges(objs, name), t);
    }
  }

  class Linker {
    const objsymbolMap: Objects
    var reachableSymbols: set<string>

    constructor (objs: Objects)
      ensures objsymbolMap == objs && reachableSymbols == {}
    {
      objsymbolMap := objs;
      reachableSymbols := {};
    }

    method CollectReachableSymbols(symName: string, ghost universe: set<string>)
      requires Closed(objsymbolMap, universe) && symName in universe && reachableSymbols <= universe
      modifies this
      ensures reachableSymbols <= universe
      ensures Collected(objsymbolMap, [symName], old(reachableSymbols), reachableSymbols)
      decreases universe - reachableSymbols, 0
    {
      hide Closed, Collected, References, IsPointer, Pointee;
      ghost var objs, start := objsymbolMap, reachableSymbols;
      if symName in reachableSymbols {
        AlreadyThere(objs, symName, start);
        return;
      }
      reachableSymbols := reachableSymbols + {symName};
      ghost var marked := reachableSymbols;
      EdgesInside(objs, symName, universe);
      CollectedNothing(objs, marked);
      ghost var done: seq<string> := [];
      if IsPointer(symName) {
        CollectAll([Pointee(symName)], universe, marked, done);
        done := done + [Pointee(symName)];
      }
      if symName in objsymbolMap {
        CollectReferences(objsymbolMap[symName], universe, marked, done);
        done := done + References(objsymbolMap[symName]);
      }
      assert done == Edges(objs, symName);
      CollectedSymbol(objs, symName, start, reachableSymbols);
    }

    /** Type, relocations, inlined functions and funcdata of a symbol, in this order. */
    method CollectReferences(objsym: ObjSymbol, ghost universe: set<string>, ghost start: set<string>,
                             ghost done: seq<string>)
      requires Closed(objsymbolMap, universe) && reachableSymbols <= universe
      requires forall x :: x in References(objsym) ==> x in universe
      requires Collected(objsymbolMap, done, start, reachableSymbols)
      modifies this
      ensures old(reachableSymbols) <= reachableSymbols <= universe
      ensures Collected(objsymbolMap, done + References(objsym), start, reachableSymbols)
      decreases universe - reachableSymbols, 2
    {
      hide Closed, Collected;
      ghost var all := done;
      if objsym.typ != "" {
        CollectAll([objsym.typ], universe, start, all);
        all := all + [objsym.typ];
      }
      CollectAll(objsym.relocs, universe, start, all);
      all := all + objsym.relocs;
      if objsym.func.Some? {
        CollectAll(objsym.func.value.inlTree, universe, start, all);
        all := all + objsym.func.value.inlTree;
        CollectAll(objsym.func.value.funcData, universe, start, all);
        all := all + objsym.func.value.funcData;
      }
      assert all == done + References(objsym);
    }

    /** One of the loops: collects each name in turn, after `done` has been collected since `start`. */
    method CollectAll(names: seq<string>, ghost universe: set<string>, ghost start: set<string>,
                      ghost done: seq<string>)
      requires Closed(objsymbolMap, universe) && reachableSymbols <= universe
      requires forall x :: x in names ==> x in universe
      requires Collected(objsymbolMap, done, start, reachableSymbols)
      modifies this
      ensures old(reachableSymbols) <= reachableSymbols <= universe
      ensures Collected(objsymbolMap, done + names, start, reachableSymbols)
      decreases universe - reachableSymbols, 1
    {
      hide Closed, Collected;
      ghost var objs := objsymbolMap;
      var i := 0;
      assert done + names[..0] == done;
      while i < |names|
        invariant 0 <= i <= |names|
        invariant old(reachableSymbols) <= reachableSymbols <= universe
        invariant Collected(objs, done + names[..i], start, reachableSymbols)
      {
        ghost var before := reachableSymbols;
        CollectReachableSymbols(names[i], universe);
        CollectedMore(objs, done + names[..i], [names[i]], start, before, reachableSymbols);
        CollectedGrows(objs, [names[i]], before, reachableSymbols);
        assert done + names[..i] + [names[i]] == done + names[..i + 1];
        i := i + 1;
      }
      assert names[..i] == names;
    }

    /** The root calls, in whatever order: the set becomes the least closed one that holds them. */
    method CollectRoots(roots: seq<string>)
      requires reachableSymbols == {}
      modifies this
      ensures LeastClosed(objsymbolMap, (set x | x in roots), reachableSymbols)
    {
      ghost var names := set x | x in roots;
      ghost var universe := Universe(objsymbolMap, names);
      UniverseIsClosed(objsymbolMap, names);
      CollectedNothing(objsymbolMap, {});
      CollectAll(roots, universe, {}, []);
      AllCollected(objsymbolMap, roots, reachableSymbols);
    }
  }

  lemma AlreadyThere(objs: Objects, name: string, s: set<string>)
    requires name in s
    ensures Collected(objs, [name], s, s)
  {
  }

  lemma EdgesInside(objs: Objects, name: string, universe: set<string>)
    requires Closed(objs, universe) && name in universe
    ensures forall to :: to in Edges(objs, name) ==> to in universe
  {
  }

  lemma CollectedGrows(objs: Objects, names: seq<string>, before: set<string>, after: set<string>)
    requires Collected(objs, names, before, after)
    ensures before <= after
  {
  }

  lemma AllCollected(objs: Objects, roots: seq<string>, s: set<string>)
    requires Collected(objs, [] + roots, {}, s)
    ensures LeastClosed(objs, (set x | x in roots), s)
  {
    var names := set x | x in roots;
    assert [] + roots == roots;
    forall t: set<string> | names <= t && Closed(objs, t) ensures s <= t {
      assert Needs(objs, roots, t);
    }
  }
}
