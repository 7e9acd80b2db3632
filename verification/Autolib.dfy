/** ld.go: `Autolib` and `recurseAutolibs`, the depth-first order of packages; init.1.21.go:
    `doInitialize`, which runs init tasks in that order. */
module Autolib {

  type Graph = map<string, seq<string>>  // package to the packages it imports

  function Imports(g: Graph, p: string): seq<string> {
    if p in g then g[p] else []
  }

  /** A chain of `n` imports leads from `p` to `q`. */
  ghost predicate ReachIn(g: Graph, p: string, q: string, n: nat)
    decreases n
  {
    if n == 0 then p == q
    else exists m :: m in Imports(g, p) && ReachIn(g, m, q, n - 1)
  }

  ghost predicate Reach(g: Graph, p: string, q: string) {
    exists n: nat :: ReachIn(g, p, q, n)
  }

  /** No package that `root` needs comes back to itself. */
  ghost predicate AcyclicFrom(g: Graph, root: string) {
    forall p, q :: Reach(g, root, p) && q in Imports(g, p) ==> !Reach(g, q, p)
  }

  lemma ReachSelf(g: Graph, p: string)
    ensures Reach(g, p, p)
  {
    assert ReachIn(g, p, p, 0);
  }

  lemma {:induction false} ReachInTrans(g: Graph, p: string, q: string, r: string, n: nat, k: nat)
    requires ReachIn(g, p, q, n) && ReachIn(g, q, r, k)
    ensures ReachIn(g, p, r, n + k)
    decreases n
  {
    if n > 0 {
      var m :| m in Imports(g, p) && ReachIn(g, m, q, n - 1);
      ReachInTrans(g, m, q, r, n - 1, k);
    }
  }

  lemma ReachTrans(g: Graph, p: string, q: string, r: string)
    requires Reach(g, p, q) && Reach(g, q, r)
    ensures Reach(g, p, r)
  {
    var n: nat :| ReachIn(g, p, q, n);
    var k: nat :| ReachIn(g, q, r, k);
    ReachInTrans(g, p, q, r, n, k);
  }

  lemma ReachImport(g: Graph, p: string, q: string)
    requires q in Imports(g, p)
    ensures Reach(g, p, q)
  {
    assert ReachIn(g, q, q, 0);
    assert ReachIn(g, p, q, 1);
  }

  /** What an import leads to, its importer leads to as well. */
  lemma ImportNarrows(g: Graph, p: string, q: string)
    requires q in Imports(g, p)
    ensures forall x :: Reach(g, q, x) ==> Reach(g, p, x)
    ensures forall x :: Reach(g, x, p) ==> Reach(g, x, q)
    ensures AcyclicFrom(g, p) ==> AcyclicFrom(g, q) && !Reach(g, q, p)
  {
    ReachImport(g, p, q);
    ReachSelf(g, p);
    forall x | Reach(g, q, x) ensures Reach(g, p, x) {
      ReachTrans(g, p, q, x);
    }
    forall x | Reach(g, x, p) ensures Reach(g, x, q) {
      ReachTrans(g, x, p, q);
    }
  }

  // ----- the order -----

  /** Imports before importers. */
  ghost predicate ImportsFirst(g: Graph, list: seq<string>) {
    forall i, q :: 0 <= i < |list| && q in Imports(g, list[i]) ==> q in list[..i]
  }

  predicate Distinct(list: seq<string>) {
    forall i, j :: 0 <= i < j < |list| ==> list[i] != list[j]
  }

  /** Exactly the packages `root` needs, once each, imports before importers. */
  ghost predicate InitOrder(g: Graph, root: string, list: seq<string>) {
    Distinct(list) && ImportsFirst(g, list) && forall p :: p in list <==> Reach(g, root, p)
  }

  lemma ImportsFirstGrows(g: Graph, list: seq<string>, p: string)
    requires ImportsFirst(g, list) && forall q :: q in Imports(g, p) ==> q in list
    ensures ImportsFirst(g, list + [p])
  {
    var more := list + [p];
    forall i, q | 0 <= i < |more| && q in Imports(g, more[i]) ensures q in more[..i] {
      if i < |list| {
        assert more[..i] == list[..i];
      } else {
        assert more[..i] == list;
      }
    }
  }

  lemma ListedImports(g: Graph, list: seq<string>, p: string)
    requires ImportsFirst(g, list) && p in list
    ensures forall q :: q in Imports(g, p) ==> q in list
  {
    forall q | q in Imports(g, p) ensures q in list {
      var i :| 0 <= i < |list| && list[i] == p;
      assert q in list[..i];
    }
  }

  /** A list with imports first holds all that its members lead to. */
  lemma {:induction false} ListClosed(g: Graph, list: seq<string>, p: string, q: string, n: nat)
    requires ImportsFirst(g, list) && p in list && ReachIn(g, p, q, n)
    ensures q in list
    decreases n
  {
    hide ImportsFirst;
    if n > 0 {
      var m :| m in Imports(g, p) && ReachIn(g, m, q, n - 1);
      ListedImports(g, list, p);
      ListClosed(g, list, m, q, n - 1);
    }
  }

  // ----- the depth-first walk -----

  /** Every package named anywhere. */
  ghost function Universe(g: Graph, root: string): set<string> {
    g.Keys + {root} + set p, q | p in g && q in g[p] :: q
  }

  /** Packages entered but not yet listed: the importers being worked on. */
  ghost function Pending(seen: set<string>, list: seq<string>): set<string> {
    set p | p in seen && p !in list
  }

  ghost predicate WalkInv(g: Graph, seen: set<string>, list: seq<string>) {
    Distinct(list) && ImportsFirst(g, list) && forall p :: p in list ==> p in seen
  }

  /** The list grew, by packages that `p` needs; nothing else became pending. */
  ghost predicate Advanced(g: Graph, p: string, seen: set<string>, list: seq<string>,
                           seen': set<string>, list': seq<string>) {
    && seen <= seen' && list <= list'
    && Pending(seen', list') == Pending(seen, list)
    && (forall x :: x in list' && x !in list ==> Reach(g, p, x))
  }

  lemma AdvancedTrans(g: Graph, p: string, q: string, s0: set<string>, l0: seq<string>,
                      s1: set<string>, l1: seq<string>, s2: set<string>, l2: seq<string>)
    requires Advanced(g, p, s0, l0, s1, l1) && Advanced(g, q, s1, l1, s2, l2)
    requires q in Imports(g, p)
    ensures Advanced(g, p, s0, l0, s2, l2)
  {
    ImportNarrows(g, p, q);
  }

  /** Listing the package itself once all its imports are listed. */
  lemma ListTarget(g: Graph, p: string, s0: set<string>, l0: seq<string>, s1: set<string>, l1: seq<string>)
    requires WalkInv(g, s1, l1) && p !in s0
    requires Advanced(g, p, s0 + {p}, l0, s1, l1)
    requires forall x :: x in l0 ==> x in s0
    requires forall q :: q in Imports(g, p) ==> q in l1
    ensures WalkInv(g, s1, l1 + [p]) && Advanced(g, p, s0, l0, s1, l1 + [p])
  {
    hide ImportsFirst, Reach;
    ReachSelf(g, p);
    assert p in Pending(s0 + {p}, l0);
    assert p !in l1;
    ImportsFirstGrows(g, l1, p);
    forall x ensures x in Pending(s1, l1 + [p]) <==> x in Pending(s0, l0) {
      assert x in Pending(s1, l1) <==> x in Pending(s0 + {p}, l0);
    }
  }

  /** Entering a package makes it the newest pending one. */
  lemma Entered(g: Graph, p: string, s0: set<string>, l0: seq<string>)
    requires WalkInv(g, s0, l0) && p !in s0
    ensures WalkInv(g, s0 + {p}, l0) && Advanced(g, p, s0 + {p}, l0, s0 + {p}, l0)
    ensures Pending(s0 + {p}, l0) == Pending(s0, l0) + {p}
  {
  }

  /** An import is not itself pending, for a pending package would then be part of a cycle. */
  lemma ImportReady(g: Graph, p: string, q: string, pending: set<string>)
    requires AcyclicFrom(g, p) && q in Imports(g, p)
    requires forall x :: x in pending ==> Reach(g, x, p)
    ensures AcyclicFrom(g, q) && q !in pending
    ensures forall x :: x in pending ==> Reach(g, x, q)
  {
    ImportNarrows(g, p, q);
  }

  /** The packages of `libs` not seen so far. */
  function Unlisted(libs: seq<string>, seen: set<string>): seq<string> {
    if libs == [] then []
    else Unlisted(libs[..|libs| - 1], seen)
         + if libs[|libs| - 1] in seen then [] else [libs[|libs| - 1]]
  }

  lemma {:induction false} NoneUnlisted(libs: seq<string>, seen: set<string>)
    requires forall p :: p in libs ==> p in seen
    ensures Unlisted(libs, seen) == []
  {
    if libs != [] {
      NoneUnlisted(libs[..|libs| - 1], seen);
    }
  }

  class Walk {
    const autolibsByPkg: Graph
    var autolibs: seq<string>
    var seen: set<string>

    constructor (g: Graph)
      ensures autolibsByPkg == g && autolibs == [] && seen == {}
    {
      autolibsByPkg := g;
      autolibs := [];
      seen := {};
    }

    /** The inner loop of `recurseAutolibs`. */
    method AppendUnlisted(newLibs: seq<string>)
      modifies `autolibs
      ensures autolibs == old(autolibs) + Unlisted(newLibs, seen)
    {
      var j := 0;
      while j < |newLibs|
        invariant 0 <= j <= |newLibs|
        invariant autolibs == old(autolibs) + Unlisted(newLibs[..j], seen)
      {
        assert newLibs[..j + 1][..j] == newLibs[..j];
        if newLibs[j] !in seen {
          autolibs := autolibs + [newLibs[j]];
        }
        j := j + 1;
      }
      assert newLibs[..j] == newLibs;
    }

    /** `recurseAutolibs`: the inner loop finds nothing to append, since a package just listed has
        all its imports listed before it. */
    method RecurseAutolibs(targetPkg: string, ghost universe: set<string>)
      requires WalkInv(autolibsByPkg, seen, autolibs) && AcyclicFrom(autolibsByPkg, targetPkg)
      requires seen <= universe && targetPkg in universe
      requires forall p, q :: q in Imports(autolibsByPkg, p) ==> q in universe
      requires targetPkg !in Pending(seen, autolibs)
      requires forall p :: p in Pending(seen, autolibs) ==> Reach(autolibsByPkg, p, targetPkg)
      modifies this
      ensures WalkInv(autolibsByPkg, seen, autolibs) && seen <= universe
      ensures Advanced(autolibsByPkg, targetPkg, old(seen), old(autolibs), seen, autolibs)
      ensures targetPkg in autolibs
      decreases universe - seen
    {
      hide ImportsFirst, Reach, Distinct, AcyclicFrom;
      ghost var g, s0, l0 := autolibsByPkg, seen, autolibs;
      if targetPkg in seen {
        return;
      }
      seen := seen + {targetPkg};
      ghost var s1 := seen;
      Entered(g, targetPkg, s0, l0);
      ReachSelf(g, targetPkg);
      var imports := if targetPkg in autolibsByPkg then autolibsByPkg[targetPkg] else [];
      var i := 0;
      while i < |imports|
        invariant 0 <= i <= |imports|
        invariant WalkInv(g, seen, autolibs) && s1 <= seen <= universe
        invariant Advanced(g, targetPkg, s1, l0, seen, autolibs)
        invariant forall k :: 0 <= k < i ==> imports[k] in autolibs
      {
        var imported := imports[i];
        ImportReady(g, targetPkg, imported, Pending(seen, autolibs));
        ghost var s2, l2 := seen, autolibs;
        RecurseAutolibs(imported, universe);
        AdvancedTrans(g, targetPkg, imported, s1, l0, s2, l2, seen, autolibs);
        ListedImports(g, autolibs, imported);
        var newLibs := if imported in autolibsByPkg then autolibsByPkg[imported] else [];
        NoneUnlisted(newLibs, seen);
        ghost var l3 := autolibs;
        AppendUnlisted(newLibs);
        assert autolibs == l3;
        i := i + 1;
      }
      ListTarget(g, targetPkg, s0, l0, seen, autolibs);
      autolibs := autolibs + [targetPkg];
    }
  }

  datatype Pkg = Pkg(pkgPath: string, autoLib: seq<string>)

  /** The import graph of the packages read; a package read again replaces its older entry. */
  function GraphOf(pkgs: seq<Pkg>): Graph {
    if pkgs == [] then map[]
    else GraphOf(pkgs[..|pkgs| - 1])[pkgs[|pkgs| - 1].pkgPath := pkgs[|pkgs| - 1].autoLib]
  }

  /** `Autolib`: the last package read is the main package. */
  method Autolib(pkgs: seq<Pkg>) returns (list: seq<string>)
    requires pkgs != [] ==> AcyclicFrom(GraphOf(pkgs), pkgs[|pkgs| - 1].pkgPath)
    ensures pkgs == [] ==> list == []
    ensures pkgs != [] ==> InitOrder(GraphOf(pkgs), pkgs[|pkgs| - 1].pkgPath, list)
  {
    hide AcyclicFrom, ImportsFirst, Reach;
    if |pkgs| == 0 {
      return [];
    }
    var autolibsByPkg: Graph := map[];
    var i := 0;
    while i < |pkgs|
      invariant 0 <= i <= |pkgs| && autolibsByPkg == GraphOf(pkgs[..i])
    {
      assert pkgs[..i + 1][..i] == pkgs[..i];
      autolibsByPkg := autolibsByPkg[pkgs[i].pkgPath := pkgs[i].autoLib];
      i := i + 1;
    }
    assert pkgs[..i] == pkgs;
    var mainPkg := pkgs[|pkgs| - 1].pkgPath;
    var walk := new Walk(autolibsByPkg);
    WalkStarts(autolibsByPkg, mainPkg);
    walk.RecurseAutolibs(mainPkg, Universe(autolibsByPkg, mainPkg));
    list := walk.autolibs;
    ListHoldsAll(autolibsByPkg, mainPkg, list);
  }

  lemma WalkStarts(g: Graph, root: string)
    ensures WalkInv(g, {}, []) && root in Universe(g, root) && Pending({}, []) == {}
    ensures forall p, q :: q in Imports(g, p) ==> q in Universe(g, root)
  {
  }

  lemma ListHoldsAll(g: Graph, root: string, list: seq<string>)
    requires ImportsFirst(g, list) && root in list
    ensures forall p :: Reach(g, root, p) ==> p in list
  {
    forall p | Reach(g, root, p) ensures p in list {
      var n: nat :| ReachIn(g, root, p, n);
      ListClosed(g, list, root, p, n);
    }
  }

  /** Whatever a listed package needs stands before it. */
  lemma NeedsComeFirst(g: Graph, list: seq<string>, i: nat, j: nat)
    requires Distinct(list) && ImportsFirst(g, list)
    requires i < |list| && j < |list| && i != j && Reach(g, list[i], list[j])
    ensures j < i
  {
    var n: nat :| ReachIn(g, list[i], list[j], n);
    ListPrefix(g, list, i + 1);
    ListClosed(g, list[..i + 1], list[i], list[j], n);
    var k :| 0 <= k < i + 1 && list[k] == list[j];
    assert k == j;
  }

  lemma ListPrefix(g: Graph, list: seq<string>, n: nat)
    requires ImportsFirst(g, list) && n <= |list|
    ensures ImportsFirst(g, list[..n])
  {
    forall i, q | 0 <= i < n && q in Imports(g, list[..n][i]) ensures q in list[..n][..i] {
      assert list[..n][..i] == list[..i];
    }
  }

  /** Acyclicity asks for nothing extra: only without import cycles is there such an order at all. */
  lemma OrderNeedsAcyclic(g: Graph, root: string, list: seq<string>)
    requires InitOrder(g, root, list)
    ensures AcyclicFrom(g, root)
  {
    forall p, q | Reach(g, root, p) && q in Imports(g, p) ensures !Reach(g, q, p) {
      var i :| 0 <= i < |list| && list[i] == p;
      assert q in list[..i];
      var j :| 0 <= j < i && list[j] == q;
      if Reach(g, q, p) {
        NeedsComeFirst(g, list, j, i);
      }
    }
  }

  // ----- running the init tasks -----

  /** `slices.Index`: the first position, or -1. */
  function IndexOf(list: seq<string>, x: string): (i: int)
    ensures -1 <= i < |list|
    ensures i >= 0 ==> list[i] == x && x !in list[..i]
    ensures i < 0 ==> x !in list
  {
    if list == [] then -1
    else if list[0] == x then 0
    else var k := IndexOf(list[1..], x);
         assert k >= 0 ==> list[..k + 1] == [list[0]] + list[1..][..k];
         if k < 0 then -1 else k + 1
  }

  ghost predicate Permutation(a: seq<string>, b: seq<string>) { multiset(a) == multiset(b) }

  /** What sorting by position in `order` may leave (`sort.Slice` is not stable). */
  ghost predicate SortedBy(order: seq<string>, names: seq<string>) {
    forall i, j :: 0 <= i < j < |names| ==> IndexOf(order, names[i]) <= IndexOf(order, names[j])
  }

  /** An init task in memory: its state and its number of functions. */
  datatype Task = Task(state: nat, nfns: nat)

  /** Whether the init task of this name is handed to the runtime. */
  predicate Runs(name: string, symbolMap: map<string, nat>, tasks: map<nat, Task>) {
    name in symbolMap && symbolMap[name] != 0 && symbolMap[name] in tasks && tasks[symbolMap[name]].nfns != 0
  }

  function RunOrder(names: seq<string>, symbolMap: map<string, nat>, tasks: map<nat, Task>): (r: seq<string>)
    ensures forall name :: name in r <==> name in names && Runs(name, symbolMap, tasks)
  {
    if names == [] then []
    else RunOrder(names[..|names| - 1], symbolMap, tasks)
         + if Runs(names[|names| - 1], symbolMap, tasks) then [names[|names| - 1]] else []
  }

  lemma {:induction false} RunOrderSorted(order: seq<string>, names: seq<string>, symbolMap: map<string, nat>,
                                          tasks: map<nat, Task>)
    requires SortedBy(order, names)
    ensures SortedBy(order, RunOrder(names, symbolMap, tasks))
  {
    if names != [] {
      var last := names[|names| - 1];
      var front := names[..|names| - 1];
      RunOrderSorted(order, front, symbolMap, tasks);
      var before := RunOrder(front, symbolMap, tasks);
      forall i | 0 <= i < |before| ensures IndexOf(order, before[i]) <= IndexOf(order, last) {
        assert before[i] in front;
      }
    }
  }

  /** How often a task is due: as often as it is named, if it runs at all. */
  ghost function Times(name: string, names: seq<string>, symbolMap: map<string, nat>, tasks: map<nat, Task>): nat {
    if Runs(name, symbolMap, tasks) then multiset(names)[name] else 0
  }

  /** Every task that runs is handed over as often as it is named, no other at all. */
  lemma {:induction false} RunOrderCounts(names: seq<string>, symbolMap: map<string, nat>, tasks: map<nat, Task>,
                                          name: string)
    ensures multiset(RunOrder(names, symbolMap, tasks))[name] == Times(name, names, symbolMap, tasks)
  {
    if names != [] {
      RunOrderCounts(names[..|names| - 1], symbolMap, tasks, name);
      assert names == names[..|names| - 1] + [names[|names| - 1]];
    }
  }

  ghost predicate AsOftenAsDue(calls: seq<string>, names: seq<string>, symbolMap: map<string, nat>,
                               tasks: map<nat, Task>) {
    forall name :: multiset(calls)[name] == Times(name, names, symbolMap, tasks)
  }

  lemma AllTimes(sorted: seq<string>, names: seq<string>, symbolMap: map<string, nat>, tasks: map<nat, Task>)
    requires Permutation(sorted, names)
    ensures AsOftenAsDue(RunOrder(sorted, symbolMap, tasks), names, symbolMap, tasks)
  {
    forall name ensures multiset(RunOrder(sorted, symbolMap, tasks))[name] == Times(name, names, symbolMap, tasks) {
      RunOrderCounts(sorted, symbolMap, tasks, name);
    }
  }

  predicate RerunBy(name: string, symbolMap: map<string, nat>, rerun: set<string>, ptr: nat) {
    name in rerun && name in symbolMap && symbolMap[name] == ptr && ptr != 0
  }

  /** Some name asks for the init task at `ptr` to be run again. */
  ghost predicate Rerun(names: seq<string>, symbolMap: map<string, nat>, rerun: set<string>, ptr: nat) {
    exists k :: 0 <= k < |names| && RerunBy(names[k], symbolMap, rerun, ptr)
  }

  lemma NothingYet(symbolMap: map<string, nat>, tasks: map<nat, Task>, rerun: set<string>)
    ensures RunOrder([], symbolMap, tasks) == [] && forall ptr :: !Rerun([], symbolMap, rerun, ptr)
  {
  }

  lemma OneMore(names: seq<string>, i: nat, symbolMap: map<string, nat>, tasks: map<nat, Task>, rerun: set<string>)
    requires i < |names|
    ensures RunOrder(names[..i + 1], symbolMap, tasks)
         == RunOrder(names[..i], symbolMap, tasks) + if Runs(names[i], symbolMap, tasks) then [names[i]] else []
    ensures forall ptr ::
      Rerun(names[..i + 1], symbolMap, rerun, ptr)
      == (Rerun(names[..i], symbolMap, rerun, ptr) || RerunBy(names[i], symbolMap, rerun, ptr))
  {
    hide RerunBy;
    assert names[..i + 1][..i] == names[..i];
    forall ptr | Rerun(names[..i], symbolMap, rerun, ptr) ensures Rerun(names[..i + 1], symbolMap, rerun, ptr) {
      var k :| 0 <= k < i && RerunBy(names[..i][k], symbolMap, rerun, ptr);
      assert RerunBy(names[..i + 1][k], symbolMap, rerun, ptr);
    }
    forall ptr | RerunBy(names[i], symbolMap, rerun, ptr) ensures Rerun(names[..i + 1], symbolMap, rerun, ptr) {
      assert RerunBy(names[..i + 1][i], symbolMap, rerun, ptr);
    }
    forall ptr | Rerun(names[..i + 1], symbolMap, rerun, ptr)
      ensures Rerun(names[..i], symbolMap, rerun, ptr) || RerunBy(names[i], symbolMap, rerun, ptr)
    {
      var k :| 0 <= k <= i && RerunBy(names[..i + 1][k], symbolMap, rerun, ptr);
      assert k < i ==> RerunBy(names[..i][k], symbolMap, rerun, ptr);
    }
  }

  /** Handed over is what has an address and functions to run, as often as it is named, and nothing else. */
  lemma CallsAreDue(calls: seq<string>, initFuncs: seq<string>, symbolMap: map<string, nat>, tasks: map<nat, Task>)
    requires AsOftenAsDue(calls, initFuncs, symbolMap, tasks)
    requires forall name :: name in symbolMap && symbolMap[name] != 0 ==> symbolMap[name] in tasks
    ensures forall name ::
      multiset(calls)[name]
      == if name in symbolMap && symbolMap[name] != 0 && tasks[symbolMap[name]].nfns > 0 then multiset(initFuncs)[name]
         else 0
  {
    forall name ensures multiset(calls)[name] ==
      if name in symbolMap && symbolMap[name] != 0 && tasks[symbolMap[name]].nfns > 0 then multiset(initFuncs)[name]
      else 0
    {
      assert multiset(calls)[name] == Times(name, initFuncs, symbolMap, tasks);
    }
  }

  lemma RerunIff(sorted: seq<string>, initFuncs: seq<string>, symbolMap: map<string, nat>, rerun: set<string>, ptr: nat)
    requires Permutation(sorted, initFuncs)
    ensures Rerun(sorted, symbolMap, rerun, ptr)
       <==> exists name :: name in initFuncs && name in rerun && name in symbolMap && symbolMap[name] == ptr != 0
  {
    if Rerun(sorted, symbolMap, rerun, ptr) {
      var k :| 0 <= k < |sorted| && RerunBy(sorted[k], symbolMap, rerun, ptr);
      assert sorted[k] in multiset(initFuncs);
    }
    if name :| name in initFuncs && name in rerun && name in symbolMap && symbolMap[name] == ptr != 0 {
      assert name in multiset(sorted);
      var k :| 0 <= k < |sorted| && sorted[k] == name;
      assert RerunBy(sorted[k], symbolMap, rerun, ptr);
    }
  }

  /** `doInitialize` after its sort.  Package paths and init task names are written here without the
      escaping and the suffix they share, which is one to one.  `calls` are the init tasks handed to the
      runtime; with a task marked for a rerun its state is reset. */
  method DoInitialize(order: seq<string>, initFuncs: seq<string>, sorted: seq<string>,
                      symbolMap: map<string, nat>, before: map<nat, Task>, rerun: set<string>)
    returns (calls: seq<string>, tasks: map<nat, Task>)
    requires Permutation(sorted, initFuncs) && SortedBy(order, sorted)
    requires forall name :: name in symbolMap && symbolMap[name] != 0 ==> symbolMap[name] in before
    ensures calls == RunOrder(sorted, symbolMap, before)
    ensures AsOftenAsDue(calls, initFuncs, symbolMap, before)
    ensures SortedBy(order, calls)
    ensures forall name ::
      multiset(calls)[name]
      == if name in symbolMap && symbolMap[name] != 0 && before[symbolMap[name]].nfns > 0 then multiset(initFuncs)[name]
         else 0
    ensures tasks.Keys == before.Keys
    ensures forall ptr :: ptr in before ==>
      && tasks[ptr].nfns == before[ptr].nfns
      && tasks[ptr].state ==
         if exists name :: name in initFuncs && name in rerun && name in symbolMap && symbolMap[name] == ptr != 0
         then 0 else before[ptr].state
    ensures forall ptr :: ptr in before ==>
      tasks[ptr] == if Rerun(sorted, symbolMap, rerun, ptr) then before[ptr].(state := 0) else before[ptr]
  {
    hide Times, AsOftenAsDue, Permutation, SortedBy, Rerun, RunOrder, IndexOf;
    NothingYet(symbolMap, before, rerun);
    calls, tasks := [], before;
    var i := 0;
    while i < |sorted|
      invariant 0 <= i <= |sorted| && tasks.Keys == before.Keys
      invariant calls == RunOrder(sorted[..i], symbolMap, before)
      invariant forall ptr :: ptr in before ==>
        tasks[ptr] == if Rerun(sorted[..i], symbolMap, rerun, ptr) then before[ptr].(state := 0) else before[ptr]
    {
      var name := sorted[i];
      OneMore(sorted, i, symbolMap, before, rerun);
      i := i + 1;
      if name in symbolMap && symbolMap[name] != 0 {
        var taskPtr := symbolMap[name];
        if name in rerun {
          tasks := tasks[taskPtr := tasks[taskPtr].(state := 0)];
        }
        if tasks[taskPtr].nfns == 0 {
          continue;
        }
        calls := calls + [name];
      }
    }
    assert sorted[..i] == sorted;
    AllTimes(sorted, initFuncs, symbolMap, before);
    RunOrderSorted(order, sorted, symbolMap, before);
    CallsAreDue(calls, initFuncs, symbolMap, before);
    forall ptr | ptr in before
      ensures Rerun(sorted, symbolMap, rerun, ptr)
         <==> exists name :: name in initFuncs && name in rerun && name in symbolMap && symbolMap[name] == ptr != 0
    {
      RerunIff(sorted, initFuncs, symbolMap, rerun, ptr);
    }
  }

  /** Each package's init runs after those of all the packages it needs, however ties were sorted: `calls`
      may be what `DoInitialize` hands over, or any other list in that order. */
  lemma InitAfterImports(g: Graph, root: string, order: seq<string>, calls: seq<string>, i: nat, j: nat)
    requires InitOrder(g, root, order) && SortedBy(order, calls)
    requires i < |calls| && j < |calls| && calls[i] != calls[j]
    requires Reach(g, root, calls[i]) && Reach(g, calls[i], calls[j])
    ensures j < i
  {
    ReachTrans(g, root, calls[i], calls[j]);
    var a, b := IndexOf(order, calls[i]), IndexOf(order, calls[j]);
    NeedsComeFirst(g, order, a, b);
    assert b < a;
  }
}
