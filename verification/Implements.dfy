/** reflectlite/reflectlite1.19/type.go: `implements` for a concrete type V. */
module Implements {
  import opened Optional

  /** A method of an interface or of a concrete type; `typ` stands for the resolved type pointer. */
  datatype Method = Method(name: string, exported: bool, pkgPath: string, typ: nat)

  /** The method set of a concrete type: its `uncommon` part. */
  datatype Uncommon = Uncommon(pkgPath: string, methods: seq<Method>)

  datatype Target = Interface(pkgPath: string, methods: seq<Method>) | NotInterface

  /** The package a method belongs to: its own path, or that of the type listing it. */
  function PackageOf(m: Method, listed: string): string {
    if m.pkgPath == "" then listed else m.pkgPath
  }

  /** What makes a type's method `v` serve for an interface's method `t`. */
  ghost predicate Serves(t: Method, tPkg: string, v: Method, vPkg: string) {
    t.name == v.name && t.typ == v.typ && (t.exported || PackageOf(t, tPkg) == PackageOf(v, vPkg))
  }

  ghost predicate Served(t: Method, tPkg: string, methods: seq<Method>, vPkg: string) {
    exists j :: 0 <= j < |methods| && Serves(t, tPkg, methods[j], vPkg)
  }

  /** Go specification, "Implementing an interface": every method of the interface is served. */
  ghost predicate ImplementsSpec(t: Target, v: Option<Uncommon>) {
    t.Interface?
    && (t.methods == [] || (v.Some? && forall i :: 0 <= i < |t.methods| ==>
          Served(t.methods[i], t.pkgPath, v.value.methods, v.value.pkgPath)))
  }

  /** One method for another, in words: same name, same type, and of the same package unless exported, where
      a method without a package path of its own belongs to the package of its type. */
  lemma ImplementsIff(t: Target, v: Option<Uncommon>)
    ensures ImplementsSpec(t, v)
       <==> t.Interface?
            && forall tm :: tm in t.methods ==>
              && v.Some?
              && exists vm ::
                && vm in v.value.methods && vm.name == tm.name && vm.typ == tm.typ
                && (tm.exported
                    || (if tm.pkgPath == "" then t.pkgPath else tm.pkgPath)
                       == (if vm.pkgPath == "" then v.value.pkgPath else vm.pkgPath))
  {
    if ImplementsSpec(t, v) {
      forall tm | tm in t.methods ensures v.Some? && Served(tm, t.pkgPath, v.value.methods, v.value.pkgPath) {
        var i :| 0 <= i < |t.methods| && t.methods[i] == tm;
      }
    } else if t.Interface? && v.None? {
      assert t.methods[0] in t.methods;
    } else if t.Interface? {
      var i :| 0 <= i < |t.methods| && !Served(t.methods[i], t.pkgPath, v.value.methods, v.value.pkgPath);
      assert t.methods[i] in t.methods;
      forall vm | vm in v.value.methods ensures !Serves(t.methods[i], t.pkgPath, vm, v.value.pkgPath) {
        var j :| 0 <= j < |v.value.methods| && v.value.methods[j] == vm;
      }
    }
  }

  /** Where the compiler sorts a method: by its name and, when that is not exported, its package. */
  ghost function Place(rank: (string, string) -> int, m: Method, listed: string): int {
    rank(m.name, if m.exported then "" else PackageOf(m, listed))
  }

  /** Interface methods have different places in the order, in increasing order. */
  ghost predicate StrictlySorted(rank: (string, string) -> int, methods: seq<Method>, pkg: string) {
    forall i, j :: 0 <= i < j < |methods| ==> Place(rank, methods[i], pkg) < Place(rank, methods[j], pkg)
  }

  ghost predicate Sorted(rank: (string, string) -> int, methods: seq<Method>, pkg: string) {
    forall i, j :: 0 <= i < j < |methods| ==> Place(rank, methods[i], pkg) <= Place(rank, methods[j], pkg)
  }

  /** The exported flag follows from the name. */
  ghost predicate ExportedByName(t: seq<Method>, v: seq<Method>) {
    forall i, j :: 0 <= i < |t| && 0 <= j < |v| && t[i].name == v[j].name ==> t[i].exported == v[j].exported
  }

  /** Both lists are in the compiler's order, whatever that order is. */
  ghost predicate InOrder(rank: (string, string) -> int, t: Target, v: Option<Uncommon>) {
    t.Interface? && v.Some? ==>
      && StrictlySorted(rank, t.methods, t.pkgPath)
      && Sorted(rank, v.value.methods, v.value.pkgPath)
      && ExportedByName(t.methods, v.value.methods)
  }

  /** Nothing in front of `j` serves the interface method `i`. */
  ghost predicate NotYet(t: Method, tPkg: string, methods: seq<Method>, vPkg: string, j: nat)
    requires j <= |methods|
  {
    forall k :: 0 <= k < j ==> !Serves(t, tPkg, methods[k], vPkg)
  }

  /** The next interface method sorts behind the one just served, so nothing met so far serves it. */
  lemma NextNotYet(rank: (string, string) -> int, t: Target, v: Option<Uncommon>, i: nat, j: nat)
    requires t.Interface? && v.Some? && InOrder(rank, t, v)
    requires i + 1 < |t.methods| && j < |v.value.methods|
    requires Serves(t.methods[i], t.pkgPath, v.value.methods[j], v.value.pkgPath)
    ensures NotYet(t.methods[i + 1], t.pkgPath, v.value.methods, v.value.pkgPath, j + 1)
  {
    var ms, vPkg, next := v.value.methods, v.value.pkgPath, t.methods[i + 1];
    assert Place(rank, ms[j], vPkg) == Place(rank, t.methods[i], t.pkgPath);
    forall k | 0 <= k <= j ensures !Serves(next, t.pkgPath, ms[k], vPkg) {
      assert Place(rank, ms[k], vPkg) < Place(rank, next, t.pkgPath);
    }
  }

  /** One pass over the type's methods decides, for lists in any common order. */
  method Implements(t: Target, v: Option<Uncommon>, ghost rank: (string, string) -> int) returns (ok: bool)
    requires InOrder(rank, t, v)
    ensures ok <==> ImplementsSpec(t, v)
  {
    if t.NotInterface? {
      return false;
    }
    if |t.methods| == 0 {
      return true;
    }
    if v.None? {
      return false;
    }
    var methods := v.value.methods;
    var i, j := 0, 0;
    while j < |methods|
      invariant 0 <= i < |t.methods| && 0 <= j <= |methods|
      invariant forall k :: 0 <= k < i ==> Served(t.methods[k], t.pkgPath, methods, v.value.pkgPath)
      invariant NotYet(t.methods[i], t.pkgPath, methods, v.value.pkgPath, j)
    {
      var tm, vm := t.methods[i], methods[j];
      j := j + 1;
      if vm.name == tm.name && vm.typ == tm.typ {
        if !tm.exported {
          if PackageOf(tm, t.pkgPath) != PackageOf(vm, v.value.pkgPath) {
            continue;
          }
        }
        if i + 1 < |t.methods| {
          NextNotYet(rank, t, v, i, j - 1);
        }
        i := i + 1;
        if i >= |t.methods| {
          return true;
        }
      }
    }
    assert !Served(t.methods[i], t.pkgPath, methods, v.value.pkgPath);
    ok := false;
  }
}
