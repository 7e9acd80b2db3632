/** reflectlite/reflectlite1.19/value.go: `haveIdenticalType` and `haveIdenticalUnderlyingType`
    without interface relaxation.  Types form a finite graph that may be cyclic; a set of pairs
    already under comparison makes the recursion end. */
module TypeIdentity {

  datatype Kind =
    | Invalid
    | Basic(code: nat)  // Bool to Complex128, String, UnsafePointer
    | Array | Chan | Func | Interface | Map | Pointer | Slice | Struct

  /** A struct field. */
  datatype Field = Field(name: string, typ: nat, tag: string, offset: nat, embedded: bool)

  /** One type; other types are referred to by their position in the graph.  `elem` belongs to
      arrays, channels, maps, pointers and slices, `key` to maps, and so on. */
  datatype Type = Type(
    name: string, pkgPath: string, kind: Kind,
    elem: nat, key: nat, len: nat, chanDir: nat,
    ins: seq<nat>, outs: seq<nat>, variadic: bool,
    methodCount: nat,
    structPkg: string, fields: seq<Field>)

  type Pair = (nat, nat)

  /** The types that a type is made of, in the order in which they are compared. */
  function Parts(t: Type): seq<nat> {
    match t.kind
    case Array | Chan | Pointer | Slice => [t.elem]
    case Map => [t.key, t.elem]
    case Func => t.ins + t.outs
    case Struct => FieldTypes(t.fields)
    case _ => []
  }

  function FieldTypes(fields: seq<Field>): seq<nat> {
    seq(|fields|, i requires 0 <= i < |fields| => fields[i].typ)
  }

  /** Every part of every type is in the graph. */
  ghost predicate Closed(types: seq<Type>) {
    forall i, p :: 0 <= i < |types| && p in Parts(types[i]) ==> p < |types|
  }

  predicate SameField(a: Field, b: Field, cmpTags: bool) {
    a.name == b.name && a.offset == b.offset && a.embedded == b.embedded && (cmpTags ==> a.tag == b.tag)
  }

  /** Everything about two types but their parts. */
  ghost predicate SameShape(a: Type, b: Type, cmpTags: bool) {
    a.kind == b.kind
    && match a.kind
       case Invalid => false
       case Array => a.len == b.len
       case Chan => a.chanDir == b.chanDir
       case Func => |a.ins| == |b.ins| && |a.outs| == |b.outs| && a.variadic == b.variadic
       case Interface => a.methodCount == 0 && b.methodCount == 0
       case Struct =>
         a.structPkg == b.structPkg && |a.fields| == |b.fields|
         && forall i :: 0 <= i < |a.fields| ==> SameField(a.fields[i], b.fields[i], cmpTags)
       case _ => true
  }

  /** Name, kind and package: what `haveIdenticalType` looks at before the underlying types. */
  predicate SameHeader(a: Type, b: Type) {
    a.name == b.name && a.kind == b.kind && a.pkgPath == b.pkgPath
  }

  /** Two parts correspond, by a relation on types; with tags compared, parts must be the same type. */
  ghost predicate Corresponds(types: seq<Type>, r: set<Pair>, cmpTags: bool, x: nat, y: nat) {
    if cmpTags then x == y
    else x < |types| && y < |types| && SameHeader(types[x], types[y]) && (x == y || (x, y) in r)
  }

  ghost predicate PartsCorrespond(types: seq<Type>, r: set<Pair>, cmpTags: bool, a: nat, b: nat)
    requires a < |types| && b < |types|
  {
    var p, q := Parts(types[a]), Parts(types[b]);
    |p| == |q| && forall i :: 0 <= i < |p| ==> Corresponds(types, r, cmpTags, p[i], q[i])
  }

  /** The pair holds up under `r`: same shape, and corresponding parts. */
  ghost predicate HoldsUp(types: seq<Type>, r: set<Pair>, cmpTags: bool, p: Pair) {
    p.0 < |types| && p.1 < |types|
    && (p.0 == p.1 || (SameShape(types[p.0], types[p.1], cmpTags) && PartsCorrespond(types, r, cmpTags, p.0, p.1)))
  }

  /** Every pair of the relation holds up under the relation itself. */
  ghost predicate Bisimulation(types: seq<Type>, r: set<Pair>, cmpTags: bool) {
    forall p :: p in r ==> HoldsUp(types, r, cmpTags, p)
  }

  /** Type identity, coinductively: some bisimulation relates the two types. */
  ghost predicate Identical(types: seq<Type>, a: nat, b: nat, cmpTags: bool) {
    a == b || exists r: set<Pair> :: Bisimulation(types, r, cmpTags) && (a, b) in r
  }

  /** The two parts have the same name, kind and package and are the same or related; with tags compared,
      they are one type. */
  ghost predicate PartsAgree(types: seq<Type>, r: set<Pair>, x: nat, y: nat, cmpTags: bool) {
    if cmpTags then x == y
    else
      && x < |types| && y < |types| && (x == y || (x, y) in r)
      && types[x].name == types[y].name && types[x].kind == types[y].kind && types[x].pkgPath == types[y].pkgPath
  }

  ghost predicate FieldsAgree(types: seq<Type>, r: set<Pair>, f: Field, g: Field, cmpTags: bool) {
    && f.name == g.name && f.embedded == g.embedded && f.offset == g.offset && (cmpTags ==> f.tag == g.tag)
    && PartsAgree(types, r, f.typ, g.typ, cmpTags)
  }

  /** What it takes for two types to be identical when the pairs of `r` are taken to be, kind by kind. */
  ghost predicate Agree(types: seq<Type>, r: set<Pair>, a: Type, b: Type, cmpTags: bool) {
    a.kind == b.kind
    && match a.kind
       case Invalid => false
       case Basic(_) => true
       case Array => a.len == b.len && PartsAgree(types, r, a.elem, b.elem, cmpTags)
       case Chan => a.chanDir == b.chanDir && PartsAgree(types, r, a.elem, b.elem, cmpTags)
       case Func =>
         && a.variadic == b.variadic && |a.ins| == |b.ins| && |a.outs| == |b.outs|
         && (forall i :: 0 <= i < |a.ins| ==> PartsAgree(types, r, a.ins[i], b.ins[i], cmpTags))
         && (forall i :: 0 <= i < |a.outs| ==> PartsAgree(types, r, a.outs[i], b.outs[i], cmpTags))
       case Interface => a.methodCount == 0 && b.methodCount == 0
       case Map => PartsAgree(types, r, a.key, b.key, cmpTags) && PartsAgree(types, r, a.elem, b.elem, cmpTags)
       case Pointer => PartsAgree(types, r, a.elem, b.elem, cmpTags)
       case Slice => PartsAgree(types, r, a.elem, b.elem, cmpTags)
       case Struct =>
         && a.structPkg == b.structPkg && |a.fields| == |b.fields|
         && forall i :: 0 <= i < |a.fields| ==> FieldsAgree(types, r, a.fields[i], b.fields[i], cmpTags)
  }

  lemma PartsAgreeIff(types: seq<Type>, r: set<Pair>, x: nat, y: nat, cmpTags: bool)
    ensures Corresponds(types, r, cmpTags, x, y) <==> PartsAgree(types, r, x, y, cmpTags)
  {
  }

  /** Same shape and corresponding parts, in turn. */
  ghost predicate ShapeAndParts(types: seq<Type>, r: set<Pair>, a: Type, b: Type, cmpTags: bool) {
    && SameShape(a, b, cmpTags) && |Parts(a)| == |Parts(b)|
    && forall i :: 0 <= i < |Parts(a)| ==> PartsAgree(types, r, Parts(a)[i], Parts(b)[i], cmpTags)
  }

  lemma AgreeIff(types: seq<Type>, r: set<Pair>, a: Type, b: Type, cmpTags: bool)
    ensures Agree(types, r, a, b, cmpTags) <==> ShapeAndParts(types, r, a, b, cmpTags)
  {
    hide PartsAgree;
    if a.kind == b.kind {
      if a.kind.Func? {
        FuncAgrees(types, r, a, b, cmpTags);
      } else if a.kind.Struct? {
        StructAgrees(types, r, a, b, cmpTags);
      } else if a.kind.Map? {
        assert Parts(a)[0] == a.key && Parts(a)[1] == a.elem && Parts(b)[0] == b.key && Parts(b)[1] == b.elem;
      } else if a.kind.Array? || a.kind.Chan? || a.kind.Pointer? || a.kind.Slice? {
        assert Parts(a)[0] == a.elem && Parts(b)[0] == b.elem;
      }
    }
  }

  lemma FuncAgrees(types: seq<Type>, r: set<Pair>, a: Type, b: Type, cmpTags: bool)
    requires a.kind == b.kind == Func
    ensures Agree(types, r, a, b, cmpTags) <==> ShapeAndParts(types, r, a, b, cmpTags)
  {
    hide PartsAgree;
    var p, q := Parts(a), Parts(b);
    if Agree(types, r, a, b, cmpTags) {
      forall i | 0 <= i < |p| ensures PartsAgree(types, r, p[i], q[i], cmpTags) {
        if i < |a.ins| {
          assert p[i] == a.ins[i] && q[i] == b.ins[i];
        } else {
          assert p[i] == a.outs[i - |a.ins|] && q[i] == b.outs[i - |a.ins|];
        }
      }
    }
    if ShapeAndParts(types, r, a, b, cmpTags) {
      forall i | 0 <= i < |a.ins| ensures PartsAgree(types, r, a.ins[i], b.ins[i], cmpTags) {
        assert p[i] == a.ins[i] && q[i] == b.ins[i];
      }
      forall i | 0 <= i < |a.outs| ensures PartsAgree(types, r, a.outs[i], b.outs[i], cmpTags) {
        assert p[|a.ins| + i] == a.outs[i] && q[|a.ins| + i] == b.outs[i];
      }
    }
  }

  lemma StructAgrees(types: seq<Type>, r: set<Pair>, a: Type, b: Type, cmpTags: bool)
    requires a.kind == b.kind == Struct
    ensures Agree(types, r, a, b, cmpTags) <==> ShapeAndParts(types, r, a, b, cmpTags)
  {
    hide PartsAgree;
    var p, q := Parts(a), Parts(b);
    if ShapeAndParts(types, r, a, b, cmpTags) {
      forall i | 0 <= i < |a.fields| ensures FieldsAgree(types, r, a.fields[i], b.fields[i], cmpTags) {
        assert p[i] == a.fields[i].typ && q[i] == b.fields[i].typ;
        assert SameField(a.fields[i], b.fields[i], cmpTags);
      }
    }
    if Agree(types, r, a, b, cmpTags) {
      forall i | 0 <= i < |p| ensures PartsAgree(types, r, p[i], q[i], cmpTags) {
        assert FieldsAgree(types, r, a.fields[i], b.fields[i], cmpTags);
      }
    }
  }

  lemma HoldsUpIff(types: seq<Type>, r: set<Pair>, cmpTags: bool, p: Pair)
    ensures HoldsUp(types, r, cmpTags, p)
       <==> p.0 < |types| && p.1 < |types| && (p.0 == p.1 || Agree(types, r, types[p.0], types[p.1], cmpTags))
  {
    hide PartsAgree, Corresponds, Agree, SameShape, Parts;
    if p.0 < |types| && p.1 < |types| {
      AgreeIff(types, r, types[p.0], types[p.1], cmpTags);
      var x, y := Parts(types[p.0]), Parts(types[p.1]);
      forall i | 0 <= i < |x| && i < |y|
        ensures Corresponds(types, r, cmpTags, x[i], y[i]) <==> PartsAgree(types, r, x[i], y[i], cmpTags) {
        PartsAgreeIff(types, r, x[i], y[i], cmpTags);
      }
    }
  }

  /** Every pair of the relation agrees, with the pairs themselves taken to be identical. */
  ghost predicate AllAgree(types: seq<Type>, r: set<Pair>, cmpTags: bool) {
    forall p :: p in r ==>
      && p.0 < |types| && p.1 < |types|
      && (p.0 == p.1 || Agree(types, r, types[p.0], types[p.1], cmpTags))
  }

  /** Type identity, kind by kind: the two types are one, or they are among pairs that all agree when the
      pairs themselves are taken to be identical. */
  lemma IdenticalIff(types: seq<Type>, a: nat, b: nat, cmpTags: bool)
    ensures Identical(types, a, b, cmpTags)
       <==> a == b || exists r: set<Pair> :: (a, b) in r && AllAgree(types, r, cmpTags)
  {
    hide HoldsUp, Agree;
    forall r: set<Pair> ensures Bisimulation(types, r, cmpTags) <==> AllAgree(types, r, cmpTags) {
      forall p | p in r ensures HoldsUp(types, r, cmpTags, p)
        <==> p.0 < |types| && p.1 < |types| && (p.0 == p.1 || Agree(types, r, types[p.0], types[p.1], cmpTags)) {
        HoldsUpIff(types, r, cmpTags, p);
      }
    }
  }

  lemma HoldsUpMore(types: seq<Type>, r: set<Pair>, r': set<Pair>, cmpTags: bool, p: Pair)
    requires r <= r' && HoldsUp(types, r, cmpTags, p)
    ensures HoldsUp(types, r', cmpTags, p)
  {
    if p.0 != p.1 {
      var x, y := Parts(types[p.0]), Parts(types[p.1]);
      forall i | 0 <= i < |x| ensures Corresponds(types, r', cmpTags, x[i], y[i]) {
        assert Corresponds(types, r, cmpTags, x[i], y[i]);
      }
    }
  }

  /** Identical types have the same shape, and identical parts with equal headers. */
  lemma IdenticalUnfolds(types: seq<Type>, a: nat, b: nat, cmpTags: bool)
    requires a != b && Identical(types, a, b, cmpTags)
    ensures a < |types| && b < |types| && SameShape(types[a], types[b], cmpTags)
    ensures PartsIdentical(types, a, b, cmpTags)
  {
    var r :| Bisimulation(types, r, cmpTags) && (a, b) in r;
    assert HoldsUp(types, r, cmpTags, (a, b));
    var p, q := Parts(types[a]), Parts(types[b]);
    forall i | 0 <= i < |p| ensures PartIdentical(types, p[i], q[i], cmpTags) {
      assert Corresponds(types, r, cmpTags, p[i], q[i]);
    }
  }

  /** What `haveIdenticalType` decides about two parts. */
  ghost predicate PartIdentical(types: seq<Type>, x: nat, y: nat, cmpTags: bool) {
    if cmpTags then x == y
    else x < |types| && y < |types| && SameHeader(types[x], types[y]) && Identical(types, x, y, false)
  }

  ghost predicate PartsIdentical(types: seq<Type>, a: nat, b: nat, cmpTags: bool)
    requires a < |types| && b < |types|
  {
    var p, q := Parts(types[a]), Parts(types[b]);
    |p| == |q| && forall i :: 0 <= i < |p| ==> PartIdentical(types, p[i], q[i], cmpTags)
  }

  /** All pairs of types of the graph. */
  ghost function Pairs(n: nat): set<Pair> { set a: nat, b: nat | a < n && b < n :: (a, b) }

  /** The pairs a comparison may still add. */
  ghost function Unseen(types: seq<Type>, seen: set<Pair>): set<Pair> { Pairs(|types|) - seen }

  /** What a successful call leaves: all it added holds up. */
  ghost predicate Grown(types: seq<Type>, before: set<Pair>, after: set<Pair>, cmpTags: bool) {
    before <= after && forall p :: p in after && p !in before ==> HoldsUp(types, after, cmpTags, p)
  }

  lemma GrownTrans(types: seq<Type>, s0: set<Pair>, s1: set<Pair>, s2: set<Pair>, cmpTags: bool)
    requires Grown(types, s0, s1, cmpTags) && Grown(types, s1, s2, cmpTags)
    ensures Grown(types, s0, s2, cmpTags)
  {
    forall p | p in s2 && p !in s0 ensures HoldsUp(types, s2, cmpTags, p) {
      if p in s1 {
        HoldsUpMore(types, s1, s2, cmpTags, p);
      }
    }
  }

  lemma PairsFinite(n: nat, r: set<Pair>, s: set<Pair>)
    requires r <= s <= Pairs(n)
    ensures |Pairs(n) - s| <= |Pairs(n) - r|
    ensures r < s ==> |Pairs(n) - s| < |Pairs(n) - r|
  {
    Smaller(Pairs(n) - s, Pairs(n) - r);
    if r < s {
      var p :| p in s && p !in r;
      Smaller(Pairs(n) - s, Pairs(n) - r - {p});
    }
  }

  lemma Smaller(a: set<Pair>, b: set<Pair>)
    requires a <= b
    ensures |a| <= |b|
  {
    if a != {} {
      var p :| p in a;
      Smaller(a - {p}, b - {p});
    }
  }

  /** A pair that is closed off: its parts were compared after it was marked. */
  lemma Closes(types: seq<Type>, start: set<Pair>, marked: set<Pair>, seen: set<Pair>, p: Pair, cmpTags: bool)
    requires marked == start + {p} && Grown(types, marked, seen, cmpTags) && HoldsUp(types, seen, cmpTags, p)
    ensures Grown(types, start, seen, cmpTags)
  {
  }

  /** The parts of a type, as the comparison takes them one kind at a time. */
  lemma PartsInGraph(types: seq<Type>, t: nat)
    requires Closed(types) && t < |types|
    ensures forall x :: x in Parts(types[t]) ==> x < |types|
    ensures match types[t].kind
            case Array | Chan | Pointer | Slice => types[t].elem < |types|
            case Map => types[t].key < |types| && types[t].elem < |types|
            case Func => forall x :: x in types[t].ins + types[t].outs ==> x < |types|
            case Struct => forall x :: x in FieldTypes(types[t].fields) ==> x < |types|
            case _ => true
  {
    var k := types[t].kind;
    if k.Array? || k.Chan? || k.Pointer? || k.Slice? {
      assert types[t].elem in Parts(types[t]);
    } else if k.Map? {
      assert types[t].key in Parts(types[t]) && types[t].elem in Parts(types[t]);
    }
  }

  lemma GrownNothing(types: seq<Type>, seen: set<Pair>, cmpTags: bool)
    ensures Grown(types, seen, seen, cmpTags)
  {
  }

  lemma StillCorresponds(types: seq<Type>, r: set<Pair>, r': set<Pair>, cmpTags: bool, p: seq<nat>, q: seq<nat>, n: nat)
    requires r <= r' && n <= |p| && n <= |q|
    requires forall k :: 0 <= k < n ==> Corresponds(types, r, cmpTags, p[k], q[k])
    ensures forall k :: 0 <= k < n ==> Corresponds(types, r', cmpTags, p[k], q[k])
  {
    forall k | 0 <= k < n ensures Corresponds(types, r', cmpTags, p[k], q[k]) {
      assert Corresponds(types, r, cmpTags, p[k], q[k]);
    }
  }

  class Comparer {
    const types: seq<Type>
    var seen: set<Pair>

    constructor (types: seq<Type>)
      ensures this.types == types && seen == {}
    {
      this.types := types;
      seen := {};
    }

    method HaveIdenticalType(t: nat, v: nat, cmpTags: bool) returns (ok: bool)
      requires Closed(types) && t < |types| && v < |types| && seen <= Pairs(|types|)
      modifies this
      ensures old(seen) <= seen <= Pairs(|types|)
      ensures ok ==> Grown(types, old(seen), seen, cmpTags) && Corresponds(types, seen, cmpTags, t, v)
      ensures PartIdentical(types, t, v, cmpTags) ==> ok
      decreases |Unseen(types, seen)|, 1
    {
      if cmpTags {
        return t == v;
      }
      if types[t].name != types[v].name || types[t].kind != types[v].kind || types[t].pkgPath != types[v].pkgPath {
        return false;
      }
      ok := HaveIdenticalUnderlyingType(t, v, false);
    }

    /** Compares the parts `p` and `q` in turn, stopping at the first difference. */
    method HaveIdenticalParts(p: seq<nat>, q: seq<nat>, cmpTags: bool) returns (ok: bool)
      requires Closed(types) && |p| == |q| && seen <= Pairs(|types|)
      requires forall x :: x in p || x in q ==> x < |types|
      modifies this
      ensures old(seen) <= seen <= Pairs(|types|)
      ensures ok ==> Grown(types, old(seen), seen, cmpTags)
      ensures ok ==> forall i :: 0 <= i < |p| ==> Corresponds(types, seen, cmpTags, p[i], q[i])
      ensures (forall i :: 0 <= i < |p| ==> PartIdentical(types, p[i], q[i], cmpTags)) ==> ok
      decreases |Unseen(types, seen)|, 2
    {
      ghost var start := seen;
      var i := 0;
      while i < |p|
        invariant 0 <= i <= |p| && start <= seen <= Pairs(|types|)
        invariant Grown(types, start, seen, cmpTags)
        invariant forall k :: 0 <= k < i ==> Corresponds(types, seen, cmpTags, p[k], q[k])
      {
        ghost var before := seen;
        PairsFinite(|types|, start, seen);
        assert p[i] in p && q[i] in q;
        ok := HaveIdenticalType(p[i], q[i], cmpTags);
        if !ok {
          return;
        }
        StillCorresponds(types, before, seen, cmpTags, p, q, i);
        GrownTrans(types, start, before, seen, cmpTags);
        i := i + 1;
      }
      ok := true;
    }

    method HaveIdenticalUnderlyingType(t: nat, v: nat, cmpTags: bool) returns (ok: bool)
      requires Closed(types) && t < |types| && v < |types| && seen <= Pairs(|types|)
      modifies this
      ensures old(seen) <= seen <= Pairs(|types|)
      ensures ok ==> Grown(types, old(seen), seen, cmpTags) && (t == v || (t, v) in seen)
      ensures Identical(types, t, v, cmpTags) ==> ok
      decreases |Unseen(types, seen)|, 0
    {
      if t == v {
        return true;
      }
      if (t, v) in seen {
        return true;
      }
      ghost var start := seen;
      seen := seen + {(t, v)};
      ghost var marked := seen;
      PairsFinite(|types|, start, marked);
      if Identical(types, t, v, cmpTags) {
        IdenticalUnfolds(types, t, v, cmpTags);
      }
      ok := CompareKinds(t, v, cmpTags);
      if ok {
        Closes(types, start, marked, seen, (t, v), cmpTags);
      }
    }

    /** The comparison proper, once the pair is marked. */
    method CompareKinds(t: nat, v: nat, cmpTags: bool) returns (ok: bool)
      requires Closed(types) && t < |types| && v < |types| && seen <= Pairs(|types|)
      modifies this
      ensures old(seen) <= seen <= Pairs(|types|)
      ensures ok ==> Grown(types, old(seen), seen, cmpTags) && HoldsUp(types, seen, cmpTags, (t, v))
      ensures SameShape(types[t], types[v], cmpTags) && PartsIdentical(types, t, v, cmpTags) ==> ok
      decreases |Unseen(types, seen)|, 3
    {
      hide Grown, Corresponds, PartIdentical;
      GrownNothing(types, seen, cmpTags);
      var a, b := types[t], types[v];
      if a.kind != b.kind {
        return false;
      }
      PartsInGraph(types, t);
      PartsInGraph(types, v);
      match a.kind {
        case Basic(_) =>
          ok := true;
        case Array =>
          if a.len != b.len { return false; }
          ok := HaveIdenticalParts([a.elem], [b.elem], cmpTags);
        case Chan =>
          if b.chanDir != a.chanDir { return false; }
          ok := HaveIdenticalParts([a.elem], [b.elem], cmpTags);
        case Func =>
          if |a.outs| != |b.outs| || a.variadic != b.variadic || |a.ins| != |b.ins| { return false; }
          ok := HaveIdenticalParts(a.ins + a.outs, b.ins + b.outs, cmpTags);
        case Interface =>
          ok := a.methodCount == 0 && b.methodCount == 0;
        case Map =>
          ok := HaveIdenticalParts([a.key, a.elem], [b.key, b.elem], cmpTags);
        case Pointer | Slice =>
          ok := HaveIdenticalParts([a.elem], [b.elem], cmpTags);
        case Struct =>
          if |a.fields| != |b.fields| || a.structPkg != b.structPkg { return false; }
          ok := HaveIdenticalFields(a.fields, b.fields, cmpTags);
        case Invalid =>
          ok := false;
      }
    }

    /** Compares fields in turn: name, type, tag, offset and embedding, stopping at the first
        difference. */
    method HaveIdenticalFields(a: seq<Field>, b: seq<Field>, cmpTags: bool) returns (ok: bool)
      requires Closed(types) && |a| == |b| && seen <= Pairs(|types|)
      requires forall x :: x in FieldTypes(a) || x in FieldTypes(b) ==> x < |types|
      modifies this
      ensures old(seen) <= seen <= Pairs(|types|)
      ensures ok ==> Grown(types, old(seen), seen, cmpTags)
      ensures ok ==> forall i :: 0 <= i < |a| ==>
        SameField(a[i], b[i], cmpTags) && Corresponds(types, seen, cmpTags, FieldTypes(a)[i], FieldTypes(b)[i])
      ensures (forall i :: 0 <= i < |a| ==>
                 SameField(a[i], b[i], cmpTags) && PartIdentical(types, FieldTypes(a)[i], FieldTypes(b)[i], cmpTags))
              ==> ok
      decreases |Unseen(types, seen)|, 2
    {
      hide Grown, Corresponds, PartIdentical;
      ghost var start := seen;
      ghost var p, q := FieldTypes(a), FieldTypes(b);
      GrownNothing(types, seen, cmpTags);
      var i := 0;
      while i < |a|
        invariant 0 <= i <= |a| && start <= seen <= Pairs(|types|)
        invariant Grown(types, start, seen, cmpTags)
        invariant forall k :: 0 <= k < i ==>
          SameField(a[k], b[k], cmpTags) && Corresponds(types, seen, cmpTags, p[k], q[k])
      {
        if a[i].name != b[i].name {
          return false;
        }
        ghost var before := seen;
        PairsFinite(|types|, start, seen);
        assert p[i] == a[i].typ && q[i] == b[i].typ && p[i] in p && q[i] in q;
        ok := HaveIdenticalType(a[i].typ, b[i].typ, cmpTags);
        if !ok {
          return;
        }
        GrownTrans(types, start, before, seen, cmpTags);
        StillCorresponds(types, before, seen, cmpTags, p, q, i);
        if cmpTags && a[i].tag != b[i].tag {
          return false;
        }
        if a[i].offset != b[i].offset || a[i].embedded != b[i].embedded {
          return false;
        }
        i := i + 1;
      }
      ok := true;
    }
  }

  // ----- the decision -----

  /** With a fresh set of pairs: true exactly when the types are identical. */
  method DecideIdentical(types: seq<Type>, t: nat, v: nat, cmpTags: bool) returns (ok: bool)
    requires Closed(types) && t < |types| && v < |types|
    ensures ok <==> Identical(types, t, v, cmpTags)
  {
    var comparer := new Comparer(types);
    ok := comparer.HaveIdenticalUnderlyingType(t, v, cmpTags);
    if ok {
      FinalSeenIsBisimulation(types, comparer.seen, cmpTags);
    }
  }

  /** After success the final set of pairs is itself the bisimulation. */
  lemma FinalSeenIsBisimulation(types: seq<Type>, seen: set<Pair>, cmpTags: bool)
    requires Grown(types, {}, seen, cmpTags)
    ensures Bisimulation(types, seen, cmpTags)
  {
  }

  // ----- type identity is an equivalence -----

  lemma IdenticalSymmetric(types: seq<Type>, a: nat, b: nat, cmpTags: bool)
    requires Identical(types, a, b, cmpTags)
    ensures Identical(types, b, a, cmpTags)
  {
    if a != b {
      var r :| Bisimulation(types, r, cmpTags) && (a, b) in r;
      var back := set p: Pair | p in r :: (p.1, p.0);
      forall p | p in back ensures HoldsUp(types, back, cmpTags, p) {
        assert (p.1, p.0) in r && HoldsUp(types, r, cmpTags, (p.1, p.0));
        if p.0 != p.1 {
          var x, y := Parts(types[p.0]), Parts(types[p.1]);
          forall i | 0 <= i < |x| ensures Corresponds(types, back, cmpTags, x[i], y[i]) {
            assert Corresponds(types, r, cmpTags, y[i], x[i]);
          }
        }
      }
      assert (b, a) in back;
    }
  }

  lemma IdenticalTransitive(types: seq<Type>, a: nat, b: nat, c: nat, cmpTags: bool)
    requires Identical(types, a, b, cmpTags) && Identical(types, b, c, cmpTags)
    ensures Identical(types, a, c, cmpTags)
  {
    if a != b && b != c {
      var r :| Bisimulation(types, r, cmpTags) && (a, b) in r;
      var s :| Bisimulation(types, s, cmpTags) && (b, c) in s;
      var both := r + s + Composed(r, s);
      forall p | p in both ensures HoldsUp(types, both, cmpTags, p) {
        ComposedHoldsUp(types, r, s, p, cmpTags);
      }
      assert InComposed(r, s, (a, c), (a, b), (b, c));
    }
  }

  /** `p` leads from `x` on to `y`. */
  ghost predicate InComposed(r: set<Pair>, s: set<Pair>, p: Pair, x: Pair, y: Pair) {
    x in r && y in s && x.1 == y.0 && p == (x.0, y.1)
  }

  ghost function Composed(r: set<Pair>, s: set<Pair>): (c: set<Pair>)
    ensures forall p, x, y :: InComposed(r, s, p, x, y) ==> p in c
    ensures forall p :: p in c ==> exists x, y :: InComposed(r, s, p, x, y)
  {
    var c := set x: Pair, y: Pair | x in r && y in s && x.1 == y.0 :: (x.0, y.1);
    assert forall p :: p in c ==> exists x, y :: InComposed(r, s, p, x, y) by {
      forall p | p in c ensures exists x, y :: InComposed(r, s, p, x, y) {
        var x: Pair, y: Pair :| x in r && y in s && x.1 == y.0 && p == (x.0, y.1);
        assert InComposed(r, s, p, x, y);
      }
    }
    c
  }

  lemma ComposedHoldsUp(types: seq<Type>, r: set<Pair>, s: set<Pair>, p: Pair, cmpTags: bool)
    requires Bisimulation(types, r, cmpTags) && Bisimulation(types, s, cmpTags)
    requires p in r + s + Composed(r, s)
    ensures HoldsUp(types, r + s + Composed(r, s), cmpTags, p)
  {
    hide Composed, SameShape, Parts;
    var both := r + s + Composed(r, s);
    if p in r {
      HoldsUpMore(types, r, both, cmpTags, p);
    } else if p in s {
      HoldsUpMore(types, s, both, cmpTags, p);
    } else {
      var x: Pair, y: Pair :| InComposed(r, s, p, x, y);
      assert HoldsUp(types, r, cmpTags, x) && HoldsUp(types, s, cmpTags, y);
      if x.0 != x.1 && y.0 != y.1 && p.0 != p.1 {
        SameShapeTransitive(types[x.0], types[x.1], types[y.1], cmpTags);
        var u, v, w := Parts(types[x.0]), Parts(types[x.1]), Parts(types[y.1]);
        forall i | 0 <= i < |u| ensures Corresponds(types, both, cmpTags, u[i], w[i]) {
          assert Corresponds(types, r, cmpTags, u[i], v[i]) && Corresponds(types, s, cmpTags, v[i], w[i]);
          if !cmpTags && u[i] != v[i] && v[i] != w[i] {
            assert InComposed(r, s, (u[i], w[i]), (u[i], v[i]), (v[i], w[i]));
          }
        }
      }
    }
  }

  lemma SameShapeTransitive(a: Type, b: Type, c: Type, cmpTags: bool)
    requires SameShape(a, b, cmpTags) && SameShape(b, c, cmpTags)
    ensures SameShape(a, c, cmpTags)
  {
    if a.kind == Struct {
      forall i | 0 <= i < |a.fields| ensures SameField(a.fields[i], c.fields[i], cmpTags) {
        assert SameField(a.fields[i], b.fields[i], cmpTags) && SameField(b.fields[i], c.fields[i], cmpTags);
      }
    }
  }
}
