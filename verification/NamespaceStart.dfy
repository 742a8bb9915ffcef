/** How the namespace of `namespace.c` starts: the predefined nodes and their installation. */
module NamespaceStart {
  import opened Options
  import opened NamespaceTree

  const NAMES: seq<Name> := ["\\\0\0\0", "_GPE", "_PR_", "_SB_", "_SI_", "_TZ_", "_GL_", "_OS_", "_OSI", "_REV"]
  const OSI: Ptr := 9

  /** The predefined nodes below p that are installed, in order; the root is node 1. */
  function Starters(p: nat, noOsi: bool): (r: seq<Ptr>)
    ensures forall i :: 0 <= i < |r| ==> 2 <= r[i] < p
    ensures forall q :: 2 <= q < p ==> (q in r <==> q != OSI || !noOsi)
  {
    if p <= 2 then [] else Starters(p - 1, noOsi) + if p - 1 == OSI && noOsi then [] else [p - 1]
  }

  ghost predicate AllMade(objects: seq<Option<nat>>) { forall i :: 0 <= i < |objects| ==> objects[i].Some? }

  /** Node p as it is before it is installed. */
  ghost predicate Loose(store: Store, g: Shape, p: Ptr) {
    p in store && p !in g.kids && !store[p].dangling && store[p].child == 0 && store[p].next == 0
  }

  ghost predicate LooseFrom(store: Store, g: Shape, from: nat, to: nat) {
    forall p {:trigger Loose(store, g, p)} :: from <= p <= to ==> Loose(store, g, p)
  }

  /** The root and the nodes installed below it, which are leaves. */
  ghost predicate Flat(store: Store, g: Shape, kids: seq<Ptr>) {
    && WellFormed(store, g, 1) && g.kids[1] == kids
    && forall p :: p in g.kids && p != 1 ==> p in kids && g.kids[p] == []
  }

  /** Node p of the array has its name, and the object made for it. */
  ghost predicate Named(store: Store, names: seq<Name>, p: Ptr) {
    1 <= p <= |names| && p in store && store[p].name == names[p - 1] && store[p].predefined
  }

  ghost predicate Made(store: Store, objects: seq<Option<nat>>, p: Ptr) {
    1 <= p <= |objects| && p in store && store[p].obj == objects[p - 1] && store[p].refs == 1
  }

  ghost predicate AllNamed(store: Store, names: seq<Name>) {
    forall p {:trigger Named(store, names, p)} :: 1 <= p <= |names| ==> Named(store, names, p)
  }

  ghost predicate MadeTo(store: Store, objects: seq<Option<nat>>, n: nat) {
    forall p {:trigger Made(store, objects, p)} :: 1 <= p <= n ==> Made(store, objects, p)
  }

  /** uacpi_initialize_namespace: objects are the types of the objects made for the nodes, None where memory ran out.
      The root gets the predefined nodes as its children, in order, except _OSI on request; without memory nothing
      is installed. */
  method Initialize(objects: seq<Option<nat>>, noOsi: bool) returns (ns: Namespace, ok: bool)
    requires |objects| == |NAMES|
    ensures fresh(ns) && ns.Valid() && ns.root == 1 && (ok <==> AllMade(objects)) && AllNamed(ns.store, NAMES)
    ensures Flat(ns.store, ns.shape, if ok then Starters(|NAMES| + 1, noOsi) else [])
    ensures ok ==> MadeTo(ns.store, objects, |NAMES|)
  {
    ns, ok := Populate(NAMES, objects, noOsi);
  }

  method Populate(names: seq<Name>, objects: seq<Option<nat>>, noOsi: bool) returns (ns: Namespace, ok: bool)
    requires |objects| == |names| > 0
    ensures fresh(ns) && ns.Valid() && ns.root == 1 && (ok <==> AllMade(objects)) && AllNamed(ns.store, names)
    ensures Flat(ns.store, ns.shape, if ok then Starters(|names| + 1, noOsi) else [])
    ensures ok ==> MadeTo(ns.store, objects, |names|)
  {
    ns := new Namespace(names);
    FreshNodes(names);
    ok := MakeObjects(ns, names, objects);
    if ok {
      InstallAll(ns, names, objects, noOsi);
    }
  }

  lemma FreshNodes(names: seq<Name>)
    requires names != []
    ensures AllNamed(Predefined(names), names) && LooseFrom(Predefined(names), BareShape(), 2, |names|)
  {
  }

  /** The first loop: every node gets its reference count and object. */
  method MakeObjects(ns: Namespace, names: seq<Name>, objects: seq<Option<nat>>) returns (ok: bool)
    requires |objects| == |names| && ns.root == 1 && ns.shape == BareShape() && Flat(ns.store, ns.shape, [])
    requires AllNamed(ns.store, names) && LooseFrom(ns.store, ns.shape, 2, |names|)
    modifies ns`store
    ensures (ok <==> AllMade(objects)) && Flat(ns.store, ns.shape, []) && (ok ==> MadeTo(ns.store, objects, |names|))
    ensures AllNamed(ns.store, names) && LooseFrom(ns.store, ns.shape, 2, |names|)
  {
    for i := 0 to |names|
      invariant AllMade(objects[..i]) && Flat(ns.store, ns.shape, []) && MadeTo(ns.store, objects, i)
      invariant AllNamed(ns.store, names) && LooseFrom(ns.store, ns.shape, 2, |names|)
    {
      assert Named(ns.store, names, i + 1);
      Relabelled(ns.store, names, objects, i, 1, ns.store[i + 1].obj);
      ns.store := ns.store[i + 1 := ns.store[i + 1].(refs := 1)];
      if objects[i].None? {
        return false;
      }
      Relabelled(ns.store, names, objects, i, 1, objects[i]);
      ns.store := ns.store[i + 1 := ns.store[i + 1].(obj := objects[i])];
    }
    return true;
  }

  /** References and objects are no part of the links. */
  lemma Relabelled(store: Store, names: seq<Name>, objects: seq<Option<nat>>, i: nat, refs: nat, obj: Option<nat>)
    requires i < |names| == |objects| && Flat(store, BareShape(), []) && MadeTo(store, objects, i)
    requires AllNamed(store, names) && LooseFrom(store, BareShape(), 2, |names|) && i + 1 in store
    ensures var store' := store[i + 1 := store[i + 1].(refs := refs, obj := obj)];
            && Flat(store', BareShape(), []) && AllNamed(store', names) && LooseFrom(store', BareShape(), 2, |names|)
            && MadeTo(store', objects, i) && (refs == 1 && obj == objects[i] ==> MadeTo(store', objects, i + 1))
  {
    var g, store' := BareShape(), store[i + 1 := store[i + 1].(refs := refs, obj := obj)];
    assert NodeOk(store, g, 1, 1);
    assert NodeOk(store', g, 1, 1);
    forall p | 1 <= p <= |names|
      ensures Named(store', names, p) && (p >= 2 ==> Loose(store', g, p)) && (p <= i ==> Made(store', objects, p))
    {
      assert Named(store, names, p) && (p >= 2 ==> Loose(store, g, p)) && (p <= i ==> Made(store, objects, p));
    }
  }

  /** The second loop. */
  method InstallAll(ns: Namespace, names: seq<Name>, objects: seq<Option<nat>>, noOsi: bool)
    requires |objects| == |names| > 0 && ns.root == 1 && Flat(ns.store, ns.shape, [])
    requires AllNamed(ns.store, names) && MadeTo(ns.store, objects, |names|)
    requires LooseFrom(ns.store, ns.shape, 2, |names|)
    modifies ns
    ensures Flat(ns.store, ns.shape, Starters(|names| + 1, noOsi))
    ensures AllNamed(ns.store, names) && MadeTo(ns.store, objects, |names|)
  {
    var p: nat := 2;
    while p <= |names|
      invariant 2 <= p && (p <= |names| + 1 || p == 2) && Flat(ns.store, ns.shape, Starters(p, noOsi))
      invariant AllNamed(ns.store, names) && MadeTo(ns.store, objects, |names|)
      invariant LooseFrom(ns.store, ns.shape, p, |names|)
    {
      if p != OSI || !noOsi {
        InstallOne(ns, names, objects, Starters(p, noOsi), p);
      }
      p := p + 1;
    }
  }

  method InstallOne(ns: Namespace, names: seq<Name>, objects: seq<Option<nat>>, ghost kids: seq<Ptr>, p: Ptr)
    requires |objects| == |names| && 2 <= p <= |names| && ns.root == 1 && Flat(ns.store, ns.shape, kids)
    requires AllNamed(ns.store, names) && MadeTo(ns.store, objects, |names|)
    requires LooseFrom(ns.store, ns.shape, p, |names|)
    modifies ns
    ensures Flat(ns.store, ns.shape, kids + [p])
    ensures AllNamed(ns.store, names) && MadeTo(ns.store, objects, |names|)
    ensures LooseFrom(ns.store, ns.shape, p + 1, |names|)
  {
    assert Loose(ns.store, ns.shape, p);
    ghost var store, g := ns.store, ns.shape;
    var status := ns.Install(ns.root, p);
    InstallStep(store, g, names, objects, p);
  }

  lemma InstallStep(store: Store, g: Shape, names: seq<Name>, objects: seq<Option<nat>>, n: Ptr)
    requires |objects| == |names| && 2 <= n <= |names| && CanInstall(store, g, 1, 1, n) && Flat(store, g, g.kids[1])
    requires AllNamed(store, names) && MadeTo(store, objects, |names|) && LooseFrom(store, g, n, |names|)
    ensures var store', g' := Linked(store, g.kids[1], 1, n), WithKid(g, 1, n);
            && Flat(store', g', g.kids[1] + [n])
            && AllNamed(store', names) && MadeTo(store', objects, |names|) && LooseFrom(store', g', n + 1, |names|)
  {
    var store', g' := Linked(store, g.kids[1], 1, n), WithKid(g, 1, n);
    InstallKeepsTree(store, g, 1, 1, n);
    assert NodeOk(store, g, 1, 1) && (g.kids[1] != [] ==> KidOk(store, g, 1, 1, |g.kids[1]| - 1));
    forall p | 1 <= p <= |names|
      ensures Named(store', names, p) && Made(store', objects, p) && (p > n ==> Loose(store', g', p))
    {
      assert Named(store, names, p) && Made(store, objects, p) && (p >= n ==> Loose(store, g, p));
    }
  }
}
