/** The namespace as it stands behind its initialisation, and names on which promises about it fail. */
module NamespaceExamples {
  import opened Options
  import opened NamespaceTree
  import opened NamespaceStart
  import opened NameStrings
  import opened TextPaths
  import opened NameResolution
  import opened Resolvers
  import opened AbsolutePath

  const GPE: Ptr := 2
  const SB: Ptr := 4

  /** The store and tree that the initialisation leaves, for n nodes. */
  ghost predicate Initialised(store: Store, g: Shape, n: nat, noOsi: bool) {
    n == |NAMES| && Flat(store, g, Starters(n + 1, noOsi)) && AllNamed(store, NAMES)
  }

  lemma {:induction false} FirstStarters(p: nat, noOsi: bool)
    requires p > 4
    ensures var r := Starters(p, noOsi); |r| >= 3 && r[0] == GPE && r[1] == 3 && r[2] == SB
  {
    if p > 5 {
      FirstStarters(p - 1, noOsi);
    } else {
      assert Starters(2, noOsi) == [] && Starters(3, noOsi) == [2] && Starters(4, noOsi) == [2, 3];
    }
  }

  lemma KidOfRoot(store: Store, g: Shape, kids: seq<Ptr>, i: nat)
    requires Flat(store, g, kids) && i < |kids| && kids[i] != 1
    ensures kids[i] in g.kids && kids[i] in g.depth && kids[i] in store && g.kids[kids[i]] == []
    ensures store[kids[i]].parent == 1
  {
    assert NodeOk(store, g, 1, 1) && KidOk(store, g, 1, 1, i);
  }

  /** _GPE is the first child of the root, _SB_ a leaf. */
  lemma StartingPoint(store: Store, g: Shape, n: nat, noOsi: bool)
    requires Initialised(store, g, n, noOsi)
    ensures SB in g.kids && SB in g.depth && g.kids[SB] == [] && SB in store && store[SB].parent == 1
    ensures 1 in g.kids && g.kids[1] != [] && g.kids[1][0] == GPE
    ensures GPE in store && store[GPE].name == "_GPE" && store[SB].name == "_SB_" && SB in g.kids[1]
  {
    var kids := Starters(n + 1, noOsi);
    FirstStarters(n + 1, noOsi);
    KidOfRoot(store, g, kids, 2);
    assert Named(store, NAMES, GPE) && Named(store, NAMES, SB);
  }

  /** On every initialised namespace: an empty name means nothing to the AML resolver and the scope to the text
      resolver; and from _SB_ the one-segment multi name _GPE is found by the text resolver only. */
  lemma ResolversPart(store: Store, g: Shape, n: nat, noOsi: bool)
    requires Initialised(store, g, n, noOsi)
    ensures SB in g.kids
    ensures InAml(store, g, 1, SB, NameString(0, false, []), NullName) == Invalid
    ensures InText(store, g, 1, SB, NameString(0, false, []), true, false) == Found(SB)
    ensures InAml(store, g, 1, SB, NameString(0, false, ["_GPE"]), MultiName) == NotFound
    ensures InText(store, g, 1, SB, NameString(0, false, ["_GPE"]), true, false) == Found(GPE)
  {
    StartingPoint(store, g, n, noOsi);
    KidsStored(store, g, 1, 1);
    FirstNamedMeans(store, g.kids[1], "_GPE", 0);
    ParentInstalled(store, g, 1, SB);
    assert Kid(store, g, 1, SB, "_GPE") == 0;
    assert Above(store, g, 1, SB, "_GPE") == GPE;
    OneSeg(store, g, 1, SB, "_GPE", true);
    assert ValidSeg("_GPE");
  }

  /** A single segment that is not below the root, looked for above a null parent: the null pointer is followed. */
  method LooksAboveNull(objects: seq<Option<nat>>, noOsi: bool) returns (strayed: bool)
    requires |objects| == |NAMES|
    ensures strayed
  {
    var ns, ok := Initialize(objects, noOsi);
    OneSegment("ABCD");
    NoneNamed(ns.store, ns.shape, "ABCD");
    var out;
    out, strayed := ResolveText(ns, 0, "ABCD", true, false);
  }

  lemma OneSegment(name: Name)
    requires ValidSeg(name)
    ensures Read(name) == NameString(0, false, [name])
  {
    var n := NameString(0, false, [name]);
    ReadPrint(n);
    assert Print(n) == name;
  }

  lemma NoneNamed(store: Store, g: Shape, name: Name)
    requires WellFormed(store, g, 1) && AllNamed(store, NAMES) && name !in NAMES
    requires forall i :: 0 <= i < |g.kids[1]| ==> 1 <= g.kids[1][i] <= |NAMES|
    ensures Kid(store, g, 1, 1, name) == 0
  {
    var kids := g.kids[1];
    KidsStored(store, g, 1, 1);
    forall i | 0 <= i < |kids|
      ensures store[kids[i]].name != name
    {
      assert Named(store, NAMES, kids[i]);
    }
    FirstNamedMeans(store, kids, name, 0);
  }

  /** A second node named _SB_, at any address, is installed below the root. */
  method InstallAnother(ns: Namespace, noOsi: bool, n: Ptr)
    requires ns.Valid() && ns.root == 1 && Initialised(ns.store, ns.shape, |NAMES|, noOsi)
    requires n != 0 && n !in ns.store && n !in ns.shape.kids
    modifies ns
    ensures ns.Valid() && n in ns.shape.kids && n in ns.shape.depth && 1 in ns.shape.kids
    ensures PathTo(ns.store, ns.shape, 1, n) == ["_SB_"] && Kid(ns.store, ns.shape, 1, 1, "_SB_") == SB
  {
    ghost var before := ns.store;
    FreshAddress(before, n);
    ns.Alloc("_SB_", n);
    ghost var store, g := ns.store, ns.shape;
    FirstThree(store, g, |NAMES|, noOsi, n);
    var status := ns.Install(0, n);
    TakenName(store, g, 1, n, 2);
  }

  /** A new address is none of the predefined nodes. */
  lemma FreshAddress(store: Store, n: Ptr)
    requires AllNamed(store, NAMES) && n != 0 && n !in store
    ensures n > |NAMES|
    ensures var store' := store[n := NewNode("_SB_")];
            forall p :: 1 <= p <= |NAMES| ==> p in store' && store'[p].name == NAMES[p - 1]
  {
    forall p | 1 <= p <= |NAMES|
      ensures p in store && store[p].name == NAMES[p - 1]
    {
      assert Named(store, NAMES, p);
    }
  }

  lemma FirstThree(store: Store, g: Shape, count: nat, noOsi: bool, n: Ptr)
    requires count == |NAMES| && WellFormed(store, g, 1) && g.kids[1] == Starters(count + 1, noOsi)
    requires forall p :: 1 <= p <= |NAMES| ==> p in store && store[p].name == NAMES[p - 1]
    requires n > |NAMES|
    ensures var kids := g.kids[1];
            && |kids| >= 3 && kids[2] == SB && store[SB].name == "_SB_"
            && (forall k :: 0 <= k < |kids| ==> kids[k] in store && kids[k] != n)
            && forall k :: 0 <= k < 2 ==> store[kids[k]].name != "_SB_"
  {
    FirstStarters(count + 1, noOsi);
  }

  /** Its path leads to the first one. */
  method PathOfAnother(ns: Namespace, noOsi: bool, n: Ptr) returns (path: string, out: Outcome)
    requires ns.Valid() && ns.root == 1 && Initialised(ns.store, ns.shape, |NAMES|, noOsi)
    requires n != 0 && n !in ns.store && n !in ns.shape.kids
    modifies ns
    ensures path == "\\_SB_\0" && n != SB && out == Found(SB)
  {
    FreshAddress(ns.store, n);
    InstallAnother(ns, noOsi, n);
    path, out := PrintAndResolve(ns, n, "_SB_");
  }

  /** The path of a node below the root, and what it leads to. */
  method PrintAndResolve(ns: Namespace, n: Ptr, ghost name: Name) returns (path: string, out: Outcome)
    requires ns.Valid() && ns.root == 1 && n in ns.shape.kids && n in ns.shape.depth && 1 in ns.shape.kids
    requires PathTo(ns.store, ns.shape, 1, n) == [name] && ValidSeg(name) && Kid(ns.store, ns.shape, 1, 1, name) != 0
    ensures path == "\\" + name + "\0" && out == Found(Kid(ns.store, ns.shape, 1, 1, name))
  {
    path := GenerateAbsolutePath(ns, n);
    RootedPath(name);
    var strayed;
    out, strayed := ResolveText(ns, 0, CString(path), true, false);
    RootedMeans(ns.store, ns.shape, name);
  }

  lemma RootedPath(name: Name)
    requires ValidSeg(name)
    ensures Print(NameString(0, true, [name])) == "\\" + name
    ensures Read(CString("\\" + name + "\0")) == NameString(0, true, [name])
  {
    var n := NameString(0, true, [name]);
    assert Print(n) == "\\" + name;
    PrintHasNoNul(n);
    ReadPrint(n);
  }

  lemma RootedMeans(store: Store, g: Shape, name: Name)
    requires WellFormed(store, g, 1) && Kid(store, g, 1, 1, name) != 0
    ensures InText(store, g, 1, 1, NameString(0, true, [name]), true, false) == Found(Kid(store, g, 1, 1, name))
  {
    OneSeg(store, g, 1, 1, name, false);
  }
}
