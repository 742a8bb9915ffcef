/** `uacpi_namespace_node_generate_absolute_path` and what resolving its result gives. */
module AbsolutePath {
  import opened NamespaceTree
  import opened NameStrings
  import opened TextPaths
  import opened NameResolution

  /** The names from below the root down to p. */
  ghost function PathTo(store: Store, g: Shape, root: Ptr, p: Ptr): (r: seq<Name>)
    requires WellFormed(store, g, root) && p in g.kids && p in g.depth
    ensures |r| == g.depth[p]
    decreases g.depth[p]
  {
    ParentInstalled(store, g, root, p);
    if p == root then [] else PathTo(store, g, root, ParentOf(store, g, root, p)) + [store[p].name]
  }

  /** uacpi_namespace_node_depth: the number of parents. */
  method NodeDepth(ns: Namespace, p: Ptr) returns (depth: nat)
    requires ns.Valid() && p in ns.shape.kids && p in ns.shape.depth
    ensures depth == ns.shape.depth[p]
  {
    depth := 0;
    var node := p;
    ParentInstalled(ns.store, ns.shape, ns.root, node);
    while ns.store[node].parent != 0
      invariant node in ns.shape.kids && node in ns.shape.depth && node in ns.store
      invariant depth + ns.shape.depth[node] == ns.shape.depth[p]
      decreases ns.shape.depth[node]
    {
      ParentInstalled(ns.store, ns.shape, ns.root, node);
      depth := depth + 1;
      node := ns.store[node].parent;
      ParentInstalled(ns.store, ns.shape, ns.root, node);
    }
    ParentInstalled(ns.store, ns.shape, ns.root, node);
  }

  lemma {:induction false} DottedSnoc(segs: seq<Name>, name: Name)
    ensures Dotted(segs + [name]) == if segs == [] then name else Dotted(segs) + "." + name
  {
    if segs != [] {
      assert (segs + [name])[1..] == segs[1..] + [name];
      DottedSnoc(segs[1..], name);
    }
  }

  /** What has been written from `at` on when the loop stands at a node. */
  ghost predicate FilledFrom(buf: seq<char>, at: nat, whole: string) {
    at <= |whole| == |buf| && buf[at..] == whole[at..]
  }

  /** memcpy in front of what has been filled. */
  method Prepend(buf: array<char>, at: nat, piece: string, ghost whole: string)
    requires at + |piece| <= |whole| && FilledFrom(buf[..], at + |piece|, whole) && whole[at..at + |piece|] == piece
    modifies buf
    ensures FilledFrom(buf[..], at, whole) && buf[..at] == old(buf[..at])
  {
    for i := 0 to |piece|
      invariant buf[..at] == old(buf[..at])
      invariant forall k :: at <= k < at + i || at + |piece| <= k < |whole| ==> buf[k] == whole[k]
    {
      assert piece[i] == whole[at + i];
      buf[at + i] := piece[i];
    }
  }

  lemma Ends(whole: string, n: nat, front: string, piece: string)
    requires n <= |whole| && whole[..n] == front + piece
    ensures |piece| <= n && whole[n - |piece|..n] == piece && whole[..n - |piece|] == front
  {
  }

  /** The rooted path of p and its terminator, in a buffer of exactly the computed size. */
  method GenerateAbsolutePath(ns: Namespace, p: Ptr) returns (path: string)
    requires ns.Valid() && p in ns.shape.kids && p in ns.shape.depth
    ensures path == Print(NameString(0, true, PathTo(ns.store, ns.shape, ns.root, p))) + "\0"
  {
    var depth := NodeDepth(ns, p);
    depth := depth + 1;
    var bytesNeeded := 1 + (depth - 1) * 4;
    bytesNeeded := bytesNeeded + if depth > 2 then depth - 2 else 0;
    bytesNeeded := bytesNeeded + 1;
    var buf := new char[bytesNeeded];
    ghost var names := PathTo(ns.store, ns.shape, ns.root, p);
    assert Print(NameString(0, true, names)) == "\\" + Dotted(names);
    DottedLength(names);
    Write(ns, p, buf);
    path := buf[..];
  }

  /** The path of a node, without the terminator. */
  ghost function PathText(ns: Namespace, p: Ptr): string
    requires ns.Valid() && p in ns.shape.kids && p in ns.shape.depth
    reads ns
  {
    "\\" + Dotted(PathTo(ns.store, ns.shape, ns.root, p))
  }

  /** The writing, from the back. */
  method Write(ns: Namespace, p: Ptr, buf: array<char>)
    requires ns.Valid() && p in ns.shape.kids && p in ns.shape.depth && buf.Length == |PathText(ns, p)| + 1
    modifies buf
    ensures buf[..] == PathText(ns, p) + "\0"
  {
    ghost var whole := PathText(ns, p) + "\0";
    buf[0] := '\\';
    var offset: nat := buf.Length - 1;
    buf[offset] := '\0';
    var node := p;
    while node != ns.root
      invariant node in ns.shape.kids && node in ns.shape.depth && offset <= |whole| == buf.Length
      invariant whole[..offset] == PathText(ns, node)
      invariant FilledFrom(buf[..], offset, whole) && buf[0] == '\\'
      decreases ns.shape.depth[node]
    {
      node, offset := WriteName(ns, node, buf, offset, whole);
    }
    assert PathText(ns, ns.root) == "\\";
    assert offset == 1;
  }

  /** A name, and the dot before it. */
  method WriteName(ns: Namespace, node: Ptr, buf: array<char>, from: nat, ghost whole: string)
    returns (parent: Ptr, offset: nat)
    requires ns.Valid() && node in ns.shape.kids && node in ns.shape.depth && node != ns.root
    requires from <= |whole| == buf.Length && whole[..from] == PathText(ns, node)
    requires FilledFrom(buf[..], from, whole) && buf[0] == '\\'
    modifies buf
    ensures parent in ns.shape.kids && parent in ns.shape.depth && ns.shape.depth[parent] < ns.shape.depth[node]
    ensures offset <= |whole| && whole[..offset] == PathText(ns, parent)
    ensures FilledFrom(buf[..], offset, whole) && buf[0] == '\\'
  {
    ParentInstalled(ns.store, ns.shape, ns.root, node);
    LastName(ns, node);
    parent := ns.store[node].parent;
    ghost var front := PathText(ns, parent);
    Ends(whole, from, front + Dot(parent == ns.root), ns.store[node].name);
    offset := from - 4;
    Prepend(buf, offset, ns.store[node].name, whole);
    if parent != ns.root {
      Ends(whole, offset, front, ".");
      offset := offset - 1;
      Prepend(buf, offset, ".", whole);
    }
  }

  /** What stands between the path of a node and the name of a child: the root needs no dot. */
  function Dot(isRoot: bool): string { if isRoot then "" else "." }

  /** What the path of a node ends in. */
  lemma LastName(ns: Namespace, node: Ptr)
    requires ns.Valid() && node in ns.shape.kids && node in ns.shape.depth && node != ns.root
    ensures node in ns.store && ns.store[node].parent in ns.shape.kids && ns.store[node].parent in ns.shape.depth
    ensures PathText(ns, node)
         == PathText(ns, ns.store[node].parent) + Dot(ns.store[node].parent == ns.root) + ns.store[node].name
  {
    ParentInstalled(ns.store, ns.shape, ns.root, node);
    DottedSnoc(PathTo(ns.store, ns.shape, ns.root, ns.store[node].parent), ns.store[node].name);
  }

  // -------------------------------------------------------------------------------------- round trip

  /** p and every node above it are the first of their name among their peers. */
  ghost predicate FirstAllTheWay(store: Store, g: Shape, root: Ptr, p: Ptr)
    requires WellFormed(store, g, root) && p in g.kids && p in g.depth
    decreases g.depth[p]
  {
    ParentInstalled(store, g, root, p);
    p == root || (var q := ParentOf(store, g, root, p);
                  Kid(store, g, root, q, store[p].name) == p && FirstAllTheWay(store, g, root, q))
  }

  lemma {:induction false} DescendSnoc(store: Store, g: Shape, root: Ptr, p: Ptr, segs: seq<Name>, name: Name)
    requires WellFormed(store, g, root) && p in g.kids
    ensures var d := Descend(store, g, root, p, segs, false, false);
            Descend(store, g, root, p, segs + [name], false, false)
            == if !d.Found? then d
               else var k := Kid(store, g, root, d.node, name); if k == 0 then NotFound else Found(k)
    decreases |segs|
  {
    if segs != [] {
      assert (segs + [name])[1..] == segs[1..] + [name];
      var r := Seek(store, g, root, p, segs[0], false);
      if r != 0 {
        DescendSnoc(store, g, root, r, segs[1..], name);
      }
    } else {
      assert ([name])[1..] == [];
    }
  }

  lemma KidHasParent(store: Store, g: Shape, root: Ptr, q: Ptr, name: Name)
    requires WellFormed(store, g, root) && q in g.kids && Kid(store, g, root, q, name) != 0
    ensures Kid(store, g, root, q, name) in store && store[Kid(store, g, root, q, name)].parent == q
  {
    KidsStored(store, g, root, q);
    var k := Kid(store, g, root, q, name);
    var i :| 0 <= i < |g.kids[q]| && g.kids[q][i] == k;
    assert NodeOk(store, g, root, q) && KidOk(store, g, root, q, i);
  }

  lemma {:induction false} DescendsBack(store: Store, g: Shape, root: Ptr, p: Ptr)
    requires WellFormed(store, g, root) && p in g.kids && p in g.depth
    ensures Descend(store, g, root, root, PathTo(store, g, root, p), false, false) == Found(p)
            <==> FirstAllTheWay(store, g, root, p)
    decreases g.depth[p]
  {
    ParentInstalled(store, g, root, p);
    if p != root {
      var q := ParentOf(store, g, root, p);
      DescendsBack(store, g, root, q);
      DescendSnoc(store, g, root, root, PathTo(store, g, root, q), store[p].name);
      var d := Descend(store, g, root, root, PathTo(store, g, root, q), false, false);
      if d.Found? && Kid(store, g, root, d.node, store[p].name) == p {
        ParentInstalled(store, g, root, d.node);
        assert 0 !in store;
        KidHasParent(store, g, root, d.node, store[p].name);
      }
    }
  }

  /** The printed path of a node leads back to it, from any scope, exactly when every node on the way is the
      first of its name among its peers. */
  lemma AbsolutePathRoundTrip(store: Store, g: Shape, root: Ptr, p: Ptr, scope: Ptr)
    requires WellFormed(store, g, root) && p in g.kids && p in g.depth && scope in g.kids
    requires ValidSegs(PathTo(store, g, root, p))
    ensures var path := Print(NameString(0, true, PathTo(store, g, root, p))) + "\0";
            InText(store, g, root, scope, Read(CString(path)), true, false) == Found(p)
            <==> FirstAllTheWay(store, g, root, p)
  {
    var n := NameString(0, true, PathTo(store, g, root, p));
    PrintHasNoNul(n);
    ReadPrint(n);
    DescendsBack(store, g, root, p);
  }

  ghost predicate UniqueNames(store: Store, g: Shape) {
    forall p, i, j :: p in g.kids && 0 <= i < j < |g.kids[p]| && g.kids[p][i] in store && g.kids[p][j] in store ==>
      store[g.kids[p][i]].name != store[g.kids[p][j]].name
  }

  /** With unique names among peers every path leads back. */
  lemma {:induction false} UniqueNamesAreFirst(store: Store, g: Shape, root: Ptr, p: Ptr)
    requires WellFormed(store, g, root) && UniqueNames(store, g) && p in g.kids && p in g.depth
    ensures FirstAllTheWay(store, g, root, p)
    decreases g.depth[p]
  {
    ParentInstalled(store, g, root, p);
    if p != root {
      var q := ParentOf(store, g, root, p);
      UniqueNamesAreFirst(store, g, root, q);
      assert HasParent(store, g, p);
      KidsStored(store, g, root, q);
      var i :| 0 <= i < |g.kids[q]| && g.kids[q][i] == p;
      FirstNamedMeans(store, g.kids[q], store[p].name, i);
    }
  }

  /** Of two children of one name the second is never found by its path. */
  lemma SecondIsShadowed(store: Store, g: Shape, root: Ptr, p: Ptr, i: nat, j: nat, scope: Ptr)
    requires WellFormed(store, g, root) && p in g.kids && scope in g.kids && i < j < |g.kids[p]|
    requires g.kids[p][i] in store && g.kids[p][j] in store && store[g.kids[p][i]].name == store[g.kids[p][j]].name
    requires g.kids[p][j] in g.kids && g.kids[p][j] in g.depth && ValidSegs(PathTo(store, g, root, g.kids[p][j]))
    ensures var path := Print(NameString(0, true, PathTo(store, g, root, g.kids[p][j]))) + "\0";
            InText(store, g, root, scope, Read(CString(path)), true, false) != Found(g.kids[p][j])
  {
    var k := g.kids[p][j];
    assert NodeOk(store, g, root, p) && KidOk(store, g, root, p, j);
    KidsStored(store, g, root, p);
    FirstComesFirst(store, g.kids[p], store[k].name, i);
    AbsolutePathRoundTrip(store, g, root, k, scope);
  }

  /** The first node of a name is no later than any other of that name. */
  lemma {:induction false} FirstComesFirst(store: Store, s: seq<Ptr>, name: Name, i: nat)
    requires (forall j :: 0 <= j < |s| ==> s[j] in store && s[j] != 0) && i < |s| && store[s[i]].name == name
    ensures FirstNamed(store, s, name) in s[..i + 1]
  {
    if store[s[0]].name != name {
      assert forall j :: 0 <= j < |s[1..]| ==> s[1..][j] == s[j + 1];
      FirstComesFirst(store, s[1..], name, i - 1);
      assert s[..i + 1] == [s[0]] + s[1..][..i];
    } else {
      assert s[..i + 1][0] == s[0];
    }
  }

  /** A node installed below the root under a name that is taken: its path is that name, which the first node of it
      keeps. */
  lemma TakenName(store: Store, g: Shape, root: Ptr, n: Ptr, i: nat)
    requires CanInstall(store, g, root, root, n) && i < |g.kids[root]| && n != root
    requires forall k :: 0 <= k < |g.kids[root]| ==> g.kids[root][k] in store && g.kids[root][k] != n
    requires store[g.kids[root][i]].name == store[n].name
    requires forall k :: 0 <= k < i ==> store[g.kids[root][k]].name != store[n].name
    ensures var store', g' := Linked(store, g.kids[root], root, n), WithKid(g, root, n);
            && WellFormed(store', g', root) && n in g'.kids && n in g'.depth
            && PathTo(store', g', root, n) == [store[n].name]
            && Kid(store', g', root, root, store[n].name) == g.kids[root][i]
  {
    var store', g' := Linked(store, g.kids[root], root, n), WithKid(g, root, n);
    InstallKeepsTree(store, g, root, root, n);
    ParentInstalled(store', g', root, n);
    assert PathTo(store', g', root, root) == [];
    assert store'[n].parent == root && store'[n].name == store[n].name;
    KidsStored(store', g', root, root);
    var kids := g'.kids[root];
    assert forall k :: 0 <= k < |g.kids[root]| ==>
        kids[k] == g.kids[root][k] && store'[kids[k]].name == store[kids[k]].name;
    FirstNamedMeans(store', kids, store[n].name, i);
  }
}
