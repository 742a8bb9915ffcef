/** The ACPI namespace of `namespace.c`: a first-child/next-sibling tree with parent links, held in a
    store of nodes that are addressed by pointers. */
module NamespaceTree {
  import opened Options
  import opened Sequences

  /** Pointers to nodes; 0 is the null pointer. */
  type Ptr = nat
  type Name = s: string | |s| == 4 witness "____"

  const BUGGED_REFCOUNT: nat := 0xFFFF_FFFF

  /** obj is the type of the attached object, if there is one. */
  datatype Node = Node(
    name: Name, parent: Ptr, child: Ptr, next: Ptr, obj: Option<nat>, refs: nat,
    dangling: bool, temporary: bool, predefined: bool)

  type Store = map<Ptr, Node>

  datatype Status = Ok | Dangling | Denied | InternalError

  /** The tree that the links are meant to spell out: the children of every installed node, in order,
      and its distance from the root. */
  datatype Shape = Shape(kids: map<Ptr, seq<Ptr>>, depth: map<Ptr, nat>)

  function Head(s: seq<Ptr>): Ptr { if s == [] then 0 else s[0] }

  /** The element after position i, or null. */
  function After(s: seq<Ptr>, i: nat): Ptr { if i + 1 < |s| then s[i + 1] else 0 }

  /** k, the i-th child of p, is an installed node one level below p and linked to p and its peer. */
  ghost predicate KidOk(store: Store, g: Shape, root: Ptr, p: Ptr, i: nat)
    requires p in g.kids && p in g.depth && i < |g.kids[p]|
  {
    var k := g.kids[p][i];
    && k in g.kids && k in g.depth && k in store && k != root
    && store[k].parent == p && store[k].next == After(g.kids[p], i) && g.depth[k] == g.depth[p] + 1
  }

  /** The links of p and of its children spell out g. */
  ghost predicate NodeOk(store: Store, g: Shape, root: Ptr, p: Ptr)
    requires p in g.kids && p in g.depth
  {
    && p in store && !store[p].dangling
    && store[p].child == Head(g.kids[p])
    && Distinct(g.kids[p])
    && forall i {:trigger KidOk(store, g, root, p, i)} :: 0 <= i < |g.kids[p]| ==> KidOk(store, g, root, p, i)
  }

  /** k is a child of the node that its parent link names. */
  ghost predicate HasParent(store: Store, g: Shape, k: Ptr) {
    k in store && store[k].parent in g.kids && k in g.kids[store[k].parent]
  }

  /** The links spell out a tree at the root, and every installed node is in it. */
  ghost predicate WellFormed(store: Store, g: Shape, root: Ptr) {
    && g.kids.Keys == g.depth.Keys && 0 !in store
    && root in g.kids && root in store && g.depth[root] == 0
    && store[root].parent == 0 && store[root].next == 0
    && (forall p {:trigger NodeOk(store, g, root, p)} :: p in g.kids ==> NodeOk(store, g, root, p))
    && (forall k {:trigger HasParent(store, g, k)} :: k in g.kids && k != root ==> HasParent(store, g, k))
  }

  /** The node n parent links above k. */
  function Up(store: Store, k: Ptr, n: nat): Ptr
    decreases n
  {
    if n == 0 || k !in store then k else Up(store, store[k].parent, n - 1)
  }

  /** n becomes the last child of p. */
  function WithKid(g: Shape, p: Ptr, n: Ptr): Shape
    requires p in g.kids && p in g.depth
  {
    Shape(g.kids[p := g.kids[p] + [n]][n := []], g.depth[n := g.depth[p] + 1])
  }

  lemma WithoutFacts(s: seq<Ptr>, i: nat)
    requires i < |s|
    ensures Distinct(s) ==> Distinct(Without(s, i))
    ensures Head(Without(s, i)) == if i == 0 then After(s, 0) else s[0]
    ensures forall j :: 0 <= j < |s| - 1 ==>
              && Without(s, i)[j] == s[if j < i then j else j + 1]
              && After(Without(s, i), j) == if j + 1 == i then After(s, i) else After(s, if j < i then j else j + 1)
    ensures forall k :: k in s && k != s[i] ==> k in Without(s, i)
  {
  }

  /** The i-th child of p, a leaf, is gone. */
  function WithoutKid(g: Shape, p: Ptr, i: nat): Shape
    requires p in g.kids && i < |g.kids[p]|
  {
    var n := g.kids[p][i];
    Shape((g.kids - {n})[p := Without(g.kids[p], i)], g.depth - {n})
  }

  /** The first of the nodes with the given name, or null. */
  function FirstNamed(store: Store, s: seq<Ptr>, name: Name): (r: Ptr)
    requires forall i :: 0 <= i < |s| ==> s[i] in store
    ensures r != 0 ==> r in s && r in store && store[r].name == name
  {
    if s == [] then 0
    else if store[s[0]].name == name then s[0]
    else FirstNamed(store, s[1..], name)
  }

  /** Null exactly when no node has the name; otherwise no node before it has. */
  lemma {:induction false} FirstNamedMeans(store: Store, s: seq<Ptr>, name: Name, i: nat)
    requires (forall j :: 0 <= j < |s| ==> s[j] in store && s[j] != 0) && i <= |s|
    ensures (forall j :: 0 <= j < i ==> store[s[j]].name != name) && i < |s| && store[s[i]].name == name
            ==> FirstNamed(store, s, name) == s[i]
    ensures (forall j :: 0 <= j < |s| ==> store[s[j]].name != name) <==> FirstNamed(store, s, name) == 0
    decreases |s|
  {
    if s != [] {
      assert forall j :: 0 <= j < |s[1..]| ==> s[1..][j] == s[j + 1];
      FirstNamedMeans(store, s[1..], name, if i == 0 then 0 else i - 1);
      assert forall j :: 0 < j < |s| ==> s[j] == s[1..][j - 1];
    }
  }

  /** The store after the new node's links are set. */
  function Linked(store: Store, kids: seq<Ptr>, p: Ptr, n: Ptr): Store
    requires p in store && n in store && (kids != [] ==> kids[|kids| - 1] in store)
  {
    if kids == [] then store[p := store[p].(child := n)][n := store[n].(parent := p)]
    else
      var prev := kids[|kids| - 1];
      store[prev := store[prev].(next := n)][n := store[n].(parent := p)]
  }

  /** What installing n below p starts from. */
  ghost predicate CanInstall(store: Store, g: Shape, root: Ptr, p: Ptr, n: Ptr) {
    && WellFormed(store, g, root) && p in g.kids && n in store && n !in g.kids
    && !store[n].dangling && store[n].child == 0 && store[n].next == 0
    && p in store && (g.kids[p] != [] ==> g.kids[p][|g.kids[p]| - 1] in store)
  }

  lemma InstallAtParent(store: Store, g: Shape, root: Ptr, p: Ptr, n: Ptr)
    requires CanInstall(store, g, root, p, n)
    ensures NodeOk(Linked(store, g.kids[p], p, n), WithKid(g, p, n), root, p)
  {
    var g' := WithKid(g, p, n);
    var store' := Linked(store, g.kids[p], p, n);
    assert NodeOk(store, g, root, p);
    forall i | 0 <= i < |g'.kids[p]|
      ensures KidOk(store', g', root, p, i) && (i < |g.kids[p]| ==> g.kids[p][i] != n)
    {
      if i < |g.kids[p]| {
        assert KidOk(store, g, root, p, i);
      }
    }
  }

  lemma InstallElsewhere(store: Store, g: Shape, root: Ptr, p: Ptr, n: Ptr, q: Ptr)
    requires CanInstall(store, g, root, p, n) && q in g.kids && q != p
    ensures NodeOk(Linked(store, g.kids[p], p, n), WithKid(g, p, n), root, q)
  {
    var g' := WithKid(g, p, n);
    var store' := Linked(store, g.kids[p], p, n);
    assert NodeOk(store, g, root, q);
    if g.kids[p] != [] {
      assert NodeOk(store, g, root, p) && KidOk(store, g, root, p, |g.kids[p]| - 1);
    }
    forall i | 0 <= i < |g'.kids[q]|
      ensures KidOk(store', g', root, q, i)
    {
      assert KidOk(store, g, root, q, i);
    }
  }

  lemma InstallParents(store: Store, g: Shape, root: Ptr, p: Ptr, n: Ptr, k: Ptr)
    requires CanInstall(store, g, root, p, n) && (k in g.kids || k == n) && k != root
    ensures HasParent(Linked(store, g.kids[p], p, n), WithKid(g, p, n), k)
  {
    if k != n {
      assert HasParent(store, g, k);
    }
  }

  /** Installing a fresh node keeps the links a well-formed tree. */
  lemma InstallKeepsTree(store: Store, g: Shape, root: Ptr, p: Ptr, n: Ptr)
    requires CanInstall(store, g, root, p, n)
    ensures WellFormed(Linked(store, g.kids[p], p, n), WithKid(g, p, n), root)
  {
    var g' := WithKid(g, p, n);
    var store' := Linked(store, g.kids[p], p, n);
    assert NodeOk(store, g, root, p) && (g.kids[p] != [] ==> KidOk(store, g, root, p, |g.kids[p]| - 1));
    forall q | q in g'.kids
      ensures NodeOk(store', g', root, q)
    {
      if q == p {
        InstallAtParent(store, g, root, p, n);
      } else if q != n {
        InstallElsewhere(store, g, root, p, n, q);
      }
    }
    forall k | k in g'.kids && k != root
      ensures HasParent(store', g', k)
    {
      InstallParents(store, g, root, p, n, k);
    }
  }

  /** The store after the i-th child of p is unlinked, before its reference is dropped. */
  function Unlinked(store: Store, kids: seq<Ptr>, p: Ptr, i: nat): Store
    requires i < |kids| && p in store && kids[i] in store && (i > 0 ==> kids[i - 1] in store)
  {
    var n := kids[i];
    var bare := store[n := store[n].(obj := None, dangling := true)];
    if i == 0 then bare[p := bare[p].(child := store[n].next)]
    else bare[kids[i - 1] := bare[kids[i - 1]].(next := store[n].next)]
  }

  ghost predicate CanUninstall(store: Store, g: Shape, root: Ptr, p: Ptr, i: nat) {
    && WellFormed(store, g, root) && p in g.kids && i < |g.kids[p]| && p in store
    && g.kids[p][i] in store && g.kids[p][i] in g.kids && g.kids[g.kids[p][i]] == []
    && (i > 0 ==> g.kids[p][i - 1] in store)
  }

  lemma UninstallKid(store: Store, g: Shape, root: Ptr, p: Ptr, i: nat, j: nat)
    requires CanUninstall(store, g, root, p, i) && j < |g.kids[p]| - 1
    ensures p in WithoutKid(g, p, i).kids && p in WithoutKid(g, p, i).depth
    ensures KidOk(Unlinked(store, g.kids[p], p, i), WithoutKid(g, p, i), root, p, j)
  {
    WithoutFacts(g.kids[p], i);
    assert NodeOk(store, g, root, p);
    assert KidOk(store, g, root, p, i) && KidOk(store, g, root, p, if j < i then j else j + 1);
  }

  lemma UninstallAtParent(store: Store, g: Shape, root: Ptr, p: Ptr, i: nat)
    requires CanUninstall(store, g, root, p, i)
    ensures NodeOk(Unlinked(store, g.kids[p], p, i), WithoutKid(g, p, i), root, p)
  {
    var g' := WithoutKid(g, p, i);
    var store' := Unlinked(store, g.kids[p], p, i);
    WithoutFacts(g.kids[p], i);
    assert NodeOk(store, g, root, p) && KidOk(store, g, root, p, i);
    assert i > 0 ==> KidOk(store, g, root, p, i - 1);
    forall j | 0 <= j < |g'.kids[p]|
      ensures KidOk(store', g', root, p, j)
    {
      UninstallKid(store, g, root, p, i, j);
    }
  }

  lemma UninstallElsewhere(store: Store, g: Shape, root: Ptr, p: Ptr, i: nat, q: Ptr)
    requires CanUninstall(store, g, root, p, i) && q in g.kids && q != p && q != g.kids[p][i]
    ensures NodeOk(Unlinked(store, g.kids[p], p, i), WithoutKid(g, p, i), root, q)
  {
    var g' := WithoutKid(g, p, i);
    var store' := Unlinked(store, g.kids[p], p, i);
    assert NodeOk(store, g, root, q) && NodeOk(store, g, root, p);
    assert KidOk(store, g, root, p, i) && (i > 0 ==> KidOk(store, g, root, p, i - 1));
    forall j | 0 <= j < |g'.kids[q]|
      ensures KidOk(store', g', root, q, j)
    {
      assert KidOk(store, g, root, q, j);
    }
  }

  lemma UninstallParents(store: Store, g: Shape, root: Ptr, p: Ptr, i: nat, k: Ptr)
    requires CanUninstall(store, g, root, p, i) && k in g.kids && k != root && k != g.kids[p][i]
    ensures HasParent(Unlinked(store, g.kids[p], p, i), WithoutKid(g, p, i), k)
  {
    assert HasParent(store, g, k);
    assert NodeOk(store, g, root, p) && KidOk(store, g, root, p, i);
    WithoutFacts(g.kids[p], i);
  }

  /** Unlinking a leaf keeps the links a well-formed tree. */
  lemma UninstallKeepsTree(store: Store, g: Shape, root: Ptr, p: Ptr, i: nat)
    requires CanUninstall(store, g, root, p, i)
    ensures WellFormed(Unlinked(store, g.kids[p], p, i), WithoutKid(g, p, i), root)
  {
    var g' := WithoutKid(g, p, i);
    var store' := Unlinked(store, g.kids[p], p, i);
    assert NodeOk(store, g, root, p) && KidOk(store, g, root, p, i) && (i > 0 ==> KidOk(store, g, root, p, i - 1));
    forall q | q in g'.kids
      ensures NodeOk(store', g', root, q)
    {
      if q == p {
        UninstallAtParent(store, g, root, p, i);
      } else {
        UninstallElsewhere(store, g, root, p, i, q);
      }
    }
    forall k | k in g'.kids && k != root
      ensures HasParent(store', g', k)
    {
      UninstallParents(store, g, root, p, i, k);
    }
  }

  /** free_namespace_node when the last reference goes; a predefined node is reset instead. */
  function Unreferenced(store: Store, n: Ptr): Store
    requires n in store
  {
    var node := store[n];
    if node.refs == 0 || node.refs == BUGGED_REFCOUNT then store[n := node.(refs := BUGGED_REFCOUNT)]
    else if node.refs > 1 then store[n := node.(refs := node.refs - 1)]
    else if node.predefined then store[n := Node(node.name, 0, 0, 0, None, 0, false, false, true)]
    else store - {n}
  }

  /** Nothing outside the installed tree matters to it. */
  lemma UnreferenceKeepsTree(store: Store, g: Shape, root: Ptr, n: Ptr)
    requires WellFormed(store, g, root) && n in store && n !in g.kids
    ensures WellFormed(Unreferenced(store, n), g, root)
  {
    var store' := Unreferenced(store, n);
    forall q | q in g.kids
      ensures NodeOk(store', g, root, q)
    {
      assert NodeOk(store, g, root, q);
      forall i | 0 <= i < |g.kids[q]|
        ensures KidOk(store', g, root, q, i)
      {
        assert KidOk(store, g, root, q, i);
      }
    }
    forall k | k in g.kids && k != root
      ensures HasParent(store', g, k)
    {
      assert HasParent(store, g, k);
    }
  }

  /** Detaching an object does not touch the links. */
  lemma DetachKeepsTree(store: Store, g: Shape, root: Ptr, n: Ptr)
    requires WellFormed(store, g, root) && n in store
    ensures WellFormed(store[n := store[n].(obj := None)], g, root)
  {
    var store' := store[n := store[n].(obj := None)];
    forall q | q in g.kids
      ensures NodeOk(store', g, root, q)
    {
      assert NodeOk(store, g, root, q);
      forall i | 0 <= i < |g.kids[q]|
        ensures KidOk(store', g, root, q, i)
      {
        assert KidOk(store, g, root, q, i);
      }
    }
    forall k | k in g.kids && k != root
      ensures HasParent(store', g, k)
    {
      assert HasParent(store, g, k);
    }
  }

  /** A node is linked below its parent exactly when it is an installed node other than the root. */
  lemma LinkedIffInstalled(store: Store, g: Shape, root: Ptr, n: Ptr)
    requires WellFormed(store, g, root) && n in store && (store[n].parent == 0 || store[n].parent in g.kids)
    ensures n in g.kids && n != root <==> store[n].parent != 0 && n in g.kids[store[n].parent]
  {
    if store[n].parent != 0 && n in g.kids[store[n].parent] {
      var p := store[n].parent;
      var i :| 0 <= i < |g.kids[p]| && g.kids[p][i] == n;
      assert NodeOk(store, g, root, p) && KidOk(store, g, root, p, i);
    }
    if n in g.kids && n != root {
      assert HasParent(store, g, n);
      assert NodeOk(store, g, root, store[n].parent);
    }
  }

  /** The outcome of a successful uninstall of n. */
  ghost predicate Removed(store: Store, g: Shape, root: Ptr, n: Ptr, store': Store, g': Shape) {
    exists p: Ptr, i: nat :: CanUninstall(store, g, root, p, i) && g.kids[p][i] == n
                && g' == WithoutKid(g, p, i) && store' == Unreferenced(Unlinked(store, g.kids[p], p, i), n)
  }

  lemma RemovedKeepsTree(store: Store, g: Shape, root: Ptr, p: Ptr, i: nat)
    requires WellFormed(store, g, root) && p in g.kids && i < |g.kids[p]|
    requires g.kids[p][i] in store && store[g.kids[p][i]].child == 0
    ensures CanUninstall(store, g, root, p, i)
    ensures WellFormed(Unreferenced(Unlinked(store, g.kids[p], p, i), g.kids[p][i]), WithoutKid(g, p, i), root)
    ensures p != g.kids[p][i] && (i > 0 ==> g.kids[p][i - 1] != g.kids[p][i])
  {
    var n := g.kids[p][i];
    assert NodeOk(store, g, root, p) && KidOk(store, g, root, p, i) && (i > 0 ==> KidOk(store, g, root, p, i - 1));
    assert NodeOk(store, g, root, n) && (g.kids[n] != [] ==> KidOk(store, g, root, n, 0));
    UninstallKeepsTree(store, g, root, p, i);
    UnreferenceKeepsTree(Unlinked(store, g.kids[p], p, i), WithoutKid(g, p, i), root, n);
  }

  /** The field updates of an uninstall, in the order they are made. */
  function UnlinkSteps(store: Store, p: Ptr, n: Ptr, prev: Ptr): Store
    requires n in store && p in store && prev in store
  {
    var s1 := store[n := store[n].(obj := None)];
    var s2 := if prev == n then s1[p := s1[p].(child := s1[n].next)] else s1[prev := s1[prev].(next := s1[n].next)];
    s2[n := s2[n].(dangling := true)]
  }

  lemma UnlinkStepsUnlink(store: Store, kids: seq<Ptr>, p: Ptr, i: nat)
    requires i < |kids| && p in store && kids[i] in store && (i > 0 ==> kids[i - 1] in store)
    requires p != kids[i] && (i > 0 ==> kids[i - 1] != kids[i])
    ensures UnlinkSteps(store, p, kids[i], if i == 0 then kids[i] else kids[i - 1]) == Unlinked(store, kids, p, i)
  {
  }

  /** A node of the array of predefined ones before anything is done with it. */
  function FreshNode(names: seq<Name>, p: Ptr): Node
    requires 1 <= p <= |names|
  {
    Node(names[p - 1], 0, 0, 0, None, 0, false, false, true)
  }

  function Predefined(names: seq<Name>): Store { map p: Ptr | 1 <= p <= |names| :: FreshNode(names, p) }

  ghost function BareShape(): Shape { Shape(map[1 := []], map[1 := 0]) }

  function NewNode(name: Name): Node { Node(name, 0, 0, 0, None, 1, false, false, false) }

  /** A node that is not installed does not matter to the tree. */
  lemma AllocKeepsTree(store: Store, g: Shape, root: Ptr, n: Ptr, node: Node)
    requires WellFormed(store, g, root) && n !in store && n !in g.kids && n != 0
    ensures WellFormed(store[n := node], g, root)
  {
    var store' := store[n := node];
    forall p | p in g.kids
      ensures NodeOk(store', g, root, p)
    {
      assert NodeOk(store, g, root, p);
      forall i | 0 <= i < |g.kids[p]|
        ensures KidOk(store', g, root, p, i)
      {
        assert KidOk(store, g, root, p, i);
      }
    }
    forall k | k in g.kids && k != root
      ensures HasParent(store', g, k)
    {
      assert HasParent(store, g, k);
    }
  }

  class Namespace {
    const root: Ptr
    var store: Store
    ghost var shape: Shape

    ghost predicate Valid()
      reads this
    {
      WellFormed(store, shape, root)
    }

    /** The array of predefined nodes, the root first, with nothing installed. */
    constructor (names: seq<Name>)
      requires names != []
      ensures Valid() && root == 1 && store == Predefined(names) && shape == BareShape()
    {
      root, store, shape := 1, Predefined(names), BareShape();
      new;
      assert NodeOk(store, shape, root, 1);
    }

    /** uacpi_namespace_node_alloc, with the address that the host's allocator gives, or null. */
    method Alloc(name: Name, n: Ptr)
      requires Valid() && n !in store && n !in shape.kids
      modifies `store
      ensures Valid() && store == if n == 0 then old(store) else old(store)[n := NewNode(name)]
    {
      if n != 0 {
        AllocKeepsTree(store, shape, root, n, NewNode(name));
        store := store[n := NewNode(name)];
      }
    }

    /** uacpi_namespace_node_install: append a fresh node to the children of its parent. */
    method Install(parentOrNull: Ptr, n: Ptr) returns (status: Status)
      requires Valid() && (parentOrNull == 0 || parentOrNull in shape.kids) && n in store
      requires !store[n].dangling ==> n !in shape.kids && store[n].child == 0 && store[n].next == 0
      modifies this
      ensures Valid()
      ensures status == if old(store[n].dangling) then Dangling else Ok
      ensures status == Dangling ==> store == old(store) && shape == old(shape)
      ensures status == Ok ==>
                var p := if parentOrNull == 0 then root else parentOrNull;
                && old(CanInstall(store, shape, root, p, n))
                && shape == WithKid(old(shape), p, n) && store == Linked(old(store), old(shape).kids[p], p, n)
    {
      var p := if parentOrNull == 0 then root else parentOrNull;
      if store[n].dangling {
        return Dangling;
      }
      ghost var kids := shape.kids[p];
      assert NodeOk(store, shape, root, p);
      assert kids != [] ==> KidOk(store, shape, root, p, |kids| - 1);
      InstallKeepsTree(store, shape, root, p, n);
      if store[p].child == 0 {
        assert kids != [] ==> KidOk(store, shape, root, p, 0);
        store := store[p := store[p].(child := n)];
      } else {
        var prev := store[p].child;
        ghost var i := 0;
        assert KidOk(store, shape, root, p, 0);
        while store[prev].next != 0
          invariant 0 <= i < |kids| && prev == kids[i] && prev in store && KidOk(store, shape, root, p, i)
          invariant store == old(store) && shape == old(shape)
          decreases |kids| - i
        {
          assert i + 1 < |kids| && KidOk(store, shape, root, p, i + 1);
          prev := store[prev].next;
          i := i + 1;
        }
        assert i + 1 < |kids| ==> KidOk(store, shape, root, p, i + 1);
        store := store[prev := store[prev].(next := n)];
      }
      store := store[n := store[n].(parent := p)];
      shape := WithKid(shape, p, n);
      return Ok;
    }

    /** uacpi_namespace_node_find_sub_node: the first child with the name, or null. */
    method FindSubNode(p: Ptr, name: Name) returns (r: Ptr)
      requires Valid() && p in shape.kids && forall i :: 0 <= i < |shape.kids[p]| ==> shape.kids[p][i] in store
      ensures r == FirstNamed(store, shape.kids[p], name)
    {
      assert NodeOk(store, shape, root, p);
      ghost var kids, i := shape.kids[p], 0;
      assert kids[i..] == kids;
      r := store[p].child;
      while r != 0
        invariant i <= |kids| && r == (if i < |kids| then kids[i] else 0)
        invariant FirstNamed(store, kids, name) == FirstNamed(store, kids[i..], name)
        decreases |kids| - i
      {
        assert KidOk(store, shape, root, p, i);
        assert kids[i..][1..] == kids[i + 1..];
        if store[r].name == name {
          return;
        }
        r := store[r].next;
        i := i + 1;
      }
    }

    /** The search of uacpi_namespace_node_uninstall: n itself when it is the first child of its parent,
        otherwise the peer in front of it, or null when n is not linked. */
    method FindPrevious(n: Ptr) returns (prev: Ptr, ghost i: nat)
      requires Valid() && n in store && (store[n].parent == 0 || store[n].parent in shape.kids)
      ensures store[n].parent == 0 ==> prev == 0
      ensures store[n].parent != 0 ==>
                var kids := shape.kids[store[n].parent];
                if n in kids then i < |kids| && kids[i] == n && prev != 0 && prev == (if i == 0 then n else kids[i - 1])
                else prev == 0
      ensures prev != 0 ==> prev in store
    {
      var p := store[n].parent;
      i := 0;
      if p == 0 {
        return 0, 0;
      }
      assert NodeOk(store, shape, root, p);
      prev := store[p].child;
      ghost var kids := shape.kids[p];
      assert kids != [] ==> KidOk(store, shape, root, p, 0);
      if prev == n {
        return;
      }
      while prev != 0 && store[prev].next != n
        invariant i <= |kids| && prev == (if i < |kids| then kids[i] else 0)
        invariant i < |kids| ==> KidOk(store, shape, root, p, i)
        invariant forall j :: 0 <= j <= i && j < |kids| ==> kids[j] != n
        decreases |kids| - i
      {
        assert i + 1 < |kids| ==> KidOk(store, shape, root, p, i + 1);
        prev := store[prev].next;
        i := i + 1;
      }
      if prev != 0 {
        i := i + 1;
      }
    }

    /** uacpi_namespace_node_uninstall: unlink a leaf, detach its object and drop its reference. */
    method Uninstall(n: Ptr) returns (status: Status)
      requires Valid() && n in store && (store[n].parent == 0 || store[n].parent in shape.kids)
      modifies this
      ensures Valid()
      ensures old(store[n].dangling) ==> status == InternalError && store == old(store) && shape == old(shape)
      ensures !old(store[n].dangling) && old(store[n].child) != 0 ==>
                status == Denied && store == old(store) && shape == old(shape)
      ensures !old(store[n].dangling) && old(store[n].child) == 0 ==>
                if n !in old(shape).kids || n == root
                then status == InternalError && shape == old(shape)
                    && store == old(store)[n := old(store[n]).(obj := None)]
                else status == Ok && Removed(old(store), old(shape), root, n, store, shape)
    {
      if store[n].dangling {
        return InternalError;
      }
      if store[n].child != 0 {
        return Denied;
      }
      ghost var was, g := store, shape;
      DetachKeepsTree(store, shape, root, n);
      LinkedIffInstalled(store, shape, root, n);
      store := store[n := store[n].(obj := None)];
      var prev;
      ghost var i;
      prev, i := FindPrevious(n);
      if prev == 0 {
        return InternalError;
      }
      var p := store[n].parent;
      RemovedKeepsTree(was, g, root, p, i);
      UnlinkStepsUnlink(was, g.kids[p], p, i);
      if prev == n {
        store := store[p := store[p].(child := store[n].next)];
      } else {
        store := store[prev := store[prev].(next := store[n].next)];
      }
      store := store[n := store[n].(dangling := true)];
      store := Unreferenced(store, n);
      shape := WithoutKid(g, p, i);
      assert Removed(was, g, root, n, store, shape);
      return Ok;
    }
  }
}
