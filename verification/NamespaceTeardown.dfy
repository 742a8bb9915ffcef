/** `uacpi_deinitialize_namespace`: the stackless loop that empties the namespace from the leaves up. */
module NamespaceTeardown {
  import opened Options
  import opened NamespaceTree
  import opened Sequences

  /** A node on the way from the root to `current`.  Its first i children have been emptied; the next one
      is the node that follows on the way. */
  datatype Step = Step(p: Ptr, i: nat)

  ghost predicate Leaf(g: Shape, k: Ptr) { k in g.kids && g.kids[k] == [] }

  ghost predicate StepOk(g: Shape, s: Step, l: nat) {
    && s.p in g.kids && s.p in g.depth && g.depth[s.p] == l && s.i <= |g.kids[s.p]|
    && forall j :: 0 <= j < s.i ==> Leaf(g, g.kids[s.p][j])
  }

  ghost predicate Leads(g: Shape, s: Step, p: Ptr) { s.p in g.kids && s.i < |g.kids[s.p]| && g.kids[s.p][s.i] == p }

  /** The way from the root to `current`. */
  ghost predicate Way(g: Shape, root: Ptr, st: seq<Step>) {
    && st != [] && st[0].p == root
    && (forall l :: 0 <= l < |st| ==> StepOk(g, st[l], l))
    && (forall l :: 0 <= l < |st| - 1 ==> Leads(g, st[l], st[l + 1].p))
  }

  /** Children before position i have been seen, those from `rest` on have not. */
  ghost predicate SeenUpTo(g: Shape, s: Step, rest: nat, unseen: set<Ptr>) {
    && s.p in g.kids && s.p !in unseen
    && (forall j :: 0 <= j < s.i && j < |g.kids[s.p]| ==> g.kids[s.p][j] !in unseen)
    && (forall j :: rest <= j < |g.kids[s.p]| ==> g.kids[s.p][j] in unseen)
  }

  /** No node that is yet to be seen hangs below one that has been left behind. */
  ghost predicate Ahead(g: Shape, st: seq<Step>, unseen: set<Ptr>) {
    && (forall l :: 0 <= l < |st| ==> SeenUpTo(g, st[l], if l == |st| - 1 then st[l].i else st[l].i + 1, unseen))
    && (forall q :: q in unseen ==> q in g.kids)
    && (forall q, j :: q in unseen && q in g.kids && 0 <= j < |g.kids[q]| ==> g.kids[q][j] in unseen)
  }

  /** n is a child of p, one level down, and of no other node. */
  ghost predicate OnlyKidOf(g: Shape, n: Ptr, p: Ptr) {
    && p in g.kids && p in g.depth && n in g.kids && n in g.depth && g.depth[n] == g.depth[p] + 1
    && Distinct(g.kids[p])
    && forall q, j :: q in g.kids && 0 <= j < |g.kids[q]| && g.kids[q][j] == n ==> q == p
  }

  lemma OneParent(store: Store, g: Shape, root: Ptr, p: Ptr, i: nat)
    requires WellFormed(store, g, root) && p in g.kids && i < |g.kids[p]|
    ensures OnlyKidOf(g, g.kids[p][i], p)
  {
    assert NodeOk(store, g, root, p) && KidOk(store, g, root, p, i);
    forall q, j | q in g.kids && 0 <= j < |g.kids[q]| && g.kids[q][j] == g.kids[p][i]
      ensures q == p
    {
      assert NodeOk(store, g, root, q) && KidOk(store, g, root, q, j);
    }
  }

  /** The child that comes next is seen. */
  lemma SeeNext(g: Shape, root: Ptr, st: seq<Step>, unseen: set<Ptr>, n: Ptr, st': seq<Step>)
    requires Way(g, root, st) && Ahead(g, st, unseen) && Leads(g, st[|st| - 1], n) && OnlyKidOf(g, n, st[|st| - 1].p)
    requires st' == if g.kids[n] == [] then st[|st| - 1 := Step(st[|st| - 1].p, st[|st| - 1].i + 1)]
        else st + [Step(n, 0)]
    ensures n in unseen && Way(g, root, st') && Ahead(g, st', unseen - {n})
  {
    var top := st[|st| - 1];
    var u := unseen - {n};
    assert StepOk(g, top, |st| - 1) && SeenUpTo(g, top, top.i, unseen);
    forall l | 0 <= l < |st'|
      ensures StepOk(g, st'[l], l)
      ensures SeenUpTo(g, st'[l], if l == |st'| - 1 then st'[l].i else st'[l].i + 1, u)
    {
      if l < |st| - 1 {
        assert SeenUpTo(g, st[l], st[l].i + 1, unseen) && StepOk(g, st[l], l);
      }
    }
    forall l | 0 <= l < |st'| - 1
      ensures Leads(g, st'[l], st'[l + 1].p)
    {
      assert l < |st| - 1 ==> Leads(g, st[l], st[l + 1].p);
    }
  }

  /** All children of `current` have been emptied and removed; its parent is next. */
  lemma GoUp(g: Shape, root: Ptr, st: seq<Step>, unseen: set<Ptr>)
    requires Way(g, root, st) && Ahead(g, st, unseen) && |st| > 1 && g.kids[st[|st| - 1].p] == []
    ensures var f := st[|st| - 2];
            var st' := st[..|st| - 2] + [Step(f.p, f.i + 1)];
            Way(g, root, st') && Ahead(g, st', unseen)
  {
  }

  lemma WipeOne(g: Shape, root: Ptr, st: seq<Step>, unseen: set<Ptr>, top: Step)
    requires Way(g, root, st) && Ahead(g, st, unseen) && top == st[|st| - 1]
    requires top.i == |g.kids[top.p]| > 0 && OnlyKidOf(g, g.kids[top.p][0], top.p)
    ensures top.p in WithoutKid(g, top.p, 0).kids && |WithoutKid(g, top.p, 0).kids[top.p]| == top.i - 1
    ensures Way(WithoutKid(g, top.p, 0), root, st[|st| - 1 := Step(top.p, top.i - 1)])
    ensures Ahead(WithoutKid(g, top.p, 0), st[|st| - 1 := Step(top.p, top.i - 1)], unseen)
  {
  }

  // ------------------------------------------------------------------------------ what is left behind

  /** What uninstalling makes of a node: freed with its last reference, unless it is a predefined one, which
      is reset; otherwise it stays as a dangling node without an object. */
  ghost predicate Released(was: Node, store: Store, n: Ptr) {
    if was.refs == 1 then
      if was.predefined then n in store && store[n] == Node(was.name, 0, 0, 0, None, 0, false, false, true)
      else n !in store
    else
      && n in store && store[n].dangling && store[n].obj == None
      && store[n].refs == if was.refs == 0 || was.refs == BUGGED_REFCOUNT then BUGGED_REFCOUNT else was.refs - 1
  }

  /** q is still installed and only had links changed, or was never installed and is as it was, or has been
      released. */
  ghost predicate Accounted(was: Store, g0: Shape, store: Store, g: Shape, q: Ptr) {
    && (q in g.kids ==>
          && q in g0.kids && q in was && q in store
          && store[q] == was[q].(child := store[q].child, next := store[q].next))
    && (q in was && q !in g0.kids ==> q in store && store[q] == was[q])
    && (q in g0.kids && q !in g.kids ==> q in was && Released(was[q], store, q))
  }

  ghost predicate Reduced(was: Store, g0: Shape, store: Store, g: Shape) {
    forall q :: Accounted(was, g0, store, g, q)
  }

  lemma RemoveReduces(was: Store, g0: Shape, store: Store, g: Shape, p: Ptr, n: Ptr)
    requires Reduced(was, g0, store, g) && p in g.kids && g.kids[p] != [] && n == g.kids[p][0]
    requires n in g.kids && n in store && p in store && n != p
    ensures Reduced(was, g0, Unreferenced(Unlinked(store, g.kids[p], p, 0), n), WithoutKid(g, p, 0))
  {
    var store', g' := Unreferenced(Unlinked(store, g.kids[p], p, 0), n), WithoutKid(g, p, 0);
    forall q
      ensures Accounted(was, g0, store', g', q)
    {
      assert Accounted(was, g0, store, g, q);
    }
  }

  lemma {:induction false} BareRoot(store: Store, g: Shape, root: Ptr, k: Ptr)
    requires WellFormed(store, g, root) && g.kids[root] == [] && k in g.kids && k in g.depth
    ensures k == root
    decreases g.depth[k]
  {
    if k != root {
      assert HasParent(store, g, k);
      var p := store[k].parent;
      var i :| 0 <= i < |g.kids[p]| && g.kids[p][i] == k;
      assert NodeOk(store, g, root, p) && KidOk(store, g, root, p, i);
      BareRoot(store, g, root, p);
      assert false;
    }
  }

  // ------------------------------------------------------------------------------------- the two loops

  predicate AllOk(answers: seq<Status>) { forall i :: 0 <= i < |answers| ==> answers[i] == Ok }

  /** The loop stands at `current`, the last node of the way, and has passed i of its children. */
  ghost predicate At(g: Shape, root: Ptr, st: seq<Step>, unseen: set<Ptr>, current: Ptr, i: nat) {
    && st != [] && st[|st| - 1] == Step(current, i) && current in g.kids && current in g.depth && i <= |g.kids[current]|
    && Way(g, root, st) && Ahead(g, st, unseen)
  }

  /** The namespace is a tree, and what is no longer in it has been released. */
  ghost predicate Sound(ns: Namespace, was: Store, g0: Shape)
    reads ns
  {
    ns.Valid() && Reduced(was, g0, ns.store, ns.shape)
  }

  /** The inner loop: the children of `current`, all of them leaves by now, are uninstalled one by one.
      Returns what the calls answer. */
  method WipeChildren(ns: Namespace, current: Ptr, ghost st: seq<Step>, ghost unseen: set<Ptr>,
                      ghost was: Store, ghost g0: Shape) returns (answers: seq<Status>, ghost st': seq<Step>)
    requires Sound(ns, was, g0) && current in ns.shape.kids
    requires At(ns.shape, ns.root, st, unseen, current, |ns.shape.kids[current]|)
    modifies ns
    ensures AllOk(answers) && |answers| == |old(ns.shape).kids[current]| && Sound(ns, was, g0)
    ensures At(ns.shape, ns.root, st', unseen, current, 0) && ns.shape.kids[current] == [] && |st'| == |st|
  {
    answers, st' := [], st;
    assert NodeOk(ns.store, ns.shape, ns.root, current);
    while ns.store[current].child != 0
      invariant Sound(ns, was, g0) && AllOk(answers) && |st'| == |st|
      invariant current in ns.shape.kids && current in ns.shape.depth && NodeOk(ns.store, ns.shape, ns.root, current)
      invariant At(ns.shape, ns.root, st', unseen, current, |ns.shape.kids[current]|)
      invariant |answers| + |ns.shape.kids[current]| == |old(ns.shape).kids[current]|
      decreases |ns.shape.kids[current]|
    {
      ghost var g, store := ns.shape, ns.store;
      FirstChildIsLeaf(store, g, ns.root, st', current);
      var status := ns.Uninstall(ns.store[current].child);
      st' := AfterWipe(store, g, ns.root, st', unseen, current, ns.store, ns.shape, was, g0);
      answers := answers + [status];
    }
    assert ns.shape.kids[current] != [] ==> KidOk(ns.store, ns.shape, ns.root, current, 0);
  }

  lemma FirstChildIsLeaf(store: Store, g: Shape, root: Ptr, st: seq<Step>, p: Ptr)
    requires WellFormed(store, g, root) && p in g.kids && Way(g, root, st) && st[|st| - 1] == Step(p, |g.kids[p]|)
    requires p in store && store[p].child != 0
    ensures g.kids[p] != []
    ensures var n := g.kids[p][0];
            && n == store[p].child && n in g.kids && n in store && n != root && n != p
            && store[n].child == 0 && !store[n].dangling && store[n].parent == p
  {
    assert NodeOk(store, g, root, p) && KidOk(store, g, root, p, 0);
    assert StepOk(g, st[|st| - 1], |st| - 1) && Leaf(g, g.kids[p][0]);
    assert NodeOk(store, g, root, g.kids[p][0]);
  }

  lemma AfterWipe(store: Store, g: Shape, root: Ptr, st: seq<Step>, unseen: set<Ptr>, p: Ptr,
                  store': Store, g': Shape, was: Store, g0: Shape) returns (st': seq<Step>)
    requires p in g.kids && g.kids[p] != [] && At(g, root, st, unseen, p, |g.kids[p]|) && Reduced(was, g0, store, g)
    requires Removed(store, g, root, g.kids[p][0], store', g') && WellFormed(store', g', root)
    ensures p in g'.kids && p in g'.depth && |g'.kids[p]| + 1 == |g.kids[p]| && |st'| == |st|
    ensures At(g', root, st', unseen, p, |g'.kids[p]|) && Reduced(was, g0, store', g') && NodeOk(store', g', root, p)
  {
    var q: Ptr, i: nat :| CanUninstall(store, g, root, q, i) && g.kids[q][i] == g.kids[p][0]
                && g' == WithoutKid(g, q, i) && store' == Unreferenced(Unlinked(store, g.kids[q], q, i), g.kids[p][0]);
    OneParent(store, g, root, p, 0);
    assert q == p && i == 0;
    var top := Step(p, |g.kids[p]|);
    WipeOne(g, root, st, unseen, top);
    RemoveReduces(was, g0, store, g, p, g.kids[p][0]);
    st' := st[|st| - 1 := Step(p, top.i - 1)];
  }

  /** uacpi_deinitialize_namespace: terminates, no uninstall is refused, and nothing but the root is left,
      itself reset.  Returns what the uninstall calls answer. */
  method Deinitialize(ns: Namespace) returns (answers: seq<Status>)
    requires ns.Valid() && ns.store[ns.root].predefined
    modifies ns
    ensures AllOk(answers)
    ensures ns.Valid() && ns.shape == Shape(map[ns.root := []], map[ns.root := 0])
    ensures var was := old(ns.store[ns.root]);
            ns.store[ns.root] == Node(was.name, 0, 0, 0, None, was.refs, false, false, true)
    ensures forall q :: q in old(ns.shape).kids && q != ns.root ==>
              q in old(ns.store) && Released(old(ns.store)[q], ns.store, q)
    ensures forall q :: q in old(ns.store) && q !in old(ns.shape).kids ==>
              q in ns.store && ns.store[q] == old(ns.store)[q]
  {
    answers := Empty(ns);
    ghost var was, g0, left := old(ns.store), old(ns.shape), ns.store;
    assert Accounted(was, g0, left, ns.shape, ns.root);
    ns.store := ns.store[ns.root := ns.store[ns.root].(obj := None)];
    ns.store := ns.store[ns.root := ns.store[ns.root].(
                  dangling := false, temporary := false, predefined := true, obj := None, parent := 0, child := 0,
                  next := 0)];
    forall q | q != ns.root
      ensures q in g0.kids ==> q in was && Released(was[q], ns.store, q)
      ensures q in was && q !in g0.kids ==> q in ns.store && ns.store[q] == was[q]
    {
      assert Accounted(was, g0, left, ns.shape, q);
    }
  }

  /** The outer loop. */
  method Empty(ns: Namespace) returns (answers: seq<Status>)
    requires ns.Valid()
    modifies ns
    ensures AllOk(answers) && Sound(ns, old(ns.store), old(ns.shape))
    ensures ns.shape == Shape(map[ns.root := []], map[ns.root := 0])
  {
    answers := [];
    ghost var was, g0 := ns.store, ns.shape;
    ghost var st, unseen := [Step(ns.root, 0)], g0.kids.Keys - {ns.root};
    Start(ns.store, g0, ns.root);
    var current, next: Ptr, depth: nat := ns.root, 0, 1;
    while depth > 0
      invariant Sound(ns, was, g0) && AllOk(answers)
      invariant depth > 0 ==> depth == |st| && At(ns.shape, ns.root, st, unseen, current, st[|st| - 1].i)
      invariant depth > 0 ==> next == Passed(ns.shape, current, st[|st| - 1].i)
      invariant depth == 0 ==> ns.shape.kids[ns.root] == []
      decreases unseen, depth
    {
      ghost var i := st[|st| - 1].i;
      Follow(ns.store, ns.shape, ns.root, current, i);
      next := if next == 0 then ns.store[current].child else ns.store[next].next;
      if next == 0 {
        depth := depth - 1;
        var more: seq<Status>;
        more, st := WipeChildren(ns, current, st, unseen, was, g0);
        answers := answers + more;
        next := current;
        Parent(ns.store, ns.shape, ns.root, st);
        current := ns.store[current].parent;
        if depth > 0 {
          GoUp(ns.shape, ns.root, st, unseen);
          st := st[..|st| - 2] + [Step(st[|st| - 2].p, st[|st| - 2].i + 1)];
        }
      } else {
        OneParent(ns.store, ns.shape, ns.root, current, i);
        ghost var st' := if ns.shape.kids[next] == [] then st[|st| - 1 := Step(current, i + 1)]
            else st + [Step(next, 0)];
        SeeNext(ns.shape, ns.root, st, unseen, next, st');
        st, unseen := st', unseen - {next};
        if ns.store[next].child != 0 {
          depth := depth + 1;
          current := next;
          next := 0;
        }
      }
    }
    forall k | k in ns.shape.kids
      ensures k == ns.root
    {
      BareRoot(ns.store, ns.shape, ns.root, k);
    }
    assert ns.shape.kids == map[ns.root := []] && ns.shape.depth == map[ns.root := 0];
  }

  /** The value of `next` when i children of p have been passed. */
  ghost function Passed(g: Shape, p: Ptr, i: nat): Ptr
    requires p in g.kids && i <= |g.kids[p]|
  {
    if i == 0 then 0 else g.kids[p][i - 1]
  }

  lemma Start(store: Store, g: Shape, root: Ptr)
    requires WellFormed(store, g, root)
    ensures At(g, root, [Step(root, 0)], g.kids.Keys - {root}, root, 0) && Reduced(store, g, store, g)
  {
    var unseen := g.kids.Keys - {root};
    forall q, j | q in g.kids && 0 <= j < |g.kids[q]|
      ensures g.kids[q][j] in unseen
    {
      assert NodeOk(store, g, root, q) && KidOk(store, g, root, q, j);
    }
    forall q
      ensures Accounted(store, g, store, g, q)
    {
      assert q in g.kids ==> NodeOk(store, g, root, q);
    }
  }

  /** The link that is followed from the last child passed leads to the next one. */
  lemma Follow(store: Store, g: Shape, root: Ptr, p: Ptr, i: nat)
    requires WellFormed(store, g, root) && p in g.kids && i <= |g.kids[p]|
    ensures p in store && (Passed(g, p, i) != 0 <==> i > 0) && (i > 0 ==> Passed(g, p, i) in store)
    ensures (if i == 0 then store[p].child else store[Passed(g, p, i)].next)
         == if i < |g.kids[p]| then g.kids[p][i] else 0
    ensures i < |g.kids[p]| ==>
              && g.kids[p][i] != 0 && g.kids[p][i] in store && g.kids[p][i] in g.kids
              && (store[g.kids[p][i]].child == 0 <==> g.kids[g.kids[p][i]] == [])
  {
    assert NodeOk(store, g, root, p);
    if i > 0 {
      assert KidOk(store, g, root, p, i - 1);
    }
    if i < |g.kids[p]| {
      var n := g.kids[p][i];
      assert KidOk(store, g, root, p, i) && NodeOk(store, g, root, n);
      assert g.kids[n] != [] ==> KidOk(store, g, root, n, 0);
    }
  }

  lemma Parent(store: Store, g: Shape, root: Ptr, st: seq<Step>)
    requires WellFormed(store, g, root) && Way(g, root, st)
    ensures st[|st| - 1].p in store
    ensures |st| > 1 ==> store[st[|st| - 1].p].parent == st[|st| - 2].p && Leads(g, st[|st| - 2], st[|st| - 1].p)
  {
    assert StepOk(g, st[|st| - 1], |st| - 1);
    assert NodeOk(store, g, root, st[|st| - 1].p);
    if |st| > 1 {
      var f := st[|st| - 2];
      assert Leads(g, f, st[|st| - 2 + 1].p);
      assert NodeOk(store, g, root, f.p) && KidOk(store, g, root, f.p, f.i);
    }
  }
}
