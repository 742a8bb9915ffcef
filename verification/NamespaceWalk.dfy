/** `uacpi_namespace_do_for_each_child`: the depth-first walk that follows child, next and parent links
    without a stack, against the recursive traversal it stands for. */
module NamespaceWalk {
  import opened Options
  import opened NamespaceTree

  datatype Decision = Continue | NextPeer | Break | Invalid

  /** A callback invocation on the way down or up. */
  datatype Event = Event(id: Ptr, depth: nat, up: bool)

  /** The arguments of the walk.  What a callback answers may depend on everything it has seen. */
  datatype Walk = Walk(
    descending: bool,               // descending_callback is not null
    ascending: bool,                // ascending_callback is not null
    mask: set<nat>,                 // type_mask
    maxDepth: nat,
    permanentOnly: bool,
    callback: (seq<Event>, Event) -> Decision)

  datatype Outcome = Running | Stopped | InvalidArgument

  /** The invocations so far, the `matches` variable, and whether the walk is over. */
  datatype State = State(seen: seq<Event>, matches: bool, outcome: Outcome)

  /** A node is reached: the type check, the temporary check and the callback. */
  function Visit(w: Walk, store: Store, s: State, id: Ptr, depth: nat, up: bool): (State, Decision)
    requires id in store
  {
    // without an object the check reports an error and leaves `matches` as it was
    var matches := match store[id].obj case None => s.matches case Some(t) => t in w.mask;
    var s1 := s.(matches := matches);
    if !matches then (s1, Continue)
    else if w.permanentOnly && store[id].temporary then (s1, NextPeer)
    else if !(if up then w.ascending else w.descending) then (s1, Continue)
    else
      var e := Event(id, depth, up);
      var d := w.callback(s.seen, e);
      (s1.(seen := s.seen + [e], outcome := if d == Break then Stopped else s.outcome), d)
  }

  /** The subtree at a node. */
  datatype Tree = Tree(id: Ptr, kids: seq<Tree>)

  ghost predicate Stored(store: Store, t: Tree) {
    t.id in store && forall i :: 0 <= i < |t.kids| ==> Stored(store, t.kids[i])
  }

  /** The recursive traversal of one subtree: down, children, up. */
  ghost function WalkTree(w: Walk, store: Store, t: Tree, depth: nat, s: State): State
    requires Stored(store, t)
    decreases t, 0
  {
    var (s1, d) := Visit(w, store, s, t.id, depth, false);
    if s1.outcome != Running then s1
    else if d == Invalid then s1.(outcome := InvalidArgument)
    else
      var s2 := if d == Continue && depth != w.maxDepth then WalkForest(w, store, t.kids, depth + 1, s1) else s1;
      Ascend(w, store, t.id, depth, s2)
  }

  /** The way up through a node, unless the walk is over. */
  ghost function Ascend(w: Walk, store: Store, id: Ptr, depth: nat, s: State): State
    requires id in store
  {
    if s.outcome != Running then s else Visit(w, store, s, id, depth, true).0
  }

  /** The recursive traversal of a list of subtrees. */
  ghost function WalkForest(w: Walk, store: Store, ts: seq<Tree>, depth: nat, s: State): State
    requires forall i :: 0 <= i < |ts| ==> Stored(store, ts[i])
    decreases ts
  {
    if ts == [] || s.outcome != Running then s
    else WalkForest(w, store, ts[1..], depth, WalkTree(w, store, ts[0], depth, s))
  }

  // ------------------------------------------------------- what is left to do at a point of the walk

  ghost predicate AllStored(store: Store, ts: seq<Tree>) { forall i :: 0 <= i < |ts| ==> Stored(store, ts[i]) }

  /** The walk is at ts[i], one of the subtrees of some node. */
  datatype Frame = Frame(ts: seq<Tree>, i: nat)

  /** The ancestors of the current node below the start of the walk, then the node itself. */
  ghost predicate Frames(store: Store, st: seq<Frame>) {
    forall l :: 0 <= l < |st| ==> st[l].i < |st[l].ts| && AllStored(store, st[l].ts)
  }

  ghost function Top(store: Store, st: seq<Frame>): (t: Tree)
    requires st != [] && Frames(store, st)
    ensures Stored(store, t)
  {
    st[|st| - 1].ts[st[|st| - 1].i]
  }

  /** The rest of the recursive traversal once the current node is finished with. */
  ghost function Finish(store: Store, w: Walk, st: seq<Frame>, s: State): State
    requires Frames(store, st)
    decreases |st|
  {
    if st == [] || s.outcome != Running then s
    else
      var f := st[|st| - 1];
      var s1 := WalkForest(w, store, f.ts[f.i + 1..], |st|, s);
      var below := st[..|st| - 1];
      if below == [] then s1 else Finish(store, w, below, Ascend(w, store, Top(store, below).id, |below|, s1))
  }

  /** The rest of the recursive traversal from the current node on. */
  ghost function Rest(store: Store, w: Walk, st: seq<Frame>, up: bool, s: State): State
    requires st != [] && Frames(store, st)
  {
    var t := Top(store, st);
    Finish(store, w, st, if up then Ascend(w, store, t.id, |st|, s) else WalkTree(w, store, t, |st|, s))
  }

  /** Walking up to a peer. */
  lemma RestNext(store: Store, w: Walk, below: seq<Frame>, ts: seq<Tree>, i: nat, s: State)
    requires i + 1 < |ts| && s.outcome == Running
    requires Frames(store, below + [Frame(ts, i)]) && Frames(store, below + [Frame(ts, i + 1)])
    ensures Finish(store, w, below + [Frame(ts, i)], s) == Rest(store, w, below + [Frame(ts, i + 1)], false, s)
  {
    var st, st' := below + [Frame(ts, i)], below + [Frame(ts, i + 1)];
    assert st[..|st| - 1] == below == st'[..|st'| - 1];
    var peers, t := ts[i + 1..], ts[i + 1];
    assert peers[0] == t && peers[1..] == ts[i + 2..];
    assert Top(store, st') == t;
    var s1 := WalkTree(w, store, t, |st|, s);
    assert WalkForest(w, store, peers, |st|, s) == WalkForest(w, store, ts[i + 2..], |st|, s1);
  }

  lemma FramesBelow(store: Store, below: seq<Frame>, f: Frame)
    requires Frames(store, below + [f])
    ensures Frames(store, below)
  {
    assert forall l :: 0 <= l < |below| ==> below[l] == (below + [f])[l];
  }

  // ------------------------------------------------------------------------------ the links of a tree

  function HeadId(ts: seq<Tree>): Ptr { if ts == [] then 0 else ts[0].id }
  function NextId(ts: seq<Tree>, i: nat): Ptr { if i + 1 < |ts| then ts[i + 1].id else 0 }

  /** The links below t spell out t. */
  ghost predicate TreeLinked(store: Store, t: Tree)
    decreases t, 0
  {
    t.id in store && t.id != 0 && store[t.id].child == HeadId(t.kids) && ForestLinked(store, t.kids, t.id)
  }

  /** The subtrees of `parent` are chained by their next links. */
  ghost predicate ForestLinked(store: Store, ts: seq<Tree>, parent: Ptr)
    decreases ts
  {
    forall i {:trigger TreeLinked(store, ts[i])} :: 0 <= i < |ts| ==>
      && TreeLinked(store, ts[i])
      && store[ts[i].id].parent == parent && store[ts[i].id].next == NextId(ts, i)
  }

  lemma {:induction false} LinkedStored(store: Store, t: Tree)
    requires TreeLinked(store, t)
    ensures Stored(store, t)
  {
    forall i | 0 <= i < |t.kids|
      ensures Stored(store, t.kids[i])
    {
      assert ForestLinked(store, t.kids, t.id) && TreeLinked(store, t.kids[i]);
      LinkedStored(store, t.kids[i]);
    }
  }

  /** The node whose subtrees frame l holds. */
  ghost function OwnerOf(start: Ptr, st: seq<Frame>, l: nat): Ptr
    requires l < |st| && forall k :: 0 <= k < |st| ==> st[k].i < |st[k].ts|
  {
    if l == 0 then start else st[l - 1].ts[st[l - 1].i].id
  }

  /** The ghost stack goes with the links: each frame holds the subtrees of the node below it. */
  ghost predicate StackLinked(store: Store, start: Ptr, st: seq<Frame>) {
    && Frames(store, st)
    && forall l {:trigger FrameLinked(store, start, st, l)} :: 0 <= l < |st| ==> FrameLinked(store, start, st, l)
  }

  ghost predicate FrameLinked(store: Store, start: Ptr, st: seq<Frame>, l: nat)
    requires l < |st| && forall k :: 0 <= k < |st| ==> st[k].i < |st[k].ts|
  {
    ForestLinked(store, st[l].ts, OwnerOf(start, st, l))
  }

  /** Twice the nodes of a subtree. */
  function Work(t: Tree): nat
    decreases t, 0
  {
    2 + WorkAll(t.kids)
  }

  function WorkAll(ts: seq<Tree>): nat
    decreases ts
  {
    if ts == [] then 0 else Work(ts[0]) + WorkAll(ts[1..])
  }

  /** What is left to do on the frames of a stack, beyond the current node. */
  ghost function Pending(st: seq<Frame>): nat
    requires forall l :: 0 <= l < |st| ==> st[l].i < |st[l].ts|
  {
    if st == [] then 0
    else
      var f := st[|st| - 1];
      1 + WorkAll(f.ts[f.i + 1..]) + Pending(st[..|st| - 1])
  }

  /** Bounds the number of rounds that are left. */
  ghost function Measure(store: Store, st: seq<Frame>, up: bool): nat
    requires st != [] && Frames(store, st)
  {
    Pending(st) + if up then 1 else Work(Top(store, st))
  }

  lemma MeasureDown(store: Store, st: seq<Frame>)
    requires st != [] && Frames(store, st) && Top(store, st).kids != []
    requires Frames(store, st + [Frame(Top(store, st).kids, 0)])
    ensures Measure(store, st + [Frame(Top(store, st).kids, 0)], false) < Measure(store, st, false)
  {
    var t := Top(store, st);
    var st' := st + [Frame(t.kids, 0)];
    assert st'[..|st'| - 1] == st;
    assert Top(store, st') == t.kids[0];
    assert Work(t) == 2 + Work(t.kids[0]) + WorkAll(t.kids[1..]);
  }

  // ------------------------------------------------------------------------------ the stackless walk

  datatype Result = WalkOk | WalkInvalidArgument

  /** Adding a frame for the subtrees of the current node. */
  lemma StackPush(store: Store, start: Ptr, st: seq<Frame>, ts: seq<Tree>, i: nat)
    requires StackLinked(store, start, st) && i < |ts|
    requires ForestLinked(store, ts, if st == [] then start else Top(store, st).id)
    ensures StackLinked(store, start, st + [Frame(ts, i)])
  {
    var st' := st + [Frame(ts, i)];
    forall j | 0 <= j < |ts|
      ensures Stored(store, ts[j])
    {
      assert TreeLinked(store, ts[j]);
      LinkedStored(store, ts[j]);
    }
    forall l | 0 <= l < |st'|
      ensures FrameLinked(store, start, st', l)
    {
      if l < |st| {
        assert FrameLinked(store, start, st, l);
      }
    }
  }

  /** Taking the last frame off, and where the links at it lead. */
  lemma StackPop(store: Store, start: Ptr, below: seq<Frame>, ts: seq<Tree>, i: nat)
    requires StackLinked(store, start, below + [Frame(ts, i)])
    ensures i < |ts| && Frames(store, below) && StackLinked(store, start, below)
    ensures ForestLinked(store, ts, if below == [] then start else Top(store, below).id)
  {
    var st := below + [Frame(ts, i)];
    FramesBelow(store, below, Frame(ts, i));
    assert st[|below|] == Frame(ts, i);
    assert FrameLinked(store, start, st, |below|);
    forall l | 0 <= l < |below|
      ensures FrameLinked(store, start, below, l)
    {
      assert FrameLinked(store, start, st, l);
    }
  }

  lemma KidsLinked(store: Store, t: Tree)
    requires TreeLinked(store, t)
    ensures ForestLinked(store, t.kids, t.id)
    ensures store[t.id].child == 0 <==> t.kids == []
  {
    if t.kids != [] {
      assert ForestLinked(store, t.kids, t.id);
      assert TreeLinked(store, t.kids[0]);
    }
  }

  /** Where the child and next links lead at a point of the walk. */
  lemma Links(store: Store, start: Ptr, below: seq<Frame>, ts: seq<Tree>, i: nat)
    requires StackLinked(store, start, below + [Frame(ts, i)])
    ensures i < |ts| && ts[i].id in store && (store[ts[i].id].child == 0 <==> ts[i].kids == [])
    ensures Top(store, below + [Frame(ts, i)]) == ts[i]
    ensures ts[i].kids != [] ==>
              && StackLinked(store, start, below + [Frame(ts, i)] + [Frame(ts[i].kids, 0)])
              && store[ts[i].id].child == ts[i].kids[0].id
    ensures store[ts[i].id].next == 0 <==> i + 1 == |ts|
    ensures i + 1 < |ts| ==>
              StackLinked(store, start, below + [Frame(ts, i + 1)]) && store[ts[i].id].next == ts[i + 1].id
  {
    StackPop(store, start, below, ts, i);
    assert TreeLinked(store, ts[i]);
    KidsLinked(store, ts[i]);
    if ts[i].kids != [] {
      StackPush(store, start, below + [Frame(ts, i)], ts[i].kids, 0);
    }
    if i + 1 < |ts| {
      assert TreeLinked(store, ts[i + 1]);
      StackPush(store, start, below, ts, i + 1);
    }
  }

  /** Where the parent link leads. */
  lemma LinkUp(store: Store, start: Ptr, below: seq<Frame>, ts: seq<Tree>, i: nat)
    requires StackLinked(store, start, below + [Frame(ts, i)])
    ensures i < |ts| && ts[i].id in store && StackLinked(store, start, below)
    ensures below != [] ==> store[ts[i].id].parent == Top(store, below).id
  {
    StackPop(store, start, below, ts, i);
    assert TreeLinked(store, ts[i]);
  }

  /** One round on the way down: what is left of the recursive traversal. */
  lemma RoundDown(store: Store, w: Walk, st: seq<Frame>, s: State, s1: State, d: Decision)
    requires st != [] && Frames(store, st) && s.outcome == Running
    requires (s1, d) == Visit(w, store, s, Top(store, st).id, |st|, false)
    ensures var t := Top(store, st);
            Rest(store, w, st, false, s) ==
            if s1.outcome != Running then s1
            else if d == Invalid then s1.(outcome := InvalidArgument)
            else if d == Continue && |st| != w.maxDepth && t.kids != [] then
              Finish(store, w, st, Ascend(w, store, t.id, |st|, WalkForest(w, store, t.kids, |st| + 1, s1)))
            else Rest(store, w, st, true, s1)
  {
    var t := Top(store, st);
    assert t.kids == [] ==> WalkForest(w, store, t.kids, |st| + 1, s1) == s1;
    assert s1.outcome == Running && d != Invalid && !(d == Continue && |st| != w.maxDepth && t.kids != []) ==>
        WalkTree(w, store, t, |st|, s) == Ascend(w, store, t.id, |st|, s1);
  }

  /** uacpi_namespace_do_for_each_child on a namespace that does not change meanwhile; tree is the subtree
      at node. */
  method ForEachChild(store: Store, w: Walk, node: Ptr, ghost tree: Tree) returns (result: Result, s: State)
    requires node != 0 ==> TreeLinked(store, tree) && tree.id == node
    ensures (!w.descending && !w.ascending) || node == 0 || w.maxDepth == 0 ==>
              result == WalkInvalidArgument && s == State([], false, Running)
    ensures (w.descending || w.ascending) && node != 0 && w.maxDepth != 0 ==>
              && AllStored(store, tree.kids)
              && s == WalkForest(w, store, tree.kids, 1, State([], false, Running))
              && result == if s.outcome == InvalidArgument then WalkInvalidArgument else WalkOk
  {
    s := State([], false, Running);
    if !w.descending && !w.ascending {
      return WalkInvalidArgument, s;
    }
    if node == 0 || w.maxDepth == 0 {
      return WalkInvalidArgument, s;
    }
    LinkedStored(store, tree);
    KidsLinked(store, tree);
    if store[node].child == 0 {
      return WalkOk, s;
    }
    result, s := WalkFrom(store, w, node, tree);
  }

  lemma SplitLast(st: seq<Frame>)
    requires st != []
    ensures st == st[..|st| - 1] + [Frame(st[|st| - 1].ts, st[|st| - 1].i)]
  {
  }

  /** The loop stands at `cur`, the node on top of st, and what is left to do from there leads to `goal`; with
      an empty stack nothing is left. */
  ghost predicate Walking(store: Store, w: Walk, node: Ptr, st: seq<Frame>, cur: Ptr, depth: nat, up: bool, s: State,
                          goal: State) {
    && s.outcome == Running && depth == |st|
    && if st == [] then goal == s
       else
         && StackLinked(store, node, st) && cur == Top(store, st).id && cur in store
         && goal == Rest(store, w, st, up, s)
  }

  /** From a node that is finished with to its peer. */
  lemma GoNext(store: Store, w: Walk, node: Ptr, st: seq<Frame>, cur: Ptr, s: State, goal: State)
    returns (st': seq<Frame>)
    requires st != [] && StackLinked(store, node, st)
    requires cur == Top(store, st).id && cur in store && store[cur].next != 0
    requires s.outcome == Running && goal == Finish(store, w, st, s)
    ensures Walking(store, w, node, st', store[cur].next, |st|, false, s, goal) && st' != []
    ensures Measure(store, st', false) < Measure(store, st, true)
  {
    var below, f := st[..|st| - 1], st[|st| - 1];
    SplitLast(st);
    Links(store, node, below, f.ts, f.i);
    st' := below + [Frame(f.ts, f.i + 1)];
    RestNext(store, w, below, f.ts, f.i, s);
    Links(store, node, below, f.ts, f.i + 1);
  }

  /** From the last child to its parent, or to the end. */
  lemma GoUp(store: Store, w: Walk, node: Ptr, st: seq<Frame>, cur: Ptr, s: State, goal: State)
    returns (st': seq<Frame>)
    requires st != [] && StackLinked(store, node, st)
    requires cur == Top(store, st).id && cur in store && store[cur].next == 0
    requires s.outcome == Running && goal == Finish(store, w, st, s)
    ensures Walking(store, w, node, st', store[cur].parent, |st| - 1, true, s, goal)
    ensures st' != [] ==> Measure(store, st', true) < Measure(store, st, true)
  {
    var below, f := st[..|st| - 1], st[|st| - 1];
    SplitLast(st);
    Links(store, node, below, f.ts, f.i);
    LinkUp(store, node, below, f.ts, f.i);
    st' := below;
    if below != [] {
      var g := below[|below| - 1];
      SplitLast(below);
      Links(store, node, below[..|below| - 1], g.ts, g.i);
    }
  }

  /** From a node to its first child. */
  lemma GoDown(store: Store, w: Walk, node: Ptr, st: seq<Frame>, cur: Ptr, s: State, goal: State)
    returns (st': seq<Frame>)
    requires st != [] && StackLinked(store, node, st)
    requires cur == Top(store, st).id && cur in store && store[cur].child != 0
    requires s.outcome == Running
    requires var t := Top(store, st);
             goal == Finish(store, w, st, Ascend(w, store, t.id, |st|, WalkForest(w, store, t.kids, |st| + 1, s)))
    ensures Walking(store, w, node, st', store[cur].child, |st| + 1, false, s, goal) && st' != []
    ensures Measure(store, st', false) < Measure(store, st, false)
  {
    var below, f, t := st[..|st| - 1], st[|st| - 1], Top(store, st);
    SplitLast(st);
    Links(store, node, below, f.ts, f.i);
    st' := st + [Frame(t.kids, 0)];
    MeasureDown(store, st);
    Links(store, node, st, t.kids, 0);
  }

  /** Whether a node has children shows in its child link. */
  lemma TopLinks(store: Store, node: Ptr, st: seq<Frame>)
    requires st != [] && StackLinked(store, node, st)
    ensures Top(store, st).id in store && (store[Top(store, st).id].child == 0 <==> Top(store, st).kids == [])
  {
    SplitLast(st);
    Links(store, node, st[..|st| - 1], st[|st| - 1].ts, st[|st| - 1].i);
  }

  /** The loop of the walk, from the first child on. */
  method WalkFrom(store: Store, w: Walk, node: Ptr, ghost tree: Tree) returns (result: Result, s: State)
    requires TreeLinked(store, tree) && tree.id == node && tree.kids != []
    ensures AllStored(store, tree.kids)
    ensures s == WalkForest(w, store, tree.kids, 1, State([], false, Running))
    ensures result == if s.outcome == InvalidArgument then WalkInvalidArgument else WalkOk
  {
    LinkedStored(store, tree);
    KidsLinked(store, tree);
    s := State([], false, Running);
    ghost var goal := WalkForest(w, store, tree.kids, 1, s);
    ghost var st := [Frame(tree.kids, 0)];
    StartWalk(store, w, node, tree, s);
    var cur := store[node].child;
    var depth: nat := 1;
    var up := false;
    while depth > 0
      invariant Walking(store, w, node, st, cur, depth, up, s, goal)
      decreases if st == [] then 0 else Measure(store, st, up)
    {
      TopLinks(store, node, st);
      var (s1, decision) := Visit(w, store, s, cur, depth, up);
      if s1.outcome == Stopped {
        return WalkOk, s1;
      }
      if up {
        if store[cur].next != 0 {
          st := GoNext(store, w, node, st, cur, s1, goal);
          cur := store[cur].next;
          up := false;
        } else {
          st := GoUp(store, w, node, st, cur, s1, goal);
          depth := depth - 1;
          cur := store[cur].parent;
        }
      } else {
        RoundDown(store, w, st, s, s1, decision);
        if decision == Invalid {
          return WalkInvalidArgument, s1.(outcome := InvalidArgument);
        }
        if decision == Continue && depth != w.maxDepth && store[cur].child != 0 {
          st := GoDown(store, w, node, st, cur, s1, goal);
          cur := store[cur].child;
          depth := depth + 1;
        } else {
          up := true;
        }
      }
      s := s1;
    }
    return WalkOk, s;
  }

  lemma StartWalk(store: Store, w: Walk, node: Ptr, tree: Tree, s: State)
    requires TreeLinked(store, tree) && tree.id == node && tree.kids != [] && s.outcome == Running
    ensures AllStored(store, tree.kids)
    ensures Walking(store, w, node, [Frame(tree.kids, 0)], store[node].child, 1, false, s,
                    WalkForest(w, store, tree.kids, 1, s))
  {
    LinkedStored(store, tree);
    KidsLinked(store, tree);
    StackPush(store, node, [], tree.kids, 0);
    assert [] + [Frame(tree.kids, 0)] == [Frame(tree.kids, 0)];
    Links(store, node, [], tree.kids, 0);
  }
}
