/** What the walk of `NamespaceWalk` shows its callbacks: the tree it follows is the installed tree, and
    the invocations are taken in order from one tour of it. */
module NamespaceOrder {
  import opened NamespaceTree
  import opened Sequences
  import opened NamespaceWalk

  ghost predicate Bounded(g: Shape, h: nat) { forall p :: p in g.depth ==> g.depth[p] <= h }

  lemma {:induction false} HeightExists(depth: map<Ptr, nat>) returns (h: nat)
    ensures forall p :: p in depth ==> depth[p] <= h
    decreases |depth|
  {
    if depth == map[] {
      return 0;
    }
    var q :| q in depth;
    assert depth.Keys - {q} == (depth - {q}).Keys;
    var h' := HeightExists(depth - {q});
    h := if depth[q] < h' then h' else depth[q];
    forall p | p in depth
      ensures depth[p] <= h
    {
      assert p != q ==> p in depth - {q};
    }
  }

  /** The subtree at an installed node, as the shape has it. */
  ghost function TreeOf(store: Store, g: Shape, root: Ptr, h: nat, p: Ptr): Tree
    requires WellFormed(store, g, root) && Bounded(g, h) && p in g.kids && p in g.depth
    decreases h - g.depth[p]
  {
    Tree(p, seq(|g.kids[p]|, i requires 0 <= i < |g.kids[p]| =>
                  assert NodeOk(store, g, root, p) && KidOk(store, g, root, p, i);
                  TreeOf(store, g, root, h, g.kids[p][i])))
  }

  lemma TreeOfKids(store: Store, g: Shape, root: Ptr, h: nat, p: Ptr)
    requires WellFormed(store, g, root) && Bounded(g, h) && p in g.kids && p in g.depth
    ensures var t := TreeOf(store, g, root, h, p);
            && t.id == p && |t.kids| == |g.kids[p]|
            && forall i :: 0 <= i < |t.kids| ==>
                 && KidOk(store, g, root, p, i) && t.kids[i].id == g.kids[p][i]
                 && t.kids[i] == TreeOf(store, g, root, h, g.kids[p][i])
  {
    assert NodeOk(store, g, root, p);
  }

  lemma TreeOfKid(store: Store, g: Shape, root: Ptr, h: nat, p: Ptr, i: nat)
    requires WellFormed(store, g, root) && Bounded(g, h) && p in g.kids && p in g.depth && i < |g.kids[p]|
    ensures var kids := TreeOf(store, g, root, h, p).kids;
            && KidOk(store, g, root, p, i) && i < |kids| == |g.kids[p]|
            && kids[i] == TreeOf(store, g, root, h, g.kids[p][i])
  {
    assert NodeOk(store, g, root, p);
  }

  lemma {:induction false} TreeOfLinked(store: Store, g: Shape, root: Ptr, h: nat, p: Ptr)
    requires WellFormed(store, g, root) && Bounded(g, h) && p in g.kids && p in g.depth
    ensures TreeLinked(store, TreeOf(store, g, root, h, p))
    decreases h - g.depth[p]
  {
    var t := TreeOf(store, g, root, h, p);
    assert NodeOk(store, g, root, p);
    TreeOfKids(store, g, root, h, p);
    forall i | 0 <= i < |t.kids|
      ensures TreeLinked(store, t.kids[i])
      ensures store[t.kids[i].id].parent == p && store[t.kids[i].id].next == NextId(t.kids, i)
    {
      assert KidOk(store, g, root, p, i);
      TreeOfLinked(store, g, root, h, g.kids[p][i]);
    }
    assert ForestLinked(store, t.kids, t.id);
  }

  // ------------------------------------------------------------------------------------------ order

  /** Down into t, through its subtrees in order, and up again. */
  function Tour(t: Tree, depth: nat): seq<Event>
    decreases t, 0
  {
    [Event(t.id, depth, false)] + TourAll(t.kids, depth + 1) + [Event(t.id, depth, true)]
  }

  function TourAll(ts: seq<Tree>, depth: nat): seq<Event>
    decreases ts
  {
    if ts == [] then [] else Tour(ts[0], depth) + TourAll(ts[1..], depth)
  }

  /** a is what is left of b when some elements are dropped. */
  predicate Subsequence(a: seq<Event>, b: seq<Event>) {
    if a == [] then true
    else if b == [] then false
    else (a[0] == b[0] && Subsequence(a[1..], b[1..])) || Subsequence(a, b[1..])
  }

  lemma {:induction false} SubsequenceConcat(a: seq<Event>, b: seq<Event>, c: seq<Event>, d: seq<Event>)
    requires Subsequence(a, b) && Subsequence(c, d)
    ensures Subsequence(a + c, b + d)
    decreases |b|
  {
    if b == [] {
      assert a + c == c && b + d == d;
    } else {
      assert (b + d)[1..] == b[1..] + d;
      if a == [] {
        assert a + c == c;
        SubsequenceConcat(a, b[1..], c, d);
      } else {
        assert (a + c)[1..] == a[1..] + c;
        if a[0] == b[0] && Subsequence(a[1..], b[1..]) {
          SubsequenceConcat(a[1..], b[1..], c, d);
        } else {
          SubsequenceConcat(a, b[1..], c, d);
        }
      }
    }
  }

  /** From s to s' the invocations that came in are a subsequence of the tour. */
  ghost predicate Adds(s: State, s': State, tour: seq<Event>) {
    s.seen <= s'.seen && Subsequence(s'.seen[|s.seen|..], tour)
  }

  lemma AddsBoth(s: State, s1: State, s2: State, a: seq<Event>, b: seq<Event>)
    requires Adds(s, s1, a) && Adds(s1, s2, b)
    ensures Adds(s, s2, a + b)
  {
    SubsequenceConcat(s1.seen[|s.seen|..], a, s2.seen[|s1.seen|..], b);
    assert s2.seen[|s.seen|..] == s1.seen[|s.seen|..] + s2.seen[|s1.seen|..];
  }

  /** Whatever the callbacks answer, they are called in the order of the tour: the descending one in
      pre-order, the ascending one in post-order, no node twice in one direction. */
  lemma {:induction false} WalkFollowsTour(w: Walk, store: Store, t: Tree, depth: nat, s: State)
    requires Stored(store, t)
    ensures Adds(s, WalkTree(w, store, t, depth, s), Tour(t, depth))
    decreases t, 0
  {
    var (s1, d) := Visit(w, store, s, t.id, depth, false);
    var mid := TourAll(t.kids, depth + 1);
    var s2 := s1;
    if s1.outcome == Running && d == Continue && depth != w.maxDepth {
      s2 := WalkForest(w, store, t.kids, depth + 1, s1);
      ForestFollowsTour(w, store, t.kids, depth + 1, s1);
    }
    AddsBoth(s, s1, s2, [Event(t.id, depth, false)], mid);
    var s3 := WalkTree(w, store, t, depth, s);
    AddsBoth(s, s2, s3, [Event(t.id, depth, false)] + mid, [Event(t.id, depth, true)]);
  }

  lemma {:induction false} ForestFollowsTour(w: Walk, store: Store, ts: seq<Tree>, depth: nat, s: State)
    requires AllStored(store, ts)
    ensures Adds(s, WalkForest(w, store, ts, depth, s), TourAll(ts, depth))
    decreases ts
  {
    if ts == [] || s.outcome != Running {
    } else {
      var s1 := WalkTree(w, store, ts[0], depth, s);
      WalkFollowsTour(w, store, ts[0], depth, s);
      ForestFollowsTour(w, store, ts[1..], depth, s1);
      AddsBoth(s, s1, WalkForest(w, store, ts[1..], depth, s1), Tour(ts[0], depth), TourAll(ts[1..], depth));
    }
  }

  // ----------------------------------------------------------------------- no node twice, none missed

  lemma {:induction false} SubsequenceIn(a: seq<Event>, b: seq<Event>)
    requires Subsequence(a, b)
    ensures forall e :: e in a ==> e in b
    decreases |b|
  {
    if a != [] {
      if a[0] == b[0] && Subsequence(a[1..], b[1..]) {
        SubsequenceIn(a[1..], b[1..]);
        assert a == [a[0]] + a[1..];
      } else {
        SubsequenceIn(a, b[1..]);
      }
    }
  }

  lemma {:induction false} SubsequenceDistinct(a: seq<Event>, b: seq<Event>)
    requires Subsequence(a, b) && Distinct(b)
    ensures Distinct(a)
    decreases |b|
  {
    if a != [] {
      if a[0] == b[0] && Subsequence(a[1..], b[1..]) {
        SubsequenceDistinct(a[1..], b[1..]);
        SubsequenceIn(a[1..], b[1..]);
        forall i, j | 0 <= i < j < |a|
          ensures a[i] != a[j]
        {
          assert a[j] == a[1..][j - 1];
          if i == 0 {
            assert a[j] in b[1..];
          } else {
            assert a[i] == a[1..][i - 1];
          }
        }
      } else {
        SubsequenceDistinct(a, b[1..]);
      }
    }
  }

  lemma {:induction false} UpOnce(store: Store, g: Shape, root: Ptr, k: Ptr, n: nat)
    requires WellFormed(store, g, root) && k in g.kids && k in g.depth && n < g.depth[k]
    ensures Up(store, k, n) in store && Up(store, k, n + 1) == store[Up(store, k, n)].parent
    decreases n
  {
    assert HasParent(store, g, k) && NodeOk(store, g, root, k);
    var p := store[k].parent;
    var i :| 0 <= i < |g.kids[p]| && g.kids[p][i] == k;
    assert NodeOk(store, g, root, p) && KidOk(store, g, root, p, i);
    if n > 0 {
      UpOnce(store, g, root, p, n - 1);
    }
  }

  /** Every event of the tour of a subtree is about a node that lies under its top, at its depth. */
  ghost predicate Under(store: Store, g: Shape, p: Ptr, depth: nat, e: Event) {
    && e.id in g.depth && p in g.depth && g.depth[e.id] >= g.depth[p] && e.depth - depth == g.depth[e.id] - g.depth[p]
    && Up(store, e.id, g.depth[e.id] - g.depth[p]) == p
  }

  /** ... and strictly under it when it comes from one of its children. */
  lemma UnderKid(store: Store, g: Shape, root: Ptr, p: Ptr, i: nat, depth: nat, e: Event)
    requires WellFormed(store, g, root) && p in g.kids && p in g.depth && i < |g.kids[p]|
    requires Under(store, g, g.kids[p][i], depth + 1, e)
    ensures Under(store, g, p, depth, e) && g.depth[e.id] > g.depth[p]
  {
    assert NodeOk(store, g, root, p) && KidOk(store, g, root, p, i);
    UpOnce(store, g, root, e.id, g.depth[e.id] - g.depth[g.kids[p][i]]);
  }

  lemma {:induction false} TourInSome(ts: seq<Tree>, depth: nat, e: Event) returns (i: nat)
    requires e in TourAll(ts, depth)
    ensures i < |ts| && e in Tour(ts[i], depth)
    decreases |ts|
  {
    if e in Tour(ts[0], depth) {
      i := 0;
    } else {
      var j := TourInSome(ts[1..], depth, e);
      i := j + 1;
    }
  }

  lemma TourParts(t: Tree, depth: nat, e: Event)
    requires e in Tour(t, depth)
    ensures (e.id == t.id && e.depth == depth) || e in TourAll(t.kids, depth + 1)
  {
  }

  lemma {:induction false} TourUnder(store: Store, g: Shape, root: Ptr, h: nat, p: Ptr, depth: nat, e: Event)
    requires WellFormed(store, g, root) && Bounded(g, h) && p in g.kids && p in g.depth
    requires e in Tour(TreeOf(store, g, root, h, p), depth)
    ensures Under(store, g, p, depth, e)
    decreases h - g.depth[p]
  {
    var t := TreeOf(store, g, root, h, p);
    TourParts(t, depth, e);
    if e.id != p || e.depth != depth {
      var i := TourInSome(t.kids, depth + 1, e);
      TreeOfKid(store, g, root, h, p, i);
      TourUnder(store, g, root, h, g.kids[p][i], depth + 1, e);
      UnderKid(store, g, root, p, i, depth, e);
    }
  }

  lemma DistinctConcat(a: seq<Event>, b: seq<Event>)
    requires Distinct(a) && Distinct(b) && forall e :: e in a ==> e !in b
    ensures Distinct(a + b)
  {
    forall i, j | 0 <= i < j < |a + b|
      ensures (a + b)[i] != (a + b)[j]
    {
      if i < |a| <= j {
        assert (a + b)[i] in a && (a + b)[j] in b;
      }
    }
  }

  /** The tour of the installed tree has no event twice. */
  lemma {:induction false} TourDistinct(store: Store, g: Shape, root: Ptr, h: nat, p: Ptr, depth: nat)
    requires WellFormed(store, g, root) && Bounded(g, h) && p in g.kids && p in g.depth
    ensures Distinct(Tour(TreeOf(store, g, root, h, p), depth))
    decreases h - g.depth[p], |g.kids[p]| + 1
  {
    var t := TreeOf(store, g, root, h, p);
    TreeOfKids(store, g, root, h, p);
    var down, mid, up := [Event(p, depth, false)], TourAll(t.kids, depth + 1), [Event(p, depth, true)];
    assert t.kids[0..] == t.kids;
    KidsDistinct(store, g, root, h, p, depth + 1, 0);
    forall e | e in mid
      ensures e.id != p
    {
      KidsStrictlyUnder(store, g, root, h, p, depth, e);
    }
    DistinctConcat(down, mid);
    DistinctConcat(down + mid, up);
  }

  lemma KidsStrictlyUnder(store: Store, g: Shape, root: Ptr, h: nat, p: Ptr, depth: nat, e: Event)
    requires WellFormed(store, g, root) && Bounded(g, h) && p in g.kids && p in g.depth
    requires e in TourAll(TreeOf(store, g, root, h, p).kids, depth + 1)
    ensures e.id != p && Under(store, g, p, depth, e)
  {
    TreeOfKids(store, g, root, h, p);
    var i := TourInSome(TreeOf(store, g, root, h, p).kids, depth + 1, e);
    TourUnder(store, g, root, h, g.kids[p][i], depth + 1, e);
    UnderKid(store, g, root, p, i, depth, e);
  }

  lemma {:induction false} KidsDistinct(store: Store, g: Shape, root: Ptr, h: nat, p: Ptr, depth: nat, i: nat)
    requires WellFormed(store, g, root) && Bounded(g, h) && p in g.kids && p in g.depth && i <= |g.kids[p]|
    ensures |TreeOf(store, g, root, h, p).kids| == |g.kids[p]|
    ensures Distinct(TourAll(TreeOf(store, g, root, h, p).kids[i..], depth))
    decreases h - g.depth[p], |g.kids[p]| - i
  {
    TreeOfKids(store, g, root, h, p);
    var kids := TreeOf(store, g, root, h, p).kids;
    if i < |kids| {
      KidsDistinct(store, g, root, h, p, depth, i + 1);
      assert KidOk(store, g, root, p, i);
      TourDistinct(store, g, root, h, g.kids[p][i], depth);
      assert kids[i..][0] == kids[i] && kids[i..][1..] == kids[i + 1..];
      LaterApart(store, g, root, h, p, i, depth);
      DistinctConcat(Tour(kids[i], depth), TourAll(kids[i + 1..], depth));
    }
  }

  /** No event of a child's subtree belongs to those of the children behind it. */
  lemma LaterApart(store: Store, g: Shape, root: Ptr, h: nat, p: Ptr, i: nat, depth: nat)
    requires WellFormed(store, g, root) && Bounded(g, h) && p in g.kids && p in g.depth && i < |g.kids[p]|
    requires |TreeOf(store, g, root, h, p).kids| == |g.kids[p]|
    ensures var kids := TreeOf(store, g, root, h, p).kids;
            forall e :: e in Tour(kids[i], depth) ==> e !in TourAll(kids[i + 1..], depth)
  {
    var kids := TreeOf(store, g, root, h, p).kids;
    forall e | e in Tour(kids[i], depth)
      ensures e !in TourAll(kids[i + 1..], depth)
    {
      if e in TourAll(kids[i + 1..], depth) {
        var j := TourInSome(kids[i + 1..], depth, e);
        PeersApart(store, g, root, h, p, i, i + 1 + j, depth, e);
        assert false;
      }
    }
  }

  /** No event belongs to the subtrees of two children. */
  lemma PeersApart(store: Store, g: Shape, root: Ptr, h: nat, p: Ptr, i: nat, j: nat, depth: nat, e: Event)
    requires WellFormed(store, g, root) && Bounded(g, h) && p in g.kids && p in g.depth && i < j < |g.kids[p]|
    requires |TreeOf(store, g, root, h, p).kids| == |g.kids[p]|
    requires e in Tour(TreeOf(store, g, root, h, p).kids[i], depth)
    ensures e !in Tour(TreeOf(store, g, root, h, p).kids[j], depth)
  {
    TreeOfKids(store, g, root, h, p);
    assert NodeOk(store, g, root, p) && KidOk(store, g, root, p, i) && KidOk(store, g, root, p, j);
    if e in Tour(TreeOf(store, g, root, h, p).kids[j], depth) {
      TourUnder(store, g, root, h, g.kids[p][i], depth, e);
      TourUnder(store, g, root, h, g.kids[p][j], depth, e);
    }
  }

  /** What the walk below p sees is taken from the tour, without repetition. */
  lemma SeenFromTour(store: Store, g: Shape, root: Ptr, h: nat, p: Ptr, w: Walk, seen: seq<Event>)
    requires WellFormed(store, g, root) && Bounded(g, h) && p in g.kids && p in g.depth
    requires AllStored(store, TreeOf(store, g, root, h, p).kids)
    requires seen == WalkForest(w, store, TreeOf(store, g, root, h, p).kids, 1, State([], false, Running)).seen
    ensures Subsequence(seen, TourAll(TreeOf(store, g, root, h, p).kids, 1)) && Distinct(seen)
  {
    var kids := TreeOf(store, g, root, h, p).kids;
    ForestFollowsTour(w, store, kids, 1, State([], false, Running));
    assert seen[0..] == seen;
    assert kids[0..] == kids;
    KidsDistinct(store, g, root, h, p, 1, 0);
    SubsequenceDistinct(seen, TourAll(kids, 1));
  }

  /** On the installed tree no callback is invoked twice for one node in one direction. */
  lemma EachNodeOncePerDirection(store: Store, g: Shape, root: Ptr, h: nat, p: Ptr, w: Walk, seen: seq<Event>)
    requires WellFormed(store, g, root) && Bounded(g, h) && p in g.kids && p in g.depth
    requires AllStored(store, TreeOf(store, g, root, h, p).kids)
    requires seen == WalkForest(w, store, TreeOf(store, g, root, h, p).kids, 1, State([], false, Running)).seen
    ensures forall i, j :: 0 <= i < j < |seen| ==> seen[i].id != seen[j].id || seen[i].up != seen[j].up
    ensures forall i :: 0 <= i < |seen| ==> seen[i].id in g.depth && seen[i].depth + g.depth[p] == g.depth[seen[i].id]
  {
    SeenFromTour(store, g, root, h, p, w, seen);
    SubsequenceIn(seen, TourAll(TreeOf(store, g, root, h, p).kids, 1));
    forall i | 0 <= i < |seen|
      ensures Under(store, g, p, 0, seen[i])
    {
      KidsStrictlyUnder(store, g, root, h, p, 0, seen[i]);
    }
  }

  function If(c: bool, e: Event): seq<Event> { if c then [e] else [] }

  /** The calls of a walk whose callbacks always continue: nodes of other types are passed by, the subtree
      of a temporary node is left out of a permanent-only walk, and nothing lies below maxDepth. */
  ghost function Calls(w: Walk, store: Store, t: Tree, depth: nat): seq<Event>
    requires Stored(store, t)
    decreases t, 0
  {
    var wanted := store[t.id].obj.Some? && store[t.id].obj.value in w.mask;
    if wanted && w.permanentOnly && store[t.id].temporary then []
    else
      If(wanted && w.descending, Event(t.id, depth, false))
      + (if depth == w.maxDepth then [] else CallsAll(w, store, t.kids, depth + 1))
      + If(wanted && w.ascending, Event(t.id, depth, true))
  }

  ghost function CallsAll(w: Walk, store: Store, ts: seq<Tree>, depth: nat): seq<Event>
    requires AllStored(store, ts)
    decreases ts
  {
    if ts == [] then [] else Calls(w, store, ts[0], depth) + CallsAll(w, store, ts[1..], depth)
  }

  ghost predicate HasObjects(store: Store, t: Tree)
    requires Stored(store, t)
  {
    store[t.id].obj.Some? && forall i :: 0 <= i < |t.kids| ==> HasObjects(store, t.kids[i])
  }

  ghost predicate AlwaysContinues(w: Walk) { forall seen, e :: w.callback(seen, e) == Continue }

  lemma VisitContinues(w: Walk, store: Store, s: State, id: Ptr, depth: nat, up: bool)
    requires id in store && store[id].obj.Some? && AlwaysContinues(w)
    ensures var wanted := store[id].obj.value in w.mask;
            var cut := wanted && w.permanentOnly && store[id].temporary;
            var call := wanted && !cut && if up then w.ascending else w.descending;
            Visit(w, store, s, id, depth, up)
            == (State(s.seen + If(call, Event(id, depth, up)), wanted, s.outcome),
                if cut then NextPeer else Continue)
  {
    assert s.seen + [] == s.seen;
  }

  lemma ConcatFour(a: seq<Event>, b: seq<Event>, c: seq<Event>, d: seq<Event>)
    ensures a + b + c + d == a + (b + c + d)
  {
  }

  /** Nothing that matches is missed. */
  lemma {:induction false} WalkMissesNothing(w: Walk, store: Store, t: Tree, depth: nat, s: State)
    requires Stored(store, t) && HasObjects(store, t) && AlwaysContinues(w) && s.outcome == Running
    ensures WalkTree(w, store, t, depth, s).seen == s.seen + Calls(w, store, t, depth)
    ensures WalkTree(w, store, t, depth, s).outcome == Running
    decreases t, 0
  {
    var (s1, d) := Visit(w, store, s, t.id, depth, false);
    VisitContinues(w, store, s, t.id, depth, false);
    if d == Continue {
      var mid := if depth == w.maxDepth then [] else CallsAll(w, store, t.kids, depth + 1);
      var s2 := if depth == w.maxDepth then s1 else WalkForest(w, store, t.kids, depth + 1, s1);
      if depth != w.maxDepth {
        ForestMissesNothing(w, store, t.kids, depth + 1, s1);
      }
      assert s2.seen == s1.seen + mid && s2.outcome == Running;
      VisitContinues(w, store, s2, t.id, depth, true);
      var wanted := store[t.id].obj.value in w.mask;
      ConcatFour(s.seen, If(wanted && w.descending, Event(t.id, depth, false)), mid,
                 If(wanted && w.ascending, Event(t.id, depth, true)));
      assert WalkTree(w, store, t, depth, s) == Visit(w, store, s2, t.id, depth, true).0;
    } else {
      VisitContinues(w, store, s1, t.id, depth, true);
      assert WalkTree(w, store, t, depth, s) == Visit(w, store, s1, t.id, depth, true).0;
    }
  }

  lemma {:induction false} ForestMissesNothing(w: Walk, store: Store, ts: seq<Tree>, depth: nat, s: State)
    requires AllStored(store, ts) && (forall i :: 0 <= i < |ts| ==> HasObjects(store, ts[i]))
    requires AlwaysContinues(w) && s.outcome == Running
    ensures WalkForest(w, store, ts, depth, s).seen == s.seen + CallsAll(w, store, ts, depth)
    ensures WalkForest(w, store, ts, depth, s).outcome == Running
    decreases ts
  {
    if ts != [] {
      WalkMissesNothing(w, store, ts[0], depth, s);
      ForestMissesNothing(w, store, ts[1..], depth, WalkTree(w, store, ts[0], depth, s));
    }
  }

  // ------------------------------------------------------------------------------------------ max_depth

  ghost predicate NoDeeper(s: State, max: nat) { forall i :: 0 <= i < |s.seen| ==> s.seen[i].depth <= max }

  /** Nothing below maxDepth is shown. */
  lemma {:induction false} WalkStaysAbove(w: Walk, store: Store, t: Tree, depth: nat, s: State)
    requires Stored(store, t) && depth <= w.maxDepth && NoDeeper(s, w.maxDepth)
    ensures NoDeeper(WalkTree(w, store, t, depth, s), w.maxDepth)
    decreases t, 0
  {
    var (s1, d) := Visit(w, store, s, t.id, depth, false);
    if s1.outcome == Running && d == Continue && depth != w.maxDepth {
      ForestStaysAbove(w, store, t.kids, depth + 1, s1);
    }
  }

  lemma {:induction false} ForestStaysAbove(w: Walk, store: Store, ts: seq<Tree>, depth: nat, s: State)
    requires AllStored(store, ts) && depth <= w.maxDepth && NoDeeper(s, w.maxDepth)
    ensures NoDeeper(WalkForest(w, store, ts, depth, s), w.maxDepth)
    decreases ts
  {
    if ts != [] && s.outcome == Running {
      WalkStaysAbove(w, store, ts[0], depth, s);
      ForestStaysAbove(w, store, ts[1..], depth, WalkTree(w, store, ts[0], depth, s));
    }
  }
}
