/** What the answers of the callbacks do to the walk of `NamespaceWalk`, told by the invocations alone. */
module NamespaceAnswers {
  import opened Options
  import opened NamespaceTree
  import opened Sequences
  import opened NamespaceWalk
  import opened NamespaceOrder

  /** The answer to the i-th invocation. */
  function Answer(w: Walk, seen: seq<Event>, i: nat): Decision
    requires i < |seen|
  {
    w.callback(seen[..i], seen[i])
  }

  // ----------------------------------------------------------------------------------- the end of the walk

  /** What the i-th answer makes of the walk. */
  function Verdict(w: Walk, seen: seq<Event>, i: nat): Outcome
    requires i < |seen|
  {
    match Answer(w, seen, i)
    case Break => Stopped
    case Invalid => if seen[i].up then Running else InvalidArgument
    case _ => Running
  }

  /** No answer but the last one ends the walk, and the outcome is what the last one makes of it. */
  ghost predicate EndsAtLast(w: Walk, s: State) {
    && (forall i :: 0 <= i < |s.seen| - 1 ==> Verdict(w, s.seen, i) == Running)
    && s.outcome == if s.seen == [] then Running else Verdict(w, s.seen, |s.seen| - 1)
  }

  lemma EndsWith(w: Walk, s: State, e: Event, s': State)
    requires EndsAtLast(w, s) && s.outcome == Running && s'.seen == s.seen + [e]
    requires s'.outcome == Verdict(w, s'.seen, |s.seen|)
    ensures EndsAtLast(w, s')
  {
    forall i | 0 <= i < |s'.seen| - 1
      ensures Verdict(w, s'.seen, i) == Running
    {
      assert s'.seen[..i] == s.seen[..i];
      assert Verdict(w, s.seen, i) == Running;
    }
  }

  lemma VisitEnds(w: Walk, store: Store, s: State, id: Ptr, depth: nat, up: bool)
    requires id in store && EndsAtLast(w, s) && s.outcome == Running
    ensures var (s1, d) := Visit(w, store, s, id, depth, up);
            && (d == Invalid ==> s1.outcome == Running)
            && EndsAtLast(w, if d == Invalid && !up then s1.(outcome := InvalidArgument) else s1)
  {
    var (s1, d) := Visit(w, store, s, id, depth, up);
    if s1.seen != s.seen {
      var e := Event(id, depth, up);
      assert s1.seen[..|s.seen|] == s.seen && Answer(w, s1.seen, |s.seen|) == d;
      EndsWith(w, s, e, if d == Invalid && !up then s1.(outcome := InvalidArgument) else s1);
    }
  }

  lemma {:induction false} TreeEnds(w: Walk, store: Store, t: Tree, depth: nat, s: State)
    requires Stored(store, t) && EndsAtLast(w, s) && s.outcome == Running
    ensures EndsAtLast(w, WalkTree(w, store, t, depth, s))
    decreases t, 0
  {
    var (s1, d) := Visit(w, store, s, t.id, depth, false);
    VisitEnds(w, store, s, t.id, depth, false);
    if s1.outcome == Running && d != Invalid {
      var s2 := s1;
      if d == Continue && depth != w.maxDepth {
        s2 := WalkForest(w, store, t.kids, depth + 1, s1);
        ForestEnds(w, store, t.kids, depth + 1, s1);
      }
      if s2.outcome == Running {
        VisitEnds(w, store, s2, t.id, depth, true);
      }
    }
  }

  lemma {:induction false} ForestEnds(w: Walk, store: Store, ts: seq<Tree>, depth: nat, s: State)
    requires AllStored(store, ts) && EndsAtLast(w, s)
    ensures EndsAtLast(w, WalkForest(w, store, ts, depth, s))
    decreases ts
  {
    if ts != [] && s.outcome == Running {
      TreeEnds(w, store, ts[0], depth, s);
      ForestEnds(w, store, ts[1..], depth, WalkTree(w, store, ts[0], depth, s));
    }
  }

  // ------------------------------------------------------------------------------ what the walk owes

  /** The callback answered d when it was shown e. */
  ghost predicate Answered(w: Walk, seen: seq<Event>, e: Event, d: Decision) {
    exists i :: 0 <= i < |seen| && seen[i] == e && Answer(w, seen, i) == d
  }

  /** Whether a node is of a type that is asked for; one without an object goes with the node before it. */
  function Matching(w: Walk, store: Store, id: Ptr, before: bool): bool
    requires id in store
  {
    match store[id].obj case None => before case Some(t) => t in w.mask
  }

  predicate Hidden(w: Walk, store: Store, id: Ptr)
    requires id in store
  {
    w.permanentOnly && store[id].temporary
  }

  /** The subtree below is passed by: the node is hidden, it lies at maxDepth, or the callback said so. */
  ghost predicate PassedBy(w: Walk, store: Store, id: Ptr, depth: nat, seen: seq<Event>, matching: bool)
    requires id in store
  {
    || (matching && Hidden(w, store, id))
    || depth == w.maxDepth
    || (matching && w.descending && Answered(w, seen, Event(id, depth, false), NextPeer))
  }

  /** The invocations for a subtree, given all invocations of the walk; before and after is whether the node before
      was matching. */
  ghost function Owed(w: Walk, store: Store, t: Tree, depth: nat, seen: seq<Event>, before: bool): (seq<Event>, bool)
    requires Stored(store, t)
    decreases t, 0
  {
    var m := Matching(w, store, t.id, before);
    var (mid, last) := if PassedBy(w, store, t.id, depth, seen, m) then ([], m)
                       else OwedAll(w, store, t.kids, depth + 1, seen, m);
    var m' := Matching(w, store, t.id, last);
    (If(m && !Hidden(w, store, t.id) && w.descending, Event(t.id, depth, false)) + mid
     + If(m' && !Hidden(w, store, t.id) && w.ascending, Event(t.id, depth, true)), m')
  }

  ghost function OwedAll(w: Walk, store: Store, ts: seq<Tree>, depth: nat, seen: seq<Event>,
                         before: bool): (seq<Event>, bool)
    requires AllStored(store, ts)
    decreases ts
  {
    if ts == [] then ([], before)
    else
      var (first, m) := Owed(w, store, ts[0], depth, seen, before);
      var (rest, m') := OwedAll(w, store, ts[1..], depth, seen, m);
      (first + rest, m')
  }

  /** From s to s' the walk has shown what it owed, or the first part of it if it is over. */
  ghost predicate Shows(s: State, s': State, owed: (seq<Event>, bool)) {
    if s'.outcome == Running then s'.seen == s.seen + owed.0 && s'.matches == owed.1
    else s.seen <= s'.seen && s'.seen[|s.seen|..] <= owed.0
  }

  lemma AnsweredNow(w: Walk, before: seq<Event>, e: Event, seen: seq<Event>, d: Decision)
    requires before + [e] <= seen && Distinct(seen)
    ensures Answered(w, seen, e, d) <==> w.callback(before, e) == d
  {
    var i := |before|;
    assert seen[i] == (before + [e])[i] == e;
    assert seen[..i] == (before + [e])[..i] == before;
    assert Answer(w, seen, i) == w.callback(before, e);
  }

  /** The way down through a node shows it if it is owed, and the answer says whether its subtree is passed by. */
  lemma DownShows(w: Walk, store: Store, id: Ptr, depth: nat, s: State, seen: seq<Event>)
    requires id in store && s.outcome == Running && Distinct(seen)
    ensures var (s1, d) := Visit(w, store, s, id, depth, false);
            var m := Matching(w, store, id, s.matches);
            && s1.seen == s.seen + If(m && !Hidden(w, store, id) && w.descending, Event(id, depth, false))
            && s1.matches == m
            && (s1.seen <= seen && s1.outcome == Running && d != Invalid ==>
                  (PassedBy(w, store, id, depth, seen, m) <==> d == NextPeer || depth == w.maxDepth))
            && (d == Break ==> s1.outcome == Stopped)
  {
    var (s1, d) := Visit(w, store, s, id, depth, false);
    var e := Event(id, depth, false);
    if s1.seen == s.seen + [e] && s1.seen <= seen {
      AnsweredNow(w, s.seen, e, seen, NextPeer);
    }
    assert s.seen + [] == s.seen;
  }

  lemma {:induction false} TreeShows(w: Walk, store: Store, t: Tree, depth: nat, s: State, seen: seq<Event>)
    requires Stored(store, t) && s.outcome == Running && Distinct(seen)
    requires WalkTree(w, store, t, depth, s).seen <= seen
    ensures Shows(s, WalkTree(w, store, t, depth, s), Owed(w, store, t, depth, seen, s.matches))
    decreases t, 0
  {
    var (s1, d) := Visit(w, store, s, t.id, depth, false);
    DownShows(w, store, t.id, depth, s, seen);
    if s1.outcome != Running || d == Invalid {
      OwedStarts(w, store, t, depth, seen, s.matches);
    } else if d == Continue && depth != w.maxDepth {
      var s2 := WalkForest(w, store, t.kids, depth + 1, s1);
      GrowsTwice(w, store, t, depth, s1, s2, Ascend(w, store, t.id, depth, s2));
      ForestShows(w, store, t.kids, depth + 1, s1, seen);
      TreeCloses(w, store, t, depth, s, s1, s2, seen);
    } else {
      TreeCloses(w, store, t, depth, s, s1, s1, seen);
    }
  }

  lemma OwedStarts(w: Walk, store: Store, t: Tree, depth: nat, seen: seq<Event>, before: bool)
    requires Stored(store, t)
    ensures var down := If(Matching(w, store, t.id, before) && !Hidden(w, store, t.id) && w.descending,
                           Event(t.id, depth, false));
            down <= Owed(w, store, t, depth, seen, before).0
  {
  }

  /** The way up, after what lies below. */
  lemma TreeCloses(w: Walk, store: Store, t: Tree, depth: nat, s: State, s1: State, s2: State, seen: seq<Event>)
    requires Stored(store, t)
    requires var m := Matching(w, store, t.id, s.matches);
             && s1.matches == m
             && s1.seen == s.seen + If(m && !Hidden(w, store, t.id) && w.descending, Event(t.id, depth, false))
             && if PassedBy(w, store, t.id, depth, seen, m) then s2 == s1
                else Shows(s1, s2, OwedAll(w, store, t.kids, depth + 1, seen, m))
    requires s1.outcome == Running
    ensures Shows(s, Ascend(w, store, t.id, depth, s2), Owed(w, store, t, depth, seen, s.matches))
  {
    var m := Matching(w, store, t.id, s.matches);
    var down := If(m && !Hidden(w, store, t.id) && w.descending, Event(t.id, depth, false));
    var mid := if PassedBy(w, store, t.id, depth, seen, m) then ([], m)
               else OwedAll(w, store, t.kids, depth + 1, seen, m);
    Closing(w, store, t, depth, s, s1, s2, Ascend(w, store, t.id, depth, s2), down, mid);
  }

  /** The invocations so far are a prefix of those at the end. */
  lemma GrowsTwice(w: Walk, store: Store, t: Tree, depth: nat, s1: State, s2: State, s': State)
    requires Stored(store, t)
    requires s2 == s1 || s2 == WalkForest(w, store, t.kids, depth + 1, s1)
    requires s' == Ascend(w, store, t.id, depth, s2)
    ensures s1.seen <= s2.seen <= s'.seen
  {
    ForestFollowsTour(w, store, t.kids, depth + 1, s1);
  }

  /** Down, below and up together. */
  lemma Closing(w: Walk, store: Store, t: Tree, depth: nat, s: State, s1: State, s2: State, s': State, down: seq<Event>,
                mid: (seq<Event>, bool))
    requires Stored(store, t) && s1.seen == s.seen + down && Shows(s1, s2, mid)
    requires s' == Ascend(w, store, t.id, depth, s2)
    ensures var m := Matching(w, store, t.id, mid.1);
            Shows(s, s', (down + mid.0 + If(m && !Hidden(w, store, t.id) && w.ascending, Event(t.id, depth, true)), m))
  {
    var m := Matching(w, store, t.id, mid.1);
    var up := If(m && !Hidden(w, store, t.id) && w.ascending, Event(t.id, depth, true));
    if s2.outcome == Running {
      assert s'.seen == s2.seen + up;
      assert s'.seen == s.seen + (down + mid.0 + up);
    } else {
      var added := s2.seen[|s1.seen|..];
      assert s'.seen == s2.seen == s.seen + (down + added);
      assert down + added <= down + mid.0 + up;
    }
  }

  lemma {:induction false} ForestShows(w: Walk, store: Store, ts: seq<Tree>, depth: nat, s: State, seen: seq<Event>)
    requires AllStored(store, ts) && s.outcome == Running && Distinct(seen)
    requires WalkForest(w, store, ts, depth, s).seen <= seen
    ensures Shows(s, WalkForest(w, store, ts, depth, s), OwedAll(w, store, ts, depth, seen, s.matches))
    decreases ts
  {
    if ts != [] {
      var s1 := WalkTree(w, store, ts[0], depth, s);
      var s' := WalkForest(w, store, ts[1..], depth, s1);
      ForestFollowsTour(w, store, ts[1..], depth, s1);
      TreeShows(w, store, ts[0], depth, s, seen);
      var first := Owed(w, store, ts[0], depth, seen, s.matches);
      var rest := OwedAll(w, store, ts[1..], depth, seen, first.1);
      if s1.outcome == Running {
        ForestShows(w, store, ts[1..], depth, s1, seen);
        ShowsBoth(s, s1, s', first.0, rest);
      } else {
        assert first.0 <= first.0 + rest.0;
      }
    }
  }

  lemma ShowsBoth(s: State, s1: State, s': State, first: seq<Event>, rest: (seq<Event>, bool))
    requires s1.seen == s.seen + first && Shows(s1, s', rest)
    ensures Shows(s, s', (first + rest.0, rest.1))
  {
    if s'.outcome == Running {
      assert s'.seen == s.seen + (first + rest.0);
    } else {
      assert s'.seen == s.seen + (first + s'.seen[|s1.seen|..]);
    }
  }

  // --------------------------------------------------------------------------- told by the invocations

  lemma {:induction false} OwedFollowsTour(w: Walk, store: Store, t: Tree, depth: nat, seen: seq<Event>, before: bool)
    requires Stored(store, t)
    ensures Subsequence(Owed(w, store, t, depth, seen, before).0, Tour(t, depth))
    decreases t, 0
  {
    var m := Matching(w, store, t.id, before);
    var tour := TourAll(t.kids, depth + 1);
    var mid := if PassedBy(w, store, t.id, depth, seen, m) then ([], m)
               else OwedAll(w, store, t.kids, depth + 1, seen, m);
    if !PassedBy(w, store, t.id, depth, seen, m) {
      OwedAllFollowsTour(w, store, t.kids, depth + 1, seen, m);
    }
    var m' := Matching(w, store, t.id, mid.1);
    var e, e' := Event(t.id, depth, false), Event(t.id, depth, true);
    var down := If(m && !Hidden(w, store, t.id) && w.descending, e);
    var up := If(m' && !Hidden(w, store, t.id) && w.ascending, e');
    SubsequenceConcat(down, [e], mid.0, tour);
    SubsequenceConcat(down + mid.0, [e] + tour, up, [e']);
  }

  lemma {:induction false} OwedAllFollowsTour(w: Walk, store: Store, ts: seq<Tree>, depth: nat, seen: seq<Event>,
                                              before: bool)
    requires AllStored(store, ts)
    ensures Subsequence(OwedAll(w, store, ts, depth, seen, before).0, TourAll(ts, depth))
    decreases ts
  {
    if ts != [] {
      var (first, m) := Owed(w, store, ts[0], depth, seen, before);
      OwedFollowsTour(w, store, ts[0], depth, seen, before);
      OwedAllFollowsTour(w, store, ts[1..], depth, seen, m);
      SubsequenceConcat(first, Tour(ts[0], depth), OwedAll(w, store, ts[1..], depth, seen, m).0,
                        TourAll(ts[1..], depth));
    }
  }

  /** Whether the node before the i-th subtree was matching. */
  ghost function Carried(w: Walk, store: Store, ts: seq<Tree>, depth: nat, seen: seq<Event>, before: bool, i: nat): bool
    requires AllStored(store, ts) && i <= |ts|
    decreases i
  {
    if i == 0 then before
    else Carried(w, store, ts[1..], depth, seen, Owed(w, store, ts[0], depth, seen, before).1, i - 1)
  }

  lemma {:induction false} OwedInSome(w: Walk, store: Store, ts: seq<Tree>, depth: nat, seen: seq<Event>, before: bool,
                                      e: Event) returns (i: nat)
    requires AllStored(store, ts) && e in OwedAll(w, store, ts, depth, seen, before).0
    ensures i < |ts| && e in Owed(w, store, ts[i], depth, seen, Carried(w, store, ts, depth, seen, before, i)).0
    decreases |ts|
  {
    var (first, m) := Owed(w, store, ts[0], depth, seen, before);
    if e in first {
      i := 0;
    } else {
      var j := OwedInSome(w, store, ts[1..], depth, seen, m, e);
      i := j + 1;
    }
  }

  lemma {:induction false} OwedBySome(w: Walk, store: Store, ts: seq<Tree>, depth: nat, seen: seq<Event>, before: bool,
                                      i: nat, e: Event)
    requires AllStored(store, ts) && i < |ts|
    requires e in Owed(w, store, ts[i], depth, seen, Carried(w, store, ts, depth, seen, before, i)).0
    ensures e in OwedAll(w, store, ts, depth, seen, before).0
    decreases |ts|
  {
    if i > 0 {
      var m := Owed(w, store, ts[0], depth, seen, before).1;
      OwedBySome(w, store, ts[1..], depth, seen, m, i - 1, e);
    }
  }

  /** q lies n levels below p. */
  ghost predicate Below(store: Store, g: Shape, p: Ptr, n: nat, q: Ptr) {
    p in g.depth && q in g.depth && g.depth[q] == g.depth[p] + n && Up(store, q, n) == p
  }

  lemma {:induction false} UpUp(store: Store, q: Ptr, k: nat, n: nat)
    requires forall i :: 0 <= i < k ==> Up(store, q, i) in store
    ensures Up(store, Up(store, q, k), n) == Up(store, q, k + n)
    decreases k
  {
    if k > 0 {
      assert Up(store, q, 0) in store;
      forall i | 0 <= i < k - 1
        ensures Up(store, store[q].parent, i) in store
      {
        assert Up(store, q, i + 1) == Up(store, store[q].parent, i);
      }
      UpUp(store, store[q].parent, k - 1, n);
    }
  }

  lemma {:induction false} UpInstalled(store: Store, g: Shape, root: Ptr, q: Ptr, k: nat)
    requires WellFormed(store, g, root) && q in g.kids && q in g.depth && k <= g.depth[q]
    ensures Up(store, q, k) in g.kids && Up(store, q, k) in store && Below(store, g, Up(store, q, k), k, q)
    decreases k
  {
    assert NodeOk(store, g, root, q);
    if k > 0 {
      assert HasParent(store, g, q);
      var p := store[q].parent;
      var i :| 0 <= i < |g.kids[p]| && g.kids[p][i] == q;
      assert NodeOk(store, g, root, p) && KidOk(store, g, root, p, i);
      UpInstalled(store, g, root, p, k - 1);
    }
  }

  /** Going up in two parts. */
  lemma UpParts(store: Store, g: Shape, root: Ptr, q: Ptr, k: nat, n: nat)
    requires WellFormed(store, g, root) && q in g.kids && q in g.depth && k <= g.depth[q]
    ensures Up(store, Up(store, q, k), n) == Up(store, q, k + n)
  {
    forall i | 0 <= i < k
      ensures Up(store, q, i) in store
    {
      UpInstalled(store, g, root, q, i);
    }
    UpUp(store, q, k, n);
  }

  /** An invocation for a node below that of e belongs to the same child of p as e. */
  lemma SameKid(store: Store, g: Shape, root: Ptr, h: nat, p: Ptr, depth: nat, i: nat, j: nat, e: Event, n: nat,
                e': Event)
    requires WellFormed(store, g, root) && Bounded(g, h) && p in g.kids && p in g.depth
    requires i < |g.kids[p]| && j < |g.kids[p]| && g.kids[p][i] in g.kids && g.kids[p][j] in g.kids
    requires Under(store, g, g.kids[p][i], depth, e) && Under(store, g, g.kids[p][j], depth, e')
    requires e'.id in g.kids && Below(store, g, e.id, n, e'.id)
    ensures i == j
  {
    assert NodeOk(store, g, root, p) && KidOk(store, g, root, p, i) && KidOk(store, g, root, p, j);
    UpParts(store, g, root, e'.id, n, g.depth[e.id] - g.depth[p] - 1);
  }

  /** An invocation that is owed is about a node under the top of the subtree; its own ones are the first and last. */
  lemma OwedIsUnder(store: Store, g: Shape, root: Ptr, h: nat, p: Ptr, w: Walk, depth: nat, seen: seq<Event>,
                    before: bool, e: Event)
    requires WellFormed(store, g, root) && Bounded(g, h) && p in g.kids && p in g.depth
    requires Stored(store, TreeOf(store, g, root, h, p))
    requires e in Owed(w, store, TreeOf(store, g, root, h, p), depth, seen, before).0
    ensures Under(store, g, p, depth, e) && e.id in g.kids
  {
    var t := TreeOf(store, g, root, h, p);
    OwedFollowsTour(w, store, t, depth, seen, before);
    SubsequenceIn(Owed(w, store, t, depth, seen, before).0, Tour(t, depth));
    TourUnder(store, g, root, h, p, depth, e);
  }

  lemma OwedBelow(store: Store, g: Shape, root: Ptr, h: nat, p: Ptr, w: Walk, depth: nat, seen: seq<Event>,
                  before: bool, e: Event) returns (m: bool)
    requires WellFormed(store, g, root) && Bounded(g, h) && p in g.kids && p in g.depth
    requires Stored(store, TreeOf(store, g, root, h, p))
    requires e in Owed(w, store, TreeOf(store, g, root, h, p), depth, seen, before).0
    ensures p in store && m == Matching(w, store, p, before)
    ensures e.id != p ==>
              && !PassedBy(w, store, p, depth, seen, m)
              && e in OwedAll(w, store, TreeOf(store, g, root, h, p).kids, depth + 1, seen, m).0
    ensures e.id == p && !e.up ==> m && w.descending && e == Event(p, depth, false)
  {
    var t := TreeOf(store, g, root, h, p);
    TreeOfKids(store, g, root, h, p);
    m := Matching(w, store, p, before);
    OwedIsUnder(store, g, root, h, p, w, depth, seen, before, e);
    if !PassedBy(w, store, p, depth, seen, m) && e in OwedAll(w, store, t.kids, depth + 1, seen, m).0 {
      OwedAllFollowsTour(w, store, t.kids, depth + 1, seen, m);
      SubsequenceIn(OwedAll(w, store, t.kids, depth + 1, seen, m).0, TourAll(t.kids, depth + 1));
      KidsStrictlyUnder(store, g, root, h, p, depth, e);
    }
  }

  /** A node whose subtree the callback passed by has no invocation for a node below it. */
  lemma {:induction false} OwedSkips(store: Store, g: Shape, root: Ptr, h: nat, p: Ptr, w: Walk, depth: nat,
                                     seen: seq<Event>, before: bool, e: Event, n: nat, e': Event)
    requires WellFormed(store, g, root) && Bounded(g, h) && p in g.kids && p in g.depth
    requires Stored(store, TreeOf(store, g, root, h, p))
    requires var owed := Owed(w, store, TreeOf(store, g, root, h, p), depth, seen, before).0;
             e in owed && e' in owed
    requires !e.up && n > 0 && Below(store, g, e.id, n, e'.id)
    ensures !Answered(w, seen, e, NextPeer)
    decreases h - g.depth[p]
  {
    var t := TreeOf(store, g, root, h, p);
    TreeOfKids(store, g, root, h, p);
    OwedIsUnder(store, g, root, h, p, w, depth, seen, before, e);
    OwedIsUnder(store, g, root, h, p, w, depth, seen, before, e');
    var m := OwedBelow(store, g, root, h, p, w, depth, seen, before, e);
    var _ := OwedBelow(store, g, root, h, p, w, depth, seen, before, e');
    if e.id != p {
      KidSkips(store, g, root, h, p, w, depth, seen, m, e, n, e');
    }
  }

  lemma {:induction false} KidSkips(store: Store, g: Shape, root: Ptr, h: nat, p: Ptr, w: Walk, depth: nat,
                                    seen: seq<Event>, m: bool, e: Event, n: nat, e': Event)
    requires WellFormed(store, g, root) && Bounded(g, h) && p in g.kids && p in g.depth
    requires AllStored(store, TreeOf(store, g, root, h, p).kids)
    requires var owed := OwedAll(w, store, TreeOf(store, g, root, h, p).kids, depth + 1, seen, m).0;
             e in owed && e' in owed
    requires !e.up && n > 0 && Below(store, g, e.id, n, e'.id)
    ensures !Answered(w, seen, e, NextPeer)
    decreases h - g.depth[p], 0
  {
    var kids := TreeOf(store, g, root, h, p).kids;
    TreeOfKids(store, g, root, h, p);
    var i := OwedInSome(w, store, kids, depth + 1, seen, m, e);
    var j := OwedInSome(w, store, kids, depth + 1, seen, m, e');
    assert KidOk(store, g, root, p, i) && KidOk(store, g, root, p, j);
    var mi, mj := Carried(w, store, kids, depth + 1, seen, m, i), Carried(w, store, kids, depth + 1, seen, m, j);
    OwedIsUnder(store, g, root, h, g.kids[p][i], w, depth + 1, seen, mi, e);
    OwedIsUnder(store, g, root, h, g.kids[p][j], w, depth + 1, seen, mj, e');
    SameKid(store, g, root, h, p, depth + 1, i, j, e, n, e');
    OwedSkips(store, g, root, h, g.kids[p][i], w, depth + 1, seen, mi, e, n, e');
  }

  /** The node is of a type that is asked for, it is not hidden, and there is a callback for the direction. */
  predicate Wanted(w: Walk, store: Store, q: Ptr, up: bool)
    requires q in store
  {
    && store[q].obj.Some? && store[q].obj.value in w.mask && !Hidden(w, store, q)
    && if up then w.ascending else w.descending
  }

  /** Nothing at node a, at that depth, keeps the walk from going below it. */
  ghost predicate Opens(w: Walk, store: Store, a: Ptr, depth: nat, seen: seq<Event>) {
    && a in store && depth != w.maxDepth && !Answered(w, seen, Event(a, depth, false), NextPeer)
    && (Hidden(w, store, a) ==> store[a].obj.Some? && store[a].obj.value !in w.mask)
  }

  /** The nodes above q, less than n levels, are open; q lies at that depth. */
  ghost predicate WayIsOpen(w: Walk, store: Store, q: Ptr, n: nat, depth: nat, seen: seq<Event>) {
    forall k :: 0 < k < n && k <= depth ==> Opens(w, store, Up(store, q, k), depth - k, seen)
  }

  lemma {:induction false} WantedIsOwed(store: Store, g: Shape, root: Ptr, h: nat, p: Ptr, w: Walk, depth: nat,
                                        seen: seq<Event>, before: bool, q: Ptr, n: nat, up: bool)
    requires WellFormed(store, g, root) && Bounded(g, h) && p in g.kids && p in g.depth
    requires Stored(store, TreeOf(store, g, root, h, p))
    requires q in g.kids && q in store && Below(store, g, p, n, q) && Wanted(w, store, q, up)
    requires WayIsOpen(w, store, q, n + 1, depth + n, seen)
    ensures Event(q, depth + n, up) in Owed(w, store, TreeOf(store, g, root, h, p), depth, seen, before).0
    decreases h - g.depth[p], 1
  {
    TreeOfKids(store, g, root, h, p);
    if n > 0 {
      assert Opens(w, store, Up(store, q, n), depth, seen);
      KidOwes(store, g, root, h, p, w, depth, seen, Matching(w, store, p, before), q, n, up);
    }
  }

  lemma KidTowards(store: Store, g: Shape, root: Ptr, p: Ptr, n: nat, q: Ptr) returns (i: nat)
    requires WellFormed(store, g, root) && p in g.kids && p in g.depth && q in g.kids
    requires n > 0 && Below(store, g, p, n, q)
    ensures i < |g.kids[p]| && KidOk(store, g, root, p, i) && Below(store, g, g.kids[p][i], n - 1, q)
  {
    var r := Up(store, q, n - 1);
    UpInstalled(store, g, root, q, n - 1);
    UpOnce(store, g, root, q, n - 1);
    assert HasParent(store, g, r) && NodeOk(store, g, root, p);
    i :| 0 <= i < |g.kids[p]| && g.kids[p][i] == r;
  }

  lemma {:induction false} KidOwes(store: Store, g: Shape, root: Ptr, h: nat, p: Ptr, w: Walk, depth: nat,
                                   seen: seq<Event>, m: bool, q: Ptr, n: nat, up: bool)
    requires WellFormed(store, g, root) && Bounded(g, h) && p in g.kids && p in g.depth
    requires AllStored(store, TreeOf(store, g, root, h, p).kids)
    requires q in g.kids && q in store && n > 0 && Below(store, g, p, n, q) && Wanted(w, store, q, up)
    requires WayIsOpen(w, store, q, n, depth + n, seen)
    ensures Event(q, depth + n, up) in OwedAll(w, store, TreeOf(store, g, root, h, p).kids, depth + 1, seen, m).0
    decreases h - g.depth[p], 0
  {
    var i := KidTowards(store, g, root, p, n, q);
    TreeOfKid(store, g, root, h, p, i);
    var kids := TreeOf(store, g, root, h, p).kids;
    var mi := Carried(w, store, kids, depth + 1, seen, m, i);
    WantedIsOwed(store, g, root, h, g.kids[p][i], w, depth + 1, seen, mi, q, n - 1, up);
    OwedBySome(w, store, kids, depth + 1, seen, m, i, Event(q, depth + n, up));
  }

  lemma {:induction false} SubsequenceOfItself(a: seq<Event>)
    ensures Subsequence(a, a)
    decreases |a|
  {
    if a != [] {
      SubsequenceOfItself(a[1..]);
    }
  }

  lemma {:induction false} SubsequenceOne(e: Event, b: seq<Event>)
    requires e in b
    ensures Subsequence([e], b)
    decreases |b|
  {
    if e != b[0] {
      SubsequenceOne(e, b[1..]);
    }
  }

  lemma {:induction false} SubsequenceTrans(a: seq<Event>, b: seq<Event>, c: seq<Event>)
    requires Subsequence(a, b) && Subsequence(b, c)
    ensures Subsequence(a, c)
    decreases |c|
  {
    if a != [] {
      if b[0] == c[0] && Subsequence(b[1..], c[1..]) {
        if a[0] == b[0] && Subsequence(a[1..], b[1..]) {
          SubsequenceTrans(a[1..], b[1..], c[1..]);
        } else {
          SubsequenceTrans(a, b[1..], c[1..]);
        }
      } else {
        SubsequenceTrans(a, b, c[1..]);
      }
    }
  }

  /** No invocation is about a node below one at which a callback answered NextPeer on the way down. */
  ghost predicate Skips(store: Store, g: Shape, w: Walk, seen: seq<Event>) {
    forall i, j, n: nat {:trigger Answer(w, seen, i), Below(store, g, seen[i].id, n, seen[j].id)} ::
      0 <= i < |seen| && 0 <= j < |seen| && !seen[i].up && Answer(w, seen, i) == NextPeer && n > 0 ==>
        !Below(store, g, seen[i].id, n, seen[j].id)
  }

  /** Every node n levels below the start, down to maxDepth, that is wanted and that the walk is not kept from, is shown
      in either direction, unless the walk was over before its turn in the tour. */
  ghost predicate MissesNothing(store: Store, g: Shape, w: Walk, start: Ptr, s: State, tour: seq<Event>) {
    forall q, n: nat, up {:trigger Below(store, g, start, n, q), Wanted(w, store, q, up)} ::
      && q in g.kids && q in store && n > 0 && Below(store, g, start, n, q) && Wanted(w, store, q, up)
      && WayIsOpen(w, store, q, n, n, s.seen)
      ==> var e := Event(q, n, up);
          e in s.seen || (s.outcome != Running && Subsequence(s.seen + [e], tour))
  }

  /** What the walk on the installed tree owes is what it shows, as far as it gets. */
  ghost predicate OnTree(store: Store, g: Shape, root: Ptr, h: nat, p: Ptr, w: Walk, s: State) {
    && WellFormed(store, g, root) && Bounded(g, h) && p in g.kids && p in g.depth
    && AllStored(store, TreeOf(store, g, root, h, p).kids)
    && s == WalkForest(w, store, TreeOf(store, g, root, h, p).kids, 1, State([], false, Running))
  }

  lemma WalkShowsOwed(store: Store, g: Shape, root: Ptr, h: nat, p: Ptr, w: Walk, s: State)
    requires OnTree(store, g, root, h, p, w, s)
    ensures var owed := OwedAll(w, store, TreeOf(store, g, root, h, p).kids, 1, s.seen, false).0;
            s.seen <= owed && (s.outcome == Running ==> s.seen == owed)
  {
    SeenFromTour(store, g, root, h, p, w, s.seen);
    ForestShows(w, store, TreeOf(store, g, root, h, p).kids, 1, State([], false, Running), s.seen);
    assert s.seen[0..] == s.seen;
  }

  lemma WalkSkips(store: Store, g: Shape, root: Ptr, h: nat, p: Ptr, w: Walk, s: State)
    requires OnTree(store, g, root, h, p, w, s)
    ensures Skips(store, g, w, s.seen)
  {
    WalkShowsOwed(store, g, root, h, p, w, s);
    forall i, j, n: nat | 0 <= i < |s.seen| && 0 <= j < |s.seen| && !s.seen[i].up && n > 0
                          && Below(store, g, s.seen[i].id, n, s.seen[j].id)
      ensures Answer(w, s.seen, i) != NextPeer
    {
      KidSkips(store, g, root, h, p, w, 0, s.seen, false, s.seen[i], n, s.seen[j]);
    }
  }

  lemma WalkMisses(store: Store, g: Shape, root: Ptr, h: nat, p: Ptr, w: Walk, s: State)
    requires OnTree(store, g, root, h, p, w, s)
    ensures MissesNothing(store, g, w, p, s, TourAll(TreeOf(store, g, root, h, p).kids, 1))
  {
    var kids := TreeOf(store, g, root, h, p).kids;
    var owed := OwedAll(w, store, kids, 1, s.seen, false).0;
    WalkShowsOwed(store, g, root, h, p, w, s);
    OwedAllFollowsTour(w, store, kids, 1, s.seen, false);
    forall q, n: nat, up | q in g.kids && q in store && n > 0 && Below(store, g, p, n, q) && Wanted(w, store, q, up)
                           && WayIsOpen(w, store, q, n, n, s.seen)
      ensures var e := Event(q, n, up);
              e in s.seen || (s.outcome != Running && Subsequence(s.seen + [e], TourAll(kids, 1)))
    {
      KidOwes(store, g, root, h, p, w, 0, s.seen, false, q, n, up);
      Later(s.seen, owed, Event(q, n, up), TourAll(kids, 1));
    }
  }

  /** What is owed and not shown comes after everything that is shown. */
  lemma Later(seen: seq<Event>, owed: seq<Event>, e: Event, tour: seq<Event>)
    requires seen <= owed && e in owed && Subsequence(owed, tour)
    ensures e in seen || Subsequence(seen + [e], tour)
  {
    if e !in seen {
      var rest := owed[|seen|..];
      assert owed == seen + rest;
      SubsequenceOfItself(seen);
      SubsequenceOne(e, rest);
      SubsequenceConcat(seen, seen, [e], rest);
      SubsequenceTrans(seen + [e], owed, tour);
    }
  }

  /** The walk on the namespace itself.  Whatever the callbacks answer, each node below the start is shown at most once
      on the way down and once on the way up, at its distance from the start, and none below maxDepth.  After NextPeer
      on the way down nothing below the node is shown, Break is the answer to the last invocation, and no other node
      that is wanted is missed.  Callbacks that always continue are shown exactly the calls of the whole subtree. */
  method WalkNamespace(ns: Namespace, w: Walk, node: Ptr)
    returns (result: Result, s: State, ghost t: Tree, ghost h: nat)
    requires ns.Valid() && (node == 0 || (node in ns.shape.kids && node in ns.shape.depth))
    ensures forall i, j :: 0 <= i < j < |s.seen| ==> s.seen[i].id != s.seen[j].id || s.seen[i].up != s.seen[j].up
    ensures node != 0 ==> forall i :: 0 <= i < |s.seen| ==>
              && s.seen[i].id in ns.shape.depth && s.seen[i].depth <= w.maxDepth
              && s.seen[i].depth + ns.shape.depth[node] == ns.shape.depth[s.seen[i].id]
    ensures Skips(ns.store, ns.shape, w, s.seen) && EndsAtLast(w, s)
    ensures node != 0 && (w.descending || w.ascending) && w.maxDepth != 0 ==>
              && Bounded(ns.shape, h) && t == TreeOf(ns.store, ns.shape, ns.root, h, node)
              && AllStored(ns.store, t.kids)
              && MissesNothing(ns.store, ns.shape, w, node, s, TourAll(t.kids, 1))
              && (AlwaysContinues(w) && (forall i :: 0 <= i < |t.kids| ==> HasObjects(ns.store, t.kids[i])) ==>
                    s.seen == CallsAll(w, ns.store, t.kids, 1))
  {
    t, h := Tree(0, []), 0;
    if node != 0 {
      h := HeightExists(ns.shape.depth);
      t := TreeOf(ns.store, ns.shape, ns.root, h, node);
      TreeOfLinked(ns.store, ns.shape, ns.root, h, node);
      LinkedStored(ns.store, t);
      result, s := ForEachChild(ns.store, w, node, t);
      if (w.descending || w.ascending) && w.maxDepth != 0 {
        EachNodeOncePerDirection(ns.store, ns.shape, ns.root, h, node, w, s.seen);
        ForestStaysAbove(w, ns.store, t.kids, 1, State([], false, Running));
        ForestEnds(w, ns.store, t.kids, 1, State([], false, Running));
        WalkSkips(ns.store, ns.shape, ns.root, h, node, w, s);
        WalkMisses(ns.store, ns.shape, ns.root, h, node, w, s);
        if AlwaysContinues(w) && forall i :: 0 <= i < |t.kids| ==> HasObjects(ns.store, t.kids[i]) {
          ForestMissesNothing(w, ns.store, t.kids, 1, State([], false, Running));
        }
      }
    } else {
      result, s := ForEachChild(ns.store, w, node, t);
    }
  }
}
