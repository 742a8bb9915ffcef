/** AML mutexes and sync levels: the Acquire and Release operators of the interpreter.

    Every thread runs one execution context, which records the mutexes it holds in order of
    acquisition and a current sync level.  Acquire refuses a mutex below the current level and
    otherwise may block; Release takes a mutex out of the record.  A run interleaves the operators
    of all contexts, with time-outs and failed bookkeeping allocations. */
module SyncLevels {
  import opened Options
  import opened Sequences

  /** The recursion limit of an AML mutex. */
  const MAX_DEPTH: nat := 0xFFFF

  /** held: held_mutexes, the contents of a MutexArray.HeldMutexes, whose Push and RemoveLast make the changes below;
      level: sync_level; waiting: the mutex an Acquire is blocked on. */
  datatype Context = Context(held: seq<nat>, level: nat, waiting: Option<nat>)

  /** Mutexes and threads are numbered. */
  datatype State = State(owner: seq<Option<nat>>, depth: seq<nat>, contexts: seq<Context>)

  datatype Action =
    | Acquire(t: nat, m: nat)
    | Grant(t: nat, pushOk: bool)   // the native mutex is obtained; pushOk: the record could grow
    | Timeout(t: nat)
    | Release(t: nat, m: nat)

  ghost predicate Fits(s: State, levels: seq<nat>) { |s.owner| == |s.depth| == |levels| }

  function With(s: State, t: nat, c: Context): State
    requires t < |s.contexts|
  {
    s.(contexts := s.contexts[t := c])
  }

  ghost predicate InRange(held: seq<nat>, n: nat) { forall i :: 0 <= i < |held| ==> held[i] < n }

  /** The sync level that goes with a record of held mutexes. */
  function LevelOf(held: seq<nat>, levels: seq<nat>): nat
    requires InRange(held, |levels|)
  {
    if held == [] then 0 else levels[held[|held| - 1]]
  }

  /** The Acquire operator up to the point where it may block. */
  function DoAcquire(s: State, t: nat, m: nat, levels: seq<nat>): State
    requires Fits(s, levels) && t < |s.contexts| && m < |levels|
  {
    var c := s.contexts[t];
    if c.level > levels[m] then s
    else if s.owner[m] == Some(t) then
      if s.depth[m] == MAX_DEPTH then s else s.(depth := s.depth[m := s.depth[m] + 1])
    else With(s, t, c.(waiting := Some(m)))
  }

  /** The rest of the Acquire operator once the native mutex is obtained. */
  function DoGrant(s: State, t: nat, pushOk: bool, levels: seq<nat>): State
    requires Fits(s, levels) && t < |s.contexts| && s.contexts[t].waiting.Some?
    requires s.contexts[t].waiting.value < |levels|
  {
    var c := s.contexts[t];
    var m := c.waiting.value;
    if !pushOk then With(s, t, c.(waiting := None))
    else
      With(s, t, Context(c.held + [m], levels[m], None))
        .(owner := s.owner[m := Some(t)], depth := s.depth[m := 1])
  }

  /** The Release operator. */
  function DoRelease(s: State, t: nat, m: nat, levels: seq<nat>): State
    requires Fits(s, levels) && t < |s.contexts| && m < |levels|
    requires InRange(s.contexts[t].held, |levels|)
  {
    var c := s.contexts[t];
    if s.owner[m] != Some(t) || c.held == [] then s
    else if LevelOf(c.held, levels) != levels[m] then With(s, t, c.(level := LevelOf(c.held, levels)))
    else if s.depth[m] > 1 then
      With(s, t, c.(level := LevelOf(c.held, levels))).(depth := s.depth[m := s.depth[m] - 1])
    else
      match LastIndex(c.held, m)
      case None => s
      case Some(i) =>
        var rest := Without(c.held, i);
        With(s, t, Context(rest, LevelOf(rest, levels), c.waiting))
          .(owner := s.owner[m := None], depth := s.depth[m := 0])
  }

  /** Every held mutex exists. */
  ghost predicate Shaped(s: State, levels: seq<nat>) {
    Fits(s, levels) && forall t :: 0 <= t < |s.contexts| ==> InRange(s.contexts[t].held, |levels|)
  }

  /** One step of a run; a blocked context does nothing else, and an impossible step is skipped. */
  function Next(s: State, a: Action, levels: seq<nat>): (s': State)
    requires Shaped(s, levels)
    ensures Shaped(s', levels) && |s'.contexts| == |s.contexts|
  {
    if a.t >= |s.contexts| then s
    else
      var c := s.contexts[a.t];
      match a
      case Acquire(t, m) => if m >= |levels| || c.waiting.Some? then s else DoAcquire(s, t, m, levels)
      case Grant(t, pushOk) =>
        if c.waiting.None? || c.waiting.value >= |levels| || s.owner[c.waiting.value].Some? then s
        else DoGrant(s, t, pushOk, levels)
      case Timeout(t) => With(s, t, c.(waiting := None))
      case Release(t, m) => if m >= |levels| || c.waiting.Some? then s else DoRelease(s, t, m, levels)
  }

  /** n mutexes nobody owns and threads that hold nothing. */
  function Start(levels: seq<nat>, threads: nat): State {
    State(seq(|levels|, i => None), seq(|levels|, i => 0), seq(threads, i => Context([], 0, None)))
  }

  /** Held mutexes are sorted by sync level. */
  ghost predicate Sorted(held: seq<nat>, levels: seq<nat>) {
    && InRange(held, |levels|)
    && forall i, j :: 0 <= i < j < |held| ==> levels[held[i]] <= levels[held[j]]
  }

  /** What one context keeps. */
  ghost predicate ContextInv(c: Context, levels: seq<nat>) {
    && Sorted(c.held, levels) && Distinct(c.held)
    && c.level == LevelOf(c.held, levels)
    && (c.waiting.Some? ==>
          c.waiting.value < |levels| && c.level <= levels[c.waiting.value] && c.waiting.value !in c.held)
  }

  ghost predicate Inv(s: State, levels: seq<nat>) {
    && Fits(s, levels)
    && (forall t :: 0 <= t < |s.contexts| ==> ContextInv(s.contexts[t], levels))
    && (forall t, m :: 0 <= t < |s.contexts| && 0 <= m < |levels| ==>
          (s.owner[m] == Some(t) <==> m in s.contexts[t].held))
    && (forall m :: 0 <= m < |levels| ==> (s.owner[m].Some? <==> s.depth[m] > 0))
  }

  ghost function Exec(levels: seq<nat>, threads: nat, run: seq<Action>): (s: State)
    ensures Shaped(s, levels) && |s.contexts| == threads
    decreases |run|
  {
    if run == [] then Start(levels, threads)
    else Next(Exec(levels, threads, run[..|run| - 1]), run[|run| - 1], levels)
  }

  /** Taking one element out of a sorted, duplicate-free record. */
  lemma WithoutKeeps(held: seq<nat>, i: nat, levels: seq<nat>)
    requires i < |held| && Sorted(held, levels) && Distinct(held)
    ensures var r := Without(held, i);
            && Sorted(r, levels) && Distinct(r)
            && forall m :: m in r <==> m in held && m != held[i]
  {
  }

  lemma GrantKeepsInv(s: State, t: nat, pushOk: bool, levels: seq<nat>)
    requires Inv(s, levels) && t < |s.contexts| && s.contexts[t].waiting.Some?
    requires s.owner[s.contexts[t].waiting.value].None?
    ensures Inv(DoGrant(s, t, pushOk, levels), levels)
  {
  }

  lemma ReleaseKeepsInv(s: State, t: nat, m: nat, levels: seq<nat>)
    requires Inv(s, levels) && t < |s.contexts| && m < |levels| && s.contexts[t].waiting.None?
    ensures Inv(DoRelease(s, t, m, levels), levels)
  {
    var c := s.contexts[t];
    if LastIndex(c.held, m).Some? {
      WithoutKeeps(c.held, LastIndex(c.held, m).value, levels);
    }
  }

  lemma StepKeepsInv(s: State, a: Action, levels: seq<nat>)
    requires Inv(s, levels)
    ensures Inv(Next(s, a, levels), levels)
  {
    if a.t < |s.contexts| {
      var c := s.contexts[a.t];
      match a
      case Grant(t, pushOk) =>
        if c.waiting.Some? && s.owner[c.waiting.value].None? {
          GrantKeepsInv(s, t, pushOk, levels);
        }
      case Release(t, m) =>
        if m < |levels| && c.waiting.None? {
          ReleaseKeepsInv(s, t, m, levels);
        }
      case _ =>
    }
  }

  lemma {:induction false} RunKeepsInv(levels: seq<nat>, threads: nat, run: seq<Action>)
    ensures Inv(Exec(levels, threads, run), levels)
    decreases |run|
  {
    if run != [] {
      RunKeepsInv(levels, threads, run[..|run| - 1]);
      StepKeepsInv(Exec(levels, threads, run[..|run| - 1]), run[|run| - 1], levels);
    }
  }

  /** Over every run: held mutexes are sorted by level, the context level is the last one's (0 if
      none), and what a context records is exactly what its thread owns. */
  lemma LevelsStaySorted(levels: seq<nat>, threads: nat, run: seq<Action>, t: nat)
    requires t < threads
    ensures var s := Exec(levels, threads, run);
            && Sorted(s.contexts[t].held, levels) && Distinct(s.contexts[t].held)
            && s.contexts[t].level == LevelOf(s.contexts[t].held, levels)
            && forall m :: 0 <= m < |levels| ==> (s.owner[m] == Some(t) <==> m in s.contexts[t].held)
  {
    RunKeepsInv(levels, threads, run);
  }

  /** The position after i around a circle of n. */
  function Succ(i: nat, n: nat): (r: nat)
    requires i < n
    ensures r < n
  {
    if i + 1 == n then 0 else i + 1
  }

  /** Thread t waits for mutex m. */
  datatype Wait = Wait(t: nat, m: nat)

  /** Each thread of the cycle waits for a mutex that the next one owns. */
  ghost predicate CircularWait(s: State, cycle: seq<Wait>) {
    |cycle| > 0 && forall i {:trigger WaitsForNext(s, cycle, i)} :: 0 <= i < |cycle| ==> WaitsForNext(s, cycle, i)
  }

  ghost predicate WaitsForNext(s: State, cycle: seq<Wait>, i: nat)
    requires i < |cycle|
  {
    && cycle[i].t < |s.contexts| && cycle[i].m < |s.owner|
    && s.contexts[cycle[i].t].waiting == Some(cycle[i].m)
    && s.owner[cycle[i].m] == Some(cycle[Succ(i, |cycle|)].t)
  }

  ghost predicate Injective(levels: seq<nat>) {
    forall a, b :: 0 <= a < b < |levels| ==> levels[a] != levels[b]
  }

  /** Along a circular wait sync levels do not decrease. */
  lemma LevelsClimb(s: State, levels: seq<nat>, cycle: seq<Wait>, i: nat)
    requires Inv(s, levels) && CircularWait(s, cycle) && i < |cycle|
    ensures cycle[i].m < |levels| && cycle[Succ(i, |cycle|)].m < |levels|
    ensures levels[cycle[i].m] <= levels[cycle[Succ(i, |cycle|)].m]
    ensures cycle[i].m != cycle[Succ(i, |cycle|)].m
  {
    assert WaitsForNext(s, cycle, i) && WaitsForNext(s, cycle, Succ(i, |cycle|));
    var next := s.contexts[cycle[Succ(i, |cycle|)].t];
    var m := cycle[i].m;
    assert m in next.held;
    var k :| 0 <= k < |next.held| && next.held[k] == m;
    assert levels[m] <= levels[next.held[|next.held| - 1]];
  }

  lemma {:induction false} ClimbsFar(xs: seq<nat>, j: nat)
    requires j < |xs| && forall i :: 0 <= i < |xs| - 1 ==> xs[i] <= xs[i + 1]
    ensures xs[0] <= xs[j]
  {
    if j > 0 {
      ClimbsFar(xs, j - 1);
    }
  }

  /** The levels of the mutexes that are waited for. */
  ghost function LevelsOn(levels: seq<nat>, cycle: seq<Wait>): (xs: seq<nat>)
    requires forall i :: 0 <= i < |cycle| ==> cycle[i].m < |levels|
  {
    seq(|cycle|, i requires 0 <= i < |cycle| => levels[cycle[i].m])
  }

  lemma LevelsClimbOn(s: State, levels: seq<nat>, cycle: seq<Wait>, i: nat)
    requires Inv(s, levels) && CircularWait(s, cycle) && i + 1 < |cycle|
    ensures cycle[i].m < |levels| && cycle[i + 1].m < |levels| && levels[cycle[i].m] <= levels[cycle[i + 1].m]
  {
    LevelsClimb(s, levels, cycle, i);
  }

  lemma WaitsInRange(s: State, levels: seq<nat>, cycle: seq<Wait>)
    requires Inv(s, levels) && CircularWait(s, cycle)
    ensures forall i :: 0 <= i < |cycle| ==> cycle[i].m < |levels|
  {
    forall i | 0 <= i < |cycle|
      ensures cycle[i].m < |levels|
    {
      assert WaitsForNext(s, cycle, i);
    }
  }

  lemma LevelsClimbFar(s: State, levels: seq<nat>, cycle: seq<Wait>)
    requires Inv(s, levels) && CircularWait(s, cycle) && forall i :: 0 <= i < |cycle| ==> cycle[i].m < |levels|
    ensures forall i :: 0 <= i < |cycle| - 1 ==> LevelsOn(levels, cycle)[i] <= LevelsOn(levels, cycle)[i + 1]
  {
    forall i | 0 <= i < |cycle| - 1
      ensures LevelsOn(levels, cycle)[i] <= LevelsOn(levels, cycle)[i + 1]
    {
      LevelsClimbOn(s, levels, cycle, i);
    }
  }

  /** With pairwise distinct levels no circular wait of any length is reachable: going around, levels
      would climb back to where they started, so neighbours would want the same mutex. */
  lemma NoCircularWait(levels: seq<nat>, threads: nat, run: seq<Action>, cycle: seq<Wait>)
    requires Injective(levels)
    ensures !CircularWait(Exec(levels, threads, run), cycle)
  {
    var s := Exec(levels, threads, run);
    RunKeepsInv(levels, threads, run);
    if CircularWait(s, cycle) {
      var n := |cycle| - 1;
      WaitsInRange(s, levels, cycle);
      LevelsClimbFar(s, levels, cycle);
      ClimbsFar(LevelsOn(levels, cycle), n);
      LevelsClimb(s, levels, cycle, n);
    }
  }

  /** A waiting thread that holds nothing is granted a free mutex. */
  lemma TakeFree(levels: seq<nat>, threads: nat, run: seq<Action>, t: nat, m: nat)
    requires t < threads && m < |levels|
    requires var s := Exec(levels, threads, run); s.contexts[t] == Context([], 0, Some(m)) && s.owner[m] == None
    ensures var s := Exec(levels, threads, run);
            var s' := Exec(levels, threads, run + [Grant(t, true)]);
            && s'.contexts == s.contexts[t := Context([m], levels[m], None)]
            && s'.owner == s.owner[m := Some(t)]
  {
    assert [] + [m] == [m];
  }

  /** Each of two threads takes one mutex and then asks for the other. */
  lemma EmbraceDeadlocks(levels: seq<nat>, threads: nat, a: nat, b: nat) returns (run: seq<Action>)
    requires a < b < |levels| && levels[a] == levels[b] && threads >= 2
    ensures CircularWait(Exec(levels, threads, run), [Wait(0, b), Wait(1, a)])
  {
    run := [];
    run := run + [Acquire(0, a)];
    TakeFree(levels, threads, run, 0, a);
    run := run + [Grant(0, true)];
    run := run + [Acquire(1, b)];
    TakeFree(levels, threads, run, 1, b);
    run := run + [Grant(1, true)];
    run := run + [Acquire(0, b)];
    run := run + [Acquire(1, a)];
  }

  ghost predicate RunDeadlocks(levels: seq<nat>, threads: nat, run: seq<Action>, cycle: seq<Wait>) {
    CircularWait(Exec(levels, threads, run), cycle)
  }

  /** Exactly when: with two or more threads a circular wait is reachable if and only if two mutexes
      share a sync level. */
  lemma CircularWaitIffSharedLevel(levels: seq<nat>, threads: nat)
    requires threads >= 2
    ensures (exists run, cycle :: RunDeadlocks(levels, threads, run, cycle)) <==> !Injective(levels)
  {
    if Injective(levels) {
      forall run, cycle
        ensures !RunDeadlocks(levels, threads, run, cycle)
      {
        NoCircularWait(levels, threads, run, cycle);
      }
    } else {
      var a, b :| 0 <= a < b < |levels| && levels[a] == levels[b];
      var run := EmbraceDeadlocks(levels, threads, a, b);
      assert RunDeadlocks(levels, threads, run, [Wait(0, b), Wait(1, a)]);
    }
  }

  // --------------------------------------------------------------------------- what the operators achieve

  lemma WithSame(s: State, t: nat)
    requires t < |s.contexts|
    ensures With(s, t, s.contexts[t]) == s
  {
    assert s.contexts[t := s.contexts[t]] == s.contexts;
  }

  /** A mutex that nobody owns, of a level that is not too low, can be acquired; releasing it restores the state. */
  lemma ReleaseUndoesAcquire(s: State, t: nat, m: nat, levels: seq<nat>)
    requires Inv(s, levels) && Shaped(s, levels) && t < |s.contexts| && m < |levels|
    requires s.contexts[t].waiting == None && s.owner[m] == None && s.contexts[t].level <= levels[m]
    ensures var s2 := Next(Next(s, Acquire(t, m), levels), Grant(t, true), levels);
            && s2.owner[m] == Some(t) && s2.contexts[t].level == levels[m]
            && s2.contexts[t].held == s.contexts[t].held + [m]
            && Next(s2, Release(t, m), levels) == s
  {
    var c := s.contexts[t];
    var held := c.held + [m];
    var s2 := Next(Next(s, Acquire(t, m), levels), Grant(t, true), levels);
    assert ContextInv(c, levels) && m !in c.held;
    assert LevelOf(held, levels) == levels[m];
    LastOfAppended(c.held, m);
    assert Without(held, |c.held|) == c.held;
    var s3 := Next(s2, Release(t, m), levels);
    assert s3.owner == s.owner && s3.depth == s.depth;
    assert s3.contexts == s.contexts[t := c];
    WithSame(s, t);
  }

  lemma LastOfAppended(s: seq<nat>, m: nat)
    ensures LastIndex(s + [m], m) == Some(|s|)
  {
  }

  /** The owner of a mutex at its own level acquires it once more, up to the limit; a release takes that back. */
  lemma ReleaseUndoesDeeper(s: State, t: nat, m: nat, levels: seq<nat>)
    requires Inv(s, levels) && Shaped(s, levels) && t < |s.contexts| && m < |levels|
    requires s.contexts[t].waiting == None && s.owner[m] == Some(t) && s.contexts[t].level <= levels[m]
    ensures var s1 := Next(s, Acquire(t, m), levels);
            if s.depth[m] == MAX_DEPTH then s1 == s
            else s1 == s.(depth := s.depth[m := s.depth[m] + 1]) && Next(s1, Release(t, m), levels) == s
  {
    var c := s.contexts[t];
    assert ContextInv(c, levels) && m in c.held;
    var i :| 0 <= i < |c.held| && c.held[i] == m;
    assert levels[c.held[i]] <= levels[c.held[|c.held| - 1]];
    var s1 := Next(s, Acquire(t, m), levels);
    if s.depth[m] != MAX_DEPTH {
      WithSame(s1, t);
      assert s1.depth[m := s1.depth[m] - 1] == s.depth;
    }
  }

  /** A context whose record cannot grow gives up: it waits no more, and the mutex stays free. */
  lemma FailedGrantLeaves(s: State, t: nat, levels: seq<nat>)
    requires Inv(s, levels) && Shaped(s, levels) && t < |s.contexts| && s.contexts[t].waiting.Some?
    ensures var c, s1 := s.contexts[t], Next(s, Grant(t, false), levels);
            && c.waiting.value < |levels| && s1.owner == s.owner && s1.depth == s.depth
            && s1.contexts == if s.owner[c.waiting.value].Some? then s.contexts
                              else s.contexts[t := c.(waiting := None)]
  {
    assert ContextInv(s.contexts[t], levels);
  }

  /** Acquire is refused exactly when the mutex is below the level of the context, or its owner is at the limit. */
  lemma RefusedExactly(s: State, t: nat, m: nat, levels: seq<nat>)
    requires Inv(s, levels) && Shaped(s, levels) && t < |s.contexts| && m < |levels| && s.contexts[t].waiting == None
    ensures Next(s, Acquire(t, m), levels) == s <==>
            levels[m] < s.contexts[t].level || (s.owner[m] == Some(t) && s.depth[m] == MAX_DEPTH)
  {
    var s1 := Next(s, Acquire(t, m), levels);
    if levels[m] >= s.contexts[t].level && s.owner[m] != Some(t) {
      assert s1.contexts[t].waiting == Some(m);
    } else if levels[m] >= s.contexts[t].level && s.depth[m] != MAX_DEPTH {
      assert s1.depth[m] == s.depth[m] + 1;
    }
  }

  /** A release that is out of order, or of a mutex of somebody else, leaves all mutexes with their owners. */
  lemma ReleasesOnlyInOrder(s: State, t: nat, m: nat, levels: seq<nat>)
    requires Inv(s, levels) && Shaped(s, levels) && t < |s.contexts| && m < |levels| && s.contexts[t].waiting == None
    ensures var s1 := Next(s, Release(t, m), levels);
            if s.owner[m] == Some(t) && s.contexts[t].level == levels[m]
            then s1.depth == s.depth[m := s.depth[m] - 1]
                 && s1.owner == s.owner[m := if s.depth[m] == 1 then None else Some(t)]
            else s1.depth == s.depth && s1.owner == s.owner
  {
    var c := s.contexts[t];
    assert ContextInv(c, levels);
    if s.owner[m] == Some(t) {
      assert LastIndex(c.held, m).Some?;
      assert s.owner[m := Some(t)] == s.owner;
    }
  }
}
