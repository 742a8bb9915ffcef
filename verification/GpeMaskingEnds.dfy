/** Masking a general-purpose event comes to an end: whatever is in flight when it waits can be finished. */
module GpeMaskingEnds {
  import opened Options
  import Gpe
  import opened GpeMasking

  /** Whoever holds the spinlock and whoever is waited for is a thread in flight. */
  ghost predicate Waits(s: State) {
    && (s.spin.Some? ==> s.spin.value < |s.threads|)
    && (s.task.Flush? || s.task.LastFlush? ==>
          forall t {:trigger t in s.task.waiting} :: t in s.task.waiting ==>
            0 < t < |s.threads| && s.threads[t].pc != Away)
  }

  lemma StepKeepsWaits(s: State, t: nat, ok: bool, s': State)
    requires Waits(s) && t < |s.threads| && Settled(s, t, ok) == Some(s')
    ensures Waits(s')
  {
    AdvanceMovesOne(s, t, ok, s');
  }

  lemma NextKeepsWaits(s: State, a: Action, s': State)
    requires Waits(s) && Next(s, a, true) == Some(s')
    ensures Waits(s')
  {
    if a.Step? {
      StepKeepsWaits(s, a.t, a.ok, s');
    }
  }

  lemma {:induction false} RunKeepsWaits(workers: nat, run: seq<Action>, s: State)
    requires Exec(Start(workers), run, true) == Some(s)
    ensures Waits(s)
    decreases |run|
  {
    if run != [] {
      var mid := Exec(Start(workers), run[..|run| - 1], true).value;
      RunKeepsWaits(workers, run[..|run| - 1], mid);
      NextKeepsWaits(mid, run[|run| - 1], s);
    }
  }

  // ----------------------------------------------------------------------------------------------- ranks

  /** How far a thread is from being away. */
  function Rank(p: Pc): nat {
    match p
    case Away => 0
    case Busy => 1
    case Unlock => 2
    case Write(_, _, _) => 3
    case Read(_, _) => 4
    case Lock(_, _) => 5
    case TestCurrent(_) => 6
    case Test(_, _) => 7
  }

  function Total(threads: seq<Thread>): nat {
    if threads == [] then 0 else Total(threads[..|threads| - 1]) + Rank(threads[|threads| - 1].pc)
  }

  lemma {:induction false} TotalMove(threads: seq<Thread>, t: nat, th: Thread)
    requires t < |threads|
    ensures Total(threads[t := th]) + Rank(threads[t].pc) == Total(threads) + Rank(th.pc)
  {
    var n := |threads| - 1;
    if t < n {
      TotalMove(threads[..n], t, th);
      assert threads[t := th][..n] == threads[..n][t := th];
    } else {
      assert threads[t := th][..n] == threads[..n];
    }
  }

  /** The parts of masking that are left. */
  function Stage(task: Task): nat {
    match task case NoTask => 0 case LastFlush(_, _) => 1 case Disabling(_) => 2 case Flush(_, _) => 3
  }

  /** The call that turns the event off has not failed to write. */
  ghost predicate OnCourse(s: State) {
    s.threads != [] && (s.task.Disabling? && s.task.j !in s.done ==>
                          s.threads[0].pc != Busy && s.threads[0].pc != Unlock)
  }

  /** From s to s' masking is closer to its end, and has not failed on the way. */
  ghost predicate Closer(s: State, s': State) {
    && (Stage(s'.task) < Stage(s.task) || (Stage(s'.task) == Stage(s.task) && Total(s'.threads) < Total(s.threads)))
    && s'.masked == s.masked && (OnCourse(s) ==> OnCourse(s') && s'.failed == s.failed)
  }

  lemma StepLowers(s: State, t: nat, s': State)
    requires t < |s.threads| == |s'.threads| && Settled(s, t, true) == Some(s')
    ensures Rank(s'.threads[t].pc) < Rank(s.threads[t].pc)
  {
  }

  lemma StepIsCloser(s: State, t: nat) returns (s': State)
    requires Inv(s) && t < |s.threads| && s.threads[t].pc != Away && s.threads[t].pc != Busy
    requires s.threads[t].pc.Lock? ==> s.spin == None
    ensures Next(s, Step(t, true), true) == Some(s') && Closer(s, s')
  {
    s' := Settled(s, t, true).value;
    AdvanceMovesOne(s, t, true, s');
    TotalMove(s.threads, t, s'.threads[t]);
    StepLowers(s, t, s');
    if t == 0 && s.task.Disabling? {
      assert InCall(s.threads[0].pc, s.task.j);
    }
  }

  lemma LeaveIsCloser(s: State, t: nat) returns (s': State)
    requires Inv(s) && 0 < t < |s.threads| && s.threads[t].pc == Busy && (s.task.Flush? || s.task.LastFlush?)
    ensures Next(s, Leave(t), true) == Some(s') && Closer(s, s')
  {
    s' := Next(s, Leave(t), true).value;
    TotalMove(s.threads, t, Thread(Away, {}));
  }

  /** Some step brings masking closer to its end. */
  lemma SomeHelp(s: State) returns (a: Action, s': State)
    requires Inv(s) && Waits(s) && s.task != NoTask
    ensures Next(s, a, true) == Some(s') && Closer(s, s')
  {
    if s.spin.Some? {
      var u := s.spin.value;
      assert ThreadInv(s, u);
      a := Step(u, true);
      s' := StepIsCloser(s, u);
    } else if s.task.Disabling? {
      a, s' := HelpDisabling(s);
    } else if s.task.waiting == {} {
      a := Flushed;
      s' := Next(s, a, true).value;
    } else {
      var t :| t in s.task.waiting;
      if s.threads[t].pc == Busy {
        a := Leave(t);
        s' := LeaveIsCloser(s, t);
      } else {
        a := Step(t, true);
        s' := StepIsCloser(s, t);
      }
    }
  }

  lemma HelpDisabling(s: State) returns (a: Action, s': State)
    requires Inv(s) && s.task.Disabling? && s.spin == None
    ensures Next(s, a, true) == Some(s') && Closer(s, s')
  {
    if s.threads[0].pc == Busy {
      a := Disabled;
      s' := Next(s, a, true).value;
    } else {
      assert ThreadInv(s, 0);
      a := Step(0, true);
      s' := StepIsCloser(s, 0);
    }
  }

  // -------------------------------------------------------------------------------------------- the end

  lemma Appended(workers: nat, run: seq<Action>, s: State, a: Action, s': State)
    requires Exec(Start(workers), run, true) == Some(s) && Next(s, a, true) == Some(s')
    ensures Exec(Start(workers), run + [a], true) == Some(s')
  {
    assert (run + [a])[..|run|] == run;
  }

  /** With waits that wait, a masking call in progress in any reachable state can be brought to its end. */
  lemma {:induction false} MaskingCanEnd(workers: nat, run: seq<Action>, s: State) returns (all: seq<Action>, s': State)
    requires Exec(Start(workers), run, true) == Some(s)
    ensures run <= all && Exec(Start(workers), all, true) == Some(s') && s'.task == NoTask && s'.masked == s.masked
    ensures OnCourse(s) ==> s'.failed == s.failed
    decreases Stage(s.task), Total(s.threads)
  {
    if s.task == NoTask {
      return run, s;
    }
    RunKeepsInv(workers, run, s);
    RunKeepsWaits(workers, run, s);
    var a, mid := SomeHelp(s);
    Appended(workers, run, s, a, mid);
    all, s' := MaskingCanEnd(workers, run + [a], mid);
    assert run <= run + [a];
  }

  /** In any reachable state an event can be masked: the call ends, with the event masked and off and its handler
      nowhere running. */
  lemma MaskingWorks(workers: nat, run: seq<Action>, s: State, j: Index) returns (all: seq<Action>, s': State)
    requires Exec(Start(workers), run, true) == Some(s) && ApiReady(s) && !s.masked[j] && !s.failed
    ensures run <= all && Exec(Start(workers), all, true) == Some(s') && s'.task == NoTask
    ensures s'.masked == s.masked[j := true] && !s'.enable[j] && !s'.failed
    ensures forall t: nat :: t < |s'.threads| ==> j !in s'.threads[t].live
  {
    var mid := Next(s, MaskIt(j), true).value;
    Appended(workers, run, s, MaskIt(j), mid);
    all, s' := MaskingCanEnd(workers, run + [MaskIt(j)], mid);
    assert run <= run + [MaskIt(j)];
    MaskingIsSafe(workers, all, s');
    assert s'.masked[j] && !BeingMasked(s'.task, j);
  }

  // ------------------------------------------------------------------------------------ set_gpe_state alone

  /** n steps of thread t, whose register accesses succeed or fail. */
  ghost function Steps(s: State, t: nat, n: nat, ok: bool): Option<State>
    decreases n
  {
    if n == 0 then Some(s)
    else match Next(s, Step(t, ok), true) case None => None case Some(mid) => Steps(mid, t, n - 1, ok)
  }

  function Asked(want: Want): Gpe.GpeState {
    match want case On => Gpe.Enabled case OnIfCurrent => Gpe.EnabledConditionally case Off => Gpe.Disabled
  }

  /** The register r is what the state says. */
  ghost predicate Shows(r: Gpe.Reg, s: State) {
    Gpe.Shaped(r) && r.masked == s.masked && r.current == s.current && r.enable == s.enable
  }

  lemma StepsMore(s: State, t: nat, mid: State, n: nat, ok: bool, s': State)
    requires n > 0 && Next(s, Step(t, ok), true) == Some(mid) && Steps(mid, t, n - 1, ok) == Some(s')
    ensures Steps(s, t, n, ok) == Some(s')
  {
  }

  lemma AccessAlone(s: State, t: nat, i: Index, on: bool, ok: bool) returns (n: nat, s': State)
    requires t < |s.threads| && s.threads[t].pc == Lock(i, on) && s.spin == None && s.task == NoTask
    ensures Steps(s, t, n, ok) == Some(s')
    ensures s' == At(s, t, Busy).(enable := if ok then s.enable[i := on] else s.enable)
  {
    var s1 := At(s, t, Read(i, on)).(spin := Some(t));
    var s2 := At(s1, t, if ok then Write(i, on, s.enable) else Unlock);
    var s3 := if ok then At(s2, t, Unlock).(enable := s.enable[i := on]) else s2;
    s' := At(s3, t, Busy).(spin := None);
    assert s'.threads == At(s, t, Busy).threads;
    assert Steps(s', t, 0, ok) == Some(s');
    StepsMore(s3, t, s', 1, ok, s');
    n := 3;
    if ok {
      StepsMore(s2, t, s3, 2, ok, s');
      n := 4;
    }
    StepsMore(s1, t, s2, n - 1, ok, s');
    StepsMore(s, t, s1, n, ok, s');
  }

  /** A call of set_gpe_state that nobody disturbs does in its steps what Gpe.SetState does at once. */
  lemma AloneIsSetState(s: State, t: nat, i: Index, want: Want, ok: bool, r: Gpe.Reg) returns (n: nat, s': State)
    requires t < |s.threads| && s.threads[t].pc == Busy && s.spin == None && s.task == NoTask && Shows(r, s)
    ensures Next(s, Call(t, i, want), true).Some?
    ensures Steps(Next(s, Call(t, i, want), true).value, t, n, ok) == Some(s')
    ensures s' == s.(enable := s'.enable) && Shows(Gpe.SetState(r, i, Asked(want), ok).0, s')
  {
    var s1 := At(s, t, Test(i, want));
    if want != Off && s.masked[i] {
      n, s' := 1, At(s1, t, Busy);
      assert s'.threads == s.threads;
      assert Steps(s', t, 0, ok) == Some(s');
      StepsMore(s1, t, s', 1, ok, s');
    } else if want != OnIfCurrent {
      var s2 := At(s1, t, Lock(i, want == On));
      n, s' := AccessAlone(s2, t, i, want == On, ok);
      n := n + 1;
      StepsMore(s1, t, s2, n, ok, s');
      assert s'.threads == s.threads;
    } else {
      n, s' := ConditionallyAlone(s1, t, i, ok);
      assert s'.threads == s.threads;
    }
  }

  lemma ConditionallyAlone(s: State, t: nat, i: Index, ok: bool) returns (n: nat, s': State)
    requires t < |s.threads| && s.threads[t].pc == Test(i, OnIfCurrent) && s.spin == None && s.task == NoTask
    requires !s.masked[i]
    ensures Steps(s, t, n, ok) == Some(s')
    ensures s' == At(s, t, Busy).(enable := if s.current[i] && ok then s.enable[i := true] else s.enable)
  {
    var s1 := At(s, t, TestCurrent(i));
    var s2 := At(s1, t, if s.current[i] then Lock(i, true) else Busy);
    if s.current[i] {
      n, s' := AccessAlone(s2, t, i, true, ok);
    } else {
      n, s' := 0, s2;
    }
    assert s'.threads == At(s, t, Busy).threads;
    StepsMore(s1, t, s2, n + 1, ok, s');
    StepsMore(s, t, s1, n + 2, ok, s');
    n := n + 2;
  }

  /** Work that a thread schedules while it is waited for is waited for as well. */
  lemma SpawnedIsWaitedFor(s: State, t: nat, u: nat, i: Index)
    requires 0 < t < |s.threads| && s.threads[t].pc == Busy && i in s.threads[t].live
    requires 0 < u < |s.threads| && s.threads[u].pc == Away
    ensures var n := Next(s, Spawn(t, u, i), true);
            && n.Some? && n.value.threads == s.threads[u := Thread(Busy, {i})]
            && (s.task.Flush? || s.task.LastFlush? ==>
                  && (n.value.task.Flush? <==> s.task.Flush?) && (n.value.task.LastFlush? <==> s.task.LastFlush?)
                  && n.value.task.waiting == s.task.waiting + if t in s.task.waiting then {u} else {})
  {
    assert s.task.Flush? || s.task.LastFlush? ==> s.task.waiting + {} == s.task.waiting;
  }

  /** Unmasking lets the event come on again. */
  lemma UnmaskedComesBack(s: State, j: Index) returns (s1: State, n: nat, s': State)
    requires ApiReady(s) && s.masked[j] && s.current[j] && s.spin == None
    ensures Next(s, UnmaskIt(j), true) == Some(s1)
    ensures Steps(At(s1, 0, Test(j, OnIfCurrent)), 0, n, true) == Some(s')
    ensures s'.masked == s.masked[j := false] && s'.enable == s.enable[j := true]
  {
    s1 := Next(s, UnmaskIt(j), true).value;
    n, s' := ConditionallyAlone(At(s1, 0, Test(j, OnIfCurrent)), 0, j, true);
  }
}
