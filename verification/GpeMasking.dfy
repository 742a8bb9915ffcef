/** Masking a general-purpose event of `event.c` under every interleaving of one API call with any number of interrupt
    and work threads.

    Every load of a mask, every spinlock operation and every access to the enable register is one step, and an access
    may fail.  Thread 0 is the holder of the event lock, so there is one API call at a time; the others are interrupts
    and scheduled work, which come and go, see which events are enabled, run their handlers, and call set_gpe_state.
    `flushes` says whether uacpi_kernel_wait_for_work_completion waits for the threads that are in flight, as its
    documentation asks of a host, or returns at once. */
module GpeMasking {
  import opened Options
  import Gpe

  const EVENTS: nat := Gpe.EVENTS

  type Mask = m: Gpe.Mask | |m| == EVENTS witness [false, false, false, false, false, false, false, false]

  type Index = i: nat | i < EVENTS

  datatype Want = On | OnIfCurrent | Off

  datatype Pc =
    | Away                                    // not in flight
    | Busy                                    // in flight, outside set_gpe_state
    | Test(i: Index, want: Want)              // about to test masked_mask
    | TestCurrent(i: Index)                   // about to test current_mask
    | Lock(i: Index, on: bool)                // about to take the spinlock
    | Read(i: Index, on: bool)                // about to read the enable register
    | Write(i: Index, on: bool, seen: Mask)   // about to write it
    | Unlock                                  // about to release the spinlock

  /** live: the events whose handlers the thread may run. */
  datatype Thread = Thread(pc: Pc, live: set<Index>)

  /** How far gpe_mask_unmask has got in masking event j; waiting: the threads that a wait is still for. */
  datatype Task =
    | NoTask
    | Flush(j: Index, waiting: set<nat>)      // the first wait
    | Disabling(j: Index)                     // set_gpe_state(event, GPE_STATE_DISABLED)
    | LastFlush(j: Index, waiting: set<nat>)  // the second wait

  /** done: the events that a call has masked and turned off; failed: turning one off has failed. */
  datatype State = State(
    masked: Mask, current: Mask, enable: Mask, spin: Option<nat>, threads: seq<Thread>, task: Task,
    done: set<Index>, failed: bool)

  datatype Action =
    | Enter(t: nat)                           // an interrupt arrives
    | Detect(t: nat)                          // it reads the enable register
    | Spawn(t: nat, u: nat, i: Index)         // work is scheduled for an event that has fired
    | Leave(t: nat)                           // the interrupt or work is over
    | Call(t: nat, i: Index, want: Want)      // set_gpe_state is called
    | Step(t: nat, ok: bool)                  // and makes a step; ok: a register access succeeds
    | MaskIt(j: Index) | Flushed | Disabled   // the parts of masking an event
    | UnmaskIt(j: Index)
    | SetCurrent(mask: Mask)                  // users come and go
    | Overwrite(mask: Mask)                   // gpe_block_apply_action

  function At(s: State, t: nat, pc: Pc): State
    requires t < |s.threads|
  {
    s.(threads := s.threads[t := s.threads[t].(pc := pc)])
  }

  /** One step of set_gpe_state; None when it has to spin. */
  function Advance(s: State, t: nat, ok: bool): Option<State>
    requires t < |s.threads|
  {
    match s.threads[t].pc
    case Away => None
    case Busy => None
    case Test(i, want) =>
      if want != Off && s.masked[i] then Some(At(s, t, Busy))
      else Some(At(s, t, if want == OnIfCurrent then TestCurrent(i) else Lock(i, want == On)))
    case TestCurrent(i) => Some(At(s, t, if s.current[i] then Lock(i, true) else Busy))
    case Lock(i, on) => if s.spin.Some? then None else Some(At(s, t, Read(i, on)).(spin := Some(t)))
    case Read(i, on) => Some(At(s, t, if ok then Write(i, on, s.enable) else Unlock))
    case Write(i, on, seen) => Some(At(s, t, Unlock).(enable := if ok then seen[i := on] else s.enable))
    case Unlock => Some(At(s, t, Busy).(spin := None))
  }

  /** The API call is not inside set_gpe_state or a wait. */
  predicate ApiReady(s: State) { s.threads != [] && s.threads[0].pc == Busy && s.task == NoTask }

  function InFlight(threads: seq<Thread>): set<nat> { set t | 0 < t < |threads| && threads[t].pc != Away }

  /** Whom a wait that starts now is for. */
  function WaitFor(s: State, flushes: bool): set<nat> { if flushes then InFlight(s.threads) else {} }

  function StillWaiting(task: Task, t: nat): Task {
    match task
    case Flush(j, w) => Flush(j, w - {t})
    case LastFlush(j, w) => LastFlush(j, w - {t})
    case _ => task
  }

  /** Work that a thread schedules while it is waited for is waited for as well. */
  function AlsoWaiting(task: Task, t: nat, u: nat): Task {
    match task
    case Flush(j, w) => if t in w then Flush(j, w + {u}) else task
    case LastFlush(j, w) => if t in w then LastFlush(j, w + {u}) else task
    case _ => task
  }

  function Enabled(m: Mask): set<Index> { set i: Index | 0 <= i < EVENTS && m[i] }

  function Next(s: State, a: Action, flushes: bool): Option<State> {
    match a
    case Enter(t) =>
      if 0 < t < |s.threads| && s.threads[t].pc == Away then Some(At(s, t, Busy)) else None
    case Detect(t) =>
      if 0 < t < |s.threads| && s.threads[t].pc == Busy
      then Some(s.(threads := s.threads[t := s.threads[t].(live := Enabled(s.enable))])) else None
    case Spawn(t, u, i) =>
      if 0 < t < |s.threads| && s.threads[t].pc == Busy && i in s.threads[t].live
         && 0 < u < |s.threads| && s.threads[u].pc == Away
      then Some(s.(threads := s.threads[u := Thread(Busy, {i})], task := AlsoWaiting(s.task, t, u))) else None
    case Leave(t) =>
      if 0 < t < |s.threads| && s.threads[t].pc == Busy
      then Some(s.(threads := s.threads[t := Thread(Away, {})], task := StillWaiting(s.task, t))) else None
    case Call(t, i, want) =>
      if t < |s.threads| && s.threads[t].pc == Busy && (t == 0 ==> s.task == NoTask)
      then Some(At(s, t, Test(i, want))) else None
    case Step(t, ok) => if t < |s.threads| then Settled(s, t, ok) else None
    case MaskIt(j) =>
      if ApiReady(s) && !s.masked[j]
      then Some(s.(masked := s.masked[j := true], task := Flush(j, WaitFor(s, flushes)))) else None
    case Flushed =>
      if s.threads == [] then None
      else if s.task.Flush? && s.task.waiting == {}
      then Some(At(s, 0, Test(s.task.j, Off)).(task := Disabling(s.task.j)))
      else if s.task.LastFlush? && s.task.waiting == {} then Some(s.(task := NoTask))
      else None
    case Disabled =>
      if s.threads != [] && s.task.Disabling? && s.threads[0].pc == Busy
      then Some(s.(task := LastFlush(s.task.j, WaitFor(s, flushes)), failed := s.failed || s.task.j !in s.done))
      else None
    case UnmaskIt(j) =>
      if ApiReady(s) && s.masked[j]
      then Some(s.(masked := s.masked[j := false], done := s.done - {j})) else None
    case SetCurrent(mask) => if ApiReady(s) then Some(s.(current := mask)) else None
    case Overwrite(mask) =>
      if ApiReady(s) && (forall i :: 0 <= i < EVENTS && s.masked[i] ==> !mask[i])
      then Some(s.(current := mask, enable := mask)) else None
  }

  /** A step of set_gpe_state; when the API call has turned the event it is masking off, that is noted. */
  function Settled(s: State, t: nat, ok: bool): Option<State>
    requires t < |s.threads|
  {
    var off := t == 0 && s.task.Disabling? && s.threads[t].pc.Write? && ok;
    match Advance(s, t, ok)
    case None => None
    case Some(s') => Some(if off then s'.(done := s'.done + {s.task.j}) else s')
  }

  const ZERO: Mask := [false, false, false, false, false, false, false, false]

  /** Behind create_gpe_block: all events off, nobody in flight. */
  function Start(workers: nat): State {
    State(ZERO, ZERO, ZERO, None, [Thread(Busy, {})] + seq(workers, i => Thread(Away, {})), NoTask, {}, false)
  }

  ghost function Exec(s: State, run: seq<Action>, flushes: bool): Option<State>
    decreases |run|
  {
    if run == [] then Some(s)
    else
      match Exec(s, run[..|run| - 1], flushes)
      case None => None
      case Some(mid) => Next(mid, run[|run| - 1], flushes)
  }

  // ------------------------------------------------------------------------------------------- invariant

  /** The thread has passed the test of masked_mask and is about to turn event j on. */
  predicate Armed(p: Pc, j: Index) {
    p == TestCurrent(j) || p == Lock(j, true) || p == Read(j, true) || (p.Write? && p.i == j && p.on)
  }

  /** The thread is about to write a value in which event j is on, on behalf of another event. */
  predicate Stale(p: Pc, j: Index) { p.Write? && p.i != j && p.seen[j] }

  predicate InSection(p: Pc) { p.Read? || p.Write? || p.Unlock? }

  predicate InCall(p: Pc, j: Index) {
    p == Busy || p == Test(j, Off) || p == Lock(j, false) || p == Read(j, false) || (p.Write? && p.i == j && !p.on)
    || p == Unlock
  }

  /** Nobody can turn event j on. */
  ghost predicate Quiet(s: State, j: Index) {
    s.masked[j] && forall t {:trigger s.threads[t]} :: 0 <= t < |s.threads| ==> !Armed(s.threads[t].pc, j)
  }

  /** The threads that the second wait of masking j is for. */
  predicate Excused(task: Task, t: nat, j: Index) {
    (task.Disabling? && task.j == j) || (task.LastFlush? && task.j == j && t in task.waiting)
  }

  /** Thread t cannot turn event j on, is not about to write a value in which it is on, and will not run its handler
      once the call that masked it is over. */
  ghost predicate Harmless(s: State, t: nat, j: Index)
    requires t < |s.threads|
  {
    var th := s.threads[t];
    !Armed(th.pc, j) && !Stale(th.pc, j) && (j in th.live ==> Excused(s.task, t, j))
  }

  /** Event j is masked and off and will stay so. */
  ghost predicate Final(s: State, j: Index) {
    && s.masked[j] && !s.enable[j]
    && forall t {:trigger Harmless(s, t, j)} :: 0 <= t < |s.threads| ==> Harmless(s, t, j)
  }

  /** The spinlock is held exactly by the thread in the section it guards; only threads in flight run handlers. */
  ghost predicate ThreadInv(s: State, t: nat)
    requires t < |s.threads|
  {
    var th := s.threads[t];
    && (InSection(th.pc) <==> s.spin == Some(t)) && (th.live != {} ==> t > 0 && th.pc != Away)
    && (t == 0 ==> th.pc != Away)
  }

  /** The first wait is for everybody who is about to turn the event on. */
  ghost predicate TaskInv(s: State)
    requires s.threads != []
  {
    match s.task
    case NoTask => true
    case Flush(j, w) =>
      && s.masked[j] && j !in s.done && s.threads[0].pc == Busy
      && forall t {:trigger s.threads[t]} :: 0 <= t < |s.threads| && Armed(s.threads[t].pc, j) ==> t in w
    case Disabling(j) => Quiet(s, j) && InCall(s.threads[0].pc, j)
    case LastFlush(j, w) => s.threads[0].pc == Busy
  }

  predicate BeingMasked(task: Task, j: Index) { (task.Flush? || task.Disabling?) && task.j == j }

  ghost predicate DoneInv(s: State) {
    && (forall j: Index {:trigger Final(s, j)} :: j in s.done ==> Final(s, j))
    && (forall j: Index {:trigger j in s.done} ::
          s.masked[j] && !BeingMasked(s.task, j) && !s.failed ==> j in s.done)
  }

  ghost predicate Inv(s: State) {
    && s.threads != [] && (forall t {:trigger ThreadInv(s, t)} :: 0 <= t < |s.threads| ==> ThreadInv(s, t))
    && TaskInv(s) && DoneInv(s)
  }

  // ---------------------------------------------------------------------------------- set_gpe_state steps

  /** A step moves one thread, which enters or leaves the guarded section just when it takes or releases the lock. */
  ghost predicate MovesOne(s: State, t: nat, s': State) {
    && t < |s.threads| == |s'.threads| && s'.masked == s.masked && s'.task == s.task && s'.failed == s.failed
    && var p, p' := s.threads[t].pc, s'.threads[t].pc;
       && s'.threads == s.threads[t := s.threads[t].(pc := p')] && p != Away && p' != Away
       && (|| (InSection(p) == InSection(p') && s'.spin == s.spin)
           || (!InSection(p) && InSection(p') && s.spin == None && s'.spin == Some(t))
           || (InSection(p) && !InSection(p') && s'.spin == None))
  }

  lemma AdvanceMovesOne(s: State, t: nat, ok: bool, s': State)
    requires t < |s.threads| && Settled(s, t, ok) == Some(s')
    ensures MovesOne(s, t, s')
  {
    var p' := s'.threads[t].pc;
    assert s'.threads == s.threads[t := s.threads[t].(pc := p')];
  }

  /** Only a thread that finds the event unmasked gets ready to turn it on, only one that reads it as on is about to
      write it so, and only those turn it on. */
  ghost predicate Cautious(s: State, t: nat, s': State, j: Index)
    requires t < |s.threads| == |s'.threads|
  {
    var p, p' := s.threads[t].pc, s'.threads[t].pc;
    && (Armed(p', j) ==> Armed(p, j) || !s.masked[j])
    && (Stale(p', j) ==> Stale(p, j) || s.enable[j])
    && (s'.enable[j] ==> s.enable[j] || Stale(p, j) || Armed(p, j))
    && (InCall(p, j) && p != Busy ==> InCall(p', j)) && p != Busy
  }

  lemma AdvanceIsCautious(s: State, t: nat, ok: bool, s': State, j: Index)
    requires t < |s.threads| && Settled(s, t, ok) == Some(s') && |s'.threads| == |s.threads|
    ensures Cautious(s, t, s', j)
  {
    OnlyThenArmed(s, t, ok, s', j);
    OnlyThenOn(s, t, ok, s', j);
  }

  lemma OnlyThenArmed(s: State, t: nat, ok: bool, s': State, j: Index)
    requires t < |s.threads| && Settled(s, t, ok) == Some(s') && |s'.threads| == |s.threads|
    ensures var p, p' := s.threads[t].pc, s'.threads[t].pc;
            (Armed(p', j) ==> Armed(p, j) || !s.masked[j]) && (InCall(p, j) && p != Busy ==> InCall(p', j)) && p != Busy
  {
  }

  lemma OnlyThenOn(s: State, t: nat, ok: bool, s': State, j: Index)
    requires t < |s.threads| && Settled(s, t, ok) == Some(s') && |s'.threads| == |s.threads|
    ensures var p, p' := s.threads[t].pc, s'.threads[t].pc;
            && (Stale(p', j) ==> Stale(p, j) || s.enable[j])
            && (s'.enable[j] ==> s.enable[j] || Stale(p, j) || Armed(p, j))
  {
  }

  lemma MoveKeepsThreads(s: State, t: nat, s': State)
    requires Inv(s) && MovesOne(s, t, s')
    ensures forall u {:trigger ThreadInv(s', u)} :: 0 <= u < |s'.threads| ==> ThreadInv(s', u)
  {
    assert ThreadInv(s, t);
    forall u | 0 <= u < |s'.threads|
      ensures ThreadInv(s', u)
    {
      assert ThreadInv(s, u);
    }
  }

  lemma MoveKeepsTask(s: State, t: nat, s': State)
    requires Inv(s) && MovesOne(s, t, s') && (s.task != NoTask ==> Cautious(s, t, s', s.task.j))
    requires s.task.Flush? ==> s'.done == s.done
    ensures TaskInv(s')
  {
  }

  lemma MoveKeepsFinal(s: State, t: nat, s': State, j: Index)
    requires MovesOne(s, t, s') && Final(s, j) && Cautious(s, t, s', j)
    ensures Final(s', j)
  {
    assert Harmless(s, t, j);
    forall u | 0 <= u < |s'.threads|
      ensures Harmless(s', u, j)
    {
      assert Harmless(s, u, j);
    }
  }

  /** The API call has turned event j off: nobody else holds the spinlock, and nobody is about to turn it on. */
  lemma TurnedOff(s: State, s': State, j: Index)
    requires Inv(s) && s.task == Disabling(j) && s.threads[0].pc.Write? && Settled(s, 0, true) == Some(s')
    ensures Final(s', j)
  {
    assert ThreadInv(s, 0);
    forall u | 0 <= u < |s'.threads|
      ensures Harmless(s', u, j)
    {
      assert ThreadInv(s, u);
      assert s'.threads[u] == if u == 0 then s.threads[0].(pc := Unlock) else s.threads[u];
    }
  }

  lemma DoneGrows(s: State, t: nat, ok: bool, s': State)
    requires t < |s.threads| && Settled(s, t, ok) == Some(s')
    ensures s'.done == s.done ||
            (t == 0 && ok && s.threads[0].pc.Write? && s.task.Disabling? && s'.done == s.done + {s.task.j})
  {
  }

  lemma StepKeepsInv(s: State, t: nat, ok: bool, s': State)
    requires Inv(s) && t < |s.threads| && Settled(s, t, ok) == Some(s')
    ensures Inv(s')
  {
    AdvanceMovesOne(s, t, ok, s');
    MoveKeepsThreads(s, t, s');
    DoneGrows(s, t, ok, s');
    if s.task != NoTask {
      AdvanceIsCautious(s, t, ok, s', s.task.j);
    }
    MoveKeepsTask(s, t, s');
    forall j: Index | j in s'.done
      ensures Final(s', j)
    {
      if j in s.done {
        assert Final(s, j);
        AdvanceIsCautious(s, t, ok, s', j);
        MoveKeepsFinal(s, t, s', j);
      } else {
        TurnedOff(s, s', j);
      }
    }
  }

  // ------------------------------------------------------------------------------------- the other steps

  /** A thread outside set_gpe_state moves; what it may run are events that are on, or the event of a thread that is
      waited for just as it is. */
  lemma WorkersKeepInv(s: State, a: Action, s': State)
    requires Inv(s) && (a.Enter? || a.Detect? || a.Spawn? || a.Leave? || a.Call?) && Next(s, a, true) == Some(s')
    ensures Inv(s')
  {
    forall u | 0 <= u < |s'.threads|
      ensures ThreadInv(s', u)
    {
      assert ThreadInv(s, u);
    }
    forall j: Index | j in s'.done
      ensures Final(s', j)
    {
      WorkersKeepFinal(s, a, s', j);
    }
  }

  lemma WorkersKeepFinal(s: State, a: Action, s': State, j: Index)
    requires Inv(s) && (a.Enter? || a.Detect? || a.Spawn? || a.Leave? || a.Call?) && Next(s, a, true) == Some(s')
    requires j in s.done
    ensures Final(s', j)
  {
    assert Final(s, j);
    forall u | 0 <= u < |s'.threads|
      ensures Harmless(s', u, j)
    {
      assert Harmless(s, u, j);
      if a.Spawn? {
        assert Harmless(s, a.t, j);
      }
    }
  }

  lemma ApiKeepsInv(s: State, a: Action, s': State)
    requires Inv(s) && (a.MaskIt? || a.Flushed? || a.Disabled? || a.UnmaskIt? || a.SetCurrent? || a.Overwrite?)
    requires Next(s, a, true) == Some(s')
    ensures Inv(s')
  {
    assert ThreadInv(s, 0);
    forall u | 0 <= u < |s'.threads|
      ensures ThreadInv(s', u)
    {
      assert ThreadInv(s, u);
    }
    ApiKeepsTask(s, a, s');
    forall j: Index | j in s'.done
      ensures Final(s', j)
    {
      ApiKeepsFinal(s, a, s', j);
    }
  }

  lemma ApiKeepsTask(s: State, a: Action, s': State)
    requires Inv(s) && (a.MaskIt? || a.Flushed? || a.Disabled? || a.UnmaskIt? || a.SetCurrent? || a.Overwrite?)
    requires Next(s, a, true) == Some(s')
    ensures s'.threads != [] && TaskInv(s')
  {
    if a.MaskIt? {
      assert a.j in s.done ==> Final(s, a.j);
    }
  }

  lemma ApiKeepsFinal(s: State, a: Action, s': State, j: Index)
    requires Inv(s) && (a.MaskIt? || a.Flushed? || a.Disabled? || a.UnmaskIt? || a.SetCurrent? || a.Overwrite?)
    requires Next(s, a, true) == Some(s') && j in s'.done
    ensures Final(s', j)
  {
    assert Final(s, j);
    forall u | 0 <= u < |s'.threads|
      ensures Harmless(s', u, j)
    {
      assert Harmless(s, u, j) && ThreadInv(s, u);
    }
  }

  lemma {:induction false} RunKeepsInv(workers: nat, run: seq<Action>, s': State)
    requires Exec(Start(workers), run, true) == Some(s')
    ensures Inv(s')
    decreases |run|
  {
    if run == [] {
      assert forall t :: 0 <= t < |s'.threads| ==> ThreadInv(s', t);
    } else {
      var a, mid := run[|run| - 1], Exec(Start(workers), run[..|run| - 1], true).value;
      RunKeepsInv(workers, run[..|run| - 1], mid);
      if a.Step? {
        StepKeepsInv(mid, a.t, a.ok, s');
      } else if a.Enter? || a.Detect? || a.Spawn? || a.Leave? || a.Call? {
        WorkersKeepInv(mid, a, s');
      } else {
        ApiKeepsInv(mid, a, s');
      }
    }
  }

  // -------------------------------------------------------------------------------------------- results

  /** Every masked event that is not being masked right now is off in hardware. */
  ghost predicate MaskHolds(s: State) {
    forall j: Index :: s.masked[j] && !BeingMasked(s.task, j) ==> !s.enable[j]
  }

  /** With waits that wait, over every interleaving and as long as turning off has not failed: a masked event is off
      as soon as the call that masks it has turned it off, whatever the others were about to do, and when that call is
      over nobody runs its handler any more. */
  lemma MaskingIsSafe(workers: nat, run: seq<Action>, s': State)
    requires Exec(Start(workers), run, true) == Some(s') && !s'.failed
    ensures MaskHolds(s')
    ensures s'.task == NoTask ==>
              forall j: Index, t: nat :: s'.masked[j] && t < |s'.threads| ==> j !in s'.threads[t].live
  {
    RunKeepsInv(workers, run, s');
    forall j: Index | s'.masked[j] && !BeingMasked(s'.task, j)
      ensures !s'.enable[j] && Final(s', j)
    {
      assert j in s'.done && Final(s', j);
    }
    forall j: Index, t: nat | s'.masked[j] && s'.task == NoTask && t < |s'.threads|
      ensures j !in s'.threads[t].live
    {
      assert Final(s', j) && Harmless(s', t, j);
    }
  }

  // ---------------------------------------------------------------------------------- waits that do not wait

  /** s can be reached. */
  ghost predicate Reaches(workers: nat, flushes: bool, s: State) {
    exists run: seq<Action> :: Exec(Start(workers), run, flushes) == Some(s)
  }

  lemma OneMore(workers: nat, flushes: bool, s: State, a: Action, s': State)
    requires Reaches(workers, flushes, s) && Next(s, a, flushes) == Some(s')
    ensures Reaches(workers, flushes, s')
  {
    var run: seq<Action> :| Exec(Start(workers), run, flushes) == Some(s);
    assert (run + [a])[..|run|] == run;
    assert Exec(Start(workers), run + [a], flushes) == Some(s');
  }

  /** From the spinlock on to the write, with nobody in the way. */
  lemma Writes(workers: nat, flushes: bool, s: State, t: nat, i: Index, on: bool) returns (s': State)
    requires Reaches(workers, flushes, s) && t < |s.threads| && s.spin == None
    requires s.threads[t].pc == Lock(i, on)
    ensures Reaches(workers, flushes, s')
    ensures s' == At(s, t, Busy).(enable := s.enable[i := on],
                                  done := if t == 0 && s.task.Disabling? then s.done + {s.task.j} else s.done)
  {
    var s1 := At(s, t, Read(i, on)).(spin := Some(t));
    StepsTo(workers, flushes, s, t, s1);
    var s2 := At(s1, t, Write(i, on, s.enable));
    StepsTo(workers, flushes, s1, t, s2);
    var s3 := At(s2, t, Unlock).(enable := s.enable[i := on],
                                 done := if t == 0 && s.task.Disabling? then s.done + {s.task.j} else s.done);
    StepsTo(workers, flushes, s2, t, s3);
    s' := At(s3, t, Busy).(spin := None);
    StepsTo(workers, flushes, s3, t, s');
    assert s'.threads == At(s, t, Busy).threads;
  }

  lemma StepsTo(workers: nat, flushes: bool, s: State, t: nat, s': State)
    requires Reaches(workers, flushes, s) && t < |s.threads| && Settled(s, t, true) == Some(s')
    ensures Reaches(workers, flushes, s')
  {
    OneMore(workers, flushes, s, Step(t, true), s');
  }

  /** A whole call of set_gpe_state. */
  lemma Sets(workers: nat, flushes: bool, s: State, t: nat, i: Index, on: bool) returns (s': State)
    requires Reaches(workers, flushes, s) && t < |s.threads| && s.spin == None && s.task == NoTask
    requires s.threads[t].pc == Busy && (on ==> !s.masked[i])
    ensures Reaches(workers, flushes, s') && s' == s.(enable := s.enable[i := on])
  {
    var s1 := At(s, t, Test(i, if on then On else Off));
    OneMore(workers, flushes, s, Call(t, i, if on then On else Off), s1);
    var s2 := At(s1, t, Lock(i, on));
    StepsTo(workers, flushes, s1, t, s2);
    s' := Writes(workers, flushes, s2, t, i, on);
    assert s'.threads == s.threads;
  }

  /** An event has been enabled, and an interrupt has found it so. */
  lemma Firing(workers: nat, flushes: bool) returns (s: State)
    requires workers > 0
    ensures Reaches(workers, flushes, s) && |s.threads| == workers + 1 && s.threads[1] == Thread(Busy, {0})
    ensures s == Start(workers).(threads := s.threads, current := ZERO[0 := true], enable := ZERO[0 := true])
    ensures s.threads == Start(workers).threads[1 := s.threads[1]]
  {
    var s0 := Start(workers);
    assert Exec(s0, [], flushes) == Some(s0);
    var s1 := s0.(current := ZERO[0 := true]);
    OneMore(workers, flushes, s0, SetCurrent(ZERO[0 := true]), s1);
    var s2 := Sets(workers, flushes, s1, 0, 0, true);
    var s3 := At(s2, 1, Busy);
    OneMore(workers, flushes, s2, Enter(1), s3);
    s := s3.(threads := s3.threads[1 := Thread(Busy, {0})]);
    assert Enabled(s3.enable) == {0};
    OneMore(workers, flushes, s3, Detect(1), s);
  }

  /** It has turned the event off and, the handler done, is about to turn it on again. */
  lemma Restoring(workers: nat, flushes: bool) returns (s: State)
    requires workers > 0
    ensures Reaches(workers, flushes, s) && |s.threads| == workers + 1 && s.threads[1] == Thread(Lock(0, true), {0})
    ensures s == Start(workers).(threads := s.threads, current := ZERO[0 := true])
    ensures s.threads == Start(workers).threads[1 := s.threads[1]]
  {
    var s4 := Firing(workers, flushes);
    var s5 := Sets(workers, flushes, s4, 1, 0, false);
    assert s5.enable == ZERO;
    var s6 := At(s5, 1, Test(0, OnIfCurrent));
    OneMore(workers, flushes, s5, Call(1, 0, OnIfCurrent), s6);
    var s7 := At(s6, 1, TestCurrent(0));
    StepsTo(workers, flushes, s6, 1, s7);
    s := At(s7, 1, Lock(0, true));
    StepsTo(workers, flushes, s7, 1, s);
  }

  /** Masking an event from start to end, with waits that return at once. */
  lemma Masks(workers: nat, s: State, j: Index) returns (s': State)
    requires Reaches(workers, false, s) && ApiReady(s) && s.spin == None && !s.masked[j]
    ensures Reaches(workers, false, s') && s'.threads == s.threads && s'.spin == None && s'.task == NoTask
    ensures s'.masked == s.masked[j := true] && s'.enable == s.enable[j := false] && s'.failed == s.failed
  {
    var s3 := MasksFirst(workers, s, j);
    var s4 := Writes(workers, false, s3, 0, j, false);
    assert s4.threads == s.threads;
    var s5 := s4.(task := LastFlush(j, {}));
    OneMore(workers, false, s4, Disabled, s5);
    s' := s5.(task := NoTask);
    OneMore(workers, false, s5, Flushed, s');
  }

  lemma MasksFirst(workers: nat, s: State, j: Index) returns (s': State)
    requires Reaches(workers, false, s) && ApiReady(s) && s.spin == None && !s.masked[j]
    ensures Reaches(workers, false, s')
    ensures s' == At(s, 0, Lock(j, false)).(masked := s.masked[j := true], task := Disabling(j))
  {
    var s1 := s.(masked := s.masked[j := true], task := Flush(j, {}));
    OneMore(workers, false, s, MaskIt(j), s1);
    var s2 := At(s1, 0, Test(j, Off)).(task := Disabling(j));
    OneMore(workers, false, s1, Flushed, s2);
    s' := At(s2, 0, Lock(j, false));
    StepsTo(workers, false, s2, 0, s');
  }

  /** With waits that return at once, an interrupt that was past its test turns the event on again after it has been
      masked. */
  lemma MaskingRaces(workers: nat) returns (s: State)
    requires workers > 0
    ensures Reaches(workers, false, s) && !s.failed && s.task == NoTask && s.masked[0] && s.enable[0]
  {
    var s1 := Restoring(workers, false);
    var s2 := Masks(workers, s1, 0);
    s := Writes(workers, false, s2, 1, 0, true);
  }

  /** A masked event is off in every reachable state if and only if the host's wait for work in flight waits. */
  lemma MaskHoldsIffWaits(workers: nat, flushes: bool)
    requires workers > 0
    ensures (forall s :: Reaches(workers, flushes, s) && !s.failed ==> MaskHolds(s)) <==> flushes
  {
    if flushes {
      forall s | Reaches(workers, flushes, s) && !s.failed
        ensures MaskHolds(s)
      {
        var run: seq<Action> :| Exec(Start(workers), run, true) == Some(s);
        MaskingIsSafe(workers, run, s);
      }
    } else {
      var s := MaskingRaces(workers);
      assert !MaskHolds(s);
    }
  }
}
