/** Masking all events of a block before it is torn down (gpe_block_mask_safe of `event.c`), under every interleaving
    with interrupts and work.  The waits wait, but the enable register is written without the spinlock. */
module GpeBlockMasking {
  import opened Options
  import opened GpeMasking

  const ALL: Mask := [true, true, true, true, true, true, true, true]

  /** How far the call has got; waiting: the threads that a wait is still for. */
  datatype Phase =
    | Open                            // not called yet
    | Waiting(waiting: set<nat>)      // the first wait
    | Ready                           // about to write the register
    | LastWait(waiting: set<nat>)     // the second wait
    | Done

  datatype Block = Block(s: State, phase: Phase)

  datatype BlockAction =
    | Other(a: Action)                                 // any step of GpeMasking, before the call
    | Worker(a: Action)                                // a step of an interrupt or work, at any time
    | MaskAll | FirstFlushed | WriteAll | LastFlushed  // the parts of the call

  predicate OfWorker(a: Action) {
    a.Enter? || a.Detect? || a.Spawn? || a.Leave? || (a.Call? && a.t > 0) || (a.Step? && a.t > 0)
  }

  function WaitingAfter(w: set<nat>, a: Action): set<nat> {
    if a.Leave? then w - {a.t} else if a.Spawn? && a.t in w then w + {a.u} else w
  }

  function PhaseAfter(p: Phase, a: Action): Phase {
    match p
    case Waiting(w) => Waiting(WaitingAfter(w, a))
    case LastWait(w) => LastWait(WaitingAfter(w, a))
    case _ => p
  }

  function With(s: Option<State>, p: Phase): Option<Block> { if s.None? then None else Some(Block(s.value, p)) }

  function NextBlock(b: Block, a: BlockAction): Option<Block> {
    match a
    case Other(x) => if b.phase == Open then With(Next(b.s, x, true), Open) else None
    case Worker(x) => if OfWorker(x) then With(Next(b.s, x, true), PhaseAfter(b.phase, x)) else None
    case MaskAll =>
      if b.phase == Open && ApiReady(b.s) && b.s.current != ZERO
      then Some(Block(b.s.(masked := ALL), Waiting(InFlight(b.s.threads)))) else None
    case FirstFlushed => if b.phase == Waiting({}) then Some(b.(phase := Ready)) else None
    case WriteAll =>
      if b.phase == Ready then Some(Block(b.s.(enable := ZERO), LastWait(InFlight(b.s.threads)))) else None
    case LastFlushed => if b.phase == LastWait({}) then Some(b.(phase := Done)) else None
  }

  ghost function ExecBlock(b: Block, run: seq<BlockAction>): Option<Block>
    decreases |run|
  {
    if run == [] then Some(b)
    else
      match ExecBlock(b, run[..|run| - 1])
      case None => None
      case Some(mid) => NextBlock(mid, run[|run| - 1])
  }

  // ------------------------------------------------------------------------------------------- invariant

  ghost predicate ArmedAtAll(p: Pc) { exists j: Index :: Armed(p, j) }

  /** From the first wait on, the API call makes no other step, and those who may still turn an event on are waited
      for; then there are none. */
  ghost predicate BlockInv(b: Block) {
    && b.s.threads != []
    && (b.phase != Open ==> b.s.masked == ALL && b.s.threads[0].pc == Busy && b.s.task == NoTask)
    && (forall t {:trigger b.s.threads[t]} :: 0 <= t < |b.s.threads| ==>
          match b.phase
          case Open => true
          case Waiting(w) => ArmedAtAll(b.s.threads[t].pc) ==> t in w
          case _ => !ArmedAtAll(b.s.threads[t].pc))
  }

  /** A worker's step arms nobody while everything is masked. */
  lemma WorkerArmsNobody(s: State, a: Action, s': State, u: nat)
    requires OfWorker(a) && Next(s, a, true) == Some(s') && s.masked == ALL && u < |s.threads|
    ensures |s'.threads| == |s.threads| && s'.masked == s.masked
    ensures ArmedAtAll(s'.threads[u].pc) ==> ArmedAtAll(s.threads[u].pc) && !(a.Leave? && a.t == u)
    ensures s.task == NoTask ==> s'.task == NoTask
    ensures s'.threads[0] == s.threads[0]
  {
    if a.Step? {
      AdvanceMovesOne(s, a.t, a.ok, s');
      forall j: Index | Armed(s'.threads[u].pc, j)
        ensures Armed(s.threads[u].pc, j)
      {
        AdvanceIsCautious(s, a.t, a.ok, s', j);
      }
    }
  }

  lemma WorkerKeepsInv(b: Block, a: Action, b': Block)
    requires BlockInv(b) && NextBlock(b, Worker(a)) == Some(b')
    ensures BlockInv(b')
  {
    if b.phase == Open {
      SameThreads(b.s, a, b'.s);
    } else {
      WorkerArmsNobody(b.s, a, b'.s, 0);
      forall t | 0 <= t < |b'.s.threads|
        ensures ArmedAtAll(b'.s.threads[t].pc) ==> b.phase.Waiting? && b'.phase.Waiting? && t in b'.phase.waiting
      {
        WorkerArmsNobody(b.s, a, b'.s, t);
      }
    }
  }

  lemma SameThreads(s: State, a: Action, s': State)
    requires Next(s, a, true) == Some(s')
    ensures |s'.threads| == |s.threads|
  {
  }

  /** At the end of the first wait nobody is left who may turn an event on. */
  lemma CallKeepsInv(b: Block, a: BlockAction, b': Block)
    requires BlockInv(b) && !a.Worker? && NextBlock(b, a) == Some(b')
    ensures BlockInv(b')
  {
    if a.Other? {
      SameThreads(b.s, a.a, b'.s);
    }
  }

  lemma {:induction false} RunKeepsBlockInv(workers: nat, run: seq<BlockAction>, b: Block)
    requires ExecBlock(Block(Start(workers), Open), run) == Some(b)
    ensures BlockInv(b)
    decreases |run|
  {
    if run != [] {
      var a, mid := run[|run| - 1], ExecBlock(Block(Start(workers), Open), run[..|run| - 1]).value;
      RunKeepsBlockInv(workers, run[..|run| - 1], mid);
      if a.Worker? {
        WorkerKeepsInv(mid, a.a, b);
      } else {
        CallKeepsInv(mid, a, b);
      }
    }
  }

  // ------------------------------------------------------------------------------------------- the write

  /** A worker has read the register and is about to write it with an event on. */
  ghost predicate SomeStale(s: State) {
    exists t: nat, j: Index :: t < |s.threads| && Stale(s.threads[t].pc, j)
  }

  /** Everything is masked and off, and nobody can change that. */
  ghost predicate AllOff(b: Block) {
    && BlockInv(b) && (b.phase.LastWait? || b.phase == Done) && b.s.enable == ZERO && !SomeStale(b.s)
  }

  lemma WorkerKeepsOff(s: State, a: Action, s': State)
    requires OfWorker(a) && Next(s, a, true) == Some(s') && s.masked == ALL && s.enable == ZERO && !SomeStale(s)
    requires forall t {:trigger s.threads[t]} :: 0 <= t < |s.threads| ==> !ArmedAtAll(s.threads[t].pc)
    ensures s'.enable == ZERO && !SomeStale(s')
  {
    if a.Step? {
      AdvanceMovesOne(s, a.t, a.ok, s');
      forall j: Index
        ensures !s'.enable[j] && !Stale(s'.threads[a.t].pc, j)
      {
        AdvanceIsCautious(s, a.t, a.ok, s', j);
        assert !Stale(s.threads[a.t].pc, j) && !Armed(s.threads[a.t].pc, j);
      }
      forall t: nat, j: Index | t < |s'.threads|
        ensures !Stale(s'.threads[t].pc, j)
      {
        assert t != a.t ==> s'.threads[t] == s.threads[t];
      }
    } else {
      assert s'.enable == s.enable;
      forall t: nat, j: Index | t < |s'.threads|
        ensures !Stale(s'.threads[t].pc, j)
      {
        assert !Stale(s.threads[t].pc, j);
      }
    }
  }

  lemma {:induction false} StaysOff(b: Block, run: seq<BlockAction>, b': Block)
    requires AllOff(b) && ExecBlock(b, run) == Some(b')
    ensures AllOff(b')
    decreases |run|
  {
    if run != [] {
      var a, mid := run[|run| - 1], ExecBlock(b, run[..|run| - 1]).value;
      StaysOff(b, run[..|run| - 1], mid);
      if a.Worker? {
        WorkerKeepsInv(mid, a.a, b');
        WorkerKeepsOff(mid.s, a.a, b'.s);
      }
    }
  }

  /** Some event can be on behind b. */
  ghost predicate ComesOn(b: Block) {
    exists run: seq<BlockAction> ::
      var e := ExecBlock(b, run);
      e.Some? && e.value.s.enable != ZERO
  }

  /** When the register has been written, an event can come on again, masked as it is, if and only if at that moment a
      worker stood between its own read and write with another event on. */
  lemma BlockWriteExactly(workers: nat, run: seq<BlockAction>, b: Block, b': Block)
    requires ExecBlock(Block(Start(workers), Open), run) == Some(b) && NextBlock(b, WriteAll) == Some(b')
    ensures ComesOn(b') <==> SomeStale(b.s)
  {
    RunKeepsBlockInv(workers, run, b);
    if SomeStale(b.s) {
      var t: nat, j: Index :| t < |b.s.threads| && Stale(b.s.threads[t].pc, j);
      StaleWrites(b', t, j);
    } else {
      assert AllOff(b');
      if ComesOn(b') {
        var more: seq<BlockAction> :| var e := ExecBlock(b', more); e.Some? && e.value.s.enable != ZERO;
        StaysOff(b', more, ExecBlock(b', more).value);
      }
    }
  }

  lemma StaleWrites(b: Block, t: nat, j: Index)
    requires BlockInv(b) && b.phase != Open && t < |b.s.threads| && Stale(b.s.threads[t].pc, j)
    ensures ComesOn(b)
  {
    var a := Worker(Step(t, true));
    var b' := NextBlock(b, a).value;
    assert b'.s.enable[j];
    assert [a][..0] == [];
    assert ExecBlock(b, [a]) == Some(b');
  }

  // --------------------------------------------------------------------------------------- a run that races

  ghost predicate ReachesBlock(workers: nat, b: Block) {
    exists run: seq<BlockAction> :: ExecBlock(Block(Start(workers), Open), run) == Some(b)
  }

  lemma OneMoreBlock(workers: nat, b: Block, a: BlockAction, b': Block)
    requires ReachesBlock(workers, b) && NextBlock(b, a) == Some(b')
    ensures ReachesBlock(workers, b')
  {
    var run: seq<BlockAction> :| ExecBlock(Block(Start(workers), Open), run) == Some(b);
    assert (run + [a])[..|run|] == run;
    assert ExecBlock(Block(Start(workers), Open), run + [a]) == Some(b');
  }

  lemma {:induction false} Lifted(workers: nat, run: seq<Action>, s: State)
    requires Exec(Start(workers), run, true) == Some(s)
    ensures ReachesBlock(workers, Block(s, Open))
    decreases |run|
  {
    if run == [] {
      assert ExecBlock(Block(s, Open), []) == Some(Block(s, Open));
    } else {
      var mid := Exec(Start(workers), run[..|run| - 1], true).value;
      Lifted(workers, run[..|run| - 1], mid);
      OneMoreBlock(workers, Block(mid, Open), Other(run[|run| - 1]), Block(s, Open));
    }
  }

  const TWO: Mask := [true, true, false, false, false, false, false, false]

  /** Two events are enabled and nobody is in flight. */
  lemma TwoOn(workers: nat) returns (b: Block)
    requires workers > 0
    ensures ReachesBlock(workers, b) && b == Block(Start(workers).(current := TWO, enable := TWO), Open)
  {
    var s0 := Start(workers);
    assert Exec(s0, [], true) == Some(s0);
    var s1 := s0.(current := TWO);
    OneMore(workers, true, s0, SetCurrent(TWO), s1);
    var s2 := Sets(workers, true, s1, 0, 0, true);
    var s3 := Sets(workers, true, s2, 0, 1, true);
    assert s3.enable == TWO;
    var run: seq<Action> :| Exec(Start(workers), run, true) == Some(s3);
    Lifted(workers, run, s3);
    b := Block(s3, Open);
  }

  /** All are masked and the first wait is over. */
  lemma TwoEnabled(workers: nat) returns (b: Block)
    requires workers > 0
    ensures ReachesBlock(workers, b)
    ensures b == Block(Start(workers).(current := TWO, enable := TWO, masked := ALL), Ready)
  {
    var b0 := TwoOn(workers);
    assert InFlight(b0.s.threads) == {};
    var b1 := Block(b0.s.(masked := ALL), Waiting({}));
    OneMoreBlock(workers, b0, MaskAll, b1);
    b := b1.(phase := Ready);
    OneMoreBlock(workers, b1, FirstFlushed, b);
  }

  /** An interrupt for the first of them is about to write the register with the second one still on. */
  lemma Interrupted(workers: nat) returns (b: Block)
    requires workers > 0
    ensures ReachesBlock(workers, b) && b.phase == Ready && b.s.masked == ALL && 1 < |b.s.threads|
    ensures b.s.threads[1].pc == Write(0, false, TWO) && b.s.task == NoTask
    ensures forall t :: 1 < t < |b.s.threads| ==> b.s.threads[t].pc == Away
  {
    var b0 := TwoEnabled(workers);
    var b1 := Block(At(b0.s, 1, Busy), Ready);
    OneMoreBlock(workers, b0, Worker(Enter(1)), b1);
    var b1' := Block(b1.s.(threads := b1.s.threads[1 := Thread(Busy, Enabled(TWO))]), Ready);
    OneMoreBlock(workers, b1, Worker(Detect(1)), b1');
    var b2 := Block(At(b1'.s, 1, Test(0, Off)), Ready);
    OneMoreBlock(workers, b1', Worker(Call(1, 0, Off)), b2);
    var b3 := Block(At(b2.s, 1, Lock(0, false)), Ready);
    OneMoreBlock(workers, b2, Worker(Step(1, true)), b3);
    var b4 := Block(At(b3.s, 1, Read(0, false)).(spin := Some(1)), Ready);
    OneMoreBlock(workers, b3, Worker(Step(1, true)), b4);
    b := Block(At(b4.s, 1, Write(0, false, TWO)), Ready);
    OneMoreBlock(workers, b4, Worker(Step(1, true)), b);
  }

  /** So the call can be over, with every wait waited for, and a masked event be on. */
  lemma BlockMaskingRaces(workers: nat) returns (b: Block)
    requires workers > 0
    ensures ReachesBlock(workers, b) && b.phase == Done && b.s.masked[1] && b.s.enable[1]
  {
    var b0 := Interrupted(workers);
    var b1 := Block(b0.s.(enable := ZERO), LastWait({1}));
    assert InFlight(b0.s.threads) == {1};
    OneMoreBlock(workers, b0, WriteAll, b1);
    b := Finishes(workers, b1);
  }

  /** The interrupt writes the register, and is over; so is the call. */
  lemma Finishes(workers: nat, b1: Block) returns (b: Block)
    requires ReachesBlock(workers, b1) && b1.phase == LastWait({1}) && 1 < |b1.s.threads|
    requires b1.s.threads[1].pc == Write(0, false, TWO) && b1.s.task == NoTask
    ensures ReachesBlock(workers, b) && b.phase == Done && b.s.masked == b1.s.masked && b.s.enable[1]
  {
    var b2 := Block(At(b1.s, 1, Unlock).(enable := TWO[0 := false]), LastWait({1}));
    OneMoreBlock(workers, b1, Worker(Step(1, true)), b2);
    var b3 := Block(At(b2.s, 1, Busy).(spin := None), LastWait({1}));
    OneMoreBlock(workers, b2, Worker(Step(1, true)), b3);
    b := Leaves(workers, b3);
  }

  lemma Leaves(workers: nat, b3: Block) returns (b: Block)
    requires ReachesBlock(workers, b3) && b3.phase == LastWait({1}) && 1 < |b3.s.threads|
    requires b3.s.threads[1].pc == Busy && b3.s.task == NoTask
    ensures ReachesBlock(workers, b) && b.phase == Done && b.s.masked == b3.s.masked && b.s.enable == b3.s.enable
  {
    var b4 := Block(b3.s.(threads := b3.s.threads[1 := Thread(Away, {})]), LastWait({1} - {1}));
    OneMoreBlock(workers, b3, Worker(Leave(1)), b4);
    assert b4.phase == LastWait({});
    b := b4.(phase := Done);
    OneMoreBlock(workers, b4, LastFlushed, b);
  }
}
