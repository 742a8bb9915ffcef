/** The reader/writer lock of `mutex.c` under every interleaving of any number of threads.

    The lock is two native mutexes and a reader count.  The first reader in takes the write
    mutex on behalf of all readers and the last one out gives it back, so the thread that
    releases it need not be the one that took it.  Every native-mutex operation and every load
    and store of the count is one step; taking the write mutex may also fail. */
module RwLock {
  import opened Options

  datatype Pc =
    | Idle
    // uacpi_rw_lock_read, holding the read mutex
    | ReadLoad                    // about to load num_readers
    | ReadStore(seen: nat)        // about to store seen + 1
    | ReadFirst                   // first reader, about to take the write mutex
    | ReadUndo                    // taking it failed, about to store 0
    | ReadLeave(ok: bool)         // about to release the read mutex
    | Reading                     // holds the lock for reading
    // uacpi_rw_unlock_read, holding the read mutex
    | UnreadLoad
    | UnreadStore(seen: nat)
    | UnreadLast                  // last reader, about to release the write mutex
    | UnreadLeave
    | Writing                     // holds the lock for writing

  /** pcs[t] is where thread t stands. */
  datatype State = State(readMutex: Option<nat>, writeMutex: bool, numReaders: nat, pcs: seq<Pc>)

  datatype Action =
    | StartRead(t: nat) | StartWrite(t: nat)   // call uacpi_rw_lock_read / uacpi_rw_lock_write
    | Release(t: nat)                          // call the matching unlock
    | Step(t: nat)                             // execute the next step of the call in progress
    | FailFirst(t: nat)                        // the first reader fails to take the write mutex

  function At(s: State, t: nat, p: Pc): State
    requires t < |s.pcs|
  {
    s.(pcs := s.pcs[t := p])
  }

  /** One step of a call in progress; None when it is blocked. */
  function Advance(s: State, t: nat): Option<State>
    requires t < |s.pcs|
  {
    match s.pcs[t]
    case Idle => None
    case ReadLoad => Some(At(s, t, ReadStore(s.numReaders)))
    case ReadStore(v) =>
      Some(At(s, t, if v == 0 then ReadFirst else ReadLeave(true)).(numReaders := v + 1))
    case ReadFirst =>
      if s.writeMutex then None else Some(At(s, t, ReadLeave(true)).(writeMutex := true))
    case ReadUndo => Some(At(s, t, ReadLeave(false)).(numReaders := 0))
    case ReadLeave(ok) => Some(At(s, t, if ok then Reading else Idle).(readMutex := None))
    case Reading => None
    case UnreadLoad => Some(At(s, t, UnreadStore(s.numReaders)))
    case UnreadStore(v) =>
      // v == 0 would wrap the count around; RwLockIsSafe shows that it does not happen
      var left := if v == 0 then 0xFFFF_FFFF_FFFF_FFFF else v - 1;
      Some(At(s, t, if v == 1 then UnreadLast else UnreadLeave).(numReaders := left))
    case UnreadLast => Some(At(s, t, UnreadLeave).(writeMutex := false))
    case UnreadLeave => Some(At(s, t, Idle).(readMutex := None))
    case Writing => None
  }

  function Next(s: State, a: Action): Option<State> {
    if a.t >= |s.pcs| then None
    else
      var p := s.pcs[a.t];
      match a
      case StartRead(t) =>
        if p != Idle || s.readMutex.Some? then None
        else Some(At(s, t, ReadLoad).(readMutex := Some(t)))
      case StartWrite(t) =>
        if p != Idle || s.writeMutex then None
        else Some(At(s, t, Writing).(writeMutex := true))
      case Release(t) =>
        if p == Writing then Some(At(s, t, Idle).(writeMutex := false))
        else if p == Reading && s.readMutex.None? then Some(At(s, t, UnreadLoad).(readMutex := Some(t)))
        else None
      case Step(t) => Advance(s, t)
      case FailFirst(t) => if p != ReadFirst then None else Some(At(s, t, ReadUndo))
  }

  ghost predicate Init(s: State) {
    s.readMutex == None && !s.writeMutex && s.numReaders == 0 && forall t :: 0 <= t < |s.pcs| ==> s.pcs[t] == Idle
  }

  ghost function Exec(s: State, run: seq<Action>): Option<State>
    decreases |run|
  {
    if run == [] then Some(s)
    else
      match Exec(s, run[..|run| - 1])
      case None => None
      case Some(mid) => Next(mid, run[|run| - 1])
  }

  /** The thread is inside a section guarded by the read mutex. */
  predicate Guarded(p: Pc) { p != Idle && p != Reading && p != Writing }

  /** The thread is one of those that num_readers counts. */
  predicate Counted(p: Pc) {
    p == ReadFirst || p == ReadUndo || p == ReadLeave(true) || p == Reading || p == UnreadLoad || p.UnreadStore?
  }

  /** The write mutex is held on behalf of the thread as a reader. */
  predicate Covered(p: Pc) { (Counted(p) && p != ReadFirst && p != ReadUndo) || p == UnreadLast }

  /** How many threads num_readers counts, how many the write mutex covers, how many write, and how
      many hold the lock for reading. */
  datatype Tally = Tally(counted: nat, covered: nat, writers: nat, readers: nat)

  function One(b: bool): nat { if b then 1 else 0 }

  function TallyOf(pcs: seq<Pc>): Tally {
    if pcs == [] then Tally(0, 0, 0, 0)
    else
      var p := pcs[|pcs| - 1];
      var rest := TallyOf(pcs[..|pcs| - 1]);
      Tally(rest.counted + One(Counted(p)), rest.covered + One(Covered(p)),
            rest.writers + One(p == Writing), rest.readers + One(p == Reading))
  }

  /** Moving one thread moves the tally by that thread alone. */
  lemma {:induction false} TallyMove(pcs: seq<Pc>, t: nat, p: Pc)
    requires t < |pcs|
    ensures var a, b := TallyOf(pcs), TallyOf(pcs[t := p]);
            && b.counted == a.counted - One(Counted(pcs[t])) + One(Counted(p))
            && b.covered == a.covered - One(Covered(pcs[t])) + One(Covered(p))
            && b.writers == a.writers - One(pcs[t] == Writing) + One(p == Writing)
            && b.readers == a.readers - One(pcs[t] == Reading) + One(p == Reading)
  {
    var n := |pcs| - 1;
    if t < n {
      TallyMove(pcs[..n], t, p);
      assert pcs[t := p][..n] == pcs[..n][t := p];
    } else {
      assert pcs[t := p][..n] == pcs[..n];
    }
  }

  /** A thread in a class makes its tally positive, and two threads make it at least two. */
  lemma {:induction false} TallyBounds(pcs: seq<Pc>, t: nat)
    requires t < |pcs|
    ensures var a := TallyOf(pcs);
            && a.counted >= One(Counted(pcs[t])) && a.covered >= One(Covered(pcs[t]))
            && a.writers >= One(pcs[t] == Writing) && a.readers >= One(pcs[t] == Reading)
    ensures forall u :: 0 <= u < |pcs| && u != t ==>
              TallyOf(pcs).writers >= One(pcs[t] == Writing) + One(pcs[u] == Writing)
  {
    var n := |pcs| - 1;
    if t < n {
      TallyBounds(pcs[..n], t);
    }
    forall u | 0 <= u < n && t == n
      ensures TallyOf(pcs).writers >= One(pcs[t] == Writing) + One(pcs[u] == Writing)
    {
      TallyBounds(pcs[..n], u);
    }
  }

  /** The guarded thread is between taking part in the count and in the write mutex. */
  predicate Transient(p: Pc) { p == ReadFirst || p == ReadUndo || p == UnreadLast }

  /** What the thread inside the guarded section, if any, knows. */
  ghost predicate GuardInv(p: Pc, numReaders: nat, c: Tally) {
    && (p.ReadStore? || p.UnreadStore? ==> p.seen == numReaders)
    && (p == ReadFirst || p == ReadUndo ==> c.counted == 1 && c.covered == 0)
    && (p == UnreadLast ==> c.counted == 0 && c.covered == 1)
    && (!Transient(p) ==> c.counted == c.covered)
  }

  /** The thread that holds the read mutex. */
  function Holder(s: State): Pc {
    if s.readMutex.Some? && s.readMutex.value < |s.pcs| then s.pcs[s.readMutex.value] else Idle
  }

  /** The read mutex is held exactly by the thread inside a guarded section. */
  ghost predicate MutexInv(s: State) {
    && (forall t :: 0 <= t < |s.pcs| && Guarded(s.pcs[t]) ==> s.readMutex == Some(t))
    && (s.readMutex.Some? ==> s.readMutex.value < |s.pcs| && Guarded(Holder(s)))
  }

  ghost predicate TallyInv(s: State, c: Tally) {
    && GuardInv(Holder(s), s.numReaders, c)
    && s.numReaders == c.counted
    && c.writers <= 1
    && (c.writers == 0 || c.covered == 0)
    && (s.writeMutex <==> c.writers + c.covered > 0)
  }

  ghost predicate Inv(s: State) { MutexInv(s) && TallyInv(s, TallyOf(s.pcs)) }

  /** c' is c with one thread moved from p to p'. */
  ghost predicate Moved(c: Tally, p: Pc, c': Tally, p': Pc) {
    && c'.counted == c.counted - One(Counted(p)) + One(Counted(p'))
    && c'.covered == c.covered - One(Covered(p)) + One(Covered(p'))
    && c'.writers == c.writers - One(p == Writing) + One(p' == Writing)
    && c.counted >= One(Counted(p)) && c.covered >= One(Covered(p)) && c.writers >= One(p == Writing)
  }

  lemma AdvanceKeepsTally(s: State, t: nat, s': State, c: Tally, c': Tally)
    requires t < |s.pcs| && MutexInv(s) && TallyInv(s, c) && Advance(s, t) == Some(s')
    requires Moved(c, s.pcs[t], c', s'.pcs[t])
    ensures TallyInv(s', c')
  {
    assert Holder(s) == s.pcs[t];
    assert Holder(s') == if s'.readMutex.None? then Idle else s'.pcs[t];
  }

  lemma CallKeepsTally(s: State, a: Action, s': State, c: Tally, c': Tally)
    requires !a.Step? && MutexInv(s) && TallyInv(s, c) && Next(s, a) == Some(s')
    requires Moved(c, s.pcs[a.t], c', s'.pcs[a.t])
    ensures TallyInv(s', c')
  {
  }

  /** A step moves one thread, which enters or leaves a guarded section just when it takes or releases the
      read mutex. */
  ghost predicate MovesOne(s: State, t: nat, s': State) {
    && t < |s.pcs| == |s'.pcs| && s'.pcs == s.pcs[t := s'.pcs[t]]
    && var before, after := Guarded(s.pcs[t]), Guarded(s'.pcs[t]);
       || (before == after && s'.readMutex == s.readMutex)
       || (!before && after && s.readMutex == None && s'.readMutex == Some(t))
       || (before && !after && s'.readMutex == None)
  }

  lemma AdvanceMovesOne(s: State, t: nat, s': State)
    requires t < |s.pcs| && Advance(s, t) == Some(s')
    ensures MovesOne(s, t, s')
  {
    assert s'.pcs == s.pcs[t := s'.pcs[t]];
  }

  lemma CallMovesOne(s: State, a: Action, s': State)
    requires !a.Step? && Next(s, a) == Some(s')
    ensures MovesOne(s, a.t, s')
  {
    assert s'.pcs == s.pcs[a.t := s'.pcs[a.t]];
  }

  lemma StepKeepsMutex(s: State, a: Action, s': State)
    requires MutexInv(s) && Next(s, a) == Some(s')
    ensures MutexInv(s') && MovesOne(s, a.t, s')
  {
    if a.Step? {
      AdvanceMovesOne(s, a.t, s');
    } else {
      CallMovesOne(s, a, s');
    }
  }

  lemma TallyMoved(s: State, t: nat, s': State)
    requires t < |s.pcs| == |s'.pcs| && s'.pcs == s.pcs[t := s'.pcs[t]]
    ensures Moved(TallyOf(s.pcs), s.pcs[t], TallyOf(s'.pcs), s'.pcs[t])
  {
    TallyMove(s.pcs, t, s'.pcs[t]);
    TallyBounds(s.pcs, t);
  }

  lemma StepKeepsInv(s: State, a: Action, s': State)
    requires Inv(s) && Next(s, a) == Some(s')
    ensures Inv(s')
  {
    StepKeepsMutex(s, a, s');
    TallyMoved(s, a.t, s');
    if a.Step? {
      AdvanceKeepsTally(s, a.t, s', TallyOf(s.pcs), TallyOf(s'.pcs));
    } else {
      CallKeepsTally(s, a, s', TallyOf(s.pcs), TallyOf(s'.pcs));
    }
  }

  lemma {:induction false} TallyInit(pcs: seq<Pc>)
    requires forall t :: 0 <= t < |pcs| ==> pcs[t] == Idle
    ensures TallyOf(pcs) == Tally(0, 0, 0, 0)
  {
    if pcs != [] {
      TallyInit(pcs[..|pcs| - 1]);
    }
  }

  lemma {:induction false} RunKeepsInv(s: State, run: seq<Action>, s': State)
    requires Init(s) && Exec(s, run) == Some(s')
    ensures Inv(s')
    decreases |run|
  {
    if run == [] {
      TallyInit(s.pcs);
    } else {
      var mid := Exec(s, run[..|run| - 1]).value;
      RunKeepsInv(s, run[..|run| - 1], mid);
      StepKeepsInv(mid, run[|run| - 1], s');
    }
  }

  /** Outside guarded sections exactly the readers are counted. */
  lemma {:induction false} ReadersAreCounted(pcs: seq<Pc>)
    requires forall t :: 0 <= t < |pcs| ==> !Guarded(pcs[t])
    ensures TallyOf(pcs).counted == TallyOf(pcs).readers
  {
    if pcs != [] {
      ReadersAreCounted(pcs[..|pcs| - 1]);
    }
  }

  // ------------------------------------------------------------------------------------------- progress

  /** How far a thread is from being idle when it starts nothing new. */
  function Rank(p: Pc): nat {
    match p
    case Idle => 0
    case ReadLoad => 9
    case ReadStore(_) => 8
    case ReadFirst => 7
    case ReadUndo => 2
    case ReadLeave(ok) => if ok then 6 else 1
    case Reading => 5
    case UnreadLoad => 4
    case UnreadStore(_) => 3
    case UnreadLast => 2
    case UnreadLeave => 1
    case Writing => 1
  }

  function RankOf(pcs: seq<Pc>): nat {
    if pcs == [] then 0 else RankOf(pcs[..|pcs| - 1]) + Rank(pcs[|pcs| - 1])
  }

  lemma {:induction false} RankMove(pcs: seq<Pc>, t: nat, p: Pc)
    requires t < |pcs|
    ensures RankOf(pcs[t := p]) == RankOf(pcs) - Rank(pcs[t]) + Rank(p)
  {
    var n := |pcs| - 1;
    if t < n {
      RankMove(pcs[..n], t, p);
      assert pcs[t := p][..n] == pcs[..n][t := p];
    } else {
      assert pcs[t := p][..n] == pcs[..n];
    }
  }

  /** A thread of each class that is not empty. */
  lemma {:induction false} SomeWriter(pcs: seq<Pc>) returns (t: nat)
    requires TallyOf(pcs).writers > 0
    ensures t < |pcs| && pcs[t] == Writing
  {
    var n := |pcs| - 1;
    if pcs[n] == Writing {
      t := n;
    } else {
      t := SomeWriter(pcs[..n]);
    }
  }

  /** In every reachable state a thread inside a guarded section can step, or it is the first reader, waiting for a
      thread that writes; and a thread that writes can release the lock. */
  lemma GuardedCanStep(s: State, t: nat) returns (u: nat)
    requires Inv(s) && t < |s.pcs| && Guarded(s.pcs[t])
    ensures Next(s, Step(t)).Some? || (s.pcs[t] == ReadFirst && u < |s.pcs| && s.pcs[u] == Writing)
  {
    u := 0;
    if s.pcs[t] == ReadFirst && s.writeMutex {
      u := SomeWriter(s.pcs);
    }
  }

  /** An action that ends or continues a call. */
  predicate Ends(a: Action) { a.Release? || a.Step? }

  /** Unless all are idle, somebody can go on or release the lock, and is then closer to being idle. */
  lemma SomebodyEnds(s: State) returns (a: Action, s': State)
    requires Inv(s) && exists t :: 0 <= t < |s.pcs| && s.pcs[t] != Idle
    ensures Ends(a) && Next(s, a) == Some(s') && Inv(s') && RankOf(s'.pcs) < RankOf(s.pcs)
  {
    a := EnabledEnd(s);
    s' := Next(s, a).value;
    StepKeepsInv(s, a, s');
    StepKeepsMutex(s, a, s');
    EndsLower(s, a, s');
    RankMove(s.pcs, a.t, s'.pcs[a.t]);
  }

  lemma EnabledEnd(s: State) returns (a: Action)
    requires Inv(s) && exists t :: 0 <= t < |s.pcs| && s.pcs[t] != Idle
    ensures Ends(a) && Next(s, a).Some?
  {
    var t :| 0 <= t < |s.pcs| && s.pcs[t] != Idle;
    if s.readMutex.Some? {
      t := s.readMutex.value;
      a := Step(t);
      var u := GuardedCanStep(s, t);
      if Next(s, a).None? {
        a := Release(u);
      }
    } else {
      a := Release(t);
    }
  }

  lemma EndsLower(s: State, a: Action, s': State)
    requires Ends(a) && Next(s, a) == Some(s') && |s'.pcs| == |s.pcs|
    ensures Rank(s'.pcs[a.t]) < Rank(s.pcs[a.t])
  {
  }

  /** No deadlock: from every reachable state the calls in progress can be ended and the lock released by all, without
      any new call, and then it is as it was at the start. */
  lemma {:induction false} CanDrain(s: State) returns (run: seq<Action>, s': State)
    requires Inv(s)
    ensures (forall i :: 0 <= i < |run| ==> Ends(run[i])) && Exec(s, run) == Some(s') && Init(s')
    decreases RankOf(s.pcs)
  {
    if t :| 0 <= t < |s.pcs| && s.pcs[t] != Idle {
      var a, mid := SomebodyEnds(s);
      var rest;
      rest, s' := CanDrain(mid);
      run := [a] + rest;
      ExecFrom(s, a, mid, rest);
    } else {
      run, s' := [], s;
      TallyInit(s.pcs);
    }
  }

  lemma {:induction false} ExecFrom(s: State, a: Action, mid: State, run: seq<Action>)
    requires Next(s, a) == Some(mid)
    ensures Exec(s, [a] + run) == Exec(mid, run)
    decreases |run|
  {
    var all := [a] + run;
    if run == [] {
      assert all[..0] == [];
    } else {
      var before := run[..|run| - 1];
      assert all[..|all| - 1] == [a] + before && all[|all| - 1] == run[|run| - 1];
      ExecFrom(s, a, mid, before);
    }
  }

  /** That holds of every state a run leads to. */
  lemma RwLockNeverDeadlocks(s: State, run: seq<Action>, s': State) returns (more: seq<Action>, end: State)
    requires Init(s) && Exec(s, run) == Some(s')
    ensures (forall i :: 0 <= i < |more| ==> Ends(more[i])) && Exec(s', more) == Some(end) && Init(end)
  {
    RunKeepsInv(s, run, s');
    more, end := CanDrain(s');
  }

  // --------------------------------------------------------------------------------------------- safety

  /** Over every interleaving a writer excludes readers and other writers, whenever the read mutex is
      free num_readers is the exact number of threads that hold the lock for reading, and the count
      never wraps around. */
  lemma RwLockIsSafe(s: State, run: seq<Action>, s': State)
    requires Init(s) && Exec(s, run) == Some(s')
    ensures forall t, u :: 0 <= t < |s'.pcs| && 0 <= u < |s'.pcs| && s'.pcs[t] == Writing ==>
              s'.pcs[u] != Reading && (s'.pcs[u] == Writing ==> t == u)
    ensures s'.readMutex.None? ==> s'.numReaders == TallyOf(s'.pcs).readers
    ensures forall t :: 0 <= t < |s'.pcs| && (s'.pcs[t] == Writing || s'.pcs[t] == Reading) ==> s'.writeMutex
    ensures forall t :: 0 <= t < |s'.pcs| && s'.pcs[t].UnreadStore? ==> s'.pcs[t].seen > 0
  {
    RunKeepsInv(s, run, s');
    forall t | 0 <= t < |s'.pcs|
      ensures TallyOf(s'.pcs).covered >= One(Covered(s'.pcs[t])) && TallyOf(s'.pcs).writers >= One(s'.pcs[t] == Writing)
      ensures TallyOf(s'.pcs).counted >= One(Counted(s'.pcs[t]))
      ensures forall u :: 0 <= u < |s'.pcs| && u != t ==>
                TallyOf(s'.pcs).writers >= One(s'.pcs[t] == Writing) + One(s'.pcs[u] == Writing)
    {
      TallyBounds(s'.pcs, t);
    }
    if s'.readMutex.None? {
      ReadersAreCounted(s'.pcs);
    }
  }

  // ------------------------------------------------------------------------------------- getting in

  /** n steps of thread t; None when one of them is blocked. */
  ghost function Steps(s: State, t: nat, n: nat): Option<State>
    decreases n
  {
    if n == 0 then Some(s)
    else match Next(s, Step(t)) case None => None case Some(mid) => Steps(mid, t, n - 1)
  }

  lemma {:induction false} NoWriters(pcs: seq<Pc>)
    requires forall t :: 0 <= t < |pcs| ==> pcs[t] != Writing
    ensures TallyOf(pcs).writers == 0
  {
    if pcs != [] {
      NoWriters(pcs[..|pcs| - 1]);
    }
  }

  lemma {:induction false} NobodyCounted(pcs: seq<Pc>)
    requires forall t :: 0 <= t < |pcs| ==> pcs[t] == Idle
    ensures TallyOf(pcs) == Tally(0, 0, 0, 0)
  {
    if pcs != [] {
      NobodyCounted(pcs[..|pcs| - 1]);
    }
  }

  /** While nobody writes and no other call is in progress, a reader gets in on its own, beside those that read; nobody
      else moves. */
  lemma ReadersShare(s: State, run: seq<Action>, s': State, t: nat) returns (s1: State, n: nat, s'': State)
    requires Init(s) && Exec(s, run) == Some(s') && t < |s'.pcs| && s'.pcs[t] == Idle
    requires s'.readMutex == None && forall u :: 0 <= u < |s'.pcs| ==> s'.pcs[u] != Writing
    ensures Next(s', StartRead(t)) == Some(s1) && n <= 4 && Steps(s1, t, n) == Some(s'')
    ensures s''.pcs == s'.pcs[t := Reading] && s''.readMutex == None && s''.numReaders == s'.numReaders + 1
    ensures s''.writeMutex
  {
    RunKeepsInv(s, run, s');
    NoWriters(s'.pcs);
    s1 := Next(s', StartRead(t)).value;
    var s2 := Next(s1, Step(t)).value;
    var s3 := Next(s2, Step(t)).value;
    if s'.numReaders == 0 {
      var s4 := Next(s3, Step(t)).value;
      n, s'' := 4, Next(s4, Step(t)).value;
      assert Steps(s4, t, 1) == Some(s'');
      assert Steps(s3, t, 2) == Some(s'');
    } else {
      n, s'' := 3, Next(s3, Step(t)).value;
      assert Steps(s3, t, 1) == Some(s'');
    }
    assert Steps(s2, t, n - 1) == Some(s'');
    assert s''.pcs == s'.pcs[t := Reading];
  }

  /** While no call is in progress, a writer gets in if and only if nobody reads or writes. */
  lemma WriterEntersExactly(s: State, run: seq<Action>, s': State, t: nat)
    requires Init(s) && Exec(s, run) == Some(s') && t < |s'.pcs| && s'.pcs[t] == Idle && s'.readMutex == None
    ensures Next(s', StartWrite(t)).Some? <==>
            forall u :: 0 <= u < |s'.pcs| ==> s'.pcs[u] != Reading && s'.pcs[u] != Writing
    ensures Next(s', StartWrite(t)).Some? ==> Next(s', StartWrite(t)).value.pcs == s'.pcs[t := Writing]
  {
    RunKeepsInv(s, run, s');
    if forall u :: 0 <= u < |s'.pcs| ==> s'.pcs[u] != Reading && s'.pcs[u] != Writing {
      forall u | 0 <= u < |s'.pcs|
        ensures s'.pcs[u] == Idle
      {
        assert !Guarded(s'.pcs[u]);
      }
      NobodyCounted(s'.pcs);
    } else {
      var u :| 0 <= u < |s'.pcs| && (s'.pcs[u] == Reading || s'.pcs[u] == Writing);
      TallyBounds(s'.pcs, u);
    }
  }

  /** A first reader that fails to take the write mutex leaves the lock as it found it. */
  lemma FailedReaderLeaves(s: State, run: seq<Action>, s': State, t: nat) returns (s1: State, s'': State)
    requires Init(s) && Exec(s, run) == Some(s') && t < |s'.pcs| && s'.pcs[t] == ReadFirst
    ensures Next(s', FailFirst(t)) == Some(s1) && Steps(s1, t, 2) == Some(s'')
    ensures s'' == State(None, s'.writeMutex, 0, s'.pcs[t := Idle])
  {
    s1 := At(s', t, ReadUndo);
    var s2 := At(s1, t, ReadLeave(false)).(numReaders := 0);
    s'' := At(s2, t, Idle).(readMutex := None);
    assert Steps(s2, t, 1) == Some(s'');
    assert s''.pcs == s'.pcs[t := Idle];
  }
}
