/** The ACPI Global Lock handshake between the OS and the firmware.

    The lock word in the FACS has two meaningful bits, PENDING and OWNED.  The OS side
    is any number of threads that take the native mutex of the `_GL_` object and then run
    the compare-and-swap loops of `mutex.c`; the firmware side follows section 5.2.10.1 of
    ACPI 6.5; the release interrupt runs `handle_global_lock` of `event.c`.  Every load,
    store, compare-and-swap, spinlock, mutex and event operation is one step, and a run is
    any interleaving of such steps. */
module GlobalLock {
  import opened Options

  /** The 32-bit lock word: bit 0 is PENDING, bit 1 is OWNED. */
  type Word = w: nat | w < 0x1_0000_0000
  type Tid = nat

  /** The number of attempts after which the OS gives up. */
  const MAX_SPINS: nat := 0xFFFF

  predicate IsPending(w: Word) { w % 2 == 1 }
  predicate IsOwned(w: Word) { w / 2 % 2 == 1 }
  /** The 30 bits of the lock word that belong to nobody. */
  function Rest(w: Word): nat { w / 4 }
  /** `w & ~GLOBAL_LOCK_MASK`. */
  function Cleared(w: Word): Word { w / 4 * 4 }

  /** The word an acquire attempt writes: owned, and pending iff it was owned before. */
  function AcquireWord(w: Word): (r: Word)
    ensures IsOwned(r) && (IsPending(r) <==> IsOwned(w)) && Rest(r) == Rest(w)
  {
    Cleared(w) + if IsOwned(w) then 3 else 2
  }

  /** The word a release writes: neither owned nor pending. */
  function ReleaseWord(w: Word): (r: Word)
    ensures !IsOwned(r) && !IsPending(r) && Rest(r) == Rest(w)
  {
    Cleared(w)
  }

  /** Where an OS thread stands. */
  datatype Pc =
    | Idle                               // does not hold the native mutex
    | LockSpin(spins: nat)               // about to take the spinlock
    | Load(spins: nat)                   // about to read the lock word
    | Cas(spins: nat, value: Word)       // about to compare-and-swap
    | Failed(spins: nat)                 // the word was owned; PENDING is now set
    | UnlockToWait(spins: nat)           // about to drop the spinlock and wait
    | Waiting(spins: nat)                // blocked on the event
    | ClearFlag(success: bool)           // about to clear global_lock_pending
    | UnlockDone(success: bool)          // about to drop the spinlock for good
    | Owner                              // owns the Global Lock
    | RelCas(value: Word)                // about to compare-and-swap the release
    | RelNotify                          // about to write GBL_RLS
    | RelNative                          // about to release the native mutex

  /** Where the release interrupt stands. */
  datatype Irq = IrqIdle | IrqLock | IrqCheck | IrqSignal | IrqClear | IrqUnlock

  /** Where the firmware stands. */
  datatype Fw = FwIdle | FwOwner | FwMustNotify | FwWaiting

  datatype Spin = Free | ByThread | ByIrq

  datatype State = State(
    word: Word,                // facs->global_lock
    spin: Spin,                // global_lock_spinlock
    flag: bool,                // global_lock_pending
    event: nat,                // counter of global_lock_event
    native: Option<Tid>,       // native mutex of the _GL_ object
    pcs: map<Tid, Pc>,
    irq: Irq,
    gblSts: bool,              // a release notification to the OS is raised
    fw: Fw,
    gblRls: bool               // a release notification to the firmware is raised
  )

  datatype Action =
    | Thread(t: Tid)           // thread t executes its next step
    | Interrupt                // the release interrupt starts or executes its next step
    | FwAttempt                // the firmware tries to acquire
    | FwRelease                // the firmware releases
    | FwNotify                 // the firmware raises the notification it owes
    | FwResume                 // the firmware sees the OS notification and stops waiting
    | Spurious                 // a notification is raised for no reason

  function At(s: State, t: Tid, p: Pc): State { s.(pcs := s.pcs[t := p]) }

  /** One step of thread t; None when the step is blocked. */
  function ThreadStep(s: State, t: Tid): Option<State>
    requires t in s.pcs
  {
    match s.pcs[t]
    case Idle =>
      if s.native.Some? then None else Some(At(s, t, LockSpin(0)).(native := Some(t)))
    case LockSpin(n) =>
      if s.spin != Free then None else Some(At(s, t, Load(n + 1)).(spin := ByThread))
    case Load(n) => Some(At(s, t, Cas(n, s.word)))
    case Cas(n, v) =>
      if s.word != v then Some(At(s, t, Cas(n, s.word)))
      else
        var next := if IsOwned(v) then Failed(n) else ClearFlag(true);
        Some(At(s, t, next).(word := AcquireWord(v)))
    case Failed(n) =>
      if n == MAX_SPINS then Some(At(s, t, ClearFlag(false)))
      else Some(At(s, t, UnlockToWait(n)).(flag := true))
    case UnlockToWait(n) => Some(At(s, t, Waiting(n)).(spin := Free))
    case Waiting(n) =>
      if s.event == 0 then None else Some(At(s, t, LockSpin(n)).(event := s.event - 1))
    case ClearFlag(ok) => Some(At(s, t, UnlockDone(ok)).(flag := false))
    case UnlockDone(ok) => Some(At(s, t, if ok then Owner else RelNative).(spin := Free))
    case Owner => Some(At(s, t, RelCas(s.word)))
    case RelCas(v) =>
      if s.word != v then Some(At(s, t, RelCas(s.word)))
      else
        var next := if IsPending(v) then RelNotify else RelNative;
        Some(At(s, t, next).(word := ReleaseWord(v)))
    case RelNotify => Some(At(s, t, RelNative).(gblRls := true))
    case RelNative => Some(At(s, t, Idle).(native := None))
  }

  /** One step of the release interrupt.  The status bit is cleared before the handler runs. */
  function IrqStep(s: State): Option<State> {
    match s.irq
    case IrqIdle => if s.gblSts then Some(s.(gblSts := false, irq := IrqLock)) else None
    case IrqLock => if s.spin == Free then Some(s.(spin := ByIrq, irq := IrqCheck)) else None
    case IrqCheck => Some(s.(irq := if s.flag then IrqSignal else IrqUnlock))
    case IrqSignal => Some(s.(event := s.event + 1, irq := IrqClear))
    case IrqClear => Some(s.(flag := false, irq := IrqUnlock))
    case IrqUnlock => Some(s.(spin := Free, irq := IrqIdle))
  }

  function Next(s: State, a: Action): Option<State> {
    match a
    case Thread(t) => if t in s.pcs then ThreadStep(s, t) else None
    case Interrupt => IrqStep(s)
    case FwAttempt =>
      if s.fw != FwIdle && s.fw != FwWaiting then None
      else Some(s.(word := AcquireWord(s.word), fw := if IsOwned(s.word) then FwWaiting else FwOwner))
    case FwRelease =>
      if s.fw != FwOwner then None
      else Some(s.(word := ReleaseWord(s.word), fw := if IsPending(s.word) then FwMustNotify else FwIdle))
    case FwNotify => if s.fw != FwMustNotify then None else Some(s.(gblSts := true, fw := FwIdle))
    case FwResume =>
      if s.fw != FwWaiting || !s.gblRls then None else Some(s.(gblRls := false, fw := FwIdle))
    case Spurious => Some(s.(gblSts := true))
  }

  /** Nobody owns the lock, nobody waits, nothing is raised; the other 30 bits are arbitrary. */
  ghost predicate Init(s: State) {
    && !IsOwned(s.word) && !IsPending(s.word)
    && s.spin == Free && !s.flag && s.event == 0 && s.native == None
    && (forall t :: t in s.pcs ==> s.pcs[t] == Idle)
    && s.irq == IrqIdle && !s.gblSts && s.fw == FwIdle && !s.gblRls
  }

  /** The state after a run, or None if some step of it is blocked. */
  ghost function Exec(s: State, run: seq<Action>): Option<State>
    decreases |run|
  {
    if run == [] then Some(s)
    else
      match Exec(s, run[..|run| - 1])
      case None => None
      case Some(mid) => Next(mid, run[|run| - 1])
  }

  predicate OwnsWord(p: Pc) {
    p == ClearFlag(true) || p == UnlockDone(true) || p.Owner? || p.RelCas?
  }

  predicate HoldsSpin(p: Pc) {
    p.Load? || p.Cas? || p.Failed? || p.UnlockToWait? || p.ClearFlag? || p.UnlockDone?
  }

  /** The one thread that is past its native mutex, if any. */
  function Active(s: State): Pc {
    if s.native.Some? && s.native.value in s.pcs then s.pcs[s.native.value] else Idle
  }

  /** A wakeup for the waiting OS thread is on its way. */
  predicate WakeupComing(s: State) {
    || (s.fw == FwOwner && IsPending(s.word))
    || s.fw == FwMustNotify
    || s.gblSts
    || s.irq == IrqLock || s.irq == IrqCheck || s.irq == IrqSignal
  }

  /** Only the thread that holds the native mutex is under way. */
  ghost predicate Serial(s: State) {
    && (s.native.Some? ==> s.native.value in s.pcs && !Active(s).Idle?)
    && forall t :: t in s.pcs && s.native != Some(t) ==> s.pcs[t] == Idle
  }

  ghost predicate Inv(s: State, rest: nat) {
    var p := Active(s);
    && Rest(s.word) == rest
    && Serial(s)
    && (s.spin == ByThread <==> HoldsSpin(p))
    && (s.spin == ByIrq <==> s.irq == IrqCheck || s.irq == IrqSignal || s.irq == IrqClear || s.irq == IrqUnlock)
    && (IsOwned(s.word) <==> s.fw == FwOwner || OwnsWord(p))
    && !(s.fw == FwOwner && OwnsWord(p))
    && (s.flag && s.irq != IrqClear ==> s.event == 0 && (p.UnlockToWait? || p.Waiting?))
    && (s.irq == IrqSignal ==> s.flag && s.event == 0 && p.Waiting?)
    && (s.irq == IrqClear ==> s.flag && if p.Waiting? then s.event == 1 else p.LockSpin?)
    && (p.Waiting? && !s.flag ==> s.event == 1)
    && (p.UnlockToWait? ==> s.flag)
    && (!p.Waiting? ==> s.event == 0)
    && s.event <= 1
    && (p.Failed? || p.UnlockToWait? || (p.Waiting? && s.event == 0) ==> WakeupComing(s))
    && (s.fw == FwWaiting ==> (OwnsWord(p) && IsPending(s.word)) || p.RelNotify? || s.gblRls)
    && (p.LockSpin? ==> p.spins < MAX_SPINS)
    && (p.Load? || p.Cas? || p.Failed? ==> p.spins <= MAX_SPINS)
    && (p.UnlockToWait? || p.Waiting? ==> p.spins < MAX_SPINS)
  }

  /** A step moves thread t alone; the thread takes the native mutex first and gives it back last. */
  ghost predicate MovesThread(s: State, t: Tid, s': State)
    requires t in s.pcs
  {
    && t in s'.pcs && (forall u :: u in s'.pcs && u != t ==> u in s.pcs && s'.pcs[u] == s.pcs[u])
    && (s'.pcs[t].Idle? <==> s.pcs[t].RelNative?)
    && match s.pcs[t]
       case Idle => s.native == None && s'.native == Some(t)
       case RelNative => s'.native == None
       case _ => s'.native == s.native
  }

  lemma AcquireMovesThread(s: State, t: Tid, s': State)
    requires t in s.pcs && ThreadStep(s, t) == Some(s')
    requires s.pcs[t].LockSpin? || s.pcs[t].Load? || s.pcs[t].Cas? || s.pcs[t].Failed?
    ensures MovesThread(s, t, s')
  {
  }

  lemma WaitMovesThread(s: State, t: Tid, s': State)
    requires t in s.pcs && ThreadStep(s, t) == Some(s')
    requires s.pcs[t].Idle? || s.pcs[t].UnlockToWait? || s.pcs[t].Waiting? || s.pcs[t].ClearFlag? ||
        s.pcs[t].UnlockDone?
    ensures MovesThread(s, t, s')
  {
  }

  lemma ReleaseMovesThread(s: State, t: Tid, s': State)
    requires t in s.pcs && ThreadStep(s, t) == Some(s')
    requires s.pcs[t].Owner? || s.pcs[t].RelCas? || s.pcs[t].RelNotify? || s.pcs[t].RelNative?
    ensures MovesThread(s, t, s')
  {
  }

  lemma StepMovesThread(s: State, t: Tid, s': State)
    requires t in s.pcs && ThreadStep(s, t) == Some(s')
    ensures MovesThread(s, t, s')
  {
    match s.pcs[t]
    case LockSpin(_) => AcquireMovesThread(s, t, s');
    case Load(_) => AcquireMovesThread(s, t, s');
    case Cas(_, _) => AcquireMovesThread(s, t, s');
    case Failed(_) => AcquireMovesThread(s, t, s');
    case Owner => ReleaseMovesThread(s, t, s');
    case RelCas(_) => ReleaseMovesThread(s, t, s');
    case RelNotify => ReleaseMovesThread(s, t, s');
    case RelNative => ReleaseMovesThread(s, t, s');
    case _ => WaitMovesThread(s, t, s');
  }

  /** A thread's step moves the active thread and nobody else. */
  lemma ThreadMovesActive(s: State, t: Tid, s': State)
    requires Serial(s) && t in s.pcs && ThreadStep(s, t) == Some(s')
    ensures t in s'.pcs && Active(s) == s.pcs[t] && Active(s') == s'.pcs[t] && Serial(s')
  {
    StepMovesThread(s, t, s');
  }

  lemma AcquireStepsKeepInv(s: State, t: Tid, s': State, rest: nat)
    requires Inv(s, rest) && t in s.pcs && ThreadStep(s, t) == Some(s')
    requires s.pcs[t].Load? || s.pcs[t].Cas? || s.pcs[t].Failed? || s.pcs[t].UnlockToWait?
    ensures Inv(s', rest)
  {
    ThreadMovesActive(s, t, s');
  }

  lemma ReleaseStepsKeepInv(s: State, t: Tid, s': State, rest: nat)
    requires Inv(s, rest) && t in s.pcs && ThreadStep(s, t) == Some(s')
    requires s.pcs[t].Owner? || s.pcs[t].RelCas? || s.pcs[t].RelNotify? || s.pcs[t].RelNative?
    ensures Inv(s', rest)
  {
  }

  lemma ThreadKeepsInv(s: State, t: Tid, s': State, rest: nat)
    requires Inv(s, rest) && t in s.pcs && ThreadStep(s, t) == Some(s')
    ensures Inv(s', rest)
  {
    var p := s.pcs[t];
    if p.Load? || p.Cas? || p.Failed? || p.UnlockToWait? {
      AcquireStepsKeepInv(s, t, s', rest);
    } else if p.Owner? || p.RelCas? || p.RelNotify? || p.RelNative? {
      ReleaseStepsKeepInv(s, t, s', rest);
    } else {
      ThreadMovesActive(s, t, s');
    }
  }

  lemma InterruptStarts(s: State, s': State, rest: nat)
    requires Inv(s, rest) && IrqStep(s) == Some(s') && (s.irq == IrqIdle || s.irq == IrqLock)
    ensures Inv(s', rest)
  {
  }

  lemma InterruptSignals(s: State, s': State, rest: nat)
    requires Inv(s, rest) && IrqStep(s) == Some(s') && (s.irq == IrqCheck || s.irq == IrqSignal)
    ensures Inv(s', rest)
  {
  }

  lemma InterruptEnds(s: State, s': State, rest: nat)
    requires Inv(s, rest) && IrqStep(s) == Some(s') && (s.irq == IrqClear || s.irq == IrqUnlock)
    ensures Inv(s', rest)
  {
  }

  lemma InterruptKeepsInv(s: State, s': State, rest: nat)
    requires Inv(s, rest) && IrqStep(s) == Some(s')
    ensures Inv(s', rest)
  {
    if s.irq == IrqIdle || s.irq == IrqLock {
      InterruptStarts(s, s', rest);
    } else if s.irq == IrqCheck || s.irq == IrqSignal {
      InterruptSignals(s, s', rest);
    } else {
      InterruptEnds(s, s', rest);
    }
  }

  lemma StepKeepsInv(s: State, a: Action, s': State, rest: nat)
    requires Inv(s, rest) && Next(s, a) == Some(s')
    ensures Inv(s', rest)
  {
    match a
    case Thread(t) => ThreadKeepsInv(s, t, s', rest);
    case Interrupt => InterruptKeepsInv(s, s', rest);
    case FwAttempt => FirmwareAttemptKeepsInv(s, s', rest);
    case FwRelease => FirmwareReleaseKeepsInv(s, s', rest);
    case _ =>
  }

  lemma FirmwareAttemptKeepsInv(s: State, s': State, rest: nat)
    requires Inv(s, rest) && Next(s, FwAttempt) == Some(s')
    ensures Inv(s', rest)
  {
  }

  lemma FirmwareReleaseKeepsInv(s: State, s': State, rest: nat)
    requires Inv(s, rest) && Next(s, FwRelease) == Some(s')
    ensures Inv(s', rest)
  {
  }

  lemma {:induction false} RunKeepsInv(s: State, run: seq<Action>, s': State)
    requires Init(s) && Exec(s, run) == Some(s')
    ensures Inv(s', Rest(s.word))
    decreases |run|
  {
    if run != [] {
      var mid := Exec(s, run[..|run| - 1]).value;
      RunKeepsInv(s, run[..|run| - 1], mid);
      StepKeepsInv(mid, run[|run| - 1], s', Rest(s.word));
    }
  }

  /** What every reachable state promises. */
  ghost predicate Safe(s: State) {
    // one owner at most, and the OWNED bit says whether there is one
    && (forall t, u :: t in s.pcs && u in s.pcs && OwnsWord(s.pcs[t]) && OwnsWord(s.pcs[u]) ==> t == u)
    && (s.fw == FwOwner ==> forall t :: t in s.pcs ==> !OwnsWord(s.pcs[t]))
    && (IsOwned(s.word) <==> s.fw == FwOwner || exists t :: t in s.pcs && OwnsWord(s.pcs[t]))
    // no wakeup of the OS is lost
    && (forall t :: t in s.pcs && s.pcs[t].Waiting? ==> s.event == 1 || WakeupComing(s))
    // no wakeup of the firmware is lost
    && (s.fw == FwWaiting ==>
          || s.gblRls
          || exists t :: t in s.pcs && (s.pcs[t].RelNotify? || (OwnsWord(s.pcs[t]) && IsPending(s.word))))
    && s.event <= 1
  }

  /** Over every interleaving: mutual exclusion, untouched bits, no lost wakeup on either side. */
  lemma HandshakeIsSafe(s: State, run: seq<Action>, s': State)
    requires Init(s) && Exec(s, run) == Some(s')
    ensures Safe(s') && Rest(s'.word) == Rest(s.word)
  {
    RunKeepsInv(s, run, s');
    if s'.native.Some? {
      var t := s'.native.value;
      assert t in s'.pcs && s'.pcs[t] == Active(s');
    }
  }

  /** Upper bound on the steps, none of them by the waiting thread, until its event is signalled. */
  function WaitRank(s: State): nat {
    if s.irq == IrqSignal then 1
    else if s.irq == IrqCheck then 2
    else if s.irq == IrqLock then 3
    else if s.gblSts then (if s.irq == IrqIdle then 4 else 5)
    else if s.fw == FwMustNotify then 6
    else 7
  }

  /** The step of the firmware or of the interrupt that brings the wakeup closer. */
  function Helper(s: State): Action {
    if s.irq == IrqSignal || s.irq == IrqCheck || s.irq == IrqLock || s.gblSts then Interrupt
    else if s.fw == FwMustNotify then FwNotify
    else FwRelease
  }

  lemma HelperMakesProgress(s: State, t: Tid, rest: nat)
    requires Inv(s, rest) && t in s.pcs && s.pcs[t].Waiting? && s.event == 0
    ensures var n := Next(s, Helper(s));
            && n.Some? && t in n.value.pcs && n.value.pcs[t] == s.pcs[t]
            && (n.value.event == 1 || WaitRank(n.value) < WaitRank(s))
  {
  }

  ghost predicate Leads(s: State, rest: seq<Action>, s': State)
    decreases |rest|
  {
    if rest == [] then s == s'
    else Next(s, rest[0]).Some? && Leads(Next(s, rest[0]).value, rest[1..], s')
  }

  lemma {:induction false} HelpersReachSignal(s: State, t: Tid, rest: nat)
    returns (run: seq<Action>, s': State)
    requires Inv(s, rest) && t in s.pcs && s.pcs[t].Waiting?
    ensures Leads(s, run, s') && Inv(s', rest)
    ensures |run| <= 7 && forall i :: 0 <= i < |run| ==> !run[i].Thread?
    ensures t in s'.pcs && s'.pcs[t].Waiting? && s'.event == 1
    ensures |run| <= if s.event == 1 then 0 else WaitRank(s)
    decreases if s.event == 1 then 0 else WaitRank(s)
  {
    if s.event == 1 {
      run, s' := [], s;
    } else {
      HelperMakesProgress(s, t, rest);
      var mid := Next(s, Helper(s)).value;
      StepKeepsInv(s, Helper(s), mid, rest);
      var tail;
      tail, s' := HelpersReachSignal(mid, t, rest);
      run := [Helper(s)] + tail;
      assert run[1..] == tail;
    }
  }

  /** A thread that waits in a reachable state is never stuck: at most seven steps of the firmware
      and of the interrupt signal its event, after which its own step is enabled. */
  lemma WaiterCanAlwaysWake(s: State, run: seq<Action>, s': State, t: Tid)
    requires Init(s) && Exec(s, run) == Some(s') && t in s'.pcs && s'.pcs[t].Waiting?
    ensures exists more: seq<Action>, s'': State ::
              && Leads(s', more, s'') && |more| <= 7 && (forall i :: 0 <= i < |more| ==> !more[i].Thread?)
              && Next(s'', Thread(t)).Some?
  {
    RunKeepsInv(s, run, s');
    var more, s'' := HelpersReachSignal(s', t, Rest(s.word));
  }

  // ------------------------------------------------------------------------------ waiting and giving up

  /** A free lock word that the firmware takes first makes the OS wait: after one attempt the thread blocks. */
  lemma ContentionWaits(s: State, t: Tid) returns (s': State)
    requires Init(s) && t in s.pcs
    ensures Leads(s, [FwAttempt] + Alone(t, 6), s')
    ensures t in s'.pcs && s'.pcs[t] == Waiting(1) && s'.flag && s'.spin == Free && IsPending(s'.word)
  {
    var s0 := Next(s, FwAttempt).value;
    var s1 := Next(s0, Thread(t)).value;
    var s2 := Next(s1, Thread(t)).value;
    var s3 := Next(s2, Thread(t)).value;
    var s4 := Next(s3, Thread(t)).value;
    var s5 := Next(s4, Thread(t)).value;
    s' := Next(s5, Thread(t)).value;
    AloneLeads(s5, t, 1, s');
    AloneLeads(s4, t, 2, s');
    AloneLeads(s3, t, 3, s');
    AloneLeads(s2, t, 4, s');
    AloneLeads(s1, t, 5, s');
    AloneLeads(s0, t, 6, s');
    assert ([FwAttempt] + Alone(t, 6))[1..] == Alone(t, 6);
  }

  /** n steps of thread t. */
  function Alone(t: Tid, n: nat): seq<Action> { seq(n, _ => Thread(t)) }

  lemma AloneLeads(s: State, t: Tid, n: nat, s': State)
    requires n > 0 && Next(s, Thread(t)).Some? && Leads(Next(s, Thread(t)).value, Alone(t, n - 1), s')
    ensures Leads(s, Alone(t, n), s')
  {
    assert Alone(t, n)[1..] == Alone(t, n - 1);
  }

  /** What the compare-and-swaps of thread t found since it last entered acquire: whether the word was owned. */
  ghost function Attempts(s: State, run: seq<Action>, t: Tid): seq<bool>
    decreases |run|
  {
    if run == [] then []
    else
      var before := Attempts(s, run[..|run| - 1], t);
      match Exec(s, run[..|run| - 1])
      case None => before
      case Some(mid) =>
        if run[|run| - 1] != Thread(t) || t !in mid.pcs then before
        else if mid.pcs[t].Idle? then []
        else if mid.pcs[t].Cas? && mid.pcs[t].value == mid.word then before + [IsOwned(mid.word)]
        else before
  }

  ghost predicate AllOwned(found: seq<bool>) { forall i :: 0 <= i < |found| ==> found[i] }

  /** All but the last attempt found the word owned, the last one found it free. */
  ghost predicate LastFree(found: seq<bool>) { found != [] && !found[|found| - 1] && AllOwned(found[..|found| - 1]) }

  /** What a thread has tried when it stands at p. */
  ghost predicate Tried(p: Pc, found: seq<bool>) {
    match p
    case Idle => true
    case LockSpin(n) => |found| == n && AllOwned(found)
    case Load(n) => |found| + 1 == n && AllOwned(found)
    case Cas(n, _) => |found| + 1 == n && AllOwned(found)
    case Failed(n) => |found| == n && AllOwned(found)
    case UnlockToWait(n) => |found| == n && AllOwned(found)
    case Waiting(n) => |found| == n && AllOwned(found)
    case ClearFlag(ok) => Decided(ok, found)
    case UnlockDone(ok) => Decided(ok, found)
    case Owner => LastFree(found)
    case RelCas(_) => LastFree(found)
    case RelNotify => LastFree(found)
    case RelNative => LastFree(found) || (|found| == MAX_SPINS && AllOwned(found))
  }

  ghost predicate Decided(ok: bool, found: seq<bool>) {
    |found| <= MAX_SPINS && if ok then LastFree(found) else |found| == MAX_SPINS && AllOwned(found)
  }

  lemma StepTried(s: State, t: Tid, s': State, found: seq<bool>)
    requires t in s.pcs && ThreadStep(s, t) == Some(s') && Tried(s.pcs[t], found)
    requires s.pcs[t].Cas? || s.pcs[t].Failed? ==> s.pcs[t].spins <= MAX_SPINS
    ensures t in s'.pcs
    ensures var now := if s.pcs[t].Idle? then []
                       else if s.pcs[t].Cas? && s.pcs[t].value == s.word then found + [IsOwned(s.word)] else found;
            Tried(s'.pcs[t], now)
  {
    var p := s.pcs[t];
    if p.Cas? {
      CasTried(s, t, s', found);
    } else if p.Idle? || p.LockSpin? || p.Load? || p.Failed? || p.UnlockToWait? || p.Waiting? {
      WaitTried(s, t, s', found);
    } else {
      DoneTried(s, t, s', found);
    }
  }

  lemma CasTried(s: State, t: Tid, s': State, found: seq<bool>)
    requires t in s.pcs && s.pcs[t].Cas? && s.pcs[t].spins <= MAX_SPINS
    requires ThreadStep(s, t) == Some(s') && Tried(s.pcs[t], found)
    ensures t in s'.pcs
    ensures Tried(s'.pcs[t], if s.pcs[t].value == s.word then found + [IsOwned(s.word)] else found)
  {
    var more := found + [IsOwned(s.word)];
    assert more[..|more| - 1] == found;
  }

  lemma WaitTried(s: State, t: Tid, s': State, found: seq<bool>)
    requires t in s.pcs && ThreadStep(s, t) == Some(s') && Tried(s.pcs[t], found)
    requires s.pcs[t].Idle? || s.pcs[t].LockSpin? || s.pcs[t].Load? || s.pcs[t].Failed? || s.pcs[t].UnlockToWait? ||
             s.pcs[t].Waiting?
    ensures t in s'.pcs && Tried(s'.pcs[t], if s.pcs[t].Idle? then [] else found)
  {
  }

  lemma DoneTried(s: State, t: Tid, s': State, found: seq<bool>)
    requires t in s.pcs && ThreadStep(s, t) == Some(s') && Tried(s.pcs[t], found)
    requires s.pcs[t].ClearFlag? || s.pcs[t].UnlockDone? || s.pcs[t].Owner? || s.pcs[t].RelCas? ||
             s.pcs[t].RelNotify? || s.pcs[t].RelNative?
    ensures t in s'.pcs && Tried(s'.pcs[t], found)
  {
  }

  /** Over every run: a thread waits, and has waited, only after attempts that found the word owned; it succeeds at
      the first attempt that finds it free, and gives up only when 0xFFFF attempts have all found it owned. */
  lemma {:induction false} GivesUpOnlyAtLast(s: State, run: seq<Action>, s': State, t: Tid)
    requires Init(s) && Exec(s, run) == Some(s') && t in s'.pcs
    ensures Tried(s'.pcs[t], Attempts(s, run, t))
    decreases |run|
  {
    if run != [] {
      var init, a := run[..|run| - 1], run[|run| - 1];
      var mid := Exec(s, init).value;
      RunKeepsInv(s, init, mid);
      if a == Thread(t) {
        GivesUpOnlyAtLast(s, init, mid, t);
        assert !mid.pcs[t].Idle? ==> Active(mid) == mid.pcs[t];
        StepTried(mid, t, s', Attempts(s, init, t));
      } else {
        OthersStay(mid, a, s', t);
        GivesUpOnlyAtLast(s, init, mid, t);
      }
    }
  }

  lemma OthersStay(s: State, a: Action, s': State, t: Tid)
    requires Next(s, a) == Some(s') && a != Thread(t) && t in s'.pcs
    ensures t in s.pcs && s'.pcs[t] == s.pcs[t]
  {
    if a.Thread? {
      StepMovesThread(s, a.t, s');
    }
  }

  // ------------------------------------------------------------------------------ getting the lock

  /** Thread t has nothing to wait for but the interrupt handler and the firmware that owns the lock. */
  ghost predicate Ready(s: State, t: Tid) {
    && t in s.pcs
    && match s.pcs[t]
       case Waiting(_) => s.event == 1
       case LockSpin(_) => true
       case Load(_) => !IsOwned(s.word)
       case Cas(_, v) => s.word == v && !IsOwned(v)
       case ClearFlag(ok) => ok
       case UnlockDone(ok) => ok
       case _ => false
  }

  function IrqLeft(irq: Irq): nat {
    match irq case IrqCheck => 4 case IrqSignal => 3 case IrqClear => 2 case IrqUnlock => 1 case _ => 0
  }

  /** Upper bound on the steps until thread t owns the lock. */
  function ReadyRank(s: State, t: Tid): nat
    requires t in s.pcs
  {
    var blocked := IrqLeft(s.irq) + if s.fw == FwOwner then 1 else 0;
    match s.pcs[t]
    case Waiting(_) => 6 + blocked
    case LockSpin(_) => 5 + blocked
    case Load(_) => 4
    case Cas(_, _) => 3
    case ClearFlag(_) => 2
    case UnlockDone(_) => 1
    case _ => 0
  }

  function Advance(s: State, t: Tid): Action
    requires t in s.pcs
  {
    if !s.pcs[t].LockSpin? then Thread(t)
    else if s.spin == ByIrq then Interrupt
    else if s.fw == FwOwner then FwRelease
    else Thread(t)
  }

  lemma AdvanceIsProgress(s: State, t: Tid, rest: nat)
    requires Inv(s, rest) && Ready(s, t)
    ensures var n := Next(s, Advance(s, t));
            && n.Some? && t in n.value.pcs && ReadyRank(n.value, t) < ReadyRank(s, t)
            && (n.value.pcs[t] == Owner || Ready(n.value, t))
  {
    assert Active(s) == s.pcs[t];
  }

  lemma {:induction false} ReadyThreadAcquires(s: State, t: Tid, rest: nat) returns (run: seq<Action>, s': State)
    requires Inv(s, rest) && Ready(s, t)
    ensures Leads(s, run, s') && |run| <= ReadyRank(s, t) && NoOthers(run, t)
    ensures t in s'.pcs && s'.pcs[t] == Owner
    decreases ReadyRank(s, t)
  {
    var a := Advance(s, t);
    AdvanceIsProgress(s, t, rest);
    var mid := Next(s, a).value;
    StepKeepsInv(s, a, mid, rest);
    var tail := [];
    s' := mid;
    if mid.pcs[t] != Owner {
      tail, s' := ReadyThreadAcquires(mid, t, rest);
    }
    run := [a] + tail;
    assert run[1..] == tail;
  }

  /** No thread but t steps. */
  ghost predicate NoOthers(run: seq<Action>, t: Tid) { forall i :: 0 <= i < |run| && run[i].Thread? ==> run[i].t == t }

  lemma {:induction false} LeadsConcat(s: State, a: seq<Action>, mid: State, b: seq<Action>, s': State)
    requires Leads(s, a, mid) && Leads(mid, b, s')
    ensures Leads(s, a + b, s')
    decreases |a|
  {
    if a == [] {
      assert a + b == b;
    } else {
      assert (a + b)[1..] == a[1..] + b;
      LeadsConcat(Next(s, a[0]).value, a[1..], mid, b, s');
    }
  }

  /** A thread that waits in a reachable state can get the lock: within 18 steps of its own, of the firmware and of
      the interrupt, and of no other thread, it owns it. */
  lemma WaiterCanAcquire(s: State, run: seq<Action>, s': State, t: Tid) returns (more: seq<Action>, s'': State)
    requires Init(s) && Exec(s, run) == Some(s') && t in s'.pcs && s'.pcs[t].Waiting?
    ensures Leads(s', more, s'') && |more| <= 18 && NoOthers(more, t)
    ensures t in s''.pcs && s''.pcs[t] == Owner
  {
    var rest := Rest(s.word);
    RunKeepsInv(s, run, s');
    var wake, mid := HelpersReachSignal(s', t, rest);
    var own;
    own, s'' := ReadyThreadAcquires(mid, t, rest);
    LeadsConcat(s', wake, mid, own, s'');
    more := wake + own;
  }

  /** So can a thread that calls acquire while no other one is in between acquire and release. */
  lemma CallerCanAcquire(s: State, run: seq<Action>, s': State, t: Tid) returns (more: seq<Action>, s'': State)
    requires Init(s) && Exec(s, run) == Some(s') && t in s'.pcs && s'.native == None
    ensures Leads(s', more, s'') && |more| <= 11 && NoOthers(more, t)
    ensures t in s''.pcs && s''.pcs[t] == Owner
  {
    var rest := Rest(s.word);
    RunKeepsInv(s, run, s');
    var mid := Next(s', Thread(t)).value;
    StepKeepsInv(s', Thread(t), mid, rest);
    var tail;
    tail, s'' := ReadyThreadAcquires(mid, t, rest);
    more := [Thread(t)] + tail;
    assert more[1..] == tail;
  }

  /** An owner releases on its own, within four steps: the word is free, the next thread can enter, and firmware that
      had set PENDING is notified. */
  lemma OwnerCanRelease(s: State, t: Tid) returns (n: nat, s': State)
    requires t in s.pcs && s.pcs[t] == Owner
    ensures n <= 4 && Leads(s, Alone(t, n), s') && t in s'.pcs && s'.pcs[t] == Idle && s'.native == None
    ensures !IsOwned(s'.word) && !IsPending(s'.word) && (IsPending(s.word) ==> s'.gblRls)
  {
    var s1 := ThreadStep(s, t).value;
    n, s' := CasCanRelease(s1, t);
    n := n + 1;
    AloneLeads(s, t, n, s');
  }

  lemma CasCanRelease(s: State, t: Tid) returns (n: nat, s': State)
    requires t in s.pcs && s.pcs[t] == RelCas(s.word)
    ensures n <= 3 && Leads(s, Alone(t, n), s') && t in s'.pcs && s'.pcs[t] == Idle && s'.native == None
    ensures !IsOwned(s'.word) && !IsPending(s'.word) && (IsPending(s.word) ==> s'.gblRls)
  {
    var s1 := ThreadStep(s, t).value;
    var s2 := ThreadStep(s1, t).value;
    n, s' := 2, s2;
    if IsPending(s.word) {
      n, s' := 3, ThreadStep(s2, t).value;
      AloneLeads(s2, t, 1, s');
    }
    AloneLeads(s1, t, n - 1, s');
    AloneLeads(s, t, n, s');
  }

  // ------------------------------------------------------------------------------ the firmware's turn

  /** Upper bound on the steps until the firmware owns the lock. */
  function FirmwareRank(s: State): nat {
    var p := Active(s);
    (match p
     case ClearFlag(_) => 8
     case UnlockDone(_) => 7
     case Owner => 6
     case RelCas(v) => if v == s.word then 4 else 5
     case RelNotify => 3
     case _ => 0) + if s.fw == FwWaiting then 2 else 1
  }

  /** The step that brings it closer: the OS thread that owns the lock releases it, then the firmware tries again. */
  function ForFirmware(s: State): Action {
    if s.native.Some? && (OwnsWord(Active(s)) || (Active(s).RelNotify? && !s.gblRls)) then Thread(s.native.value)
    else if s.fw == FwWaiting then FwResume
    else FwAttempt
  }

  lemma FirmwareGetsCloser(s: State, rest: nat)
    requires Inv(s, rest) && (s.fw == FwWaiting || s.fw == FwIdle)
    ensures var n := Next(s, ForFirmware(s));
            && n.Some?
            && (|| n.value.fw == FwOwner
                || ((n.value.fw == s.fw || n.value.fw == FwIdle) && FirmwareRank(n.value) < FirmwareRank(s)))
  {
    if s.native.Some? && (OwnsWord(Active(s)) || (Active(s).RelNotify? && !s.gblRls)) {
      ThreadMovesActive(s, s.native.value, Next(s, ForFirmware(s)).value);
    }
  }

  /** Firmware that waits or wants the lock in any reachable state can get it: within ten steps of its own and of the
      thread that owns the lock. */
  lemma {:induction false} FirmwareReachesOwner(s: State, rest: nat) returns (run: seq<Action>, s': State)
    requires Inv(s, rest) && (s.fw == FwWaiting || s.fw == FwIdle)
    ensures Leads(s, run, s') && s'.fw == FwOwner && |run| <= FirmwareRank(s)
    decreases FirmwareRank(s)
  {
    var a := ForFirmware(s);
    FirmwareGetsCloser(s, rest);
    var mid := Next(s, a).value;
    StepKeepsInv(s, a, mid, rest);
    var tail := [];
    s' := mid;
    if mid.fw != FwOwner {
      tail, s' := FirmwareReachesOwner(mid, rest);
    }
    run := [a] + tail;
    assert run[1..] == tail;
  }

  lemma FirmwareCanAcquire(s: State, run: seq<Action>, s': State) returns (more: seq<Action>, s'': State)
    requires Init(s) && Exec(s, run) == Some(s') && (s'.fw == FwWaiting || s'.fw == FwIdle)
    ensures Leads(s', more, s'') && |more| <= 10 && s''.fw == FwOwner
  {
    RunKeepsInv(s, run, s');
    more, s'' := FirmwareReachesOwner(s', Rest(s.word));
  }
}
