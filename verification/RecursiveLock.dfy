/** The recursive locks of `mutex.c` under every interleaving: `uacpi_recursive_lock` and the AML
    mutex, which adds a recursion limit and may fail to get the Global Lock from the firmware.

    The owner field is read without holding the native mutex.  Each load and store of owner and
    depth and each native-mutex operation is one step. */
module RecursiveLock {
  import opened Options

  datatype Pc =
    | Idle
    // acquire, the owner field was this thread
    | DeepLoad                  // about to load depth
    | DeepStore(seen: nat)      // about to store seen + 1
    // acquire, the owner field was somebody else or nobody
    | WantNative                // about to take the native mutex
    | GotNative                 // holds it, about to ask the firmware
    | Undo                      // the firmware refused, about to give the native mutex back
    | StoreOwner                // about to store owner
    | StoreDepth                // about to store depth = 1
    // release
    | RelLoad                   // about to load depth
    | RelStore(seen: nat)       // about to store seen - 1
    | RelOwner                  // about to store owner = NONE
    | RelNative                 // about to release the native mutex

  /** What a thread is doing, and how many of its successful acquires it has not released yet. */
  datatype Client = Client(pc: Pc, holds: nat)

  datatype State = State(owner: Option<nat>, depth: nat, native: Option<nat>, clients: seq<Client>)

  datatype Action =
    | Acquire(t: nat)           // call acquire: load the owner field
    | Release(t: nat)           // call release, after checking that the owner field is this thread
    | Step(t: nat)              // execute the next step of the call in progress
    | Fail(t: nat)              // the wait for the native mutex times out, or the firmware refuses

  function At(s: State, t: nat, c: Client): State
    requires t < |s.clients|
  {
    s.(clients := s.clients[t := c])
  }

  /** One step of a call in progress.  `limit` is the largest recursion depth, if there is one:
      0xFFFF for an AML mutex, none for uacpi_recursive_lock. */
  function Advance(s: State, t: nat, limit: Option<nat>): Option<State>
    requires t < |s.clients|
  {
    var h := s.clients[t].holds;
    match s.clients[t].pc
    case Idle => None
    case DeepLoad => Some(At(s, t, Client(if limit == Some(s.depth) then Idle else DeepStore(s.depth), h)))
    case DeepStore(v) => Some(At(s, t, Client(Idle, h + 1)).(depth := v + 1))
    case WantNative =>
      if s.native.Some? then None else Some(At(s, t, Client(GotNative, h)).(native := Some(t)))
    case GotNative => Some(At(s, t, Client(StoreOwner, h)))
    case Undo => Some(At(s, t, Client(Idle, h)).(native := None))
    case StoreOwner => Some(At(s, t, Client(StoreDepth, h)).(owner := Some(t)))
    case StoreDepth => Some(At(s, t, Client(Idle, h + 1)).(depth := 1))
    case RelLoad => Some(At(s, t, Client(RelStore(s.depth), h)))
    case RelStore(v) =>
      if v == 0 || h == 0 then None
      else Some(At(s, t, Client(if v > 1 then Idle else RelOwner, h - 1)).(depth := v - 1))
    case RelOwner => Some(At(s, t, Client(RelNative, h)).(owner := None))
    case RelNative => Some(At(s, t, Client(Idle, h)).(native := None))
  }

  function Next(s: State, a: Action, limit: Option<nat>): Option<State> {
    if a.t >= |s.clients| then None
    else
      var c := s.clients[a.t];
      match a
      case Acquire(t) =>
        if c.pc != Idle then None
        else Some(At(s, t, c.(pc := if s.owner == Some(t) then DeepLoad else WantNative)))
      case Release(t) =>
        if c.pc != Idle || s.owner != Some(t) then None else Some(At(s, t, c.(pc := RelLoad)))
      case Step(t) => Advance(s, t, limit)
      case Fail(t) =>
        if c.pc == WantNative then Some(At(s, t, c.(pc := Idle)))
        else if c.pc == GotNative then Some(At(s, t, c.(pc := Undo)))
        else None
  }

  ghost predicate Init(s: State) {
    s.owner == None && s.depth == 0 && s.native == None &&
    forall t :: 0 <= t < |s.clients| ==> s.clients[t] == Client(Idle, 0)
  }

  ghost function Exec(s: State, run: seq<Action>, limit: Option<nat>): Option<State>
    decreases |run|
  {
    if run == [] then Some(s)
    else
      match Exec(s, run[..|run| - 1], limit)
      case None => None
      case Some(mid) => Next(mid, run[|run| - 1], limit)
  }

  /** The thread is between taking and giving back the native mutex. */
  predicate Inside(c: Client) {
    || c.holds > 0
    || c.pc in {GotNative, Undo, StoreOwner, StoreDepth, RelOwner, RelNative}
  }

  /** What the thread that holds the native mutex may assume about the shared fields. */
  ghost predicate HolderInv(s: State, t: nat, c: Client, limit: Option<nat>) {
    match c.pc
    case GotNative => c.holds == 0 && s.owner == None
    case Undo => c.holds == 0 && s.owner == None
    case StoreOwner => c.holds == 0 && s.owner == None
    case StoreDepth => c.holds == 0 && s.owner == Some(t)
    case RelOwner => c.holds == 0 && s.owner == Some(t)
    case RelNative => c.holds == 0 && s.owner == None
    case WantNative => false
    case DeepStore(v) =>
      c.holds > 0 && s.owner == Some(t) && s.depth == c.holds && v == s.depth && limit != Some(v) &&
      (limit.Some? ==> s.depth <= limit.value)
    case RelStore(v) =>
      c.holds > 0 && s.owner == Some(t) && s.depth == c.holds && v == s.depth &&
      (limit.Some? ==> s.depth <= limit.value)
    case _ =>
      c.holds > 0 && s.owner == Some(t) && s.depth == c.holds && (limit.Some? ==> s.depth <= limit.value)
  }

  ghost predicate Inv(s: State, limit: Option<nat>) {
    && (s.native == None ==> s.owner == None)
    && (s.native.Some? ==>
          var t := s.native.value;
          t < |s.clients| && HolderInv(s, t, s.clients[t], limit))
    && (forall t :: 0 <= t < |s.clients| && s.native != Some(t) ==>
          s.clients[t].holds == 0 && (s.clients[t].pc == Idle || s.clients[t].pc == WantNative))
  }

  /** A step of the thread that holds the native mutex. */
  lemma HolderStep(s: State, a: Action, s': State, limit: Option<nat>)
    requires limit.Some? ==> limit.value >= 1
    requires Next(s, a, limit) == Some(s') && s.native == Some(a.t) && HolderInv(s, a.t, s.clients[a.t], limit)
    ensures a.t < |s'.clients|
    ensures if s'.native == None then s'.owner == None && s'.clients[a.t] == Client(Idle, 0)
            else s'.native == Some(a.t) && HolderInv(s', a.t, s'.clients[a.t], limit)
  {
  }

  /** A step of a thread that does not hold the native mutex. */
  lemma OutsiderStep(s: State, a: Action, s': State, limit: Option<nat>)
    requires Next(s, a, limit) == Some(s') && s.native != Some(a.t) && s.owner != Some(a.t)
    requires s.native == None ==> s.owner == None
    requires s.clients[a.t] == Client(Idle, 0) || s.clients[a.t] == Client(WantNative, 0)
    ensures a.t < |s'.clients| && s'.owner == s.owner && s'.depth == s.depth
    ensures if s'.native == s.native then s'.clients[a.t] == Client(Idle, 0) || s'.clients[a.t] == Client(WantNative, 0)
            else s.native == None && s'.native == Some(a.t) && HolderInv(s', a.t, s'.clients[a.t], limit)
  {
  }

  lemma StepKeepsInv(s: State, a: Action, s': State, limit: Option<nat>)
    requires limit.Some? ==> limit.value >= 1
    requires Inv(s, limit) && Next(s, a, limit) == Some(s')
    ensures Inv(s', limit)
  {
    if s.native == Some(a.t) {
      HolderStep(s, a, s', limit);
    } else {
      OutsiderStep(s, a, s', limit);
    }
  }

  lemma {:induction false} RunKeepsInv(s: State, run: seq<Action>, s': State, limit: Option<nat>)
    requires limit.Some? ==> limit.value >= 1
    requires Init(s) && Exec(s, run, limit) == Some(s')
    ensures Inv(s', limit)
    decreases |run|
  {
    if run != [] {
      var mid := Exec(s, run[..|run| - 1], limit).value;
      RunKeepsInv(s, run[..|run| - 1], mid, limit);
      StepKeepsInv(mid, run[|run| - 1], s', limit);
    }
  }

  /** Over every interleaving at most one thread has the lock; a thread that is not in the middle of a
      call reads its own id in owner exactly when it has the lock, it then holds the native mutex and
      depth is the number of its unreleased acquires, within the limit. */
  lemma RecursiveLockIsSafe(s: State, run: seq<Action>, s': State, limit: Option<nat>)
    requires limit.Some? ==> limit.value >= 1
    requires Init(s) && Exec(s, run, limit) == Some(s')
    ensures forall t, u ::
              0 <= t < |s'.clients| && 0 <= u < |s'.clients| && Inside(s'.clients[t]) && Inside(s'.clients[u])
              ==> t == u
    ensures forall t :: 0 <= t < |s'.clients| && s'.clients[t].pc == Idle ==>
              (s'.owner == Some(t) <==> s'.clients[t].holds > 0)
    ensures forall t :: 0 <= t < |s'.clients| && s'.clients[t].holds > 0 && !s'.clients[t].pc.RelOwner? ==>
              && s'.native == Some(t) && s'.depth == s'.clients[t].holds
              && (limit.Some? ==> s'.depth <= limit.value)
    ensures s'.owner.Some? ==> s'.native == s'.owner
    ensures forall t :: 0 <= t < |s'.clients| && s'.clients[t].pc.RelStore? ==>
              s'.clients[t].pc.seen > 0 && s'.clients[t].holds > 0
  {
    RunKeepsInv(s, run, s', limit);
  }

  // ------------------------------------------------------------------------------- what the calls achieve

  /** n steps of thread t; None when one of them is blocked. */
  ghost function Steps(s: State, t: nat, n: nat, limit: Option<nat>): Option<State>
    decreases n
  {
    if n == 0 then Some(s)
    else match Next(s, Step(t), limit) case None => None case Some(mid) => Steps(mid, t, n - 1, limit)
  }

  /** The call a and then n steps lead from s to s'. */
  ghost predicate CallLeads(s: State, a: Action, n: nat, limit: Option<nat>, s': State) {
    Next(s, a, limit).Some? && Steps(Next(s, a, limit).value, a.t, n, limit) == Some(s')
  }

  /** A thread that calls acquire while nobody has the lock gets it. */
  lemma FirstAcquire(s: State, run: seq<Action>, s': State, t: nat, limit: Option<nat>) returns (s'': State)
    requires limit.Some? ==> limit.value >= 1
    requires Init(s) && Exec(s, run, limit) == Some(s') && t < |s'.clients| && s'.native == None
    requires s'.clients[t].pc == Idle
    ensures CallLeads(s', Acquire(t), 4, limit, s'')
    ensures s'' == State(Some(t), 1, Some(t), s'.clients[t := Client(Idle, 1)])
  {
    RunKeepsInv(s, run, s', limit);
    var s1 := Next(s', Acquire(t), limit).value;
    var s2 := Next(s1, Step(t), limit).value;
    var s3 := Next(s2, Step(t), limit).value;
    var s4 := Next(s3, Step(t), limit).value;
    s'' := Next(s4, Step(t), limit).value;
    assert Steps(s4, t, 1, limit) == Some(s'');
    assert Steps(s3, t, 2, limit) == Some(s'');
    assert Steps(s2, t, 3, limit) == Some(s'');
    assert s''.clients == s'.clients[t := Client(Idle, 1)];
  }

  lemma HolderKnows(s: State, run: seq<Action>, s': State, t: nat, limit: Option<nat>)
    requires limit.Some? ==> limit.value >= 1
    requires Init(s) && Exec(s, run, limit) == Some(s') && t < |s'.clients|
    requires s'.clients[t].pc == Idle && s'.clients[t].holds > 0
    ensures s'.owner == s'.native == Some(t) && s'.depth == s'.clients[t].holds
  {
    RunKeepsInv(s, run, s', limit);
  }

  /** The holder gets it once more, unless it is at the limit; then nothing changes. */
  lemma DeeperAcquire(s: State, run: seq<Action>, s': State, t: nat, limit: Option<nat>) returns (n: nat, s'': State)
    requires limit.Some? ==> limit.value >= 1
    requires Init(s) && Exec(s, run, limit) == Some(s') && t < |s'.clients|
    requires s'.clients[t].pc == Idle && s'.clients[t].holds > 0
    ensures n <= 2 && CallLeads(s', Acquire(t), n, limit, s'')
    ensures var h := s'.clients[t].holds;
            if limit == Some(h) then s'' == s'
            else s'' == s'.(depth := h + 1, clients := s'.clients[t := Client(Idle, h + 1)])
  {
    HolderKnows(s, run, s', t, limit);
    var s1 := Next(s', Acquire(t), limit).value;
    var s2 := Next(s1, Step(t), limit).value;
    if limit == Some(s'.depth) {
      n, s'' := 1, s2;
      assert s''.clients == s'.clients;
    } else {
      n, s'' := 2, Next(s2, Step(t), limit).value;
      assert Steps(s2, t, 1, limit) == Some(s'');
      assert s''.clients == s'.clients[t := Client(Idle, s'.clients[t].holds + 1)];
    }
  }

  /** A release undoes one acquire; the last one frees the lock for the others. */
  lemma ReleaseUndoesAcquire(s: State, run: seq<Action>, s': State, t: nat, limit: Option<nat>)
    returns (n: nat, s'': State)
    requires limit.Some? ==> limit.value >= 1
    requires Init(s) && Exec(s, run, limit) == Some(s') && t < |s'.clients|
    requires s'.clients[t].pc == Idle && s'.clients[t].holds > 0
    ensures n <= 4 && CallLeads(s', Release(t), n, limit, s'')
    ensures var h := s'.clients[t].holds;
            && s''.clients == s'.clients[t := Client(Idle, h - 1)] && s''.depth == h - 1
            && if h > 1 then s''.owner == s''.native == Some(t) else s''.owner == s''.native == None
  {
    HolderKnows(s, run, s', t, limit);
    n, s'' := HolderReleases(s', t, limit);
  }

  lemma HolderReleases(s: State, t: nat, limit: Option<nat>) returns (n: nat, s': State)
    requires t < |s.clients| && s.clients[t].pc == Idle && s.depth == s.clients[t].holds > 0
    requires s.owner == s.native == Some(t)
    ensures n <= 4 && CallLeads(s, Release(t), n, limit, s')
    ensures var h := s.clients[t].holds;
            && s'.clients == s.clients[t := Client(Idle, h - 1)] && s'.depth == h - 1
            && if h > 1 then s'.owner == s'.native == Some(t) else s'.owner == s'.native == None
  {
    var h := s.depth;
    var s1 := At(s, t, Client(RelLoad, h));
    var s2 := At(s1, t, Client(RelStore(h), h));
    var s3 := At(s2, t, Client(if h > 1 then Idle else RelOwner, h - 1)).(depth := h - 1);
    assert s3.clients == s.clients[t := s3.clients[t]];
    n, s' := 2, s3;
    if h == 1 {
      s' := LastRelease(s3, t, limit);
      n := 4;
    }
    TwoMore(s1, t, s2, s3, n, limit, s');
  }

  lemma TwoMore(s: State, t: nat, s1: State, s2: State, n: nat, limit: Option<nat>, s': State)
    requires n >= 2 && Next(s, Step(t), limit) == Some(s1) && Next(s1, Step(t), limit) == Some(s2)
    requires Steps(s2, t, n - 2, limit) == Some(s')
    ensures Steps(s, t, n, limit) == Some(s')
  {
    assert Steps(s1, t, n - 1, limit) == Some(s');
  }

  lemma LastRelease(s: State, t: nat, limit: Option<nat>) returns (s': State)
    requires t < |s.clients| && s.clients[t] == Client(RelOwner, 0)
    ensures Steps(s, t, 2, limit) == Some(s')
    ensures s' == State(None, s.depth, None, s.clients[t := Client(Idle, 0)])
  {
    var s1 := At(s, t, Client(RelNative, 0)).(owner := None);
    s' := At(s1, t, Client(Idle, 0)).(native := None);
    assert s'.clients == s.clients[t := Client(Idle, 0)];
    TwoMore(s, t, s1, s', 2, limit, s');
  }

  /** A thread that times out is as before its call, and so is one that the firmware refuses, once it has given the
      native mutex back. */
  lemma FailedAcquire(s: State, t: nat, limit: Option<nat>) returns (s': State)
    requires t < |s.clients| && (s.clients[t].pc == WantNative || s.clients[t].pc == GotNative)
    ensures CallLeads(s, Fail(t), if s.clients[t].pc == GotNative then 1 else 0, limit, s')
    ensures s' == s.(clients := s.clients[t := Client(Idle, s.clients[t].holds)],
                     native := if s.clients[t].pc == GotNative then None else s.native)
  {
    var s1 := Next(s, Fail(t), limit).value;
    s' := s1;
    if s.clients[t].pc == GotNative {
      s' := Next(s1, Step(t), limit).value;
      assert Steps(s', t, 0, limit) == Some(s');
    }
    assert s'.clients == s.clients[t := Client(Idle, s.clients[t].holds)];
  }
}
