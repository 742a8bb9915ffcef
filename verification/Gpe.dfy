/** General-purpose events (section 5.6.4 of ACPI 6.5) of one GPE register in `event.c`: reference counts, the
    masks kept in memory, and the enable register of the hardware.

    Every access to the enable register may fail; the outcome is a parameter, and an access that fails leaves
    the register as it was.  API calls and interrupts take effect one after the other. */
module Gpe {
  import opened Options

  const EVENTS: nat := 8
  const MAX_USERS: nat := 0xFF

  /** A byte of the register, bit by bit. */
  type Mask = seq<bool>

  datatype Triggering = Edge | Level
  datatype HandlerType = NoHandler | Aml | Native | NativeRaw | ImplicitNotify

  /** What the handler pointer of an event leads to: an AML method or a list of devices, or a native handler
      with what it replaced. */
  datatype Handler =
    | Plain(id: nat)
    | NativeHandler(cb: nat, previous: Handler, previousType: HandlerType, previousTriggering: Triggering,
                    previouslyEnabled: bool)

  datatype Event = Event(handler: Handler, htype: HandlerType, triggering: Triggering, users: nat, wake: bool,
                         blocked: bool)

  /** struct gpe_register with its events, and the enable register. */
  datatype Reg = Reg(runtime: Mask, wakeMask: Mask, masked: Mask, current: Mask, enable: Mask, events: seq<Event>)

  datatype GpeState = Enabled | EnabledConditionally | Disabled
  datatype Status = Ok | Failed | InvalidArgument | AlreadyExists | NotFound

  ghost predicate Shaped(r: Reg) {
    |r.runtime| == |r.wakeMask| == |r.masked| == |r.current| == |r.enable| == |r.events| == EVENTS
  }

  /** set_gpe_state. */
  function SetState(r: Reg, j: nat, state: GpeState, io: bool): (res: (Reg, Status))
    requires Shaped(r) && j < EVENTS
    ensures Shaped(res.0)
  {
    if state != Disabled && r.masked[j] then (r, Ok)
    else if state == EnabledConditionally && !r.current[j] then (r, Ok)
    else if !io then (r, Failed)
    else (r.(enable := r.enable[j := state != Disabled]), Ok)
  }

  function WithUsers(r: Reg, j: nat, users: nat): (res: Reg)
    requires Shaped(r) && j < EVENTS
    ensures Shaped(res)
  {
    r.(events := r.events[j := r.events[j].(users := users)])
  }

  /** gp_event_toggle_masks. */
  function Toggle(r: Reg, j: nat, on: bool): (res: Reg)
    requires Shaped(r) && j < EVENTS
    ensures Shaped(res)
  {
    r.(runtime := r.runtime[j := on], current := r.runtime[j := on])
  }

  /** gpe_remove_user. */
  function RemoveUser(r: Reg, j: nat, io: bool): (res: (Reg, Status))
    requires Shaped(r) && j < EVENTS
    ensures Shaped(res.0)
  {
    var users := r.events[j].users;
    if users == 0 then (r, InvalidArgument)
    else
      var r1 := WithUsers(r, j, users - 1);
      if users > 1 then (r1, Ok)
      else
        var (r2, status) := SetState(Toggle(r1, j, false), j, Disabled, io);
        if status == Ok then (r2, Ok) else (WithUsers(Toggle(r2, j, true), j, users), status)
  }

  /** gpe_add_user. */
  function AddUser(r: Reg, j: nat, io: bool): (res: (Reg, Status))
    requires Shaped(r) && j < EVENTS
    ensures Shaped(res.0)
  {
    var users := r.events[j].users;
    if users >= MAX_USERS then (r, InvalidArgument)
    else
      var r1 := WithUsers(r, j, users + 1);
      if users > 0 then (r1, Ok)
      else
        var (r2, status) := SetState(Toggle(r1, j, true), j, Enabled, io);
        if status == Ok then (r2, Ok) else (WithUsers(Toggle(r2, j, false), j, users), status)
  }

  /** gpe_mask_unmask. */
  function SetMasked(r: Reg, j: nat, on: bool, io: bool): (res: (Reg, Status))
    requires Shaped(r) && j < EVENTS
    ensures Shaped(res.0)
  {
    if r.masked[j] == on then (r, InvalidArgument)
    else
      var r1 := r.(masked := r.masked[j := on]);
      if on then (SetState(r1, j, Disabled, io).0, Ok)
      else if !r.events[j].blocked && r.events[j].users > 0 then (SetState(r1, j, EnabledConditionally, io).0, Ok)
      else (r1, Ok)
  }

  /** gpe_mask_safe: the answer is whether the event was enabled, also when it was masked before. */
  function MaskSafe(r: Reg, j: nat, io: bool): (res: (Reg, bool))
    requires Shaped(r) && j < EVENTS
    ensures Shaped(res.0)
  {
    if !r.current[j] then (r, false) else (SetMasked(r, j, true, io).0, true)
  }

  function UnmaskIf(r: Reg, j: nat, didMask: bool, io: bool): (res: Reg)
    requires Shaped(r) && j < EVENTS
    ensures Shaped(res)
  {
    if didMask then SetMasked(r, j, false, io).0 else r
  }

  predicate Firmware(t: HandlerType) { t == Aml || t == ImplicitNotify }

  /** do_install_gpe_handler on an event that was found; io are the outcomes of its register accesses. */
  function Install(r: Reg, j: nat, triggering: Triggering, htype: HandlerType, cb: nat, io: (bool, bool, bool))
    : (res: (Reg, Status))
    requires Shaped(r) && j < EVENTS && (htype == Native || htype == NativeRaw)
    ensures Shaped(res.0)
  {
    var e := r.events[j];
    if e.htype == Native || e.htype == NativeRaw then (r, AlreadyExists)
    else
      var (r1, didMask) := MaskSafe(r, j, io.0);
      (UnmaskIf(PutHandler(r1, j, triggering, htype, cb, io.1), j, didMask, io.2), Ok)
  }

  /** The part of it that runs with the event masked. */
  function PutHandler(r: Reg, j: nat, triggering: Triggering, htype: HandlerType, cb: nat, io: bool): (res: Reg)
    requires Shaped(r) && j < EVENTS
    ensures Shaped(res)
  {
    var e := r.events[j];
    var wasEnabled := Firmware(e.htype) && e.users > 0;
    var r1 := if wasEnabled then RemoveUser(r, j, io).0 else r;
    var handler := NativeHandler(cb, e.handler, e.htype, e.triggering, wasEnabled);
    r1.(events := r1.events[j := r1.events[j].(handler := handler, htype := htype, triggering := triggering)])
  }

  /** uacpi_uninstall_gpe_handler on an event that was found, up to the poll for a pending event. */
  function Uninstall(r: Reg, j: nat, cb: nat, io: (bool, bool, bool)): (res: (Reg, Status))
    requires Shaped(r) && j < EVENTS
    ensures Shaped(res.0)
  {
    var e := r.events[j];
    if e.htype != Native && e.htype != NativeRaw then (r, NotFound)
    else if !e.handler.NativeHandler? || e.handler.cb != cb then (r, InvalidArgument)
    else
      var (r1, didMask) := MaskSafe(r, j, io.0);
      (UnmaskIf(TakeHandler(r1, j, e.handler, io.1), j, didMask, io.2), Ok)
  }

  /** The part of it that runs with the event masked. */
  function TakeHandler(r: Reg, j: nat, h: Handler, io: bool): (res: Reg)
    requires Shaped(r) && j < EVENTS && h.NativeHandler?
    ensures Shaped(res)
  {
    var e := r.events[j].(handler := h.previous, triggering := h.previousTriggering, htype := h.previousType);
    var r1 := r.(events := r.events[j := e]);
    if Firmware(h.previousType) && h.previouslyEnabled then AddUser(r1, j, io).0 else r1
  }

  datatype BlockAction = DisableAll | EnableAllForRuntime | EnableAllForWake | ClearAll

  function NotMasked(runtime: Mask, masked: Mask): Mask
    requires |runtime| == |masked|
  {
    seq(|runtime|, i requires 0 <= i < |runtime| => runtime[i] && !masked[i])
  }

  function Zeroes(): Mask { seq(EVENTS, i => false) }

  /** gpe_block_apply_action on this register. */
  function Apply(r: Reg, action: BlockAction, io: bool): (res: (Reg, Status))
    requires Shaped(r)
    ensures Shaped(res.0)
  {
    if action == ClearAll then (r, if io then Ok else Failed)
    else
      var value := match action
        case DisableAll => Zeroes()
        case EnableAllForRuntime => NotMasked(r.runtime, r.masked)
        case EnableAllForWake => r.wakeMask
        case ClearAll => r.current;
      var r1 := r.(current := value);
      if io then (r1.(enable := value), Ok) else (r1, Failed)
  }

  /** gpe_block_mask_safe on this register. */
  function MaskBlock(r: Reg, io: bool): (res: Reg)
    requires Shaped(r)
    ensures Shaped(res)
  {
    if r.current == Zeroes() then r
    else
      var r1 := r.(masked := seq(EVENTS, i => true));
      if io then r1.(enable := Zeroes()) else r1
  }

  function Blocked(r: Reg, j: nat, on: bool): (res: Reg)
    requires Shaped(r) && j < EVENTS
    ensures Shaped(res)
  {
    r.(events := r.events[j := r.events[j].(blocked := on)])
  }

  /** restore_gpe; `cleared` is the outcome of clearing a level-triggered event. */
  function Restore(r: Reg, j: nat, cleared: bool, io: bool): (res: Reg)
    requires Shaped(r) && j < EVENTS
    ensures Shaped(res)
  {
    if r.events[j].triggering == Level && !cleared then r
    else Blocked(SetState(r, j, EnabledConditionally, io).0, j, false)
  }

  /** dispatch_gpe; the handler asks to have the event enabled again or not. */
  function Dispatch(r: Reg, j: nat, reenable: bool, cleared: bool, io: (bool, bool)): (res: Reg)
    requires Shaped(r) && j < EVENTS
    ensures Shaped(res)
  {
    if r.events[j].htype == NativeRaw then r
    else
      var (r1, status) := SetState(r, j, Disabled, io.0);
      if status != Ok then r1
      else
        var r2 := Blocked(r1, j, true);
        if r2.events[j].triggering == Edge && !cleared then SetState(r2, j, EnabledConditionally, io.1).0
        else if r2.events[j].htype == Native && reenable then Restore(r2, j, cleared, io.1)
        else r2
  }

  /** uacpi_setup_gpe_for_wake.  With a device the event gets an implicit handler unless it has one of another
      kind; `found` is whether the device is in its list already, and `list` the list with the device added. */
  function SetupWake(r: Reg, j: nat, device: bool, found: bool, list: Handler, io: (bool, bool, bool)): (res: Reg)
    requires Shaped(r) && j < EVENTS
    ensures Shaped(res)
  {
    var (r1, didMask) := MaskSafe(r, j, io.0);
    var repeated := device && r.events[j].htype == ImplicitNotify && found;
    var r2 := if !device || repeated then r1 else PutImplicit(r1, j, list, io.1);
    var r3 := if repeated then r2 else r2.(events := r2.events[j := r2.events[j].(wake := true)]);
    UnmaskIf(r3, j, didMask, io.2)
  }

  /** What becomes of the handler of an event for which a device is to be notified. */
  function PutImplicit(r: Reg, j: nat, list: Handler, io: bool): (res: Reg)
    requires Shaped(r) && j < EVENTS
    ensures Shaped(res)
  {
    var e := r.events[j];
    match e.htype
    case NoHandler => r.(events := r.events[j := e.(htype := ImplicitNotify, triggering := Level, handler := list)])
    case Aml => RemoveUser(r, j, io).0
    case ImplicitNotify => r.(events := r.events[j := e.(handler := list)])
    case _ => r
  }

  // --------------------------------------------------------------------------------------------- runs

  /** What happens to one event, with the outcomes of the register accesses. */
  datatype Call =
    | Enable(io: bool)                                                  // uacpi_enable_gpe
    | Disable(io: bool)                                                 // uacpi_disable_gpe
    | MaskUnmask(on: bool, io: bool)                                    // uacpi_mask_gpe, uacpi_unmask_gpe
    | SuspendResume(on: bool, io: bool)                                 // uacpi_suspend_gpe, uacpi_resume_gpe
    | FinishHandling(cleared: bool, io: bool)                           // uacpi_finish_handling_gpe, async_restore_gpe
    | Fire(reenable: bool, cleared: bool, io2: (bool, bool))            // dispatch_gpe
    | InstallHandler(triggering: Triggering, raw: bool, cb: nat, io3: (bool, bool, bool))
    | UninstallHandler(cb: nat, io3: (bool, bool, bool))
    | SetupForWake(device: bool, found: bool, list: Handler, io3: (bool, bool, bool))

  datatype Action =
    | OnEvent(j: nat, call: Call)
    | SetWakeMask(mask: Mask)                  // uacpi_enable_gpe_for_wake, uacpi_disable_gpe_for_wake
    | ForAll(action: BlockAction, io: bool)    // uacpi_disable_all_gpes and its like
    | TearDown(io: bool)                       // uninstall_gpe_block

  function OneEvent(r: Reg, j: nat, call: Call): (res: Reg)
    requires Shaped(r) && j < EVENTS
    ensures Shaped(res)
  {
    match call
    case Enable(io) => if r.events[j].htype == NoHandler then r else AddUser(r, j, io).0
    case Disable(io) => RemoveUser(r, j, io).0
    case MaskUnmask(on, io) => SetMasked(r, j, on, io).0
    case SuspendResume(on, io) => SetState(Blocked(r, j, on), j, if on then Disabled else Enabled, io).0
    case FinishHandling(cleared, io) => Restore(r, j, cleared, io)
    case Fire(reenable, cleared, io) => Dispatch(r, j, reenable, cleared, io)
    case InstallHandler(triggering, raw, cb, io) =>
      Install(r, j, triggering, if raw then NativeRaw else Native, cb, io).0
    case UninstallHandler(cb, io) => Uninstall(r, j, cb, io).0
    case SetupForWake(device, found, list, io) => SetupWake(r, j, device, found, list, io)
  }

  function Step(r: Reg, a: Action): (res: Reg)
    requires Shaped(r)
    ensures Shaped(res)
  {
    match a
    case OnEvent(j, call) => if j < EVENTS then OneEvent(r, j, call) else r
    case SetWakeMask(mask) => if |mask| == EVENTS then r.(wakeMask := mask) else r
    case ForAll(action, io) => Apply(r, action, io).0
    case TearDown(io) => MaskBlock(r, io)
  }

  ghost predicate CountedAt(r: Reg, j: nat)
    requires Shaped(r) && j < EVENTS
  {
    (r.runtime[j] <==> r.events[j].users > 0) && r.events[j].users <= MAX_USERS
  }

  /** An event is in the runtime mask exactly while it has users. */
  ghost predicate Counted(r: Reg) {
    Shaped(r) && forall j {:trigger CountedAt(r, j)} :: 0 <= j < EVENTS ==> CountedAt(r, j)
  }

  /** A masked event is not enabled in hardware. */
  ghost predicate MaskedOff(r: Reg) {
    Shaped(r) && forall j :: 0 <= j < EVENTS && r.masked[j] ==> !r.enable[j]
  }

  /** Between the two registers only event j differs. */
  ghost predicate OnlyEvent(r: Reg, r': Reg, j: nat) {
    && Shaped(r) && Shaped(r')
    && forall i :: 0 <= i < EVENTS && i != j ==>
         && r'.runtime[i] == r.runtime[i] && r'.masked[i] == r.masked[i] && r'.enable[i] == r.enable[i]
         && r'.events[i] == r.events[i]
  }

  /** What every call about event j keeps: the others, the count, and, if no register access fails, that the
      event is off while it is masked. */
  ghost predicate Keeps(r: Reg, r': Reg, j: nat, io: bool)
    requires j < EVENTS
  {
    && OnlyEvent(r, r', j)
    && (CountedAt(r, j) ==> CountedAt(r', j))
    && (io && (r.masked[j] ==> !r.enable[j]) ==> r'.masked[j] ==> !r'.enable[j])
  }

  lemma StateKeeps(r: Reg, j: nat, state: GpeState, io: bool)
    requires Shaped(r) && j < EVENTS
    ensures Keeps(r, SetState(r, j, state, io).0, j, io)
  {
  }

  lemma RemoveUserKeeps(r: Reg, j: nat, io: bool)
    requires Shaped(r) && j < EVENTS
    ensures Keeps(r, RemoveUser(r, j, io).0, j, io)
  {
  }

  lemma AddUserKeeps(r: Reg, j: nat, io: bool)
    requires Shaped(r) && j < EVENTS
    ensures Keeps(r, AddUser(r, j, io).0, j, io)
  {
  }

  lemma SetMaskedKeeps(r: Reg, j: nat, on: bool, io: bool)
    requires Shaped(r) && j < EVENTS
    ensures Keeps(r, SetMasked(r, j, on, io).0, j, io)
  {
  }

  lemma KeepsSame(r: Reg, j: nat)
    requires Shaped(r) && j < EVENTS
    ensures Keeps(r, r, j, true) && Keeps(r, r, j, false)
  {
  }

  lemma KeepsBoth(r: Reg, r1: Reg, r2: Reg, j: nat, io: bool, io': bool)
    requires j < EVENTS && Keeps(r, r1, j, io) && Keeps(r1, r2, j, io')
    ensures Keeps(r, r2, j, io && io')
  {
  }

  /** Changing what is not counted or masked keeps everything. */
  lemma EventKeeps(r: Reg, j: nat, e: Event)
    requires Shaped(r) && j < EVENTS && e.users == r.events[j].users
    ensures Keeps(r, r.(events := r.events[j := e]), j, true)
  {
  }

  lemma MaskSafeKeeps(r: Reg, j: nat, io: bool)
    requires Shaped(r) && j < EVENTS
    ensures Keeps(r, MaskSafe(r, j, io).0, j, io)
  {
    SetMaskedKeeps(r, j, true, io);
  }

  lemma UnmaskIfKeeps(r: Reg, j: nat, didMask: bool, io: bool)
    requires Shaped(r) && j < EVENTS
    ensures Keeps(r, UnmaskIf(r, j, didMask, io), j, io)
  {
    SetMaskedKeeps(r, j, false, io);
  }

  lemma PutHandlerKeeps(r: Reg, j: nat, triggering: Triggering, htype: HandlerType, cb: nat, io: bool)
    requires Shaped(r) && j < EVENTS
    ensures Keeps(r, PutHandler(r, j, triggering, htype, cb, io), j, io)
  {
    var e := r.events[j];
    var wasEnabled := Firmware(e.htype) && e.users > 0;
    var r1 := if wasEnabled then RemoveUser(r, j, io).0 else r;
    RemoveUserKeeps(r, j, io);
    var e1 := r1.events[j].(handler := NativeHandler(cb, e.handler, e.htype, e.triggering, wasEnabled),
                            htype := htype, triggering := triggering);
    EventKeeps(r1, j, e1);
    KeepsBoth(r, r1, r1.(events := r1.events[j := e1]), j, io, true);
  }

  lemma TakeHandlerKeeps(r: Reg, j: nat, h: Handler, io: bool)
    requires Shaped(r) && j < EVENTS && h.NativeHandler?
    ensures Keeps(r, TakeHandler(r, j, h, io), j, io)
  {
    var e := r.events[j].(handler := h.previous, triggering := h.previousTriggering, htype := h.previousType);
    var r1 := r.(events := r.events[j := e]);
    EventKeeps(r, j, e);
    AddUserKeeps(r1, j, io);
    KeepsBoth(r, r1, AddUser(r1, j, io).0, j, true, io);
  }

  lemma PutImplicitKeeps(r: Reg, j: nat, list: Handler, io: bool)
    requires Shaped(r) && j < EVENTS
    ensures Keeps(r, PutImplicit(r, j, list, io), j, io)
  {
    var e := r.events[j];
    EventKeeps(r, j, e.(htype := ImplicitNotify, triggering := Level, handler := list));
    EventKeeps(r, j, e.(handler := list));
    RemoveUserKeeps(r, j, io);
  }

  /** A change made between masking and unmasking. */
  lemma MaskedChangeKeeps(r: Reg, j: nat, r2: Reg, io: (bool, bool, bool))
    requires Shaped(r) && j < EVENTS && Keeps(MaskSafe(r, j, io.0).0, r2, j, io.1)
    ensures Keeps(r, UnmaskIf(r2, j, MaskSafe(r, j, io.0).1, io.2), j, io.0 && io.1 && io.2)
  {
    var (r1, didMask) := MaskSafe(r, j, io.0);
    MaskSafeKeeps(r, j, io.0);
    KeepsBoth(r, r1, r2, j, io.0, io.1);
    UnmaskIfKeeps(r2, j, didMask, io.2);
    KeepsBoth(r, r2, UnmaskIf(r2, j, didMask, io.2), j, io.0 && io.1, io.2);
  }

  lemma InstallKeeps(r: Reg, j: nat, triggering: Triggering, htype: HandlerType, cb: nat, io: (bool, bool, bool))
    requires Shaped(r) && j < EVENTS && (htype == Native || htype == NativeRaw)
    ensures Keeps(r, Install(r, j, triggering, htype, cb, io).0, j, io.0 && io.1 && io.2)
  {
    var r1 := MaskSafe(r, j, io.0).0;
    KeepsSame(r, j);
    PutHandlerKeeps(r1, j, triggering, htype, cb, io.1);
    MaskedChangeKeeps(r, j, PutHandler(r1, j, triggering, htype, cb, io.1), io);
  }

  lemma UninstallKeeps(r: Reg, j: nat, cb: nat, io: (bool, bool, bool))
    requires Shaped(r) && j < EVENTS
    ensures Keeps(r, Uninstall(r, j, cb, io).0, j, io.0 && io.1 && io.2)
  {
    var r1, e := MaskSafe(r, j, io.0).0, r.events[j];
    if (e.htype != Native && e.htype != NativeRaw) || !e.handler.NativeHandler? || e.handler.cb != cb {
      KeepsSame(r, j);
    } else {
      TakeHandlerKeeps(r1, j, e.handler, io.1);
      MaskedChangeKeeps(r, j, TakeHandler(r1, j, e.handler, io.1), io);
    }
  }

  lemma SetupWakeKeeps(r: Reg, j: nat, device: bool, found: bool, list: Handler, io: (bool, bool, bool))
    requires Shaped(r) && j < EVENTS
    ensures Keeps(r, SetupWake(r, j, device, found, list, io), j, io.0 && io.1 && io.2)
  {
    var r1 := MaskSafe(r, j, io.0).0;
    var repeated := device && r.events[j].htype == ImplicitNotify && found;
    var r2 := if !device || repeated then r1 else PutImplicit(r1, j, list, io.1);
    PutImplicitKeeps(r1, j, list, io.1);
    EventKeeps(r2, j, r2.events[j].(wake := true));
    var r3 := r2.(events := r2.events[j := r2.events[j].(wake := true)]);
    KeepsBoth(r1, r2, r3, j, io.1, true);
    MaskedChangeKeeps(r, j, if repeated then r2 else r3, io);
  }

  lemma RestoreKeeps(r: Reg, j: nat, cleared: bool, io: bool)
    requires Shaped(r) && j < EVENTS
    ensures Keeps(r, Restore(r, j, cleared, io), j, io)
  {
    var r1 := SetState(r, j, EnabledConditionally, io).0;
    StateKeeps(r, j, EnabledConditionally, io);
    EventKeeps(r1, j, r1.events[j].(blocked := false));
    KeepsBoth(r, r1, Blocked(r1, j, false), j, io, true);
  }

  lemma DispatchKeeps(r: Reg, j: nat, reenable: bool, cleared: bool, io: (bool, bool))
    requires Shaped(r) && j < EVENTS
    ensures Keeps(r, Dispatch(r, j, reenable, cleared, io), j, io.0 && io.1)
  {
    var r1 := SetState(r, j, Disabled, io.0).0;
    StateKeeps(r, j, Disabled, io.0);
    var r2 := Blocked(r1, j, true);
    EventKeeps(r1, j, r1.events[j].(blocked := true));
    KeepsBoth(r, r1, r2, j, io.0, true);
    StateKeeps(r2, j, EnabledConditionally, io.1);
    KeepsBoth(r, r2, SetState(r2, j, EnabledConditionally, io.1).0, j, io.0, io.1);
    RestoreKeeps(r2, j, cleared, io.1);
    KeepsBoth(r, r2, Restore(r2, j, cleared, io.1), j, io.0, io.1);
  }

  predicate CallSucceeds(call: Call) {
    match call
    case Fire(_, _, io) => io.0 && io.1
    case InstallHandler(_, _, _, io) => io.0 && io.1 && io.2
    case UninstallHandler(_, io) => io.0 && io.1 && io.2
    case SetupForWake(_, _, _, io) => io.0 && io.1 && io.2
    case Enable(io) => io
    case Disable(io) => io
    case MaskUnmask(_, io) => io
    case SuspendResume(_, io) => io
    case FinishHandling(_, io) => io
  }

  lemma OneEventKeeps(r: Reg, j: nat, call: Call)
    requires Shaped(r) && j < EVENTS
    ensures Keeps(r, OneEvent(r, j, call), j, CallSucceeds(call))
  {
    match call
    case Enable(io) => AddUserKeeps(r, j, io);
    case Disable(io) => RemoveUserKeeps(r, j, io);
    case MaskUnmask(on, io) => SetMaskedKeeps(r, j, on, io);
    case SuspendResume(on, io) =>
      var r1, state := Blocked(r, j, on), if on then Disabled else Enabled;
      EventKeeps(r, j, r.events[j].(blocked := on));
      StateKeeps(r1, j, state, io);
      KeepsBoth(r, r1, SetState(r1, j, state, io).0, j, true, io);
    case FinishHandling(cleared, io) => RestoreKeeps(r, j, cleared, io);
    case Fire(reenable, cleared, io) => DispatchKeeps(r, j, reenable, cleared, io);
    case InstallHandler(triggering, raw, cb, io) =>
      InstallKeeps(r, j, triggering, if raw then NativeRaw else Native, cb, io);
    case UninstallHandler(cb, io) => UninstallKeeps(r, j, cb, io);
    case SetupForWake(device, found, list, io) => SetupWakeKeeps(r, j, device, found, list, io);
  }

  /** No register access fails, and events are not enabled for wake. */
  predicate Clean(a: Action) {
    match a
    case OnEvent(_, call) => CallSucceeds(call)
    case SetWakeMask(_) => true
    case ForAll(action, io) => io && action != EnableAllForWake
    case TearDown(io) => io
  }

  lemma StepKeeps(r: Reg, a: Action)
    requires Counted(r)
    ensures Counted(Step(r, a)) && (MaskedOff(r) && Clean(a) ==> MaskedOff(Step(r, a)))
  {
    var r' := Step(r, a);
    if a.OnEvent? && a.j < EVENTS {
      OneEventKeeps(r, a.j, a.call);
    }
    forall i | 0 <= i < EVENTS
      ensures CountedAt(r', i)
    {
      assert CountedAt(r, i);
    }
  }

  function Run(r: Reg, run: seq<Action>): (r': Reg)
    requires Shaped(r)
    ensures Shaped(r')
    decreases |run|
  {
    if run == [] then r else Step(Run(r, run[..|run| - 1]), run[|run| - 1])
  }

  /** Over every run, whatever register accesses fail, an event is in the runtime mask exactly while it has
      users; and over every run without failures or wake-enabling a masked event is off in hardware. */
  lemma {:induction false} GpeStateIsSound(r: Reg, run: seq<Action>)
    requires Counted(r)
    ensures Counted(Run(r, run))
    ensures MaskedOff(r) && (forall i :: 0 <= i < |run| ==> Clean(run[i])) ==> MaskedOff(Run(r, run))
    decreases |run|
  {
    if run != [] {
      var before := run[..|run| - 1];
      GpeStateIsSound(r, before);
      StepKeeps(Run(r, before), run[|run| - 1]);
    }
  }

  /** An event behind create_gpe_block: with the AML method that was found for it, if any, and no users. */
  function FreshEvent(aml: Option<Triggering>, i: nat): Event {
    match aml
    case None => Event(Plain(0), NoHandler, Level, 0, false, false)
    case Some(triggering) => Event(Plain(i + 1), Aml, triggering, 0, false, false)
  }

  /** The register behind create_gpe_block. */
  function Fresh(amls: seq<Option<Triggering>>): (r: Reg)
    requires |amls| == EVENTS
    ensures Shaped(r)
  {
    Reg(Zeroes(), Zeroes(), Zeroes(), Zeroes(), Zeroes(),
        seq(EVENTS, i requires 0 <= i < EVENTS => FreshEvent(amls[i], i)))
  }

  /** So every run that starts there is sound. */
  lemma FreshRunsAreSound(amls: seq<Option<Triggering>>, run: seq<Action>)
    requires |amls| == EVENTS
    ensures Counted(Run(Fresh(amls), run))
    ensures (forall i :: 0 <= i < |run| ==> Clean(run[i])) ==> MaskedOff(Run(Fresh(amls), run))
  {
    var r := Fresh(amls);
    assert forall j :: 0 <= j < EVENTS ==> CountedAt(r, j);
    GpeStateIsSound(r, run);
  }

  // --------------------------------------------------------------------------- what the calls come down to

  /** Setting a state: one bit of the enable register may change, never to on for a masked event, and none does
      when the access fails. */
  ghost predicate StateIsSet(r: Reg, r': Reg, j: nat, state: GpeState, status: Status) {
    && Shaped(r) && Shaped(r') && j < EVENTS && r' == r.(enable := r.enable[j := r'.enable[j]])
    && (status == Ok || (status == Failed && r' == r))
    && (r.masked[j] && r'.enable[j] ==> r.enable[j])
    && (status == Ok ==>
          match state
          case Disabled => !r'.enable[j]
          case Enabled => r'.enable[j] || r.masked[j]
          case EnabledConditionally => r'.enable[j] == (r.enable[j] || (r.current[j] && !r.masked[j])))
  }

  /** The access is made unless the event is to be turned on and may not be. */
  lemma SetStateMeans(r: Reg, j: nat, state: GpeState, io: bool)
    requires Shaped(r) && j < EVENTS
    ensures var (r', status) := SetState(r, j, state, io);
            && StateIsSet(r, r', j, state, status)
            && (status == Failed <==>
                  !io && (state != Disabled ==> !r.masked[j]) && (state == EnabledConditionally ==> r.current[j]))
  {
    assert r.enable[j := r.enable[j]] == r.enable;
  }

  /** From n users to n' of them: only the step between none and one reaches masks and hardware. */
  ghost predicate UsersMoved(r: Reg, r': Reg, j: nat, n': nat) {
    && Shaped(r) && Shaped(r') && j < EVENTS
    && r'.events == r.events[j := r.events[j].(users := n')] && r'.masked == r.masked && r'.wakeMask == r.wakeMask
    && if (n' > 0) == (r.events[j].users > 0)
       then r'.runtime == r.runtime && r'.current == r.current && r'.enable == r.enable
       else && r'.runtime == r'.current == r.runtime[j := n' > 0]
            && r'.enable == r.enable[j := if n' > 0 && r.masked[j] then r.enable[j] else n' > 0]
  }

  /** A register access that failed leaves an event as it was, though not what the current mask said of the others. */
  ghost predicate PutBack(r: Reg, r': Reg, j: nat) {
    && Shaped(r) && Shaped(r') && j < EVENTS && r' == r.(runtime := r'.runtime, current := r'.current)
    && r'.current == r'.runtime && (CountedAt(r, j) ==> r'.runtime == r.runtime)
    && (CountedAt(r, j) ==> (r' == r <==> r.current == r.runtime))
  }

  lemma RemoveUserMeans(r: Reg, j: nat, io: bool)
    requires Shaped(r) && j < EVENTS
    ensures var (r', status) := RemoveUser(r, j, io);
            match status
            case Ok => r.events[j].users > 0 && UsersMoved(r, r', j, r.events[j].users - 1)
            case Failed => r.events[j].users == 1 && !io && PutBack(r, r', j)
            case _ => r.events[j].users == 0 && r' == r && status == InvalidArgument
  {
    if r.events[j].users == 1 {
      assert r.runtime[j := false][j := true] == r.runtime[j := true];
      assert r.runtime[j] ==> r.runtime[j := true] == r.runtime;
      assert r.events[j := r.events[j].(users := 0)][j := r.events[j]] == r.events;
    }
  }

  lemma AddUserMeans(r: Reg, j: nat, io: bool)
    requires Shaped(r) && j < EVENTS
    ensures var (r', status) := AddUser(r, j, io);
            match status
            case Ok => r.events[j].users < MAX_USERS && UsersMoved(r, r', j, r.events[j].users + 1)
            case Failed => r.events[j].users == 0 && !io && !r.masked[j] && PutBack(r, r', j)
            case _ => r.events[j].users >= MAX_USERS && r' == r && status == InvalidArgument
  {
    assert r.enable[j := r.enable[j]] == r.enable;
    if r.events[j].users == 0 {
      assert r.runtime[j := true][j := false] == r.runtime[j := false];
      assert !r.runtime[j] ==> r.runtime[j := false] == r.runtime;
      assert r.events[j := r.events[j].(users := 1)][j := r.events[j]] == r.events;
    }
  }

  /** A user that comes and goes leaves no trace exactly when it was not the first, or the current mask was the
      runtime mask and the event was off. */
  lemma AddThenRemove(r: Reg, j: nat)
    requires Counted(r) && j < EVENTS && r.events[j].users < MAX_USERS
    ensures RemoveUser(AddUser(r, j, true).0, j, true).0 == r <==>
            r.events[j].users > 0 || (r.current == r.runtime && !r.enable[j])
  {
    var r1 := AddUser(r, j, true).0;
    var r2 := RemoveUser(r1, j, true).0;
    AddUserMeans(r, j, true);
    RemoveUserMeans(r1, j, true);
    assert CountedAt(r, j);
    assert r2.events == r.events;
    if r.events[j].users == 0 {
      assert r2.runtime == r.runtime && r2.enable == r.enable[j := false] && r2.current == r.runtime;
    }
  }

  /** Masking turns the event off; unmasking turns it on only if it is current, in use and not blocked. */
  ghost predicate MaskIsSet(r: Reg, r': Reg, j: nat, on: bool, io: bool) {
    && Shaped(r) && Shaped(r') && j < EVENTS
    && r' == r.(masked := r.masked[j := on], enable := r.enable[j := r'.enable[j]])
    && r'.enable[j] == (if !io then r.enable[j] else if on then false
                        else r.enable[j] || (r.current[j] && r.events[j].users > 0 && !r.events[j].blocked))
  }

  lemma SetMaskedMeans(r: Reg, j: nat, on: bool, io: bool)
    requires Shaped(r) && j < EVENTS
    ensures var (r', status) := SetMasked(r, j, on, io);
            if r.masked[j] == on then r' == r && status == InvalidArgument
            else MaskIsSet(r, r', j, on, io) && status == Ok
  {
    assert r.enable[j := r.enable[j]] == r.enable;
  }

  /** Masking and unmasking leave no trace exactly when the event was on while it should have been. */
  lemma MaskThenUnmask(r: Reg, j: nat)
    requires Shaped(r) && j < EVENTS && !r.masked[j]
    ensures SetMasked(SetMasked(r, j, true, true).0, j, false, true).0 == r <==>
            (r.enable[j] <==> r.current[j] && r.events[j].users > 0 && !r.events[j].blocked)
  {
    var r1 := SetMasked(r, j, true, true).0;
    SetMaskedMeans(r, j, true, true);
    SetMaskedMeans(r1, j, false, true);
    var r2 := SetMasked(r1, j, false, true).0;
    assert r2.masked == r.masked;
    assert r2.enable == r.enable[j := r2.enable[j]];
    assert r2.enable == r.enable <==> r2.enable[j] == r.enable[j];
  }

  /** After an action on all events, bit by bit.  Clearing leaves the register alone. */
  ghost predicate ActionIsApplied(r: Reg, r': Reg, action: BlockAction, status: Status) {
    && Shaped(r) && Shaped(r') && r' == r.(current := r'.current, enable := r'.enable)
    && (status == Ok || (status == Failed && r'.enable == r.enable))
    && (action == ClearAll ==> r' == r)
    && (action != ClearAll && status == Ok ==> r'.enable == r'.current)
    && (action == DisableAll ==> forall j :: 0 <= j < EVENTS ==> !r'.current[j])
    && (action == EnableAllForRuntime ==>
          forall j :: 0 <= j < EVENTS ==> r'.current[j] == (r.runtime[j] && !r.masked[j]))
    && (action == EnableAllForWake ==> r'.current == r.wakeMask)
  }

  lemma ApplyMeans(r: Reg, action: BlockAction, io: bool)
    requires Shaped(r)
    ensures ActionIsApplied(r, Apply(r, action, io).0, action, Apply(r, action, io).1)
    ensures Apply(r, action, io).1 == Ok <==> io
  {
  }

  /** Enabling all events for runtime turns on exactly those that are in use and not masked. */
  lemma EnableAllMeans(r: Reg, j: nat)
    requires Counted(r) && j < EVENTS
    ensures Apply(r, EnableAllForRuntime, true).0.enable[j] <==> r.events[j].users > 0 && !r.masked[j]
  {
    assert CountedAt(r, j);
  }

  /** A native handler that asks for it is called with an event that could be cleared. */
  predicate ComesBack(e: Event, reenable: bool, cleared: bool) { e.htype == Native && reenable && cleared }

  /** Event j fires.  A raw handler is left to itself, and so is an event that cannot be turned off.  Any other is off
      and blocked afterwards, except that it comes back for a handler that asks for it; an edge that cannot be cleared
      stays blocked, but is turned on again. */
  lemma DispatchMeans(r: Reg, j: nat, reenable: bool, cleared: bool, io: (bool, bool))
    requires Shaped(r) && j < EVENTS
    ensures var r', e := Dispatch(r, j, reenable, cleared, io), r.events[j];
            var back := ComesBack(e, reenable, cleared);
            var on := (back || (e.triggering == Edge && !cleared)) && r.current[j] && !r.masked[j] && io.1;
            if e.htype == NativeRaw || !io.0 then r' == r
            else r' == r.(enable := r.enable[j := on], events := r.events[j := e.(blocked := !back)])
  {
    assert r.events[j := r.events[j]] == r.events;
  }

  /** Finishing brings a dispatched event back on, if it is current and not masked. */
  lemma RestoreMeans(r: Reg, j: nat, cleared: bool, io: bool)
    requires Shaped(r) && j < EVENTS
    ensures var r', e := Restore(r, j, cleared, io), r.events[j];
            if e.triggering == Level && !cleared then r' == r
            else
              && r' == r.(enable := r.enable[j := r'.enable[j]], events := r.events[j := e.(blocked := false)])
              && r'.enable[j] == (r.enable[j] || (io && r.current[j] && !r.masked[j]))
  {
    assert r.enable[j := r.enable[j]] == r.enable;
  }

  /** An event that was on as it should be fires, runs its firmware handler and is finished: it is as before. */
  lemma FiredAndFinished(r: Reg, j: nat)
    requires Shaped(r) && j < EVENTS && r.enable[j] && r.current[j] && !r.masked[j] && !r.events[j].blocked
    requires r.events[j].htype != NativeRaw
    ensures Restore(Dispatch(r, j, false, true, (true, true)), j, true, true) == r
    ensures !Dispatch(r, j, false, true, (true, true)).enable[j]
  {
    DispatchMeans(r, j, false, true, (true, true));
    var r1 := Dispatch(r, j, false, true, (true, true));
    RestoreMeans(r1, j, true, true);
    assert r1.enable[j := true] == r.enable && r1.events[j := r.events[j]] == r.events;
  }

  /** An event without a handler cannot be enabled; any other gets a user, and the first one turns it on unless it is
      masked. */
  lemma EnableMeans(r: Reg, j: nat)
    requires Shaped(r) && j < EVENTS
    ensures var r', e := OneEvent(r, j, Enable(true)), r.events[j];
            if e.htype == NoHandler || e.users >= MAX_USERS then r' == r else UsersMoved(r, r', j, e.users + 1)
  {
    AddUserMeans(r, j, true);
  }

  /** What is enabled for wake is on when all events are enabled for wake, and nothing else is. */
  lemma WakeMaskApplies(r: Reg, mask: Mask)
    requires Shaped(r) && |mask| == EVENTS
    ensures Step(Step(r, SetWakeMask(mask)), ForAll(EnableAllForWake, true)).enable == mask
  {
  }

  /** Suspending blocks the event and turns it off, resuming unblocks it and turns it on unless it is masked. */
  lemma SuspendResumeMeans(r: Reg, j: nat, on: bool)
    requires Shaped(r) && j < EVENTS
    ensures OneEvent(r, j, SuspendResume(on, true))
            == r.(enable := r.enable[j := !on && (r.enable[j] || !r.masked[j])],
                  events := r.events[j := r.events[j].(blocked := on)])
  {
    assert r.enable[j := r.enable[j]] == r.enable;
  }

  /** Tearing down a register with current events masks all of them and turns them off. */
  lemma TearDownMeans(r: Reg, io: bool)
    requires Shaped(r)
    ensures var r', some := MaskBlock(r, io), exists j :: 0 <= j < EVENTS && r.current[j];
            && r' == r.(masked := r'.masked, enable := r'.enable)
            && (!some ==> r' == r)
            && (some ==> forall j :: 0 <= j < EVENTS ==> r'.masked[j] && r'.enable[j] == (r.enable[j] && !io))
  {
    if !exists j :: 0 <= j < EVENTS && r.current[j] {
      assert r.current == Zeroes();
    }
  }

  /** What setting up for wake makes of an event: it is marked, unless its device was known; an event without a handler
      gets the list of devices and is level-triggered, and one with a list a longer list.  An event with a firmware
      method loses a user. */
  ghost predicate SetUp(e: Event, e': Event, device: bool, found: bool, list: Handler, io: bool) {
    var known := device && e.htype == ImplicitNotify && found;
    var marked := e.(wake := e.wake || !known);
    if !device || known then e' == marked
    else
      match e.htype
      case NoHandler => e' == marked.(htype := ImplicitNotify, triggering := Level, handler := list)
      case ImplicitNotify => e' == marked.(handler := list)
      case Aml => e' == marked.(users := if e.users > 1 || (e.users == 1 && io) then e.users - 1 else e.users)
      case _ => e' == marked
  }

  lemma SetupWakeMeans(r: Reg, j: nat, device: bool, found: bool, list: Handler, io: (bool, bool, bool))
    requires Shaped(r) && j < EVENTS
    ensures SetUp(r.events[j], SetupWake(r, j, device, found, list, io).events[j], device, found, list, io.1)
  {
    var r1 := MaskSafe(r, j, io.0).0;
    MaskingKeepsEvents(r, j, false, io.0);
    PutImplicitMeans(r1, j, list, io.1);
  }

  lemma PutImplicitMeans(r: Reg, j: nat, list: Handler, io: bool)
    requires Shaped(r) && j < EVENTS
    ensures var e, e' := r.events[j], PutImplicit(r, j, list, io).events[j];
            match e.htype
            case NoHandler => e' == e.(htype := ImplicitNotify, triggering := Level, handler := list)
            case ImplicitNotify => e' == e.(handler := list)
            case Aml => e' == e.(users := if e.users > 1 || (e.users == 1 && io) then e.users - 1 else e.users)
            case _ => e' == e
  {
    RemoveUserMeans(r, j, io);
  }

  // ------------------------------------------------------------------- installing and uninstalling again

  /** Everything but the enable register. */
  ghost predicate Books(r: Reg, runtime: Mask, wakeMask: Mask, masked: Mask, current: Mask, events: seq<Event>) {
    r.runtime == runtime && r.wakeMask == wakeMask && r.masked == masked && r.current == current && r.events == events
  }

  /** The last firmware user goes while a native handler is installed. */
  predicate Yields(e: Event) { Firmware(e.htype) && e.users == 1 }

  lemma MaskSafeBooks(r: Reg, j: nat)
    requires Shaped(r) && j < EVENTS
    ensures var r1 := MaskSafe(r, j, true).0;
            Books(r1, r.runtime, r.wakeMask, if r.current[j] then r.masked[j := true] else r.masked,
                  r.current, r.events)
  {
  }

  lemma UnmaskBooks(r: Reg, j: nat, didMask: bool)
    requires Shaped(r) && j < EVENTS
    ensures Books(UnmaskIf(r, j, didMask, true),
                  r.runtime, r.wakeMask, if didMask then r.masked[j := false] else r.masked, r.current, r.events)
  {
  }

  lemma InstallBooks(r: Reg, j: nat, triggering: Triggering, htype: HandlerType, cb: nat)
    requires Counted(r) && j < EVENTS && (htype == Native || htype == NativeRaw)
    requires r.events[j].htype != Native && r.events[j].htype != NativeRaw
    ensures var e := r.events[j];
            var was := Firmware(e.htype) && e.users > 0;
            var e1 := Event(NativeHandler(cb, e.handler, e.htype, e.triggering, was), htype, triggering,
                            if was then e.users - 1 else e.users, e.wake, e.blocked);
            var runtime := if Yields(e) then r.runtime[j := false] else r.runtime;
            Books(Install(r, j, triggering, htype, cb, (true, true, true)).0,
                  runtime, r.wakeMask, if r.current[j] then r.masked[j := false] else r.masked,
                  if Yields(e) then runtime else r.current, r.events[j := e1])
  {
    var r1 := MaskSafe(r, j, true).0;
    MaskSafeBooks(r, j);
    var r2 := PutHandler(r1, j, triggering, htype, cb, true);
    UnmaskBooks(r2, j, r.current[j]);
    assert r.masked[j := true][j := false] == r.masked[j := false];
    PutHandlerBooks(r1, j, triggering, htype, cb);
  }

  lemma PutHandlerBooks(r: Reg, j: nat, triggering: Triggering, htype: HandlerType, cb: nat)
    requires Shaped(r) && j < EVENTS
    ensures var e := r.events[j];
            var was := Firmware(e.htype) && e.users > 0;
            var e1 := Event(NativeHandler(cb, e.handler, e.htype, e.triggering, was), htype, triggering,
                            if was then e.users - 1 else e.users, e.wake, e.blocked);
            var runtime := if Yields(e) then r.runtime[j := false] else r.runtime;
            Books(PutHandler(r, j, triggering, htype, cb, true),
                  runtime, r.wakeMask, r.masked, if Yields(e) then runtime else r.current, r.events[j := e1])
  {
  }

  lemma TakeHandlerBooks(r: Reg, j: nat, h: Handler)
    requires Shaped(r) && j < EVENTS && h.NativeHandler?
    requires Firmware(h.previousType) && h.previouslyEnabled ==> r.events[j].users < MAX_USERS
    ensures var e := r.events[j];
            var back := Firmware(h.previousType) && h.previouslyEnabled;
            var e1 := Event(h.previous, h.previousType, h.previousTriggering,
                            if back then e.users + 1 else e.users, e.wake, e.blocked);
            var runtime := if back && e.users == 0 then r.runtime[j := true] else r.runtime;
            Books(TakeHandler(r, j, h, true),
                  runtime, r.wakeMask, r.masked, if back && e.users == 0 then runtime else r.current, r.events[j := e1])
  {
  }

  lemma UninstallBooks(r: Reg, j: nat, h: Handler)
    requires Shaped(r) && j < EVENTS && h.NativeHandler? && h == r.events[j].handler
    requires r.events[j].htype == Native || r.events[j].htype == NativeRaw
    requires Firmware(h.previousType) && h.previouslyEnabled ==> r.events[j].users < MAX_USERS
    ensures var e := r.events[j];
            var back := Firmware(h.previousType) && h.previouslyEnabled;
            var e1 := Event(h.previous, h.previousType, h.previousTriggering,
                            if back then e.users + 1 else e.users, e.wake, e.blocked);
            var runtime := if back && e.users == 0 then r.runtime[j := true] else r.runtime;
            Books(Uninstall(r, j, h.cb, (true, true, true)).0,
                  runtime, r.wakeMask, if r.current[j] then r.masked[j := false] else r.masked,
                  if back && e.users == 0 then runtime else r.current, r.events[j := e1])
  {
    var r1 := MaskSafe(r, j, true).0;
    MaskSafeBooks(r, j);
    TakeHandlerBooks(r1, j, h);
    UnmaskBooks(TakeHandler(r1, j, h, true), j, r.current[j]);
    assert r.masked[j := true][j := false] == r.masked[j := false];
  }

  /** The enable bit of the event behind an install. */
  predicate OnAfterInstall(r: Reg, j: nat)
    requires Shaped(r) && j < EVENTS
  {
    var e := r.events[j];
    if Yields(e) then false
    else if !r.current[j] then r.enable[j]
    else (!e.blocked && e.users > (if Firmware(e.htype) then 1 else 0)) || (r.masked[j] && r.enable[j])
  }

  lemma InstallEnable(r: Reg, j: nat, triggering: Triggering, htype: HandlerType, cb: nat)
    requires Counted(r) && j < EVENTS && (htype == Native || htype == NativeRaw)
    requires r.events[j].htype != Native && r.events[j].htype != NativeRaw
    ensures Install(r, j, triggering, htype, cb, (true, true, true)).0.enable == r.enable[j := OnAfterInstall(r, j)]
  {
    var r1 := MaskSafe(r, j, true).0;
    SetMaskedMeans(r, j, true, true);
    MaskSafeBooks(r, j);
    PutHandlerBooks(r1, j, triggering, htype, cb);
    var r2 := PutHandler(r1, j, triggering, htype, cb, true);
    RemoveUserMeans(r1, j, true);
    assert r2.enable == if Yields(r.events[j]) then r1.enable[j := false] else r1.enable;
    SetMaskedMeans(r2, j, false, true);
    assert r.enable[j := r.enable[j]] == r.enable;
  }

  lemma UninstallEnable(r: Reg, j: nat, h: Handler)
    requires Shaped(r) && j < EVENTS && h.NativeHandler? && h == r.events[j].handler
    requires r.events[j].htype == Native || r.events[j].htype == NativeRaw
    requires Firmware(h.previousType) && h.previouslyEnabled ==> r.events[j].users < MAX_USERS
    ensures var e, back := r.events[j], Firmware(h.previousType) && h.previouslyEnabled;
            Uninstall(r, j, h.cb, (true, true, true)).0.enable
            == r.enable[j := if r.current[j] then (!e.blocked && (e.users > 0 || back)) || (r.masked[j] && r.enable[j])
                             else r.enable[j] || (back && e.users == 0 && !r.masked[j])]
  {
    var r1 := MaskSafe(r, j, true).0;
    SetMaskedMeans(r, j, true, true);
    MaskSafeBooks(r, j);
    var e := r1.events[j].(handler := h.previous, triggering := h.previousTriggering, htype := h.previousType);
    AddUserMeans(r1.(events := r1.events[j := e]), j, true);
    TakeHandlerBooks(r1, j, h);
    SetMaskedMeans(TakeHandler(r1, j, h, true), j, false, true);
    assert r.enable[j := r.enable[j]] == r.enable;
  }

  /** Installing a native handler and uninstalling it again, with no access failing and no event pending, brings
      back handler, triggering and users in every case, and the masks exactly when the event was not both
      masked and enabled and, if its last firmware user had to yield, the current mask was the runtime mask.
      The enable bit ends up on if the last user came back unmasked, and as an event in use should be if it was
      current; otherwise it stays. */
  lemma InstallUninstall(r: Reg, j: nat, triggering: Triggering, htype: HandlerType, cb: nat)
    requires Counted(r) && j < EVENTS && (htype == Native || htype == NativeRaw)
    requires r.events[j].htype != Native && r.events[j].htype != NativeRaw
    ensures var r1 := Install(r, j, triggering, htype, cb, (true, true, true)).0;
            var r2 := Uninstall(r1, j, cb, (true, true, true)).0;
            && r2.events == r.events && r2.runtime == r.runtime && r2.wakeMask == r.wakeMask
            && (r2.masked == r.masked && r2.current == r.current
                <==> !(r.masked[j] && r.current[j]) && (Yields(r.events[j]) ==> r.current == r.runtime))
            && r2.enable == r.enable[j := OnAfterBoth(r, j)]
  {
    var r1 := Install(r, j, triggering, htype, cb, (true, true, true)).0;
    assert CountedAt(r, j);
    InstallBooks(r, j, triggering, htype, cb);
    UninstallBooks(r1, j, r1.events[j].handler);
    EnableAfterBoth(r, j, triggering, htype, cb);
  }

  /** Hence the whole register comes back exactly under those conditions and if the bit was what it ends up as. */
  lemma UndoneExactly(r: Reg, j: nat, triggering: Triggering, htype: HandlerType, cb: nat)
    requires Counted(r) && j < EVENTS && (htype == Native || htype == NativeRaw)
    requires r.events[j].htype != Native && r.events[j].htype != NativeRaw
    ensures var r1 := Install(r, j, triggering, htype, cb, (true, true, true)).0;
            Uninstall(r1, j, cb, (true, true, true)).0 == r <==>
            && !(r.masked[j] && r.current[j]) && (Yields(r.events[j]) ==> r.current == r.runtime)
            && r.enable[j] == OnAfterBoth(r, j)
  {
    InstallUninstall(r, j, triggering, htype, cb);
    assert r.enable[j := r.enable[j]] == r.enable;
  }

  /** The new handler is in, with the old one inside it and one firmware user less. */
  ghost predicate TookOver(e: Event, e': Event, triggering: Triggering, htype: HandlerType, cb: nat) {
    && e'.htype == htype && e'.triggering == triggering && e'.wake == e.wake && e'.blocked == e.blocked
    && e'.handler == NativeHandler(cb, e.handler, e.htype, e.triggering, Firmware(e.htype) && e.users > 0)
    && e'.users <= e.users <= e'.users + (if Firmware(e.htype) then 1 else 0)
  }

  /** What the handler had replaced is back. */
  ghost predicate GaveBack(e: Event, e': Event) {
    && e.handler.NativeHandler? && e'.handler == e.handler.previous && e'.htype == e.handler.previousType
    && e'.triggering == e.handler.previousTriggering && e'.wake == e.wake && e'.blocked == e.blocked
    && e.users <= e'.users <= e.users + (if e.handler.previouslyEnabled then 1 else 0)
  }

  predicate HasNative(e: Event) { e.htype == Native || e.htype == NativeRaw }

  lemma MaskingKeepsEvents(r: Reg, j: nat, didMask: bool, io: bool)
    requires Shaped(r) && j < EVENTS
    ensures MaskSafe(r, j, io).0.events == UnmaskIf(r, j, didMask, io).events == r.events
  {
  }

  lemma PutHandlerTakesOver(r: Reg, j: nat, triggering: Triggering, htype: HandlerType, cb: nat, io: bool)
    requires Shaped(r) && j < EVENTS
    ensures TookOver(r.events[j], PutHandler(r, j, triggering, htype, cb, io).events[j], triggering, htype, cb)
  {
    RemoveUserMeans(r, j, io);
  }

  lemma TakeHandlerGivesBack(r: Reg, j: nat, h: Handler, io: bool)
    requires Shaped(r) && j < EVENTS && h.NativeHandler? && h == r.events[j].handler
    ensures GaveBack(r.events[j], TakeHandler(r, j, h, io).events[j])
  {
    var e := r.events[j].(handler := h.previous, triggering := h.previousTriggering, htype := h.previousType);
    AddUserMeans(r.(events := r.events[j := e]), j, io);
  }

  /** A native handler is never replaced; any other is taken over. */
  lemma InstallMeans(r: Reg, j: nat, triggering: Triggering, htype: HandlerType, cb: nat, io: (bool, bool, bool))
    requires Shaped(r) && j < EVENTS && (htype == Native || htype == NativeRaw)
    ensures var (r', status) := Install(r, j, triggering, htype, cb, io);
            if HasNative(r.events[j]) then r' == r && status == AlreadyExists
            else status == Ok && TookOver(r.events[j], r'.events[j], triggering, htype, cb)
  {
    var r1 := MaskSafe(r, j, io.0).0;
    MaskingKeepsEvents(r, j, false, io.0);
    PutHandlerTakesOver(r1, j, triggering, htype, cb, io.1);
    MaskingKeepsEvents(PutHandler(r1, j, triggering, htype, cb, io.1), j, r.current[j], io.2);
  }

  /** What a native handler had replaced comes back, for the one who installed it only. */
  lemma UninstallMeans(r: Reg, j: nat, cb: nat, io: (bool, bool, bool))
    requires Shaped(r) && j < EVENTS
    ensures var (r', status) := Uninstall(r, j, cb, io);
            var e := r.events[j];
            if !HasNative(e) then r' == r && status == NotFound
            else if !e.handler.NativeHandler? || e.handler.cb != cb then r' == r && status == InvalidArgument
            else status == Ok && GaveBack(e, r'.events[j])
  {
    var r1, h := MaskSafe(r, j, io.0).0, r.events[j].handler;
    MaskingKeepsEvents(r, j, false, io.0);
    if h.NativeHandler? {
      TakeHandlerGivesBack(r1, j, h, io.1);
      MaskingKeepsEvents(TakeHandler(r1, j, h, io.1), j, r.current[j], io.2);
    }
  }

  /** An event that is resumed without users is on in hardware; adding and removing a user turns it off, and so do
      masking and unmasking. */
  lemma ResumedIsNotRestored(amls: seq<Option<Triggering>>)
    requires |amls| == EVENTS
    ensures var r := Run(Fresh(amls), [OnEvent(0, SuspendResume(false, true))]);
            && RemoveUser(AddUser(r, 0, true).0, 0, true).0 != r
            && SetMasked(SetMasked(r, 0, true, true).0, 0, false, true).0 != r
  {
    var r0, a := Fresh(amls), OnEvent(0, SuspendResume(false, true));
    assert [a][..0] == [];
    var r := Run(r0, [a]);
    assert r == Step(r0, a) && r.enable[0];
    FreshRunsAreSound(amls, [a]);
    AddThenRemove(r, 0);
    MaskThenUnmask(r, 0);
  }

  /** An event that was enabled and then masked comes back unmasked from an install and uninstall. */
  lemma MaskedIsNotRestored(amls: seq<Option<Triggering>>, triggering: Triggering, htype: HandlerType, cb: nat)
    requires |amls| == EVENTS && amls[0].Some? && (htype == Native || htype == NativeRaw)
    ensures var r := Run(Fresh(amls), [OnEvent(0, Enable(true)), OnEvent(0, MaskUnmask(true, true))]);
            var r1 := Install(r, 0, triggering, htype, cb, (true, true, true)).0;
            r.masked[0] && !Uninstall(r1, 0, cb, (true, true, true)).0.masked[0]
  {
    var a, b := OnEvent(0, Enable(true)), OnEvent(0, MaskUnmask(true, true));
    var r0 := Fresh(amls);
    assert [a, b][..1] == [a] && [a][..0] == [];
    var r1 := Step(r0, a);
    assert Run(r0, [a]) == r1 && r1.current[0];
    var r := Run(r0, [a, b]);
    assert r == Step(r1, b);
    FreshRunsAreSound(amls, [a, b]);
    InstallBooks(r, 0, triggering, htype, cb);
    var r2 := Install(r, 0, triggering, htype, cb, (true, true, true)).0;
    UninstallBooks(r2, 0, r2.events[0].handler);
  }

  predicate OnAfterBoth(r: Reg, j: nat)
    requires Shaped(r) && j < EVENTS
  {
    if Yields(r.events[j]) then r.current[j] || !r.masked[j]
    else if r.current[j] then !r.events[j].blocked && r.events[j].users > 0
    else r.enable[j]
  }

  lemma EnableAfterBoth(r: Reg, j: nat, triggering: Triggering, htype: HandlerType, cb: nat)
    requires Counted(r) && j < EVENTS && (htype == Native || htype == NativeRaw)
    requires r.events[j].htype != Native && r.events[j].htype != NativeRaw
    ensures var r1 := Install(r, j, triggering, htype, cb, (true, true, true)).0;
            Uninstall(r1, j, cb, (true, true, true)).0.enable == r.enable[j := OnAfterBoth(r, j)]
  {
    var r1 := Install(r, j, triggering, htype, cb, (true, true, true)).0;
    assert CountedAt(r, j);
    InstallBooks(r, j, triggering, htype, cb);
    InstallEnable(r, j, triggering, htype, cb);
    UninstallEnable(r1, j, r1.events[j].handler);
  }
}
