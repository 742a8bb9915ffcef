/** The GPE calls of `event.c` as they update a register and its events in place, against `Gpe`. */
module GpeRegister {
  import opened Options
  import opened Gpe

  class Register {
    var runtime: Mask
    var wakeMask: Mask
    var masked: Mask
    var current: Mask
    var enable: Mask             // the hardware register
    var events: seq<Event>

    ghost function State(): Reg
      reads this
    {
      Reg(runtime, wakeMask, masked, current, enable, events)
    }

    ghost predicate Valid()
      reads this
    {
      Shaped(State())
    }

    /** create_gpe_block, with the AML methods that were found. */
    constructor (amls: seq<Option<Triggering>>)
      requires |amls| == EVENTS
      ensures Valid() && State() == Fresh(amls) && Counted(State()) && MaskedOff(State())
    {
      var r := Fresh(amls);
      runtime, wakeMask, masked := r.runtime, r.wakeMask, r.masked;
      current, enable, events := r.current, r.enable, r.events;
      FreshRunsAreSound(amls, []);
    }

    /** set_gpe_state. */
    method SetGpeState(j: nat, wanted: GpeState, io: bool) returns (status: Status)
      requires Valid() && j < EVENTS
      modifies `enable
      ensures Valid() && (State(), status) == SetState(old(State()), j, wanted, io)
      ensures StateIsSet(old(State()), State(), j, wanted, status) && (io ==> status == Ok)
    {
      SetStateMeans(State(), j, wanted, io);
      var state := wanted;
      if state != Disabled && masked[j] {
        return Ok;
      }
      if state == EnabledConditionally {
        if !current[j] {
          return Ok;
        }
        state := Enabled;
      }
      if !io {
        return Failed;
      }
      enable := enable[j := state == Enabled];
      return Ok;
    }

    /** gp_event_toggle_masks. */
    method ToggleMasks(j: nat, setOn: bool)
      requires Valid() && j < EVENTS
      modifies `runtime, `current
      ensures Valid() && State() == Toggle(old(State()), j, setOn)
    {
      runtime := runtime[j := setOn];
      current := runtime;
    }

    /** gpe_remove_user. */
    method RemoveOneUser(j: nat, io: bool) returns (status: Status)
      requires Valid() && j < EVENTS
      modifies this
      ensures Valid() && (State(), status) == RemoveUser(old(State()), j, io)
      ensures status == Ok ==>
                old(events[j]).users > 0 && UsersMoved(old(State()), State(), j, old(events[j]).users - 1)
      ensures status == Failed ==> old(events[j]).users == 1 && !io && PutBack(old(State()), State(), j)
      ensures status == InvalidArgument ==> old(events[j]).users == 0 && unchanged(this)
    {
      RemoveUserMeans(State(), j, io);
      if events[j].users == 0 {
        return InvalidArgument;
      }
      events := events[j := events[j].(users := events[j].users - 1)];
      status := Ok;
      if events[j].users == 0 {
        ToggleMasks(j, false);
        status := SetGpeState(j, Disabled, io);
        if status != Ok {
          ToggleMasks(j, true);
          events := events[j := events[j].(users := events[j].users + 1)];
        }
      }
    }

    /** gpe_add_user. */
    method AddOneUser(j: nat, io: bool) returns (status: Status)
      requires Valid() && j < EVENTS && events[j].users <= MAX_USERS
      modifies this
      ensures Valid() && (State(), status) == AddUser(old(State()), j, io)
      ensures status == Ok ==>
                old(events[j]).users < MAX_USERS && UsersMoved(old(State()), State(), j, old(events[j]).users + 1)
      ensures status == Failed ==> old(events[j]).users == 0 && !io && PutBack(old(State()), State(), j)
      ensures status == InvalidArgument ==> old(events[j]).users == MAX_USERS && unchanged(this)
    {
      AddUserMeans(State(), j, io);
      if events[j].users == MAX_USERS {
        return InvalidArgument;
      }
      events := events[j := events[j].(users := events[j].users + 1)];
      status := Ok;
      if events[j].users == 1 {
        ToggleMasks(j, true);
        status := SetGpeState(j, Enabled, io);
        if status != Ok {
          ToggleMasks(j, false);
          events := events[j := events[j].(users := events[j].users - 1)];
        }
      }
    }

    /** gpe_mask_unmask. */
    method MaskOrUnmask(j: nat, shouldMask: bool, io: bool) returns (status: Status)
      requires Valid() && j < EVENTS
      modifies `masked, `enable
      ensures Valid() && (State(), status) == SetMasked(old(State()), j, shouldMask, io)
      ensures status == InvalidArgument <==> old(masked[j]) == shouldMask
      ensures if status == Ok then MaskIsSet(old(State()), State(), j, shouldMask, io) else unchanged(this)
    {
      SetMaskedMeans(State(), j, shouldMask, io);
      if shouldMask {
        if masked[j] {
          return InvalidArgument;
        }
        masked := masked[j := true];
        status := SetGpeState(j, Disabled, io);
        return Ok;
      }
      if !masked[j] {
        return InvalidArgument;
      }
      masked := masked[j := false];
      if !events[j].blocked && events[j].users > 0 {
        status := SetGpeState(j, EnabledConditionally, io);
      }
      return Ok;
    }

    /** gpe_mask_safe. */
    method MaskSafely(j: nat, io: bool) returns (did: bool)
      requires Valid() && j < EVENTS
      modifies `masked, `enable
      ensures Valid() && (State(), did) == MaskSafe(old(State()), j, io)
      ensures did == current[j] && (did ==> masked[j])
      ensures if did && !old(masked[j]) then MaskIsSet(old(State()), State(), j, true, io) else unchanged(this)
    {
      if !current[j] {
        return false;
      }
      var status := MaskOrUnmask(j, true, io);
      return true;
    }

    /** do_install_gpe_handler on an event that was found. */
    method InstallNative(j: nat, triggering: Triggering, htype: HandlerType, cb: nat, io: (bool, bool, bool))
      returns (status: Status)
      requires Valid() && j < EVENTS && (htype == Native || htype == NativeRaw)
      modifies this
      ensures Valid() && (State(), status) == Install(old(State()), j, triggering, htype, cb, io)
      ensures status == AlreadyExists <==> HasNative(old(events[j]))
      ensures if status == Ok then TookOver(old(events[j]), events[j], triggering, htype, cb) else unchanged(this)
      ensures Keeps(old(State()), State(), j, io.0 && io.1 && io.2)
    {
      InstallMeans(State(), j, triggering, htype, cb, io);
      InstallKeeps(State(), j, triggering, htype, cb, io);
      var e := events[j];
      if e.htype == Native || e.htype == NativeRaw {
        return AlreadyExists;
      }
      var didMask := MaskSafely(j, io.0);
      PutNative(j, triggering, htype, cb, io.1);
      if didMask {
        status := MaskOrUnmask(j, false, io.2);
      }
      return Ok;
    }

    /** The part of it that runs with the event masked. */
    method PutNative(j: nat, triggering: Triggering, htype: HandlerType, cb: nat, io: bool)
      requires Valid() && j < EVENTS
      modifies this
      ensures Valid() && State() == PutHandler(old(State()), j, triggering, htype, cb, io)
    {
      var e, previouslyEnabled := events[j], false;
      if (e.htype == Aml || e.htype == ImplicitNotify) && e.users != 0 {
        previouslyEnabled := true;
        var status := RemoveOneUser(j, io);
      }
      var native := NativeHandler(cb, e.handler, e.htype, e.triggering, previouslyEnabled);
      events := events[j := events[j].(handler := native, htype := htype, triggering := triggering)];
    }

    /** uacpi_uninstall_gpe_handler on an event that was found, up to the poll for a pending event. */
    method UninstallNative(j: nat, cb: nat, io: (bool, bool, bool)) returns (status: Status)
      requires Valid() && j < EVENTS && events[j].users <= MAX_USERS
      modifies this
      ensures Valid() && (State(), status) == Uninstall(old(State()), j, cb, io)
      ensures status == NotFound <==> !HasNative(old(events[j]))
      ensures if status == Ok then GaveBack(old(events[j]), events[j]) && old(events[j]).handler.cb == cb
              else unchanged(this)
      ensures Keeps(old(State()), State(), j, io.0 && io.1 && io.2)
    {
      UninstallMeans(State(), j, cb, io);
      UninstallKeeps(State(), j, cb, io);
      var e := events[j];
      if e.htype != Native && e.htype != NativeRaw {
        return NotFound;
      }
      if !e.handler.NativeHandler? || e.handler.cb != cb {
        return InvalidArgument;
      }
      var h := e.handler;
      var didMask := MaskSafely(j, io.0);
      TakeNative(j, h, io.1);
      if didMask {
        status := MaskOrUnmask(j, false, io.2);
      }
      return Ok;
    }

    /** The part of it that runs with the event masked. */
    method TakeNative(j: nat, h: Handler, io: bool)
      requires Valid() && j < EVENTS && events[j].users <= MAX_USERS && h.NativeHandler?
      modifies this
      ensures Valid() && State() == TakeHandler(old(State()), j, h, io)
    {
      var e := events[j].(handler := h.previous, triggering := h.previousTriggering, htype := h.previousType);
      events := events[j := e];
      if (h.previousType == Aml || h.previousType == ImplicitNotify) && h.previouslyEnabled {
        var status := AddOneUser(j, io);
      }
    }

    /** gpe_block_apply_action on this register. */
    method ApplyAction(action: BlockAction, io: bool) returns (status: Status)
      requires Valid()
      modifies `current, `enable
      ensures Valid() && (State(), status) == Apply(old(State()), action, io)
      ensures ActionIsApplied(old(State()), State(), action, status) && (status == Ok <==> io)
    {
      ApplyMeans(State(), action, io);
      var value;
      match action {
        case DisableAll => value := Zeroes();
        case EnableAllForRuntime => value := NotMasked(runtime, masked);
        case EnableAllForWake => value := wakeMask;
        case ClearAll => return if io then Ok else Failed;
      }
      current := value;
      if !io {
        return Failed;
      }
      enable := value;
      return Ok;
    }
  }
}
