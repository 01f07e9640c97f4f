/**
 The white light daemon's code, each method proved against the machine of WhiteLight.
 */
module WhiteDaemon {
  import opened LightLists
  import opened WhiteLight
  import LightManager
  import opened LightRuns

  class WhiteLightDaemon {
    const lm: LightManager.Manager
    var status: Status
    var prevStatus: Status
    var action: Action
    /* The static variable of white_light_night. */
    var prevBright: nat
    ghost var commands: seq<bool>
    ghost const white: Addr

    ghost function Abs(): World
      reads this, lm, lm.pool
    {
      World(lm.Abs(), White(status, prevStatus, action, prevBright), commands)
    }

    /* Between the steps of a pass. */
    ghost predicate Ready()
      reads this, lm, lm.pool, lm.mem
    {
      lm.Valid() && !lm.stuck
    }

    /* Between passes: the status is the last command, and the white driver follows it. */
    ghost predicate Valid()
      reads this, lm, lm.pool, lm.mem
    {
      Ready() && LastCommandIs(Abs()) && Driven(Abs(), white)
    }

    /* `white` is the light registered for the white id. */
    constructor (lm: LightManager.Manager, ghost white: Addr)
      requires lm.Valid() && !lm.stuck && Holds(lm.Abs(), white, Off)
      ensures Valid() && this.lm == lm && this.white == white && Abs() == World(lm.Abs(), START, [])
    {
      this.lm, this.white := lm, white;
      status, prevStatus, action, prevBright, commands := Off, Off, Pending(false), 0, [];
    }

    /* white_light_set */
    method WhiteLightSet(on: bool)
      requires Ready()
      modifies lm, lm.mem, this`commands
      ensures Ready() && Abs() == Command(old(Abs()), on)
    {
      var r := lm.LightCtrlPut(WhiteControl(on));
      commands := commands + [on];
    }

    /* __ve_cm_white_light_set */
    method CmWhiteLightSet(on: bool, runMode: int)
      modifies this`action
      ensures Abs() == CoilEvent(old(Abs()), on, runMode)
      ensures old(Valid()) ==> Valid()
    {
      if runMode == 2 {
        action := Pending(on);
      }
    }

    method WhiteLightAlways() returns (next: Status)
      requires Ready()
      modifies lm, lm.mem, this`commands
      ensures Ready() && (Abs(), next) == Always(old(Abs()))
    {
      next := status;
      if status == Off {
        WhiteLightSet(true);
        next := On;
      }
    }

    method WhiteLightNight(inp: Inputs) returns (next: Status)
      requires Ready()
      modifies lm, lm.mem, this`commands, this`prevBright
      ensures Ready() && (Abs(), next) == Night(old(Abs()), inp)
    {
      next := status;
      match status
      case On =>
        if prevBright != inp.bright {
          prevBright := inp.bright;
          WhiteLightSet(true);
        }
        if inp.daytime {
          WhiteLightSet(false);
          next := Off;
        }
      case Off =>
        if !inp.daytime {
          WhiteLightSet(true);
          next := On;
        }
    }

    method WhiteLightNightCoil(inp: Inputs) returns (next: Status)
      requires Ready()
      modifies lm, lm.mem, this`commands, this`action
      ensures Ready() && (Abs(), next) == NightCoil(old(Abs()), inp)
    {
      next := status;
      match status
      case On =>
        if action == Pending(false) {
          action := Consumed;
          WhiteLightSet(false);
          next := Off;
        }
      case Off =>
        if action == Pending(true) {
          action := Consumed;
          if !inp.daytime {
            WhiteLightSet(true);
            next := On;
          }
        }
    }

    method UpdateStatus(next: Status)
      requires Ready()
      modifies this`status, this`prevStatus
      ensures Ready() && Abs() == WhiteLight.UpdateStatus(old(Abs()), next)
    {
      if next != status {
        prevStatus := status;
        status := next;
      }
    }

    /* white_light_daemon and the three mode daemons it selects from. */
    method Daemon(inp: Inputs)
      requires Valid()
      modifies this, lm, lm.mem
      ensures Valid() && Abs() == WhitePass(old(Abs()), inp)
    {
      PassFollowsCommands(Abs(), inp);
      PassDrives(Abs(), inp, white);
      if HasHandler(inp) {
        var next: Status;
        if inp.whiteMode == NIGHT_ON {
          next := WhiteLightNight(inp);
        } else if inp.whiteMode == COIL_TOGGLE {
          next := WhiteLightNightCoil(inp);
        } else {
          next := WhiteLightAlways();
        }
        UpdateStatus(next);
      }
    }

    /* One round of light_thread: the lists' daemon, then the white light's. By its end the white driver
       has been told the status the round began with. */
    method LightThreadRound(due: Addr -> bool, inp: Inputs)
      requires Valid()
      modifies this, lm, lm.mem
      ensures Valid() && !old(Abs()).lights.stuck
      ensures Abs() == Happen(Happen(old(Abs()), Lights(Passing(due))), Pass(inp))
      ensures Told(lm.calls, white, ValueOf(old(status)))
    {
      ListsPass(due);
      PassKeepsCalls(Abs(), inp);
      Daemon(inp);
    }

    method ListsPass(due: Addr -> bool)
      requires Valid()
      modifies lm, lm.mem
      ensures Valid() && Abs() == Happen(old(Abs()), Lights(Passing(due)))
      ensures Told(lm.calls, white, ValueOf(status))
    {
      DaemonDrives(Abs(), due, white);
      lm.LightCtrlDaemon(due);
    }

    /* Another thread controls the other lights. */
    method OtherCtrlPut(ctrl: Control) returns (ret: int)
      requires Valid() && |ctrl.info| == |ctrl.mask| == LIGHTS && !ctrl.mask[WHITE]
      modifies lm, lm.mem
      ensures Valid() && Abs() == Happen(old(Abs()), Lights(Putting(ctrl)))
    {
      CtrlPutOther(lm.Abs(), ctrl, 0, white);
      CtrlPutSameIds(lm.Abs(), ctrl, 0);
      ret := lm.LightCtrlPut(ctrl);
    }

    /* Another light is registered, or the mutex is lost. */
    method OtherRegst(id: nat) returns (ret: int)
      requires Valid()
      modifies lm, lm.pool, lm.mem
      ensures Abs() == Happen(old(Abs()), Lights(Registering(id)))
      ensures if ret == 0 then Valid() else lm.stuck
    {
      RegisterOther(lm.Abs(), id, white);
      ret := lm.LightRegst(id);
    }
  }

  lemma DaemonDrives(w: World, due: Addr -> bool, a: Addr)
    requires Inv(w.lights) && !w.lights.stuck && Driven(w, a)
    ensures Inv(Daemon(w.lights, due)) && !Daemon(w.lights, due).stuck
    ensures Holds(Daemon(w.lights, due), a, w.white.status) && Told(Daemon(w.lights, due).calls, a, ValueOf(w.white.status))
  {
    DaemonInv(w.lights, due);
    DaemonSameIds(w.lights, due);
    DaemonTells(w.lights, due, a);
  }

  lemma CommandKeepsCalls(w: World, on: bool)
    requires Inv(w.lights)
    ensures Command(w, on).lights.calls == w.lights.calls
  {
    CtrlPutKeepsCalls(w.lights, WhiteControl(on), 0);
  }

  lemma {:induction false} CtrlPutKeepsCalls(st: State, ctrl: Control, i: nat)
    requires Inv(st) && |ctrl.info| == |ctrl.mask| == LIGHTS && i <= LIGHTS
    ensures CtrlPut(st, ctrl, i).0.calls == st.calls
    decreases LIGHTS - i
  {
    if i < LIGHTS {
      if !ctrl.mask[i] {
        CtrlPutKeepsCalls(st, ctrl, i + 1);
      } else if Find(st, i).Some? {
        PutIdInv(st, i, ctrl.info[i]);
        PutIdSameIds(st, i, ctrl.info[i]);
        CtrlPutKeepsCalls(PutId(st, i, ctrl.info[i]), ctrl, i + 1);
      }
    }
  }

  /* The white pass puts commands on the lists; it calls no driver. */
  lemma PassKeepsCalls(w: World, inp: Inputs)
    requires Inv(w.lights)
    ensures WhitePass(w, inp).lights.calls == w.lights.calls
  {
    CommandKeepsCalls(w, true);
    CommandKeepsCalls(w, false);
    var w1 := w.(white := w.white.(action := Consumed));
    CommandKeepsCalls(w1, true);
    CommandKeepsCalls(w1, false);
    var w2 := w.(white := w.white.(prevBright := inp.bright));
    CommandKeepsCalls(w2, true);
    CommandKeepsCalls(Command(w2, true), false);
  }
}
