/**
 The white light's mode and status machine on top of the light manager (ve/dev/light.c), as
 steps on values: what each daemon pass commands, and what the white driver ends up told.
 */
module WhiteLight {
  import opened Options
  import opened LightLists

  const WHITE: nat := 3

  datatype Status = Off | On

  /* The detection and white light modes of the configuration; any other value is out of range. */
  const DETECT_VIDEO: nat := 0
  const DETECT_MIX: nat := 2
  const NIGHT_ON: nat := 0
  const COIL_TOGGLE: nat := 1
  const ALWAYS_ON: nat := 2

  /* What a daemon pass reads from outside. */
  datatype Inputs = Inputs(detectMode: nat, whiteMode: nat, daytime: bool, bright: nat)

  /* cm.action */
  datatype Action = Pending(on: bool) | Consumed

  datatype White = White(status: Status, prevStatus: Status, action: Action, prevBright: nat)

  /* `commands` are the calls of white_light_set, in order. */
  datatype World = World(lights: State, white: White, commands: seq<bool>)

  function WhiteControl(on: bool): (c: Control)
    ensures |c.info| == |c.mask| == LIGHTS
  {
    Control([Info(0, 0), Info(0, 0), Info(0, 0), Info(if on then 255 else 0, 0)], [false, false, false, true])
  }

  /* white_light_set */
  function Command(w: World, on: bool): (r: World)
    requires Inv(w.lights)
    ensures Inv(r.lights)
  {
    World(CtrlPut(w.lights, WhiteControl(on), 0).0, w.white, w.commands + [on])
  }

  /* white_light_always */
  function Always(w: World): (r: (World, Status))
    requires Inv(w.lights)
    ensures Inv(r.0.lights)
  {
    match w.white.status
    case Off => (Command(w, true), On)
    case On => (w, On)
  }

  /* white_light_night; a brightness change while on is put through again, even when going off. */
  function Night(w: World, inp: Inputs): (r: (World, Status))
    requires Inv(w.lights)
    ensures Inv(r.0.lights)
  {
    match w.white.status
    case On =>
      var w1 := if w.white.prevBright != inp.bright
                then Command(w.(white := w.white.(prevBright := inp.bright)), true) else w;
      if inp.daytime then (Command(w1, false), Off) else (w1, On)
    case Off =>
      if !inp.daytime then (Command(w, true), On) else (w, Off)
  }

  /* white_light_night_coil; a switch-on by day is consumed and ignored. */
  function NightCoil(w: World, inp: Inputs): (r: (World, Status))
    requires Inv(w.lights)
    ensures Inv(r.0.lights)
  {
    match w.white.status
    case On =>
      if w.white.action == Pending(false) then (Command(w.(white := w.white.(action := Consumed)), false), Off)
      else (w, On)
    case Off =>
      if w.white.action == Pending(true) then
        var w1 := w.(white := w.white.(action := Consumed));
        if inp.daytime then (w1, Off) else (Command(w1, true), On)
      else (w, Off)
  }

  /* white_light_update_status */
  function UpdateStatus(w: World, next: Status): World {
    if next == w.white.status then w
    else w.(white := w.white.(prevStatus := w.white.status, status := next))
  }

  /* The handler tables: video detection has no coil handler. */
  predicate HasHandler(inp: Inputs) {
    inp.detectMode <= DETECT_MIX && inp.whiteMode <= ALWAYS_ON
    && !(inp.detectMode == DETECT_VIDEO && inp.whiteMode == COIL_TOGGLE)
  }

  function Handler(w: World, inp: Inputs): (r: (World, Status))
    requires Inv(w.lights)
    ensures Inv(r.0.lights)
  {
    if inp.whiteMode == NIGHT_ON then Night(w, inp)
    else if inp.whiteMode == COIL_TOGGLE then NightCoil(w, inp)
    else Always(w)
  }

  /* white_light_daemon */
  function WhitePass(w: World, inp: Inputs): (r: World)
    requires Inv(w.lights)
    ensures Inv(r.lights)
  {
    if !HasHandler(inp) then w
    else var (w', next) := Handler(w, inp); UpdateStatus(w', next)
  }

  /* __ve_cm_white_light_set */
  function CoilEvent(w: World, on: bool, runMode: int): World {
    if runMode == 2 then w.(white := w.white.(action := Pending(on))) else w
  }

  // ----- Runs.

  datatype Event = Lights(step: Step) | Coil(on: bool, runMode: int) | Pass(inp: Inputs)

  /* Nobody but the white daemon controls the white light. */
  predicate Proper(e: Event) {
    e.Lights? ==> Sensible(e.step) && (e.step.Putting? ==> !e.step.ctrl.mask[WHITE])
  }

  /* Once the lights' mutex is lost, every thread that needs it waits for good; coil events do not need it. */
  function Happen(w: World, e: Event): (r: World)
    requires Inv(w.lights) && Proper(e)
    ensures Inv(r.lights)
  {
    if w.lights.stuck && !e.Coil? then w
    else match e
      case Lights(step) => ApplyInv(w.lights, step); w.(lights := Apply(w.lights, step))
      case Coil(on, runMode) => CoilEvent(w, on, runMode)
      case Pass(inp) => WhitePass(w, inp)
  }

  ghost function HappenAll(w: World, es: seq<Event>): (r: World)
    requires Inv(w.lights) && forall e :: e in es ==> Proper(e)
    ensures Inv(r.lights)
    decreases |es|
  {
    if es == [] then w
    else assert es[0] in es; HappenAll(Happen(w, es[0]), es[1..])
  }

  // ----- The status is the last command.

  predicate LastCommandIs(w: World) {
    (w.white.status == On) <==> (w.commands != [] && w.commands[|w.commands| - 1])
  }

  lemma PassFollowsCommands(w: World, inp: Inputs)
    requires Inv(w.lights) && LastCommandIs(w)
    ensures LastCommandIs(WhitePass(w, inp))
  {
  }

  /* Over every run, whatever the inputs, status is ON iff the last white command was "on". */
  lemma {:induction false} StatusIsLastCommand(w: World, es: seq<Event>)
    requires Inv(w.lights) && LastCommandIs(w) && forall e :: e in es ==> Proper(e)
    ensures LastCommandIs(HappenAll(w, es))
    decreases |es|
  {
    if es != [] {
      assert es[0] in es;
      if es[0].Pass? { PassFollowsCommands(w, es[0].inp); }
      StatusIsLastCommand(Happen(w, es[0]), es[1..]);
    }
  }

  // ----- With the inputs held.

  function PassTimes(w: World, inp: Inputs, k: nat): (r: World)
    requires Inv(w.lights)
    ensures Inv(r.lights)
  {
    if k == 0 then w else WhitePass(PassTimes(w, inp, k - 1), inp)
  }

  /* The status the mode asks for. */
  function Wanted(inp: Inputs): Status {
    if inp.whiteMode == NIGHT_ON && inp.daytime then Off else On
  }

  /* Night-on and always-on reach their status in one pass and keep it; after a second pass
     nothing at all changes any more, so no further commands are issued. */
  lemma {:induction false} StableInOnePass(w: World, inp: Inputs, k: nat)
    requires Inv(w.lights) && HasHandler(inp) && inp.whiteMode != COIL_TOGGLE
    ensures k >= 1 ==> PassTimes(w, inp, k).white.status == Wanted(inp)
    ensures k >= 2 ==> PassTimes(w, inp, k) == WhitePass(WhitePass(w, inp), inp)
  {
    if k >= 1 {
      StableInOnePass(w, inp, k - 1);
      OneMorePass(w, inp, k, PassTimes(w, inp, k - 1));
    }
  }

  lemma OneMorePass(w: World, inp: Inputs, k: nat, before: World)
    requires Inv(w.lights) && HasHandler(inp) && inp.whiteMode != COIL_TOGGLE && k >= 1 && before == PassTimes(w, inp, k - 1)
    requires k >= 3 ==> before == WhitePass(WhitePass(w, inp), inp)
    ensures PassTimes(w, inp, k).white.status == Wanted(inp)
    ensures k >= 2 ==> PassTimes(w, inp, k) == WhitePass(WhitePass(w, inp), inp)
  {
    PassReaches(before, inp);
    if k == 1 {
      assert before == w;
    } else if k == 2 {
      assert PassTimes(w, inp, 0) == w && before == WhitePass(w, inp);
    } else {
      PassReaches(w, inp);
      SettledPass(WhitePass(w, inp), inp);
    }
  }

  lemma PassReaches(w: World, inp: Inputs)
    requires Inv(w.lights) && HasHandler(inp) && inp.whiteMode != COIL_TOGGLE
    ensures WhitePass(w, inp).white.status == Wanted(inp)
  {
  }

  lemma SettledPass(w: World, inp: Inputs)
    requires Inv(w.lights) && HasHandler(inp) && inp.whiteMode != COIL_TOGGLE && w.white.status == Wanted(inp)
    ensures WhitePass(WhitePass(w, inp), inp) == WhitePass(w, inp)
  {
  }

  // ----- The coil mode.

  /* A pass in coil mode. */
  predicate CoilMode(inp: Inputs) {
    HasHandler(inp) && inp.whiteMode == COIL_TOGGLE
  }

  /* After a coil event in run mode 2 and one pass, the light is on exactly if "on" was asked for and it is
     night or the light was already on. */
  lemma CoilPass(w: World, on: bool, inp: Inputs)
    requires Inv(w.lights) && CoilMode(inp)
    ensures WhitePass(CoilEvent(w, on, 2), inp).white.status == On <==> on && (!inp.daytime || w.white.status == On)
  {
  }

  /* No action is pending that would change the status. */
  predicate Quiet(white: White) {
    white.action != Pending(white.status == Off)
  }

  lemma CoilPassQuiets(w: World, inp: Inputs)
    requires Inv(w.lights) && CoilMode(inp)
    ensures Quiet(WhitePass(w, inp).white)
  {
  }

  /* Neither a coil event that counts nor a pass in another mode. */
  predicate Uneventful(e: Event) {
    (e.Coil? ==> e.runMode != 2) && (e.Pass? ==> CoilMode(e.inp))
  }

  lemma {:induction false} QuietStays(w: World, es: seq<Event>)
    requires Inv(w.lights) && Quiet(w.white) && forall e :: e in es ==> Proper(e) && Uneventful(e)
    ensures HappenAll(w, es).white == w.white && HappenAll(w, es).commands == w.commands
    decreases |es|
  {
    if es != [] {
      assert es[0] in es;
      QuietStays(Happen(w, es[0]), es[1..]);
    }
  }

  /* In coil mode the first pass after an event decides, by that pass's daylight; until the next event no
     later pass changes the status or gives a command, whatever the daylight then. So a switch-on by day is lost. */
  lemma FirstPassDecides(w: World, on: bool, inp: Inputs, es: seq<Event>)
    requires Inv(w.lights) && CoilMode(inp) && forall e :: e in es ==> Proper(e) && Uneventful(e)
    ensures var after := WhitePass(CoilEvent(w, on, 2), inp);
      && (HappenAll(after, es).white.status == On <==> on && (!inp.daytime || w.white.status == On))
      && HappenAll(after, es).commands == after.commands
  {
    var before := CoilEvent(w, on, 2);
    CoilPass(w, on, inp);
    CoilPassQuiets(before, inp);
    QuietStays(WhitePass(before, inp), es);
  }

  /* What one pass commands, in every mode: a changed brightness of a light that is on is put through, in the
     night mode only; and a status that changes is commanded, once. */
  lemma PassCommands(w: World, inp: Inputs)
    requires Inv(w.lights)
    ensures var w', was := WhitePass(w, inp), w.white;
      && w'.commands == w.commands
                      + (if HasHandler(inp) && inp.whiteMode == NIGHT_ON && was.status == On && was.prevBright != inp.bright
                         then [true] else [])
                      + (if w'.white.status == was.status then [] else [w'.white.status == On])
      && w'.white.prevStatus == (if w'.white.status == was.status then was.prevStatus else was.status)
      && w'.white.prevBright == (if HasHandler(inp) && inp.whiteMode == NIGHT_ON && was.status == On then inp.bright else was.prevBright)
  {
  }

  // ----- What the driver is told.

  /* The last value the driver of `a` was given. */
  function LastTold(calls: seq<(Addr, nat)>, a: Addr): Option<nat> {
    if calls == [] then None
    else if calls[|calls| - 1].0 == a then Some(calls[|calls| - 1].1)
    else LastTold(calls[..|calls| - 1], a)
  }

  function ValueOf(status: Status): nat {
    if status == On then 255 else 0
  }

  /* `a` is the white light: it holds the value of the status, is never flashing, and while it
     is idle its driver was last told that value (or nothing yet, and the light is off). */
  ghost predicate Driven(w: World, a: Addr) {
    Holds(w.lights, a, w.white.status)
  }

  ghost predicate Holds(st: State, a: Addr, status: Status) {
    && a in st.lights && st.lights[a].id == WHITE && st.lights[a].value == ValueOf(status)
    && a !in st.lists.Get(Flash)
    && (a in st.lists.Get(Idle) ==> Told(st.calls, a, st.lights[a].value))
  }

  ghost predicate Told(calls: seq<(Addr, nat)>, a: Addr, value: nat) {
    match LastTold(calls, a)
    case Some(v) => v == value
    case None => value == 0
  }

  /* What a step that is not about `a` leaves alone. */
  ghost predicate Untouched(st: State, st': State, a: Addr) {
    && a in st.lights && a in st'.lights && st'.lights[a] == st.lights[a]
    && (a in st'.lists.Get(Flash) <==> a in st.lists.Get(Flash))
    && (a in st'.lists.Get(Idle) <==> a in st.lists.Get(Idle))
    && st'.calls == st.calls
  }

  lemma PutIdOther(st: State, id: nat, info: Info, a: Addr)
    requires Inv(st) && a in st.lights && st.lights[a].id != id
    ensures Untouched(st, PutId(st, id, info), a)
  {
    FindCorrect(st, id);
    match Find(st, id)
    case None =>
    case Some((n, k)) =>
      var to := if info.intv == 0 then Steady else Flash;
      MoveMembers(st.lists, n, k, to, Flash, a);
      MoveMembers(st.lists, n, k, to, Idle, a);
  }

  lemma PutIdSame(st: State, id: nat, info: Info, a: Addr)
    requires Inv(st) && a in st.lights && st.lights[a].id == id && info.intv == 0
    ensures var st' := PutId(st, id, info);
      && a in st'.lights && st'.lights[a].id == id && st'.lights[a].value == info.value
      && a !in st'.lists.Get(Flash) && a !in st'.lists.Get(Idle) && st'.calls == st.calls
  {
    FindCorrect(st, id);
    var at := Find(st, id).value;
    assert st.lists.Get(at.0)[at.1] == a;
    MoveMembers(st.lists, at.0, at.1, Steady, Flash, a);
    MoveMembers(st.lists, at.0, at.1, Steady, Idle, a);
  }

  lemma {:induction false} CtrlPutOther(st: State, ctrl: Control, i: nat, a: Addr)
    requires Inv(st) && a in st.lights && st.lights[a].id == WHITE
    requires |ctrl.info| == |ctrl.mask| == LIGHTS && i <= LIGHTS && !ctrl.mask[WHITE]
    ensures Untouched(st, CtrlPut(st, ctrl, i).0, a)
    decreases LIGHTS - i
  {
    if i < LIGHTS {
      if !ctrl.mask[i] {
        CtrlPutOther(st, ctrl, i + 1, a);
      } else if Find(st, i).Some? {
        PutIdInv(st, i, ctrl.info[i]);
        PutIdOther(st, i, ctrl.info[i], a);
        CtrlPutOther(PutId(st, i, ctrl.info[i]), ctrl, i + 1, a);
      }
    }
  }

  lemma RegisterOther(st: State, id: nat, a: Addr)
    requires Inv(st) && !st.stuck && a in st.lights
    ensures Untouched(st, Register(st, id), a)
  {
    if Find(st, id).None? && st.lists.free != [] {
      assert st.lists.Get(Free) == st.lists.free && st.lists.free[0] in st.lists.Get(Free);
      assert st.lists.Get(Idle) == st.lists.idle && st.lists.Get(Steady) == st.lists.steady && st.lists.Get(Flash) == st.lists.flash;
      MoveMembers(st.lists, Free, 0, Idle, Flash, a);
      MoveMembers(st.lists, Free, 0, Idle, Idle, a);
    }
  }

  lemma {:induction false} LastToldAppend(calls: seq<(Addr, nat)>, more: seq<(Addr, nat)>, a: Addr)
    ensures LastTold(calls + more, a) == if LastTold(more, a).Some? then LastTold(more, a) else LastTold(calls, a)
  {
    if more == [] {
      assert calls + more == calls;
    } else {
      var n := |more| - 1;
      assert (calls + more)[..|calls| + n] == calls + more[..n];
      LastToldAppend(calls, more[..n], a);
    }
  }

  lemma {:induction false} LastToldOnly(calls: seq<(Addr, nat)>, a: Addr, v: nat)
    requires forall i :: 0 <= i < |calls| && calls[i].0 == a ==> calls[i].1 == v
    ensures LastTold(calls, a) == if exists i :: 0 <= i < |calls| && calls[i].0 == a then Some(v) else None
  {
    if calls != [] {
      LastToldOnly(calls[..|calls| - 1], a, v);
    }
  }

  lemma {:induction false} BlinkCallsAmong(s: seq<Addr>, lights: map<Addr, Light>, due: Addr -> bool, a: Addr)
    requires (forall x :: x in s ==> x in lights) && a !in s
    ensures forall i :: 0 <= i < |BlinkCalls(s, lights, due)| ==> BlinkCalls(s, lights, due)[i].0 != a
  {
    if s != [] {
      BlinkCallsAmong(s[1..], lights, due, a);
    }
  }

  /* After a daemon pass an idle light's driver was told its value. */
  lemma DaemonTells(st: State, due: Addr -> bool, a: Addr)
    requires Inv(st) && a in st.lights && a !in st.lists.Get(Flash)
    requires a in st.lists.Get(Idle) ==> Told(st.calls, a, st.lights[a].value)
    ensures var st' := Daemon(st, due);
      && a in st'.lights && st'.lights[a] == st.lights[a]
      && a !in st'.lists.Get(Flash) && a in st'.lists.Get(Idle) && Told(st'.calls, a, st.lights[a].value)
  {
    DaemonPass(st, due);
    SettledGet(st.lists, Idle);
    SettledGet(st.lists, Steady);
    SettledGet(st.lists, Flash);
    var s, b := SteadyCalls(st.lists.steady, st.lights), BlinkCalls(st.lists.flash, st.lights, due);
    SteadyCallsExact(st.lists.steady, st.lights);
    LastToldOnly(s, a, st.lights[a].value);
    BlinkCallsAmong(st.lists.flash, st.lights, due, a);
    LastToldOnly(b, a, 0);
    LastToldAppend(st.calls, s, a);
    LastToldAppend(st.calls + s, b, a);
    if a in st.lists.steady {
      var i :| 0 <= i < |st.lists.steady| && st.lists.steady[i] == a;
      assert s[i].0 == a;
    }
  }

  lemma CommandDrives(w: World, on: bool, a: Addr)
    requires Inv(w.lights) && a in w.lights.lights && w.lights.lights[a].id == WHITE
    ensures Holds(Command(w, on).lights, a, if on then On else Off)
  {
    var ctrl := WhiteControl(on);
    FindCorrect(w.lights, WHITE);
    PutIdInv(w.lights, WHITE, ctrl.info[WHITE]);
    PutIdSame(w.lights, WHITE, ctrl.info[WHITE], a);
    var st' := PutId(w.lights, WHITE, ctrl.info[WHITE]);
    assert CtrlPut(st', ctrl, LIGHTS) == (st', true);
    assert CtrlPut(w.lights, ctrl, WHITE) == (st', true);
    assert CtrlPut(w.lights, ctrl, 0) == CtrlPut(w.lights, ctrl, 1) == CtrlPut(w.lights, ctrl, 2) == CtrlPut(w.lights, ctrl, 3);
  }

  lemma NightDrives(w: World, inp: Inputs, a: Addr)
    requires Inv(w.lights) && Driven(w, a)
    ensures var (w', next) := Night(w, inp); Holds(w'.lights, a, next)
  {
    match w.white.status
    case Off =>
      CommandDrives(w, true, a);
    case On =>
      var w1 := w.(white := w.white.(prevBright := inp.bright));
      CommandDrives(w1, true, a);
      CommandDrives(if w.white.prevBright != inp.bright then Command(w1, true) else w, false, a);
  }

  lemma CoilDrives(w: World, inp: Inputs, a: Addr)
    requires Inv(w.lights) && Driven(w, a)
    ensures var (w', next) := NightCoil(w, inp); Holds(w'.lights, a, next)
  {
    CommandDrives(w.(white := w.white.(action := Consumed)), w.white.status == Off, a);
  }

  lemma PassDrives(w: World, inp: Inputs, a: Addr)
    requires Inv(w.lights) && Driven(w, a)
    ensures Driven(WhitePass(w, inp), a)
  {
    if inp.whiteMode == NIGHT_ON {
      NightDrives(w, inp, a);
    } else if inp.whiteMode == COIL_TOGGLE {
      CoilDrives(w, inp, a);
    } else {
      CommandDrives(w, true, a);
    }
  }

  lemma HappenDrives(w: World, e: Event, a: Addr)
    requires Inv(w.lights) && Proper(e) && Driven(w, a)
    ensures Driven(Happen(w, e), a)
  {
    if !w.lights.stuck {
      match e
      case Lights(step) =>
        match step {
          case Registering(id) => RegisterOther(w.lights, id, a);
          case Putting(ctrl) => CtrlPutOther(w.lights, ctrl, 0, a);
          case Passing(due) => DaemonTells(w.lights, due, a);
        }
      case Coil(on, runMode) =>
      case Pass(inp) => PassDrives(w, inp, a);
    }
  }

  /* Over every run in which the white light is registered and nobody else controls it: whenever
     it is idle, its driver was last told 255 if the status is ON and 0 if it is OFF. */
  lemma {:induction false} DriverFollowsStatus(w: World, es: seq<Event>, a: Addr)
    requires Inv(w.lights) && Driven(w, a) && forall e :: e in es ==> Proper(e)
    ensures Driven(HappenAll(w, es), a)
    decreases |es|
  {
    if es != [] {
      assert es[0] in es;
      HappenDrives(w, es[0], a);
      DriverFollowsStatus(Happen(w, es[0]), es[1..], a);
    }
  }

  /* And a round of the light thread leaves it idle before the white daemon looks at it. */
  lemma DaemonLeavesIdle(w: World, due: Addr -> bool, a: Addr)
    requires Inv(w.lights) && !w.lights.stuck && Driven(w, a)
    ensures var w' := Happen(w, Lights(Passing(due)));
      && Told(w'.lights.calls, a, ValueOf(w'.white.status)) && a in w'.lights.lists.idle
  {
    DaemonTells(w.lights, due, a);
  }

  const START: White := White(Off, Off, Pending(false), 0)

  /* Registering the white light before any driver was called, as the light ports do before
     the thread starts, begins such a run. */
  lemma RegisterDrives(st: State)
    requires Inv(st) && !st.stuck && st.calls == [] && st.lists.free != [] && Find(st, WHITE).None?
    ensures var w := World(Register(st, WHITE), START, []);
            !w.lights.stuck && LastCommandIs(w) && Inv(w.lights) && Driven(w, st.lists.free[0])
  {
    RegisterInv(st, WHITE);
    var a := st.lists.free[0];
    assert st.lists.Get(Free) == st.lists.free && a in st.lists.Get(Free);
    MoveMembers(st.lists, Free, 0, Idle, Flash, a);
  }
}
