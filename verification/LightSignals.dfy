/**
 What a control message makes a light's driver see, over any run that goes on from it: a steady
 light is set once, and a flashing one gets its value and zero in turn.
 */
module LightSignals {
  import opened IntrusiveList
  import opened LightLists
  import opened LightRuns
  import W = WhiteLight
  import D = WhiteDaemon

  /* The values the driver of `a` was given, in order. */
  function CallsTo(calls: seq<(Addr, nat)>, a: Addr): seq<nat> {
    if calls == [] then []
    else (if calls[0].0 == a then [calls[0].1] else []) + CallsTo(calls[1..], a)
  }

  lemma {:induction false} CallsToAppend(calls: seq<(Addr, nat)>, more: seq<(Addr, nat)>, a: Addr)
    ensures CallsTo(calls + more, a) == CallsTo(calls, a) + CallsTo(more, a)
  {
    if calls == [] {
      assert calls + more == more;
    } else {
      assert (calls + more)[1..] == calls[1..] + more;
      CallsToAppend(calls[1..], more, a);
      var first := if calls[0].0 == a then [calls[0].1] else [];
      assert first + CallsTo(calls[1..], a) + CallsTo(more, a) == first + (CallsTo(calls[1..], a) + CallsTo(more, a));
    }
  }

  lemma {:induction false} SteadyCallsTo(s: seq<Addr>, lights: map<Addr, Light>, a: Addr)
    requires NoDuplicates(s) && forall x :: x in s ==> x in lights
    ensures CallsTo(SteadyCalls(s, lights), a) == if a in s then [lights[a].value] else []
  {
    if s != [] {
      assert s[0] !in s[1..];
      SteadyCallsTo(s[1..], lights, a);
    }
  }

  /* The value a flashing light gets next. */
  function NextValue(light: Light): nat {
    if light.prevVal == 0 then light.value else 0
  }

  lemma {:induction false} BlinkCallsTo(s: seq<Addr>, lights: map<Addr, Light>, due: Addr -> bool, a: Addr)
    requires NoDuplicates(s) && forall x :: x in s ==> x in lights
    ensures CallsTo(BlinkCalls(s, lights, due), a) == if a in s && due(a) then [NextValue(lights[a])] else []
  {
    if s != [] {
      assert s[0] !in s[1..];
      BlinkCallsTo(s[1..], lights, due, a);
      BlinkHead(if due(s[0]) then [(s[0], Toggled(lights[s[0]]).prevVal)] else [], BlinkCalls(s[1..], lights, due), a);
    }
  }

  lemma BlinkHead(first: seq<(Addr, nat)>, rest: seq<(Addr, nat)>, a: Addr)
    requires |first| <= 1
    ensures CallsTo(first + rest, a) == (if first != [] && first[0].0 == a then [first[0].1] else []) + CallsTo(rest, a)
  {
    CallsToAppend(first, rest, a);
    if first != [] { assert first[1..] == []; }
  }

  /* The values v and w in turn. */
  function Alternating(v: nat, w: nat, n: nat): seq<nat>
    decreases n
  {
    if n == 0 then [] else [v] + Alternating(w, v, n - 1)
  }

  /* How often the clock says that the time of `a` has come. */
  function DueCount(steps: seq<Step>, a: Addr): nat {
    if steps == [] then 0 else DueCount(steps[1..], a) + if IsDue(steps[0], a) then 1 else 0
  }

  /* What a driver sees from now on, as far as it is decided. */
  function Signal(st: State, a: Addr, passes: bool, due: nat): seq<nat>
    requires a in st.lights
  {
    var light := st.lights[a];
    if a in st.lists.Get(Flash) then
      if light.prevVal == 0 then Alternating(light.value, 0, due) else Alternating(0, light.value, due)
    else if a in st.lists.Get(Steady) && passes then [light.value]
    else []
  }

  /* A flashing light is lit with its value or dark. */
  ghost predicate Lit(st: State, a: Addr) {
    a in st.lights && (a in st.lists.Get(Flash) ==> st.lights[a].prevVal == 0 || st.lights[a].prevVal == st.lights[a].value)
  }

  predicate HasPass(steps: seq<Step>) {
    steps != [] && (steps[0].Passing? || HasPass(steps[1..]))
  }

  lemma PassCalls(st: State, due: Addr -> bool, a: Addr)
    requires Inv(st) && a in st.lights
    ensures CallsTo(Daemon(st, due).calls, a) == CallsTo(st.calls, a)
              + (if a in st.lists.Get(Steady) then [st.lights[a].value] else [])
              + (if a in st.lists.Get(Flash) && due(a) then [NextValue(st.lights[a])] else [])
  {
    DaemonPass(st, due);
    assert st.lists.Get(Flash) == st.lists.flash && st.lists.Get(Steady) == st.lists.steady;
    assert NoDuplicates(st.lists.Get(Flash));
    var s, b := SteadyCalls(st.lists.steady, st.lights), BlinkCalls(st.lists.flash, st.lights, due);
    SteadyCallsTo(st.lists.steady, st.lights, a);
    BlinkCallsTo(st.lists.flash, st.lights, due, a);
    CallsToAppend(st.calls, s, a);
    CallsToAppend(st.calls + s, b, a);
  }

  lemma PassLists(st: State, due: Addr -> bool, a: Addr)
    requires Inv(st) && a in st.lights
    ensures var st' := Daemon(st, due);
      && a in st'.lights && st'.lights[a].id == st.lights[a].id && st'.lights[a].value == st.lights[a].value
      && a !in st'.lists.Get(Steady) && (a in st'.lists.Get(Flash) <==> a in st.lists.Get(Flash))
      && st'.lights[a].prevVal == if a in st.lists.Get(Flash) && due(a) then NextValue(st.lights[a]) else st.lights[a].prevVal
  {
    DaemonPass(st, due);
    SettledGet(st.lists, Flash);
    SettledGet(st.lists, Steady);
  }

  /* A daemon pass gives the driver the head of the signal, and leaves the rest. */
  lemma PassSignal(st: State, due: Addr -> bool, a: Addr, more: bool, n: nat)
    requires Inv(st) && Lit(st, a)
    ensures var st' := Daemon(st, due);
      && Lit(st', a)
      && CallsTo(st'.calls, a) + Signal(st', a, more, n)
         == CallsTo(st.calls, a) + Signal(st, a, true, n + if due(a) then 1 else 0)
  {
    PassCalls(st, due, a);
    PassLists(st, due, a);
    var before := CallsTo(st.calls, a);
    if a in st.lists.Get(Flash) {
      assert Apart(st.lists) && a !in st.lists.Get(Steady);
      assert before + [] == before;
      FlashSignal(st.lights[a], before, n, due(a));
    } else {
      assert (before + Signal(st, a, true, n)) + [] == before + Signal(st, a, true, n);
    }
  }

  lemma FlashSignal(light: Light, before: seq<nat>, n: nat, due: bool)
    requires light.prevVal == 0 || light.prevVal == light.value
    ensures var next := if due then NextValue(light) else light.prevVal;
      before + (if due then [NextValue(light)] else [])
        + (if next == 0 then Alternating(light.value, 0, n) else Alternating(0, light.value, n))
      == before + (if light.prevVal == 0 then Alternating(light.value, 0, n + if due then 1 else 0)
                   else Alternating(0, light.value, n + if due then 1 else 0))
  {
  }

  /* The step is not a control for this id. */
  predicate Spares(step: Step, id: nat) {
    Sensible(step) && (step.Putting? && id < LIGHTS ==> !step.ctrl.mask[id])
  }

  lemma SteadyIs(st: State, a: Addr)
    requires Inv(st) && a in st.lights
    ensures a in st.lists.Get(Steady) <==> a !in st.lists.Get(Idle) && a !in st.lists.Get(Flash)
  {
    assert st.lists.Get(Idle) == st.lists.idle && st.lists.Get(Flash) == st.lists.flash && st.lists.Get(Steady) == st.lists.steady;
    assert Apart(st.lists);
  }

  /* The light, its lists and what its driver was told are the same. */
  ghost predicate Same(st: State, st': State, a: Addr) {
    && a in st.lights && a in st'.lights && st'.lights[a] == st.lights[a] && st'.calls == st.calls
    && (a in st'.lists.Get(Flash) <==> a in st.lists.Get(Flash)) && (a in st'.lists.Get(Steady) <==> a in st.lists.Get(Steady))
  }

  lemma RegisterSame(st: State, id: nat, a: Addr)
    requires Inv(st) && !st.stuck && a in st.lights
    ensures Same(st, Register(st, id), a)
  {
    W.RegisterOther(st, id, a);
    RegisterInv(st, id);
    SteadyIs(st, a);
    SteadyIs(Register(st, id), a);
  }

  lemma CtrlPutSame(st: State, ctrl: Control, a: Addr)
    requires Inv(st) && a in st.lights && Spares(Putting(ctrl), st.lights[a].id)
    ensures Same(st, CtrlPut(st, ctrl, 0).0, a)
  {
    CtrlPutExactly(st, ctrl, 0, a);
    D.CtrlPutKeepsCalls(st, ctrl, 0);
  }

  lemma OtherSame(st: State, step: Step, a: Addr)
    requires Inv(st) && !st.stuck && a in st.lights && Spares(step, st.lights[a].id) && !step.Passing?
    ensures Same(st, Apply(st, step), a)
  {
    match step
    case Registering(id) => RegisterSame(st, id, a);
    case Putting(ctrl) => CtrlPutSame(st, ctrl, a);
  }

  predicate IsDue(step: Step, a: Addr) {
    step.Passing? && step.due(a)
  }

  lemma StepSignal(st: State, step: Step, a: Addr, more: bool, n: nat)
    requires Inv(st) && !st.stuck && Lit(st, a) && Spares(step, st.lights[a].id)
    ensures var st' := Apply(st, step);
      && Lit(st', a) && st'.lights[a].id == st.lights[a].id
      && CallsTo(st'.calls, a) + Signal(st', a, more, n)
         == CallsTo(st.calls, a) + Signal(st, a, step.Passing? || more, n + if IsDue(step, a) then 1 else 0)
  {
    if step.Passing? {
      PassLists(st, step.due, a);
      PassSignal(st, step.due, a, more, n);
    } else {
      OtherSame(st, step, a);
    }
  }

  /* Over every run without another control for the light, as long as the mutex is returned, the driver sees exactly
     the signal that the light's list, value and state decide. */
  lemma {:induction false} RunSignal(st: State, steps: seq<Step>, a: Addr)
    requires Inv(st) && Lit(st, a) && forall step :: step in steps ==> Sensible(step) && Spares(step, st.lights[a].id)
    requires !ApplyAll(st, steps).stuck
    ensures CallsTo(ApplyAll(st, steps).calls, a) == CallsTo(st.calls, a) + Signal(st, a, HasPass(steps), DueCount(steps, a))
    decreases |steps|
  {
    if steps == [] {
      assert CallsTo(st.calls, a) + [] == CallsTo(st.calls, a);
    } else {
      assert steps[0] in steps;
      if st.stuck { StuckForever(st, steps); }
      ApplyInv(st, steps[0]);
      StepSignal(st, steps[0], a, HasPass(steps[1..]), DueCount(steps[1..], a));
      assert ApplyAll(st, steps) == ApplyAll(Apply(st, steps[0]), steps[1..]);
      assert forall step :: step in steps[1..] ==> step in steps;
      RunSignal(Apply(st, steps[0]), steps[1..], a);
    }
  }

  /* The message takes effect on this id: it and every id before it that is asked for is registered. */
  ghost predicate Reaches(st: State, ctrl: Control, id: nat) {
    && |ctrl.info| == |ctrl.mask| == LIGHTS && id < LIGHTS && ctrl.mask[id]
    && forall j :: 0 <= j <= id && ctrl.mask[j] ==> HasId(st, j)
  }

  lemma ControlPlaces(st: State, ctrl: Control, a: Addr)
    requires Inv(st) && !st.stuck && a in st.lights && Reaches(st, ctrl, st.lights[a].id)
    ensures var st', info := CtrlPut(st, ctrl, 0).0, ctrl.info[st.lights[a].id];
      && !st'.stuck && a in st'.lights && st'.lights[a].value == info.value && st'.lights[a].id == st.lights[a].id
      && st'.calls == st.calls && (info.intv != 0 ==> st'.lights[a].prevVal == 0)
      && (a in st'.lists.Get(Flash) <==> info.intv != 0) && (a in st'.lists.Get(Steady) <==> info.intv == 0)
  {
    CtrlPutExactly(st, ctrl, 0, a);
    CtrlPutSameIds(st, ctrl, 0);
    D.CtrlPutKeepsCalls(st, ctrl, 0);
    assert FirstMissing(st, ctrl, 0) > st.lights[a].id;
  }

  /* After a control message, over every such run: a light without an interval gets its value in the first pass, once;
     one with an interval gets its value and zero in turn, one of them each time the clock says so. */
  lemma SignalAfterControl(st: State, ctrl: Control, steps: seq<Step>, a: Addr)
    requires Inv(st) && !st.stuck && a in st.lights && Reaches(st, ctrl, st.lights[a].id)
    requires forall step :: step in steps ==> Sensible(step) && Spares(step, st.lights[a].id)
    requires !ApplyAll(CtrlPut(st, ctrl, 0).0, steps).stuck
    ensures var info := ctrl.info[st.lights[a].id];
      CallsTo(ApplyAll(CtrlPut(st, ctrl, 0).0, steps).calls, a) == CallsTo(st.calls, a)
        + (if info.intv != 0 then Alternating(info.value, 0, DueCount(steps, a))
           else if HasPass(steps) then [info.value] else [])
  {
    ControlPlaces(st, ctrl, a);
    RunSignal(CtrlPut(st, ctrl, 0).0, steps, a);
  }
}
