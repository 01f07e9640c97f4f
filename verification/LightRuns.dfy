/**
 What control messages do to each light, and when a run of the light manager loses its mutex.
 */
module LightRuns {
  import opened IntrusiveList
  import opened LightLists

  // ----- Control messages, light by light.

  ghost predicate HasId(st: State, id: nat) {
    exists a :: a in st.lights && st.lights[a].id == id
  }

  /* The light after a control with this information. */
  function Commanded(light: Light, info: Info): Light {
    light.(value := info.value, intv := info.intv, prevVal := if info.intv == 0 then light.prevVal else 0)
  }

  function Target(info: Info): Name {
    if info.intv == 0 then Steady else Flash
  }

  /* The first id from i on that is asked for and not registered, or the number of lights. */
  ghost function FirstMissing(st: State, ctrl: Control, i: nat): (k: nat)
    requires |ctrl.info| == |ctrl.mask| == LIGHTS && i <= LIGHTS
    ensures i <= k <= LIGHTS
    ensures k < LIGHTS ==> ctrl.mask[k] && !HasId(st, k)
    ensures forall j :: i <= j < k && ctrl.mask[j] ==> HasId(st, j)
    decreases LIGHTS - i
  {
    if i == LIGHTS then LIGHTS
    else if ctrl.mask[i] && !HasId(st, i) then i
    else FirstMissing(st, ctrl, i + 1)
  }

  /* What a step that controls lights may change: not the ids, the free list, the calls or the counters. */
  ghost predicate SameIds(st: State, st': State) {
    && st'.lights.Keys == st.lights.Keys && (forall a :: a in st.lights ==> st'.lights[a].id == st.lights[a].id)
    && st'.lists.free == st.lists.free && st'.stuck == st.stuck
  }

  lemma SameIdsHas(st: State, st': State, id: nat)
    requires SameIds(st, st')
    ensures HasId(st', id) <==> HasId(st, id)
  {
    if HasId(st, id) {
      var a :| a in st.lights && st.lights[a].id == id;
      assert a in st'.lights && st'.lights[a].id == id;
    }
    if HasId(st', id) {
      var a :| a in st'.lights && st'.lights[a].id == id;
      assert a in st.lights && st.lights[a].id == id;
    }
  }

  lemma FindHas(st: State, id: nat)
    requires Inv(st)
    ensures Find(st, id).Some? <==> HasId(st, id)
  {
    FindCorrect(st, id);
  }

  /* One light: exactly the one with the id changes, and goes to the end of its list. */
  lemma PutIdExactly(st: State, id: nat, info: Info, a: Addr)
    requires Inv(st) && HasId(st, id) && a in st.lights
    ensures Outcome(st, PutId(st, id, info), a, st.lights[a].id == id, info)
  {
    FindHas(st, id);
    FindCorrect(st, id);
    var at := Find(st, id).value;
    assert st.lists.Get(at.0)[at.1] == a <==> st.lights[a].id == id;
    forall n ensures a in PutId(st, id, info).lists.Get(n) <==>
                     if st.lights[a].id == id then n == Target(info) else a in st.lists.Get(n) {
      MoveMembers(st.lists, at.0, at.1, Target(info), n, a);
    }
  }

  lemma PutIdSameIds(st: State, id: nat, info: Info)
    requires Inv(st)
    ensures SameIds(st, PutId(st, id, info)) && PutId(st, id, info).calls == st.calls
  {
    FindCorrect(st, id);
    if Find(st, id).Some? {
      var at := Find(st, id).value;
      MoveGet(st.lists, at.0, at.1, Target(info), Free);
      assert PutId(st, id, info).lists.Get(Free) == PutId(st, id, info).lists.free;
    }
  }

  /* The light `a` between two states: commanded if `hit`, otherwise as it was, on the same list. */
  ghost predicate Outcome(st: State, st': State, a: Addr, hit: bool, info: Info) {
    && a in st.lights && a in st'.lights
    && st'.lights[a] == (if hit then Commanded(st.lights[a], info) else st.lights[a])
    && forall n :: a in st'.lists.Get(n) <==> if hit then n == Target(info) else a in st.lists.Get(n)
  }

  lemma OutcomeThen(st: State, st1: State, st': State, a: Addr, hit: bool, hit': bool, info: Info)
    requires Outcome(st, st1, a, hit, info) && Outcome(st1, st', a, hit', info) && !(hit && hit')
    ensures Outcome(st, st', a, hit || hit', info)
  {
    if hit' {
      assert st'.lights[a] == Commanded(st.lights[a], info);
    }
  }

  predicate Hit(ctrl: Control, id: nat, i: nat, stop: nat)
    requires |ctrl.mask| == LIGHTS && stop <= LIGHTS
  {
    i <= id < stop && ctrl.mask[id]
  }

  function InfoOf(ctrl: Control, id: nat): Info {
    if id < |ctrl.info| then ctrl.info[id] else Info(0, 0)
  }

  /* The light `a` when the ids from i to `stop` that are asked for take effect. */
  ghost predicate Served(st: State, ctrl: Control, i: nat, stop: nat, a: Addr, st': State) {
    && |ctrl.mask| == LIGHTS && stop <= LIGHTS && a in st.lights
    && Outcome(st, st', a, Hit(ctrl, st.lights[a].id, i, stop), InfoOf(ctrl, st.lights[a].id))
  }

  lemma ServedNothing(st: State, ctrl: Control, i: nat, a: Addr)
    requires |ctrl.mask| == LIGHTS && i <= LIGHTS && a in st.lights
    ensures Served(st, ctrl, i, i, a, st)
  {
  }

  lemma ServedSkipping(st: State, ctrl: Control, i: nat, stop: nat, a: Addr, st': State)
    requires Served(st, ctrl, i + 1, stop, a, st') && i < LIGHTS && !ctrl.mask[i]
    ensures Served(st, ctrl, i, stop, a, st')
  {
  }

  lemma ServedOneMore(st: State, ctrl: Control, i: nat, a: Addr, stop: nat, st': State)
    requires Inv(st) && a in st.lights && |ctrl.info| == |ctrl.mask| == LIGHTS && i < stop <= LIGHTS && ctrl.mask[i] && HasId(st, i)
    requires Served(PutId(st, i, ctrl.info[i]), ctrl, i + 1, stop, a, st')
    ensures Served(st, ctrl, i, stop, a, st')
  {
    var id, st1 := st.lights[a].id, PutId(st, i, ctrl.info[i]);
    PutIdExactly(st, i, ctrl.info[i], a);
    assert Outcome(st, st1, a, id == i, InfoOf(ctrl, id));
    OutcomeThen(st, st1, st', a, id == i, Hit(ctrl, id, i + 1, stop), InfoOf(ctrl, id));
  }

  /* A whole message takes effect on exactly the lights asked for before the first id nobody registered. */
  lemma {:induction false} CtrlPutExactly(st: State, ctrl: Control, i: nat, a: Addr)
    requires Inv(st) && a in st.lights && |ctrl.info| == |ctrl.mask| == LIGHTS && i <= LIGHTS
    ensures Served(st, ctrl, i, FirstMissing(st, ctrl, i), a, CtrlPut(st, ctrl, i).0)
    decreases LIGHTS - i
  {
    if i == LIGHTS {
      ServedNothing(st, ctrl, i, a);
    } else if !ctrl.mask[i] {
      CtrlPutExactly(st, ctrl, i + 1, a);
      ServedSkipping(st, ctrl, i, FirstMissing(st, ctrl, i + 1), a, CtrlPut(st, ctrl, i + 1).0);
    } else {
      FindHas(st, i);
      if HasId(st, i) {
        var st1 := PutId(st, i, ctrl.info[i]);
        PutIdInv(st, i, ctrl.info[i]);
        PutIdSameIds(st, i, ctrl.info[i]);
        CtrlPutExactly(st1, ctrl, i + 1, a);
        SameMissing(st, st1, ctrl, i + 1);
        ServedOneMore(st, ctrl, i, a, FirstMissing(st, ctrl, i + 1), CtrlPut(st1, ctrl, i + 1).0);
      } else {
        ServedNothing(st, ctrl, i, a);
      }
    }
  }

  /* It is reported as a success exactly when there is no such id. */
  lemma {:induction false} CtrlPutReports(st: State, ctrl: Control, i: nat)
    requires Inv(st) && |ctrl.info| == |ctrl.mask| == LIGHTS && i <= LIGHTS
    ensures CtrlPut(st, ctrl, i).1 <==> FirstMissing(st, ctrl, i) == LIGHTS
    decreases LIGHTS - i
  {
    if i < LIGHTS {
      FindHas(st, i);
      if !ctrl.mask[i] {
        CtrlPutReports(st, ctrl, i + 1);
      } else if HasId(st, i) {
        PutIdInv(st, i, ctrl.info[i]);
        PutIdSameIds(st, i, ctrl.info[i]);
        CtrlPutReports(PutId(st, i, ctrl.info[i]), ctrl, i + 1);
        SameMissing(st, PutId(st, i, ctrl.info[i]), ctrl, i + 1);
      }
    }
  }

  lemma {:induction false} SameMissing(st: State, st': State, ctrl: Control, i: nat)
    requires SameIds(st, st') && |ctrl.info| == |ctrl.mask| == LIGHTS && i <= LIGHTS
    ensures FirstMissing(st', ctrl, i) == FirstMissing(st, ctrl, i)
    decreases LIGHTS - i
  {
    if i < LIGHTS {
      SameIdsHas(st, st', i);
      SameMissing(st, st', ctrl, i + 1);
    }
  }

  lemma {:induction false} CtrlPutSameIds(st: State, ctrl: Control, i: nat)
    requires Inv(st) && |ctrl.info| == |ctrl.mask| == LIGHTS && i <= LIGHTS
    ensures SameIds(st, CtrlPut(st, ctrl, i).0)
    decreases LIGHTS - i
  {
    if i < LIGHTS {
      if !ctrl.mask[i] {
        CtrlPutSameIds(st, ctrl, i + 1);
      } else if Find(st, i).Some? {
        PutIdInv(st, i, ctrl.info[i]);
        PutIdSameIds(st, i, ctrl.info[i]);
        CtrlPutSameIds(PutId(st, i, ctrl.info[i]), ctrl, i + 1);
        SameIdsThen(st, PutId(st, i, ctrl.info[i]), CtrlPut(st, ctrl, i).0);
      }
    }
  }

  lemma SameIdsThen(st: State, st1: State, st2: State)
    requires SameIds(st, st1) && SameIds(st1, st2)
    ensures SameIds(st, st2)
  {
  }

  lemma {:induction false} BlinkKeepsFlag(st: State, s: seq<Addr>, due: Addr -> bool)
    requires forall a :: a in s ==> a in st.lights
    ensures Blink(st, s, due).stuck == st.stuck
    decreases |s|
  {
    if s != [] {
      if due(s[0]) {
        var light := st.lights[s[0]];
        var value := if light.prevVal == 0 then light.value else 0;
        BlinkKeepsFlag(st.(lights := st.lights[s[0] := light.(prevVal := value)], calls := st.calls + [(s[0], value)]), s[1..], due);
      } else {
        BlinkKeepsFlag(st, s[1..], due);
      }
    }
  }

  lemma DaemonSameIds(st: State, due: Addr -> bool)
    requires Inv(st)
    ensures SameIds(st, Daemon(st, due))
  {
    DaemonPass(st, due);
    assert st.lists.Get(Flash) == st.lists.flash;
    BlinkKeepsFlag(SettleSteady(st), st.lists.flash, due);
  }

  // ----- When the mutex is lost.

  /* A registration keeps the mutex exactly when the id is taken or no light is free. */
  lemma RegisterSticksExactly(st: State, id: nat)
    requires Inv(st) && !st.stuck
    ensures Register(st, id).stuck <==> HasId(st, id) || st.lists.free == []
  {
    FindHas(st, id);
  }

  /* The ids that a run registers, in order. */
  function Ids(steps: seq<Step>): seq<nat> {
    if steps == [] then []
    else (if steps[0].Registering? then [steps[0].id] else []) + Ids(steps[1..])
  }

  /* The registered ids are those in `done`, each once, and the other lights are free. */
  ghost predicate Registrations(st: State, done: seq<nat>) {
    && (forall id :: HasId(st, id) <==> id in done)
    && NoDuplicates(done) && |st.lists.free| + |done| == LIGHTS
  }

  lemma RegisterAdds(st: State, done: seq<nat>, id: nat)
    requires Inv(st) && !st.stuck && Registrations(st, done) && id !in done && st.lists.free != []
    ensures !Register(st, id).stuck && Registrations(Register(st, id), done + [id])
  {
    RegisterSticksExactly(st, id);
    FindHas(st, id);
    var st' := Register(st, id);
    var a := st.lists.free[0];
    assert st.lists.Get(Free) == st.lists.free;
    MoveGet(st.lists, Free, 0, Idle, Free);
    assert st'.lists.Get(Free) == st'.lists.free;
    assert a !in st.lights by {
      assert a in st.lists.Get(Free);
      assert a !in st.lists.Get(Idle) && a !in st.lists.Get(Steady) && a !in st.lists.Get(Flash);
    }
    forall k ensures HasId(st', k) <==> k in done + [id] { RegisterAddsId(st, id, a, st', k); }
    NoDuplicatesConcat(done, [id]);
  }

  lemma RegisterAddsId(st: State, id: nat, a: Addr, st': State, k: nat)
    requires a !in st.lights && st'.lights == st.lights[a := Light(id, 0, 0, 0)]
    ensures HasId(st', k) <==> HasId(st, k) || k == id
  {
    if HasId(st, k) {
      var b :| b in st.lights && st.lights[b].id == k;
      assert b in st'.lights && st'.lights[b].id == k;
    }
    assert a in st'.lights && st'.lights[a].id == id;
  }

  lemma SameRegistrations(st: State, st': State, done: seq<nat>)
    requires SameIds(st, st') && Registrations(st, done)
    ensures Registrations(st', done)
  {
    forall id ensures HasId(st', id) <==> id in done { SameIdsHas(st, st', id); }
  }

  /* Every id once, and no more of them than there are lights. */
  ghost predicate Admissible(ids: seq<nat>) {
    NoDuplicates(ids) && |ids| <= LIGHTS
  }

  lemma NotAdmissible(done: seq<nat>, id: nat, rest: seq<nat>)
    requires id in done || |done| >= LIGHTS
    ensures !Admissible(done + ([id] + rest))
  {
    var all := done + ([id] + rest);
    if id in done {
      var i :| 0 <= i < |done| && done[i] == id;
      assert all[i] == all[|done|];
    }
  }

  lemma {:induction false} RunSticks(st: State, done: seq<nat>, steps: seq<Step>)
    requires Inv(st) && !st.stuck && Registrations(st, done) && forall step :: step in steps ==> Sensible(step)
    ensures ApplyAll(st, steps).stuck <==> !Admissible(done + Ids(steps))
    decreases |steps|, 1
  {
    if steps == [] {
      assert done + [] == done;
    } else if steps[0].Registering? {
      RunSticksRegistering(st, done, steps);
    } else {
      assert steps[0] in steps;
      ApplyInv(st, steps[0]);
      OtherStepsKeepIds(st, steps[0]);
      SameRegistrations(st, Apply(st, steps[0]), done);
      RunSticks(Apply(st, steps[0]), done, steps[1..]);
      assert Ids(steps) == Ids(steps[1..]);
    }
  }

  lemma {:induction false} RunSticksRegistering(st: State, done: seq<nat>, steps: seq<Step>)
    requires Inv(st) && !st.stuck && Registrations(st, done) && forall step :: step in steps ==> Sensible(step)
    requires steps != [] && steps[0].Registering?
    ensures ApplyAll(st, steps).stuck <==> !Admissible(done + Ids(steps))
    decreases |steps|, 0
  {
    var id, rest := steps[0].id, Ids(steps[1..]);
    RegisterInv(st, id);
    RegisterSticksExactly(st, id);
    assert done + Ids(steps) == done + ([id] + rest);
    if id in done || st.lists.free == [] {
      NotAdmissible(done, id, rest);
      StuckForever(Register(st, id), steps[1..]);
    } else {
      RegisterAdds(st, done, id);
      RunSticks(Register(st, id), done + [id], steps[1..]);
      assert (done + [id]) + rest == done + ([id] + rest);
    }
  }

  lemma OtherStepsKeepIds(st: State, step: Step)
    requires Inv(st) && !st.stuck && Sensible(step) && !step.Registering?
    ensures SameIds(st, Apply(st, step))
  {
    match step
    case Putting(ctrl) => CtrlPutSameIds(st, ctrl, 0);
    case Passing(due) => DaemonSameIds(st, due);
  }

  /* Nothing registered yet. */
  ghost predicate Blank(st: State) {
    Inv(st) && !st.stuck && st.lights == map[] && |st.lists.free| == LIGHTS
  }

  lemma InitialBlank()
    ensures Blank(INITIAL)
  {
    InitialInv();
  }

  /* From the start, a run loses the mutex if and only if it registers an id twice or more ids than there are lights. */
  lemma RunSticksExactly(st: State, steps: seq<Step>)
    requires Blank(st) && forall step :: step in steps ==> Sensible(step)
    ensures ApplyAll(st, steps).stuck <==> !Admissible(Ids(steps))
  {
    assert Registrations(st, []);
    RunSticks(st, [], steps);
    assert [] + Ids(steps) == Ids(steps);
  }

  /* One id twice is enough. */
  lemma TwiceSticks(st: State, id: nat)
    requires Blank(st)
    ensures ApplyAll(st, [Registering(id), Registering(id)]).stuck
  {
    var steps := [Registering(id), Registering(id)];
    RunSticksExactly(st, steps);
    assert steps[1..] == [Registering(id)] && steps[1..][1..] == [];
    assert Ids(steps[1..]) == [id] + Ids([]) && Ids(steps) == [id] + Ids(steps[1..]);
    assert Ids(steps)[0] == Ids(steps)[1];
  }
}
