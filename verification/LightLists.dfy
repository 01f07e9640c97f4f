/**
 The light manager as a state machine on values: which light is on which list, what was
 registered and what the drivers were told. The pointer-level code is proved against this.
 */
module LightLists {
  import opened Options
  import opened IntrusiveList

  /* LIGHT_ID_END: green, red, blue, white. */
  const LIGHTS: nat := 4

  datatype Name = Free | Idle | Steady | Flash

  /* The list heads and the light entries of the manager's static storage. */
  datatype Addr = Head(name: Name) | Entry(i: nat)

  datatype Light = Light(id: nat, value: nat, intv: nat, prevVal: nat)

  datatype Info = Info(value: nat, intv: nat)

  /* The information for each light id, and which ids it is for. */
  datatype Control = Control(info: seq<Info>, mask: seq<bool>)

  datatype Lists = Lists(free: seq<Addr>, idle: seq<Addr>, steady: seq<Addr>, flash: seq<Addr>) {
    function Get(n: Name): seq<Addr> {
      match n
      case Free => free
      case Idle => idle
      case Steady => steady
      case Flash => flash
    }

    function With(n: Name, s: seq<Addr>): Lists {
      match n
      case Free => this.(free := s)
      case Idle => this.(idle := s)
      case Steady => this.(steady := s)
      case Flash => this.(flash := s)
    }
  }

  /* `calls` are the calls of the drivers' set functions, in order; `stuck` once the mutex is never released. */
  datatype State = State(lists: Lists, lights: map<Addr, Light>, nrFree: int, nrUsed: int, nrTotal: int,
                         calls: seq<(Addr, nat)>, stuck: bool)

  // ----- Invariant.

  /* Every entry is on exactly one list, once. */
  ghost predicate Partition(ls: Lists) {
    EachOnce(ls) && Apart(ls) && AllEntries(ls) && Complete(ls)
  }

  ghost predicate EachOnce(ls: Lists) {
    forall n :: NoDuplicates(ls.Get(n))
  }

  ghost predicate Apart(ls: Lists) {
    forall m, n, a :: m != n && a in ls.Get(m) ==> a !in ls.Get(n)
  }

  ghost predicate AllEntries(ls: Lists) {
    forall n, a :: a in ls.Get(n) ==> IsEntry(a)
  }

  predicate IsEntry(a: Addr) {
    a.Entry? && a.i < LIGHTS
  }

  ghost predicate Complete(ls: Lists) {
    forall i :: 0 <= i < LIGHTS ==> OnSomeList(ls, Entry(i))
  }

  ghost predicate OnSomeList(ls: Lists, a: Addr) {
    exists n :: a in ls.Get(n)
  }

  /* Registered lights are those in use, and no two have the same id. */
  ghost predicate Registered(ls: Lists, lights: map<Addr, Light>) {
    && (forall a :: a in lights <==> a in ls.idle || a in ls.steady || a in ls.flash)
    && (forall a, b :: a in lights && b in lights && a != b ==> lights[a].id != lights[b].id)
  }

  ghost predicate Inv(st: State) {
    && Partition(st.lists)
    && Registered(st.lists, st.lights)
    && st.nrFree == |st.lists.free| && st.nrFree + st.nrUsed == st.nrTotal
  }

  // ----- Moving a node to the tail of a list.

  function Move(ls: Lists, from: Name, k: nat, to: Name): Lists
    requires k < |ls.Get(from)|
  {
    var a := ls.Get(from)[k];
    var rest := ls.With(from, Without(ls.Get(from), k));
    rest.With(to, rest.Get(to) + [a])
  }

  lemma GetWith(ls: Lists, n: Name, s: seq<Addr>, m: Name)
    ensures ls.With(n, s).Get(m) == if m == n then s else ls.Get(m)
  {
  }

  /* The list `n` after a move. */
  lemma MoveGet(ls: Lists, from: Name, k: nat, to: Name, n: Name)
    requires k < |ls.Get(from)|
    ensures var a := ls.Get(from)[k];
            var rest := if n == from then Without(ls.Get(from), k) else ls.Get(n);
            Move(ls, from, k, to).Get(n) == if n == to then rest + [a] else rest
  {
    var rest := ls.With(from, Without(ls.Get(from), k));
    GetWith(ls, from, Without(ls.Get(from), k), n);
    GetWith(ls, from, Without(ls.Get(from), k), to);
    GetWith(rest, to, rest.Get(to) + [ls.Get(from)[k]], n);
  }

  lemma MoveMembers(ls: Lists, from: Name, k: nat, to: Name, n: Name, x: Addr)
    requires EachOnce(ls) && Apart(ls) && k < |ls.Get(from)|
    ensures var a := ls.Get(from)[k];
            x in Move(ls, from, k, to).Get(n) <==> (if x == a then n == to else x in ls.Get(n))
  {
    MoveGet(ls, from, k, to, n);
    assert NoDuplicates(ls.Get(from));
    WithoutFacts(ls.Get(from), k);
    assert ls.Get(from)[k] in ls.Get(from);
  }

  lemma MoveKeepsEachOnce(ls: Lists, from: Name, k: nat, to: Name, n: Name)
    requires EachOnce(ls) && Apart(ls) && k < |ls.Get(from)|
    ensures NoDuplicates(Move(ls, from, k, to).Get(n))
  {
    MoveGet(ls, from, k, to, n);
    assert NoDuplicates(ls.Get(from)) && NoDuplicates(ls.Get(n));
    WithoutFacts(ls.Get(from), k);
    assert ls.Get(from)[k] in ls.Get(from);
  }

  lemma MoveKeepsApart(ls: Lists, from: Name, k: nat, to: Name)
    requires EachOnce(ls) && Apart(ls) && k < |ls.Get(from)|
    ensures Apart(Move(ls, from, k, to))
  {
    var ls' := Move(ls, from, k, to);
    forall m, n, x | m != n && x in ls'.Get(m) ensures x !in ls'.Get(n) {
      MoveMembers(ls, from, k, to, m, x);
      MoveMembers(ls, from, k, to, n, x);
    }
  }

  lemma MoveKeepsEntries(ls: Lists, from: Name, k: nat, to: Name)
    requires EachOnce(ls) && Apart(ls) && AllEntries(ls) && k < |ls.Get(from)|
    ensures AllEntries(Move(ls, from, k, to))
  {
    assert IsEntry(ls.Get(from)[k]) by { assert ls.Get(from)[k] in ls.Get(from); }
    forall n, x | x in Move(ls, from, k, to).Get(n) ensures IsEntry(x) {
      MoveMembers(ls, from, k, to, n, x);
    }
  }

  lemma MoveKeepsComplete(ls: Lists, from: Name, k: nat, to: Name)
    requires EachOnce(ls) && Apart(ls) && Complete(ls) && k < |ls.Get(from)|
    ensures Complete(Move(ls, from, k, to))
  {
    var ls' := Move(ls, from, k, to);
    forall i | 0 <= i < LIGHTS ensures OnSomeList(ls', Entry(i)) {
      assert OnSomeList(ls, Entry(i));
      var n :| Entry(i) in ls.Get(n);
      MoveMembers(ls, from, k, to, if Entry(i) == ls.Get(from)[k] then to else n, Entry(i));
    }
  }

  lemma MoveKeepsPartition(ls: Lists, from: Name, k: nat, to: Name)
    requires Partition(ls) && k < |ls.Get(from)|
    ensures Partition(Move(ls, from, k, to))
  {
    forall n ensures NoDuplicates(Move(ls, from, k, to).Get(n)) { MoveKeepsEachOnce(ls, from, k, to, n); }
    MoveKeepsApart(ls, from, k, to);
    MoveKeepsEntries(ls, from, k, to);
    MoveKeepsComplete(ls, from, k, to);
  }

  lemma MoveKeepsRegistered(ls: Lists, lights: map<Addr, Light>, from: Name, k: nat, to: Name)
    requires Partition(ls) && Registered(ls, lights) && k < |ls.Get(from)| && from != Free && to != Free
    ensures Registered(Move(ls, from, k, to), lights)
  {
    var ls' := Move(ls, from, k, to);
    var a := ls.Get(from)[k];
    assert a in lights;
    forall x ensures x in lights <==> x in ls'.idle || x in ls'.steady || x in ls'.flash {
      MoveMembers(ls, from, k, to, Idle, x);
      MoveMembers(ls, from, k, to, Steady, x);
      MoveMembers(ls, from, k, to, Flash, x);
      assert ls'.Get(Idle) == ls'.idle && ls'.Get(Steady) == ls'.steady && ls'.Get(Flash) == ls'.flash;
    }
  }

  // ----- Finding a light.

  /* light_find_from_list: the position of the first light with this id. */
  function FindIn(s: seq<Addr>, lights: map<Addr, Light>, id: nat): (r: Option<nat>)
    requires forall a :: a in s ==> a in lights
    ensures r.Some? ==> r.value < |s| && lights[s[r.value]].id == id
    ensures r.None? ==> forall a :: a in s ==> lights[a].id != id
  {
    if s == [] then None
    else if lights[s[0]].id == id then Some(0)
    else match FindIn(s[1..], lights, id)
      case None => None
      case Some(k) => Some(k + 1)
  }

  /* __light_find: the list and the position. */
  function Find(st: State, id: nat): Option<(Name, nat)>
    requires Inv(st)
  {
    match FindIn(st.lists.idle, st.lights, id)
    case Some(k) => Some((Idle, k))
    case None =>
      match FindIn(st.lists.steady, st.lights, id)
      case Some(k) => Some((Steady, k))
      case None =>
        match FindIn(st.lists.flash, st.lights, id)
        case Some(k) => Some((Flash, k))
        case None => None
  }

  /* Finding by id is looking it up among the registered lights. */
  lemma FindCorrect(st: State, id: nat)
    requires Inv(st)
    ensures match Find(st, id)
            case Some((n, k)) => n != Free && k < |st.lists.Get(n)| && st.lists.Get(n)[k] in st.lights
                                 && st.lights[st.lists.Get(n)[k]].id == id
            case None => forall a :: a in st.lights ==> st.lights[a].id != id
  {
  }

  // ----- The steps.

  /* __light_regst; a failure returns without unlocking. */
  function Register(st: State, id: nat): State
    requires Inv(st) && !st.stuck
  {
    if Find(st, id).Some? || st.lists.free == [] then st.(stuck := true)
    else
      var a := st.lists.free[0];
      st.(lists := Move(st.lists, Free, 0, Idle),
          lights := st.lights[a := Light(id, 0, 0, 0)],
          nrFree := st.nrFree - 1, nrUsed := st.nrUsed + 1)
  }

  /* light_ctrl_put_id */
  function PutId(st: State, id: nat, info: Info): State
    requires Inv(st)
  {
    match Find(st, id)
    case None => st
    case Some((n, k)) =>
      FindCorrect(st, id);
      var a := st.lists.Get(n)[k];
      var light := st.lights[a];
      var light' := light.(value := info.value, intv := info.intv, prevVal := if info.intv == 0 then light.prevVal else 0);
      st.(lights := st.lights[a := light'],
          lists := Move(st.lists, n, k, if info.intv == 0 then Steady else Flash))
  }

  lemma PutIdInv(st: State, id: nat, info: Info)
    requires Inv(st)
    ensures Inv(PutId(st, id, info))
  {
    FindCorrect(st, id);
    match Find(st, id)
    case None =>
    case Some((n, k)) =>
      var to := if info.intv == 0 then Steady else Flash;
      var a := st.lists.Get(n)[k];
      MoveKeepsPartition(st.lists, n, k, to);
      RelabelKeepsRegistered(st.lists, st.lights, a, PutId(st, id, info).lights[a]);
      MoveKeepsRegistered(st.lists, PutId(st, id, info).lights, n, k, to);
  }

  lemma RelabelKeepsRegistered(ls: Lists, lights: map<Addr, Light>, a: Addr, light: Light)
    requires Registered(ls, lights) && a in lights && light.id == lights[a].id
    ensures Registered(ls, lights[a := light])
  {
  }

  /* __light_ctrl_put from index i on; the loop stops at the first id nobody registered. */
  function CtrlPut(st: State, ctrl: Control, i: nat): (r: (State, bool))
    requires Inv(st) && |ctrl.info| == |ctrl.mask| == LIGHTS && i <= LIGHTS
    ensures Inv(r.0)
    decreases LIGHTS - i
  {
    if i == LIGHTS then (st, true)
    else if !ctrl.mask[i] then CtrlPut(st, ctrl, i + 1)
    else if Find(st, i).None? then (st, false)
    else
      PutIdInv(st, i, ctrl.info[i]);
      CtrlPut(PutId(st, i, ctrl.info[i]), ctrl, i + 1)
  }

  /* What the daemon tells the drivers of the steady lights. */
  function SteadyCalls(s: seq<Addr>, lights: map<Addr, Light>): seq<(Addr, nat)>
    requires forall a :: a in s ==> a in lights
  {
    if s == [] then [] else [(s[0], lights[s[0]].value)] + SteadyCalls(s[1..], lights)
  }

  /* The first half of light_ctrl_daemon: every steady light is set, and becomes idle. */
  function SettleSteady(st: State): State
    requires Inv(st)
  {
    st.(lists := st.lists.(idle := st.lists.idle + st.lists.steady, steady := []),
        calls := st.calls + SteadyCalls(st.lists.steady, st.lights))
  }

  /* The second half: flashing lights whose time has come are toggled. `due` stands for the clock. */
  function Blink(st: State, s: seq<Addr>, due: Addr -> bool): State
    requires forall a :: a in s ==> a in st.lights
    decreases |s|
  {
    if s == [] then st
    else if !due(s[0]) then Blink(st, s[1..], due)
    else
      var light := st.lights[s[0]];
      var value := if light.prevVal == 0 then light.value else 0;
      Blink(st.(lights := st.lights[s[0] := light.(prevVal := value)], calls := st.calls + [(s[0], value)]), s[1..], due)
  }

  function Daemon(st: State, due: Addr -> bool): State
    requires Inv(st)
  {
    SettleSteadyInv(st);
    Blink(SettleSteady(st), st.lists.flash, due)
  }

  lemma SettledGet(ls: Lists, n: Name)
    ensures ls.(idle := ls.idle + ls.steady, steady := []).Get(n) ==
      match n case Free => ls.free case Idle => ls.idle + ls.steady case Steady => [] case Flash => ls.flash
    ensures ls.Get(n) == match n case Free => ls.free case Idle => ls.idle case Steady => ls.steady case Flash => ls.flash
  {
  }

  lemma SettledMembers(ls: Lists, n: Name, x: Addr)
    ensures x in ls.(idle := ls.idle + ls.steady, steady := []).Get(n) <==>
      (if n == Idle then x in ls.Get(Idle) || x in ls.Get(Steady) else n != Steady && x in ls.Get(n))
  {
    SettledGet(ls, n);
  }

  lemma SettledOnce(ls: Lists, n: Name)
    requires EachOnce(ls) && Apart(ls)
    ensures NoDuplicates(ls.(idle := ls.idle + ls.steady, steady := []).Get(n))
  {
    SettledGet(ls, n);
    assert NoDuplicates(ls.Get(n)) && NoDuplicates(ls.Get(Steady)) && NoDuplicates(ls.Get(Idle));
    forall x | x in ls.Get(Idle) ensures x !in ls.Get(Steady) { }
    NoDuplicatesConcat(ls.Get(Idle), ls.Get(Steady));
  }

  lemma SettleSteadyPartition(ls: Lists)
    requires Partition(ls)
    ensures Partition(ls.(idle := ls.idle + ls.steady, steady := []))
  {
    var ls' := ls.(idle := ls.idle + ls.steady, steady := []);
    assert EachOnce(ls') by {
      forall n ensures NoDuplicates(ls'.Get(n)) { SettledOnce(ls, n); }
    }
    assert Apart(ls') by {
      forall m, n, x | m != n && x in ls'.Get(m) ensures x !in ls'.Get(n) {
        SettledMembers(ls, m, x);
        SettledMembers(ls, n, x);
      }
    }
    assert AllEntries(ls') by {
      forall n, x | x in ls'.Get(n) ensures IsEntry(x) { SettledMembers(ls, n, x); }
    }
    assert Complete(ls') by {
      forall i | 0 <= i < LIGHTS ensures OnSomeList(ls', Entry(i)) {
        assert OnSomeList(ls, Entry(i));
        var n :| Entry(i) in ls.Get(n);
        SettledMembers(ls, if n == Steady then Idle else n, Entry(i));
      }
    }
  }

  lemma SettleSteadyInv(st: State)
    requires Inv(st)
    ensures Inv(SettleSteady(st))
  {
    SettleSteadyPartition(st.lists);
  }

  lemma {:induction false} BlinkInv(st: State, s: seq<Addr>, due: Addr -> bool)
    requires Inv(st) && forall a :: a in s ==> a in st.lights
    ensures Inv(Blink(st, s, due)) && Blink(st, s, due).lists == st.lists
    ensures Blink(st, s, due).lights.Keys == st.lights.Keys
    decreases |s|
  {
    if s != [] {
      if due(s[0]) {
        var light := st.lights[s[0]];
        var value := if light.prevVal == 0 then light.value else 0;
        RelabelKeepsRegistered(st.lists, st.lights, s[0], light.(prevVal := value));
        BlinkInv(st.(lights := st.lights[s[0] := light.(prevVal := value)], calls := st.calls + [(s[0], value)]), s[1..], due);
      } else {
        BlinkInv(st, s[1..], due);
      }
    }
  }

  lemma DaemonInv(st: State, due: Addr -> bool)
    requires Inv(st)
    ensures Inv(Daemon(st, due))
    ensures Daemon(st, due).lists == SettleSteady(st).lists
  {
    SettleSteadyInv(st);
    BlinkInv(SettleSteady(st), st.lists.flash, due);
  }

  lemma RegisterInv(st: State, id: nat)
    requires Inv(st) && !st.stuck
    ensures Inv(Register(st, id))
  {
    if Find(st, id).None? && st.lists.free != [] {
      FindCorrect(st, id);
      var a := st.lists.free[0];
      var ls' := Move(st.lists, Free, 0, Idle);
      assert st.lists.Get(Free) == st.lists.free;
      MoveKeepsPartition(st.lists, Free, 0, Idle);
      assert a !in st.lights by {
        assert a in st.lists.Get(Free);
        assert a !in st.lists.Get(Idle) && a !in st.lists.Get(Steady) && a !in st.lists.Get(Flash);
      }
      forall x ensures x in st.lights || x == a <==> x in ls'.idle || x in ls'.steady || x in ls'.flash {
        MoveMembers(st.lists, Free, 0, Idle, Idle, x);
        MoveMembers(st.lists, Free, 0, Idle, Steady, x);
        MoveMembers(st.lists, Free, 0, Idle, Flash, x);
        assert ls'.Get(Idle) == ls'.idle && ls'.Get(Steady) == ls'.steady && ls'.Get(Flash) == ls'.flash;
      }
    }
  }

  // ----- Whole runs.

  datatype Step = Registering(id: nat) | Putting(ctrl: Control) | Passing(due: Addr -> bool)

  predicate Sensible(step: Step) {
    step.Putting? ==> |step.ctrl.info| == |step.ctrl.mask| == LIGHTS
  }

  /* Every step takes the mutex, so nothing moves once it is never released. */
  function Apply(st: State, step: Step): State
    requires Inv(st) && Sensible(step)
  {
    if st.stuck then st
    else match step
      case Registering(id) => Register(st, id)
      case Putting(ctrl) => CtrlPut(st, ctrl, 0).0
      case Passing(due) => Daemon(st, due)
  }

  lemma ApplyInv(st: State, step: Step)
    requires Inv(st) && Sensible(step)
    ensures Inv(Apply(st, step))
  {
    if !st.stuck {
      match step
      case Registering(id) => RegisterInv(st, id);
      case Putting(ctrl) =>
      case Passing(due) => DaemonInv(st, due);
    }
  }

  const INITIAL: State := State(Lists([Entry(0), Entry(1), Entry(2), Entry(3)], [], [], []), map[], 4, 0, 4, [], false)

  ghost function ApplyAll(st: State, steps: seq<Step>): (r: State)
    requires Inv(st) && forall step :: step in steps ==> Sensible(step)
    ensures Inv(r)
    decreases |steps|
  {
    if steps == [] then st
    else
      assert steps[0] in steps;
      ApplyInv(st, steps[0]);
      ApplyAll(Apply(st, steps[0]), steps[1..])
  }

  lemma InitialInv()
    ensures Inv(INITIAL)
  {
    var ls := INITIAL.lists;
    forall n ensures NoDuplicates(ls.Get(n)) && forall a :: a in ls.Get(n) ==> n == Free && IsEntry(a) {
      InitialGet(n);
    }
    forall i | 0 <= i < LIGHTS ensures OnSomeList(ls, Entry(i)) {
      InitialGet(Free);
      assert Entry(i) == ls.Get(Free)[i];
    }
  }

  lemma InitialGet(n: Name)
    ensures INITIAL.lists.Get(n) == if n == Free then [Entry(0), Entry(1), Entry(2), Entry(3)] else []
  {
  }

  lemma OnExactlyOneList(ls: Lists, i: nat)
    requires Partition(ls) && i < LIGHTS
    ensures OnOneList(ls, i)
  {
    assert OnSomeList(ls, Entry(i));
    var n :| Entry(i) in ls.Get(n);
    assert forall m :: m != n ==> Entry(i) !in ls.Get(m);
  }

  /* Each entry is on exactly one of the four lists, ids are unique, the counters add up. */
  ghost predicate InOrder(st: State) {
    && (forall i :: 0 <= i < LIGHTS ==> OnOneList(st.lists, i))
    && (forall a, b :: a in st.lights && b in st.lights && st.lights[a].id == st.lights[b].id ==> a == b)
    && st.nrFree == |st.lists.free| && st.nrFree + st.nrUsed == st.nrTotal
  }

  ghost predicate OnOneList(ls: Lists, i: nat) {
    exists n :: Entry(i) in ls.Get(n) && forall m :: m != n ==> Entry(i) !in ls.Get(m)
  }

  lemma InvMeansOrder(st: State)
    requires Inv(st)
    ensures InOrder(st)
  {
    forall i | 0 <= i < LIGHTS ensures OnOneList(st.lists, i) {
      OnExactlyOneList(st.lists, i);
    }
  }

  /* After any run of registrations, controls and daemon passes. */
  lemma RunKeepsOrder(st: State, steps: seq<Step>)
    requires Inv(st) && forall step :: step in steps ==> Sensible(step)
    ensures InOrder(ApplyAll(st, steps))
  {
    InvMeansOrder(ApplyAll(st, steps));
  }

  /* A failed registration keeps the mutex: nothing moves in any run that goes on from there. */
  lemma {:induction false} StuckForever(st: State, steps: seq<Step>)
    requires Inv(st) && st.stuck && forall step :: step in steps ==> Sensible(step)
    ensures ApplyAll(st, steps) == st
  {
    if steps != [] {
      assert steps[0] in steps;
      StuckForever(st, steps[1..]);
    }
  }

  lemma {:induction false} SteadyCallsExact(s: seq<Addr>, lights: map<Addr, Light>)
    requires forall a :: a in s ==> a in lights
    ensures |SteadyCalls(s, lights)| == |s|
    ensures forall i :: 0 <= i < |s| ==> SteadyCalls(s, lights)[i] == (s[i], lights[s[i]].value)
  {
    if s != [] {
      SteadyCallsExact(s[1..], lights);
    }
  }

  function Toggled(light: Light): Light {
    light.(prevVal := if light.prevVal == 0 then light.value else 0)
  }

  function BlinkCalls(s: seq<Addr>, lights: map<Addr, Light>, due: Addr -> bool): seq<(Addr, nat)>
    requires forall a :: a in s ==> a in lights
  {
    if s == [] then []
    else (if due(s[0]) then [(s[0], Toggled(lights[s[0]]).prevVal)] else []) + BlinkCalls(s[1..], lights, due)
  }

  /* Blinking toggles exactly the due lights of the list, each once, in order. */
  lemma {:induction false} BlinkExact(st: State, s: seq<Addr>, due: Addr -> bool)
    requires NoDuplicates(s) && forall a :: a in s ==> a in st.lights
    ensures var r := Blink(st, s, due);
      && r.lights.Keys == st.lights.Keys
      && (forall a :: a in st.lights ==> r.lights[a] == if a in s && due(a) then Toggled(st.lights[a]) else st.lights[a])
      && r.calls == st.calls + BlinkCalls(s, st.lights, due)
    decreases |s|
  {
    if s != [] {
      var st' := BlinkFirst(st, s, due);
      assert s[0] !in s[1..];
      BlinkExact(st', s[1..], due);
      SameBlinkCalls(s[1..], st.lights, st'.lights, due);
      MoreCalls(st.calls, if due(s[0]) then [(s[0], Toggled(st.lights[s[0]]).prevVal)] else [], BlinkCalls(s[1..], st.lights, due));
    }
  }

  function BlinkFirst(st: State, s: seq<Addr>, due: Addr -> bool): State
    requires s != [] && s[0] in st.lights
  {
    if due(s[0]) then st.(lights := st.lights[s[0] := Toggled(st.lights[s[0]])],
                          calls := st.calls + [(s[0], Toggled(st.lights[s[0]]).prevVal)]) else st
  }

  lemma MoreCalls(before: seq<(Addr, nat)>, first: seq<(Addr, nat)>, rest: seq<(Addr, nat)>)
    ensures (before + first) + rest == before + (first + rest) && before + [] == before
  {
  }

  lemma {:induction false} SameBlinkCalls(s: seq<Addr>, lights: map<Addr, Light>, lights': map<Addr, Light>, due: Addr -> bool)
    requires forall a :: a in s ==> a in lights && a in lights' && lights[a] == lights'[a]
    ensures BlinkCalls(s, lights, due) == BlinkCalls(s, lights', due)
  {
    if s != [] {
      SameBlinkCalls(s[1..], lights, lights', due);
    }
  }

  /* A daemon pass sets each steady light exactly once, in list order, with its value, and appends them in
     that order to idle; then it toggles exactly the flashing lights that are due. */
  lemma DaemonPass(st: State, due: Addr -> bool)
    requires Inv(st)
    ensures var r := Daemon(st, due);
      && r.lists == st.lists.(idle := st.lists.idle + st.lists.steady, steady := [])
      && r.calls == st.calls + SteadyCalls(st.lists.steady, st.lights) + BlinkCalls(st.lists.flash, st.lights, due)
      && r.lights.Keys == st.lights.Keys
      && (forall a :: a in st.lights ==> r.lights[a] == if a in st.lists.flash && due(a) then Toggled(st.lights[a]) else st.lights[a])
      && NoDuplicates(st.lists.steady)
  {
    DaemonInv(st, due);
    assert st.lists.Get(Flash) == st.lists.flash && st.lists.Get(Steady) == st.lists.steady;
    assert NoDuplicates(st.lists.Get(Flash)) && NoDuplicates(st.lists.Get(Steady));
    BlinkExact(SettleSteady(st), st.lists.flash, due);
  }
}
