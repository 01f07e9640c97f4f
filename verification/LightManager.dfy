/**
 The light manager's code: lists threaded through the light entries, the pool of free entries
 and the daemon's loops. Every method is proved against the state machine of LightLists;
 `Valid` ties the pointers to the lists they represent.
 */
module LightManager {
  import opened Options
  import opened IntrusiveList
  import opened LightLists
  import P = Pool

  function RingOf(ls: Lists, n: Name): seq<Addr> {
    [Head(n)] + ls.Get(n)
  }

  /* The pointer fields form one ring per list. */
  ghost predicate Rings(l: Links<Addr>, ls: Lists) {
    forall n :: Ring(l, RingOf(ls, n))
  }

  lemma RingsApart(ls: Lists, m: Name, n: Name)
    requires Partition(ls) && m != n
    ensures forall x :: x in RingOf(ls, m) ==> x !in RingOf(ls, n)
  {
    assert forall x :: x in ls.Get(m) || x in ls.Get(n) ==> IsEntry(x);
    assert !IsEntry(Head(m)) && !IsEntry(Head(n));
  }

  lemma RingWithout(ls: Lists, n: Name, k: nat)
    requires k < |ls.Get(n)|
    ensures RingOf(ls, n)[k + 1] == ls.Get(n)[k]
    ensures Without(RingOf(ls, n), k + 1) == [Head(n)] + Without(ls.Get(n), k)
  {
  }

  /* Where a node is, its pointers are set. */
  lemma LinkedNode(l: Links<Addr>, ls: Lists, n: Name, k: nat)
    requires Rings(l, ls) && k < |ls.Get(n)|
    ensures ls.Get(n)[k] in l.next && ls.Get(n)[k] in l.prev
    ensures l.next[ls.Get(n)[k]] == NodeAt(ls, n, k + 1)
  {
    var c := RingOf(ls, n);
    assert Ring(l, c) && c[k + 1] == ls.Get(n)[k] && After(c, k) == c[k + 1];
  }

  /* Walking from the head: the k-th node, or the head again after the last. */
  function NodeAt(ls: Lists, n: Name, k: nat): Addr {
    if k < |ls.Get(n)| then ls.Get(n)[k] else Head(n)
  }

  lemma WalkEnds(ls: Lists, n: Name, k: nat)
    requires AllEntries(ls) && NodeAt(ls, n, k) == Head(n)
    ensures |ls.Get(n)| <= k
  {
    assert forall j :: 0 <= j < |ls.Get(n)| ==> IsEntry(ls.Get(n)[j]) by {
      forall j | 0 <= j < |ls.Get(n)| ensures IsEntry(ls.Get(n)[j]) { assert ls.Get(n)[j] in ls.Get(n); }
    }
  }

  lemma LinkedHead(l: Links<Addr>, ls: Lists, n: Name)
    requires Rings(l, ls)
    ensures Head(n) in l.next && l.next[Head(n)] == NodeAt(ls, n, 0)
  {
    var c := RingOf(ls, n);
    assert Ring(l, c) && c[0] == Head(n);
    assert l.next[c[0]] == After(c, 0);
  }

  lemma MoveTailOther(l: Links<Addr>, ls: Lists, from: Name, k: nat, to: Name, n: Name)
    requires Rings(l, ls) && Partition(ls) && k < |ls.Get(from)| && n != from && n != to
    ensures var a := ls.Get(from)[k];
            && a in l.next && a in l.prev && Head(to) in Unlink(l, a).prev
            && Ring(MoveTail(l, a, Head(to)), RingOf(ls, n))
  {
    var c, d := RingOf(ls, from), RingOf(ls, to);
    RingsApart(ls, n, from);
    RingsApart(ls, n, to);
    if from != to { RingsApart(ls, from, to); }
    assert Ring(l, c) && Ring(l, d) && Ring(l, RingOf(ls, n));
    MoveTailFrame(l, c, k + 1, d, RingOf(ls, n));
  }

  lemma MoveTailTwo(l: Links<Addr>, ls: Lists, from: Name, k: nat, to: Name)
    requires Rings(l, ls) && Partition(ls) && k < |ls.Get(from)| && from != to
    ensures var a := ls.Get(from)[k];
            && a in l.next && a in l.prev && Head(to) in Unlink(l, a).prev
            && Ring(MoveTail(l, a, Head(to)), [Head(from)] + Without(ls.Get(from), k))
            && Ring(MoveTail(l, a, Head(to)), [Head(to)] + (ls.Get(to) + [a]))
  {
    var c, d := RingOf(ls, from), RingOf(ls, to);
    assert Ring(l, c) && Ring(l, d);
    RingWithout(ls, from, k);
    RingsApart(ls, from, to);
    MoveTailAcross(l, c, k + 1, d);
    assert d + [c[k + 1]] == [Head(to)] + (ls.Get(to) + [c[k + 1]]);
  }

  lemma MoveTailOne(l: Links<Addr>, ls: Lists, from: Name, k: nat)
    requires Rings(l, ls) && k < |ls.Get(from)|
    ensures var a := ls.Get(from)[k];
            && a in l.next && a in l.prev && Head(from) in Unlink(l, a).prev
            && Ring(MoveTail(l, a, Head(from)), [Head(from)] + (Without(ls.Get(from), k) + [a]))
  {
    var c := RingOf(ls, from);
    assert Ring(l, c);
    RingWithout(ls, from, k);
    MoveTailWithin(l, c, k + 1);
    assert Without(c, k + 1) + [c[k + 1]] == [Head(from)] + (Without(ls.Get(from), k) + [c[k + 1]]);
  }

  lemma MoveTailRing(l: Links<Addr>, ls: Lists, from: Name, k: nat, to: Name, n: Name)
    requires Rings(l, ls) && Partition(ls) && k < |ls.Get(from)|
    ensures var a := ls.Get(from)[k];
            && a in l.next && a in l.prev && Head(to) in Unlink(l, a).prev
            && Ring(MoveTail(l, a, Head(to)), RingOf(Move(ls, from, k, to), n))
  {
    MoveGet(ls, from, k, to, n);
    if n != from && n != to {
      MoveTailOther(l, ls, from, k, to, n);
    } else if from == to {
      MoveTailOne(l, ls, from, k);
    } else {
      MoveTailTwo(l, ls, from, k, to);
    }
  }

  /* list_move_tail between or within the manager's lists. */
  lemma MoveTailRings(l: Links<Addr>, ls: Lists, from: Name, k: nat, to: Name)
    requires Rings(l, ls) && Partition(ls) && k < |ls.Get(from)|
    ensures var a := ls.Get(from)[k];
            && a in l.next && a in l.prev && Head(to) in Unlink(l, a).prev
            && Rings(MoveTail(l, a, Head(to)), Move(ls, from, k, to))
  {
    MoveTailRing(l, ls, from, k, to, to);
    forall n ensures Ring(MoveTail(l, ls.Get(from)[k], Head(to)), RingOf(Move(ls, from, k, to), n)) {
      MoveTailRing(l, ls, from, k, to, n);
    }
  }

  /* list_del of the first free entry, then list_add_tail to idle. */
  lemma TakeFreeRings(l: Links<Addr>, ls: Lists)
    requires Rings(l, ls) && Partition(ls) && ls.free != []
    ensures var a := ls.free[0];
            && a in l.next && a in l.prev && Head(Idle) in Delete(l, a).prev
            && Rings(AddTail(Delete(l, a), a, Head(Idle)), Move(ls, Free, 0, Idle))
  {
    var a := ls.free[0];
    var c, d := RingOf(ls, Free), RingOf(ls, Idle);
    assert ls.Get(Free) == ls.free;
    RingWithout(ls, Free, 0);
    RingsApart(ls, Free, Idle);
    DeleteRing(l, c, 1);
    DeleteFrame(l, c, 1, d);
    WithoutFacts(c, 1);
    var l' := Delete(l, a);
    assert a in c;
    AddTailRing(l', d, a);
    AddTailFrame(l', d, a, Without(c, 1));
    var ls' := Move(ls, Free, 0, Idle);
    forall n ensures Ring(AddTail(l', a, Head(Idle)), RingOf(ls', n)) {
      MoveGet(ls, Free, 0, Idle, n);
      if n != Free && n != Idle {
        RingsApart(ls, n, Free);
        RingsApart(ls, n, Idle);
        RingsApart(ls, Free, n);
        RingsApart(ls, Idle, n);
        DeleteFrame(l, c, 1, RingOf(ls, n));
        AddTailFrame(l', d, a, RingOf(ls, n));
      } else if n == Idle {
        assert RingOf(ls', n) == d + [a];
      } else {
        assert RingOf(ls', n) == Without(c, 1);
      }
    }
  }

  // ----- The functions of LightLists, unfolded once.

  lemma {:induction false} FindInFirst(s: seq<Addr>, lights: map<Addr, Light>, id: nat, k: nat)
    requires (forall a :: a in s ==> a in lights) && k < |s| && lights[s[k]].id == id
    requires forall j :: 0 <= j < k ==> lights[s[j]].id != id
    ensures FindIn(s, lights, id) == Some(k)
  {
    if k > 0 {
      FindInFirst(s[1..], lights, id, k - 1);
    }
  }

  /* One round of the steady loop does not change where the loop ends up. */
  lemma SettleOne(st: State)
    requires Inv(st) && st.lists.steady != []
    ensures st.lists.steady[0] in st.lights
    ensures var a := st.lists.steady[0];
            var st' := st.(lists := Move(st.lists, Steady, 0, Idle), calls := st.calls + [(a, st.lights[a].value)]);
            && Inv(st') && SettleSteady(st') == SettleSteady(st)
            && st'.lists.steady == st.lists.steady[1..] && st'.lists.flash == st.lists.flash
            && st'.lists.free == st.lists.free
  {
    var a := st.lists.steady[0];
    assert st.lists.Get(Steady) == st.lists.steady;
    MoveKeepsPartition(st.lists, Steady, 0, Idle);
    MoveKeepsRegistered(st.lists, st.lights, Steady, 0, Idle);
    SettleFirst(st.lists);
    SettleRest(st);
  }

  lemma SettleRest(st: State)
    requires Inv(st) && st.lists.steady != [] && st.lists.steady[0] in st.lights
    ensures var a := st.lists.steady[0];
            && (st.lists.idle + [a]) + st.lists.steady[1..] == st.lists.idle + st.lists.steady
            && (st.calls + [(a, st.lights[a].value)]) + SteadyCalls(st.lists.steady[1..], st.lights) ==
               st.calls + SteadyCalls(st.lists.steady, st.lights)
  {
    var a := st.lists.steady[0];
    MoreCalls(st.calls, [(a, st.lights[a].value)], SteadyCalls(st.lists.steady[1..], st.lights));
  }

  lemma SettleFirst(ls: Lists)
    requires ls.steady != []
    ensures ls.Get(Steady) == ls.steady
    ensures Move(ls, Steady, 0, Idle) == Lists(ls.free, ls.idle + [ls.steady[0]], ls.steady[1..], ls.flash)
  {
    assert Without(ls.steady, 0) == ls.steady[1..];
  }

  lemma {:induction false} SettleNothing(st: State)
    requires Inv(st) && st.lists.steady == []
    ensures SettleSteady(st) == st
  {
    assert st.lists.idle + [] == st.lists.idle && st.calls + [] == st.calls;
  }

  function OneToggled(st: State, a: Addr): State
    requires a in st.lights
  {
    var light := st.lights[a];
    var value := if light.prevVal == 0 then light.value else 0;
    st.(lights := st.lights[a := light.(prevVal := value)], calls := st.calls + [(a, value)])
  }

  lemma BlinkUnfolds(st: State, s: seq<Addr>, k: nat, due: Addr -> bool)
    requires k < |s| && forall a :: a in s ==> a in st.lights
    ensures s[k] in st.lights
    ensures Blink(st, s[k..], due) == Blink(if due(s[k]) then OneToggled(st, s[k]) else st, s[k + 1..], due)
  {
    assert s[k] in s && s[k..][0] == s[k] && s[k..][1..] == s[k + 1..];
  }

  class Manager {
    const mem: ListMemory<Addr>
    const pool: P.Pool<Addr>
    var lights: map<Addr, Light>
    var calls: seq<(Addr, nat)>
    var stuck: bool
    ghost var lists: Lists

    ghost function Abs(): State
      reads this, pool
    {
      State(lists, lights, pool.nrFree, pool.nrUsed, pool.nrTotal, calls, stuck)
    }

    ghost predicate Valid()
      reads this, pool, mem
    {
      && pool.mem == mem && pool.head == Head(Free) && pool.free == lists.free
      && Inv(Abs()) && Rings(mem.State(), lists)
    }

    /* __light_mng_init */
    constructor ()
      ensures Valid() && Abs() == INITIAL && fresh(mem) && fresh(pool)
    {
      var m := new ListMemory<Addr>();
      var p, ls := InitLists(m);
      ghost var l := m.State();
      mem, pool := m, p;
      lights, calls, stuck := map[], [], false;
      lists := ls;
      new;
      assert Abs() == INITIAL;
      assert m.State() == l;
      assert pool.free == ls.free;
      assert lists == ls;
      assert pool.free == lists.free;
      InitialInv();
    }

    static method InitLists(mem: ListMemory<Addr>) returns (pool: P.Pool<Addr>, ghost ls: Lists)
      modifies mem
      ensures fresh(pool) && pool.mem == mem && pool.head == Head(Free) && pool.free == ls.free
      ensures pool.nrFree == INITIAL.nrFree && pool.nrUsed == INITIAL.nrUsed && pool.nrTotal == INITIAL.nrTotal
      ensures ls == INITIAL.lists && Rings(mem.State(), ls)
    {
      ls := INITIAL.lists;
      InitHeads(mem);
      ghost var l := mem.State();
      var buf := [Entry(0), Entry(1), Entry(2), Entry(3)];
      assert buf == INITIAL.lists.free by { InitialGet(Free); }
      pool := new P.Pool<Addr>(mem, Head(Free), buf);
      InitialRings(l, mem.State());
    }

    static method InitHeads(mem: ListMemory<Addr>)
      modifies mem
      ensures forall n :: n != Free ==> Ring(mem.State(), [Head(n)])
    {
      mem.InitListHead(Head(Idle));
      mem.InitListHead(Head(Steady));
      mem.InitListHead(Head(Flash));
    }

    static lemma InitialRings(l: Links<Addr>, l': Links<Addr>)
      requires forall n :: n != Free ==> Ring(l, [Head(n)])
      requires Ring(l', [Head(Free)] + INITIAL.lists.free)
      requires forall d :: Ring(l, d) && (forall x :: x in d ==> x !in [Head(Free)] + INITIAL.lists.free) ==> Ring(l', d)
      ensures Rings(l', INITIAL.lists)
    {
      forall n ensures Ring(l', RingOf(INITIAL.lists, n)) {
        InitialGet(n);
        if n != Free { assert RingOf(INITIAL.lists, n) == [Head(n)]; }
      }
    }

    ghost predicate InUse(n: Name)
      reads this
    {
      forall a :: a in lists.Get(n) ==> a in lights
    }

    /* light_find_from_list: a walk along the next pointers, saving each successor first. */
    method LightFindFromList(n: Name, id: nat) returns (r: Option<Addr>)
      requires Valid() && InUse(n)
      ensures match FindIn(lists.Get(n), lights, id)
              case None => r == None
              case Some(k) => r == Some(lists.Get(n)[k])
    {
      LinkedHead(mem.State(), lists, n);
      var pos := mem.next[Head(n)];
      ghost var k := 0;
      ghost var s := lists.Get(n);
      while pos != Head(n)
        invariant 0 <= k <= |s| && pos == NodeAt(lists, n, k)
        invariant forall j :: 0 <= j < k ==> lights[s[j]].id != id
        decreases |s| - k
      {
        LinkedNode(mem.State(), lists, n, k);
        var saved := mem.next[pos];
        assert pos in s;
        if lights[pos].id == id {
          FindInFirst(s, lights, id, k);
          return Some(pos);
        }
        pos := saved;
        k := k + 1;
      }
      WalkEnds(lists, n, k);
      return None;
    }

    /* __light_find */
    method LightFind(id: nat) returns (r: Option<Addr>)
      requires Valid()
      ensures match Find(Abs(), id)
              case None => r == None
              case Some((n, k)) => k < |lists.Get(n)| && r == Some(lists.Get(n)[k])
    {
      r := LightFindFromList(Idle, id);
      if r.None? {
        r := LightFindFromList(Steady, id);
        if r.None? {
          r := LightFindFromList(Flash, id);
        }
      }
    }

    /* __light_regst: -1 with the mutex still held when the id is taken or the pool is empty. */
    method LightRegst(id: nat) returns (ret: int)
      requires Valid() && !stuck
      modifies this, pool, mem
      ensures Valid() && Abs() == Register(old(Abs()), id)
      ensures ret == if stuck then -1 else 0
    {
      ghost var st := Abs();
      var taken := LightFind(id);
      if taken.Some? {
        stuck := true;
        return -1;
      }
      ghost var l := mem.State();
      assert Ring(l, RingOf(lists, Free)) && lists.Get(Free) == pool.free;
      var found, a := pool.GetFromPool();
      if !found {
        stuck := true;
        return -1;
      }
      TakeFreeRings(l, lists);
      RegisterInv(st, id);
      lights := lights[a := Light(id, 0, 0, 0)];
      mem.ListAddTail(a, Head(Idle));
      lists := Move(lists, Free, 0, Idle);
      assert Without(st.lists.free, 0) == pool.free;
      return 0;
    }

    /* light_ctrl_put_id */
    method LightCtrlPutId(id: nat, info: Info) returns (ret: int)
      requires Valid()
      modifies this, mem
      ensures Valid() && Abs() == PutId(old(Abs()), id, info)
      ensures ret == if Find(old(Abs()), id).None? then -1 else 0
    {
      ghost var st := Abs();
      var found := LightFind(id);
      PutIdInv(st, id, info);
      FindCorrect(st, id);
      if found.None? {
        return -1;
      }
      var a := found.value;
      ghost var at := Find(st, id).value;
      var light := lights[a].(value := info.value, intv := info.intv);
      ghost var l := mem.State();
      if info.intv == 0 {
        MoveTailRings(l, lists, at.0, at.1, Steady);
        mem.ListMoveTail(a, Head(Steady));
        lists := Move(lists, at.0, at.1, Steady);
      } else {
        light := light.(prevVal := 0);
        MoveTailRings(l, lists, at.0, at.1, Flash);
        mem.ListMoveTail(a, Head(Flash));
        lists := Move(lists, at.0, at.1, Flash);
      }
      lights := lights[a := light];
      return 0;
    }

    /* __light_ctrl_put */
    method LightCtrlPut(ctrl: Control) returns (ret: int)
      requires Valid() && !stuck && |ctrl.info| == |ctrl.mask| == LIGHTS
      modifies this, mem
      ensures Valid() && Abs() == CtrlPut(old(Abs()), ctrl, 0).0
      ensures ret == if CtrlPut(old(Abs()), ctrl, 0).1 then 0 else -1
    {
      var i := 0;
      while i < LIGHTS
        invariant 0 <= i <= LIGHTS && Valid()
        invariant CtrlPut(Abs(), ctrl, i) == CtrlPut(old(Abs()), ctrl, 0)
      {
        if ctrl.mask[i] {
          var r := LightCtrlPutId(i, ctrl.info[i]);
          if r != 0 {
            return -1;
          }
        }
        i := i + 1;
      }
      return 0;
    }

    /* The body of the steady loop. */
    method SettleLight(pos: Addr)
      requires Valid() && lists.steady != [] && pos == lists.steady[0]
      modifies this`lists, this`calls, mem
      ensures Valid() && SettleSteady(Abs()) == SettleSteady(old(Abs()))
      ensures lists.steady == old(lists.steady)[1..]
    {
      SettleOne(Abs());
      assert lists.Get(Steady) == lists.steady;
      calls := calls + [(pos, lights[pos].value)];
      MoveTailRings(mem.State(), lists, Steady, 0, Idle);
      mem.ListMoveTail(pos, Head(Idle));
      lists := Move(lists, Steady, 0, Idle);
    }

    /* The steady loop of light_ctrl_daemon: nodes leave the list while it is walked. */
    method SettleSteadyLights()
      requires Valid()
      modifies this`lists, this`calls, mem
      ensures Valid() && Abs() == SettleSteady(old(Abs()))
    {
      LinkedHead(mem.State(), lists, Steady);
      var pos := mem.next[Head(Steady)];
      while pos != Head(Steady)
        invariant Valid() && pos == NodeAt(lists, Steady, 0)
        invariant SettleSteady(Abs()) == SettleSteady(old(Abs()))
        decreases |lists.steady|
      {
        LinkedNode(mem.State(), lists, Steady, 0);
        var saved := mem.next[pos];
        SettleLight(pos);
        pos := saved;
      }
      WalkEnds(lists, Steady, 0);
      assert lists.Get(Steady) == lists.steady;
      SettleNothing(Abs());
    }

    /* The flash loop of light_ctrl_daemon; `due` is the outcome of its clock arithmetic. */
    method BlinkFlashing(due: Addr -> bool)
      requires Valid()
      modifies this`lights, this`calls
      ensures Valid() && Abs() == Blink(old(Abs()), lists.flash, due)
    {
      LinkedHead(mem.State(), lists, Flash);
      var pos := mem.next[Head(Flash)];
      ghost var k := 0;
      ghost var s := lists.Get(Flash);
      while pos != Head(Flash)
        invariant 0 <= k <= |s| && pos == NodeAt(lists, Flash, k) && Valid()
        invariant Blink(Abs(), s[k..], due) == Blink(old(Abs()), s, due)
        decreases |s| - k
      {
        LinkedNode(mem.State(), lists, Flash, k);
        var saved := mem.next[pos];
        assert pos in s;
        BlinkUnfolds(Abs(), s, k, due);
        if due(pos) {
          Toggle(pos);
        }
        pos := saved;
        k := k + 1;
      }
      WalkEnds(lists, Flash, k);
    }

    /* The body of the flash loop for a light that is due. */
    method Toggle(pos: Addr)
      requires Valid() && pos in lights
      modifies this`lights, this`calls
      ensures Valid() && Abs() == OneToggled(old(Abs()), pos)
    {
      var light := lights[pos];
      var value := if light.prevVal == 0 then light.value else 0;
      RelabelKeepsRegistered(lists, lights, pos, light.(prevVal := value));
      calls := calls + [(pos, value)];
      lights := lights[pos := light.(prevVal := value)];
    }

    /* light_ctrl_daemon */
    method LightCtrlDaemon(due: Addr -> bool)
      requires Valid() && !stuck
      modifies this, mem
      ensures Valid() && Abs() == Daemon(old(Abs()), due)
    {
      SettleSteadyLights();
      BlinkFlashing(due);
    }
  }
}
