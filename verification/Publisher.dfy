/**
 The publishers of storage/park_records_process.cpp and the consumers' handlers as code. Run
 undisturbed, each is a run of the state machine of FanOut, so what holds of every interleaving
 holds of them.
 */
module Publisher {
  import opened RefHandle
  import F = FanOut

  /* A run and one more step. */
  lemma Extend(n: nat, acts: seq<F.Action>, s: F.State, act: F.Action)
    requires F.Run(F.Start(n), acts, s) && F.Enabled(s, act)
    ensures F.Safe(s, act) && F.Run(F.Start(n), acts + [act], F.Next(s, act))
  {
    F.StartInv(n);
    F.RunKeepsInv(F.Start(n), acts, s);
    F.StepIsSafe(s, act);
    RunSnoc(F.Start(n), acts, s, act);
  }

  lemma {:induction false} RunSnoc(s0: F.State, acts: seq<F.Action>, s: F.State, act: F.Action)
    requires F.Run(s0, acts, s) && F.Enabled(s, act) && F.Safe(s, act)
    ensures F.Run(s0, acts + [act], F.Next(s, act))
    decreases |acts|
  {
    if acts == [] {
      assert [act][1..] == [];
    } else {
      assert (acts + [act])[0] == acts[0] && (acts + [act])[1..] == acts[1..] + [act];
      RunSnoc(F.Next(s0, acts[0]), acts[1..], s, act);
    }
  }

  class Process {
    const handles: Handles
    var queue: seq<F.Message>
    ghost var threads: seq<F.Thread>
    ghost var lost: seq<Addr>
    ghost const n: nat
    ghost var acts: seq<F.Action>

    ghost function State(): F.State
      reads this, handles
    {
      F.State(handles.memory, threads, queue, lost)
    }

    /* What was done so far is a run of the state machine. */
    ghost predicate Valid()
      reads this, handles
    {
      F.Run(F.Start(n), acts, State())
    }

    constructor (n: nat)
      ensures Valid() && State() == F.Start(n) && fresh(handles)
    {
      handles := new Handles();
      queue, threads, lost := [], seq(n, _ => F.Idle), [];
      this.n, acts := n, [];
    }

    method Create(ghost t: nat, malloc: Addr, ghost platforms: seq<F.Platform>) returns (p: Pointer)
      requires Valid() && t < |threads| && threads[t].Idle? && malloc !in handles.memory.cells
      modifies this`threads, this`acts, handles
      ensures Valid() && p == To(malloc) && threads == old(threads)[t := F.Publishing(malloc, F.Scripts(platforms), 0)]
    {
      ghost var s', acts' := Creates(n, acts, State(), t, malloc, platforms);
      p := handles.RefHandleCreate(To(malloc));
      threads, acts := s'.threads, acts';
    }

    method Retain(ghost t: nat, p: Pointer)
      requires Valid() && F.Enabled(State(), F.Retain(t)) && p == To(threads[t].a)
      modifies this`threads, this`acts, handles
      ensures Valid() && threads == old(threads)[t := F.Publishing(p.a, old(threads)[t].todo[1..], old(threads)[t].extra + 1)]
    {
      ghost var s', acts' := Retains(n, acts, State(), t);
      var count := handles.RefHandleRetain(p);
      threads, acts := s'.threads, acts';
    }

    /* msgsnd with IPC_NOWAIT: `sent` says whether there was room. A full queue loses the reference in the message. */
    method Send(ghost t: nat, consumer: nat, data: Pointer, sent: bool)
      requires Valid() && F.Enabled(State(), F.Send(t, sent)) && F.Letter(threads[t]) == F.Message(consumer, data)
      modifies this
      ensures Valid() && threads == old(threads)[t := F.Posted(old(threads)[t])]
      ensures queue == old(queue) + (if sent then [F.Message(consumer, data)] else [])
      ensures lost == old(lost) + (if sent || data == Null then [] else [data.a])
    {
      ghost var s', acts' := Sends(n, acts, State(), t, sent);
      if sent {
        queue := queue + [F.Message(consumer, data)];
      }
      threads, lost, acts := s'.threads, s'.lost, acts';
      assert old(queue) + [] == old(queue);
      assert State() == s';
    }

    /* msgrcv by a consumer. */
    method Receive(ghost t: nat, i: nat) returns (p: Pointer)
      requires Valid() && t < |threads| && threads[t].Idle? && i < |queue|
      modifies this
      ensures Valid() && p == old(queue)[i].data && threads == old(threads)[t := F.Received(old(queue)[i])]
      ensures queue == old(queue)[..i] + old(queue)[i + 1..] && lost == old(lost)
    {
      ghost var s', acts' := Receives(n, acts, State(), t, i);
      p := queue[i].data;
      queue := queue[..i] + queue[i + 1..];
      threads, acts := s'.threads, acts';
    }

    /* _RefHandleRelease when nobody else runs: the decrement and, at zero, the free. */
    method Release(ghost t: nat, p: Pointer)
      requires Valid() && F.Enabled(State(), F.Release(t)) && p == To(threads[t].a)
      modifies this`threads, this`acts, handles
      ensures Valid() && threads == old(threads)[t := F.After(old(threads)[t])]
    {
      ghost var s', acts' := Releases(n, acts, State(), t);
      var p' := handles.RefHandleRelease(p);
      threads, acts := s'.threads, acts';
    }

    /* The notify of one platform. */
    method Notify(ghost t: nat, p: Pointer, platform: F.Platform, sent: bool, ghost rest: seq<F.Micro>)
      requires Valid() && t < |threads| && p.To? && threads[t] == F.Publishing(p.a, F.Script(platform) + rest, 0)
      modifies this, handles
      ensures Valid() && threads == old(threads)[t := F.Publishing(p.a, rest, 0)]
      ensures queue == old(queue) + Letters(p.a, platform, sent) && lost == old(lost) + Losses(p.a, platform, sent)
    {
      match platform
      case Ignores =>
        assert F.Script(platform) + rest == rest;
        assert queue + [] == queue && lost + [] == lost;
      case Queues(consumer) => NotifyByQueue(t, p, consumer, sent, rest);
      case CopiesThenTells(consumer) => NotifyByCopy(t, p, consumer, sent, rest);
      case TellsThenDrops(consumer) => NotifyAndCopy(t, p, consumer, sent, rest);
    }

    method NotifyByQueue(ghost t: nat, p: Pointer, consumer: nat, sent: bool, ghost rest: seq<F.Micro>)
      requires Valid() && t < |threads| && p.To? && threads[t] == F.Publishing(p.a, F.Script(F.Queues(consumer)) + rest, 0)
      modifies this, handles
      ensures Valid() && threads == old(threads)[t := F.Publishing(p.a, rest, 0)]
      ensures queue == old(queue) + Letters(p.a, F.Queues(consumer), sent) && lost == old(lost) + Losses(p.a, F.Queues(consumer), sent)
    {
      ghost var todo := threads[t].todo;
      assert todo[1..][0] == F.Post(consumer, true) && todo[1..][1..] == rest;
      Retain(t, p);
      Send(t, consumer, p, sent);
    }

    method NotifyByCopy(ghost t: nat, p: Pointer, consumer: nat, sent: bool, ghost rest: seq<F.Micro>)
      requires Valid() && t < |threads| && p.To? && threads[t] == F.Publishing(p.a, F.Script(F.CopiesThenTells(consumer)) + rest, 0)
      modifies this, handles
      ensures Valid() && threads == old(threads)[t := F.Publishing(p.a, rest, 0)]
      ensures queue == old(queue) + Letters(p.a, F.CopiesThenTells(consumer), sent) && lost == old(lost) + []
    {
      ghost var todo := threads[t].todo;
      assert todo[1..][0] == F.Drop && todo[1..][1..][0] == F.Post(consumer, false) && todo[1..][1..][1..] == rest;
      Retain(t, p);
      Release(t, p);
      Send(t, consumer, Null, sent);
    }

    method NotifyAndCopy(ghost t: nat, p: Pointer, consumer: nat, sent: bool, ghost rest: seq<F.Micro>)
      requires Valid() && t < |threads| && p.To? && threads[t] == F.Publishing(p.a, F.Script(F.TellsThenDrops(consumer)) + rest, 0)
      modifies this, handles
      ensures Valid() && threads == old(threads)[t := F.Publishing(p.a, rest, 0)]
      ensures queue == old(queue) + Letters(p.a, F.TellsThenDrops(consumer), sent) && lost == old(lost) + []
    {
      ghost var todo := threads[t].todo;
      assert todo[1..][0] == F.Post(consumer, false) && todo[1..][1..][0] == F.Drop && todo[1..][1..][1..] == rest;
      Retain(t, p);
      Send(t, consumer, Null, sent);
      Release(t, p);
    }

    /* process_park_status_info and its siblings: create, notify every platform, release. */
    method Publish(ghost t: nat, malloc: Pointer, platforms: seq<F.Platform>, room: seq<bool>) returns (ret: int)
      requires Valid() && t < |threads| && threads[t].Idle? && |room| == |platforms|
      requires malloc.To? ==> malloc.a !in handles.memory.cells
      modifies this, handles
      ensures Valid() && threads == old(threads)
      ensures malloc == Null ==> ret == -1 && State() == old(State())
      ensures malloc.To? ==> ret == 0 && queue == old(queue) + Sent(malloc.a, platforms, room, |platforms|)
      ensures malloc.To? ==> lost == old(lost) + Failed(malloc.a, platforms, room, |platforms|)
      ensures malloc.To? ==> Count(handles.memory, malloc.a) == Queueing(platforms, |platforms|)
      ensures malloc.To? ==> (malloc.a in handles.memory.cells <==> Queueing(platforms, |platforms|) > 0)
    {
      if malloc == Null {
        return -1;
      }
      var p := Create(t, malloc.a, platforms);
      NotifyAll(t, p, platforms, room);
      Release(t, p);
      PublishedCount(n, old(acts), old(State()), acts, State(), malloc.a, platforms, room);
      return 0;
    }

    method NotifyAll(ghost t: nat, p: Pointer, platforms: seq<F.Platform>, room: seq<bool>)
      requires Valid() && t < |threads| && |room| == |platforms| && p.To? && threads[t] == F.Publishing(p.a, F.Scripts(platforms), 0)
      modifies this, handles
      ensures Valid() && threads == old(threads)[t := F.Publishing(p.a, [], 0)]
      ensures queue == old(queue) + Sent(p.a, platforms, room, |platforms|)
      ensures lost == old(lost) + Failed(p.a, platforms, room, |platforms|)
    {
      var i := 0;
      assert platforms[0..] == platforms;
      while i < |platforms|
        invariant 0 <= i <= |platforms| && Valid()
        invariant threads == old(threads)[t := F.Publishing(p.a, F.Scripts(platforms[i..]), 0)]
        invariant queue == old(queue) + Sent(p.a, platforms, room, i)
        invariant lost == old(lost) + Failed(p.a, platforms, room, i)
      {
        ScriptsFrom(platforms, i);
        ThenMore(old(queue), Sent(p.a, platforms, room, i), Letters(p.a, platforms[i], room[i]));
        ThenMore(old(lost), Failed(p.a, platforms, room, i), Losses(p.a, platforms[i], room[i]));
        Notify(t, p, platforms[i], room[i], F.Scripts(platforms[i + 1..]));
        i := i + 1;
      }
      assert platforms[i..] == [] && F.Scripts([]) == [];
    }

    /* A consumer's handler: take a message, use the record if there is one, release it. */
    method Consume(ghost t: nat, i: nat)
      requires Valid() && t < |threads| && threads[t].Idle? && i < |queue|
      modifies this, handles
      ensures Valid() && threads == old(threads) && lost == old(lost)
      ensures queue == old(queue)[..i] + old(queue)[i + 1..]
    {
      var p := Receive(t, i);
      if p != Null {
        Release(t, p);
      }
    }
  }

  // ----- What a publisher leaves behind.

  /* The message that one platform's notify sends, if there is room. */
  function Letters(a: Addr, platform: F.Platform, room: bool): seq<F.Message> {
    if !room || platform.Ignores? then []
    else if platform.Queues? then [F.Message(platform.consumer, To(a))]
    else [F.Message(platform.consumer, Null)]
  }

  /* The reference it loses, if there is none. */
  function Losses(a: Addr, platform: F.Platform, room: bool): seq<Addr> {
    if !room && platform.Queues? then [a] else []
  }

  function Sent(a: Addr, platforms: seq<F.Platform>, room: seq<bool>, k: nat): seq<F.Message>
    requires k <= |platforms| == |room|
  {
    if k == 0 then [] else Sent(a, platforms, room, k - 1) + Letters(a, platforms[k - 1], room[k - 1])
  }

  function Failed(a: Addr, platforms: seq<F.Platform>, room: seq<bool>, k: nat): seq<Addr>
    requires k <= |platforms| == |room|
  {
    if k == 0 then [] else Failed(a, platforms, room, k - 1) + Losses(a, platforms[k - 1], room[k - 1])
  }

  lemma ScriptsFrom(platforms: seq<F.Platform>, i: nat)
    requires i < |platforms|
    ensures F.Scripts(platforms[i..]) == F.Script(platforms[i]) + F.Scripts(platforms[i + 1..])
  {
    assert platforms[i..][1..] == platforms[i + 1..];
  }

  lemma ThenMore<X>(a: seq<X>, b: seq<X>, c: seq<X>)
    ensures (a + b) + c == a + (b + c)
  {
  }

  /* How many of the first k platforms queue the record. */
  function Queueing(platforms: seq<F.Platform>, k: nat): nat
    requires k <= |platforms|
  {
    if k == 0 then 0 else Queueing(platforms, k - 1) + if platforms[k - 1].Queues? then 1 else 0
  }

  lemma OneLeft(a: Addr, platform: F.Platform, room: bool)
    ensures F.Sum(Letters(a, platform, room), F.About(a)) + F.Sum(Losses(a, platform, room), F.Is(a)) ==
            if platform.Queues? then 1 else 0
  {
    if platform.Queues? {
      F.SumOne(F.Message(platform.consumer, To(a)), F.About(a));
      F.SumOne(a, F.Is(a));
    } else if !platform.Ignores? {
      F.SumOne(F.Message(platform.consumer, Null), F.About(a));
    }
  }

  lemma {:induction false} SumsOfSent(a: Addr, platforms: seq<F.Platform>, room: seq<bool>, k: nat)
    requires k <= |platforms| == |room|
    ensures F.Sum(Sent(a, platforms, room, k), F.About(a)) + F.Sum(Failed(a, platforms, room, k), F.Is(a)) == Queueing(platforms, k)
  {
    if k > 0 {
      SumsOfSent(a, platforms, room, k - 1);
      MoreSums(a, platforms[k - 1], room[k - 1], Sent(a, platforms, room, k - 1), Failed(a, platforms, room, k - 1),
               Sent(a, platforms, room, k), Failed(a, platforms, room, k));
    }
  }

  lemma MoreSums(a: Addr, platform: F.Platform, room: bool, sent: seq<F.Message>, failed: seq<Addr>,
                 sent': seq<F.Message>, failed': seq<Addr>)
    requires sent' == sent + Letters(a, platform, room) && failed' == failed + Losses(a, platform, room)
    ensures F.Sum(sent', F.About(a)) + F.Sum(failed', F.Is(a)) ==
            F.Sum(sent, F.About(a)) + F.Sum(failed, F.Is(a)) + (if platform.Queues? then 1 else 0)
  {
    OneLeft(a, platform, room);
    F.SumConcat(sent, Letters(a, platform, room), F.About(a));
    F.SumConcat(failed, Losses(a, platform, room), F.Is(a));
  }

  /* A record published undisturbed is left with one reference for each platform that queues it, sent or lost,
     and is freed at once when there is none. */
  lemma PublishedCount(n: nat, acts: seq<F.Action>, s: F.State, acts': seq<F.Action>, s': F.State,
                       a: Addr, platforms: seq<F.Platform>, room: seq<bool>)
    requires |platforms| == |room| && F.Run(F.Start(n), acts, s) && F.Run(F.Start(n), acts', s')
    requires a !in s.memory.cells && s'.threads == s.threads
    requires s'.queue == s.queue + Sent(a, platforms, room, |platforms|)
    requires s'.lost == s.lost + Failed(a, platforms, room, |platforms|)
    ensures Count(s'.memory, a) == Queueing(platforms, |platforms|)
    ensures a in s'.memory.cells <==> Queueing(platforms, |platforms|) > 0
  {
    CountIsReferences(n, acts, s, a);
    CountIsReferences(n, acts', s', a);
    PublishedSums(s, s', a, platforms, room);
  }

  ghost predicate Counted(s: F.State, a: Addr) {
    Count(s.memory, a) == F.References(s, a) && F.Sum(s.threads, F.AboutToFree(a)) == F.ZeroAt(s.memory, a)
  }

  lemma PublishedSums(s: F.State, s': F.State, a: Addr, platforms: seq<F.Platform>, room: seq<bool>)
    requires |platforms| == |room| && Counted(s, a) && Counted(s', a) && a !in s.memory.cells && s'.threads == s.threads
    requires s'.queue == s.queue + Sent(a, platforms, room, |platforms|)
    requires s'.lost == s.lost + Failed(a, platforms, room, |platforms|)
    ensures Count(s'.memory, a) == Queueing(platforms, |platforms|)
    ensures a in s'.memory.cells <==> Queueing(platforms, |platforms|) > 0
  {
    SumsOfSent(a, platforms, room, |platforms|);
    ReferencesAdd(s, s', a, Sent(a, platforms, room, |platforms|), Failed(a, platforms, room, |platforms|));
  }

  lemma ReferencesAdd(s: F.State, s': F.State, a: Addr, sent: seq<F.Message>, failed: seq<Addr>)
    requires s'.threads == s.threads && s'.queue == s.queue + sent && s'.lost == s.lost + failed
    ensures F.References(s', a) == F.References(s, a) + F.Sum(sent, F.About(a)) + F.Sum(failed, F.Is(a))
  {
    F.SumConcat(s.queue, sent, F.About(a));
    F.SumConcat(s.lost, failed, F.Is(a));
  }

  lemma CountIsReferences(n: nat, acts: seq<F.Action>, s: F.State, a: Addr)
    requires F.Run(F.Start(n), acts, s)
    ensures Counted(s, a)
  {
    F.StartInv(n);
    F.RunKeepsInv(F.Start(n), acts, s);
  }

  // ----- The steps on values.

  lemma Creates(n: nat, acts: seq<F.Action>, s: F.State, t: nat, a: Addr, platforms: seq<F.Platform>)
    returns (s': F.State, acts': seq<F.Action>)
    requires F.Run(F.Start(n), acts, s) && F.Enabled(s, F.Create(t, a, platforms))
    ensures F.Run(F.Start(n), acts', s')
    ensures s' == F.State(RefHandle.Create(s.memory, a), s.threads[t := F.Publishing(a, F.Scripts(platforms), 0)], s.queue, s.lost)
  {
    var act := F.Create(t, a, platforms);
    Extend(n, acts, s, act);
    s', acts' := F.Next(s, act), acts + [act];
  }

  lemma Retains(n: nat, acts: seq<F.Action>, s: F.State, t: nat) returns (s': F.State, acts': seq<F.Action>)
    requires F.Run(F.Start(n), acts, s) && F.Enabled(s, F.Retain(t))
    ensures F.Run(F.Start(n), acts', s') && s.threads[t].a in s.memory.cells
    ensures var th := s.threads[t];
      s' == s.(memory := Inc(s.memory, th.a), threads := s.threads[t := F.Publishing(th.a, th.todo[1..], th.extra + 1)])
  {
    Extend(n, acts, s, F.Retain(t));
    assert s.threads[t].a in F.Touched(s, F.Retain(t));
    s', acts' := F.Next(s, F.Retain(t)), acts + [F.Retain(t)];
  }

  lemma Sends(n: nat, acts: seq<F.Action>, s: F.State, t: nat, sent: bool) returns (s': F.State, acts': seq<F.Action>)
    requires F.Run(F.Start(n), acts, s) && F.Enabled(s, F.Send(t, sent))
    ensures F.Run(F.Start(n), acts', s')
    ensures var th := s.threads[t];
      s' == F.State(s.memory, s.threads[t := F.Posted(th)], s.queue + (if sent then [F.Letter(th)] else []),
                    s.lost + (if sent || F.Letter(th).data == Null then [] else [th.a]))
  {
    Extend(n, acts, s, F.Send(t, sent));
    s', acts' := F.Next(s, F.Send(t, sent)), acts + [F.Send(t, sent)];
    assert s.queue + [] == s.queue && s.lost + [] == s.lost;
  }

  lemma Receives(n: nat, acts: seq<F.Action>, s: F.State, t: nat, i: nat) returns (s': F.State, acts': seq<F.Action>)
    requires F.Run(F.Start(n), acts, s) && F.Enabled(s, F.Receive(t, i))
    ensures F.Run(F.Start(n), acts', s')
    ensures s' == s.(threads := s.threads[t := F.Received(s.queue[i])], queue := s.queue[..i] + s.queue[i + 1..])
  {
    Extend(n, acts, s, F.Receive(t, i));
    s', acts' := F.Next(s, F.Receive(t, i)), acts + [F.Receive(t, i)];
  }

  lemma Releases(n: nat, acts: seq<F.Action>, s: F.State, t: nat) returns (s': F.State, acts': seq<F.Action>)
    requires F.Run(F.Start(n), acts, s) && F.Enabled(s, F.Release(t))
    ensures F.Run(F.Start(n), acts', s') && Count(s.memory, s.threads[t].a) > 0
    ensures var a := s.threads[t].a;
      && s'.queue == s.queue && s'.lost == s.lost && s'.threads == s.threads[t := F.After(s.threads[t])]
      && s'.memory == if Count(s.memory, a) == 1 then Free(Dec(s.memory, a), a) else Dec(s.memory, a)
  {
    var th := s.threads[t];
    Extend(n, acts, s, F.Release(t));
    assert th.a in F.Touched(s, F.Release(t));
    s', acts' := F.Next(s, F.Release(t)), acts + [F.Release(t)];
    if Count(s.memory, th.a) == 1 {
      s', acts' := Frees(n, acts', s', t);
    }
  }

  lemma Frees(n: nat, acts: seq<F.Action>, s: F.State, t: nat) returns (s': F.State, acts': seq<F.Action>)
    requires F.Run(F.Start(n), acts, s) && F.Enabled(s, F.FreeIt(t))
    ensures F.Run(F.Start(n), acts', s') && s.threads[t].a in s.memory.cells
    ensures s' == s.(memory := Free(s.memory, s.threads[t].a), threads := s.threads[t := s.threads[t].next])
  {
    Extend(n, acts, s, F.FreeIt(t));
    assert s.threads[t].a in F.Touched(s, F.FreeIt(t));
    s', acts' := F.Next(s, F.FreeIt(t)), acts + [F.FreeIt(t)];
  }
}
