/**
 Publishing one record to many platforms: the publishers of storage/park_records_process.cpp,
 the platforms' notify functions that retain before they queue, the message queue and the
 consumers that release. Any number of threads takes atomic steps in any order.
 */
module FanOut {
  import opened RefHandle

  /* What the notify of one platform does with a record: nothing (not subscribed, or no handler for its type);
     queue it for a consumer; or copy it and queue a message without it, before or after giving it up. */
  datatype Platform = Ignores | Queues(consumer: nat) | CopiesThenTells(consumer: nat) | TellsThenDrops(consumer: nat)

  /* The steps of a notify. */
  datatype Micro = Keep | Drop | Post(consumer: nat, withData: bool)

  function Script(p: Platform): seq<Micro> {
    match p
    case Ignores => []
    case Queues(c) => [Keep, Post(c, true)]
    case CopiesThenTells(c) => [Keep, Drop, Post(c, false)]
    case TellsThenDrops(c) => [Keep, Post(c, false), Drop]
  }

  function Scripts(ps: seq<Platform>): seq<Micro> {
    if ps == [] then [] else Script(ps[0]) + Scripts(ps[1..])
  }

  /* With `extra` references to spare, the steps never give up more than they have, and end with none. */
  predicate Balanced(todo: seq<Micro>, extra: nat) {
    if todo == [] then extra == 0
    else if todo[0].Keep? then Balanced(todo[1..], extra + 1)
    else if todo[0] == Drop || todo[0].withData then extra > 0 && Balanced(todo[1..], extra - 1)
    else Balanced(todo[1..], extra)
  }

  lemma ScriptBalanced(p: Platform, rest: seq<Micro>)
    requires Balanced(rest, 0)
    ensures Balanced(Script(p) + rest, 0)
  {
    var todo := Script(p) + rest;
    if !p.Ignores? {
      assert todo[1..] == Script(p)[1..] + rest && todo[1..][1..] == Script(p)[2..] + rest;
      if !p.Queues? {
        assert todo[1..][1..][1..] == rest;
      } else {
        assert todo[1..][1..] == rest;
      }
    } else {
      assert todo == rest;
    }
  }

  lemma {:induction false} ScriptsBalanced(ps: seq<Platform>)
    ensures Balanced(Scripts(ps), 0)
  {
    if ps != [] {
      ScriptsBalanced(ps[1..]);
      ScriptBalanced(ps[0], Scripts(ps[1..]));
    }
  }

  datatype Thread =
    | Idle
    | Publishing(a: Addr, todo: seq<Micro>, extra: nat)    // its own reference and those of a notify
    | Handling(a: Addr)                                    // a consumer with a message
    | Freeing(a: Addr, next: Thread)                       // counted down to zero, about to free

  /* `data` is null in a message without a record. */
  datatype Message = Message(consumer: nat, data: Pointer)

  /* `lost` are the references nobody will ever release, one entry for each. */
  datatype State = State(memory: Memory, threads: seq<Thread>, queue: seq<Message>, lost: seq<Addr>)

  datatype Action =
    | Create(t: nat, a: Addr, platforms: seq<Platform>)
    | Retain(t: nat)                // a notify retains the record
    | Send(t: nat, sent: bool)      // msgsnd, which fails when the queue is full
    | Use(t: nat)                   // reading or filling the record
    | Release(t: nat)               // the atomic decrement of _RefHandleRelease
    | FreeIt(t: nat)                // what follows it when the count became zero
    | Receive(t: nat, i: nat)       // msgrcv
    | Forget(t: nat)                // an error return that does not release

  // ----- Steps.

  predicate Enabled(s: State, act: Action) {
    act.t < |s.threads| &&
    var th := s.threads[act.t];
    match act
    case Create(t, a, platforms) => th.Idle? && a !in s.memory.cells
    case Retain(t) => th.Publishing? && th.todo != [] && th.todo[0].Keep?
    case Send(t, sent) => th.Publishing? && th.todo != [] && th.todo[0].Post? && (th.todo[0].withData ==> th.extra > 0)
    case Use(t) => th.Publishing? || th.Handling?
    case Release(t) => th.Handling? || (th.Publishing? && (if th.todo == [] then th.extra == 0 else th.todo[0].Drop? && th.extra > 0))
    case FreeIt(t) => th.Freeing?
    case Receive(t, i) => th.Idle? && i < |s.queue|
    case Forget(t) => th.Handling? || (th.Publishing? && th.extra == 0)
  }

  /* The block an action reads or writes. */
  function Touched(s: State, act: Action): (r: seq<Addr>)
    requires Enabled(s, act)
    ensures |r| <= 1
  {
    if act.Retain? || act.Use? || act.Release? || act.FreeIt? then [s.threads[act.t].a] else []
  }

  /* Touching only blocks that are allocated, and counting down only what is counted. */
  ghost predicate Safe(s: State, act: Action)
    requires Enabled(s, act)
  {
    && (forall a :: a in Touched(s, act) ==> a in s.memory.cells)
    && (act.Release? ==> Count(s.memory, s.threads[act.t].a) > 0)
  }

  /* What a thread does after it has released. */
  function After(th: Thread): Thread {
    if th.Publishing? && th.todo != [] && th.extra > 0 then Publishing(th.a, th.todo[1..], th.extra - 1) else Idle
  }

  /* The message a publisher is about to send, and what it is after that. */
  function Letter(th: Thread): Message
    requires th.Publishing? && th.todo != [] && th.todo[0].Post?
  {
    Message(th.todo[0].consumer, if th.todo[0].withData then To(th.a) else Null)
  }

  function Posted(th: Thread): Thread
    requires th.Publishing? && th.todo != [] && th.todo[0].Post? && (th.todo[0].withData ==> th.extra > 0)
  {
    Publishing(th.a, th.todo[1..], if th.todo[0].withData then th.extra - 1 else th.extra)
  }

  /* A message without a record is handled at once. */
  function Received(m: Message): Thread {
    if m.data == Null then Idle else Handling(m.data.a)
  }

  function Next(s: State, act: Action): State
    requires Enabled(s, act) && Safe(s, act)
  {
    var th := s.threads[act.t];
    match act
    case Create(t, a, platforms) =>
      s.(memory := RefHandle.Create(s.memory, a), threads := s.threads[t := Publishing(a, Scripts(platforms), 0)])
    case Retain(t) =>
      assert th.a in Touched(s, act);
      s.(memory := Inc(s.memory, th.a), threads := s.threads[t := Publishing(th.a, th.todo[1..], th.extra + 1)])
    case Send(t, sent) =>
      var s' := s.(threads := s.threads[t := Posted(th)]);
      if sent then s'.(queue := s.queue + [Letter(th)])
      else if th.todo[0].withData then s'.(lost := s.lost + [th.a])
      else s'
    case Use(t) => s
    case Release(t) =>
      assert th.a in Touched(s, act);
      var m := Dec(s.memory, th.a);
      State(m, s.threads[t := if m.cells[th.a].count == 0 then Freeing(th.a, After(th)) else After(th)], s.queue, s.lost)
    case FreeIt(t) =>
      assert th.a in Touched(s, act);
      s.(memory := Free(s.memory, th.a), threads := s.threads[t := th.next])
    case Receive(t, i) => s.(threads := s.threads[t := Received(s.queue[i])], queue := s.queue[..i] + s.queue[i + 1..])
    case Forget(t) => s.(threads := s.threads[t := Idle], lost := s.lost + [th.a])
  }

  // ----- References held, counted independently of the counters.

  function Sum<X>(xs: seq<X>, f: X -> nat): nat {
    if xs == [] then 0 else f(xs[0]) + Sum(xs[1..], f)
  }

  lemma {:induction false} SumConcat<X>(xs: seq<X>, ys: seq<X>, f: X -> nat)
    ensures Sum(xs + ys, f) == Sum(xs, f) + Sum(ys, f)
  {
    if xs == [] {
      assert xs + ys == ys;
    } else {
      assert (xs + ys)[1..] == xs[1..] + ys;
      SumConcat(xs[1..], ys, f);
    }
  }

  lemma SumAt<X>(xs: seq<X>, i: nat, f: X -> nat)
    requires i < |xs|
    ensures Sum(xs, f) == Sum(xs[..i] + xs[i + 1..], f) + f(xs[i])
  {
    assert xs == xs[..i] + [xs[i]] + xs[i + 1..];
    SumConcat(xs[..i] + [xs[i]], xs[i + 1..], f);
    SumConcat(xs[..i], [xs[i]], f);
    SumConcat(xs[..i], xs[i + 1..], f);
    SumOne(xs[i], f);
  }

  lemma SumOne<X>(x: X, f: X -> nat)
    ensures Sum([x], f) == f(x)
  {
    assert [x][1..] == [];
  }

  lemma SumUpdate<X>(xs: seq<X>, i: nat, x: X, f: X -> nat)
    requires i < |xs|
    ensures Sum(xs[i := x], f) == Sum(xs, f) - f(xs[i]) + f(x)
  {
    SumAt(xs, i, f);
    SumAt(xs[i := x], i, f);
    assert xs[i := x][..i] + xs[i := x][i + 1..] == xs[..i] + xs[i + 1..];
  }

  lemma SumAppend<X>(xs: seq<X>, x: X, f: X -> nat)
    ensures Sum(xs + [x], f) == Sum(xs, f) + f(x)
  {
    SumConcat(xs, [x], f);
    SumOne(x, f);
  }

  /* The references a thread has to `a`. */
  function Held(th: Thread, a: Addr): nat {
    match th
    case Idle => 0
    case Publishing(b, _, extra) => if a == b then 1 + extra else 0
    case Handling(b) => if a == b then 1 else 0
    case Freeing(b, next) => Held(next, a)
  }

  function HeldBy(a: Addr): Thread -> nat { th => Held(th, a) }

  function About(a: Addr): Message -> nat { (m: Message) => if m.data == To(a) then 1 else 0 }

  function Is(a: Addr): Addr -> nat { b => if b == a then 1 else 0 }

  function AboutToFree(a: Addr): Thread -> nat { (th: Thread) => if th.Freeing? && th.a == a then 1 else 0 }

  function References(s: State, a: Addr): nat {
    Sum(s.threads, HeldBy(a)) + Sum(s.queue, About(a)) + Sum(s.lost, Is(a))
  }

  ghost predicate CountsExact(s: State) {
    forall a :: Count(s.memory, a) == References(s, a)
  }

  /* A block with count zero has exactly one thread about to free it, and nobody else does. */
  ghost predicate OneFrees(s: State) {
    forall a :: Sum(s.threads, AboutToFree(a)) == ZeroAt(s.memory, a)
  }

  /* Only a thread's last release frees, never the one inside notify; and what is left of a notify balances. */
  ghost predicate FreesAreLast(s: State) {
    forall t :: 0 <= t < |s.threads| ==> InShape(s.threads[t])
  }

  predicate InShape(th: Thread) {
    && (th.Freeing? ==> th.next.Idle?)
    && (th.Publishing? ==> Balanced(th.todo, th.extra))
  }

  ghost predicate Inv(s: State) {
    CountsExact(s) && OneFrees(s) && FreesAreLast(s) && FreedOnce(s.memory)
  }

  // ----- Every enabled step is safe and keeps the invariant.

  lemma HeldAtMost(s: State, t: nat, a: Addr)
    requires t < |s.threads|
    ensures Held(s.threads[t], a) <= References(s, a)
  {
    SumAt(s.threads, t, HeldBy(a));
  }

  lemma FreeingIsAllocated(s: State, t: nat)
    requires OneFrees(s) && t < |s.threads| && s.threads[t].Freeing?
    ensures s.threads[t].a in s.memory.cells && s.memory.cells[s.threads[t].a].count == 0
  {
    SumAt(s.threads, t, AboutToFree(s.threads[t].a));
  }

  lemma StepIsSafe(s: State, act: Action)
    requires Inv(s) && Enabled(s, act)
    ensures Safe(s, act)
  {
    var th := s.threads[act.t];
    if th.Freeing? {
      FreeingIsAllocated(s, act.t);
    } else if !th.Idle? {
      HeldAtMost(s, act.t, th.a);
      assert Count(s.memory, th.a) == References(s, th.a);
    }
  }

  /* What one step does to the sums. */
  lemma ThreadMoves(s: State, t: nat, th: Thread, a: Addr)
    requires t < |s.threads|
    ensures Sum(s.threads[t := th], HeldBy(a)) == Sum(s.threads, HeldBy(a)) - Held(s.threads[t], a) + Held(th, a)
    ensures Sum(s.threads[t := th], AboutToFree(a)) ==
            Sum(s.threads, AboutToFree(a)) - AboutToFree(a)(s.threads[t]) + AboutToFree(a)(th)
  {
    SumUpdate(s.threads, t, th, HeldBy(a));
    SumUpdate(s.threads, t, th, AboutToFree(a));
  }

  /* How many references to `a` a step adds to the queue and to the lost ones. */
  function Handed(s: State, act: Action, a: Addr): int
    requires Enabled(s, act)
  {
    if act.Send? && s.threads[act.t].todo[0].withData && s.threads[act.t].a == a then 1
    else if act.Forget? && s.threads[act.t].a == a then 1
    else if act.Receive? && s.queue[act.i].data == To(a) then -1
    else 0
  }

  lemma QueueMoves(s: State, act: Action, a: Addr)
    requires Enabled(s, act) && Safe(s, act)
    ensures var s' := Next(s, act);
            Sum(s'.queue, About(a)) + Sum(s'.lost, Is(a)) == Sum(s.queue, About(a)) + Sum(s.lost, Is(a)) + Handed(s, act, a)
  {
    match act
    case Send(t, sent) =>
      if sent {
        SumAppend(s.queue, Letter(s.threads[t]), About(a));
      } else if s.threads[t].todo[0].withData {
        SumAppend(s.lost, s.threads[t].a, Is(a));
      }
    case Receive(_, i) => SumAt(s.queue, i, About(a));
    case Forget(t) => SumAppend(s.lost, s.threads[t].a, Is(a));
    case _ =>
  }

  /* How many references to `a` a step makes or gives up. */
  function Made(s: State, act: Action, a: Addr): int
    requires Enabled(s, act)
  {
    if act.Create? && act.a == a then 1
    else if act.Retain? && s.threads[act.t].a == a then 1
    else if act.Release? && s.threads[act.t].a == a then -1
    else 0
  }

  lemma CountMoves(s: State, act: Action, a: Addr)
    requires Inv(s) && Enabled(s, act) && Safe(s, act)
    ensures Count(Next(s, act).memory, a) == Count(s.memory, a) + Made(s, act, a)
  {
    if act.FreeIt? { FreeingIsAllocated(s, act.t); }
  }

  lemma ThreadChange(s: State, act: Action, a: Addr)
    requires FreesAreLast(s) && Enabled(s, act) && Safe(s, act)
    ensures Held(Next(s, act).threads[act.t], a) == Held(s.threads[act.t], a) + Made(s, act, a) - Handed(s, act, a)
  {
  }

  lemma StepCounts(s: State, act: Action, a: Addr)
    requires Inv(s) && Enabled(s, act) && Safe(s, act)
    ensures Count(Next(s, act).memory, a) == References(Next(s, act), a)
  {
    assert Count(s.memory, a) == References(s, a);
    QueueMoves(s, act, a);
    CountMoves(s, act, a);
    ThreadChange(s, act, a);
    OnlyItsThread(s, act);
    ThreadMoves(s, act.t, Next(s, act).threads[act.t], a);
  }

  lemma OnlyItsThread(s: State, act: Action)
    requires Enabled(s, act) && Safe(s, act)
    ensures |Next(s, act).threads| == |s.threads|
    ensures Next(s, act).threads == s.threads[act.t := Next(s, act).threads[act.t]]
  {
  }

  function ZeroAt(m: Memory, a: Addr): nat {
    if a in m.cells && m.cells[a].count == 0 then 1 else 0
  }

  /* A thread starts to free a block exactly when its count becomes zero, and is done when the block is gone. */
  lemma ZeroMoves(s: State, act: Action, a: Addr)
    requires Inv(s) && Enabled(s, act) && Safe(s, act)
    ensures ZeroAt(Next(s, act).memory, a) - ZeroAt(s.memory, a) ==
            AboutToFree(a)(Next(s, act).threads[act.t]) - AboutToFree(a)(s.threads[act.t])
  {
    var th := s.threads[act.t];
    if act.Retain? || act.Release? {
      HeldAtMost(s, act.t, th.a);
      assert Count(s.memory, th.a) == References(s, th.a);
    }
    if act.FreeIt? {
      FreeingIsAllocated(s, act.t);
      assert InShape(th);
    }
  }

  lemma StepFrees(s: State, act: Action, a: Addr)
    requires Inv(s) && Enabled(s, act) && Safe(s, act)
    ensures Sum(Next(s, act).threads, AboutToFree(a)) == ZeroAt(Next(s, act).memory, a)
  {
    assert Sum(s.threads, AboutToFree(a)) == ZeroAt(s.memory, a);
    ZeroMoves(s, act, a);
    OnlyItsThread(s, act);
    ThreadMoves(s, act.t, Next(s, act).threads[act.t], a);
  }

  lemma ThreadStaysInShape(s: State, act: Action)
    requires Inv(s) && Enabled(s, act) && Safe(s, act)
    ensures InShape(Next(s, act).threads[act.t])
  {
    var th := s.threads[act.t];
    assert InShape(th);
    if act.Create? { ScriptsBalanced(act.platforms); }
    if act.Release? {
      HeldAtMost(s, act.t, th.a);
      assert Count(s.memory, th.a) == References(s, th.a);
    }
  }

  lemma StepFreesLast(s: State, act: Action)
    requires Inv(s) && Enabled(s, act) && Safe(s, act)
    ensures FreesAreLast(Next(s, act))
  {
    OnlyItsThread(s, act);
    ThreadStaysInShape(s, act);
  }

  lemma StepFreesOnce(s: State, act: Action)
    requires Inv(s) && Enabled(s, act) && Safe(s, act)
    ensures FreedOnce(Next(s, act).memory)
  {
    var th := s.threads[act.t];
    if act.Create? {
      MemoryStepsFreeOnce(s.memory, act.a);
    } else if !th.Idle? {
      MemoryStepsFreeOnce(s.memory, th.a);
    }
  }

  /* In every reachable state every step a thread can take is safe, and keeps the invariant. */
  lemma StepKeepsInv(s: State, act: Action)
    requires Inv(s) && Enabled(s, act)
    ensures Safe(s, act) && Inv(Next(s, act))
  {
    StepIsSafe(s, act);
    forall a ensures Count(Next(s, act).memory, a) == References(Next(s, act), a) { StepCounts(s, act, a); }
    assert OneFrees(Next(s, act)) by {
      forall a { StepFrees(s, act, a); }
    }
    StepFreesLast(s, act);
    StepFreesOnce(s, act);
  }

  // ----- Whole runs: any interleaving.

  ghost predicate Run(s: State, acts: seq<Action>, s': State)
    decreases |acts|
  {
    if acts == [] then s' == s
    else Enabled(s, acts[0]) && Safe(s, acts[0]) && Run(Next(s, acts[0]), acts[1..], s')
  }

  function Start(threads: nat): State {
    State(Memory(map[], 0, []), seq(threads, _ => Idle), [], [])
  }

  lemma {:induction false} SumOfIdle(n: nat, f: Thread -> nat)
    requires f(Idle) == 0
    ensures Sum(seq(n, _ => Idle), f) == 0
  {
    if n > 0 {
      assert seq(n, _ => Idle)[1..] == seq(n - 1, _ => Idle);
      SumOfIdle(n - 1, f);
    }
  }

  lemma StartInv(n: nat)
    ensures Inv(Start(n))
  {
    forall a ensures Sum(Start(n).threads, HeldBy(a)) == 0 && Sum(Start(n).threads, AboutToFree(a)) == 0 {
      SumOfIdle(n, HeldBy(a));
      SumOfIdle(n, AboutToFree(a));
    }
  }

  lemma {:induction false} RunKeepsInv(s: State, acts: seq<Action>, s': State)
    requires Inv(s) && Run(s, acts, s')
    ensures Inv(s')
    decreases |acts|
  {
    if acts != [] {
      StepKeepsInv(s, acts[0]);
      RunKeepsInv(Next(s, acts[0]), acts[1..], s');
    }
  }

  /* Whatever the threads did so far: each count is the number of references held, queued or lost;
     no block was freed twice; and no thread can touch a block that is not allocated. */
  lemma EveryInterleaving(n: nat, acts: seq<Action>, s: State)
    requires Run(Start(n), acts, s)
    ensures forall a :: Count(s.memory, a) == References(s, a)
    ensures forall i, j :: 0 <= i < j < |s.memory.freed| ==> s.memory.freed[i] != s.memory.freed[j]
    ensures forall a :: a in s.memory.cells ==> s.memory.cells[a].id !in s.memory.freed
    ensures forall act :: Enabled(s, act) ==> Safe(s, act)
  {
    StartInv(n);
    RunKeepsInv(Start(n), acts, s);
    forall act | Enabled(s, act) ensures Safe(s, act) { StepKeepsInv(s, act); }
  }

  /* A block is freed only when nobody holds it, has it queued or lost a reference to it. */
  lemma FreedUnreferenced(n: nat, acts: seq<Action>, s: State, t: nat)
    requires Run(Start(n), acts, s) && Enabled(s, FreeIt(t))
    ensures References(s, s.threads[t].a) == 0
    ensures forall u :: 0 <= u < |s.threads| ==> Held(s.threads[u], s.threads[t].a) == 0
    ensures forall i :: 0 <= i < |s.queue| ==> s.queue[i].data != To(s.threads[t].a)
  {
    StartInv(n);
    RunKeepsInv(Start(n), acts, s);
    FreeingIsAllocated(s, t);
    var a := s.threads[t].a;
    assert Count(s.memory, a) == References(s, a);
    forall u | 0 <= u < |s.threads| ensures Held(s.threads[u], a) == 0 { HeldAtMost(s, u, a); }
    forall i | 0 <= i < |s.queue| ensures s.queue[i].data != To(a) { SumAt(s.queue, i, About(a)); }
  }

  // ----- Failed sends only delay.

  predicate Quiet(s: State) {
    s.queue == [] && forall t :: 0 <= t < |s.threads| ==> s.threads[t].Idle?
  }

  lemma {:induction false} SumOfQuiet(threads: seq<Thread>, f: Thread -> nat)
    requires f(Idle) == 0 && forall t :: 0 <= t < |threads| ==> threads[t].Idle?
    ensures Sum(threads, f) == 0
  {
    if threads != [] {
      SumOfQuiet(threads[1..], f);
    }
  }

  lemma {:induction false} SumOfIs(lost: seq<Addr>, a: Addr)
    ensures Sum(lost, Is(a)) > 0 <==> a in lost
  {
    if lost != [] {
      SumOfIs(lost[1..], a);
    }
  }

  lemma QuietLeftOver(s: State, a: Addr)
    requires Inv(s) && Quiet(s)
    ensures a in s.memory.cells <==> a in s.lost
  {
    SumOfQuiet(s.threads, HeldBy(a));
    SumOfQuiet(s.threads, AboutToFree(a));
    SumOfIs(s.lost, a);
    assert Count(s.memory, a) == References(s, a);
    assert Sum(s.threads, AboutToFree(a)) == if a in s.memory.cells && s.memory.cells[a].count == 0 then 1 else 0;
  }

  /* When all is done, what is still allocated is exactly what a reference was lost to. */
  lemma LeftOverExactly(n: nat, acts: seq<Action>, s: State, a: Addr)
    requires Run(Start(n), acts, s) && Quiet(s)
    ensures a in s.memory.cells <==> a in s.lost
  {
    StartInv(n);
    RunKeepsInv(Start(n), acts, s);
    QuietLeftOver(s, a);
  }

  /* The work left for a thread and for a queued message. */
  function Work(th: Thread): nat {
    match th
    case Idle => 0
    case Publishing(_, todo, _) => 2 + Sum(todo, Effort)
    case Handling(_) => 2
    case Freeing(_, next) => 1 + Work(next)
  }

  function Effort(m: Micro): nat {
    if m.Post? then 4 else 1
  }

  function WorkLeft(s: State): nat {
    Sum(s.threads, Work) + 3 * |s.queue|
  }

  predicate Works(act: Action) {
    !act.Create? && !act.Use?
  }

  /* Steps other than publishing something new and looking at it bring the end nearer ... */
  lemma StepsDoWork(s: State, act: Action)
    requires Inv(s) && Enabled(s, act) && Safe(s, act) && Works(act)
    ensures WorkLeft(Next(s, act)) < WorkLeft(s)
  {
    OnlyItsThread(s, act);
    ThreadWorks(s, act);
    SumUpdate(s.threads, act.t, Next(s, act).threads[act.t], Work);
  }

  /* What a step leaves to do for its thread and in the queue. */
  lemma ThreadWorks(s: State, act: Action)
    requires Inv(s) && Enabled(s, act) && Safe(s, act) && Works(act)
    ensures Work(Next(s, act).threads[act.t]) + 3 * |Next(s, act).queue| < Work(s.threads[act.t]) + 3 * |s.queue|
  {
    var th := s.threads[act.t];
    if act.Release? {
      HeldAtMost(s, act.t, th.a);
      assert Count(s.memory, th.a) == References(s, th.a);
    }
    if act.FreeIt? { assert InShape(th); }
  }

  /* ... and until the end there is always such a step. */
  lemma NeverBlocked(s: State) returns (act: Action)
    requires Inv(s) && !Quiet(s) && |s.threads| > 0
    ensures Enabled(s, act) && Works(act) && !act.Forget? && (act.Send? ==> act.sent)
  {
    if t :| 0 <= t < |s.threads| && !s.threads[t].Idle? {
      var th := s.threads[t];
      match th
      case Publishing(a, todo, extra) =>
        assert InShape(th);
        act := if todo == [] || todo[0].Drop? then Release(t) else if todo[0].Keep? then Retain(t) else Send(t, true);
      case Handling(a) => act := Release(t);
      case Freeing(a, next) => act := FreeIt(t);
    } else {
      act := Receive(0, 0);
    }
  }

  /* Once nothing new is published, every order of steps ends. */
  lemma {:induction false} RunsEnd(s: State, acts: seq<Action>, s': State)
    requires Inv(s) && Run(s, acts, s') && forall i :: 0 <= i < |acts| ==> Works(acts[i])
    ensures |acts| <= WorkLeft(s)
    decreases |acts|
  {
    if acts != [] {
      StepKeepsInv(s, acts[0]);
      StepsDoWork(s, acts[0]);
      RunsEnd(Next(s, acts[0]), acts[1..], s');
    }
  }

  /* From any state of any run the threads can finish with sends that succeed, and then all
     blocks are freed but those a reference had already been lost to. */
  lemma Drains(s: State) returns (acts: seq<Action>, s': State)
    requires Inv(s) && |s.threads| > 0
    ensures Run(s, acts, s') && Quiet(s') && s'.lost == s.lost && |acts| <= WorkLeft(s)
    ensures forall i :: 0 <= i < |acts| ==> Works(acts[i])
    ensures forall a :: a in s'.memory.cells <==> a in s.lost
    decreases WorkLeft(s)
  {
    if Quiet(s) {
      acts, s' := [], s;
      forall a ensures a in s.memory.cells <==> a in s.lost { QuietLeftOver(s, a); }
    } else {
      var act := NeverBlocked(s);
      StepKeepsInv(s, act);
      StepsDoWork(s, act);
      OnlyItsThread(s, act);
      var rest;
      rest, s' := Drains(Next(s, act));
      acts := [act] + rest;
      assert acts[1..] == rest;
    }
  }
}
