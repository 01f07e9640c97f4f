/**
 tpi/inc/refhandle.h: blocks of memory with a count of the references to them. Addresses are
 handed out again after a free; `id` tells the blocks that were ever created apart.
 */
module RefHandle {

  type Addr = nat

  datatype Cell = Cell(count: nat, id: nat)

  /* The blocks that are allocated, how many were created, and which were freed, in order. */
  datatype Memory = Memory(cells: map<Addr, Cell>, created: nat, freed: seq<nat>)

  /* _RefHandleCreate, with the address malloc gave. */
  function Create(m: Memory, a: Addr): Memory
    requires a !in m.cells
  {
    Memory(m.cells[a := Cell(1, m.created)], m.created + 1, m.freed)
  }

  /* __interlock_inc */
  function Inc(m: Memory, a: Addr): Memory
    requires a in m.cells
  {
    m.(cells := m.cells[a := m.cells[a].(count := m.cells[a].count + 1)])
  }

  /* __interlock_dec */
  function Dec(m: Memory, a: Addr): Memory
    requires a in m.cells && m.cells[a].count > 0
  {
    m.(cells := m.cells[a := m.cells[a].(count := m.cells[a].count - 1)])
  }

  /* free */
  function Free(m: Memory, a: Addr): Memory
    requires a in m.cells
  {
    m.(cells := m.cells - {a}, freed := m.freed + [m.cells[a].id])
  }

  function Count(m: Memory, a: Addr): nat {
    if a in m.cells then m.cells[a].count else 0
  }

  /* Every block was created once, and is either allocated or freed once. */
  ghost predicate FreedOnce(m: Memory) {
    && (forall a :: a in m.cells ==> m.cells[a].id < m.created && m.cells[a].id !in m.freed)
    && (forall a, b :: a in m.cells && b in m.cells && a != b ==> m.cells[a].id != m.cells[b].id)
    && (forall i :: 0 <= i < |m.freed| ==> m.freed[i] < m.created)
    && (forall i, j :: 0 <= i < j < |m.freed| ==> m.freed[i] != m.freed[j])
  }

  lemma MemoryStepsFreeOnce(m: Memory, a: Addr)
    requires FreedOnce(m)
    ensures a !in m.cells ==> FreedOnce(Create(m, a))
    ensures a in m.cells ==> FreedOnce(Inc(m, a)) && FreedOnce(Free(m, a))
    ensures a in m.cells && m.cells[a].count > 0 ==> FreedOnce(Dec(m, a))
  {
    if a in m.cells {
      FreeFreesOnce(m, a);
    } else {
      CreateFreesOnce(m, a);
    }
  }

  lemma CreateFreesOnce(m: Memory, a: Addr)
    requires FreedOnce(m) && a !in m.cells
    ensures FreedOnce(Create(m, a))
  {
  }

  lemma FreeFreesOnce(m: Memory, a: Addr)
    requires FreedOnce(m) && a in m.cells
    ensures FreedOnce(Free(m, a))
  {
  }

  datatype Pointer = Null | To(a: Addr)

  /* The calls as one thread makes them when nobody else runs. */
  class Handles {
    var memory: Memory

    constructor ()
      ensures memory == Memory(map[], 0, [])
    {
      memory := Memory(map[], 0, []);
    }

    /* `malloc` is the address the allocator gives, or null. */
    method RefHandleCreate(malloc: Pointer) returns (p: Pointer)
      requires malloc.To? ==> malloc.a !in memory.cells
      modifies this
      ensures p == malloc
      ensures memory == if p == Null then old(memory) else Create(old(memory), p.a)
    {
      if malloc == Null {
        return Null;
      }
      memory := Create(memory, malloc.a);
      return malloc;
    }

    method RefHandleRetain(p: Pointer) returns (count: nat)
      requires p.To? ==> p.a in memory.cells
      modifies this
      ensures memory == if p == Null then old(memory) else Inc(old(memory), p.a)
      ensures count == if p == Null then 0 else Count(memory, p.a)
    {
      if p == Null {
        return 0;
      }
      memory := Inc(memory, p.a);
      return memory.cells[p.a].count;
    }

    /* The handle is nulled only when this was the last reference. */
    method RefHandleRelease(p: Pointer) returns (p': Pointer)
      requires p.To? ==> p.a in memory.cells && memory.cells[p.a].count > 0
      modifies this
      ensures p == Null ==> p' == Null && memory == old(memory)
      ensures p.To? && Count(old(memory), p.a) > 1 ==> p' == p && memory == Dec(old(memory), p.a)
      ensures p.To? && Count(old(memory), p.a) == 1 ==> p' == Null && memory == Free(Dec(old(memory), p.a), p.a)
    {
      p' := p;
      if p.To? {
        memory := Dec(memory, p.a);
        if memory.cells[p.a].count == 0 {
          memory := Free(memory, p.a);
          p' := Null;
        }
      }
    }
  }
}
