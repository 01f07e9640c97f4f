/**
 sys/pool.c: a pool of entries whose free ones are threaded on an intrusive list. The list
 memory is shared with whatever other lists the entries move to.
 */
module Pool {
  import opened IntrusiveList

  class Pool<A(==)> {
    const mem: ListMemory<A>
    const head: A
    var nrFree: int
    var nrUsed: int
    var nrTotal: int
    ghost var free: seq<A>

    ghost predicate Valid()
      reads this, mem
    {
      Ring(mem.State(), [head] + free) && nrFree == |free| && nrFree + nrUsed == nrTotal
    }

    /* create_pool: the entries of the buffer are linked in order. */
    constructor (mem: ListMemory<A>, head: A, buf: seq<A>)
      requires NoDuplicates([head] + buf)
      modifies mem
      ensures Valid() && this.mem == mem && this.head == head && free == buf
      ensures nrFree == nrTotal == |buf| && nrUsed == 0
      ensures forall d :: Ring(old(mem.State()), d) && (forall x :: x in d ==> x !in [head] + buf) ==> Ring(mem.State(), d)
    {
      this.mem, this.head := mem, head;
      nrFree, nrTotal, nrUsed := |buf|, |buf|, 0;
      free := buf;
      new;
      LinkAll(mem, head, buf);
    }

    static method LinkAll(mem: ListMemory<A>, head: A, buf: seq<A>)
      requires NoDuplicates([head] + buf)
      modifies mem
      ensures Ring(mem.State(), [head] + buf)
      ensures forall d :: Ring(old(mem.State()), d) && (forall x :: x in d ==> x !in [head] + buf) ==> Ring(mem.State(), d)
    {
      ghost var before := mem.State();
      mem.InitListHead(head);
      InitHeadRing(before, head);
      forall d | Ring(before, d) && (forall x :: x in d ==> x !in [head] + buf) ensures Ring(mem.State(), d) {
        assert head in [head] + buf;
        InitHeadFrame(before, head, d);
      }
      var i := 0;
      while i < |buf|
        invariant 0 <= i <= |buf|
        invariant Ring(mem.State(), [head] + buf[..i])
        invariant forall d :: Ring(before, d) && (forall x :: x in d ==> x !in [head] + buf) ==> Ring(mem.State(), d)
      {
        ghost var l, c := mem.State(), [head] + buf[..i];
        LinkOne(l, c, buf[i], head, buf, i);
        mem.ListAddTail(buf[i], head);
        forall d | Ring(before, d) && (forall x :: x in d ==> x !in [head] + buf) ensures Ring(mem.State(), d) {
          LinkOneFrame(l, head, buf, i, d);
        }
        i := i + 1;
      }
      assert buf[..i] == buf;
    }

    static lemma LinkOne(l: Links<A>, c: seq<A>, n: A, head: A, buf: seq<A>, i: nat)
      requires NoDuplicates([head] + buf) && i < |buf| && n == buf[i] && c == [head] + buf[..i] && Ring(l, c)
      ensures head in l.prev && Ring(AddTail(l, n, head), [head] + buf[..i + 1])
    {
      var all := [head] + buf;
      assert all[i + 1] == n && c == all[..i + 1];
      AddTailRing(l, c, n);
      assert c + [n] == [head] + buf[..i + 1];
    }

    static lemma LinkOneFrame(l: Links<A>, head: A, buf: seq<A>, i: nat, d: seq<A>)
      requires i < |buf| && Ring(l, [head] + buf[..i]) && Ring(l, d) && forall x :: x in d ==> x !in [head] + buf
      ensures head in l.prev && Ring(AddTail(l, buf[i], head), d)
    {
      var all := [head] + buf;
      assert all[i + 1] == buf[i];
      assert buf[i] in all;
      assert [head] + buf[..i] == all[..i + 1];
      AddTailFrame(l, [head] + buf[..i], buf[i], d);
    }

    /* get_from_pool: the entry that has been free longest, or nothing exactly when none is free. */
    method GetFromPool() returns (found: bool, link: A)
      requires Valid()
      modifies this, mem
      ensures Valid() && found == (old(free) != []) && nrTotal == old(nrTotal)
      ensures !found ==> free == old(free) && mem.State() == old(mem.State()) && nrUsed == old(nrUsed)
      ensures found ==> old(free) == [link] + free && nrUsed == old(nrUsed) + 1
      ensures found ==> link in old(mem.next) && link in old(mem.prev) && mem.State() == Delete(old(mem.State()), link)
    {
      ghost var l, c := mem.State(), [head] + free;
      assert c[0] == head && c[1..] == free;
      EmptyAndSingular(l, c);
      link := mem.next[head];
      found := link != head;
      if found {
        assert After(c, 0) == c[1];
        DeleteRing(l, c, 1);
        assert Without(c, 1) == [head] + free[1..];
        mem.ListDel(link);
        nrFree := nrFree - 1;
        nrUsed := nrUsed + 1;
        free := free[1..];
      }
    }

    /* put_into_pool: the entry, on no list, waits behind the others. */
    method PutIntoPool(link: A)
      requires Valid() && link != head && link !in free
      modifies this, mem
      ensures Valid() && free == old(free) + [link]
      ensures nrTotal == old(nrTotal) && nrUsed == old(nrUsed) - 1
      ensures head in old(mem.prev) && mem.State() == AddTail(old(mem.State()), link, head)
    {
      ghost var c := [head] + free;
      AddTailRing(mem.State(), c, link);
      assert c + [link] == [head] + (free + [link]);
      mem.ListAddTail(link, head);
      nrUsed := nrUsed - 1;
      nrFree := nrFree + 1;
      free := free + [link];
    }
  }
}
