/**
 include/list.h: circular doubly linked lists threaded through the nodes themselves. Memory is
 the two pointer fields of every node, by address; the operations rewrite them in place. A
 missing entry is a null or uninitialised pointer.
 */
module IntrusiveList {

  /* The next and prev fields of the nodes. */
  datatype Links<A> = Links(next: map<A, A>, prev: map<A, A>)

  ghost predicate NoDuplicates<A>(c: seq<A>) {
    forall i, j :: 0 <= i < j < |c| ==> c[i] != c[j]
  }

  lemma NoDuplicatesConcat<A>(a: seq<A>, b: seq<A>)
    requires NoDuplicates(a) && NoDuplicates(b) && forall x :: x in a ==> x !in b
    ensures NoDuplicates(a + b)
  {
    forall i, j | 0 <= i < j < |a + b| ensures (a + b)[i] != (a + b)[j] {
      if i < |a| <= j { assert a[i] in a && b[j - |a|] in b; }
    }
  }

  function After<A>(c: seq<A>, i: nat): A
    requires i < |c|
  {
    if i + 1 == |c| then c[0] else c[i + 1]
  }

  /* Following next from c[0] visits c and comes back; prev is its inverse. */
  ghost predicate Ring<A>(l: Links<A>, c: seq<A>) {
    && |c| > 0 && NoDuplicates(c)
    && (forall i :: 0 <= i < |c| ==> c[i] in l.next && l.next[c[i]] == After(c, i))
    && (forall i :: 0 <= i < |c| ==> After(c, i) in l.prev && l.prev[After(c, i)] == c[i])
  }

  // ----- The operations on pointer fields.

  /* INIT_LIST_HEAD */
  function InitHead<A>(l: Links<A>, head: A): Links<A> {
    Links(l.next[head := head], l.prev[head := head])
  }

  /* __list_add */
  function AddBetween<A>(l: Links<A>, n: A, before: A, after: A): Links<A> {
    Links(l.next[n := after][before := n], l.prev[after := n][n := before])
  }

  /* list_add_tail */
  function AddTail<A>(l: Links<A>, n: A, head: A): Links<A>
    requires head in l.prev
  {
    AddBetween(l, n, l.prev[head], head)
  }

  /* list_add */
  function AddFront<A>(l: Links<A>, n: A, head: A): Links<A>
    requires head in l.next
  {
    AddBetween(l, n, head, l.next[head])
  }

  /* __list_del on the neighbours of `e` */
  function Unlink<A>(l: Links<A>, e: A): Links<A>
    requires e in l.next && e in l.prev
  {
    Links(l.next[l.prev[e] := l.next[e]], l.prev[l.next[e] := l.prev[e]])
  }

  /* list_del */
  function Delete<A>(l: Links<A>, e: A): Links<A>
    requires e in l.next && e in l.prev
  {
    var u := Unlink(l, e);
    Links(u.next - {e}, u.prev - {e})
  }

  /* list_move_tail */
  function MoveTail<A>(l: Links<A>, e: A, head: A): Links<A>
    requires e in l.next && e in l.prev && head in Unlink(l, e).prev
  {
    AddTail(Unlink(l, e), e, head)
  }

  // ----- What they do to rings.

  function Without<A>(c: seq<A>, k: nat): seq<A>
    requires k < |c|
  {
    c[..k] + c[k + 1..]
  }

  lemma InitHeadRing<A>(l: Links<A>, head: A)
    ensures Ring(InitHead(l, head), [head])
  {
  }

  lemma AddTailRing<A>(l: Links<A>, c: seq<A>, n: A)
    requires Ring(l, c) && n !in c
    ensures c[0] in l.prev && Ring(AddTail(l, n, c[0]), c + [n])
  {
    var last := |c| - 1;
    assert After(c, last) == c[0];
    var d := c + [n];
    var m := AddTail(l, n, c[0]);
    forall i | 0 <= i < |d| ensures d[i] in m.next && m.next[d[i]] == After(d, i) {
      if i < last { assert After(c, i) == c[i + 1]; }
    }
    forall i | 0 <= i < |d| ensures After(d, i) in m.prev && m.prev[After(d, i)] == d[i] {
      if i < last { assert After(c, i) == c[i + 1] && After(d, i) == c[i + 1]; }
    }
  }

  lemma AddFrontRing<A>(l: Links<A>, c: seq<A>, n: A)
    requires Ring(l, c) && n !in c
    ensures c[0] in l.next && Ring(AddFront(l, n, c[0]), [c[0], n] + c[1..])
  {
    var d := [c[0], n] + c[1..];
    var m := AddFront(l, n, c[0]);
    assert forall i :: 2 <= i < |d| ==> d[i] == c[i - 1];
    forall i | 0 <= i < |d| ensures d[i] in m.next && m.next[d[i]] == After(d, i) {
      if i >= 2 { assert m.next[c[i - 1]] == After(c, i - 1); }
    }
    forall i | 0 <= i < |d| ensures After(d, i) in m.prev && m.prev[After(d, i)] == d[i] {
      if i >= 2 { assert After(d, i) == After(c, i - 1); }
      else { assert After(c, 0) == (if |c| == 1 then c[0] else c[1]); }
    }
  }

  lemma UnlinkNext<A>(l: Links<A>, c: seq<A>, k: nat, i: nat)
    requires Ring(l, c) && 0 < k < |c| && i < |c| - 1 && After(c, k - 1) == c[k]
    ensures c[k] in l.next && c[k] in l.prev
    ensures var d, m := Without(c, k), Unlink(l, c[k]); d[i] in m.next && m.next[d[i]] == After(d, i)
  {
    var d := Without(c, k);
    if i < k {
      assert d[i] == c[i] && l.next[c[i]] == After(c, i);
    } else {
      assert d[i] == c[i + 1] && l.next[c[i + 1]] == After(c, i + 1);
    }
  }

  lemma UnlinkPrev<A>(l: Links<A>, c: seq<A>, k: nat, i: nat)
    requires Ring(l, c) && 0 < k < |c| && i < |c| - 1 && After(c, k - 1) == c[k]
    ensures c[k] in l.next && c[k] in l.prev
    ensures var d, m := Without(c, k), Unlink(l, c[k]); After(d, i) in m.prev && m.prev[After(d, i)] == d[i]
  {
    var d := Without(c, k);
    var j := if i < k then i else i + 1;
    assert d[i] == c[j] && l.prev[After(c, j)] == c[j];
    if i != k - 1 {
      assert After(d, i) == After(c, j);
    } else {
      assert After(d, i) == After(c, k);
    }
  }

  /* Taking out any node but the head; the node's own fields keep their old values. */
  lemma UnlinkRing<A>(l: Links<A>, c: seq<A>, k: nat)
    requires Ring(l, c) && 0 < k < |c|
    ensures c[k] in l.next && c[k] in l.prev && Ring(Unlink(l, c[k]), Without(c, k))
  {
    assert After(c, k - 1) == c[k];
    var d := Without(c, k);
    var m := Unlink(l, c[k]);
    WithoutFacts(c, k);
    forall i | 0 <= i < |d| ensures d[i] in m.next && m.next[d[i]] == After(d, i) { UnlinkNext(l, c, k, i); }
    forall i | 0 <= i < |d| ensures After(d, i) in m.prev && m.prev[After(d, i)] == d[i] { UnlinkPrev(l, c, k, i); }
  }

  /* Rings with other nodes are left alone. */
  lemma UnlinkFrame<A>(l: Links<A>, c: seq<A>, k: nat, d: seq<A>)
    requires Ring(l, c) && 0 < k < |c| && Ring(l, d) && forall x :: x in c ==> x !in d
    ensures c[k] in l.next && c[k] in l.prev && Ring(Unlink(l, c[k]), d)
  {
    assert After(c, k - 1) == c[k];
    assert l.prev[c[k]] == c[k - 1] && l.prev[c[k]] in c;
    assert l.next[c[k]] in c;
    forall i | 0 <= i < |d| ensures After(d, i) !in c { assert After(d, i) in d; }
  }

  lemma AddTailFrame<A>(l: Links<A>, c: seq<A>, n: A, d: seq<A>)
    requires Ring(l, c) && Ring(l, d) && n !in d && forall x :: x in c ==> x !in d
    ensures c[0] in l.prev && Ring(AddTail(l, n, c[0]), d)
  {
    assert After(c, |c| - 1) == c[0];
    assert l.prev[c[0]] in c;
    forall i | 0 <= i < |d| ensures After(d, i) !in c && After(d, i) != n { assert After(d, i) in d; }
  }

  lemma InitHeadFrame<A>(l: Links<A>, head: A, d: seq<A>)
    requires Ring(l, d) && head !in d
    ensures Ring(InitHead(l, head), d)
  {
    forall i | 0 <= i < |d| ensures After(d, i) != head { assert After(d, i) in d; }
  }

  lemma WithoutFacts<A>(c: seq<A>, k: nat)
    requires k < |c| && NoDuplicates(c)
    ensures c[k] !in Without(c, k) && NoDuplicates(Without(c, k))
    ensures forall x :: x in Without(c, k) <==> x in c && x != c[k]
    ensures k > 0 ==> Without(c, k)[0] == c[0]
  {
    forall x | x in c && x != c[k] ensures x in Without(c, k) {
      var i :| 0 <= i < |c| && c[i] == x;
      assert Without(c, k)[if i < k then i else i - 1] == x;
    }
  }

  /* list_move_tail between two rings. */
  lemma MoveTailAcross<A>(l: Links<A>, c: seq<A>, k: nat, d: seq<A>)
    requires Ring(l, c) && 0 < k < |c| && Ring(l, d) && forall x :: x in c ==> x !in d
    ensures c[k] in l.next && c[k] in l.prev && d[0] in Unlink(l, c[k]).prev
    ensures Ring(MoveTail(l, c[k], d[0]), Without(c, k)) && Ring(MoveTail(l, c[k], d[0]), d + [c[k]])
  {
    UnlinkRing(l, c, k);
    UnlinkFrame(l, c, k, d);
    WithoutFacts(c, k);
    AddTailRing(Unlink(l, c[k]), d, c[k]);
    AddTailFrame(Unlink(l, c[k]), d, c[k], Without(c, k));
  }

  /* list_move_tail within one ring: the node goes to the end. */
  lemma MoveTailWithin<A>(l: Links<A>, c: seq<A>, k: nat)
    requires Ring(l, c) && 0 < k < |c|
    ensures c[k] in l.next && c[k] in l.prev && c[0] in Unlink(l, c[k]).prev
    ensures Ring(MoveTail(l, c[k], c[0]), Without(c, k) + [c[k]])
  {
    UnlinkRing(l, c, k);
    WithoutFacts(c, k);
    AddTailRing(Unlink(l, c[k]), Without(c, k), c[k]);
  }

  /* ... and a third ring is left alone. */
  lemma MoveTailFrame<A>(l: Links<A>, c: seq<A>, k: nat, d: seq<A>, r: seq<A>)
    requires Ring(l, c) && 0 < k < |c| && Ring(l, d) && Ring(l, r)
    requires c == d || forall x :: x in c ==> x !in d
    requires forall x :: x in r ==> x !in c && x !in d
    ensures c[k] in l.next && c[k] in l.prev && d[0] in Unlink(l, c[k]).prev
    ensures Ring(MoveTail(l, c[k], d[0]), r)
  {
    UnlinkFrame(l, c, k, r);
    WithoutFacts(c, k);
    if c == d {
      UnlinkRing(l, c, k);
      AddTailFrame(Unlink(l, c[k]), Without(c, k), c[k], r);
    } else {
      UnlinkFrame(l, c, k, d);
      AddTailFrame(Unlink(l, c[k]), d, c[k], r);
    }
  }

  /* list_del, seen from the other nodes. */
  lemma DeleteRing<A>(l: Links<A>, c: seq<A>, k: nat)
    requires Ring(l, c) && 0 < k < |c|
    ensures c[k] in l.next && c[k] in l.prev && Ring(Delete(l, c[k]), Without(c, k))
  {
    UnlinkRing(l, c, k);
    WithoutFacts(c, k);
    var d := Without(c, k);
    forall i | 0 <= i < |d| ensures After(d, i) != c[k] { assert After(d, i) in d; }
  }

  lemma DeleteFrame<A>(l: Links<A>, c: seq<A>, k: nat, d: seq<A>)
    requires Ring(l, c) && 0 < k < |c| && Ring(l, d) && forall x :: x in c ==> x !in d
    ensures c[k] in l.next && c[k] in l.prev && Ring(Delete(l, c[k]), d)
  {
    UnlinkFrame(l, c, k, d);
    forall i | 0 <= i < |d| ensures After(d, i) != c[k] && d[i] != c[k] { assert After(d, i) in d; }
  }

  /* list_empty and list_is_singular read two pointers; on a ring they mean what they say. */
  lemma EmptyAndSingular<A>(l: Links<A>, c: seq<A>)
    requires Ring(l, c)
    ensures c[0] in l.next && c[0] in l.prev
    ensures l.next[c[0]] == c[0] <==> |c| == 1
    ensures l.next[c[0]] != c[0] && l.next[c[0]] == l.prev[c[0]] <==> |c| == 2
  {
    assert l.next[c[0]] == After(c, 0);
    assert After(c, |c| - 1) == c[0];
  }

  // ----- The same operations as the code performs them, one pointer at a time.

  class ListMemory<A(==)> {
    var next: map<A, A>
    var prev: map<A, A>

    ghost function State(): Links<A>
      reads this
    {
      Links(next, prev)
    }

    constructor ()
      ensures State() == Links(map[], map[])
    {
      next, prev := map[], map[];
    }

    method InitListHead(head: A)
      modifies this
      ensures State() == InitHead(old(State()), head)
    {
      next := next[head := head];
      prev := prev[head := head];
    }

    method ListAdd_(n: A, before: A, after: A)
      modifies this
      ensures State() == AddBetween(old(State()), n, before, after)
    {
      prev := prev[after := n];
      next := next[n := after];
      prev := prev[n := before];
      next := next[before := n];
    }

    method ListAddTail(n: A, head: A)
      requires head in prev
      modifies this
      ensures State() == AddTail(old(State()), n, head)
    {
      ListAdd_(n, prev[head], head);
    }

    method ListAddFront(n: A, head: A)
      requires head in next
      modifies this
      ensures State() == AddFront(old(State()), n, head)
    {
      ListAdd_(n, head, next[head]);
    }

    method ListDel_(before: A, after: A)
      modifies this
      ensures State() == Links(old(next)[before := after], old(prev)[after := before])
    {
      prev := prev[after := before];
      next := next[before := after];
    }

    method ListDel(e: A)
      requires e in next && e in prev
      modifies this
      ensures State() == Delete(old(State()), e)
    {
      ListDel_(prev[e], next[e]);
      next := next - {e};
      prev := prev - {e};
    }

    method ListMoveTail(e: A, head: A)
      requires e in next && e in prev && head in Unlink(State(), e).prev
      modifies this
      ensures State() == MoveTail(old(State()), e, head)
    {
      ListDel_(prev[e], next[e]);
      ListAddTail(e, head);
    }
  }
}
