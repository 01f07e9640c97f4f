/**
 ve/config/json_cfg.c: an index of configuration items by field name, in eight buckets whose
 chains are threaded through the items (the hlist of include/list.h).
 */
module JsonConfig {

  type byte = x: int | 0 <= x < 256

  /* A C string: the bytes before the NUL. */
  type Text = seq<byte>

  const HASH_SIZE: nat := 8
  const TWO32: int := 0x1_0000_0000

  /* A char converted to uint32_t, on machines where char is signed or not. */
  function Extend(signedChar: bool, c: byte): nat {
    if signedChar && c >= 128 then c + TWO32 - 256 else c
  }

  /* The hash of the first n characters, in 32-bit arithmetic. */
  function Hash(signedChar: bool, s: Text, n: nat): (h: nat)
    requires n <= |s|
    ensures h < TWO32
  {
    if n == 0 then 0 else (Hash(signedChar, s, n - 1) * 37 + Extend(signedChar, s[n - 1])) % TWO32
  }

  function Position(signedChar: bool, s: Text): (p: nat)
    ensures p < HASH_SIZE
  {
    Hash(signedChar, s, |s|) % HASH_SIZE
  }

  // ----- What the bucket depends on: neither the wrap-around nor the sign of char matters.

  function Power(n: nat): nat {
    if n == 0 then 1 else 37 * Power(n - 1)
  }

  /* The characters weighted with the powers of 37, the last one with 1, in unbounded arithmetic. */
  function Weighted(s: Text): nat {
    if s == [] then 0 else s[0] * Power(|s| - 1) + Weighted(s[1..])
  }

  lemma {:induction false} WeightedSnoc(s: Text, c: byte)
    ensures Weighted(s + [c]) == 37 * Weighted(s) + c
  {
    if s == [] {
      assert [c][1..] == [];
    } else {
      WeightedSnoc(s[1..], c);
      assert (s + [c])[1..] == s[1..] + [c];
      assert s[0] * Power(|s|) == 37 * (s[0] * Power(|s| - 1));
    }
  }

  /* 8 divides both 2 to the power of 32 and 256. */
  lemma WrapMod8(x: nat)
    ensures x % TWO32 % 8 == x % 8
  {
    var q := x / TWO32;
    assert x == TWO32 * q + x % TWO32;
    assert x == 8 * (TWO32 / 8 * q) + x % TWO32;
    AddMultiple(x % TWO32, TWO32 / 8 * q);
  }

  lemma AddMultiple(r: nat, k: int)
    requires 8 * k + r >= 0
    ensures (8 * k + r) % 8 == r % 8
  {
  }

  lemma StepMod8(h: nat, w: nat, sc: bool, c: byte)
    requires h % 8 == w % 8
    ensures (h * 37 + Extend(sc, c)) % 8 == (37 * w + c) % 8
  {
    var k := h / 8 - w / 8;
    assert h == 8 * k + w;
    assert h * 37 + c == 8 * (37 * k) + (37 * w + c);
    AddMultiple(37 * w + c, 37 * k);
    AddMultiple(h * 37 + c, (TWO32 - 256) / 8);
  }

  lemma {:induction false} HashMod8(sc: bool, s: Text, n: nat)
    requires n <= |s|
    ensures Hash(sc, s, n) % 8 == Weighted(s[..n]) % 8
  {
    if n > 0 {
      HashMod8(sc, s, n - 1);
      assert s[..n] == s[..n - 1] + [s[n - 1]];
      WeightedSnoc(s[..n - 1], s[n - 1]);
      StepMod8(Hash(sc, s, n - 1), Weighted(s[..n - 1]), sc, s[n - 1]);
      WrapMod8(Hash(sc, s, n - 1) * 37 + Extend(sc, s[n - 1]));
    }
  }

  lemma PositionIs(sc: bool, s: Text)
    ensures Position(sc, s) == Weighted(s) % 8
  {
    HashMod8(sc, s, |s|);
    assert s[..|s|] == s;
  }

  // ----- Linear search, the reference.

  datatype Pointer = Null | Node(i: nat)

  /* The last of the first k items with this field. */
  function LastWith(fields: seq<Text>, k: nat, field: Text): (p: Pointer)
    requires k <= |fields|
    ensures p.Node? ==> p.i < k && fields[p.i] == field && forall j :: p.i < j < k ==> fields[j] != field
    ensures p.Null? ==> forall j :: 0 <= j < k ==> fields[j] != field
  {
    if k == 0 then Null else if fields[k - 1] == field then Node(k - 1) else LastWith(fields, k - 1, field)
  }

  // ----- Buckets.

  predicate Below(c: seq<nat>, n: nat) {
    forall j :: 0 <= j < |c| ==> c[j] < n
  }

  /* The items among the first k that belong to bucket b, the last one first. */
  function Bucket(sc: bool, fields: seq<Text>, k: nat, b: nat): (c: seq<nat>)
    requires k <= |fields|
    ensures Below(c, k) && forall j :: 0 <= j < |c| ==> Position(sc, fields[c[j]]) == b
  {
    if k == 0 then []
    else if Position(sc, fields[k - 1]) == b then [k - 1] + Bucket(sc, fields, k - 1, b)
    else Bucket(sc, fields, k - 1, b)
  }

  /* The first item of a chain with this field. */
  function FirstIn(fields: seq<Text>, c: seq<nat>, field: Text): Pointer
    requires Below(c, |fields|)
  {
    if c == [] then Null else if fields[c[0]] == field then Node(c[0]) else FirstIn(fields, c[1..], field)
  }

  /* Searching the field's own bucket finds what searching everything would. */
  lemma {:induction false} BucketSearch(sc: bool, fields: seq<Text>, k: nat, field: Text)
    requires k <= |fields|
    ensures FirstIn(fields, Bucket(sc, fields, k, Position(sc, field)), field) == LastWith(fields, k, field)
  {
    if k > 0 {
      BucketSearch(sc, fields, k - 1, field);
    }
  }

  // ----- Chains in memory.

  /* What the pprev field of a node points at. */
  datatype Back = Nothing | Head(b: nat) | NextOf(i: nat)

  /* The pointer fields of the items and the bucket heads; anything may be in the items' at first. */
  datatype Memory = Memory(first: seq<Pointer>, next: seq<Pointer>, pprev: seq<Back>)

  /* Following next from p gives c, and each pprev points at what points at its node. */
  ghost predicate Chain(m: Memory, p: Pointer, back: Back, c: seq<nat>)
    decreases |c|
  {
    if c == [] then p == Null
    else p == Node(c[0]) && c[0] < |m.next| && c[0] < |m.pprev| && m.pprev[c[0]] == back
         && Chain(m, m.next[c[0]], NextOf(c[0]), c[1..])
  }

  /* hlist_add_head */
  function AddHead(m: Memory, n: nat, b: nat): Memory
    requires n < |m.next| && n < |m.pprev| && b < |m.first|
    requires m.first[b].Node? ==> m.first[b].i < |m.pprev|
  {
    var first := m.first[b];
    Memory(m.first[b := Node(n)], m.next[n := first],
           (if first.Node? then m.pprev[first.i := NextOf(n)] else m.pprev)[n := Head(b)])
  }

  ghost predicate Indexed(sc: bool, fields: seq<Text>, k: nat, m: Memory) {
    && k <= |fields| && |m.first| == HASH_SIZE && |m.next| == |m.pprev| == |fields|
    && forall b :: 0 <= b < HASH_SIZE ==> Chain(m, m.first[b], Head(b), Bucket(sc, fields, k, b))
  }

  /* Nodes that are not in the chain may change. */
  lemma {:induction false} ChainFrame(m: Memory, m': Memory, p: Pointer, back: Back, c: seq<nat>)
    requires Chain(m, p, back, c) && |m'.next| == |m.next| && |m'.pprev| == |m.pprev|
    requires Below(c, |m.next|) && Below(c, |m.pprev|)
    requires forall j :: 0 <= j < |c| ==> m'.next[c[j]] == m.next[c[j]] && m'.pprev[c[j]] == m.pprev[c[j]]
    ensures Chain(m', p, back, c)
    decreases |c|
  {
    if c != [] {
      ChainFrame(m, m', m.next[c[0]], NextOf(c[0]), c[1..]);
    }
  }

  predicate Descending(c: seq<nat>) {
    forall i, j :: 0 <= i < j < |c| ==> c[i] > c[j]
  }

  lemma {:induction false} BucketDescends(sc: bool, fields: seq<Text>, k: nat, b: nat)
    requires k <= |fields|
    ensures Descending(Bucket(sc, fields, k, b))
  {
    if k > 0 {
      BucketDescends(sc, fields, k - 1, b);
    }
  }

  lemma TailFrame(m: Memory, n: nat, b: nat, c: seq<nat>)
    requires b < |m.first| && n < |m.next| == |m.pprev| && c != [] && m.first[b] == Node(c[0])
    requires Descending(c) && Below(c, n)
    ensures var m' := AddHead(m, n, b);
      forall j :: 0 <= j < |c[1..]| ==> m'.next[c[1..][j]] == m.next[c[1..][j]] && m'.pprev[c[1..][j]] == m.pprev[c[1..][j]]
  {
    forall j | 0 <= j < |c[1..]| ensures c[0] > c[1..][j] && n > c[1..][j] {
      assert c[1..][j] == c[j + 1];
    }
  }

  /* The bucket the item is added to. */
  lemma AddedBucket(m: Memory, n: nat, b: nat, c: seq<nat>)
    requires b < |m.first| && n < |m.next| == |m.pprev| && Chain(m, m.first[b], Head(b), c)
    requires Descending(c) && Below(c, n)
    ensures m.first[b].Node? ==> m.first[b].i < |m.pprev|
    ensures Chain(AddHead(m, n, b), Node(n), Head(b), [n] + c)
  {
    var m' := AddHead(m, n, b);
    assert ([n] + c)[1..] == c;
    if c != [] {
      TailFrame(m, n, b, c);
      ChainFrame(m, m', m.next[c[0]], NextOf(c[0]), c[1..]);
    }
  }

  /* Any other bucket. */
  lemma OtherBucket(m: Memory, n: nat, b: nat, c: seq<nat>, b': nat, c': seq<nat>)
    requires b < |m.first| && b' < |m.first| && b != b' && n < |m.next| == |m.pprev|
    requires Chain(m, m.first[b], Head(b), c) && Chain(m, m.first[b'], Head(b'), c')
    requires Below(c', n) && (c != [] ==> c[0] !in c')
    ensures m.first[b].Node? ==> m.first[b].i < |m.pprev|
    ensures Chain(AddHead(m, n, b), AddHead(m, n, b).first[b'], Head(b'), c')
  {
    ChainFrame(m, AddHead(m, n, b), m.first[b'], Head(b'), c');
  }

  lemma AddKeepsIndex(sc: bool, fields: seq<Text>, k: nat, m: Memory)
    requires Indexed(sc, fields, k, m) && k < |fields|
    ensures var b := Position(sc, fields[k]);
      && (m.first[b].Node? ==> m.first[b].i < |m.pprev|) && Indexed(sc, fields, k + 1, AddHead(m, k, b))
  {
    var b := Position(sc, fields[k]);
    BucketDescends(sc, fields, k, b);
    AddedBucket(m, k, b, Bucket(sc, fields, k, b));
    var m' := AddHead(m, k, b);
    forall b' | 0 <= b' < HASH_SIZE ensures Chain(m', m'.first[b'], Head(b'), Bucket(sc, fields, k + 1, b')) {
      if b' != b {
        OtherBucket(m, k, b, Bucket(sc, fields, k, b), b', Bucket(sc, fields, k, b'));
      }
    }
  }

  lemma Cleared(sc: bool, fields: seq<Text>, m: Memory)
    requires |m.first| == HASH_SIZE && |m.next| == |m.pprev| == |fields|
    requires forall b :: 0 <= b < HASH_SIZE ==> m.first[b] == Null
    ensures Indexed(sc, fields, 0, m)
  {
  }

  // ----- The code.

  /* cal_str_hash_val and cal_parser_field_hash_pos */
  method HashPosition(signedChar: bool, s: Text) returns (p: nat)
    ensures p == Position(signedChar, s)
  {
    var value := 0;
    var i := 0;
    while i < |s|
      invariant 0 <= i <= |s| && value == Hash(signedChar, s, i)
    {
      value := (value * 37 + Extend(signedChar, s[i])) % TWO32;
      i := i + 1;
    }
    p := value % HASH_SIZE;
  }

  class JsonCfg {
    const signedChar: bool
    const first: array<Pointer>
    const next: array<Pointer>
    const pprev: array<Back>

    ghost function State(): Memory
      reads first, next, pprev
    {
      Memory(first[..], next[..], pprev[..])
    }

    /* The index is built over whatever the items' links held before. */
    constructor (signedChar: bool, next: array<Pointer>, pprev: array<Back>)
      requires next.Length == pprev.Length
      ensures this.signedChar == signedChar && this.next == next && this.pprev == pprev
      ensures fresh(first) && first.Length == HASH_SIZE
    {
      this.signedChar, this.next, this.pprev := signedChar, next, pprev;
      first := new Pointer[HASH_SIZE](_ => Null);
    }

    method HlistAddHead(n: nat, b: nat)
      requires n < next.Length == pprev.Length && b < first.Length && first != next
      requires first[b].Node? ==> first[b].i < pprev.Length
      modifies first, next, pprev
      ensures State() == AddHead(old(State()), n, b)
    {
      var f := first[b];
      next[n] := f;
      if f.Node? {
        pprev[f.i] := NextOf(n);
      }
      first[b] := Node(n);
      pprev[n] := Head(b);
    }

    /* json_cfg_init */
    method Init(fields: seq<Text>)
      requires first.Length == HASH_SIZE && next.Length == pprev.Length == |fields| && first != next
      modifies first, next, pprev
      ensures Indexed(signedChar, fields, |fields|, State())
    {
      ClearHeads();
      Cleared(signedChar, fields, State());
      var i := 0;
      while i < |fields|
        invariant 0 <= i <= |fields| && Indexed(signedChar, fields, i, State())
      {
        AddItem(fields, i);
        i := i + 1;
      }
    }

    method ClearHeads()
      modifies first
      ensures forall b :: 0 <= b < first.Length ==> first[b] == Null
    {
      var i := 0;
      while i < first.Length
        invariant 0 <= i <= first.Length && forall b :: 0 <= b < i ==> first[b] == Null
      {
        first[i] := Null;
        i := i + 1;
      }
    }

    /* json_cfg_parser_add_item */
    method AddItem(fields: seq<Text>, i: nat)
      requires first.Length == HASH_SIZE && next.Length == pprev.Length == |fields| && first != next && i < |fields|
      requires Indexed(signedChar, fields, i, State())
      modifies first, next, pprev
      ensures Indexed(signedChar, fields, i + 1, State())
    {
      var b := HashPosition(signedChar, fields[i]);
      AddKeepsIndex(signedChar, fields, i, State());
      HlistAddHead(i, b);
    }

    /* json_cfg_find after json_cfg_init: as a linear search for the last item with the field. */
    method Find(fields: seq<Text>, field: Text) returns (item: Pointer)
      requires first.Length == HASH_SIZE && next.Length == pprev.Length == |fields|
      requires Indexed(signedChar, fields, |fields|, State())
      ensures item == LastWith(fields, |fields|, field)
    {
      var b := HashPosition(signedChar, field);
      BucketSearch(signedChar, fields, |fields|, field);
      ghost var c: seq<nat> := Bucket(signedChar, fields, |fields|, b);
      ghost var m := State();
      ghost var back := Head(b);
      assert Chain(m, m.first[b], back, c);
      var pos := first[b];
      while pos != Null
        invariant Below(c, |fields|) && Chain(m, pos, back, c)
        invariant FirstIn(fields, c, field) == LastWith(fields, |fields|, field)
        decreases |c|
      {
        var saved := next[pos.i];
        if |fields[pos.i]| == |field| && fields[pos.i] == field {
          return pos;
        }
        pos := saved;
        back, c := NextOf(c[0]), c[1..];
      }
      return Null;
    }
  }
}
