/**
 Json::Value as a tree, the order of its members, and the comparison operators.
 Strings are what a C string shows, so they hold no NUL, or have no pointer at all; arrays are dense.
 */
module JsonValue {

  type int32 = x: int | -0x8000_0000 <= x < 0x8000_0000
  type uint32 = x: int | 0 <= x < 0x1_0000_0000

  const NUL: char := '\0'

  type CText = s: string | NUL !in s witness []

  datatype Value =
    | Null
    | Int(i: int32)
    | UInt(u: uint32)
    | Real(r: real)
    | NullStr                // a string value whose pointer is null
    | Str(s: CText)
    | Bool(b: bool)
    | Array(elems: seq<Value>)
    | Object(members: seq<Member>)

  datatype Member = Member(name: CText, value: Value)

  /* What a C string shows of a character buffer. */
  function CString(s: string): (r: CText)
    ensures r <= s
    ensures NUL !in s ==> r == s
  {
    if s == [] || s[0] == NUL then [] else [s[0]] + CString(s[1..])
  }

  /* strcmp(a, b) < 0 */
  predicate StrLess(a: string, b: string) {
    if b == [] then false
    else if a == [] then true
    else a[0] < b[0] || (a[0] == b[0] && StrLess(a[1..], b[1..]))
  }

  lemma {:induction false} StrLessTotal(a: string, b: string)
    ensures a == b || StrLess(a, b) || StrLess(b, a)
    ensures !(StrLess(a, b) && StrLess(b, a))
    ensures a == b ==> !StrLess(a, b)
  {
    if a != [] && b != [] {
      StrLessTotal(a[1..], b[1..]);
      assert a == [a[0]] + a[1..] && b == [b[0]] + b[1..];
    }
  }

  lemma {:induction false} StrLessTransitive(a: string, b: string, c: string)
    requires StrLess(a, b) && StrLess(b, c)
    ensures StrLess(a, c)
  {
    if a != [] && a[0] == b[0] == c[0] {
      StrLessTransitive(a[1..], b[1..], c[1..]);
    }
  }

  // ----- Members of an object, a std::map ordered by strcmp.

  /* Names strictly ascend. */
  ghost predicate Sorted(ms: seq<Member>) {
    forall i, j :: 0 <= i < j < |ms| ==> StrLess(ms[i].name, ms[j].name)
  }

  /* lower_bound: the first member whose name is not below `name`. */
  function LowerBound(ms: seq<Member>, name: string): (k: nat)
    ensures k <= |ms|
    ensures forall i :: 0 <= i < k ==> StrLess(ms[i].name, name)
    ensures k < |ms| ==> !StrLess(ms[k].name, name)
  {
    if ms == [] || !StrLess(ms[0].name, name) then 0 else 1 + LowerBound(ms[1..], name)
  }

  /* The value that `object[name]` refers to: the member, or a fresh null. */
  function Resolve(ms: seq<Member>, name: string): Value {
    var k := LowerBound(ms, name);
    if k < |ms| && ms[k].name == name then ms[k].value else Null
  }

  /* The members after `object[name] = v`. */
  function Put(ms: seq<Member>, name: CText, v: Value): seq<Member> {
    var k := LowerBound(ms, name);
    if k < |ms| && ms[k].name == name then ms[k := Member(name, v)]
    else ms[..k] + [Member(name, v)] + ms[k..]
  }

  lemma PutKeepsSorted(ms: seq<Member>, name: CText, v: Value)
    requires Sorted(ms)
    ensures Sorted(Put(ms, name, v))
  {
    var k := LowerBound(ms, name);
    if k < |ms| {
      StrLessTotal(ms[k].name, name);
      if ms[k].name != name {
        forall j | k < j < |ms| ensures StrLess(name, ms[j].name) {
          StrLessTransitive(name, ms[k].name, ms[j].name);
        }
      }
    }
  }

  /* Assigning a member changes what that name resolves to, and no other name. */
  lemma ResolveAfterPut(ms: seq<Member>, name: CText, v: Value, other: string)
    requires Sorted(ms)
    ensures Resolve(Put(ms, name, v), other) == if other == name then v else Resolve(ms, other)
  {
    var ns := Put(ms, name, v);
    PutKeepsSorted(ms, name, v);
    PutMembers(ms, name, v);
    ResolveFinds(ms, other);
    ResolveFinds(ns, other);
    if other == name {
      assert Member(name, v) in ns;
    } else if m :| m in ms && m.name == other {
      assert m in ns;
    }
  }

  /* The members after an assignment: the new one, and those with other names. */
  lemma PutMembers(ms: seq<Member>, name: CText, v: Value)
    ensures Member(name, v) in Put(ms, name, v)
    ensures forall m :: m in ms && m.name != name ==> m in Put(ms, name, v)
    ensures forall m :: m in Put(ms, name, v) && m.name != name ==> m in ms
  {
    var ns, k := Put(ms, name, v), LowerBound(ms, name);
    assert ns[k] == Member(name, v);
    forall m | m in ms && m.name != name ensures m in ns {
      var i :| 0 <= i < |ms| && ms[i] == m;
      assert if |ns| == |ms| || i < k then ns[i] == m else ns[i + 1] == m;
    }
  }

  /* Resolving is looking the name up. */
  lemma ResolveFinds(ms: seq<Member>, name: string)
    requires Sorted(ms)
    ensures forall m :: m in ms && m.name == name ==> Resolve(ms, name) == m.value
    ensures (forall m :: m in ms ==> m.name != name) ==> Resolve(ms, name) == Null
  {
    var k := LowerBound(ms, name);
    forall m | m in ms && m.name == name ensures Resolve(ms, name) == m.value {
      var i :| 0 <= i < |ms| && ms[i] == m;
      StrLessTotal(name, name);
      assert i >= k;
    }
  }

  /* Appending in order is what the reader does with sorted input. */
  lemma PutLast(ms: seq<Member>, name: CText, v: Value)
    requires forall i :: 0 <= i < |ms| ==> StrLess(ms[i].name, name)
    ensures Resolve(ms, name) == Null
    ensures Put(ms, name, v) == ms + [Member(name, v)]
  {
    assert LowerBound(ms, name) == |ms|;
  }

  // ----- operator< and operator==

  /* The order of the ValueType enumeration. */
  function TypeRank(v: Value): nat {
    match v
    case Null => 0
    case Int(_) => 1
    case UInt(_) => 2
    case Real(_) => 3
    case NullStr => 4
    case Str(_) => 4
    case Bool(_) => 5
    case Array(_) => 6
    case Object(_) => 7
  }

  function Size(v: Value): nat {
    match v
    case Array(xs) => 1 + SizeElems(xs)
    case Object(ms) => 1 + SizeMembers(ms)
    case _ => 1
  }

  function SizeElems(xs: seq<Value>): nat {
    if xs == [] then 0 else Size(xs[0]) + SizeElems(xs[1..])
  }

  function SizeMembers(ms: seq<Member>): nat {
    if ms == [] then 0 else 1 + Size(ms[0].value) + SizeMembers(ms[1..])
  }

  predicate Less(a: Value, b: Value)
    decreases Size(a) + Size(b), 0
  {
    if TypeRank(a) != TypeRank(b) then TypeRank(a) < TypeRank(b)
    else match a
      case Null => false
      case Int(i) => i < b.i
      case UInt(u) => u < b.u
      case Real(r) => r < b.r
      case NullStr => b.Str?
      case Str(s) => b.Str? && StrLess(s, b.s)
      case Bool(p) => !p && b.b
      case Array(xs) => if |xs| != |b.elems| then |xs| < |b.elems| else LessElems(xs, b.elems)
      case Object(ms) => if |ms| != |b.members| then |ms| < |b.members| else LessMembers(ms, b.members)
  }

  /* std::lexicographical_compare of the elements; the keys are the same indices. */
  predicate LessElems(xs: seq<Value>, ys: seq<Value>)
    decreases SizeElems(xs) + SizeElems(ys), 1
  {
    if ys == [] then false
    else if xs == [] then true
    else if Less(xs[0], ys[0]) then true
    else if Less(ys[0], xs[0]) then false
    else LessElems(xs[1..], ys[1..])
  }

  /* std::pair's operator<, on the name and then on the value. */
  predicate LessPair(x: Member, y: Member)
    decreases Size(x.value) + Size(y.value), 1
  {
    StrLess(x.name, y.name) || (!StrLess(y.name, x.name) && Less(x.value, y.value))
  }

  predicate LessMembers(xs: seq<Member>, ys: seq<Member>)
    decreases SizeMembers(xs) + SizeMembers(ys), 1
  {
    if ys == [] then false
    else if xs == [] then true
    else if LessPair(xs[0], ys[0]) then true
    else if LessPair(ys[0], xs[0]) then false
    else LessMembers(xs[1..], ys[1..])
  }

  predicate Equal(a: Value, b: Value)
    decreases a, 1
  {
    TypeRank(a) == TypeRank(b) &&
    match a
      case Null => true
      case Int(i) => i == b.i
      case UInt(u) => u == b.u
      case Real(r) => r == b.r
      case NullStr => b.NullStr?
      case Str(s) => b.Str? && !StrLess(s, b.s) && !StrLess(b.s, s)
      case Bool(p) => p == b.b
      case Array(xs) => |xs| == |b.elems| && EqualElems(xs, b.elems)
      case Object(ms) => |ms| == |b.members| && EqualMembers(ms, b.members)
  }

  predicate EqualElems(xs: seq<Value>, ys: seq<Value>)
    requires |xs| == |ys|
    decreases xs, 0
  {
    xs == [] || (Equal(xs[0], ys[0]) && EqualElems(xs[1..], ys[1..]))
  }

  predicate EqualMembers(xs: seq<Member>, ys: seq<Member>)
    requires |xs| == |ys|
    decreases xs, 0
  {
    xs == [] ||
    (!StrLess(xs[0].name, ys[0].name) && !StrLess(ys[0].name, xs[0].name) &&
     Equal(xs[0].value, ys[0].value) && EqualMembers(xs[1..], ys[1..]))
  }

  // ----- operator== is identity of trees.

  lemma {:induction false} EqualIsIdentity(a: Value, b: Value)
    ensures Equal(a, b) <==> a == b
    decreases a, 1
  {
    match a
    case Str(s) =>
      if b.Str? { StrLessTotal(s, b.s); }
    case Array(xs) =>
      if b.Array? && |xs| == |b.elems| { EqualElemsIsIdentity(xs, b.elems); }
    case Object(ms) =>
      if b.Object? && |ms| == |b.members| { EqualMembersIsIdentity(ms, b.members); }
    case _ =>
  }

  lemma {:induction false} EqualElemsIsIdentity(xs: seq<Value>, ys: seq<Value>)
    requires |xs| == |ys|
    ensures EqualElems(xs, ys) <==> xs == ys
    decreases xs, 0
  {
    if xs != [] {
      EqualIsIdentity(xs[0], ys[0]);
      EqualElemsIsIdentity(xs[1..], ys[1..]);
      assert xs == [xs[0]] + xs[1..] && ys == [ys[0]] + ys[1..];
    }
  }

  lemma {:induction false} EqualMembersIsIdentity(xs: seq<Member>, ys: seq<Member>)
    requires |xs| == |ys|
    ensures EqualMembers(xs, ys) <==> xs == ys
    decreases xs, 0
  {
    if xs != [] {
      StrLessTotal(xs[0].name, ys[0].name);
      EqualIsIdentity(xs[0].value, ys[0].value);
      EqualMembersIsIdentity(xs[1..], ys[1..]);
      assert xs == [xs[0]] + xs[1..] && ys == [ys[0]] + ys[1..];
    }
  }

  // ----- operator< is a strict total order whose equivalence is operator==.

  lemma {:induction false} LessTrichotomy(a: Value, b: Value)
    ensures a == b ==> !Less(a, b)
    ensures a != b ==> Less(a, b) != Less(b, a)
    decreases Size(a) + Size(b), 0
  {
    if TypeRank(a) == TypeRank(b) {
      match a
      case Str(s) =>
        if b.Str? { StrLessTotal(s, b.s); }
      case Array(xs) =>
        if |xs| == |b.elems| { ElemsTrichotomy(xs, b.elems); }
      case Object(ms) =>
        if |ms| == |b.members| { MembersTrichotomy(ms, b.members); }
      case _ =>
    }
  }

  lemma {:induction false} ElemsTrichotomy(xs: seq<Value>, ys: seq<Value>)
    requires |xs| == |ys|
    ensures xs == ys ==> !LessElems(xs, ys)
    ensures xs != ys ==> LessElems(xs, ys) != LessElems(ys, xs)
    decreases SizeElems(xs) + SizeElems(ys), 1
  {
    if xs != [] {
      LessTrichotomy(xs[0], ys[0]);
      ElemsTrichotomy(xs[1..], ys[1..]);
      assert xs == [xs[0]] + xs[1..] && ys == [ys[0]] + ys[1..];
    }
  }

  lemma PairTrichotomy(x: Member, y: Member)
    ensures x == y ==> !LessPair(x, y)
    ensures x != y ==> LessPair(x, y) != LessPair(y, x)
    decreases Size(x.value) + Size(y.value), 1
  {
    StrLessTotal(x.name, y.name);
    LessTrichotomy(x.value, y.value);
  }

  lemma {:induction false} MembersTrichotomy(xs: seq<Member>, ys: seq<Member>)
    requires |xs| == |ys|
    ensures xs == ys ==> !LessMembers(xs, ys)
    ensures xs != ys ==> LessMembers(xs, ys) != LessMembers(ys, xs)
    decreases SizeMembers(xs) + SizeMembers(ys), 1
  {
    if xs != [] {
      PairTrichotomy(xs[0], ys[0]);
      MembersTrichotomy(xs[1..], ys[1..]);
      assert xs == [xs[0]] + xs[1..] && ys == [ys[0]] + ys[1..];
    }
  }

  lemma {:induction false} LessTransitive(a: Value, b: Value, c: Value)
    requires Less(a, b) && Less(b, c)
    ensures Less(a, c)
    decreases a, 1
  {
    if TypeRank(a) == TypeRank(b) == TypeRank(c) {
      match a
      case Str(s) =>
        if b.Str? && c.Str? { StrLessTransitive(s, b.s, c.s); }
      case Array(xs) =>
        if |xs| == |b.elems| == |c.elems| { ElemsTransitive(xs, b.elems, c.elems); }
      case Object(ms) =>
        if |ms| == |b.members| == |c.members| { MembersTransitive(ms, b.members, c.members); }
      case _ =>
    }
  }

  lemma {:induction false} ElemsTransitive(xs: seq<Value>, ys: seq<Value>, zs: seq<Value>)
    requires |xs| == |ys| == |zs|
    requires LessElems(xs, ys) && LessElems(ys, zs)
    ensures LessElems(xs, zs)
    decreases xs, 0
  {
    var x, y, z := xs[0], ys[0], zs[0];
    LessTrichotomy(x, y);
    LessTrichotomy(y, z);
    LessTrichotomy(x, z);
    if Less(x, y) && Less(y, z) {
      LessTransitive(x, y, z);
    } else if x == y == z {
      ElemsTransitive(xs[1..], ys[1..], zs[1..]);
    }
  }

  lemma PairTransitive(x: Member, y: Member, z: Member)
    requires LessPair(x, y) && LessPair(y, z)
    ensures LessPair(x, z)
    decreases x, 0
  {
    StrLessTotal(x.name, y.name);
    StrLessTotal(y.name, z.name);
    StrLessTotal(x.name, z.name);
    if StrLess(x.name, y.name) && StrLess(y.name, z.name) {
      StrLessTransitive(x.name, y.name, z.name);
    } else if x.name == y.name == z.name {
      LessTransitive(x.value, y.value, z.value);
    }
  }

  lemma {:induction false} MembersTransitive(xs: seq<Member>, ys: seq<Member>, zs: seq<Member>)
    requires |xs| == |ys| == |zs|
    requires LessMembers(xs, ys) && LessMembers(ys, zs)
    ensures LessMembers(xs, zs)
    decreases xs, 0
  {
    var x, y, z := xs[0], ys[0], zs[0];
    PairTrichotomy(x, y);
    PairTrichotomy(y, z);
    PairTrichotomy(x, z);
    if LessPair(x, y) && LessPair(y, z) {
      PairTransitive(x, y, z);
    } else if x == y == z {
      MembersTransitive(xs[1..], ys[1..], zs[1..]);
    }
  }

  /* The whole statement about the two operators. */
  lemma LessIsStrictTotalOrder(a: Value, b: Value, c: Value)
    ensures !Less(a, a)
    ensures Less(a, b) && Less(b, c) ==> Less(a, c)
    ensures Equal(a, b) <==> !Less(a, b) && !Less(b, a)
    ensures !(Less(a, b) && Less(b, a))
  {
    LessTrichotomy(a, a);
    LessTrichotomy(a, b);
    EqualIsIdentity(a, b);
    if Less(a, b) && Less(b, c) { LessTransitive(a, b, c); }
  }

  // ----- Which way round: what it takes for a value to be below another.

  /* The first place where two sequences differ is k, and there the first is below. */
  ghost predicate BelowAt<T>(below: (T, T) -> bool, xs: seq<T>, ys: seq<T>, k: nat) {
    k < |xs| && k < |ys| && xs[..k] == ys[..k] && below(xs[k], ys[k])
  }

  lemma BelowAfter<T>(below: (T, T) -> bool, xs: seq<T>, ys: seq<T>, k: nat)
    requires xs != [] && ys != [] && xs[0] == ys[0]
    ensures BelowAt(below, xs, ys, k + 1) <==> BelowAt(below, xs[1..], ys[1..], k)
  {
    if k < |xs| - 1 && k < |ys| - 1 {
      assert xs[..k + 1] == [xs[0]] + xs[1..][..k] && ys[..k + 1] == [ys[0]] + ys[1..][..k];
      assert xs[1..][..k] == xs[..k + 1][1..] && ys[1..][..k] == ys[..k + 1][1..];
    }
  }

  lemma SameBefore<T>(below: (T, T) -> bool, xs: seq<T>, ys: seq<T>, k: nat)
    requires BelowAt(below, xs, ys, k)
    ensures k == 0 || xs[0] == ys[0]
  {
    if k > 0 { assert xs[..k][0] == ys[..k][0]; }
  }

  /* If the heads are the same, it is the tails that decide. */
  lemma SameHead<T>(below: (T, T) -> bool, xs: seq<T>, ys: seq<T>)
    requires xs != [] && ys != [] && xs[0] == ys[0] && !below(xs[0], ys[0])
    ensures (exists k: nat :: BelowAt(below, xs, ys, k)) <==> exists k: nat :: BelowAt(below, xs[1..], ys[1..], k)
  {
    if k: nat :| BelowAt(below, xs, ys, k) { assert k != 0; BelowAfter(below, xs, ys, k - 1); }
    if k: nat :| BelowAt(below, xs[1..], ys[1..], k) { BelowAfter(below, xs, ys, k); }
  }

  /* If they differ, it is the heads. */
  lemma OtherHead<T>(below: (T, T) -> bool, xs: seq<T>, ys: seq<T>)
    requires xs != [] && ys != [] && xs[0] != ys[0]
    ensures (exists k: nat :: BelowAt(below, xs, ys, k)) <==> below(xs[0], ys[0])
  {
    if k: nat :| BelowAt(below, xs, ys, k) { SameBefore(below, xs, ys, k); }
    if below(xs[0], ys[0]) { assert xs[..0] == ys[..0] && BelowAt(below, xs, ys, 0); }
  }

  predicate CharLess(a: char, b: char) { a < b }

  /* A name is below another if it is a proper beginning of it, or its first different character is lower. */
  lemma {:induction false} StrLessMeans(a: string, b: string)
    ensures StrLess(a, b) <==> a < b || exists k: nat :: BelowAt(CharLess, a, b, k)
  {
    if a != [] && b != [] {
      if a[0] == b[0] {
        StrLessMeans(a[1..], b[1..]);
        SameHead(CharLess, a, b);
        assert a < b <==> a[1..] < b[1..] by { assert a == [a[0]] + a[1..] && b == [b[0]] + b[1..]; }
      } else {
        OtherHead(CharLess, a, b);
      }
    }
  }

  lemma {:induction false} LessElemsMeans(xs: seq<Value>, ys: seq<Value>)
    requires |xs| == |ys|
    ensures LessElems(xs, ys) <==> exists k: nat :: BelowAt(Less, xs, ys, k)
    decreases |xs|
  {
    if xs != [] {
      LessTrichotomy(xs[0], ys[0]);
      if xs[0] == ys[0] {
        LessElemsMeans(xs[1..], ys[1..]);
        SameHead(Less, xs, ys);
      } else {
        OtherHead(Less, xs, ys);
      }
    }
  }

  lemma {:induction false} LessMembersMeans(xs: seq<Member>, ys: seq<Member>)
    requires |xs| == |ys|
    ensures LessMembers(xs, ys) <==> exists k: nat :: BelowAt(LessPair, xs, ys, k)
    decreases |xs|
  {
    if xs != [] {
      PairTrichotomy(xs[0], ys[0]);
      if xs[0] == ys[0] {
        LessMembersMeans(xs[1..], ys[1..]);
        SameHead(LessPair, xs, ys);
      } else {
        OtherHead(LessPair, xs, ys);
      }
    }
  }

  /* Members are compared by name first. */
  lemma LessPairMeans(x: Member, y: Member)
    ensures LessPair(x, y) <==> StrLess(x.name, y.name) || (x.name == y.name && Less(x.value, y.value))
  {
    StrLessTotal(x.name, y.name);
  }

  /* Numbers by value, false before true, strings as strcmp has them with a null pointer first; shorter arrays and
     objects first, and those of the same size by the first element or member that differs. */
  lemma LessMeans(a: Value, b: Value)
    ensures a.Int? && b.Int? ==> (Less(a, b) <==> a.i < b.i)
    ensures a.UInt? && b.UInt? ==> (Less(a, b) <==> a.u < b.u)
    ensures a.Real? && b.Real? ==> (Less(a, b) <==> a.r < b.r)
    ensures a.Bool? && b.Bool? ==> (Less(a, b) <==> !a.b && b.b)
    ensures a.NullStr? && b.Str? ==> Less(a, b) && !Less(b, a)
    ensures a.Str? && b.Str? ==> (Less(a, b) <==> a.s < b.s || exists k: nat :: BelowAt(CharLess, a.s, b.s, k))
    ensures a.Array? && b.Array? ==>
              (Less(a, b) <==> |a.elems| < |b.elems| || (|a.elems| == |b.elems| && exists k: nat :: BelowAt(Less, a.elems, b.elems, k)))
    ensures a.Object? && b.Object? ==>
              (Less(a, b) <==> |a.members| < |b.members|
                               || (|a.members| == |b.members| && exists k: nat :: BelowAt(LessPair, a.members, b.members, k)))
  {
    if a.Str? && b.Str? { StrLessMeans(a.s, b.s); }
    if a.Array? && b.Array? && |a.elems| == |b.elems| { LessElemsMeans(a.elems, b.elems); }
    if a.Object? && b.Object? && |a.members| == |b.members| { LessMembersMeans(a.members, b.members); }
  }

  /* Values of different kinds: null, integers, unsigned integers, reals, strings, truth values, arrays, objects. */
  lemma KindsInOrder(i: int32, u: uint32, r: real, s: Value, b: bool, xs: seq<Value>, ms: seq<Member>)
    requires s.Str? || s.NullStr?
    ensures Less(Null, Int(i)) && Less(Int(i), UInt(u)) && Less(UInt(u), Real(r)) && Less(Real(r), s)
    ensures Less(s, Bool(b)) && Less(Bool(b), Array(xs)) && Less(Array(xs), Object(ms))
  {
  }
}
