/**
 The parking status file as a JSON tree: what park_status/src/park_status.cpp writes into it and
 reads out of it. Texts are bytes, as C strings.
 */
module ParkJson {
  import opened JsonValue
  import T = JsonTokens
  import C = JsonCut
  import S = JsonString

  const HISTORY_MAX: nat := 10

  /* The sizes of the character arrays. */
  const TIME_LENGTH: nat := 32
  const PLATE_LENGTH: nat := 32
  const SPACE_CODE_LENGTH: nat := 32
  const PICTURE_NAME_LENGTH: nat := 128

  datatype Record = Record(plate: CText, drivenIn: bool, time: CText, pic1: CText, pic2: CText)

  /* The record's texts fit their arrays, as the unchecked copies demand. */
  predicate Fits(r: Record) {
    && |r.plate| < PLATE_LENGTH && |r.time| < TIME_LENGTH
    && |r.pic1| < PICTURE_NAME_LENGTH && |r.pic2| < PICTURE_NAME_LENGTH
  }

  datatype Light = NoLight | Green | GreenFlash | Red | RedFlash | Blue | BlueFlash

  datatype Status = Status(hasCar: bool, plate: CText, spaceCode: CText, light: Light)

  /* light_string_map_table, in UTF-8. */
  function LightName(l: Light): (s: CText)
    ensures LightFrom(s) == l
  {
    match l
    case NoLight => "\U{E5}\U{85}\U{A8}\U{E7}\U{81}\U{AD}"
    case Green => "\U{E7}\U{BB}\U{BF}\U{E7}\U{81}\U{AF}"
    case GreenFlash => "\U{E7}\U{BB}\U{BF}\U{E9}\U{97}\U{AA}"
    case Red => "\U{E7}\U{BA}\U{A2}\U{E7}\U{81}\U{AF}"
    case RedFlash => "\U{E7}\U{BA}\U{A2}\U{E9}\U{97}\U{AA}"
    case Blue => "\U{E8}\U{93}\U{9D}\U{E7}\U{81}\U{AF}"
    case BlueFlash => "\U{E8}\U{93}\U{9D}\U{E9}\U{97}\U{AA}"
  }

  /* get_light_from_str: any other text is no light. */
  function LightFrom(s: string): Light {
    if s == "\U{E7}\U{BB}\U{BF}\U{E7}\U{81}\U{AF}" then Green
    else if s == "\U{E7}\U{BB}\U{BF}\U{E9}\U{97}\U{AA}" then GreenFlash
    else if s == "\U{E7}\U{BA}\U{A2}\U{E7}\U{81}\U{AF}" then Red
    else if s == "\U{E7}\U{BA}\U{A2}\U{E9}\U{97}\U{AA}" then RedFlash
    else if s == "\U{E8}\U{93}\U{9D}\U{E7}\U{81}\U{AF}" then Blue
    else if s == "\U{E8}\U{93}\U{9D}\U{E9}\U{97}\U{AA}" then BlueFlash
    else NoLight
  }

  function DriveText(drivenIn: bool): (s: CText)
    ensures DrivenInFrom(s) == drivenIn
  {
    if drivenIn then "\U{E9}\U{A9}\U{B6}\U{E5}\U{85}\U{A5}" else "\U{E9}\U{A9}\U{B6}\U{E7}\U{A6}\U{BB}"
  }

  /* Any other text is driving out. */
  predicate DrivenInFrom(s: string) {
    s == "\U{E9}\U{A9}\U{B6}\U{E5}\U{85}\U{A5}"
  }

  /* The two characters of each name: all or a colour, then out, lamp or flashing. */
  function LightCodes(l: Light): (nat, nat) {
    match l
    case NoLight => (0x5168, 0x706D)
    case Green => (0x7EFF, 0x706F)
    case GreenFlash => (0x7EFF, 0x95EA)
    case Red => (0x7EA2, 0x706F)
    case RedFlash => (0x7EA2, 0x95EA)
    case Blue => (0x84DD, 0x706F)
    case BlueFlash => (0x84DD, 0x95EA)
  }

  lemma LightNameIs(l: Light)
    ensures LightName(l) == S.Utf8(LightCodes(l).0) + S.Utf8(LightCodes(l).1)
  {
    TwoCharacters(LightName(l), LightCodes(l).0, LightCodes(l).1);
  }

  /* Driving in, or away. */
  lemma DriveTextIs(drivenIn: bool)
    ensures DriveText(drivenIn) == S.Utf8(0x9A76) + if drivenIn then S.Utf8(0x5165) else S.Utf8(0x79BB)
  {
    TwoCharacters(DriveText(drivenIn), 0x9A76, if drivenIn then 0x5165 else 0x79BB);
  }

  /* Six bytes that are two characters of three bytes each. */
  lemma TwoCharacters(text: string, a: nat, b: nat)
    requires |text| == 6 && 0x800 <= a <= 0xFFFF && 0x800 <= b <= 0xFFFF
    requires text[0] as int == 0xE0 + a / 4096 && text[1] as int == 0x80 + a / 64 % 64 && text[2] as int == 0x80 + a % 64
    requires text[3] as int == 0xE0 + b / 4096 && text[4] as int == 0x80 + b / 64 % 64 && text[5] as int == 0x80 + b % 64
    ensures text == S.Utf8(a) + S.Utf8(b)
  {
  }

  // ----- Objects filled by a series of assignments.

  function PutAll(ms: seq<Member>, fields: seq<Member>): seq<Member>
    decreases |fields|
  {
    if fields == [] then ms else PutAll(Put(ms, fields[0].name, fields[0].value), fields[1..])
  }

  /* The last assignment to `name`, or what was there before. */
  function Assigned(fields: seq<Member>, name: string, before: Value): Value {
    if fields == [] then before
    else Assigned(fields[1..], name, if fields[0].name == name then fields[0].value else before)
  }

  lemma {:induction false} PutAllResolves(ms: seq<Member>, fields: seq<Member>, name: string)
    requires Sorted(ms)
    ensures Resolve(PutAll(ms, fields), name) == Assigned(fields, name, Resolve(ms, name))
    decreases |fields|
  {
    if fields != [] {
      PutKeepsSorted(ms, fields[0].name, fields[0].value);
      ResolveAfterPut(ms, fields[0].name, fields[0].value, name);
      PutAllResolves(Put(ms, fields[0].name, fields[0].value), fields[1..], name);
    }
  }

  ghost predicate Good(v: Value) {
    T.WellFormed(v) && T.RealFree(v)
  }

  lemma PutGood(ms: seq<Member>, name: CText, v: Value)
    requires Good(Object(ms)) && Good(v)
    ensures Good(Object(Put(ms, name, v)))
  {
    T.PutWellFormed(ms, name, v);
    var ns := Put(ms, name, v);
    forall m | m in ns ensures T.RealFree(m.value) {
      assert m in ms || m == Member(name, v);
    }
  }

  lemma {:induction false} PutAllGood(ms: seq<Member>, fields: seq<Member>)
    requires Good(Object(ms)) && forall m :: m in fields ==> Good(m.value)
    ensures Good(Object(PutAll(ms, fields)))
    decreases |fields|
  {
    if fields != [] {
      assert fields[0] in fields;
      PutGood(ms, fields[0].name, fields[0].value);
      PutAllGood(Put(ms, fields[0].name, fields[0].value), fields[1..]);
    }
  }

  // ----- One record of the history.

  function ItemFields(index: nat, r: Record): seq<Member>
    requires index <= HISTORY_MAX
  {
    [Member("index", Int(index)), Member("time", Str(r.time)), Member("plate", Str(r.plate)),
     Member("pic_name1", Str(r.pic1)), Member("pic_name2", Str(r.pic2)),
     Member("state", Str(DriveText(r.drivenIn)))]
  }

  function ItemValue(index: nat, r: Record): Value
    requires index <= HISTORY_MAX
  {
    Object(PutAll([], ItemFields(index, r)))
  }

  /* operator[] on an object or null. */
  function Field(v: Value, name: string): Value {
    if v.Object? then Resolve(v.members, name) else Null
  }

  /* asInt and asString. */
  function AsInt(v: Value): int {
    match v
    case Int(i) => i
    case UInt(u) => u
    case Real(r) => if r >= 0.0 then r.Floor else -(-r).Floor
    case Bool(b) => if b then 1 else 0
    case _ => 0
  }

  function AsText(v: Value): CText {
    match v
    case Str(s) => s
    case Bool(b) => if b then "true" else "false"
    case _ => ""
  }

  /* The values that asInt takes; others throw. */
  predicate IntLike(v: Value) {
    match v
    case UInt(u) => u < 0x7fff_ffff
    case Real(r) => -2147483648.0 <= r <= 2147483647.0
    case Str(_) => false
    case NullStr => false
    case Array(_) => false
    case Object(_) => false
    case _ => true
  }

  /* The values that asString takes; others throw. */
  predicate TextLike(v: Value) {
    v.Null? || v.NullStr? || v.Str? || v.Bool?
  }

  /* ... with a text that fits an array of n bytes. */
  predicate TextFits(v: Value, n: nat) {
    TextLike(v) && |AsText(v)| < n
  }

  predicate Keyed(v: Value) {
    v.Null? || v.Object?
  }

  /* What parse_park_history demands of an item. */
  predicate ItemConvertible(v: Value) {
    && Keyed(v) && IntLike(Field(v, "index")) && TextLike(Field(v, "state"))
    && TextsFit(Field(v, "time"), Field(v, "plate"), Field(v, "pic_name1"), Field(v, "pic_name2"))
  }

  predicate TextsFit(time: Value, plate: Value, pic1: Value, pic2: Value) {
    && TextFits(time, TIME_LENGTH) && TextFits(plate, PLATE_LENGTH)
    && TextFits(pic1, PICTURE_NAME_LENGTH) && TextFits(pic2, PICTURE_NAME_LENGTH)
  }

  /* What parse_from_json demands of a file. The history may be any array of items, or a value of size zero. */
  predicate Convertible(root: Value) {
    && Keyed(root) && IntLike(Field(root, "parkstate")) && TextFits(Field(root, "currentplate"), PLATE_LENGTH)
    && TextLike(Field(root, "parklightstate"))
    && HistoryConvertible(Field(root, "parkhistory"))
  }

  predicate HistoryConvertible(v: Value) {
    match v
    case Array(xs) => forall k :: 0 <= k < |xs| ==> ItemConvertible(xs[k])
    case Object(ms) => ms == []
    case _ => true
  }

  /* strncpy of at most n bytes. */
  function Clip(s: CText, n: nat): (r: CText)
    ensures |s| <= n ==> r == s
    ensures |r| <= n
  {
    if |s| < n then s else s[..n]
  }

  /* park_history_t: an index of zero marks an entry never filled. */
  datatype Entry = Entry(index: nat, record: Record)

  /* parse_park_history; the index is stored in a byte. */
  function EntryOf(index: int, plate: CText, drivenIn: bool, time: CText, pic1: CText, pic2: CText): Entry {
    Entry(index % 256, Record(Clip(plate, PLATE_LENGTH), drivenIn, Clip(time, TIME_LENGTH),
                              Clip(pic1, PICTURE_NAME_LENGTH), Clip(pic2, PICTURE_NAME_LENGTH)))
  }

  function ItemEntry(v: Value): Entry {
    EntryOf(AsInt(Field(v, "index")), AsText(Field(v, "plate")), DrivenInFrom(AsText(Field(v, "state"))),
            AsText(Field(v, "time")), AsText(Field(v, "pic_name1")), AsText(Field(v, "pic_name2")))
  }

  lemma ItemNames()
    ensures "pic_name1" != "pic_name2" && "index" != "plate" && "index" != "state" && "plate" != "state"
  {
    assert "pic_name1"[8] != "pic_name2"[8];
    assert "index"[0] != "plate"[0] && "index"[0] != "state"[0] && "plate"[0] != "state"[0];
  }

  lemma ItemFieldsRead(index: nat, r: Record)
    requires index <= HISTORY_MAX
    ensures Field(ItemValue(index, r), "index") == Int(index)
    ensures Field(ItemValue(index, r), "time") == Str(r.time)
    ensures Field(ItemValue(index, r), "plate") == Str(r.plate)
    ensures Field(ItemValue(index, r), "pic_name1") == Str(r.pic1)
    ensures Field(ItemValue(index, r), "pic_name2") == Str(r.pic2)
    ensures Field(ItemValue(index, r), "state") == Str(DriveText(r.drivenIn))
  {
    var fields := ItemFields(index, r);
    ItemNames();
    ItemAssigned(index, r, "index");
    ItemAssigned(index, r, "time");
    ItemAssigned(index, r, "plate");
    ItemAssigned(index, r, "pic_name1");
    ItemAssigned(index, r, "pic_name2");
    ItemAssigned(index, r, "state");
    PutAllResolves([], fields, "index");
    PutAllResolves([], fields, "time");
    PutAllResolves([], fields, "plate");
    PutAllResolves([], fields, "pic_name1");
    PutAllResolves([], fields, "pic_name2");
    PutAllResolves([], fields, "state");
  }

  /* Unfolding the assignments for any name. */
  lemma ItemAssigned(index: nat, r: Record, name: string)
    requires index <= HISTORY_MAX
    ensures Assigned(ItemFields(index, r), name, Null) ==
            if name == "state" then Str(DriveText(r.drivenIn))
            else if name == "pic_name2" then Str(r.pic2)
            else if name == "pic_name1" then Str(r.pic1)
            else if name == "plate" then Str(r.plate)
            else if name == "time" then Str(r.time)
            else if name == "index" then Int(index)
            else Null
  {
    var f := ItemFields(index, r);
    var v1 := if f[0].name == name then f[0].value else Null;
    var v2 := if f[1].name == name then f[1].value else v1;
    var v3 := if f[2].name == name then f[2].value else v2;
    var v4 := if f[3].name == name then f[3].value else v3;
    var v5 := if f[4].name == name then f[4].value else v4;
    var v6 := if f[5].name == name then f[5].value else v5;
    assert f[1..][0] == f[1] && f[1..][1..] == f[2..] && f[2..][0] == f[2] && f[2..][1..] == f[3..];
    assert f[3..][0] == f[3] && f[3..][1..] == f[4..] && f[4..][0] == f[4] && f[4..][1..] == f[5..];
    assert f[5..][0] == f[5] && f[5..][1..] == [];
    assert Assigned(f[5..], name, v5) == v6;
    assert Assigned(f[3..], name, v3) == v6;
    assert Assigned(f[1..], name, v1) == v6;
  }

  lemma ItemGood(index: nat, r: Record)
    requires index <= HISTORY_MAX
    ensures Good(ItemValue(index, r))
  {
    EmptyGood();
    var fields := ItemFields(index, r);
    forall m | m in fields ensures Good(m.value) {
      assert m.value.Int? || m.value.Str?;
    }
    PutAllGood([], fields);
  }

  lemma EmptyGood()
    ensures Sorted([]) && Good(Object([]))
  {
  }

  /* A record written and read back is the same record, with the index it was written under. */
  lemma ItemRoundTrip(index: nat, r: Record)
    requires index <= HISTORY_MAX && Fits(r)
    ensures ItemEntry(ItemValue(index, r)) == Entry(index, r)
  {
    ItemFieldsRead(index, r);
    EntryOfFits(index, r);
    AsTextDrive(r.drivenIn);
  }

  lemma AsTextDrive(drivenIn: bool)
    ensures DrivenInFrom(AsText(Str(DriveText(drivenIn)))) == drivenIn
  {
  }

  lemma EntryOfFits(index: nat, r: Record)
    requires index <= HISTORY_MAX && Fits(r)
    ensures EntryOf(index, r.plate, r.drivenIn, r.time, r.pic1, r.pic2) == Entry(index, r)
  {
  }

  // ----- The whole file.

  predicate AreItems(xs: seq<Value>, view: seq<Record>)
    requires |view| <= HISTORY_MAX
  {
    |xs| == |view| && forall k :: 0 <= k < |view| ==> xs[k] == ItemValue(k + 1, view[k])
  }

  /* The records in order, numbered from one. */
  function Items(view: seq<Record>): (xs: seq<Value>)
    requires |view| <= HISTORY_MAX
    ensures AreItems(xs, view)
  {
    if view == [] then []
    else Items(view[..|view| - 1]) + [ItemValue(|view|, view[|view| - 1])]
  }

  function StatusFields(st: Status): seq<Member> {
    [Member("parkstate", Int(if st.hasCar then 1 else 0)), Member("currentplate", Str(st.plate)),
     Member("spacecode", Str(st.spaceCode)), Member("parklightstate", Str(LightName(st.light)))]
  }

  /* The history is not mentioned while it is empty. */
  function HistoryFields(xs: seq<Value>): seq<Member> {
    if xs == [] then [] else [Member("parkhistory", Array(xs))]
  }

  function RootValue(st: Status, view: seq<Record>): Value
    requires |view| <= HISTORY_MAX
  {
    Object(PutAll([], StatusFields(st) + HistoryFields(Items(view))))
  }

  lemma RootGood(st: Status, view: seq<Record>)
    requires |view| <= HISTORY_MAX
    ensures Good(RootValue(st, view))
  {
    EmptyGood();
    ItemsGood(view);
    FieldsGood(st, Items(view));
    PutAllGood([], StatusFields(st) + HistoryFields(Items(view)));
  }

  lemma ItemsGood(view: seq<Record>)
    requires |view| <= HISTORY_MAX
    ensures Good(Array(Items(view)))
  {
    AllItemsGood(Items(view), view);
  }

  lemma AllItemsGood(xs: seq<Value>, view: seq<Record>)
    requires |view| <= HISTORY_MAX && AreItems(xs, view)
    ensures Good(Array(xs))
  {
    forall k | 0 <= k < |xs| ensures Good(xs[k]) { EachItemGood(xs, view, k); }
    ArrayGood(xs);
  }

  lemma EachItemGood(xs: seq<Value>, view: seq<Record>, k: nat)
    requires |view| <= HISTORY_MAX && AreItems(xs, view) && k < |xs|
    ensures Good(xs[k])
  {
    ItemGood(k + 1, view[k]);
  }

  lemma ArrayGood(xs: seq<Value>)
    requires forall k :: 0 <= k < |xs| ==> Good(xs[k])
    ensures Good(Array(xs))
  {
  }

  lemma FieldsGood(st: Status, xs: seq<Value>)
    requires Good(Array(xs))
    ensures forall m :: m in StatusFields(st) + HistoryFields(xs) ==> Good(m.value)
  {
    forall m | m in StatusFields(st) + HistoryFields(xs) ensures Good(m.value) {
      assert m.value.Int? || m.value.Str? || m.value == Array(xs);
    }
  }

  lemma RootNames()
    ensures "currentplate" != "parkstate" && "currentplate" != "spacecode" && "parkstate" != "spacecode"
    ensures "parkhistory" != "parkstate" && "parkhistory" != "parklightstate" && "parkstate" != "parklightstate"
  {
    assert "parkstate"[0] != "spacecode"[0];
  }

  lemma StatusAssigned(st: Status, more: seq<Member>, name: string)
    ensures Assigned(StatusFields(st) + more, name, Null) ==
            Assigned(more, name,
              if name == "parklightstate" then Str(LightName(st.light))
              else if name == "spacecode" then Str(st.spaceCode)
              else if name == "currentplate" then Str(st.plate)
              else if name == "parkstate" then Int(if st.hasCar then 1 else 0)
              else Null)
  {
    var s := StatusFields(st);
    var f := s + more;
    assert f[0] == s[0] && f[1] == s[1] && f[2] == s[2] && f[3] == s[3];
    var v1 := if f[0].name == name then f[0].value else Null;
    var v2 := if f[1].name == name then f[1].value else v1;
    var v3 := if f[2].name == name then f[2].value else v2;
    var v4 := if f[3].name == name then f[3].value else v3;
    assert f[1..][0] == f[1] && f[1..][1..] == f[2..] && f[2..][0] == f[2] && f[2..][1..] == f[3..];
    assert f[3..][0] == f[3] && f[3..][1..] == more;
    assert Assigned(f[3..], name, v3) == Assigned(more, name, v4);
    assert Assigned(f[2..], name, v2) == Assigned(more, name, v4);
    assert Assigned(f[1..], name, v1) == Assigned(more, name, v4);
  }

  lemma HistoryAssigned(xs: seq<Value>, name: string, before: Value)
    ensures Assigned(HistoryFields(xs), name, before) == if xs != [] && name == "parkhistory" then Array(xs) else before
  {
    if xs != [] {
      assert HistoryFields(xs)[1..] == [];
    }
  }

  /* What the loader finds under each name. */
  lemma RootFieldsRead(st: Status, view: seq<Record>)
    requires |view| <= HISTORY_MAX
    ensures var root := RootValue(st, view);
      && Field(root, "parkstate") == Int(if st.hasCar then 1 else 0)
      && Field(root, "currentplate") == Str(st.plate)
      && Field(root, "parklightstate") == Str(LightName(st.light))
      && Field(root, "parkhistory") == if view == [] then Null else Array(Items(view))
  {
    RootNames();
    RootRead(st, view, "parkstate");
    RootRead(st, view, "currentplate");
    RootRead(st, view, "parklightstate");
    RootRead(st, view, "parkhistory");
  }

  lemma RootRead(st: Status, view: seq<Record>, name: string)
    requires |view| <= HISTORY_MAX
    ensures Field(RootValue(st, view), name) ==
            if view != [] && name == "parkhistory" then Array(Items(view))
            else if name == "parklightstate" then Str(LightName(st.light))
            else if name == "spacecode" then Str(st.spaceCode)
            else if name == "currentplate" then Str(st.plate)
            else if name == "parkstate" then Int(if st.hasCar then 1 else 0)
            else Null
  {
    var xs := Items(view);
    EmptyGood();
    PutAllResolves([], StatusFields(st) + HistoryFields(xs), name);
    StatusAssigned(st, HistoryFields(xs), name);
    HistoryAssigned(xs, name, Assigned(StatusFields(st) + [], name, Null));
    StatusAssigned(st, [], name);
  }

  function Elements(v: Value): seq<Value> {
    if v.Array? then v.elems else []
  }

  /* The status part of parse_from_json; the space code comes from the configuration. */
  function StatusOf(parkState: int, plate: CText, light: Light, spot: CText): Status {
    Status(parkState == 1, Clip(plate, PLATE_LENGTH), Clip(spot, SPACE_CODE_LENGTH), light)
  }

  function ReadStatus(root: Value, spot: CText): Status {
    StatusOf(AsInt(Field(root, "parkstate")), AsText(Field(root, "currentplate")),
             LightFrom(AsText(Field(root, "parklightstate"))), spot)
  }

  /* Reading a dump gives the status back ... */
  lemma StatusRoundTrip(st: Status, view: seq<Record>, spot: CText)
    requires |view| <= HISTORY_MAX && |st.plate| < PLATE_LENGTH
    ensures ReadStatus(RootValue(st, view), spot) == st.(spaceCode := Clip(spot, SPACE_CODE_LENGTH))
  {
    RootFieldsRead(st, view);
    AsTextLight(st.light);
  }

  lemma AsTextLight(l: Light)
    ensures LightFrom(AsText(Str(LightName(l)))) == l
  {
  }

  /* ... and, in the file's order, the records. */
  lemma HistoryRoundTrip(st: Status, view: seq<Record>)
    requires |view| <= HISTORY_MAX && forall r :: r in view ==> Fits(r)
    ensures Elements(Field(RootValue(st, view), "parkhistory")) == Items(view) && ReadBack(Items(view), view)
  {
    HistoryFound(st, view);
    ItemsReadBack(Items(view), view);
  }

  lemma HistoryFound(st: Status, view: seq<Record>)
    requires |view| <= HISTORY_MAX
    ensures Elements(Field(RootValue(st, view), "parkhistory")) == Items(view)
  {
    RootNames();
    RootRead(st, view, "parkhistory");
    if view == [] { assert Items(view) == []; }
  }

  /* Each item is read as the record with its number. */
  predicate ReadBack(xs: seq<Value>, view: seq<Record>) {
    |xs| == |view| && forall k :: 0 <= k < |xs| ==> ItemEntry(xs[k]) == Entry(k + 1, view[k])
  }

  lemma ItemsReadBack(xs: seq<Value>, view: seq<Record>)
    requires |view| <= HISTORY_MAX && AreItems(xs, view) && forall r :: r in view ==> Fits(r)
    ensures ReadBack(xs, view)
  {
    forall k | 0 <= k < |xs| ensures ItemEntry(xs[k]) == Entry(k + 1, view[k]) {
      EachItemReadBack(xs, view, k);
    }
  }

  lemma EachItemReadBack(xs: seq<Value>, view: seq<Record>, k: nat)
    requires |view| <= HISTORY_MAX && AreItems(xs, view) && (forall r :: r in view ==> Fits(r)) && k < |xs|
    ensures ItemEntry(xs[k]) == Entry(k + 1, view[k])
  {
    assert view[k] in view;
    ItemRoundTrip(k + 1, view[k]);
  }

  // ----- What the program writes, it can read.

  lemma ItemIsConvertible(index: nat, r: Record)
    requires index <= HISTORY_MAX && Fits(r)
    ensures ItemConvertible(ItemValue(index, r))
  {
    ItemFieldsRead(index, r);
    RecordTextsFit(r);
  }

  lemma RecordTextsFit(r: Record)
    requires Fits(r)
    ensures TextsFit(Str(r.time), Str(r.plate), Str(r.pic1), Str(r.pic2))
  {
  }

  lemma ItemsAreConvertible(xs: seq<Value>, view: seq<Record>)
    requires |view| <= HISTORY_MAX && AreItems(xs, view) && forall r :: r in view ==> Fits(r)
    ensures HistoryConvertible(Array(xs))
  {
    forall k | 0 <= k < |xs| ensures ItemConvertible(xs[k]) { EachItemConvertible(xs, view, k); }
  }

  lemma EachItemConvertible(xs: seq<Value>, view: seq<Record>, k: nat)
    requires |view| <= HISTORY_MAX && AreItems(xs, view) && (forall r :: r in view ==> Fits(r)) && k < |xs|
    ensures ItemConvertible(xs[k])
  {
    assert view[k] in view;
    ItemIsConvertible(k + 1, view[k]);
  }

  lemma DumpIsConvertible(st: Status, view: seq<Record>)
    requires |view| <= HISTORY_MAX && |st.plate| < PLATE_LENGTH && forall r :: r in view ==> Fits(r)
    ensures Convertible(RootValue(st, view))
  {
    RootFieldsRead(st, view);
    ItemsAreConvertible(Items(view), view);
    ConvertibleParts(RootValue(st, view), st, Items(view));
  }

  lemma ConvertibleParts(root: Value, st: Status, xs: seq<Value>)
    requires root.Object? && |st.plate| < PLATE_LENGTH && HistoryConvertible(Array(xs))
    requires Field(root, "parkstate") == Int(if st.hasCar then 1 else 0) && Field(root, "currentplate") == Str(st.plate)
    requires Field(root, "parklightstate") == Str(LightName(st.light))
    requires Field(root, "parkhistory") == Null || Field(root, "parkhistory") == Array(xs)
    ensures Convertible(root)
  {
  }

  // ----- Texts with the byte that ends a stream.

  predicate RecordStops(r: Record) {
    C.STOP in r.plate || C.STOP in r.time || C.STOP in r.pic1 || C.STOP in r.pic2
  }

  /* The file for this status and history cannot be read back. */
  predicate Spoiled(st: Status, view: seq<Record>) {
    C.STOP in st.plate || C.STOP in st.spaceCode || exists k :: 0 <= k < |view| && RecordStops(view[k])
  }

  lemma {:induction false} PutAllMembers(ms: seq<Member>, fields: seq<Member>, m: Member)
    requires m in PutAll(ms, fields)
    ensures m in ms || m in fields
    decreases |fields|
  {
    if fields != [] {
      PutAllMembers(Put(ms, fields[0].name, fields[0].value), fields[1..], m);
    }
  }

  /* A text that is found under a name is in the value. */
  lemma FoundHolds(v: Value, name: string, found: Value)
    requires Field(v, name) == found && !found.Null? && C.HoldsStop(found)
    ensures C.HoldsStop(v)
  {
    var k := LowerBound(v.members, name);
    assert v.members[k] in v.members;
  }

  ghost predicate FieldStops(m: Member) {
    C.STOP in m.name || C.HoldsStop(m.value)
  }

  lemma ObjectHolds(fields: seq<Member>)
    requires C.HoldsStop(Object(PutAll([], fields)))
    ensures exists m :: m in fields && FieldStops(m)
  {
    var m :| m in PutAll([], fields) && (C.STOP in m.name || C.HoldsStop(m.value));
    PutAllMembers([], fields, m);
    assert FieldStops(m);
  }

  lemma DriveTextPlain(drivenIn: bool)
    ensures C.STOP !in DriveText(drivenIn)
  {
  }

  lemma LightNamePlain(l: Light)
    ensures C.STOP !in LightName(l)
  {
  }

  lemma ItemFieldStops(index: nat, r: Record, m: Member)
    requires index <= HISTORY_MAX && m in ItemFields(index, r) && FieldStops(m)
    ensures RecordStops(r)
  {
    DriveTextPlain(r.drivenIn);
  }

  lemma ItemHolds(index: nat, r: Record)
    requires index <= HISTORY_MAX
    ensures C.HoldsStop(ItemValue(index, r)) <==> RecordStops(r)
  {
    var v := ItemValue(index, r);
    if C.HoldsStop(v) {
      ObjectHolds(ItemFields(index, r));
      var m :| m in ItemFields(index, r) && FieldStops(m);
      ItemFieldStops(index, r, m);
    }
    ItemFieldsRead(index, r);
    if C.STOP in r.plate { FoundHolds(v, "plate", Str(r.plate)); }
    if C.STOP in r.time { FoundHolds(v, "time", Str(r.time)); }
    if C.STOP in r.pic1 { FoundHolds(v, "pic_name1", Str(r.pic1)); }
    if C.STOP in r.pic2 { FoundHolds(v, "pic_name2", Str(r.pic2)); }
  }

  ghost predicate AnyRecordStops(view: seq<Record>) {
    exists k :: 0 <= k < |view| && RecordStops(view[k])
  }

  lemma ItemsHold(xs: seq<Value>, view: seq<Record>)
    requires |view| <= HISTORY_MAX && AreItems(xs, view)
    ensures C.HoldsStop(Array(xs)) <==> AnyRecordStops(view)
  {
    forall k | 0 <= k < |xs| ensures C.HoldsStop(xs[k]) <==> RecordStops(view[k]) { EachItemHolds(xs, view, k); }
    SomeHold(xs, view);
  }

  lemma EachItemHolds(xs: seq<Value>, view: seq<Record>, k: nat)
    requires |view| <= HISTORY_MAX && AreItems(xs, view) && k < |xs|
    ensures C.HoldsStop(xs[k]) <==> RecordStops(view[k])
  {
    ItemHolds(k + 1, view[k]);
  }

  lemma SomeHold(xs: seq<Value>, view: seq<Record>)
    requires |xs| == |view| && forall k :: 0 <= k < |xs| ==> (C.HoldsStop(xs[k]) <==> RecordStops(view[k]))
    ensures C.HoldsStop(Array(xs)) <==> AnyRecordStops(view)
  {
    if C.HoldsStop(Array(xs)) {
      var x :| x in xs && C.HoldsStop(x);
      var k :| 0 <= k < |xs| && xs[k] == x;
      assert RecordStops(view[k]);
    }
    if AnyRecordStops(view) {
      var k :| 0 <= k < |view| && RecordStops(view[k]);
      assert xs[k] in xs;
    }
  }

  lemma RootFieldStops(st: Status, xs: seq<Value>, m: Member)
    requires m in StatusFields(st) + HistoryFields(xs) && FieldStops(m)
    ensures C.STOP in st.plate || C.STOP in st.spaceCode || C.HoldsStop(Array(xs))
  {
    LightNamePlain(st.light);
    if m in HistoryFields(xs) {
      assert m == Member("parkhistory", Array(xs));
    } else {
      StatusFieldStops(st, m);
    }
  }

  lemma StatusFieldStops(st: Status, m: Member)
    requires m in StatusFields(st) && FieldStops(m) && C.STOP !in LightName(st.light)
    ensures C.STOP in st.plate || C.STOP in st.spaceCode
  {
  }

  /* The file holds the byte exactly if one of its texts does. */
  lemma RootHolds(st: Status, view: seq<Record>)
    requires |view| <= HISTORY_MAX
    ensures C.HoldsStop(RootValue(st, view)) <==> Spoiled(st, view)
  {
    var v := RootValue(st, view);
    ItemsHold(Items(view), view);
    if C.HoldsStop(v) {
      ObjectHolds(StatusFields(st) + HistoryFields(Items(view)));
      var m :| m in StatusFields(st) + HistoryFields(Items(view)) && FieldStops(m);
      RootFieldStops(st, Items(view), m);
    }
    RootNames();
    if C.STOP in st.plate { RootRead(st, view, "currentplate"); FoundHolds(v, "currentplate", Str(st.plate)); }
    if C.STOP in st.spaceCode { RootRead(st, view, "spacecode"); FoundHolds(v, "spacecode", Str(st.spaceCode)); }
    if AnyRecordStops(view) { RootRead(st, view, "parkhistory"); FoundHolds(v, "parkhistory", Array(Items(view))); }
  }
}
