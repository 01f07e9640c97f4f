/**
 The ring of the ten most recent parking records (park_status/src/park_status.cpp), which is
 written to a file on every change and read back when the program starts.
 */
module ParkHistory {
  import opened JsonValue
  import opened ParkJson
  import L = JsonLexer
  import P = JsonParser
  import T = JsonTokens
  import W = JsonWriter
  import SW = JsonStyledWriter
  import R = JsonReader
  import RT = JsonRoundTrip
  import C = JsonCut

  // ----- The ring and the records it stands for, newest first.

  /* The place of the k-th newest record. */
  function At(current: int, k: nat): int {
    if k <= current then current - k else current - k + HISTORY_MAX
  }

  function Next(current: int): int {
    if current + 1 >= HISTORY_MAX then 0 else current + 1
  }

  /* The ring is full once its last entry is in use. */
  ghost predicate Represents(es: seq<Entry>, current: int, view: seq<Record>) {
    && |es| == HISTORY_MAX && -1 <= current < HISTORY_MAX
    && (current == -1 ==> es[HISTORY_MAX - 1].index == 0)
    && (current == HISTORY_MAX - 1 ==> es[HISTORY_MAX - 1].index != 0)
    && |view| == (if es[HISTORY_MAX - 1].index != 0 then HISTORY_MAX else current + 1)
    && forall k :: 0 <= k < |view| ==> es[At(current, k)].record == view[k]
  }

  /* The newest records of a history, at most ten. */
  function Newest(history: seq<Record>): (r: seq<Record>)
    ensures |r| <= HISTORY_MAX && r <= history && (|r| == 10 || r == history)
  {
    if |history| <= HISTORY_MAX then history else history[..HISTORY_MAX]
  }

  lemma FillRepresents(es: seq<Entry>, current: int, view: seq<Record>, e: Entry)
    requires Represents(es, current, view) && e.index != 0
    ensures Represents(es[Next(current) := e], Next(current), Newest([e.record] + view))
  {
    var n := Next(current);
    var es' := es[n := e];
    var view' := Newest([e.record] + view);
    assert |view'| == if es'[HISTORY_MAX - 1].index != 0 then HISTORY_MAX else n + 1;
    forall k | 0 <= k < |view'| ensures es'[At(n, k)].record == view'[k] {
      FillRepresentsAt(es, current, view, e, k);
    }
  }

  lemma FillRepresentsAt(es: seq<Entry>, current: int, view: seq<Record>, e: Entry, k: nat)
    requires Represents(es, current, view) && e.index != 0 && k < |Newest([e.record] + view)|
    ensures 0 <= At(Next(current), k) < HISTORY_MAX
    ensures es[Next(current) := e][At(Next(current), k)].record == Newest([e.record] + view)[k]
  {
    if k > 0 {
      NextAt(current, k);
      assert Newest([e.record] + view)[k] == view[k - 1];
      assert es[At(current, k - 1)].record == view[k - 1];
    }
  }

  lemma NextAt(current: int, k: nat)
    requires -1 <= current < HISTORY_MAX && 1 <= k < HISTORY_MAX
    ensures At(Next(current), k) == At(current, k - 1) != Next(current)
  {
  }

  /* The array and the place last taken. */
  datatype Ring = Ring(es: seq<Entry>, current: int)

  /* Taking the next place. */
  function Fill(r: Ring, e: Entry): Ring
    requires |r.es| == HISTORY_MAX && -1 <= r.current < HISTORY_MAX
  {
    Ring(r.es[Next(r.current) := e], Next(r.current))
  }

  /* Filling with the items of a file, the last one first; `read` makes the entry of an item. */
  function Refill<X>(r: Ring, read: X -> Entry, xs: seq<X>): (r': Ring)
    requires |r.es| == HISTORY_MAX && -1 <= r.current < HISTORY_MAX
    ensures |r'.es| == HISTORY_MAX && -1 <= r'.current < HISTORY_MAX
  {
    if xs == [] then r else Fill(Refill(r, read, xs[1..]), read(xs[0]))
  }

  /* ... after the items from i on. */
  function Refilled<X>(r: Ring, read: X -> Entry, xs: seq<X>, i: nat): (r': Ring)
    requires |r.es| == HISTORY_MAX && -1 <= r.current < HISTORY_MAX && i <= |xs|
    ensures i == 0 ==> r' == Refill(r, read, xs)
    ensures i == |xs| ==> r' == r
    ensures |r'.es| == HISTORY_MAX && -1 <= r'.current < HISTORY_MAX
  {
    assert xs[0..] == xs;
    Refill(r, read, xs[i..])
  }

  lemma RefillStep<X>(r: Ring, read: X -> Entry, xs: seq<X>, i: nat)
    requires |r.es| == HISTORY_MAX && -1 <= r.current < HISTORY_MAX && i < |xs|
    ensures Refilled(r, read, xs, i) == Fill(Refilled(r, read, xs, i + 1), read(xs[i]))
  {
    assert xs[i..][0] == xs[i] && xs[i..][1..] == xs[i + 1..];
  }

  /* Dropping records that were already out of reach changes nothing. */
  lemma NewestOfNewest(r: Record, history: seq<Record>)
    ensures Newest([r] + Newest(history)) == Newest([r] + history)
  {
  }

  /* Refilling puts the records of the file before those that were there, whatever the places. */
  lemma {:induction false} RefillRepresents<X>(r: Ring, read: X -> Entry, xs: seq<X>, records: seq<Record>,
                                               view: seq<Record>)
    requires Represents(r.es, r.current, view) && |xs| == |records|
    requires forall k :: 0 <= k < |xs| ==> read(xs[k]).index != 0 && read(xs[k]).record == records[k]
    ensures Represents(Refill(r, read, xs).es, Refill(r, read, xs).current, Newest(records + view))
  {
    if xs == [] {
      assert records + view == view;
    } else {
      RefillRepresents(r, read, xs[1..], records[1..], view);
      var before := Refill(r, read, xs[1..]);
      var older := records[1..] + view;
      FillRepresents(before.es, before.current, Newest(older), read(xs[0]));
      NewestOfNewest(records[0], older);
      assert [records[0]] + older == records + view;
    }
  }

  /* A car is there with its plate, or there is none. */
  function AfterPassage(st: Status, objectState: int, plate: CText): Status {
    st.(hasCar := objectState == 1, plate := if objectState == 1 then plate else "")
  }

  class ParkStatus {
    const entries: array<Entry>
    var current: int
    var status: Status
    ghost var view: seq<Record>

    ghost predicate Valid()
      reads this, entries
    {
      && Represents(entries[..], current, view) && |view| <= HISTORY_MAX
      && |status.plate| < PLATE_LENGTH && forall r :: r in view ==> Fits(r)
    }

    constructor ()
      ensures Valid() && view == [] && status == Status(false, "", "", NoLight) && fresh(entries)
    {
      var blank := Entry(0, Record("", true, "", "", ""));
      entries := new Entry[HISTORY_MAX](_ => blank);
      current, status, view := -1, Status(false, "", "", NoLight), [];
    }

    ghost predicate Shaped()
      reads this
    {
      entries.Length == HISTORY_MAX && -1 <= current < HISTORY_MAX
    }

    ghost function Places(): Ring
      reads this, entries
    {
      Ring(entries[..], current)
    }

    /* Taking the next place of the ring. */
    method Take(e: Entry)
      requires Shaped()
      modifies this`current, entries
      ensures Shaped() && Places() == Fill(old(Places()), e)
    {
      current := current + 1;
      if current >= HISTORY_MAX {
        current := 0;
      }
      entries[current] := e;
      assert entries[..] == old(entries[..])[current := e];
    }

    /* The record part of push_record_2_history_list. */
    method PushRecord(objectState: int, plate: CText, time: CText, pic1: CText, pic2: CText)
      requires Valid() && Fits(Record(plate, objectState == 1, time, pic1, pic2))
      modifies this, entries
      ensures Valid() && view == Newest([Record(plate, objectState == 1, time, pic1, pic2)] + old(view))
      ensures status == AfterPassage(old(status), objectState, plate)
    {
      if objectState == 1 {
        status := status.(hasCar := true, plate := plate);
      } else {
        status := status.(hasCar := false, plate := "");
      }
      var e := Entry(99, Record(plate, objectState == 1, time, pic1, pic2));
      FillRepresents(entries[..], current, view, e);
      Take(e);
      view := Newest([e.record] + view);
    }

    /* The loop of dump_to_file: backwards from the current place, around the end if it is in use.
       `item` makes the entry of the file for an index and a record. */
    method DumpHistory<X>(item: (nat, Record) --> X) returns (xs: seq<X>)
      requires Valid() && forall n: nat, r :: n <= HISTORY_MAX ==> item.requires(n, r)
      ensures |xs| == |view| && forall k :: 0 <= k < |view| ==> xs[k] == item(k + 1, view[k])
    {
      xs := [];
      var i := current;
      if i < 0 {
        return;
      }
      var index := 1;
      while true
        invariant 1 <= index <= |view| && i == At(current, index - 1) && 0 <= i < HISTORY_MAX
        invariant |xs| == index - 1 && forall k :: 0 <= k < |xs| ==> xs[k] == item(k + 1, view[k])
        decreases |view| - index
      {
        xs := xs + [item(index, entries[i].record)];
        i := i - 1;
        index := index + 1;
        if i < 0 {
          if entries[HISTORY_MAX - 1].index != 0 {
            i := HISTORY_MAX - 1;
          } else {
            break;
          }
        }
        if i == current {
          break;
        }
      }
    }

    /* dump_to_file: the text in the file. */
    method DumpToFile(realText: real -> string) returns (text: string)
      requires Valid() && W.WritesNumbers(realText)
      ensures L.Lex(text) == T.Tokens(realText, RootValue(status, view))
    {
      RootGood(status, view);
      T.WellFormedPrints(RootValue(status, view));
      var xs := DumpHistory((n: nat, r) requires n <= HISTORY_MAX => ItemValue(n, r));
      assert xs == Items(view);
      var writer := new SW.StyledWriter(realText);
      text := writer.Write(Object(PutAll([], StatusFields(status) + HistoryFields(xs))));
    }

    /* The loop of parse_from_json: the oldest record first. */
    method ParseHistory<X>(read: X -> Entry, xs: seq<X>)
      requires Shaped()
      modifies this`current, entries
      ensures Shaped() && Places() == Refill(old(Places()), read, xs)
    {
      ghost var was, ring := Places(), Places();
      var i := |xs| - 1;
      while i >= 0
        invariant -1 <= i < |xs| && Shaped() && Places() == ring == Refilled(was, read, xs, i + 1)
      {
        RefillStep(was, read, xs, i);
        ring := Fill(ring, read(xs[i]));
        Take(read(xs[i]));
        i := i - 1;
      }
    }

    /* parse_from_json, for every file whose values have the types and sizes its conversions and arrays demand. */
    method ParseFromJson(root: Value, spot: CText)
      requires Shaped() && Convertible(root)
      modifies this`current, this`status, entries
      ensures Shaped() && status == ReadStatus(root, spot)
      ensures Places() == Refill(old(Places()), ItemEntry, Elements(Field(root, "parkhistory")))
    {
      status := ReadStatus(root, spot);
      ParseHistory(ItemEntry, Elements(Field(root, "parkhistory")));
    }

    /* load_from_file: nothing changes if the text, up to the end of the stream, does not parse. */
    method LoadFromFile(cfg: P.Config, text: string, spot: CText) returns (ret: int)
      requires Shaped() && (C.ParseStream(cfg, text, Null).ok ==> Convertible(C.ParseStream(cfg, text, Null).value))
      modifies this`current, this`status, entries
      ensures Shaped()
      ensures var r := C.ParseStream(cfg, text, Null);
        if r.ok then ret == 0 && status == ReadStatus(r.value, spot)
                     && Places() == Refill(old(Places()), ItemEntry, Elements(Field(r.value, "parkhistory")))
        else ret == -1 && status == old(status) && Places() == old(Places())
    {
      var reader := new R.Reader(cfg);
      var doc := C.GetLine(text);
      var ok, root := reader.Parse(doc, Null);
      if !ok {
        return -1;
      }
      ParseFromJson(root, spot);
      return 0;
    }
  }

  // ----- Whole lives of the program: records, light changes and restarts, in any order.

  /* `plate` is the plate as converted to UTF-8, which is what both copies of it are; the other texts are copied
     as they come. `spot` is the space code that is configured when the new process loads the file. */
  datatype Event =
    | Passage(objectState: int, plate: CText, time: CText, pic1: CText, pic2: CText)
    | LightChange(name: string)
    | Restart(spot: CText)

  function RecordOf(e: Event): Record
    requires e.Passage?
  {
    Record(e.plate, e.objectState == 1, e.time, e.pic1, e.pic2)
  }

  predicate EventFits(e: Event) {
    e.Passage? ==> Fits(RecordOf(e))
  }

  /* All records ever pushed, newest first. */
  function History(events: seq<Event>): seq<Record> {
    if events == [] then []
    else
      var before := History(events[..|events| - 1]);
      var e := events[|events| - 1];
      if e.Passage? then [RecordOf(e)] + before else before
  }

  const BLANK: Status := Status(false, "", "", NoLight)

  /* The file: none yet, or the status and the records it was last written with. */
  datatype Saved = Nothing | Saved(status: Status, view: seq<Record>)

  /* What the program has: the records since it last lost them, the status, and the file. */
  datatype Life = Life(history: seq<Record>, status: Status, saved: Saved)

  predicate Readable(saved: Saved) {
    saved.Saved? && !Spoiled(saved.status, saved.view)
  }

  function After(life: Life, e: Event): Life {
    match e
    case Passage(objectState, plate, _, _, _) =>
      var history, status := [RecordOf(e)] + life.history, AfterPassage(life.status, objectState, plate);
      Life(history, status, Saved(status, Newest(history)))
    case LightChange(name) =>
      var status := life.status.(light := LightFrom(name));
      Life(life.history, status, Saved(status, Newest(life.history)))
    case Restart(spot) =>
      if Readable(life.saved) then life.(status := life.saved.status.(spaceCode := Clip(spot, SPACE_CODE_LENGTH)))
      else Life([], BLANK, life.saved)
  }

  function Lived(events: seq<Event>): Life {
    if events == [] then Life([], BLANK, Nothing)
    else After(Lived(events[..|events| - 1]), events[|events| - 1])
  }

  // ----- When records are lost: a condition on the events alone.

  /* Something was written. */
  predicate Written(events: seq<Event>) {
    exists k :: 0 <= k < |events| && !events[k].Restart?
  }

  /* One of the newest records has a text with the byte that ends a stream. */
  predicate TextStops(events: seq<Event>) {
    var view := Newest(History(events));
    exists k :: 0 <= k < |view| && RecordStops(view[k])
  }

  /* The space code in the program: the one configured at the last restart, if that could load a file. */
  function Code(events: seq<Event>): CText {
    if events == [] then ""
    else
      var past, e := events[..|events| - 1], events[|events| - 1];
      if !e.Restart? then Code(past)
      else if Written(past) && !TextStops(past) && C.STOP !in FileCode(past) then Clip(e.spot, SPACE_CODE_LENGTH)
      else ""
  }

  /* The space code in the file: the program's at the last write. */
  function FileCode(events: seq<Event>): CText {
    if events == [] then ""
    else
      var past, e := events[..|events| - 1], events[|events| - 1];
      if e.Restart? then FileCode(past) else Code(past)
  }

  /* A restart after some passage, when a text of the newest records holds the byte, or the space code in the file. */
  predicate LosesAt(events: seq<Event>, k: nat)
    requires k < |events|
  {
    events[k].Restart? && History(events[..k]) != [] && (TextStops(events[..k]) || C.STOP in FileCode(events[..k]))
  }

  predicate Loses(events: seq<Event>) {
    exists k :: 0 <= k < |events| && LosesAt(events, k)
  }

  lemma LosesSnoc(events: seq<Event>)
    requires events != []
    ensures Loses(events) <==> Loses(events[..|events| - 1]) || LosesAt(events, |events| - 1)
  {
    var past := events[..|events| - 1];
    if Loses(past) {
      var k :| 0 <= k < |past| && LosesAt(past, k);
      LosesInPast(events, k);
    }
    if Loses(events) && !LosesAt(events, |events| - 1) {
      var k :| 0 <= k < |events| && LosesAt(events, k);
      LosesInPast(events, k);
    }
  }

  lemma LosesInPast(events: seq<Event>, k: nat)
    requires k < |events| - 1
    ensures LosesAt(events[..|events| - 1], k) <==> LosesAt(events, k)
  {
    assert events[..|events| - 1][..k] == events[..k];
  }

  lemma WrittenSnoc(events: seq<Event>)
    requires events != []
    ensures Written(events) <==> Written(events[..|events| - 1]) || !events[|events| - 1].Restart?
  {
    var past := events[..|events| - 1];
    assert forall k :: 0 <= k < |past| ==> past[k] == events[k];
    if Written(past) {
      var k :| 0 <= k < |past| && !past[k].Restart?;
      assert !events[k].Restart?;
    }
  }

  /* The status tells of the newest record: there is a car, with that plate, if it drove in; otherwise there is none. */
  predicate TellsNewest(status: Status, view: seq<Record>) {
    if view != [] && view[0].drivenIn then status.hasCar && status.plate == view[0].plate
    else !status.hasCar && status.plate == ""
  }

  /* As long as nothing was lost, the program and its file are as the events say. */
  ghost predicate Faithful(events: seq<Event>, life: Life) {
    && life.history == History(events) && life.status.spaceCode == Code(events)
    && TellsNewest(life.status, life.history)
    && (life.saved.Saved? <==> Written(events)) && (life.history != [] ==> life.saved.Saved?)
    && (life.saved.Saved? ==>
          && life.saved.view == Newest(life.history) && life.saved.status.spaceCode == FileCode(events)
          && TellsNewest(life.saved.status, life.saved.view))
  }

  lemma SpoiledIs(events: seq<Event>, life: Life)
    requires Faithful(events, life) && life.saved.Saved?
    ensures Spoiled(life.saved.status, life.saved.view) <==> TextStops(events) || C.STOP in FileCode(events)
  {
    var st, view := life.saved.status, life.saved.view;
    if C.STOP in st.plate {
      assert RecordStops(view[0]);
    }
  }

  /* One more event, while nothing is lost. */
  lemma FaithfulAfter(events: seq<Event>, life: Life)
    requires events != [] && Faithful(events[..|events| - 1], life) && !LosesAt(events, |events| - 1)
    ensures Faithful(events, After(life, events[|events| - 1]))
  {
    var past, e := events[..|events| - 1], events[|events| - 1];
    WrittenSnoc(events);
    if life.saved.Saved? { SpoiledIs(past, life); }
  }

  /* The program has all records ever pushed if and only if no restart loses them by that condition; and then
     the file has the newest. */
  lemma {:induction false} KeepsAllExactly(events: seq<Event>)
    ensures Lived(events).history <= History(events)
    ensures Lived(events).history == History(events) <==> !Loses(events)
    ensures !Loses(events) ==> Faithful(events, Lived(events))
  {
    if events != [] {
      var past := events[..|events| - 1];
      KeepsAllExactly(past);
      LosesSnoc(events);
      if !Loses(past) {
        if LosesAt(events, |events| - 1) {
          SpoiledIs(past, Lived(past));
        } else {
          FaithfulAfter(events, Lived(past));
        }
      }
    }
  }

  /* In particular it has them when no text of any event holds the byte ... */
  lemma PlainTextsAreKept(events: seq<Event>)
    requires forall k :: 0 <= k < |events| ==> PlainEvent(events[k])
    ensures Lived(events).history == History(events) && !Loses(events)
  {
    KeepsAllExactly(events);
    forall k | 0 <= k < |events| ensures !LosesAt(events, k) {
      PlainCodes(events[..k]);
      PlainHistory(events[..k]);
    }
  }

  predicate PlainEvent(e: Event) {
    match e
    case Passage(_, _, _, _, _) => !RecordStops(RecordOf(e))
    case LightChange(_) => true
    case Restart(spot) => C.STOP !in spot
  }

  lemma {:induction false} PlainCodes(events: seq<Event>)
    requires forall k :: 0 <= k < |events| ==> PlainEvent(events[k])
    ensures C.STOP !in Code(events) && C.STOP !in FileCode(events)
  {
    if events != [] {
      PlainCodes(events[..|events| - 1]);
      assert PlainEvent(events[|events| - 1]);
    }
  }

  lemma {:induction false} PlainHistory(events: seq<Event>)
    requires forall k :: 0 <= k < |events| ==> PlainEvent(events[k])
    ensures forall k :: 0 <= k < |History(events)| ==> !RecordStops(History(events)[k])
  {
    if events != [] {
      PlainHistory(events[..|events| - 1]);
      assert PlainEvent(events[|events| - 1]);
    }
  }

  /* ... and one picture name with it, followed by a restart, loses them. */
  lemma StopByteForgets(spot: CText)
    ensures var events := [Passage(1, "", "", [C.STOP], ""), Restart(spot)];
      |History(events)| == 1 && Lived(events).history == [] && Loses(events)
  {
    var pass := Passage(1, "", "", [C.STOP], "");
    var events := [pass, Restart(spot)];
    assert events[..1] == [pass] && [pass][..0] == [];
    var life := Lived([pass]);
    assert life == After(Lived([]), pass);
    assert life.saved.view == [RecordOf(pass)];
    assert RecordStops(life.saved.view[0]);
    assert Spoiled(life.saved.status, life.saved.view);
    assert History([pass]) == [RecordOf(pass)] + History([]) && History(events) == History([pass]);
    assert Lived(events) == After(life, Restart(spot));
    KeepsAllExactly(events);
  }

  // ----- The program.

  datatype File = Missing | Holds(text: string)

  /* The file's text has the tokens of this status and history. */
  ghost predicate Shows(realText: real -> string, file: File, status: Status, view: seq<Record>)
    requires |view| <= HISTORY_MAX
  {
    file.Holds? && L.Lex(file.text) == T.Tokens(realText, RootValue(status, view))
  }

  lemma ShownParses(cfg: P.Config, realText: real -> string, file: File, status: Status, view: seq<Record>)
    requires |view| <= HISTORY_MAX && Shows(realText, file, status, view)
    ensures P.ParseDocument(cfg, file.text, Null) == P.Parse(true, RootValue(status, view), [], [])
  {
    RootGood(status, view);
    RT.ParseOfTokens(cfg, realText, RootValue(status, view), file.text, Null);
  }

  /* Read from a stream, it parses exactly if no text holds the stream's end. */
  lemma ShownStreams(cfg: P.Config, realText: real -> string, file: File, status: Status, view: seq<Record>)
    requires |view| <= HISTORY_MAX && Shows(realText, file, status, view)
    ensures var r := C.ParseStream(cfg, file.text, Null);
      (r.ok <==> !Spoiled(status, view)) && (r.ok ==> r.value == RootValue(status, view))
  {
    RootGood(status, view);
    RootHolds(status, view);
    C.StreamReadsExactly(cfg, realText, RootValue(status, view), file.text, Null);
  }

  /* One start of the program: a new object, filled from the file if there is one that can be read. */
  method StartUp(cfg: P.Config, realText: real -> string, spot: CText, file: File, ghost saved: Saved)
    returns (ps: ParkStatus)
    requires Keeps(realText, file, saved)
    ensures fresh(ps) && fresh(ps.entries) && ps.Valid()
    ensures Readable(saved) ==> ps.view == saved.view && ps.status == saved.status.(spaceCode := Clip(spot, SPACE_CODE_LENGTH))
    ensures !Readable(saved) ==> ps.view == [] && ps.status == BLANK
  {
    ps := new ParkStatus();
    if file.Holds? {
      ShownStreams(cfg, realText, file, saved.status, saved.view);
      DumpTells(saved.status, saved.view, spot);
      Load(ps, cfg, file.text, spot, saved.status.(spaceCode := Clip(spot, SPACE_CODE_LENGTH)), saved.view);
    }
  }

  /* Loading into a blank object: the status and the records that the file tells. */
  method Load(ps: ParkStatus, cfg: P.Config, text: string, spot: CText, ghost status: Status, ghost view: seq<Record>)
    requires ps.Valid() && ps.view == []
    requires |status.plate| < PLATE_LENGTH && |view| <= HISTORY_MAX && forall r :: r in view ==> Fits(r)
    requires C.ParseStream(cfg, text, Null).ok ==> Tells(C.ParseStream(cfg, text, Null).value, spot, status, view)
    modifies ps, ps.entries
    ensures ps.Valid()
    ensures if C.ParseStream(cfg, text, Null).ok then ps.view == view && ps.status == status
            else ps.view == [] && ps.status == old(ps.status)
  {
    ghost var r := C.ParseStream(cfg, text, Null);
    if r.ok { RefillDump(ps.Places(), Elements(Field(r.value, "parkhistory")), view); }
    var ret := ps.LoadFromFile(cfg, text, spot);
    if ret == 0 {
      ps.view := view;
    }
  }

  /* The loader can read this value, and finds this status and these records in it. */
  ghost predicate Tells(root: Value, spot: CText, status: Status, view: seq<Record>) {
    Convertible(root) && ReadStatus(root, spot) == status && ReadBack(Elements(Field(root, "parkhistory")), view)
  }

  lemma DumpTells(status: Status, view: seq<Record>, spot: CText)
    requires |status.plate| < PLATE_LENGTH && |view| <= HISTORY_MAX && forall r :: r in view ==> Fits(r)
    ensures Tells(RootValue(status, view), spot, status.(spaceCode := Clip(spot, SPACE_CODE_LENGTH)), view)
  {
    DumpIsConvertible(status, view);
    StatusRoundTrip(status, view, spot);
    HistoryRoundTrip(status, view);
  }

  lemma RefillDump(blank: Ring, xs: seq<Value>, view: seq<Record>)
    requires Represents(blank.es, blank.current, []) && |view| <= HISTORY_MAX && ReadBack(xs, view)
    ensures Represents(Refill(blank, ItemEntry, xs).es, Refill(blank, ItemEntry, xs).current, view)
  {
    RefillRepresents(blank, ItemEntry, xs, view, []);
    assert view + [] == view;
  }

  /* The file is what was saved. */
  ghost predicate Keeps(realText: real -> string, file: File, saved: Saved) {
    && (file.Holds? <==> saved.Saved?)
    && (saved.Saved? ==> |saved.view| <= HISTORY_MAX && Shows(realText, file, saved.status, saved.view))
    && (saved.Saved? ==> |saved.status.plate| < PLATE_LENGTH && forall r :: r in saved.view ==> Fits(r))
  }

  /* push_record_2_history_list: a light change or a passage, and the file rewritten. */
  method Change(ps: ParkStatus, realText: real -> string, e: Event) returns (file: File)
    requires ps.Valid() && W.WritesNumbers(realText) && EventFits(e) && !e.Restart?
    modifies ps, ps.entries
    ensures ps.Valid() && Keeps(realText, file, Saved(ps.status, ps.view))
    ensures e.LightChange? ==> ps.view == old(ps.view) && ps.status == old(ps.status).(light := LightFrom(e.name))
    ensures e.Passage? ==> ps.view == Newest([RecordOf(e)] + old(ps.view))
    ensures e.Passage? ==> ps.status == AfterPassage(old(ps.status), e.objectState, e.plate)
  {
    if e.LightChange? {
      ps.status := ps.status.(light := LightFrom(e.name));
    } else {
      ps.PushRecord(e.objectState, e.plate, e.time, e.pic1, e.pic2);
    }
    var text := ps.DumpToFile(realText);
    file := Holds(text);
  }

  /* The program and its file are where the events left them. */
  ghost predicate Follows(ps: ParkStatus, realText: real -> string, file: File, life: Life)
    reads ps, ps.entries
  {
    && ps.Valid() && ps.view == Newest(life.history) && ps.status == life.status
    && Keeps(realText, file, life.saved) && (Readable(life.saved) ==> life.saved.view == Newest(life.history))
  }

  method Step(cfg: P.Config, ps: ParkStatus, realText: real -> string, file: File, ghost life: Life, e: Event)
    returns (ps': ParkStatus, file': File)
    requires Follows(ps, realText, file, life) && W.WritesNumbers(realText) && EventFits(e)
    modifies ps, ps.entries
    ensures ps' == ps || (fresh(ps') && fresh(ps'.entries))
    ensures Follows(ps', realText, file', After(life, e))
  {
    if e.Restart? {
      ps' := StartUp(cfg, realText, e.spot, file, life.saved);
      file' := file;
    } else {
      ps' := ps;
      file' := Change(ps, realText, e);
      if e.Passage? { NewestOfNewest(RecordOf(e), life.history); }
    }
  }

  /* After any events, with restarts anywhere between them, the file holds what the program's life left in it;
     as long as no restart loses records by the condition above, that is the status and exactly the ten most recent
     records (or all, if fewer), newest first. */
  method Live(cfg: P.Config, realText: real -> string, events: seq<Event>) returns (file: File)
    requires W.WritesNumbers(realText) && forall e :: e in events ==> EventFits(e)
    ensures var saved := Lived(events).saved;
      && (file.Holds? <==> saved.Saved?)
      && (file.Holds? ==> |saved.view| <= HISTORY_MAX &&
                          P.ParseDocument(cfg, file.text, Null) == P.Parse(true, RootValue(saved.status, saved.view), [], []))
    ensures !Loses(events) ==> (file.Holds? <==> Written(events))
    ensures file.Holds? && !Loses(events) ==>
              Lived(events).saved.view == Newest(History(events)) && TellsNewest(Lived(events).saved.status, History(events))
  {
    file := Missing;
    var ps := StartUp(cfg, realText, "", file, Nothing);
    var i := 0;
    while i < |events|
      invariant 0 <= i <= |events| && fresh(ps) && fresh(ps.entries)
      invariant Follows(ps, realText, file, Lived(events[..i]))
    {
      assert events[i] in events;
      ps, file := Step(cfg, ps, realText, file, Lived(events[..i]), events[i]);
      LivedSnoc(events, i);
      i := i + 1;
    }
    assert events[..i] == events;
    KeepsAllExactly(events);
    ghost var saved := Lived(events).saved;
    if file.Holds? { ShownParses(cfg, realText, file, saved.status, saved.view); }
  }

  lemma LivedSnoc(events: seq<Event>, i: nat)
    requires i < |events|
    ensures Lived(events[..i + 1]) == After(Lived(events[..i]), events[i])
  {
    assert events[..i + 1][..i] == events[..i];
  }
}
