/** The two JSON event handlers, for external fact files and for GCE metadata: an automaton with a stack of open
    containers, and the proof that it computes a recursive reading of the document. */
module JsonEvents {
  import opened Values
  import opened Text

  // ----- Documents and their events -----

  datatype Json =
    | JNull
    | JBool(flag: bool)
    | JInteger(number: int)
    | JDouble(double: real)
    | JString(text: string)
    | JArray(elements: seq<Json>)
    | JObject(members: seq<Member>)

  datatype Member = Member(name: string, value: Json)

  datatype Event =
    | Null
    | Bool(flag: bool)
    | Integer(number: int)
    | Double(double: real)
    | String(text: string)
    | StartObject
    | EndObject
    | StartArray
    | EndArray

  function EventsOf(t: Json): seq<Event> {
    match t
    case JNull => [Null]
    case JBool(flag) => [Bool(flag)]
    case JInteger(number) => [Integer(number)]
    case JDouble(double) => [Double(double)]
    case JString(text) => [String(text)]
    case JArray(elements) => [StartArray] + EventsOfElements(elements) + [EndArray]
    case JObject(members) => [StartObject] + EventsOfMembers(members) + [EndObject]
  }

  function EventsOfElements(elements: seq<Json>): seq<Event> {
    if elements == [] then [] else EventsOf(elements[0]) + EventsOfElements(elements[1..])
  }

  function EventsOfMembers(members: seq<Member>): seq<Event> {
    if members == [] then []
    else [String(members[0].name)] + EventsOf(members[0].value) + EventsOfMembers(members[1..])
  }

  // ----- The handler -----

  /** The handler for external fact files adds top-level members as facts; the one for GCE collects them in a map
      and rewrites some strings. */
  datatype Dialect = External | Gce

  datatype Error = NotAnObject | EmptyKey

  /** A container being built, with the key it will be stored under. */
  datatype Frame = Frame(key: string, value: Value)

  datatype Handler = Handler(initialized: bool, key: string, stack: seq<Frame>, facts: map<string, Value>)

  /** After an event: the handler goes on, or it has thrown, leaving the facts added so far. */
  datatype Fed = Ok(handler: Handler) | Thrown(error: Error, facts: map<string, Value>)

  /** A C string ends at its first NUL. */
  function CText(s: string): string {
    if s == "" || s[0] == '\0' then "" else [s[0]] + CText(s[1..])
  }

  function LowerChar(c: char): char {
    if 'A' <= c <= 'Z' then (c as int + 32) as char else c
  }

  function Lower(s: string): string {
    seq(|s|, i requires 0 <= i < |s| => LowerChar(s[i]))
  }

  /** Every integer event ends in a cast to a signed 64-bit integer. */
  function Wrapped(n: int): int {
    var m := n % 0x1_0000_0000_0000_0000;
    if m >= 0x8000_0000_0000_0000 then m - 0x1_0000_0000_0000_0000 else m
  }

  predicate IsLineFeed(c: char) { c == '\n' }

  /** What comes after the last slash. */
  function AfterSlash(s: string): string {
    if s == "" then ""
    else if '/' in s[1..] then AfterSlash(s[1..])
    else if s[0] == '/' then s[1..]
    else s
  }

  function StringValues(texts: seq<string>): seq<Value> {
    if texts == [] then [] else [StringValue(texts[0])] + StringValues(texts[1..])
  }

  /** A string value under a key. */
  function TextValue(d: Dialect, key: string, text: string): Value {
    if d.External? then StringValue(CText(text))
    else if key == "sshKeys" then ArrayValue(StringValues(Tokens(IsLineFeed, Trim(text))))
    else if key in ["image", "machineType", "zone", "network"] then StringValue(AfterSlash(text))
    else StringValue(text)
  }

  /** emplace: the first value under a key stays. */
  function Emplaced(entries: map<string, Value>, key: string, value: Value): map<string, Value> {
    if key in entries then entries else entries[key := value]
  }

  /** A top-level member: the collection lower-cases and replaces, the root map keeps the first. */
  function Stored(d: Dialect, facts: map<string, Value>, key: string, value: Value): map<string, Value> {
    if d.External? then facts[Lower(key) := value] else Emplaced(facts, key, value)
  }

  function Top(h: Handler): Value
    requires h.stack != []
  {
    h.stack[|h.stack| - 1].value
  }

  function WithTop(h: Handler, value: Value): Handler
    requires h.stack != []
  {
    h.(stack := h.stack[|h.stack| - 1 := h.stack[|h.stack| - 1].(value := value)])
  }

  function AddValue(d: Dialect, h: Handler, value: Value): Fed {
    if !h.initialized then Thrown(NotAnObject, h.facts)
    else if h.stack == [] then
      if h.key == "" then Thrown(EmptyKey, h.facts)
      else Ok(h.(key := "", facts := Stored(d, h.facts, h.key, value)))
    else if Top(h).ArrayValue? then Ok(WithTop(h, ArrayValue(Top(h).elements + [value])))
    else if Top(h).MapValue? then
      if h.key == "" then Thrown(EmptyKey, h.facts)
      else Ok(WithTop(h, MapValue(Emplaced(Top(h).entries, h.key, value))).(key := ""))
    else Ok(h)
  }

  function Push(h: Handler, value: Value): Handler {
    h.(stack := h.stack + [Frame(h.key, value)], key := "")
  }

  /** Close the innermost container: restore its key and add it where it belongs. */
  function Pop(d: Dialect, h: Handler): Fed
    requires h.stack != []
  {
    var last := |h.stack| - 1;
    AddValue(d, h.(stack := h.stack[..last], key := h.stack[last].key), Top(h))
  }

  predicate ExpectsKey(h: Handler) {
    (h.stack == [] || Top(h).MapValue?) && h.key == ""
  }

  function Step(d: Dialect, h: Handler, e: Event): Fed {
    match e
    case Null => if h.initialized then Ok(h.(key := "")) else Thrown(NotAnObject, h.facts)
    case Bool(flag) => AddValue(d, h, BooleanValue(flag))
    case Integer(number) => AddValue(d, h, IntegerValue(Wrapped(number)))
    case Double(double) => AddValue(d, h, DoubleValue(double))
    case String(text) =>
      if ExpectsKey(h) then if h.initialized then Ok(h.(key := CText(text))) else Thrown(NotAnObject, h.facts)
      else AddValue(d, h, TextValue(d, h.key, text))
    case StartObject => Ok(if h.initialized then Push(h, MapValue(map[])) else h.(initialized := true))
    case EndObject => if h.stack == [] then Ok(h) else Pop(d, h)
    case StartArray => if h.initialized then Ok(Push(h, ArrayValue([]))) else Thrown(NotAnObject, h.facts)
    case EndArray => if h.stack == [] then Ok(h) else Pop(d, h)
  }

  function Feed(d: Dialect, h: Handler, events: seq<Event>): Fed
    decreases |events|
  {
    if events == [] then Ok(h)
    else
      var fed := Step(d, h, events[0]);
      if fed.Ok? then Feed(d, fed.handler, events[1..]) else fed
  }

  function Initial(facts: map<string, Value>): Handler {
    Handler(false, "", [], facts)
  }

  // ----- What a document says -----

  /** A null is absent; a member without a key is bad unless it is null. */
  datatype Reading = Absent | Present(value: Value) | Bad

  /** Store a member of the top-level object or of a nested one. */
  function Put(d: Dialect, top: bool, entries: map<string, Value>, key: string, value: Value): map<string, Value> {
    if top then Stored(d, entries, key, value) else Emplaced(entries, key, value)
  }

  function Read(d: Dialect, key: string, t: Json): Reading
    decreases t
  {
    match t
    case JNull => Absent
    case JBool(flag) => Present(BooleanValue(flag))
    case JInteger(number) => Present(IntegerValue(Wrapped(number)))
    case JDouble(double) => Present(DoubleValue(double))
    case JString(text) => Present(TextValue(d, key, text))
    case JArray(elements) => ReadElements(d, elements, [])
    case JObject(members) =>
      var (entries, readable) := ReadMembers(d, false, members, map[]);
      if readable then Present(MapValue(entries)) else Bad
  }

  function ReadElements(d: Dialect, elements: seq<Json>, before: seq<Value>): (r: Reading)
    ensures !r.Absent?
    decreases elements
  {
    if elements == [] then Present(ArrayValue(before))
    else
      match Read(d, "", elements[0])
      case Absent => ReadElements(d, elements[1..], before)
      case Present(value) => ReadElements(d, elements[1..], before + [value])
      case Bad => Bad
  }

  /** An object: the entries it leaves, and whether all of it could be read. */
  function ReadMembers(d: Dialect, top: bool, members: seq<Member>, before: map<string, Value>)
    : (map<string, Value>, bool)
    decreases members
  {
    if members == [] then (before, true)
    else
      var key := CText(members[0].name);
      match Read(d, key, members[0].value)
      case Absent => ReadMembers(d, top, members[1..], before)
      case Present(value) =>
        if key == "" then (before, false) else ReadMembers(d, top, members[1..], Put(d, top, before, key, value))
      case Bad => (before, false)
  }

  /** What feeding a whole document should come to. */
  function ReadDocument(d: Dialect, t: Json, facts: map<string, Value>): Fed {
    if !t.JObject? then Thrown(NotAnObject, facts)
    else
      var (after, readable) := ReadMembers(d, true, t.members, facts);
      if readable then Ok(Handler(true, "", [], after)) else Thrown(EmptyKey, after)
  }

  // ----- What the handler takes it to say -----

  /** An object being read, with the key that is waiting for its value. */
  datatype Place = Place(entries: map<string, Value>, key: string, readable: bool)

  function Placed(d: Dialect, top: bool, p: Place, r: Reading): Place {
    match r
    case Absent => p.(key := "")
    case Present(value) =>
      if p.key == "" then p.(readable := false) else Place(Put(d, top, p.entries, p.key, value), "", p.readable)
    case Bad => p.(readable := false)
  }

  /** In an object any string, a name or a value, is the key when none is waiting, and else the waiting key's value. */
  function TakeText(d: Dialect, top: bool, p: Place, text: string): Place {
    if p.key == "" then p.(key := CText(text)) else Placed(d, top, p, Present(TextValue(d, p.key, text)))
  }

  /** As Read, but for objects. */
  function Take(d: Dialect, key: string, t: Json): Reading
    decreases t
  {
    match t
    case JNull => Absent
    case JBool(flag) => Present(BooleanValue(flag))
    case JInteger(number) => Present(IntegerValue(Wrapped(number)))
    case JDouble(double) => Present(DoubleValue(double))
    case JString(text) => Present(TextValue(d, key, text))
    case JArray(elements) => TakeElements(d, elements, [])
    case JObject(members) =>
      var p := TakeMembers(d, false, members, Place(map[], "", true));
      if p.readable then Present(MapValue(p.entries)) else Bad
  }

  function TakeElements(d: Dialect, elements: seq<Json>, before: seq<Value>): (r: Reading)
    ensures !r.Absent?
    decreases elements
  {
    if elements == [] then Present(ArrayValue(before))
    else
      match Take(d, "", elements[0])
      case Absent => TakeElements(d, elements[1..], before)
      case Present(value) => TakeElements(d, elements[1..], before + [value])
      case Bad => Bad
  }

  function TakeMembers(d: Dialect, top: bool, members: seq<Member>, p: Place): Place
    decreases members
  {
    if members == [] || !p.readable then p
    else
      var value := members[0].value;
      var named := TakeText(d, top, p, members[0].name);
      TakeMembers(d, top, members[1..],
                  if value.JString? then TakeText(d, top, named, value.text)
                  else Placed(d, top, named, Take(d, named.key, value)))
  }

  function TakeDocument(d: Dialect, t: Json, facts: map<string, Value>): Fed {
    if !t.JObject? then Thrown(NotAnObject, facts)
    else
      var p := TakeMembers(d, true, t.members, Place(facts, "", true));
      if p.readable then Ok(Handler(true, p.key, [], p.entries)) else Thrown(EmptyKey, p.entries)
  }

  // ----- The automaton computes it -----

  lemma {:induction false} FeedConcat(d: Dialect, h: Handler, a: seq<Event>, b: seq<Event>)
    ensures Feed(d, h, a + b) ==
            var fed := Feed(d, h, a); if fed.Ok? then Feed(d, fed.handler, b) else fed
    decreases |a|
  {
    if a == [] {
      assert a + b == b;
    } else {
      assert (a + b)[0] == a[0] && (a + b)[1..] == a[1..] + b;
      if Step(d, h, a[0]).Ok? {
        FeedConcat(d, Step(d, h, a[0]).handler, a[1..], b);
      }
    }
  }

  lemma FeedOne(d: Dialect, h: Handler, e: Event)
    ensures Feed(d, h, [e]) == Step(d, h, e)
  {
    assert [e][1..] == [];
  }

  /** An opening event, what is inside, and a closing event. */
  lemma FeedBracketed(d: Dialect, h: Handler, open: Event, inside: seq<Event>, close: Event)
    requires Step(d, h, open).Ok?
    ensures Feed(d, h, [open] + inside + [close]) ==
            var fed := Feed(d, Step(d, h, open).handler, inside); if fed.Ok? then Step(d, fed.handler, close) else fed
  {
    FeedConcat(d, h, [open] + inside, [close]);
    FeedConcat(d, h, [open], inside);
    FeedOne(d, h, open);
    var next := Feed(d, Step(d, h, open).handler, inside);
    if next.Ok? {
      FeedOne(d, next.handler, close);
    }
  }

  ghost predicate InObject(h: Handler) {
    h.initialized && (h.stack == [] || Top(h).MapValue?)
  }

  ghost predicate InArray(h: Handler) {
    h.initialized && h.key == "" && h.stack != [] && Top(h).ArrayValue?
  }

  function PlaceOf(h: Handler): Place
    requires h.stack == [] || Top(h).MapValue?
  {
    Place(if h.stack == [] then h.facts else Top(h).entries, h.key, true)
  }

  /** The handler once its innermost object has become this. */
  function Become(h: Handler, p: Place): Fed
    requires h.stack == [] || Top(h).MapValue?
  {
    if !p.readable then Thrown(EmptyKey, if h.stack == [] then p.entries else h.facts)
    else if h.stack == [] then Ok(h.(key := p.key, facts := p.entries))
    else Ok(WithTop(h, MapValue(p.entries)).(key := p.key))
  }

  lemma BecomeAgain(h: Handler, p: Place)
    requires InObject(h) && p.readable
    ensures var u := Become(h, p).handler;
            InObject(u) && PlaceOf(u) == p && (u.stack == [] <==> h.stack == []) && forall q :: Become(u, q) == Become(h, q)
  {
  }

  lemma BecomeSame(h: Handler)
    requires InObject(h)
    ensures Become(h, PlaceOf(h)) == Ok(h)
  {
    if h.stack != [] {
      assert WithTop(h, Top(h)) == h;
    }
  }

  function Delivered(d: Dialect, h: Handler, r: Reading): Fed {
    match r
    case Absent => Ok(h.(key := ""))
    case Present(value) => AddValue(d, h, value)
    case Bad => Thrown(EmptyKey, h.facts)
  }

  lemma DeliveredBecomes(d: Dialect, h: Handler, r: Reading)
    requires InObject(h)
    ensures Delivered(d, h, r) == Become(h, Placed(d, h.stack == [], PlaceOf(h), r))
  {
    BecomeSame(h);
  }

  lemma TextBecomes(d: Dialect, h: Handler, text: string)
    requires InObject(h)
    ensures Step(d, h, String(text)) == Become(h, TakeText(d, h.stack == [], PlaceOf(h), text))
    ensures TakeText(d, h.stack == [], PlaceOf(h), text).readable
  {
    BecomeSame(h);
    if h.key != "" {
      DeliveredBecomes(d, h, Present(TextValue(d, h.key, text)));
    }
  }

  /** The events of a value, wherever it is due. */
  lemma {:induction false} FeedValue(d: Dialect, h: Handler, t: Json)
    requires InObject(h) || InArray(h)
    ensures Feed(d, h, EventsOf(t)) ==
            if t.JString? && ExpectsKey(h) then Ok(h.(key := CText(t.text))) else Delivered(d, h, Take(d, h.key, t))
    decreases t, 0
  {
    match t
    case JArray(elements) =>
      var inner := Push(h, ArrayValue([]));
      FeedBracketed(d, h, StartArray, EventsOfElements(elements), EndArray);
      FeedElements(d, inner, elements);
      PopArray(d, h, TakeElements(d, elements, []));
    case JObject(members) =>
      var inner := Push(h, MapValue(map[]));
      FeedBracketed(d, h, StartObject, EventsOfMembers(members), EndObject);
      FeedMembers(d, inner, members);
      PopObject(d, h, TakeMembers(d, false, members, Place(map[], "", true)));
    case _ =>
      FeedOne(d, h, EventsOf(t)[0]);
  }

  /** The array on top becomes what was read into it. */
  function Filled(h: Handler, r: Reading): Fed
    requires h.stack != []
  {
    match r
    case Present(value) => Ok(WithTop(h, value))
    case _ => Thrown(EmptyKey, h.facts)
  }

  /** Closing what was opened here delivers it here. */
  lemma PopArray(d: Dialect, h: Handler, r: Reading)
    requires !r.Absent?
    ensures var filled := Filled(Push(h, ArrayValue([])), r);
            Delivered(d, h, r) == if filled.Ok? then Step(d, filled.handler, EndArray) else filled
  {
    var inner := Push(h, ArrayValue([]));
    if r.Present? {
      var filled := Filled(inner, r).handler;
      assert filled.stack[..|filled.stack| - 1] == h.stack;
    }
  }

  /** A key that is left over inside an object goes with it. */
  lemma PopObject(d: Dialect, h: Handler, p: Place)
    ensures var filled := Become(Push(h, MapValue(map[])), p);
            Delivered(d, h, if p.readable then Present(MapValue(p.entries)) else Bad) ==
            if filled.Ok? then Step(d, filled.handler, EndObject) else filled
  {
    if p.readable {
      var filled := Become(Push(h, MapValue(map[])), p).handler;
      assert filled.stack[..|filled.stack| - 1] == h.stack;
    }
  }

  lemma {:induction false} FeedElements(d: Dialect, h: Handler, elements: seq<Json>)
    requires InArray(h)
    ensures Feed(d, h, EventsOfElements(elements)) == Filled(h, TakeElements(d, elements, Top(h).elements))
    decreases elements, 1
  {
    if elements == [] {
      assert WithTop(h, Top(h)) == h;
    } else {
      FeedConcat(d, h, EventsOf(elements[0]), EventsOfElements(elements[1..]));
      FeedValue(d, h, elements[0]);
      var r := Take(d, "", elements[0]);
      if !r.Bad? {
        var next := Delivered(d, h, r).handler;
        FeedElements(d, next, elements[1..]);
      }
    }
  }

  /** The name of a member, its value, and the members after it. */
  lemma FeedMember(d: Dialect, h: Handler, members: seq<Member>)
    requires members != [] && Step(d, h, String(members[0].name)).Ok?
    ensures Feed(d, h, EventsOfMembers(members)) ==
            var fed := Feed(d, Step(d, h, String(members[0].name)).handler, EventsOf(members[0].value));
            if fed.Ok? then Feed(d, fed.handler, EventsOfMembers(members[1..])) else fed
  {
    var name := [String(members[0].name)];
    FeedConcat(d, h, name + EventsOf(members[0].value), EventsOfMembers(members[1..]));
    FeedConcat(d, h, name, EventsOf(members[0].value));
    FeedOne(d, h, name[0]);
  }

  lemma {:induction false} FeedMembers(d: Dialect, h: Handler, members: seq<Member>)
    requires InObject(h)
    ensures Feed(d, h, EventsOfMembers(members)) == Become(h, TakeMembers(d, h.stack == [], members, PlaceOf(h)))
    decreases members, 1
  {
    if members == [] {
      BecomeSame(h);
    } else {
      var top, value := h.stack == [], members[0].value;
      var named := TakeText(d, top, PlaceOf(h), members[0].name);
      TextBecomes(d, h, members[0].name);
      BecomeAgain(h, named);
      FeedMember(d, h, members);
      var u := Become(h, named).handler;
      FeedValue(d, u, value);
      var next := if value.JString? then TakeText(d, top, named, value.text)
                  else Placed(d, top, named, Take(d, named.key, value));
      ValueBecomes(d, u, value);
      if next.readable {
        BecomeAgain(h, next);
        FeedMembers(d, Become(h, next).handler, members[1..]);
      }
    }
  }

  lemma ValueBecomes(d: Dialect, h: Handler, t: Json)
    requires InObject(h)
    ensures (if t.JString? && ExpectsKey(h) then Ok(h.(key := CText(t.text))) else Delivered(d, h, Take(d, h.key, t))) ==
            var top := h.stack == [];
            Become(h, if t.JString? then TakeText(d, top, PlaceOf(h), t.text)
                      else Placed(d, top, PlaceOf(h), Take(d, h.key, t)))
  {
    DeliveredBecomes(d, h, Take(d, h.key, t));
    BecomeSame(h);
  }

  /** Feeding the events of any document whatever: what the handler takes it to say. */
  lemma HandlerTakes(d: Dialect, t: Json, facts: map<string, Value>)
    ensures Feed(d, Initial(facts), EventsOf(t)) == TakeDocument(d, t, facts)
  {
    var h := Initial(facts);
    match t
    case JObject(members) =>
      FeedBracketed(d, h, StartObject, EventsOfMembers(members), EndObject);
      FeedMembers(d, h.(initialized := true), members);
    case JArray(elements) =>
      assert EventsOf(t)[0] == StartArray;
    case _ =>
      FeedOne(d, h, EventsOf(t)[0]);
  }

  // ----- Documents that are taken as they are meant -----

  /** No member with an empty key has a string for its value. */
  predicate Safe(t: Json) {
    match t
    case JArray(elements) => SafeElements(elements)
    case JObject(members) => SafeMembers(members)
    case _ => true
  }

  predicate SafeElements(elements: seq<Json>) {
    elements != [] ==> Safe(elements[0]) && SafeElements(elements[1..])
  }

  predicate SafeMembers(members: seq<Member>) {
    members != [] ==>
      && (members[0].value.JString? ==> CText(members[0].name) != "")
      && Safe(members[0].value) && SafeMembers(members[1..])
  }

  lemma {:induction false} SafeTaken(d: Dialect, key: string, t: Json)
    requires Safe(t)
    ensures Take(d, key, t) == Read(d, key, t)
    decreases t, 0
  {
    match t
    case JArray(elements) => SafeElementsTaken(d, elements, []);
    case JObject(members) => SafeMembersTaken(d, false, members, map[]);
    case _ =>
  }

  lemma {:induction false} SafeElementsTaken(d: Dialect, elements: seq<Json>, before: seq<Value>)
    requires SafeElements(elements)
    ensures TakeElements(d, elements, before) == ReadElements(d, elements, before)
    decreases elements, 1
  {
    if elements != [] {
      SafeTaken(d, "", elements[0]);
      var r := Read(d, "", elements[0]);
      SafeElementsTaken(d, elements[1..], if r.Present? then before + [r.value] else before);
    }
  }

  lemma {:induction false} SafeMembersTaken(d: Dialect, top: bool, members: seq<Member>, before: map<string, Value>)
    requires SafeMembers(members)
    ensures var p := TakeMembers(d, top, members, Place(before, "", true));
            (p.entries, p.readable) == ReadMembers(d, top, members, before) && (p.readable ==> p.key == "")
    decreases members, 1
  {
    if members != [] {
      var key := CText(members[0].name);
      SafeTaken(d, key, members[0].value);
      var r := Read(d, key, members[0].value);
      if r.Absent? {
        SafeMembersTaken(d, top, members[1..], before);
      } else if r.Present? && key != "" {
        SafeMembersTaken(d, top, members[1..], Put(d, top, before, key, r.value));
      }
    }
  }

  /** Such a document is read as it is meant, with an empty stack and no key left over; or it ends in an exception
      where it should, when it is no object or a member that has a value has no key. */
  lemma HandlerReads(d: Dialect, t: Json, facts: map<string, Value>)
    requires Safe(t)
    ensures Feed(d, Initial(facts), EventsOf(t)) == ReadDocument(d, t, facts)
  {
    HandlerTakes(d, t, facts);
    if t.JObject? {
      SafeMembersTaken(d, true, t.members, facts);
    }
  }

  // ----- Documents whose values all have keys -----

  /** Every member has a key, or no value. */
  predicate Keyed(t: Json) {
    match t
    case JArray(elements) => KeyedElements(elements)
    case JObject(members) => KeyedMembers(members)
    case _ => true
  }

  predicate KeyedElements(elements: seq<Json>) {
    elements != [] ==> Keyed(elements[0]) && KeyedElements(elements[1..])
  }

  predicate KeyedMembers(members: seq<Member>) {
    members != [] ==>
      && (members[0].value.JNull? || CText(members[0].name) != "")
      && Keyed(members[0].value) && KeyedMembers(members[1..])
  }

  lemma {:induction false} KeyedReads(d: Dialect, key: string, t: Json)
    ensures (Keyed(t) <==> !Read(d, key, t).Bad?) && (Keyed(t) ==> Safe(t))
    decreases t, 0
  {
    match t
    case JArray(elements) => KeyedElementsRead(d, elements, []);
    case JObject(members) => KeyedMembersRead(d, false, members, map[]);
    case _ =>
  }

  lemma {:induction false} KeyedElementsRead(d: Dialect, elements: seq<Json>, before: seq<Value>)
    ensures KeyedElements(elements) <==> ReadElements(d, elements, before).Present?
    ensures KeyedElements(elements) ==> SafeElements(elements)
    decreases elements, 1
  {
    if elements != [] {
      KeyedReads(d, "", elements[0]);
      var r := Read(d, "", elements[0]);
      KeyedElementsRead(d, elements[1..], if r.Present? then before + [r.value] else before);
    }
  }

  lemma {:induction false} KeyedMembersRead(d: Dialect, top: bool, members: seq<Member>, before: map<string, Value>)
    ensures KeyedMembers(members) <==> ReadMembers(d, top, members, before).1
    ensures KeyedMembers(members) ==> SafeMembers(members)
    decreases members, 1
  {
    if members != [] {
      var key := CText(members[0].name);
      KeyedReads(d, key, members[0].value);
      var r := Read(d, key, members[0].value);
      KeyedMembersRead(d, top, members[1..], if r.Present? then Put(d, top, before, key, r.value) else before);
    }
  }

  /** A document should be accepted exactly when it is an object in which every member that has a value has a key;
      and then it is, and is read as it is meant. */
  lemma KeyedDocumentReads(d: Dialect, t: Json, facts: map<string, Value>)
    ensures ReadDocument(d, t, facts).Ok? <==> t.JObject? && Keyed(t)
    ensures !t.JObject? ==> Feed(d, Initial(facts), EventsOf(t)) == Thrown(NotAnObject, facts)
    ensures t.JObject? && Keyed(t) ==> Feed(d, Initial(facts), EventsOf(t)) == ReadDocument(d, t, facts)
  {
    if t.JObject? {
      KeyedMembersRead(d, true, t.members, facts);
      if Keyed(t) {
        HandlerReads(d, t, facts);
      }
    } else {
      HandlerTakes(d, t, facts);
    }
  }

  // ----- Documents that are accepted -----

  /** Whether a key is left waiting after the members of an object, given whether one is waiting before them; none
      when a value that is neither a string nor null finds no key waiting, or is not acceptable itself. */
  function KeyLeft(members: seq<Member>, waiting: bool): Option<bool>
    decreases members
  {
    if members == [] then Some(waiting)
    else
      var named := !waiting && CText(members[0].name) != "";
      match members[0].value
      case JString(text) => KeyLeft(members[1..], !named && CText(text) != "")
      case JNull => KeyLeft(members[1..], false)
      case value => if named && Acceptable(value) then KeyLeft(members[1..], false) else None
  }

  predicate Acceptable(t: Json)
    decreases t
  {
    match t
    case JArray(elements) => AcceptableElements(elements)
    case JObject(members) => KeyLeft(members, false).Some?
    case _ => true
  }

  predicate AcceptableElements(elements: seq<Json>)
    decreases elements
  {
    elements != [] ==> Acceptable(elements[0]) && AcceptableElements(elements[1..])
  }

  lemma {:induction false} AcceptableTaken(d: Dialect, key: string, t: Json)
    ensures Acceptable(t) <==> !Take(d, key, t).Bad?
    decreases t, 0
  {
    match t
    case JArray(elements) => AcceptableElementsTaken(d, elements, []);
    case JObject(members) => AcceptableMembersTaken(d, false, members, Place(map[], "", true));
    case _ =>
  }

  lemma {:induction false} AcceptableElementsTaken(d: Dialect, elements: seq<Json>, before: seq<Value>)
    ensures AcceptableElements(elements) <==> TakeElements(d, elements, before).Present?
    decreases elements, 1
  {
    if elements != [] {
      AcceptableTaken(d, "", elements[0]);
      var r := Take(d, "", elements[0]);
      AcceptableElementsTaken(d, elements[1..], if r.Present? then before + [r.value] else before);
    }
  }

  lemma {:induction false} AcceptableMembersTaken(d: Dialect, top: bool, members: seq<Member>, p: Place)
    requires p.readable
    ensures var q := TakeMembers(d, top, members, p);
            KeyLeft(members, p.key != "") == if q.readable then Some(q.key != "") else None
    decreases members, 1
  {
    if members != [] {
      var value := members[0].value;
      var named := TakeText(d, top, p, members[0].name);
      AcceptableTaken(d, named.key, value);
      var next := if value.JString? then TakeText(d, top, named, value.text)
                  else Placed(d, top, named, Take(d, named.key, value));
      if next.readable {
        AcceptableMembersTaken(d, top, members[1..], next);
      }
    }
  }

  /** The handler accepts a document exactly when it is an object in which, strings being taken for keys and values by
      turns, every other value finds a key. */
  lemma AcceptedExactly(d: Dialect, t: Json, facts: map<string, Value>)
    ensures Feed(d, Initial(facts), EventsOf(t)).Ok? <==> t.JObject? && Acceptable(t)
  {
    HandlerTakes(d, t, facts);
    if t.JObject? {
      AcceptableMembersTaken(d, true, t.members, Place(facts, "", true));
    }
  }

  /** Where a key is due, in an object at any depth: an empty key is noticed exactly when its value is neither null nor
      a string. A string is taken for the key. */
  lemma EmptyKeyNoticedExactly(d: Dialect, h: Handler, m: Member)
    requires InObject(h) && h.key == "" && CText(m.name) == ""
    ensures var fed := Feed(d, h, [String(m.name)] + EventsOf(m.value));
            && (fed == Thrown(EmptyKey, h.facts) <==> !m.value.JNull? && !m.value.JString?)
            && (m.value.JString? ==> fed == Ok(h.(key := CText(m.value.text))))
            && (m.value.JNull? ==> fed == Ok(h))
  {
    FeedConcat(d, h, [String(m.name)], EventsOf(m.value));
    FeedOne(d, h, String(m.name));
    FeedValue(d, h, m.value);
  }

  /** An empty key before a string is not noticed: the string is taken for the key, nothing is added, and the
      document ends without an exception. */
  lemma EmptyKeyMisread(d: Dialect, text: string, facts: map<string, Value>)
    requires CText(text) != ""
    ensures var t := JObject([Member("", JString(text))]);
            && ReadDocument(d, t, facts) == Thrown(EmptyKey, facts)
            && Feed(d, Initial(facts), EventsOf(t)) == Ok(Handler(true, CText(text), [], facts))
  {
    var t := JObject([Member("", JString(text))]);
    var p := Place(facts, CText(text), true);
    assert t.members[1..] == [] && TakeMembers(d, true, [], p) == p;
    assert Read(d, "", JString(text)).Present?;
    assert TakeText(d, true, Place(facts, "", true), t.members[0].name) == Place(facts, "", true);
    HandlerTakes(d, t, facts);
  }

  // ----- Which of several members with one key counts -----

  /** The readings of the members with this key, in order, nulls left out. */
  function ReadingsOf(d: Dialect, members: seq<Member>, key: string): seq<Value> {
    if members == [] then []
    else
      var r := Read(d, CText(members[0].name), members[0].value);
      (if CText(members[0].name) == key && r.Present? then [r.value] else []) + ReadingsOf(d, members[1..], key)
  }

  /** In a nested map, and in the root map for GCE, the first value under a key counts. */
  lemma {:induction false} FirstMemberWins(d: Dialect, top: bool, members: seq<Member>, before: map<string, Value>,
                                           key: string)
    requires !(top && d.External?) && ReadMembers(d, top, members, before).1
    ensures var values := ReadingsOf(d, members, key);
            Lookup(ReadMembers(d, top, members, before).0, key) ==
            if key in before then Some(before[key]) else if values == [] then None else Some(values[0])
    decreases members
  {
    if members != [] {
      var name := CText(members[0].name);
      var r := Read(d, name, members[0].value);
      FirstMemberWins(d, top, members[1..], if r.Present? then Emplaced(before, name, r.value) else before, key);
    }
  }

  /** The readings of the top-level members whose lower-cased key is this one. */
  function ReadingsOfFact(d: Dialect, members: seq<Member>, key: string): seq<Value> {
    if members == [] then []
    else
      var r := Read(d, CText(members[0].name), members[0].value);
      (if Lower(CText(members[0].name)) == key && r.Present? then [r.value] else []) +
      ReadingsOfFact(d, members[1..], key)
  }

  /** Among external facts whose names differ in case only, the last value counts. */
  lemma {:induction false} LastFactWins(members: seq<Member>, facts: map<string, Value>, key: string)
    requires ReadMembers(External, true, members, facts).1
    ensures var values := ReadingsOfFact(External, members, key);
            Lookup(ReadMembers(External, true, members, facts).0, key) ==
            if values == [] then Lookup(facts, key) else Some(values[|values| - 1])
    decreases members
  {
    if members != [] {
      var name := CText(members[0].name);
      var r := Read(External, name, members[0].value);
      LastFactWins(members[1..], if r.Present? then Stored(External, facts, name, r.value) else facts, key);
    }
  }

  // ----- Reading back what was written -----

  /** A name that survives as a C string. */
  predicate IsName(name: string) { name != "" && '\0' !in name }

  /** The document writes the value: without nulls, every name once, integers of 64 bits, and, in external facts,
      strings without NUL. Metadata that is rewritten is left aside. */
  predicate Writes(d: Dialect, key: string, t: Json, v: Value)
    decreases t
  {
    match t
    case JNull => false
    case JBool(flag) => v == BooleanValue(flag)
    case JInteger(number) => v == IntegerValue(number) && -0x8000_0000_0000_0000 <= number < 0x8000_0000_0000_0000
    case JDouble(double) => v == DoubleValue(double)
    case JString(text) => v == StringValue(text) && if d.External? then '\0' !in text else !IsRewritten(key)
    case JArray(elements) => v.ArrayValue? && WritesElements(d, elements, v.elements)
    case JObject(members) => v.MapValue? && WritesMembers(d, members, v.entries)
  }

  predicate WritesElements(d: Dialect, elements: seq<Json>, values: seq<Value>)
    decreases elements
  {
    && |elements| == |values|
    && (elements != [] ==> Writes(d, "", elements[0], values[0]) && WritesElements(d, elements[1..], values[1..]))
  }

  predicate WritesMembers(d: Dialect, members: seq<Member>, entries: map<string, Value>)
    decreases members
  {
    if members == [] then entries == map[]
    else
      var name := members[0].name;
      && IsName(name) && name in entries && Writes(d, name, members[0].value, entries[name])
      && WritesMembers(d, members[1..], entries - {name})
  }

  lemma {:induction false} WholeCText(s: string)
    requires '\0' !in s
    ensures CText(s) == s
  {
    if s != "" {
      WholeCText(s[1..]);
    }
  }

  lemma {:induction false} ReadsBack(d: Dialect, key: string, t: Json, v: Value)
    requires Writes(d, key, t, v)
    ensures Read(d, key, t) == Present(v) && Keyed(t)
    decreases t, 0
  {
    match t
    case JString(text) =>
      if d.External? {
        WholeCText(text);
      }
    case JArray(elements) =>
      ElementsReadBack(d, elements, v.elements, []);
      assert [] + v.elements == v.elements;
    case JObject(members) =>
      MembersReadBack(d, false, members, v.entries, map[]);
      assert map[] + v.entries == v.entries;
    case _ =>
  }

  lemma {:induction false} ElementsReadBack(d: Dialect, elements: seq<Json>, values: seq<Value>, before: seq<Value>)
    requires WritesElements(d, elements, values)
    ensures ReadElements(d, elements, before) == Present(ArrayValue(before + values)) && KeyedElements(elements)
    decreases elements, 1
  {
    if elements == [] {
      assert before + values == before;
    } else {
      ReadsBack(d, "", elements[0], values[0]);
      ElementsReadBack(d, elements[1..], values[1..], before + [values[0]]);
      assert before + [values[0]] + values[1..] == before + values;
    }
  }

  /** Entries under names that no entry has yet, or, in external facts, under lower-case names. */
  ghost predicate Fits(d: Dialect, top: bool, entries: map<string, Value>, before: map<string, Value>) {
    forall k :: k in entries ==> if top && d.External? then Lower(k) == k else k !in before
  }

  lemma {:induction false} MembersReadBack(d: Dialect, top: bool, members: seq<Member>, entries: map<string, Value>,
                                           before: map<string, Value>)
    requires WritesMembers(d, members, entries) && Fits(d, top, entries, before)
    ensures ReadMembers(d, top, members, before) == (before + entries, true) && KeyedMembers(members)
    decreases members, 1
  {
    if members == [] {
      assert before + entries == before;
    } else {
      var name := members[0].name;
      var value := entries[name];
      WholeCText(name);
      ReadsBack(d, name, members[0].value, value);
      assert Put(d, top, before, name, value) == before[name := value];
      MembersReadBack(d, top, members[1..], entries - {name}, before[name := value]);
      assert before[name := value] + (entries - {name}) == before + entries;
    }
  }

  /** A document that writes a map of values: feeding its events adds exactly these values, over those of the same
      names in external facts, beside those of other names in metadata. */
  lemma DocumentReadsBack(d: Dialect, members: seq<Member>, entries: map<string, Value>, facts: map<string, Value>)
    requires WritesMembers(d, members, entries) && Fits(d, true, entries, facts)
    ensures Feed(d, Initial(facts), EventsOf(JObject(members))) == Ok(Handler(true, "", [], facts + entries))
  {
    MembersReadBack(d, true, members, entries, facts);
    KeyedDocumentReads(d, JObject(members), facts);
  }

  /** A document without its nulls: elements and members that are null are gone. */
  function WithoutNulls(t: Json): Json {
    match t
    case JArray(elements) => JArray(ElementsWithoutNulls(elements))
    case JObject(members) => JObject(MembersWithoutNulls(members))
    case _ => t
  }

  function ElementsWithoutNulls(elements: seq<Json>): seq<Json> {
    if elements == [] then []
    else (if elements[0].JNull? then [] else [WithoutNulls(elements[0])]) + ElementsWithoutNulls(elements[1..])
  }

  function MembersWithoutNulls(members: seq<Member>): seq<Member> {
    if members == [] then []
    else
      (if members[0].value.JNull? then [] else [Member(members[0].name, WithoutNulls(members[0].value))]) +
      MembersWithoutNulls(members[1..])
  }

  /** Nulls say nothing, wherever they stand. */
  lemma {:induction false} NullsSayNothing(d: Dialect, key: string, t: Json)
    ensures Read(d, key, WithoutNulls(t)) == Read(d, key, t) && (t.JNull? <==> Read(d, key, t) == Absent)
    decreases t, 0
  {
    match t
    case JArray(elements) => ElementsSayNothing(d, elements, []);
    case JObject(members) => MembersSayNothing(d, false, members, map[]);
    case _ =>
  }

  lemma {:induction false} ElementsSayNothing(d: Dialect, elements: seq<Json>, before: seq<Value>)
    ensures ReadElements(d, ElementsWithoutNulls(elements), before) == ReadElements(d, elements, before)
    decreases elements, 1
  {
    if elements != [] {
      var rest := ElementsWithoutNulls(elements[1..]);
      NullsSayNothing(d, "", elements[0]);
      var r := Read(d, "", elements[0]);
      ElementsSayNothing(d, elements[1..], if r.Present? then before + [r.value] else before);
      if elements[0].JNull? {
        assert [] + rest == rest;
      } else {
        assert ([WithoutNulls(elements[0])] + rest)[1..] == rest;
      }
    }
  }

  lemma {:induction false} MembersSayNothing(d: Dialect, top: bool, members: seq<Member>, before: map<string, Value>)
    ensures ReadMembers(d, top, MembersWithoutNulls(members), before) == ReadMembers(d, top, members, before)
    decreases members, 1
  {
    if members != [] {
      var name := CText(members[0].name);
      var rest := MembersWithoutNulls(members[1..]);
      NullsSayNothing(d, name, members[0].value);
      var r := Read(d, name, members[0].value);
      MembersSayNothing(d, top, members[1..], if r.Present? then Put(d, top, before, name, r.value) else before);
      if members[0].value.JNull? {
        assert [] + rest == rest;
      } else {
        assert ([Member(members[0].name, WithoutNulls(members[0].value))] + rest)[1..] == rest;
      }
    }
  }

  // ----- What C and the locale do to numbers and names -----

  /** A C string is what comes before the first NUL. */
  lemma {:induction false} CTextIs(s: string, rest: string)
    requires '\0' !in s
    ensures CText(s) == s && CText(s + ['\0'] + rest) == s
  {
    WholeCText(s);
    if s == "" {
      assert s + ['\0'] + rest == ['\0'] + rest;
    } else {
      assert (s + ['\0'] + rest)[1..] == s[1..] + ['\0'] + rest;
      CTextIs(s[1..], rest);
    }
  }

  /** The cast takes an integer to the one of 64 signed bits that differs from it by a multiple of 2^64. */
  lemma WrappedIs(n: int)
    ensures -0x8000_0000_0000_0000 <= Wrapped(n) < 0x8000_0000_0000_0000
    ensures (n - Wrapped(n)) % 0x1_0000_0000_0000_0000 == 0
    ensures -0x8000_0000_0000_0000 <= n < 0x8000_0000_0000_0000 ==> Wrapped(n) == n
  {
  }

  /** Lowering maps each capital letter to its small one and leaves everything else alone. */
  lemma LowerIs(a: string, c: char, b: string)
    ensures Lower("ABCDEFGHIJKLMNOPQRSTUVWXYZ") == "abcdefghijklmnopqrstuvwxyz"
    ensures Lower(a + [c] + b) == Lower(a) + Lower([c]) + Lower(b)
    ensures c < 'A' || c > 'Z' ==> Lower([c]) == [c]
  {
  }

  // ----- Metadata that is rewritten -----

  predicate IsRewritten(key: string) {
    key in ["sshKeys", "image", "machineType", "zone", "network"]
  }

  /** The qualified names of metadata are cut down to what follows their last slash; no other string is rewritten,
      save the list of keys. */
  lemma QualifiedNames(qualifier: string, name: string, key: string)
    requires '/' !in name
    ensures key in ["image", "machineType", "zone", "network"] ==>
              && TextValue(Gce, key, name) == StringValue(name)
              && TextValue(Gce, key, qualifier + "/" + name) == StringValue(name)
    ensures !IsRewritten(key) ==> forall text :: TextValue(Gce, key, text) == StringValue(text)
  {
    LastNameKept(qualifier, name);
  }

  lemma {:induction false} LastNameKept(qualifier: string, name: string)
    requires '/' !in name
    ensures AfterSlash(name) == name && AfterSlash(qualifier + "/" + name) == name
  {
    NoSlash(name);
    var s := qualifier + "/" + name;
    if qualifier == "" {
      assert s[1..] == name;
    } else {
      var rest := qualifier[1..] + "/" + name;
      assert s[1..] == rest && rest[|qualifier| - 1] == '/';
      LastNameKept(qualifier[1..], name);
    }
  }

  lemma NoSlash(name: string)
    requires '/' !in name
    ensures AfterSlash(name) == name
  {
  }

  /** The keys, one to a line. */
  function KeyLines(keys: seq<string>): string
    requires keys != []
  {
    if |keys| == 1 then keys[0] else keys[0] + ("\n" + KeyLines(keys[1..]))
  }

  predicate IsKeyLine(key: string) { key != "" && '\n' !in key }

  lemma {:induction false} TokensOfLine(line: string, rest: string)
    requires '\n' !in line
    ensures Tokens(IsLineFeed, line + rest) == [line + Tokens(IsLineFeed, rest)[0]] + Tokens(IsLineFeed, rest)[1..]
  {
    var tail := Tokens(IsLineFeed, rest);
    if line == "" {
      assert line + rest == rest && line + tail[0] == tail[0];
    } else {
      assert (line + rest)[1..] == line[1..] + rest;
      TokensOfLine(line[1..], rest);
      assert [line[0]] + (line[1..] + tail[0]) == line + tail[0];
    }
  }

  lemma {:induction false} KeyLinesSplit(keys: seq<string>)
    requires keys != [] && forall key :: key in keys ==> IsKeyLine(key)
    ensures Tokens(IsLineFeed, KeyLines(keys)) == keys
    ensures KeyLines(keys) != "" && keys[0] != "" && KeyLines(keys)[0] == keys[0][0]
    decreases |keys|
  {
    assert IsKeyLine(keys[0]);
    if |keys| == 1 {
      TokensOfLine(keys[0], "");
      assert keys[0] + "" == keys[0];
    } else {
      var rest := KeyLines(keys[1..]);
      KeyLinesSplit(keys[1..]);
      assert IsKeyLine(keys[1]);
      assert !IsLineFeed(rest[0]) && ("\n" + rest)[1..] == rest;
      assert Tokens(IsLineFeed, "\n" + rest) == [""] + keys[1..];
      TokensOfLine(keys[0], "\n" + rest);
      assert keys[0] + "" == keys[0];
    }
  }

  /** The list of keys is read back from its lines, whatever space stands around them. */
  lemma SshKeysRead(before: string, keys: seq<string>, after: string)
    requires keys != [] && forall key :: key in keys ==> IsKeyLine(key)
    requires forall c :: c in before + after ==> IsSpace(c)
    requires var lines := KeyLines(keys); lines != "" ==> !IsSpace(lines[0]) && !IsSpace(lines[|lines| - 1])
    ensures TextValue(Gce, "sshKeys", before + (KeyLines(keys) + after)) == ArrayValue(StringValues(keys))
  {
    var lines := KeyLines(keys);
    KeyLinesSplit(keys);
    assert forall c :: c in before ==> c in before + after;
    assert forall c :: c in after ==> c in before + after;
    assert (lines + after)[0] == lines[0];
    TrimLeftOf(IsSpace, before, lines + after);
    TrimRightOf(IsSpace, lines, after);
  }
}
