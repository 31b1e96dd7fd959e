/** The event text and the hash chain of pkg/audit/hashchain.go. */
module AuditChain {
  import opened Text
  import opened Decimal
  import opened AuditCanonical
  import opened AuditDecoder

  datatype Event = Event(
    id: int, timestamp: string, eventType: string, entityType: string, entityId: string, actor: string,
    sessionId: string, details: Value)

  /** What a reader can know of an event: everything, with the details as a tree. */
  datatype Reading = Reading(id: int, fields: seq<string>, details: Json)

  function ReadingOf(e: Event): Reading {
    Reading(e.id, [e.timestamp, e.eventType, e.entityType, e.entityId, e.actor, e.sessionId], Meaning(e.details))
  }

  const HEADERS: seq<string> :=
    [",\"timestamp\":", ",\"event_type\":", ",\"entity_type\":", ",\"entity_id\":", ",\"actor\":", ",\"session_id\":"]
  const ID_HEADER := "{\"id\":"
  const DETAILS_HEADER := ",\"details\":"

  // ---- the text ----

  function PrintStrings(headers: seq<string>, values: seq<string>): string
    requires |headers| == |values|
  {
    if headers == [] then "" else headers[0] + Quoted(values[0]) + PrintStrings(headers[1..], values[1..])
  }

  ghost function PrintReading(r: Reading): string
    requires |r.fields| == |HEADERS|
  {
    ID_HEADER + IntText(r.id) + PrintStrings(HEADERS, r.fields) + DETAILS_HEADER + Print(r.details) + "}"
  }

  ghost function EventText(e: Event): string {
    PrintReading(ReadingOf(e))
  }

  method CanonicalEventJSON(e: Event) returns (r: string)
    ensures r == EventText(e)
  {
    hide Quoted, Print, Meaning, PrintStrings, Escape, IntText;
    r := "{\"id\":" + IntText(e.id);
    ghost var start := r;
    var q := Quote(e.timestamp);
    r := r + ",\"timestamp\":" + q;
    q := Quote(e.eventType);
    r := r + ",\"event_type\":" + q;
    q := Quote(e.entityType);
    r := r + ",\"entity_type\":" + q;
    q := Quote(e.entityId);
    r := r + ",\"entity_id\":" + q;
    q := Quote(e.actor);
    r := r + ",\"actor\":" + q;
    q := Quote(e.sessionId);
    r := r + ",\"session_id\":" + q;
    PrintSixStrings(start, HEADERS, ReadingOf(e).fields);
    var d := CanonicalValue(e.details);
    r := r + ",\"details\":" + d + "}";
  }

  lemma PrintSixStrings(start: string, h: seq<string>, v: seq<string>)
    requires |h| == |v| == 6
    ensures start + PrintStrings(h, v) ==
      start + h[0] + Quoted(v[0]) + h[1] + Quoted(v[1]) + h[2] + Quoted(v[2])
      + h[3] + Quoted(v[3]) + h[4] + Quoted(v[4]) + h[5] + Quoted(v[5])
  {
    hide Quoted;
    PrintNext(start, h, v, 0);
    PrintNext(start + h[0] + Quoted(v[0]), h, v, 1);
    PrintNext(start + h[0] + Quoted(v[0]) + h[1] + Quoted(v[1]), h, v, 2);
    var s3 := start + h[0] + Quoted(v[0]) + h[1] + Quoted(v[1]) + h[2] + Quoted(v[2]);
    PrintNext(s3, h, v, 3);
    PrintNext(s3 + h[3] + Quoted(v[3]), h, v, 4);
    PrintNext(s3 + h[3] + Quoted(v[3]) + h[4] + Quoted(v[4]), h, v, 5);
    assert h[0..] == h && v[0..] == v;
  }

  lemma PrintNext(start: string, h: seq<string>, v: seq<string>, i: nat)
    requires i < |h| == |v|
    ensures start + PrintStrings(h[i..], v[i..]) == start + h[i] + Quoted(v[i]) + PrintStrings(h[i + 1..], v[i + 1..])
    ensures i + 1 == |h| ==> start + PrintStrings(h[i..], v[i..]) == start + h[i] + Quoted(v[i])
  {
    hide Quoted;
  }

  // ---- reading it back ----

  function ReadStrings(headers: seq<string>, t: string): Option<(seq<string>, string)> {
    if headers == [] then Some(([], t))
    else
      var h := headers[0] + "\"";
      if h <= t then
        match ReadString(t[|h|..])
        case None => None
        case Some((s, rest)) =>
          match ReadStrings(headers[1..], rest)
          case None => None
          case Some((ss, rest')) => Some(([s] + ss, rest'))
      else None
  }

  function ReadEvent(t: string): Option<Reading> {
    if !(ID_HEADER <= t) then None
    else
      var t1 := t[|ID_HEADER|..];
      var n := NumRun(t1);
      match IntValue(t1[..n])
      case None => None
      case Some(id) =>
        match ReadStrings(HEADERS, t1[n..])
        case None => None
        case Some((fields, t2)) =>
          if !(DETAILS_HEADER <= t2) then None
          else
            match ReadValue(t2[|DETAILS_HEADER|..])
            case None => None
            case Some((details, rest)) => if rest == "}" then Some(Reading(id, fields, details)) else None
  }

  lemma {:induction false} ReadPrintStrings(headers: seq<string>, values: seq<string>, rest: string)
    requires |headers| == |values|
    ensures ReadStrings(headers, PrintStrings(headers, values) + rest) == Some((values, rest))
  {
    hide ReadString, Escaped;
    if headers == [] {
      assert "" + rest == rest;
    } else {
      var h := headers[0] + "\"";
      var tail := PrintStrings(headers[1..], values[1..]) + rest;
      var t := PrintStrings(headers, values) + rest;
      assert t == h + (Escaped(values[0]) + "\"" + tail);
      assert t[|h|..] == Escaped(values[0]) + "\"" + tail;
      ReadStringEscaped(values[0], tail);
      ReadPrintStrings(headers[1..], values[1..], rest);
      assert values == [values[0]] + values[1..];
    }
  }

  /** The decoder recovers the event, however deeply its details are nested. */
  lemma EventRoundTrip(e: Event)
    ensures ReadEvent(EventText(e)) == Some(ReadingOf(e))
  {
    hide Meaning, Print, ReadValue, ReadStrings, PrintStrings, NumRun, IntValue, IntText;
    var r := ReadingOf(e);
    var t := EventText(e);
    var t3 := Print(r.details) + "}";
    var t2 := DETAILS_HEADER + t3;
    var t1 := PrintStrings(HEADERS, r.fields) + t2;
    assert t == ID_HEADER + (IntText(r.id) + t1);
    assert t[|ID_HEADER|..] == IntText(r.id) + t1;
    IntIsNumber(r.id);
    StringsStart(r.fields, t2);
    NumRunStops(IntText(r.id), t1);
    assert (IntText(r.id) + t1)[..|IntText(r.id)|] == IntText(r.id);
    assert (IntText(r.id) + t1)[|IntText(r.id)|..] == t1;
    IntRoundTrip(r.id);
    ReadPrintStrings(HEADERS, r.fields, t2);
    assert t2[|DETAILS_HEADER|..] == t3;
    ReadPrint(r.details, "}");
  }

  lemma IntIsNumber(n: int)
    ensures forall c | c in IntText(n) :: IsNumChar(c)
  {
  }

  lemma StringsStart(values: seq<string>, rest: string)
    requires |values| == |HEADERS|
    ensures Stops(PrintStrings(HEADERS, values) + rest)
  {
    hide PrintStrings;
    StringsStartWith(HEADERS, values);
    assert HEADERS[0][0] == ',';
  }

  lemma StringsStartWith(headers: seq<string>, values: seq<string>)
    requires |headers| == |values| > 0 && headers[0] != ""
    ensures PrintStrings(headers, values) != "" && PrintStrings(headers, values)[0] == headers[0][0]
  {
  }

  /** Two events have the same text exactly when they read the same. */
  lemma SameTextExactly(a: Event, b: Event)
    ensures EventText(a) == EventText(b) <==> ReadingOf(a) == ReadingOf(b)
  {
    EventRoundTrip(a);
    EventRoundTrip(b);
  }

  // ---- which values the text tells apart ----

  /** Values without floats, typed nil maps, nil slices, and types outside the printer's list. */
  predicate Plain(v: Value) {
    match v
    case Float(_) => false
    case Other(_) => false
    case NilMap => false
    case NilArr => false
    case Arr(items) => forall i | 0 <= i < |items| :: Plain(items[i])
    case Obj(fields) => forall k | k in fields :: Plain(fields[k])
    case _ => true
  }

  /** Which values are plain: null, strings, truth values and integers, and arrays and objects of such. */
  lemma PlainExactly(v: Value)
    ensures Plain(v) <==>
      || v == Null || v.Str? || v.Bool? || v.Int?
      || (v.Arr? && forall i | 0 <= i < |v.items| :: Plain(v.items[i]))
      || (v.Obj? && forall k | k in v.fields :: Plain(v.fields[k]))
  {
  }

  lemma {:induction false} PlainMeansItself(a: Value, b: Value)
    requires Plain(a) && Plain(b) && Meaning(a) == Meaning(b)
    ensures a == b
  {
    match a
    case Int(n) =>
      IntRoundTrip(n);
      IntRoundTrip(b.n);
    case Arr(items) =>
      forall i | 0 <= i < |items| ensures items[i] == b.items[i] {
        assert Meaning(a).items[i] == Meaning(b).items[i];
        PlainMeansItself(items[i], b.items[i]);
      }
    case Obj(fields) =>
      assert Meaning(a).fields.Keys == fields.Keys && Meaning(b).fields.Keys == b.fields.Keys;
      forall k | k in fields ensures k in b.fields && fields[k] == b.fields[k] {
        assert Meaning(a).fields[k] == Meaning(b).fields[k];
        PlainMeansItself(fields[k], b.fields[k]);
      }
    case _ =>
  }

  /** The value that a tree stands for, constructor by constructor. */
  function ValueOf(j: Json): Value {
    match j
    case JNull => Null
    case JStr(s) => Str(s)
    case JBool(b) => Bool(b)
    case JNum(text) => if IntValue(text).Some? then Int(IntValue(text).value) else Float(text)
    case JArr(items) => Arr(seq(|items|, i requires 0 <= i < |items| => ValueOf(items[i])))
    case JObj(fields) => Obj(map k | k in fields :: ValueOf(fields[k]))
  }

  lemma {:induction false} PlainComesBack(v: Value)
    requires Plain(v)
    ensures ValueOf(Meaning(v)) == v
  {
    match v
    case Int(n) => IntRoundTrip(n);
    case Arr(items) =>
      forall i | 0 <= i < |items| ensures ValueOf(Meaning(items[i])) == items[i] { PlainComesBack(items[i]); }
      assert ValueOf(Meaning(v)).items == items;
    case Obj(fields) =>
      forall k | k in fields ensures ValueOf(Meaning(fields[k])) == fields[k] { PlainComesBack(fields[k]); }
      assert ValueOf(Meaning(v)).fields == fields;
    case _ =>
  }

  /** The event that a text stands for. */
  function DecodeEvent(t: string): Option<Event> {
    match ReadEvent(t)
    case None => None
    case Some(r) =>
      if |r.fields| != 6 then None
      else Some(Event(r.id, r.fields[0], r.fields[1], r.fields[2], r.fields[3], r.fields[4], r.fields[5], ValueOf(r.details)))
  }

  /** With plain details the decoder recovers the event itself. */
  lemma PlainEventRoundTrip(e: Event)
    requires Plain(e.details)
    ensures DecodeEvent(EventText(e)) == Some(e)
  {
    hide Meaning, EventText, ReadEvent, ValueOf;
    EventRoundTrip(e);
    PlainComesBack(e.details);
  }

  /** On plain details the text determines the whole event. */
  lemma PlainTextUnique(a: Event, b: Event)
    requires Plain(a.details) && Plain(b.details) && EventText(a) == EventText(b)
    ensures a == b
  {
    hide EventText, Meaning;
    SameTextExactly(a, b);
    var x, y := ReadingOf(a), ReadingOf(b);
    assert x.fields[0] == y.fields[0] && x.fields[1] == y.fields[1] && x.fields[2] == y.fields[2];
    assert x.fields[3] == y.fields[3] && x.fields[4] == y.fields[4] && x.fields[5] == y.fields[5];
    PlainMeansItself(a.details, b.details);
  }

  /** Outside the plain values there are collisions of every excluded kind. */
  lemma CollidingValues()
    ensures Meaning(NilMap) == Meaning(Null) && Meaning(NilArr) == Meaning(Arr([]))
    ensures Meaning(Float("1")) == Meaning(Int(1))
    ensures Meaning(Other("x")) == Meaning(Str("x"))
  {
  }

  // ---- the chain ----

  /** A hash function as the chain uses it: hex text out, never empty. */
  ghost predicate HexOutput(h: string -> string) {
    forall s :: h(s) != "" && '{' !in h(s)
  }

  ghost function Payload(prev: string, e: Event): string {
    prev + EventText(e)
  }

  /** The hash after a whole history; the first link has no predecessor. */
  ghost function Head(h: string -> string, events: seq<Event>): string {
    if events == [] then ""
    else h(Payload(Head(h, events[..|events| - 1]), events[|events| - 1]))
  }

  /** The first hash is taken of the first text alone, each further one of the hash before it and the text. */
  lemma ChainWritten(h: string -> string, events: seq<Event>, e: Event)
    ensures Head(h, []) == "" && Head(h, [e]) == h(EventText(e))
    ensures Head(h, events + [e]) == h(Head(h, events) + EventText(e))
  {
    hide EventText;
    assert (events + [e])[..|events|] == events && [e][..0] == [];
    assert "" + EventText(e) == EventText(e);
  }

  method CalculateHash(h: string -> string, prev: string, e: Event) returns (r: string)
    ensures r == h(Payload(prev, e))
  {
    hide EventText;
    var written := "";
    if prev != "" {
      written := written + prev;
    }
    var text := CanonicalEventJSON(e);
    written := written + text;
    assert written == Payload(prev, e);
    r := h(written);
  }

  ghost predicate SameHistory(a: seq<Event>, b: seq<Event>) {
    |a| == |b| && forall i | 0 <= i < |a| :: ReadingOf(a[i]) == ReadingOf(b[i])
  }

  /** The previous hash and the event text part at the first brace. */
  lemma PayloadSplits(p: string, q: string, a: Event, b: Event)
    requires '{' !in p && '{' !in q && Payload(p, a) == Payload(q, b)
    ensures p == q && EventText(a) == EventText(b)
  {
    hide Print, PrintStrings, Meaning, IntText;
    TextStart(a);
    TextStart(b);
    hide EventText;
    var t := Payload(p, a);
    assert t[|p|] == '{' && t[|q|] == '{';
    assert p == t[..|p|] && q == t[..|q|];
    assert EventText(a) == t[|p|..] && EventText(b) == t[|q|..];
  }

  lemma TextStart(e: Event)
    ensures EventText(e) != "" && EventText(e)[0] == '{'
  {
  }

  /** The head pins the history: two histories with one head are the same, or
      the chain itself exhibits two payloads that the hash function confuses. */
  lemma {:induction false} HeadPinsHistory(h: string -> string, a: seq<Event>, b: seq<Event>) returns (x: string, y: string)
    requires HexOutput(h) && Head(h, a) == Head(h, b)
    ensures SameHistory(a, b) || (x != y && h(x) == h(y))
    decreases |a|
  {
    hide EventText, ReadingOf;
    x, y := "", "";
    if a == [] || b == [] {
      assert a == [] && b == [];
    } else {
      var m, n := |a| - 1, |b| - 1;
      var p, q := Head(h, a[..m]), Head(h, b[..n]);
      x, y := Payload(p, a[m]), Payload(q, b[n]);
      if x == y {
        HeadIsHex(h, a[..m]);
        HeadIsHex(h, b[..n]);
        PayloadSplits(p, q, a[m], b[n]);
        SameTextExactly(a[m], b[n]);
        x, y := HeadPinsHistory(h, a[..m], b[..n]);
        if SameHistory(a[..m], b[..n]) {
          forall i | 0 <= i < |a| ensures ReadingOf(a[i]) == ReadingOf(b[i]) {
            if i < m { assert a[i] == a[..m][i] && b[i] == b[..n][i]; }
          }
        }
      }
    }
  }

  lemma HeadIsHex(h: string -> string, events: seq<Event>)
    requires HexOutput(h)
    ensures '{' !in Head(h, events)
  {
  }

  /** With a collision-free hash and plain details, equal heads mean equal histories. */
  lemma CollisionFreeChain(h: string -> string, a: seq<Event>, b: seq<Event>)
    requires HexOutput(h) && forall s, t :: h(s) == h(t) ==> s == t
    requires forall e | e in a + b :: Plain(e.details)
    requires Head(h, a) == Head(h, b)
    ensures a == b
  {
    hide EventText, Head;
    var _, _ := HeadPinsHistory(h, a, b);
    forall i | 0 <= i < |a| ensures a[i] == b[i] {
      assert a[i] in a + b && b[i] in a + b;
      assert ReadingOf(a[i]) == ReadingOf(b[i]);
      SameTextExactly(a[i], b[i]);
      PlainTextUnique(a[i], b[i]);
    }
  }
}
