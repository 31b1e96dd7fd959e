/** Canonical event texts written out. */
module AuditExamples {
  import opened Text
  import opened Decimal
  import opened AuditCanonical
  import opened AuditChain

  /** The keys of an event, in their order. */
  lemma EventTextWritten(e: Event)
    ensures EventText(e) ==
      "{\"id\":" + IntText(e.id) + ",\"timestamp\":" + Quoted(e.timestamp) + ",\"event_type\":" + Quoted(e.eventType)
      + ",\"entity_type\":" + Quoted(e.entityType) + ",\"entity_id\":" + Quoted(e.entityId) + ",\"actor\":" + Quoted(e.actor)
      + ",\"session_id\":" + Quoted(e.sessionId) + ",\"details\":" + Print(Meaning(e.details)) + "}"
  {
    hide Quoted, Print, Meaning, IntText, PrintStrings;
    PrintSixStrings("{\"id\":" + IntText(e.id), HEADERS, ReadingOf(e).fields);
  }

  /** Characters with an escape of their own, other control characters, and all others. */
  lemma EscapesWritten(c: char)
    ensures Escape('"') == "\\\"" && Escape('\\') == "\\\\"
    ensures Escape('\n') == "\\n" && Escape('\r') == "\\r" && Escape('\t') == "\\t"
    ensures Escape('\U{1}') == "\\u0001" && Escape('\U{1f}') == "\\u001f" && Escape('\U{b}') == "\\u000b"
    ensures c as int >= 0x20 && c != '"' && c != '\\' ==> Escape(c) == [c]
  {
  }

  /** Two keys come in dictionary order, whatever else is in the object. */
  lemma TwoFieldsWritten(k: string, l: string, a: Json, b: Json)
    requires Less(k, l)
    ensures Print(JObj(map[k := a, l := b])) == "{" + Quoted(k) + ":" + Print(a) + "," + Quoted(l) + ":" + Print(b) + "}"
  {
    LessIrreflexive(k);
    var j := JObj(map[k := a, l := b]);
    AscendingUnique(SortedKeys(j.fields.Keys), [k, l]);
    hide Quoted, SortedKeys;
    var keys := [k, l];
    var start := "{" + Quoted(k) + ":" + Print(a);
    FieldsStep("{", j, keys, 0);
    FieldsStep(start, j, keys, 1);
    NoFields(j, keys);
    hide Print, PrintFields;
  }

  lemma FourItemsWritten(a: Json, b: Json, c: Json, d: Json)
    ensures Print(JArr([a, b, c, d])) == "[" + Print(a) + "," + Print(b) + "," + Print(c) + "," + Print(d) + "]"
  {
    var j := JArr([a, b, c, d]);
    hide PrintItems;
    ItemsStep("[", j, 0);
    ItemsStep("[" + Print(a), j, 1);
    ItemsStep("[" + Print(a) + "," + Print(b), j, 2);
    ItemsStep("[" + Print(a) + "," + Print(b) + "," + Print(c), j, 3);
    NoItems(j);
  }

  /** Details of every kind, with the keys in order. */
  lemma DetailsWritten(k: string, l: string, s: string)
    requires Less(k, l)
    ensures Print(Meaning(Obj(map[l := Arr([Bool(true), Bool(false), Null, Str(s)]), k := Int(-12)])))
      == "{" + Quoted(k) + ":" + "-12" + "," + Quoted(l) + ":"
         + ("[" + "true" + "," + "false" + "," + "null" + "," + Quoted(s) + "]") + "}"
  {
    LessIrreflexive(k);
    Atoms();
    ArrayMeans(s);
    hide *;
    var items := Arr([Bool(true), Bool(false), Null, Str(s)]);
    ObjectOfTwo(k, l, Int(-12), items);
    FourItemsWritten(JBool(true), JBool(false), JNull, JStr(s));
    TwoFieldsWritten(k, l, Meaning(Int(-12)), Meaning(items));
  }

  lemma ArrayMeans(s: string)
    ensures Meaning(Arr([Bool(true), Bool(false), Null, Str(s)])) == JArr([JBool(true), JBool(false), JNull, JStr(s)])
  {
  }

  lemma Atoms()
    ensures Print(Meaning(Int(-12))) == "-12" && Print(JBool(true)) == "true" && Print(JBool(false)) == "false"
    ensures Print(JNull) == "null" && forall s :: Print(JStr(s)) == Quoted(s)
  {
    assert NatText(12) == "12";
  }

  lemma ObjectOfTwo(k: string, l: string, a: Value, b: Value)
    requires k != l
    ensures Meaning(Obj(map[l := b, k := a])) == JObj(map[k := Meaning(a), l := Meaning(b)])
  {
  }
}
