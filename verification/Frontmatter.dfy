/** Frontmatter of task and sprint documents, pkg/fileutil/fileutil.go: splitting a
    document into YAML fields and body, and putting it together again. The YAML library
    is a pair of functions; what the round trip needs of it is stated case by case. */
module Frontmatter {
  import opened Text

  /** YAML parses a bare date as a time; every other value is kept as a node. */
  datatype Field = Node(yaml: string) | Time(day: string, clock: string)
  type Fields = map<string, Field>

  datatype Parsed = Invalid | Null | Mapping(fields: Fields)
  datatype Codec = Codec(emit: Fields -> string, parse: string -> Parsed)

  datatype Document = Malformed | Document(fields: Fields, body: string)

  const FENCE := "\n---"

  // ---- splitting ----

  /** `strings.Index(s, t)`, looking from position i on. */
  function IndexFrom(s: string, t: string, i: nat): (r: int)
    requires i <= |s|
    ensures r == -1 || (r >= i && At(s, r, t))
    ensures forall j | i <= j <= |s| && At(s, j, t) :: 0 <= r <= j
    decreases |s| - i
  {
    if At(s, i, t) then i else if i == |s| then -1 else IndexFrom(s, t, i + 1)
  }

  function TrimPrefix(s: string, t: string): string {
    if t <= s then s[|t|..] else s
  }

  /** The raw YAML and the body, or nothing when the document has no frontmatter. */
  function Split(content: string): Option<(string, string)> {
    if !HasPrefix(content, "---") then None
    else
      var rest := content[3..];
      var idx := IndexFrom(rest, FENCE, 0);
      if idx < 0 then None
      else Some((rest[..idx], TrimPrefix(rest[idx + 4..], "\n")))
  }

  function Parse(codec: Codec, content: string): Document {
    match Split(content)
    case None => Document(map[], content)
    case Some((raw, body)) => Meant(codec, raw, body)
  }

  /** The document is an opening fence, YAML without a fence, a closing fence, at most one newline,
      and the body, which starts with a newline only if that one is there. */
  predicate Framed(content: string, raw: string, body: string) {
    !Contains(raw, FENCE) &&
    (content == "---" + raw + FENCE + "\n" + body || (content == "---" + raw + FENCE + body && !("\n" <= body)))
  }

  /** What the YAML between the fences makes of the document. */
  function Meant(codec: Codec, raw: string, body: string): Document {
    match codec.parse(raw)
    case Invalid => Malformed
    case Null => Document(map[], body)
    case Mapping(fields) => Document(fields, body)
  }

  /** A document with a frame means what its YAML and its body mean; one without is all body. A
      document has at most one frame: the closing fence is the first. */
  method ParseFrontmatter(codec: Codec, content: string) returns (d: Document)
    ensures d == Parse(codec, content)
    ensures forall raw, body | Framed(content, raw, body) :: d == Meant(codec, raw, body)
    ensures (forall raw, body :: !Framed(content, raw, body)) ==> d == Document(map[], content)
  {
    forall raw, body { SplitExactly(content, raw, body); }
    hide Framed;
    if !HasPrefix(content, "---") {
      return Document(map[], content);
    }
    var rest := content[3..];
    var idx := IndexFrom(rest, FENCE, 0);
    if idx < 0 {
      return Document(map[], content);
    }
    var raw := rest[..idx];
    var body := TrimPrefix(rest[idx + 4..], "\n");
    var fm := codec.parse(raw);
    if fm.Invalid? { return Malformed; }
    return Document(if fm.Null? then map[] else fm.fields, body);
  }

  /** The split finds the frame, and only that. */
  lemma SplitExactly(content: string, raw: string, body: string)
    ensures Split(content) == Some((raw, body)) <==> Framed(content, raw, body)
  {
    hide Split, Framed;
    if Framed(content, raw, body) { FrameIsFound(content, raw, body); }
    if Split(content) == Some((raw, body)) { FoundIsFrame(content, raw, body); }
  }

  lemma FrameIsFound(content: string, raw: string, body: string)
    requires Framed(content, raw, body)
    ensures Split(content) == Some((raw, body))
  {
    hide Contains;
    if content == "---" + raw + FENCE + "\n" + body {
      assert ("\n" + body)[1..] == body;
      TailIsSplitOff(content, raw, "\n" + body);
    } else {
      TailIsSplitOff(content, raw, body);
    }
  }

  lemma TailIsSplitOff(content: string, raw: string, tail: string)
    requires !Contains(raw, FENCE) && content == "---" + raw + FENCE + tail
    ensures Split(content) == Some((raw, TrimPrefix(tail, "\n")))
  {
    FirstFence(raw, tail);
    hide IndexFrom, Contains, TrimPrefix;
    assert content == "---" + (raw + FENCE + tail);
    assert content[3..] == raw + FENCE + tail && content[..3] == "---";
  }

  lemma FoundIsFrame(content: string, raw: string, body: string)
    requires Split(content) == Some((raw, body))
    ensures Framed(content, raw, body)
  {
    var rest := content[3..];
    var idx := IndexFrom(rest, FENCE, 0);
    NoFenceBefore(rest, idx);
    hide IndexFrom, Contains;
    var tail := rest[idx + 4..];
    assert content == "---" + rest && rest == raw + FENCE + tail;
    if "\n" <= tail { assert tail == "\n" + tail[1..]; }
    assert content == "---" + raw + FENCE + tail;
  }

  lemma NoFenceBefore(rest: string, idx: nat)
    requires idx == IndexFrom(rest, FENCE, 0)
    ensures idx <= |rest| && !Contains(rest[..idx], FENCE)
  {
    hide IndexFrom;
    forall j | 0 <= j <= idx { FenceStays(rest, idx, j); }
  }

  lemma FenceStays(rest: string, n: nat, j: nat)
    requires n <= |rest| && j <= n
    ensures At(rest[..n], j, FENCE) ==> At(rest, j, FENCE) && j + 4 <= n
  {
    assert j + 4 <= n ==> rest[j..j + 4] == rest[..n][j..j + 4];
  }

  /** A fence cannot start inside another one, so the first fence behind fenceless text is the next. */
  lemma FirstFence(lead: string, tail: string)
    ensures var r := IndexFrom(lead + FENCE + tail, FENCE, 0);
      if Contains(lead, FENCE) then 0 <= r <= |lead| - 4 else r == |lead|
    ensures (lead + FENCE + tail)[|lead| + 4..] == tail && (lead + FENCE + tail)[..|lead|] == lead
  {
    var rest := lead + FENCE + tail;
    assert At(rest, |lead|, FENCE) by { assert rest[|lead|..|lead| + 4] == FENCE; }
    forall j | 0 <= j < |lead| ensures At(rest, j, FENCE) <==> At(lead, j, FENCE) {
      if At(rest, j, FENCE) {
        assert rest[j..j + 4][1] == '-' && rest[j..j + 4][2] == '-' && rest[j..j + 4][3] == '-';
        assert rest[|lead|] == '\n';
        assert j + 4 <= |lead|;
      }
      if j + 4 <= |lead| { assert rest[j..j + 4] == lead[j..j + 4]; }
    }
  }

  // ---- dumping ----

  const DATE_FIELDS := ["created", "started", "completed"]

  function Day(key: string, v: Field): Field {
    if key in DATE_FIELDS && v.Time? then Node(v.day) else v
  }

  /** Dates of the three date fields become plain days. */
  function Coerced(fm: Fields): Fields {
    map k | k in fm :: Day(k, fm[k])
  }

  method CoerceDateFields(fields: Fields) returns (fm: Fields)
    ensures fm == Coerced(fields)
  {
    fm := fields;
    for i := 0 to |DATE_FIELDS|
      invariant fm.Keys == fields.Keys
      invariant forall k | k in fm :: fm[k] == if k in DATE_FIELDS[..i] then Day(k, fields[k]) else fields[k]
    {
      var k := DATE_FIELDS[i];
      if k in fm {
        if fm[k].Time? { fm := fm[k := Node(fm[k].day)]; }
      }
    }
  }

  /** The YAML text as it stands between the fences. */
  function Yaml(codec: Codec, fm: Fields): string {
    TrimRight(codec.emit(fm), c => c == '\n')
  }

  function Assemble(yaml: string, body: string): string {
    "---\n" + yaml + "\n---\n" + body
  }

  function Dump(codec: Codec, fm: Fields, body: string): string {
    Assemble(Yaml(codec, Coerced(fm)), body)
  }

  // ---- the round trip ----

  /** No line of the text starts with three dashes. */
  predicate NoFence(yaml: string) {
    !Contains("\n" + yaml, FENCE)
  }

  /** The document splits back into the same YAML and the same body exactly when no YAML line
      starts with three dashes. Otherwise the YAML is cut short and the body comes back longer. */
  lemma SplitAssembled(yaml: string, body: string)
    ensures Split(Assemble(yaml, body)).Some?
    ensures var (raw, b) := Split(Assemble(yaml, body)).value;
      if NoFence(yaml) then raw == "\n" + yaml && b == body else |raw| <= |yaml| - 3 && |b| > |body|
  {
    var lead := "\n" + yaml;
    assert Assemble(yaml, body)[3..] == lead + FENCE + ("\n" + body);
    FirstFence(lead, "\n" + body);
  }

  /** The codec reads its own output of these fields back. */
  predicate Inverts(codec: Codec, fm: Fields) {
    codec.parse("\n" + Yaml(codec, fm)) == Mapping(fm)
  }

  predicate Faithful(codec: Codec, fm: Fields) {
    Inverts(codec, fm) && NoFence(Yaml(codec, fm))
  }

  /** Fields and body both survive exactly when the codec is faithful on the coerced fields. */
  lemma RoundTripExactly(codec: Codec, fm: Fields, body: string)
    ensures Parse(codec, Dump(codec, fm, body)) == Document(Coerced(fm), body) <==>
      Faithful(codec, Coerced(fm)) || (Coerced(fm) == map[] && NoFence(Yaml(codec, map[]))
        && codec.parse("\n" + Yaml(codec, map[])) == Null)
  {
    SplitAssembled(Yaml(codec, Coerced(fm)), body);
  }

  // ---- updates ----

  /** What an update leaves in the file: nothing changes when the YAML does not parse. */
  function Updated(codec: Codec, content: string, fields: Fields): string {
    match Parse(codec, content)
    case Malformed => content
    case Document(fm, body) => Dump(codec, fm + fields, body)
  }

  class TaskFile {
    var content: string

    method UpdateTaskFrontmatter(codec: Codec, fields: Fields) returns (ok: bool)
      modifies this
      ensures content == Updated(codec, old(content), fields)
      ensures ok <==> !Parse(codec, old(content)).Malformed?
    {
      var d := ParseFrontmatter(codec, content);
      if d.Malformed? { return false; }
      var fm, keys := d.fields, fields.Keys;
      while keys != {}
        invariant keys <= fields.Keys
        invariant fm == d.fields + map k | k in fields && k !in keys :: fields[k]
      {
        var k :| k in keys;
        fm := fm[k := fields[k]];
        keys := keys - {k};
      }
      assert fields == map k | k in fields && k !in keys :: fields[k];
      fm := CoerceDateFields(fm);
      content := Assemble(Yaml(codec, fm), d.body);
      return true;
    }
  }

  function UpdatedAll(codec: Codec, content: string, updates: seq<Fields>): string {
    if updates == [] then content
    else
      var n := |updates| - 1;
      Updated(codec, UpdatedAll(codec, content, updates[..n]), updates[n])
  }

  /** The value a key ends up with: the last one it was given, as a plain day if it is a date. */
  function LastValue(fm: Fields, updates: seq<Fields>, k: string): Option<Field> {
    if updates == [] then if k in fm then Some(fm[k]) else None
    else
      var n := |updates| - 1;
      if k in updates[n] then Some(Day(k, updates[n][k]))
      else
        var v := LastValue(fm, updates[..n], k);
        if v.None? then None else Some(Day(k, v.value))
  }

  function FinalFields(fm: Fields, updates: seq<Fields>): Fields {
    if updates == [] then fm
    else
      var n := |updates| - 1;
      Coerced(FinalFields(fm, updates[..n]) + updates[n])
  }

  lemma {:induction false} FinalFieldsAreLast(fm: Fields, updates: seq<Fields>)
    ensures forall k ::
      if k in FinalFields(fm, updates) then LastValue(fm, updates, k) == Some(FinalFields(fm, updates)[k])
      else LastValue(fm, updates, k).None?
  {
    if updates != [] { FinalFieldsAreLast(fm, updates[..|updates| - 1]); }
  }

  /** Any number of updates keeps the body byte for byte, also one that holds fences itself,
      and leaves every key with the last value it was given. */
  lemma {:induction false} UpdatesKeepBody(codec: Codec, content: string, updates: seq<Fields>)
    requires Parse(codec, content).Document?
    requires forall n | 1 <= n <= |updates| ::
      Faithful(codec, FinalFields(Parse(codec, content).fields, updates[..n]))
    ensures var d, e := Parse(codec, content), Parse(codec, UpdatedAll(codec, content, updates));
      && e.Document? && e.body == d.body
      && forall k :: LastValue(d.fields, updates, k) == if k in e.fields then Some(e.fields[k]) else None
  {
    var d := Parse(codec, content);
    UpdatesReach(codec, content, updates);
    FinalFieldsAreLast(d.fields, updates);
  }

  lemma {:induction false} UpdatesReach(codec: Codec, content: string, updates: seq<Fields>)
    requires Parse(codec, content).Document?
    requires forall n | 1 <= n <= |updates| ::
      Faithful(codec, FinalFields(Parse(codec, content).fields, updates[..n]))
    ensures var d := Parse(codec, content);
      Parse(codec, UpdatedAll(codec, content, updates)) == Document(FinalFields(d.fields, updates), d.body)
  {
    if updates != [] {
      var d, n := Parse(codec, content), |updates| - 1;
      var before := updates[..n];
      assert forall m | 1 <= m <= n :: before[..m] == updates[..m];
      UpdatesReach(codec, content, before);
      assert updates[..|updates|] == updates;
      RoundTripExactly(codec, FinalFields(d.fields, before) + updates[n], d.body);
    }
  }
}
