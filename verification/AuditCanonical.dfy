/** The canonical event text of pkg/audit/hashchain.go, and a decoder for it.

    A details value of any Go type the printer handles prints as a JSON tree; the
    tree is what a reader can know about the value, and the text determines it. */
module AuditCanonical {
  import opened Text
  import opened Decimal

  // ---- values and what they print as ----

  /** Characters of number tokens; `%v` of a float may also be NaN, +Inf or -Inf. */
  predicate IsNumChar(c: char) {
    IsDigit(c) || c in "+-.eNaInf"
  }

  predicate IsNumText(t: string) {
    t != [] && (IsDigit(t[0]) || t[0] == '-' || t[0] == '+' || t[0] == 'N') && forall c | c in t :: IsNumChar(c)
  }

  type NumText = t: string | IsNumText(t) witness "0"

  /** The dynamic types that canonicalValue distinguishes: `Float` carries the text
      `%v` gives, `Other` the text of a value of any further type, `NilMap` and `NilArr`
      are a typed nil map and a nil slice. The integer types are one. */
  datatype Value =
    | Null
    | Str(s: string)
    | Bool(b: bool)
    | Int(n: int)
    | Float(text: NumText)
    | Other(repr: string)
    | NilMap
    | NilArr
    | Arr(items: seq<Value>)
    | Obj(fields: map<string, Value>)

  datatype Json =
    | JNull
    | JStr(s: string)
    | JBool(b: bool)
    | JNum(text: NumText)
    | JArr(items: seq<Json>)
    | JObj(fields: map<string, Json>)

  function IntNum(n: int): (t: NumText)
    ensures t == IntText(n)
  {
    var t := IntText(n);
    assert n >= 0 ==> t[0] in t;
    assert n < 0 ==> t == ['-'] + NatText(-n);
    t
  }

  function Meaning(v: Value): Json {
    match v
    case Null => JNull
    case NilMap => JNull
    case NilArr => JArr([])
    case Str(s) => JStr(s)
    case Other(repr) => JStr(repr)
    case Bool(b) => JBool(b)
    case Int(n) => JNum(IntNum(n))
    case Float(text) => JNum(text)
    case Arr(items) => JArr(seq(|items|, i requires 0 <= i < |items| => Meaning(items[i])))
    case Obj(fields) => JObj(map k | k in fields :: Meaning(fields[k]))
  }

  // ---- printing ----

  function HexChar(d: nat): char
    requires d < 16
  {
    if d < 10 then DigitChar(d) else ('a' as int + d - 10) as char
  }

  function Escape(c: char): string {
    if c == '"' then "\\\""
    else if c == '\\' then "\\\\"
    else if c == '\n' then "\\n"
    else if c == '\r' then "\\r"
    else if c == '\t' then "\\t"
    else if c as int < 0x20 then "\\u00" + [HexChar(c as int / 16), HexChar(c as int % 16)]
    else [c]
  }

  function Escaped(s: string): string {
    if s == [] then [] else Escape(s[0]) + Escaped(s[1..])
  }

  function Quoted(s: string): string {
    "\"" + Escaped(s) + "\""
  }

  /** The canonical text of a tree: no spaces, object keys in ascending order. */
  ghost function Print(j: Json): string
    decreases j, 1, 0
  {
    match j
    case JNull => "null"
    case JStr(s) => Quoted(s)
    case JBool(b) => if b then "true" else "false"
    case JNum(text) => text
    case JArr(items) => "[" + PrintItems(j, 0) + "]"
    case JObj(fields) => "{" + PrintFields(j, SortedKeys(fields.Keys), 0) + "}"
  }

  /** The items from the i-th on, each but the very first behind a comma. */
  ghost function PrintItems(j: Json, i: nat): string
    requires j.JArr? && i <= |j.items|
    decreases j, 0, |j.items| - i
  {
    if i == |j.items| then ""
    else (if i > 0 then "," else "") + Print(j.items[i]) + PrintItems(j, i + 1)
  }

  ghost function PrintFields(j: Json, keys: seq<string>, i: nat): string
    requires j.JObj? && i <= |keys| && forall k | k in keys :: k in j.fields
    decreases j, 0, |keys| - i
  {
    if i == |keys| then ""
    else (if i > 0 then "," else "") + Quoted(keys[i]) + ":" + Print(j.fields[keys[i]]) + PrintFields(j, keys, i + 1)
  }

  // ---- the printer of the source ----

  method Quote(s: string) returns (r: string)
    ensures r == Quoted(s)
  {
    hide Escape;
    r := "\"";
    for i := 0 to |s|
      invariant r + Escaped(s[i..]) + "\"" == Quoted(s)
    {
      assert s[i..][1..] == s[i + 1..];
      ghost var before := r;
      var e := EscapeRune(s[i]);
      r := r + e;
      EscapedStep(before, s[i..]);
    }
    r := r + "\"";
  }

  lemma EscapedStep(before: string, s: string)
    requires s != []
    ensures before + Escaped(s) + "\"" == before + Escape(s[0]) + Escaped(s[1..]) + "\""
  {
  }

  /** The switch of `quote` on one rune. */
  method EscapeRune(c: char) returns (r: string)
    ensures r == Escape(c)
  {
    r := "";
    if c == '"' { r := r + "\\\""; }
    else if c == '\\' { r := r + "\\\\"; }
    else if c == '\n' { r := r + "\\n"; }
    else if c == '\r' { r := r + "\\r"; }
    else if c == '\t' { r := r + "\\t"; }
    else if c as int < 0x20 { r := r + "\\u00" + [HexChar(c as int / 16), HexChar(c as int % 16)]; }
    else { r := r + [c]; }
  }

  /** The keys of a map, collected in the order the map yields them, then sorted. */
  method CollectKeys(m: map<string, Value>) returns (keys: seq<string>)
    ensures keys == SortedKeys(m.Keys)
  {
    keys := [];
    var todo := m.Keys;
    while todo != {}
      invariant todo <= m.Keys
      invariant forall k :: k in keys <==> k in m.Keys - todo
      invariant forall i, j | 0 <= i < j < |keys| :: keys[i] != keys[j]
    {
      var k :| k in todo;
      assert forall i | 0 <= i < |keys| :: keys[i] in keys;
      todo := todo - {k};
      keys := keys + [k];
    }
    assert (set k | k in keys) == m.Keys;
    keys := SortKeys(keys);
  }

  method CanonicalMap(v: Value) returns (r: string)
    requires v.Obj? || v.NilMap?
    ensures r == Print(Meaning(v))
    decreases v, 0
  {
    if v.NilMap? {
      return "null";
    }
    var m := v.fields;
    var keys := CollectKeys(m);
    ghost var j := Meaning(v);
    assert j.fields.Keys == m.Keys;
    ghost var text := Print(j);
    assert text == "{" + PrintFields(j, keys, 0) + "}";
    r := "{";
    hide Print, PrintFields, Meaning, Quoted;
    for i := 0 to |keys|
      invariant r + PrintFields(j, keys, i) + "}" == text
    {
      FieldsStep(r, j, keys, i);
      MeaningAt(v, keys[i]);
      if i > 0 { r := r + ","; }
      var q := Quote(keys[i]);
      r := r + q;
      r := r + ":";
      var w := CanonicalValue(m[keys[i]]);
      r := r + w;
    }
    NoFields(j, keys);
    r := r + "}";
  }

  lemma MeaningAt(v: Value, k: string)
    requires v.Obj? && k in v.fields
    ensures Meaning(v).JObj? && k in Meaning(v).fields && Meaning(v).fields[k] == Meaning(v.fields[k])
  {
  }

  lemma NoFields(j: Json, keys: seq<string>)
    requires j.JObj? && forall k | k in keys :: k in j.fields
    ensures PrintFields(j, keys, |keys|) == ""
  {
  }

  lemma FieldsStep(r: string, j: Json, keys: seq<string>, i: nat)
    requires j.JObj? && i < |keys| && forall k | k in keys :: k in j.fields
    ensures r + PrintFields(j, keys, i) + "}"
      == (if i > 0 then r + "," else r) + Quoted(keys[i]) + ":" + Print(j.fields[keys[i]])
         + PrintFields(j, keys, i + 1) + "}"
  {
    hide Print, Quoted;
  }

  /** The text of a value is the text of its meaning, whatever order its maps yield keys in. */
  method CanonicalValue(v: Value) returns (r: string)
    ensures r == Print(Meaning(v))
    decreases v, 1
  {
    match v
    case Null => r := "null";
    case Str(s) => r := Quote(s);
    case Bool(b) => r := if b then "true" else "false";
    case Int(n) => r := IntText(n);
    case Float(text) => r := text;
    case Obj(_) => r := CanonicalMap(v);
    case NilMap => r := CanonicalMap(v);
    case Arr(_) => r := CanonicalArray(v);
    case NilArr => r := CanonicalArray(v);
    case Other(repr) => r := Quote(repr);
  }

  /** The []any case of canonicalValue. */
  method CanonicalArray(v: Value) returns (r: string)
    requires v.Arr? || v.NilArr?
    ensures r == Print(Meaning(v))
    decreases v, 0
  {
    ghost var j := Meaning(v);
    ghost var text := Print(j);
    assert text == "[" + PrintItems(j, 0) + "]";
    var items := if v.NilArr? then [] else v.items;
    assert |j.items| == |items| && forall i | 0 <= i < |items| :: j.items[i] == Meaning(items[i]);
    r := "[";
    hide Print, PrintItems, Meaning;
    for i := 0 to |items|
      invariant r + PrintItems(j, i) + "]" == text
    {
      ItemsStep(r, j, i);
      if i > 0 { r := r + ","; }
      var w := CanonicalValue(items[i]);
      r := r + w;
    }
    NoItems(j);
    r := r + "]";
  }

  lemma NoItems(j: Json)
    requires j.JArr?
    ensures PrintItems(j, |j.items|) == ""
  {
  }

  lemma ItemsStep(r: string, j: Json, i: nat)
    requires j.JArr? && i < |j.items|
    ensures r + PrintItems(j, i) + "]" == (if i > 0 then r + "," else r) + Print(j.items[i]) + PrintItems(j, i + 1) + "]"
  {
    hide Print;
  }
}
