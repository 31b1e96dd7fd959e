/** A reader for canonical texts, and the proof that it undoes the printer. */
module AuditDecoder {
  import opened Text
  import opened Decimal
  import opened AuditCanonical

  // ---- strings ----

  function HexValue(c: char): Option<nat> {
    if IsDigit(c) then Some(c as int - '0' as int)
    else if 'a' <= c <= 'f' then Some(c as int - 'a' as int + 10)
    else None
  }

  /** One possibly escaped character, and how much text it took. */
  function ReadChar(t: string): (r: Option<(char, nat)>)
    requires t != []
    ensures r.Some? ==> 0 < r.value.1 <= |t|
  {
    if t[0] != '\\' then Some((t[0], 1))
    else if |t| < 2 then None
    else if t[1] == '"' || t[1] == '\\' then Some((t[1], 2))
    else if t[1] == 'n' then Some(('\n', 2))
    else if t[1] == 'r' then Some(('\r', 2))
    else if t[1] == 't' then Some(('\t', 2))
    else if |t| >= 6 && t[1..4] == "u00" && HexValue(t[4]).Some? && HexValue(t[5]).Some? then
      Some(((16 * HexValue(t[4]).value + HexValue(t[5]).value) as char, 6))
    else None
  }

  /** The rest of a string whose opening quote has been read. */
  function ReadString(t: string): (r: Option<(string, string)>)
    ensures r.Some? ==> |r.value.1| < |t|
    decreases |t|
  {
    if t == [] then None
    else if t[0] == '"' then Some(("", t[1..]))
    else match ReadChar(t)
      case None => None
      case Some((c, n)) =>
        match ReadString(t[n..])
        case None => None
        case Some((s, rest)) => Some(([c] + s, rest))
  }

  lemma ReadCharEscape(c: char, t: string)
    ensures Escape(c) != [] && Escape(c)[0] != '"'
    ensures ReadChar(Escape(c) + t) == Some((c, |Escape(c)|))
  {
    var e := Escape(c) + t;
    if c as int < 0x20 && c != '\n' && c != '\r' && c != '\t' {
      assert e[1..4] == "u00";
      assert e[4] == HexChar(c as int / 16) && e[5] == HexChar(c as int % 16);
    }
  }

  lemma {:induction false} ReadStringEscaped(s: string, rest: string)
    ensures ReadString(Escaped(s) + "\"" + rest) == Some((s, rest))
  {
    hide Escape, ReadChar;
    var t := Escaped(s) + "\"" + rest;
    if s == [] {
      assert t == "\"" + rest;
    } else {
      var tail := Escaped(s[1..]) + "\"" + rest;
      assert t == Escape(s[0]) + tail;
      ReadCharEscape(s[0], tail);
      assert t[|Escape(s[0])|..] == tail;
      ReadStringEscaped(s[1..], rest);
      assert s == [s[0]] + s[1..];
    }
  }

  // ---- number tokens ----

  function NumRun(t: string): (n: nat)
    ensures n <= |t| && forall c | c in t[..n] :: IsNumChar(c)
  {
    if t != [] && IsNumChar(t[0]) then
      var n := 1 + NumRun(t[1..]);
      assert t[..n] == [t[0]] + t[1..][..n - 1];
      n
    else 0
  }

  predicate Stops(rest: string) {
    rest == [] || !IsNumChar(rest[0])
  }

  lemma {:induction false} NumRunStops(x: string, rest: string)
    requires Stops(rest) && forall c | c in x :: IsNumChar(c)
    ensures NumRun(x + rest) == |x|
  {
    if x == [] {
      assert x + rest == rest;
    } else {
      assert (x + rest)[1..] == x[1..] + rest;
      NumRunStops(x[1..], rest);
    }
  }

  // ---- values ----

  function ReadValue(t: string): (r: Option<(Json, string)>)
    ensures r.Some? ==> |r.value.1| < |t|
    decreases |t|, 0
  {
    if t == [] then None
    else if t[0] == 'n' then if "null" <= t then Some((JNull, t[4..])) else None
    else if t[0] == 't' then if "true" <= t then Some((JBool(true), t[4..])) else None
    else if t[0] == 'f' then if "false" <= t then Some((JBool(false), t[5..])) else None
    else if t[0] == '"' then
      match ReadString(t[1..])
      case None => None
      case Some((s, rest)) => Some((JStr(s), rest))
    else if t[0] == '[' then
      if |t| > 1 && t[1] == ']' then Some((JArr([]), t[2..]))
      else match ReadItems(t[1..])
        case None => None
        case Some((items, rest)) => Some((JArr(items), rest))
    else if t[0] == '{' then
      if |t| > 1 && t[1] == '}' then Some((JObj(map[]), t[2..]))
      else match ReadMembers(t[1..])
        case None => None
        case Some((fields, rest)) => Some((JObj(fields), rest))
    else
      var n := NumRun(t);
      if IsNumText(t[..n]) then Some((JNum(t[..n]), t[n..])) else None
  }

  function ReadItems(t: string): (r: Option<(seq<Json>, string)>)
    ensures r.Some? ==> |r.value.1| < |t|
    decreases |t|, 1
  {
    match ReadValue(t)
    case None => None
    case Some((v, rest)) =>
      if rest == [] then None
      else if rest[0] == ']' then Some(([v], rest[1..]))
      else if rest[0] == ',' then
        match ReadItems(rest[1..])
        case None => None
        case Some((vs, rest')) => Some(([v] + vs, rest'))
      else None
  }

  function ReadMembers(t: string): (r: Option<(map<string, Json>, string)>)
    ensures r.Some? ==> |r.value.1| < |t|
    decreases |t|, 1
  {
    if t == [] || t[0] != '"' then None
    else match ReadString(t[1..])
      case None => None
      case Some((k, rest)) =>
        if rest == [] || rest[0] != ':' then None
        else match ReadValue(rest[1..])
          case None => None
          case Some((v, rest)) =>
            if rest == [] then None
            else if rest[0] == '}' then Some((map[k := v], rest[1..]))
            else if rest[0] == ',' then
              match ReadMembers(rest[1..])
              case None => None
              case Some((m, rest')) => Some((m[k := v], rest'))
            else None
  }

  // ---- round trip ----

  lemma PrintStart(j: Json)
    ensures Print(j) != [] && Print(j)[0] != ']'
  {
  }

  /** Reading what was printed gives the tree back and stops exactly behind it. */
  lemma {:induction false} ReadPrint(j: Json, rest: string)
    requires Stops(rest)
    ensures ReadValue(Print(j) + rest) == Some((j, rest))
    decreases j, 1, 0
  {
    hide ReadValue;
    match j
    case JNull => ReadLiteral(rest);
    case JBool(b) => ReadLiteral(rest);
    case JStr(s) => ReadQuoted(s, rest);
    case JNum(text) => ReadNum(text, rest);
    case JArr(items) => ReadPrintArr(j, rest);
    case JObj(fields) => ReadPrintObj(j, rest);
  }

  lemma ReadLiteral(rest: string)
    ensures ReadValue("null" + rest) == Some((JNull, rest))
    ensures ReadValue("true" + rest) == Some((JBool(true), rest))
    ensures ReadValue("false" + rest) == Some((JBool(false), rest))
  {
  }

  lemma ReadQuoted(s: string, rest: string)
    ensures ReadValue(Quoted(s) + rest) == Some((JStr(s), rest))
  {
    hide ReadString, Escaped, NumRun;
    ReadStringEscaped(s, rest);
    assert (Quoted(s) + rest)[1..] == Escaped(s) + "\"" + rest;
  }

  lemma ReadNum(text: NumText, rest: string)
    requires Stops(rest)
    ensures ReadValue(text + rest) == Some((JNum(text), rest))
  {
    var t := text + rest;
    NumRunStops(text, rest);
    assert t[..|text|] == text && t[|text|..] == rest;
  }

  lemma {:induction false} ReadPrintArr(j: Json, rest: string)
    requires j.JArr?
    ensures ReadValue(Print(j) + rest) == Some((j, rest))
    decreases j, 0, |j.items| + 1
  {
    hide ReadItems, PrintItems, Print;
    var t := Print(j) + rest;
    PrintArray(j);
    if j.items == [] {
      ItemsEnd(j);
      assert t == "[]" + rest;
    } else {
      ItemsAt(j, 0);
      PrintStart(j.items[0]);
      var body := Print(j.items[0]) + PrintItems(j, 1) + "]" + rest;
      assert t == "[" + body && t[1..] == body && t[1] == body[0] == Print(j.items[0])[0];
      ReadPrintItems(j, 0, rest);
      assert j.items[0..] == j.items;
    }
  }

  lemma PrintArray(j: Json)
    requires j.JArr?
    ensures Print(j) == "[" + PrintItems(j, 0) + "]"
  {
  }

  lemma ItemsEnd(j: Json)
    requires j.JArr?
    ensures PrintItems(j, |j.items|) == ""
  {
  }

  lemma ItemsAt(j: Json, i: nat)
    requires j.JArr? && i < |j.items|
    ensures PrintItems(j, i) == (if i > 0 then "," else "") + Print(j.items[i]) + PrintItems(j, i + 1)
  {
  }

  lemma ReadItemsLast(t: string, v: Json, rest: string)
    requires ReadValue(t) == Some((v, "]" + rest))
    ensures ReadItems(t) == Some(([v], rest))
  {
  }

  lemma ReadItemsMore(t: string, v: Json, next: string, vs: seq<Json>, rest: string)
    requires ReadValue(t) == Some((v, "," + next)) && ReadItems(next) == Some((vs, rest))
    ensures ReadItems(t) == Some(([v] + vs, rest))
  {
  }

  lemma {:induction false} ReadPrintItems(j: Json, i: nat, rest: string)
    requires j.JArr? && i < |j.items|
    ensures ReadItems(Print(j.items[i]) + PrintItems(j, i + 1) + "]" + rest) == Some((j.items[i..], rest))
    decreases j, 0, |j.items| - i
  {
    hide ReadValue, ReadItems, Print, PrintItems;
    var tail := PrintItems(j, i + 1) + "]" + rest;
    var t := Print(j.items[i]) + tail;
    assert Print(j.items[i]) + PrintItems(j, i + 1) + "]" + rest == t;
    assert j.items[i..] == [j.items[i]] + j.items[i + 1..];
    if i + 1 == |j.items| {
      ItemsEnd(j);
      assert tail == "]" + rest;
      ReadPrint(j.items[i], tail);
      ReadItemsLast(t, j.items[i], rest);
      assert j.items[i..] == [j.items[i]];
    } else {
      ItemsAt(j, i + 1);
      var next := Print(j.items[i + 1]) + PrintItems(j, i + 2) + "]" + rest;
      assert tail == "," + next;
      ReadPrint(j.items[i], tail);
      ReadPrintItems(j, i + 1, rest);
      ReadItemsMore(t, j.items[i], next, j.items[i + 1..], rest);
    }
  }

  lemma FieldsEnd(j: Json, keys: seq<string>)
    requires j.JObj? && forall k | k in keys :: k in j.fields
    ensures PrintFields(j, keys, |keys|) == ""
  {
  }

  lemma FieldsAt(j: Json, keys: seq<string>, i: nat)
    requires j.JObj? && i < |keys| && forall k | k in keys :: k in j.fields
    ensures PrintFields(j, keys, i) == (if i > 0 then "," else "")
      + Quoted(keys[i]) + ":" + Print(j.fields[keys[i]]) + PrintFields(j, keys, i + 1)
  {
  }

  /** The part of an object that its keys from the i-th on describe. */
  ghost function FieldsFrom(j: Json, keys: seq<string>, i: nat): map<string, Json>
    requires j.JObj? && i <= |keys| && forall k | k in keys :: k in j.fields
  {
    map k | k in keys[i..] :: j.fields[k]
  }

  lemma {:induction false} ReadPrintObj(j: Json, rest: string)
    requires j.JObj?
    ensures ReadValue(Print(j) + rest) == Some((j, rest))
    decreases j, 0, |SortedKeys(j.fields.Keys)| + 1
  {
    hide ReadMembers, PrintFields, Quoted, Print, NumRun, ReadString;
    var keys := SortedKeys(j.fields.Keys);
    var t := Print(j) + rest;
    PrintObject(j);
    if keys == [] {
      FieldsEnd(j, keys);
      assert t == "{}" + rest;
      assert forall k :: k in keys <==> k in j.fields;
      assert j.fields == map[];
    } else {
      FieldsAt(j, keys, 0);
      var body := Quoted(keys[0]) + ":" + Print(j.fields[keys[0]]) + PrintFields(j, keys, 1) + "}" + rest;
      assert t == "{" + body && t[1..] == body;
      assert body[0] == '"' by { QuotedStart(keys[0]); }
      ReadPrintFields(j, keys, 0, rest);
      assert FieldsFrom(j, keys, 0) == j.fields;
    }
  }

  lemma PrintObject(j: Json)
    requires j.JObj?
    ensures Print(j) == "{" + PrintFields(j, SortedKeys(j.fields.Keys), 0) + "}"
  {
  }

  lemma QuotedStart(s: string)
    ensures Quoted(s) != [] && Quoted(s)[0] == '"' && Quoted(s)[1..] == Escaped(s) + "\""
  {
  }

  lemma ReadMembersLast(k: string, value: string, v: Json, rest: string)
    requires ReadValue(value) == Some((v, "}" + rest))
    ensures ReadMembers(Quoted(k) + ":" + value) == Some((map[k := v], rest))
  {
    hide ReadValue, ReadString, Quoted;
    ReadKey(k, value);
    assert ("}" + rest)[1..] == rest;
  }

  lemma ReadMembersMore(k: string, value: string, v: Json, next: string, m: map<string, Json>, rest: string)
    requires ReadValue(value) == Some((v, "," + next)) && ReadMembers(next) == Some((m, rest))
    ensures ReadMembers(Quoted(k) + ":" + value) == Some((m[k := v], rest))
  {
    hide ReadValue, ReadString, Quoted;
    ReadKey(k, value);
    assert ("," + next)[1..] == next;
  }

  lemma ReadKey(k: string, value: string)
    ensures var t := Quoted(k) + ":" + value;
      t[0] == '"' && ReadString(t[1..]) == Some((k, ":" + value)) && (":" + value)[1..] == value
  {
    hide ReadString, Escaped;
    ReadStringEscaped(k, ":" + value);
    assert (Quoted(k) + ":" + value)[1..] == Escaped(k) + "\"" + (":" + value);
  }

  lemma {:induction false} ReadPrintFields(j: Json, keys: seq<string>, i: nat, rest: string)
    requires j.JObj? && i < |keys| && forall k | k in keys :: k in j.fields
    ensures ReadMembers(Quoted(keys[i]) + ":" + Print(j.fields[keys[i]]) + PrintFields(j, keys, i + 1) + "}" + rest)
      == Some((FieldsFrom(j, keys, i), rest))
    decreases j, 0, |keys| - i
  {
    hide ReadValue, ReadMembers, Print, PrintFields, Quoted;
    var k := keys[i];
    var tail := PrintFields(j, keys, i + 1) + "}" + rest;
    var value := Print(j.fields[k]) + tail;
    assert Quoted(k) + ":" + Print(j.fields[k]) + PrintFields(j, keys, i + 1) + "}" + rest == Quoted(k) + ":" + value;
    FieldsFromNext(j, keys, i);
    if i + 1 == |keys| {
      FieldsEnd(j, keys);
      assert tail == "}" + rest;
      ReadPrint(j.fields[k], tail);
      ReadMembersLast(k, value, j.fields[k], rest);
    } else {
      FieldsAt(j, keys, i + 1);
      var next := Quoted(keys[i + 1]) + ":" + Print(j.fields[keys[i + 1]]) + PrintFields(j, keys, i + 2) + "}" + rest;
      assert tail == "," + next;
      ReadPrint(j.fields[k], tail);
      ReadPrintFields(j, keys, i + 1, rest);
      ReadMembersMore(k, value, j.fields[k], next, FieldsFrom(j, keys, i + 1), rest);
    }
  }

  lemma FieldsFromNext(j: Json, keys: seq<string>, i: nat)
    requires j.JObj? && i < |keys| && forall k | k in keys :: k in j.fields
    ensures FieldsFrom(j, keys, i) == FieldsFrom(j, keys, i + 1)[keys[i] := j.fields[keys[i]]]
    ensures i + 1 == |keys| ==> FieldsFrom(j, keys, i) == map[keys[i] := j.fields[keys[i]]]
  {
  }
}
