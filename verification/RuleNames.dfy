/** The names that the rule cascade goes by, pkg/rules/types.go and pkg/rules/config.go, written out:
    severities, environment variables, labels of extended configs. */
module RuleNames {
  import opened Text
  import opened RuleCascade
  import opened ExtendsWalks

  /** What each severity may be called, in any letter case and with white space around it. */
  lemma SeverityNames(raw: string)
    ensures var word := Lower(TrimSpace(raw));
      ParseSeverity(raw) ==
        if word == "off" || word == "" then Some(Off)
        else if word == "advisory" || word == "info" then Some(Advisory)
        else if word == "warn" || word == "warning" then Some(Warn)
        else if word == "block" || word == "error" then Some(Block)
        else if word == "hard-block" || word == "hardblock" || word == "fatal" then Some(HardBlock)
        else None
  {
    var word := Lower(TrimSpace(raw));
    var names := SEVERITY_NAMES;
    hide Lower, TrimSpace, Named;
    if i :| 0 <= i < |names| && names[i].0 == word { NamedFinds(names, word, i); } else { NamedNone(names, word); }
    assert names[0].0 == "off" && names[1].0 == "" && names[2].0 == "advisory" && names[3].0 == "info";
    assert names[4].0 == "warn" && names[5].0 == "warning" && names[6].0 == "block" && names[7].0 == "error";
    assert names[8].0 == "hard-block" && names[9].0 == "hardblock" && names[10].0 == "fatal" && |names| == 11;
  }

  lemma {:induction false} NamedFinds(names: seq<(string, Severity)>, name: string, i: nat)
    requires i < |names| && names[i].0 == name && forall j | 0 <= j < |names| && names[j].0 == name :: names[j].1 == names[i].1
    ensures Named(names, name) == Some(names[i].1)
  {
    if names[0].0 != name { NamedFinds(names[1..], name, i - 1); }
  }

  lemma {:induction false} NamedNone(names: seq<(string, Severity)>, name: string)
    requires forall i | 0 <= i < |names| :: names[i].0 != name
    ensures Named(names, name) == None
  {
    if names != [] { NamedNone(names[1..], name); }
  }

  // ---- environment variables ----

  /** The variable of a rule: a fixed prefix, then the ID with dots as underscores and letters as capitals. */
  lemma EnvKeyChars(id: string)
    ensures var key := EnvKey(id);
      && |key| == 10 + |id| && key[..10] == "HSTL_RULE_"
      && (forall i | 0 <= i < |id| :: key[10 + i] ==
            if id[i] == '.' then '_' else if id[i] in LOWER_LETTERS then UpperChar(id[i]) else id[i])
      && '.' !in key && forall c | c in key :: c !in LOWER_LETTERS
  {
    var key := EnvKey(id);
    EnvKeyAt(id);
    PrefixIsUpper();
    UpperIsNotLower('_');
    hide EnvKey, UpperChar;
    forall i | 0 <= i < |id| { UpperIsNotLower(id[i]); }
    forall j | 0 <= j < |key| ensures key[j] != '.' && key[j] !in LOWER_LETTERS {
      if j < 10 { assert key[j] == key[..10][j]; } else { UpperIsNotLower(Undotted(id[j - 10])); }
    }
  }

  lemma EnvKeyAt(id: string)
    ensures var key := EnvKey(id);
      && |key| == 10 + |id| && key[..10] == "HSTL_RULE_"
      && forall j {:trigger key[j]} | 10 <= j < |key| :: key[j] == UpperChar(Undotted(id[j - 10]))
  {
  }

  lemma PrefixIsUpper()
    ensures '.' !in "HSTL_RULE_" && forall c | c in "HSTL_RULE_" :: c !in LOWER_LETTERS
  {
    LowerCodes();
    var lower := LOWER_LETTERS;
    assert forall c | c in "HSTL_RULE_" :: c as int < 97;
  }

  lemma UpperIsNotLower(c: char)
    ensures UpperChar(c) !in LOWER_LETTERS && (UpperChar(c) == '.' ==> c == '.')
    ensures c !in LOWER_LETTERS ==> UpperChar(c) == c
  {
    LowerCodes();
    var lower := LOWER_LETTERS;
    if 97 <= c as int < 123 { assert lower[c as int - 97] == c; }
  }

  /** The same character, the same letter in another case, or a dot against an underscore. */
  predicate SameName(c: char, d: char) {
    || c == d || (c in "._" && d in "._")
    || exists i | 0 <= i < 26 :: c in [UPPER_LETTERS[i], LOWER_LETTERS[i]] && d in [UPPER_LETTERS[i], LOWER_LETTERS[i]]
  }

  lemma CasesMeet(c: char, d: char)
    ensures UpperChar(c) == UpperChar(d) <==>
      c == d || exists i | 0 <= i < 26 :: c in [UPPER_LETTERS[i], LOWER_LETTERS[i]] && d in [UPPER_LETTERS[i], LOWER_LETTERS[i]]
  {
    UpperCodes();
    LowerCodes();
    var upper, lower := UPPER_LETTERS, LOWER_LETTERS;
    if UpperChar(c) == UpperChar(d) && c != d {
      var i := UpperChar(c) as int - 65;
      assert upper[i] == UpperChar(c) && lower[i] as int == 97 + i;
    }
  }

  /** Rules share a variable exactly when their IDs are of one length and differ at most in letter case
      and in dots against underscores. */
  lemma SameKeyExactly(a: string, b: string)
    ensures EnvKey(a) == EnvKey(b) <==> |a| == |b| && forall i | 0 <= i < |a| :: SameName(a[i], b[i])
  {
    var k, l := EnvKey(a), EnvKey(b);
    assert |k| == |a| + 10 && |l| == |b| + 10 && k[..10] == l[..10] == "HSTL_RULE_";
    if |a| == |b| {
      forall j {:trigger k[j]} | 10 <= j < |k| ensures k[j] == l[j] <==> SameName(a[j - 10], b[j - 10]) {
        CharsMeet(a[j - 10], b[j - 10]);
      }
      hide EnvKey, SameName;
      if forall i | 0 <= i < |a| :: SameName(a[i], b[i]) { SameFrom(k, l); }
      if k == l {
        forall i | 0 <= i < |a| ensures SameName(a[i], b[i]) { assert k[i + 10] == l[i + 10]; }
      }
    }
  }

  lemma SameFrom(k: string, l: string)
    requires |k| == |l| >= 10 && k[..10] == l[..10] && forall j {:trigger k[j]} | 10 <= j < |k| :: k[j] == l[j]
    ensures k == l
  {
    forall j | 0 <= j < |k| ensures k[j] == l[j] { assert j < 10 ==> k[..10][j] == l[..10][j]; }
  }

  function Undotted(c: char): char {
    if c == '.' then '_' else c
  }

  lemma CharsMeet(c: char, d: char)
    ensures UpperChar(Undotted(c)) == UpperChar(Undotted(d)) <==> SameName(c, d)
  {
    CasesMeet(Undotted(c), Undotted(d));
    MarksAreNoLetters();
  }

  lemma MarksAreNoLetters()
    ensures forall i | 0 <= i < 26 :: UPPER_LETTERS[i] !in "._" && LOWER_LETTERS[i] !in "._"
  {
    UpperCodes();
    LowerCodes();
    var upper, lower := UPPER_LETTERS, LOWER_LETTERS;
    forall i | 0 <= i < 26 ensures upper[i] !in "._" && lower[i] !in "._" { }
  }

  // ---- worked examples ----

  /** A dotted rule and its variable. */
  lemma DottedRuleIsOverridden()
    ensures var id, key := "commit.message.korean", "HSTL_RULE_COMMIT_MESSAGE_KOREAN";
      var cfg := Config([], [], map[id := "warn"]);
      && Unfold(map[], cfg, {}, 0) == Ok(Node(cfg, []))
      && Effective(Node(cfg, []), map[key := "off"], id)
           == [Entry(Origin(Rules, "rules.yaml"), Warn), Entry(Origin(Env, key), Off)]
  {
    var id, key := "commit.message.korean", "HSTL_RULE_COMMIT_MESSAGE_KOREAN";
    KoreanKey();
    PlainWords();
    hide ParseSeverity, EnvKey;
    var cfg := Config([], [], map[id := "warn"]);
    assert Log(Node(cfg, []), OWN, id) == [Entry(OWN, Warn)];
  }

  lemma KoreanKey()
    ensures EnvKey("commit.message.korean") == "HSTL_RULE_COMMIT_MESSAGE_KOREAN"
  {
  }

  lemma PlainWords()
    ensures ParseSeverity("off") == Some(Off) && ParseSeverity("warn") == Some(Warn)
    ensures ParseSeverity("advisory") == Some(Advisory) && ParseSeverity("block") == Some(Block)
    ensures ParseSeverity("hard-block") == Some(HardBlock)
  {
    PlainWord("off");
    PlainWord("warn");
    PlainWord("advisory");
    PlainWord("block");
    PlainWord("hard-block");
    hide Lower, TrimSpace, ParseSeverity;
    SeverityNames("off");
    SeverityNames("warn");
    SeverityNames("advisory");
    SeverityNames("block");
    SeverityNames("hard-block");
  }

  lemma PlainWord(w: string)
    requires w != "" && forall i | 0 <= i < |w| :: w[i] == '-' || 'a' <= w[i] <= 'z'
    ensures Lower(TrimSpace(w)) == w
  {
  }

  function Strict(id: string): Config {
    Config([], [Policy("core", map[id := Block])], map[id := "warn"])
  }

  function Team(id: string, strict: string): Config {
    Config([strict], [], map[id := "advisory"])
  }

  function Project(id: string, team: string): Config {
    Config([team], [Policy("first", map[id := Warn]), Policy("second", map[id := HardBlock])], map[id := "off"])
  }

  function Example(id: string, strict: string, team: string): Tree {
    Node(Project(id, team), [Branch(team, Node(Team(id, strict), [Branch(strict, Node(Strict(id), []))]))])
  }

  /** What was decided about a rule over two levels of `extends`, with every label. */
  lemma ProvenanceOfARule(id: string, env: map<string, string>)
    requires EnvKey(id) !in env
    ensures var strict, team := "preset://hostler/strict", "./team.yaml";
      && Unfold(map[strict := Strict(id), team := Team(id, strict)], Project(id, team), {}, 0) == Ok(Example(id, strict, team))
      && Effective(Example(id, strict, team), env, id) == [
        Entry(Origin(Policies, "core"), Block), Entry(Origin(Preset, "preset://hostler/strict"), Warn),
        Entry(Origin(Extends, "./team.yaml"), Advisory),
        Entry(Origin(Policies, "first"), Warn), Entry(Origin(Policies, "second"), HardBlock),
        Entry(Origin(Rules, "rules.yaml"), Off)]
  {
    var strict, team := "preset://hostler/strict", "./team.yaml";
    assert strict[0] != team[0] && strict == "preset://hostler/" + "strict";
    Labels(strict, "strict", team);
    hide *;
    ExampleUnfolds(id, strict, team);
    ExampleLog(id, strict, team);
    NoVariable(Example(id, strict, team), env, id);
  }

  lemma NoVariable(t: Tree, env: map<string, string>, id: string)
    requires EnvKey(id) !in env
    ensures Effective(t, env, id) == Log(t, Origin(Rules, "rules.yaml"), id)
  {
    hide Log, EnvKey;
  }

  lemma ExampleUnfolds(id: string, strict: string, team: string)
    requires strict != team
    ensures Unfold(map[strict := Strict(id), team := Team(id, strict)], Project(id, team), {}, 0)
      == Ok(Example(id, strict, team))
  {
    PlainWords();
    OneRuleParses(id);
    hide Parses, ParseSeverity;
    ChainUnfolds(Strict(id), Team(id, strict), Project(id, team), strict, team);
  }

  lemma OneRuleParses(id: string)
    ensures forall word | ParseSeverity(word).Some? :: Parses(map[id := word])
  {
    hide ParseSeverity;
  }

  lemma ChainUnfolds(leaf: Config, middle: Config, top: Config, strict: string, team: string)
    requires strict != team && leaf.uris == [] && middle.uris == [strict] && top.uris == [team]
    requires Parses(leaf.rules) && Parses(middle.rules) && Parses(top.rules)
    ensures Unfold(map[strict := leaf, team := middle], top, {}, 0)
      == Ok(Node(top, [Branch(team, Node(middle, [Branch(strict, Node(leaf, []))]))]))
  {
    var load := map[strict := leaf, team := middle];
    hide Parses, Unfold;
    UnfoldLeaf(load, leaf, {team, strict}, 2);
    assert {team} + {strict} == {team, strict} && {} + {team} == {team};
    UnfoldOne(load, middle, strict, Node(leaf, []), {team}, 1);
    UnfoldOne(load, top, team, Node(middle, [Branch(strict, Node(leaf, []))]), {}, 0);
  }

  lemma ExampleLog(id: string, strict: string, team: string)
    requires LabelOf(strict) == Origin(Preset, strict) && LabelOf(team) == Origin(Extends, team)
    ensures Log(Example(id, strict, team), Origin(Rules, "rules.yaml"), id) == [
      Entry(Origin(Policies, "core"), Block), Entry(Origin(Preset, strict), Warn), Entry(Origin(Extends, team), Advisory),
      Entry(Origin(Policies, "first"), Warn), Entry(Origin(Policies, "second"), HardBlock),
      Entry(Origin(Rules, "rules.yaml"), Off)]
  {
    PlainWords();
    RuleLogs(id);
    hide ParseSeverity, LabelOf, Log, PolicyLog, RuleLog;
    LogLeaf(Strict(id), LabelOf(strict), id);
    LogOne(Team(id, strict), strict, Node(Strict(id), []), LabelOf(team), id);
    LogOne(Project(id, team), team, Node(Team(id, strict), [Branch(strict, Node(Strict(id), []))]), Origin(Rules, "rules.yaml"), id);
    PolicyLogOne(Policy("core", map[id := Block]), id);
    PolicyLogTwo(Policy("first", map[id := Warn]), Policy("second", map[id := HardBlock]), id);
    NoPolicies(id);
  }

  lemma RuleLogs(id: string)
    ensures forall own, word | ParseSeverity(word).Some? :: RuleLog(map[id := word], own, id) == [Entry(own, ParseSeverity(word).value)]
  {
    hide ParseSeverity;
  }

  lemma NoPolicies(id: string)
    ensures PolicyLog([], id) == []
  {
  }

  /** A preset is labelled as one, and any other config as extended. */
  lemma Labels(preset: string, name: string, other: string)
    requires preset == "preset://hostler/" + name && !("preset://hostler/" <= other)
    ensures LabelOf(preset) == Origin(Preset, preset) && LabelOf(other) == Origin(Extends, other)
  {
  }

  lemma UnfoldLeaf(load: Loader, cfg: Config, visited: set<string>, depth: nat)
    requires depth <= MAX_DEPTH && cfg.uris == [] && Parses(cfg.rules)
    ensures Unfold(load, cfg, visited, depth) == Ok(Node(cfg, []))
  {
    UnfoldNone(load, cfg.uris, visited, depth);
  }

  lemma UnfoldOne(load: Loader, cfg: Config, uri: string, t: Tree, visited: set<string>, depth: nat)
    requires depth <= MAX_DEPTH && cfg.uris == [uri] && Parses(cfg.rules) && uri !in visited && uri in load
    requires Unfold(load, load[uri], visited + {uri}, depth + 1) == Ok(t)
    ensures Unfold(load, cfg, visited, depth) == Ok(Node(cfg, [Branch(uri, t)]))
  {
    hide Parses;
    UnfoldNone(load, cfg.uris, visited, depth);
    UnfoldNext(load, cfg.uris, 0, visited, depth);
    UnfoldAll(load, cfg, visited, depth);
    assert UnfoldUri(load, uri, visited, depth) == Ok(t);
    assert [] + [Branch(uri, t)] == [Branch(uri, t)];
  }

  lemma LogLeaf(cfg: Config, own: Origin, id: string)
    ensures Log(Node(cfg, []), own, id) == PolicyLog(cfg.policies, id) + RuleLog(cfg.rules, own, id)
  {
  }

  lemma LogOne(cfg: Config, uri: string, t: Tree, own: Origin, id: string)
    ensures Log(Node(cfg, [Branch(uri, t)]), own, id)
      == Log(t, LabelOf(uri), id) + PolicyLog(cfg.policies, id) + RuleLog(cfg.rules, own, id)
  {
    var n := Node(cfg, [Branch(uri, t)]);
    assert LogFirst(n, 1, id) == LogFirst(n, 0, id) + Log(t, LabelOf(uri), id);
  }

  lemma PolicyLogOne(p: Policy, id: string)
    ensures PolicyLog([p], id) == OverrideLog(p.overrides, Origin(Policies, p.name), id)
  {
    assert [p][..0] == [];
  }

  lemma PolicyLogTwo(p: Policy, q: Policy, id: string)
    ensures PolicyLog([p, q], id)
      == OverrideLog(p.overrides, Origin(Policies, p.name), id) + OverrideLog(q.overrides, Origin(Policies, q.name), id)
  {
    PolicyLogOne(p, id);
    assert [p, q][..1] == [p];
  }
}
