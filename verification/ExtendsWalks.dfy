/** What the cycle and depth guards of applyCascade decide, stated on walks
    through the extends graph instead of on the recursion. */
module ExtendsWalks {
  import opened Text
  import opened RuleCascade

  /** `p` follows extends edges from `cfg`; its last URI need not load. */
  ghost predicate Walk(load: Loader, cfg: Config, p: seq<string>)
    decreases |p|
  {
    p != [] && p[0] in cfg.uris && (|p| > 1 ==> p[0] in load && Walk(load, load[p[0]], p[1..]))
  }

  ghost predicate Distinct(p: seq<string>) {
    forall i, j | 0 <= i < j < |p| :: p[i] != p[j]
  }

  ghost predicate Avoids(p: seq<string>, visited: set<string>) {
    forall u | u in p :: u !in visited
  }

  /** Everything the guards ask of one walk that starts `depth` levels down. */
  ghost predicate Sound(load: Loader, p: seq<string>, visited: set<string>, depth: nat)
    requires p != []
  {
    var last := p[|p| - 1];
    && Distinct(p) && Avoids(p, visited)
    && depth + |p| <= 16
    && last in load && Parses(load[last].rules)
  }

  ghost predicate AllSound(load: Loader, cfg: Config, visited: set<string>, depth: nat) {
    forall p | Walk(load, cfg, p) :: Sound(load, p, visited, depth)
  }

  /** The cascade succeeds exactly when every walk from the root repeats no URI,
      has at most 16 URIs, and reaches only configs that load and parse.
      Diamonds are no obstacle: two walks may share URIs. */
  lemma SucceedsExactly(load: Loader, cfg: Config)
    ensures Unfold(load, cfg, {}, 0).Ok? <==> Parses(cfg.rules) && AllSound(load, cfg, {}, 0)
  {
    OkExactly(load, cfg, {}, 0);
  }

  lemma {:induction false} OkExactly(load: Loader, cfg: Config, visited: set<string>, depth: nat)
    requires depth <= MAX_DEPTH
    ensures Unfold(load, cfg, visited, depth).Ok? <==> Parses(cfg.rules) && AllSound(load, cfg, visited, depth)
    decreases MAX_DEPTH - depth
  {
    hide Parses;
    if Unfold(load, cfg, visited, depth).Ok? {
      forall p | Walk(load, cfg, p) ensures Sound(load, p, visited, depth) {
        WalkSound(load, cfg, visited, depth, p);
      }
    }
    if AllSound(load, cfg, visited, depth) {
      FirstOk(load, cfg, |cfg.uris|, visited, depth);
    }
  }

  lemma {:induction false} WalkSound(load: Loader, cfg: Config, visited: set<string>, depth: nat, p: seq<string>)
    requires depth <= MAX_DEPTH && Unfold(load, cfg, visited, depth).Ok? && Walk(load, cfg, p)
    ensures Sound(load, p, visited, depth)
    decreases MAX_DEPTH - depth, 0
  {
    var u := p[0];
    var i :| 0 <= i < |cfg.uris| && cfg.uris[i] == u;
    PrefixOk(load, cfg.uris, i + 1, visited, depth);
    assert Unfold(load, load[u], visited + {u}, depth + 1).Ok?;
    if |p| > 1 {
      OkExactly(load, load[u], visited + {u}, depth + 1);
      assert Sound(load, p[1..], visited + {u}, depth + 1);
      assert p == [u] + p[1..];
    }
  }

  lemma PrefixOk(load: Loader, uris: seq<string>, n: nat, visited: set<string>, depth: nat)
    requires n <= |uris| && depth <= MAX_DEPTH && UnfoldFirst(load, uris, |uris|, visited, depth).Ok?
    ensures UnfoldFirst(load, uris, n, visited, depth).Ok?
  {
    if UnfoldFirst(load, uris, n, visited, depth).Err? { UnfoldErrorStays(load, uris, n, visited, depth); }
  }

  lemma {:induction false} FirstOk(load: Loader, cfg: Config, n: nat, visited: set<string>, depth: nat)
    requires depth <= MAX_DEPTH && n <= |cfg.uris| && AllSound(load, cfg, visited, depth)
    ensures UnfoldFirst(load, cfg.uris, n, visited, depth).Ok?
    decreases MAX_DEPTH - depth, n
  {
    if n > 0 {
      FirstOk(load, cfg, n - 1, visited, depth);
      var u := cfg.uris[n - 1];
      assert Walk(load, cfg, [u]);
      assert Sound(load, [u], visited, depth);
      forall q | Walk(load, load[u], q) ensures Sound(load, q, visited + {u}, depth + 1) {
        var p := [u] + q;
        assert p[1..] == q;
        assert Walk(load, cfg, p) && Sound(load, p, visited, depth);
        assert forall i | 0 <= i < |q| :: q[i] == p[i + 1];
      }
      OkExactly(load, load[u], visited + {u}, depth + 1);
    }
  }

  // ---------------------------------------------------------------------
  // What each error proves
  // ---------------------------------------------------------------------

  /** The evidence behind an error: a walk of pairwise different URIs whose next
      step repeats one, is one too deep, does not load, or does not parse. */
  ghost predicate Evidence(load: Loader, cfg: Config, visited: set<string>, depth: nat, e: Error, p: seq<string>) {
    && (p != [] ==> Walk(load, cfg, p))
    && match e
      case CyclicExtends =>
        p != [] && Distinct(p[..|p| - 1]) && Avoids(p[..|p| - 1], visited)
        && (p[|p| - 1] in visited || p[|p| - 1] in p[..|p| - 1])
      case DepthExceeded => Distinct(p) && Avoids(p, visited) && depth + |p| == 17
      case LoadFailed => p != [] && p[|p| - 1] !in load
      case BadSeverity =>
        if p == [] then !Parses(cfg.rules) else p[|p| - 1] in load && !Parses(load[p[|p| - 1]].rules)
  }

  lemma {:induction false} ErrorEvidence(load: Loader, cfg: Config, visited: set<string>, depth: nat)
    returns (p: seq<string>)
    requires depth <= MAX_DEPTH + 1 && Unfold(load, cfg, visited, depth).Err?
    ensures Evidence(load, cfg, visited, depth, Unfold(load, cfg, visited, depth).error, p)
    decreases MAX_DEPTH + 1 - depth, 1, 0
  {
    hide Parses;
    p := [];
    if depth <= MAX_DEPTH && UnfoldFirst(load, cfg.uris, |cfg.uris|, visited, depth).Err? {
      p := FirstEvidence(load, cfg, |cfg.uris|, visited, depth);
    }
  }

  lemma {:induction false} FirstEvidence(load: Loader, cfg: Config, n: nat, visited: set<string>, depth: nat)
    returns (p: seq<string>)
    requires depth <= MAX_DEPTH && n <= |cfg.uris| && UnfoldFirst(load, cfg.uris, n, visited, depth).Err?
    ensures p != [] && Evidence(load, cfg, visited, depth, UnfoldFirst(load, cfg.uris, n, visited, depth).error, p)
    decreases MAX_DEPTH + 1 - depth, 0, n
  {
    if UnfoldFirst(load, cfg.uris, n - 1, visited, depth).Err? {
      p := FirstEvidence(load, cfg, n - 1, visited, depth);
    } else {
      var u := cfg.uris[n - 1];
      p := [u];
      if u !in visited && u in load {
        var q := ErrorEvidence(load, load[u], visited + {u}, depth + 1);
        p := [u] + q;
        ExtendEvidence(load, cfg, visited, depth, Unfold(load, load[u], visited + {u}, depth + 1).error, u, q);
      }
    }
  }

  lemma ExtendEvidence(load: Loader, cfg: Config, visited: set<string>, depth: nat, e: Error, u: string, q: seq<string>)
    requires u in cfg.uris && u in load && u !in visited
    requires Evidence(load, load[u], visited + {u}, depth + 1, e, q)
    ensures Evidence(load, cfg, visited, depth, e, [u] + q)
  {
  }

  /** A depth error exhibits a chain of 17 different URIs; a cycle error exhibits a cycle. */
  lemma GuardErrorsAreReal(load: Loader, cfg: Config) returns (p: seq<string>)
    requires Unfold(load, cfg, {}, 0) == Err(DepthExceeded) || Unfold(load, cfg, {}, 0) == Err(CyclicExtends)
    ensures Walk(load, cfg, p)
    ensures Unfold(load, cfg, {}, 0) == Err(DepthExceeded) ==> Distinct(p) && |p| == 17
    ensures Unfold(load, cfg, {}, 0) == Err(CyclicExtends) ==> Distinct(p[..|p| - 1]) && p[|p| - 1] in p[..|p| - 1]
  {
    p := ErrorEvidence(load, cfg, {}, 0);
  }

  // ---------------------------------------------------------------------
  // Exactness on graphs of at most 16 URIs
  // ---------------------------------------------------------------------

  /** `s` is closed under extends and everything in it loads and parses. */
  ghost predicate Closed(load: Loader, cfg: Config, s: set<string>) {
    && Parses(cfg.rules)
    && (forall u | u in cfg.uris :: u in s)
    && forall u | u in s :: u in load && Parses(load[u].rules) && forall v | v in load[u].uris :: v in s
  }

  ghost predicate HasCycle(load: Loader, cfg: Config) {
    exists p :: Walk(load, cfg, p) && !Distinct(p)
  }

  /** On a loadable graph of at most 16 URIs the verdict is exactly "is there a cycle". */
  lemma CycleDetectionExact(load: Loader, cfg: Config, s: set<string>)
    requires Closed(load, cfg, s) && |s| <= 16
    ensures Unfold(load, cfg, {}, 0) == Err(CyclicExtends) <==> HasCycle(load, cfg)
    ensures Unfold(load, cfg, {}, 0).Ok? <==> !HasCycle(load, cfg)
  {
    hide Parses;
    SucceedsExactly(load, cfg);
    if Unfold(load, cfg, {}, 0).Ok? {
      forall p | Walk(load, cfg, p) ensures Distinct(p) { assert Sound(load, p, {}, 0); }
    } else {
      var e := Unfold(load, cfg, {}, 0).error;
      var p := ErrorEvidence(load, cfg, {}, 0);
      if p != [] { WalkStaysIn(load, cfg, s, p); }
      if e == DepthExceeded {
        PigeonHole(p, s);
      } else if e == CyclicExtends {
        var j :| 0 <= j < |p| - 1 && p[j] == p[|p| - 1];
        assert !Distinct(p);
      }
    }
  }

  lemma {:induction false} WalkStaysIn(load: Loader, cfg: Config, s: set<string>, p: seq<string>)
    requires Closed(load, cfg, s) && Walk(load, cfg, p)
    ensures forall u | u in p :: u in s
    decreases |p|
  {
    hide Parses;
    if |p| > 1 {
      WalkStaysIn(load, load[p[0]], s, p[1..]);
    }
    assert p == [p[0]] + p[1..];
  }

  lemma {:induction false} PigeonHole(p: seq<string>, s: set<string>)
    requires Distinct(p) && forall u | u in p :: u in s
    ensures |p| <= |s|
    decreases |p|
  {
    if p != [] {
      var q := p[1..];
      forall u | u in q ensures u in s - {p[0]} {
        var i :| 0 <= i < |q| && q[i] == u;
        assert p[i + 1] == u;
      }
      PigeonHole(q, s - {p[0]});
    }
  }

  // ---------------------------------------------------------------------
  // The tree is the whole unfolding
  // ---------------------------------------------------------------------

  /** Each child is the complete tree of what the matching URI loads as. */
  ghost predicate IsTreeOf(load: Loader, cfg: Config, t: Tree)
    decreases t
  {
    && t.cfg == cfg && |t.children| == |cfg.uris|
    && forall i | 0 <= i < |t.children| ::
      t.children[i].uri == cfg.uris[i] && cfg.uris[i] in load && IsTreeOf(load, load[cfg.uris[i]], t.children[i].tree)
  }

  lemma {:induction false} UnfoldIsTree(load: Loader, cfg: Config, visited: set<string>, depth: nat)
    requires depth <= MAX_DEPTH && Unfold(load, cfg, visited, depth).Ok?
    ensures IsTreeOf(load, cfg, Unfold(load, cfg, visited, depth).value)
    decreases MAX_DEPTH + 1 - depth, 1, 0
  {
    hide Parses;
    FirstIsTree(load, cfg, |cfg.uris|, visited, depth);
  }

  lemma {:induction false} FirstIsTree(load: Loader, cfg: Config, n: nat, visited: set<string>, depth: nat)
    requires depth <= MAX_DEPTH && n <= |cfg.uris| && UnfoldFirst(load, cfg.uris, n, visited, depth).Ok?
    ensures var ts := UnfoldFirst(load, cfg.uris, n, visited, depth).value;
      forall i | 0 <= i < n ::
        ts[i].uri == cfg.uris[i] && cfg.uris[i] in load && IsTreeOf(load, load[cfg.uris[i]], ts[i].tree)
    decreases MAX_DEPTH + 1 - depth, 0, n
  {
    if n > 0 {
      FirstIsTree(load, cfg, n - 1, visited, depth);
      var u := cfg.uris[n - 1];
      if depth < MAX_DEPTH { UnfoldIsTree(load, load[u], visited + {u}, depth + 1); }
    }
  }

  /** A graph has at most one complete tree, so the log is a function of the graph. */
  lemma {:induction false} TreeUnique(load: Loader, cfg: Config, t: Tree, u: Tree)
    requires IsTreeOf(load, cfg, t) && IsTreeOf(load, cfg, u)
    ensures t == u
    decreases t
  {
    forall i | 0 <= i < |t.children| ensures t.children[i] == u.children[i] {
      TreeUnique(load, load[cfg.uris[i]], t.children[i].tree, u.children[i].tree);
    }
    assert t.children == u.children;
  }

  // ---------------------------------------------------------------------
  // Hard blocks
  // ---------------------------------------------------------------------

  predicate Hard(e: Option<Entry>) {
    e.Some? && e.value.severity == HardBlock
  }

  /** The environment never touches a rule that the configs left at hard-block. */
  lemma EnvKeepsHardBlock(t: Tree, env: map<string, string>, id: string)
    requires Log(t, OWN, id) != []
    ensures var h := Log(t, OWN, id); h[|h| - 1].severity == HardBlock ==> Effective(t, env, id) == h
    ensures Log(t, OWN, id) <= Effective(t, env, id)
  {
  }

  /** The decision by priority: the config's own rule, else its last policy that
      names the rule, else the last extended config that decides it. */
  function Decision(t: Tree, own: Origin, id: string): Option<Entry>
    decreases t, 1, 0
  {
    if id in t.cfg.rules && ParseSeverity(t.cfg.rules[id]).Some? then
      Some(Entry(own, ParseSeverity(t.cfg.rules[id]).value))
    else match LastPolicy(t.cfg.policies, id)
      case Some(e) => Some(e)
      case None => LastChild(t, |t.children|, id)
  }

  function LastPolicy(policies: seq<Policy>, id: string): Option<Entry> {
    if policies == [] then None
    else
      var p := policies[|policies| - 1];
      if id in p.overrides then Some(Entry(Origin(Policies, p.name), p.overrides[id]))
      else LastPolicy(policies[..|policies| - 1], id)
  }

  function LastChild(t: Tree, n: nat, id: string): Option<Entry>
    requires n <= |t.children|
    decreases t, 0, n
  {
    if n == 0 then None
    else match Decision(t.children[n - 1].tree, LabelOf(t.children[n - 1].uri), id)
      case Some(e) => Some(e)
      case None => LastChild(t, n - 1, id)
  }

  function LastOf(h: seq<Entry>): Option<Entry> {
    if h == [] then None else Some(h[|h| - 1])
  }

  /** The last write of the log is the decision that the documented priority gives. */
  lemma {:induction false} PriorityDecides(t: Tree, own: Origin, id: string)
    ensures LastOf(Log(t, own, id)) == Decision(t, own, id)
    decreases t, 1, 0
  {
    hide ParseSeverity, LogFirst, LastChild, PolicyLog, LastPolicy;
    ChildDecides(t, |t.children|, id);
    PolicyDecides(t.cfg.policies, id);
    LastOfSum(LogFirst(t, |t.children|, id), PolicyLog(t.cfg.policies, id));
    LastOfSum(LogFirst(t, |t.children|, id) + PolicyLog(t.cfg.policies, id), RuleLog(t.cfg.rules, own, id));
  }

  lemma LastOfSum(a: seq<Entry>, b: seq<Entry>)
    ensures LastOf(a + b) == if b == [] then LastOf(a) else LastOf(b)
  {
  }

  lemma {:induction false} ChildDecides(t: Tree, n: nat, id: string)
    requires n <= |t.children|
    ensures LastOf(LogFirst(t, n, id)) == LastChild(t, n, id)
    decreases t, 0, n
  {
    hide Log, Decision, LabelOf;
    if n > 0 {
      var tag := LabelOf(t.children[n - 1].uri);
      ChildDecides(t, n - 1, id);
      PriorityDecides(t.children[n - 1].tree, tag, id);
      LastOfSum(LogFirst(t, n - 1, id), Log(t.children[n - 1].tree, tag, id));
    }
  }

  lemma {:induction false} PolicyDecides(policies: seq<Policy>, id: string)
    ensures LastOf(PolicyLog(policies, id)) == LastPolicy(policies, id)
  {
    if policies != [] { PolicyDecides(policies[..|policies| - 1], id); }
  }

  /** The environment names the rule with a value that parses as hard-block. */
  predicate EnvRaises(env: map<string, string>, id: string) {
    EnvKey(id) in env && env[EnvKey(id)] != "" && ParseSeverity(env[EnvKey(id)]) == Some(HardBlock)
  }

  /** A rule that any config decides ends as a hard block exactly when the decision by priority is
      one, or the environment raises it: that some config had made it one counts for nothing. */
  lemma HardBlockSurvivesExactly(t: Tree, env: map<string, string>, id: string)
    requires Log(t, OWN, id) != []
    ensures Hard(LastOf(Effective(t, env, id))) <==> Hard(Decision(t, OWN, id)) || EnvRaises(env, id)
  {
    hide ParseSeverity, Log, Decision;
    PriorityDecides(t, OWN, id);
    LastOfSum(Log(t, OWN, id), EnvLog(Log(t, OWN, id), env, id));
  }

  /** The documented "config cannot relax hard-block" is not what the code does:
      a project rule relaxes a hard block that a preset set, and no environment undoes it
      unless it names the rule itself. */
  lemma ConfigRelaxesHardBlock(env: map<string, string>)
    requires EnvKey("r") !in env
    ensures var load := map["preset://hostler/strict" := Config([], [Policy("core", map["r" := HardBlock])], map[])];
      var cfg := Config(["preset://hostler/strict"], [], map["r" := "off"]);
      && Unfold(load, cfg, {}, 0).Ok?
      && Effective(Unfold(load, cfg, {}, 0).value, env, "r")
        == [Entry(Origin(Policies, "core"), HardBlock), Entry(OWN, Off)]
  {
    OffParses();
    hide ParseSeverity, Lower, TrimSpace, Named, EnvKey;
    var uri := "preset://hostler/strict";
    var preset := Config([], [Policy("core", map["r" := HardBlock])], map[]);
    var load := map[uri := preset];
    var cfg := Config([uri], [], map["r" := "off"]);
    assert Unfold(load, preset, {uri}, 1) == Ok(Node(preset, []));
    assert UnfoldUri(load, uri, {}, 0) == Ok(Node(preset, []));
    UnfoldNone(load, cfg.uris, {}, 0);
    UnfoldNext(load, cfg.uris, 0, {}, 0);
    var first := UnfoldFirst(load, cfg.uris, 0, {}, 0).value;
    assert first + [Branch(uri, Node(preset, []))] == [Branch(uri, Node(preset, []))];
    UnfoldAll(load, cfg, {}, 0);
    assert Unfold(load, cfg, {}, 0) == Ok(Node(cfg, [Branch(uri, Node(preset, []))]));
    PresetLog(uri);
  }

  lemma PresetLog(uri: string)
    ensures var preset := Config([], [Policy("core", map["r" := HardBlock])], map[]);
      Log(Node(Config([uri], [], map["r" := "off"]), [Branch(uri, Node(preset, []))]), OWN, "r")
        == [Entry(Origin(Policies, "core"), HardBlock), Entry(OWN, Off)]
  {
    OffParses();
    hide ParseSeverity;
    var p := Policy("core", map["r" := HardBlock]);
    var preset := Config([], [p], map[]);
    var child := Node(preset, []);
    var tag := LabelOf(uri);
    assert PolicyLog([p], "r") == PolicyLog([], "r") + [Entry(Origin(Policies, "core"), HardBlock)];
    assert Log(child, tag, "r") == [Entry(Origin(Policies, "core"), HardBlock)];
    var t := Node(Config([uri], [], map["r" := "off"]), [Branch(uri, child)]);
    assert LogFirst(t, 1, "r") == LogFirst(t, 0, "r") + Log(child, tag, "r");
  }

  lemma OffParses()
    ensures ParseSeverity("off") == Some(Off)
  {
    assert TrimSpace("off") == "off";
    assert Lower("off") == "off";
  }
}
