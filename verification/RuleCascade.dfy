/** The rule-severity cascade of pkg/rules/config.go.

    The Go code walks an `extends` graph and mutates one shared map of rule
    objects; while it returns from each child it rewrites labels it wrote
    earlier.  Its meaning is simple: every rule has a history, and the history
    is the post-order list of the writes to that rule over the extends tree. */
module RuleCascade {
  import opened Text

  datatype Severity = Off | Advisory | Warn | Block | HardBlock

  /** Origin.Layer; `Unset` is the zero value of a fresh rule object. */
  datatype Layer = Unset | Preset | Extends | Policies | Rules | Env
  datatype Origin = Origin(layer: Layer, source: string)

  /** A ChainEntry of the Go code: one write to one rule. */
  datatype Entry = Entry(origin: Origin, severity: Severity)

  datatype Policy = Policy(name: string, overrides: map<string, Severity>)
  datatype Config = Config(uris: seq<string>, policies: seq<Policy>, rules: map<string, string>)

  /** What each extends URI loads as; a URI outside the map fails to load. */
  type Loader = map<string, Config>

  datatype Error = DepthExceeded | CyclicExtends | LoadFailed | BadSeverity
  datatype Result<+T> = Ok(value: T) | Err(error: Error)

  const OWN := Origin(Rules, "rules.yaml")
  const PRESET_SCHEME := "preset://hostler/"
  const ENV_PREFIX := "HSTL_RULE_"
  const MAX_DEPTH: nat := 16

  const SEVERITY_NAMES: seq<(string, Severity)> :=
    [("off", Off), ("", Off), ("advisory", Advisory), ("info", Advisory), ("warn", Warn), ("warning", Warn),
     ("block", Block), ("error", Block), ("hard-block", HardBlock), ("hardblock", HardBlock), ("fatal", HardBlock)]

  function Named(names: seq<(string, Severity)>, name: string): Option<Severity> {
    if names == [] then None
    else if names[0].0 == name then Some(names[0].1)
    else Named(names[1..], name)
  }

  function ParseSeverity(raw: string): Option<Severity> {
    Named(SEVERITY_NAMES, Lower(TrimSpace(raw)))
  }

  predicate Parses(rules: map<string, string>) {
    forall id | id in rules :: ParseSeverity(rules[id]).Some?
  }

  /** The label a parent gives to what it took from `uri`. */
  function LabelOf(uri: string): Origin {
    Origin(if HasPrefix(uri, PRESET_SCHEME) then Preset else Extends, uri)
  }

  // ---------------------------------------------------------------------
  // Meaning: the extends tree and its write log
  // ---------------------------------------------------------------------

  /** A config with the trees of the URIs it extends, in order. */
  datatype Tree = Node(cfg: Config, children: seq<Branch>)
  datatype Branch = Branch(uri: string, tree: Tree)

  function Unfold(load: Loader, cfg: Config, visited: set<string>, depth: nat): Result<Tree>
    decreases if depth > MAX_DEPTH then 0 else MAX_DEPTH + 1 - depth, 1, 0
  {
    if depth > MAX_DEPTH then Err(DepthExceeded)
    else match UnfoldFirst(load, cfg.uris, |cfg.uris|, visited, depth)
      case Err(e) => Err(e)
      case Ok(ts) => if Parses(cfg.rules) then Ok(Node(cfg, ts)) else Err(BadSeverity)
  }

  function UnfoldFirst(load: Loader, uris: seq<string>, n: nat, visited: set<string>, depth: nat): (r: Result<seq<Branch>>)
    requires n <= |uris| && depth <= MAX_DEPTH
    ensures r.Ok? ==> |r.value| == n
    decreases MAX_DEPTH + 1 - depth, 0, n + 1
  {
    if n == 0 then Ok([])
    else match UnfoldFirst(load, uris, n - 1, visited, depth)
      case Err(e) => Err(e)
      case Ok(ts) =>
        match UnfoldUri(load, uris[n - 1], visited, depth)
        case Err(e) => Err(e)
        case Ok(t) => Ok(ts + [Branch(uris[n - 1], t)])
  }

  function UnfoldUri(load: Loader, uri: string, visited: set<string>, depth: nat): Result<Tree>
    requires depth <= MAX_DEPTH
    decreases MAX_DEPTH + 1 - depth, 0, 0
  {
    if uri in visited then Err(CyclicExtends)
    else if uri !in load then Err(LoadFailed)
    else Unfold(load, load[uri], visited + {uri}, depth + 1)
  }

  /** The writes to rule `id`, in post-order over the tree: first the extended
      configs, then the policies, then the config's own rules under the label `own`. */
  function Log(t: Tree, own: Origin, id: string): seq<Entry>
    decreases t, 1, 0
  {
    LogFirst(t, |t.children|, id) + PolicyLog(t.cfg.policies, id) + RuleLog(t.cfg.rules, own, id)
  }

  function LogFirst(t: Tree, n: nat, id: string): seq<Entry>
    requires n <= |t.children|
    decreases t, 0, n
  {
    if n == 0 then []
    else
      LogFirst(t, n - 1, id) + Log(t.children[n - 1].tree, LabelOf(t.children[n - 1].uri), id)
  }

  function PolicyLog(policies: seq<Policy>, id: string): seq<Entry> {
    if policies == [] then []
    else
      var p := policies[|policies| - 1];
      PolicyLog(policies[..|policies| - 1], id) + OverrideLog(p.overrides, Origin(Policies, p.name), id)
  }

  function OverrideLog(overrides: map<string, Severity>, origin: Origin, id: string): seq<Entry> {
    if id in overrides then [Entry(origin, overrides[id])] else []
  }

  function RuleLog(rules: map<string, string>, own: Origin, id: string): seq<Entry> {
    if id in rules then
      match ParseSeverity(rules[id])
      case Some(sev) => [Entry(own, sev)]
      case None => []
    else []
  }

  function EnvKey(id: string): string {
    ENV_PREFIX + Upper(seq(|id|, i requires 0 <= i < |id| => if id[i] == '.' then '_' else id[i]))
  }

  /** What the environment layer adds to a history: at most one write, and
      none on top of a hard block. */
  function EnvLog(history: seq<Entry>, env: map<string, string>, id: string): seq<Entry> {
    var key := EnvKey(id);
    if history == [] || key !in env || env[key] == "" then []
    else match ParseSeverity(env[key])
      case None => []
      case Some(sev) =>
        if history[|history| - 1].severity == HardBlock then [] else [Entry(Origin(Env, key), sev)]
  }

  function Effective(t: Tree, env: map<string, string>, id: string): seq<Entry> {
    var h := Log(t, OWN, id);
    h + EnvLog(h, env, id)
  }

  // ---------------------------------------------------------------------
  // The mutable rule objects and the walk
  // ---------------------------------------------------------------------

  class EffectiveRule {
    const ruleId: string
    var severity: Severity
    var origin: Origin
    var previousChain: seq<Entry>

    constructor (id: string)
      ensures ruleId == id && severity == Off && origin == Origin(Unset, "") && previousChain == []
    {
      ruleId := id;
      severity := Off;
      origin := Origin(Unset, "");
      previousChain := [];
    }

    /** PreviousChain followed by the final decision is the history `h`. */
    ghost predicate Holds(id: string, h: seq<Entry>)
      reads this
    {
      ruleId == id && origin.layer != Unset && h == previousChain + [Entry(origin, severity)]
    }

    method Overwrite(sev: Severity, origin: Origin)
      modifies this
      ensures this.severity == sev && this.origin == origin
      ensures previousChain == old(previousChain) +
        (if old(this.origin.layer) != Unset then [Entry(old(this.origin), old(severity))] else [])
    {
      if this.origin.layer != Unset {
        previousChain := previousChain + [Entry(this.origin, severity)];
      }
      severity := sev;
      this.origin := origin;
    }

    /** The body of tagLastAs for one rule; `fired` says that the chain was rewritten. */
    method RetagLast(tag: Origin, ghost id: string, ghost h: seq<Entry>) returns (fired: bool)
      requires Holds(id, h) && tag.layer != Unset
      modifies this
      ensures Holds(id, Retagged(h, tag))
      ensures fired ==> !Tail(h, true)
    {
      fired := false;
      var n := |previousChain|;
      if n > 0 {
        var last := previousChain[n - 1];
        if last.origin == OWN {
          previousChain := previousChain[..n - 1] + [Entry(tag, last.severity)];
          fired := true;
        }
      }
      if origin == OWN {
        origin := tag;
      }
    }
  }

  /** Histories by rule ID. */
  type Histories = map<string, seq<Entry>>

  function HistoryOf(h: Histories, id: string): seq<Entry> {
    if id in h then h[id] else []
  }

  /** Only the rules in `ids` end in a write under a config's own label, and
      no earlier write carries that label. */
  ghost predicate OwnTail(h: Histories, ids: set<string>) {
    forall id | id in h :: Tail(h[id], id in ids)
  }

  ghost predicate Tail(h: seq<Entry>, own: bool) {
    h != [] && (h[|h| - 1].origin == OWN <==> own) && NoOwn(h[..|h| - 1])
  }

  ghost predicate NoOwn(es: seq<Entry>) {
    forall e | e in es :: e.origin != OWN
  }

  function Retag(e: Entry, tag: Origin): Entry {
    if e.origin == OWN then Entry(tag, e.severity) else e
  }

  /** The net effect of tagLastAs on one history: its last two writes may be relabelled. */
  function Retagged(h: seq<Entry>, tag: Origin): (r: seq<Entry>)
    ensures |r| == |h|
  {
    if h == [] then h else RetaggedChain(h[..|h| - 1], tag) + [Retag(h[|h| - 1], tag)]
  }

  function RetaggedChain(chain: seq<Entry>, tag: Origin): seq<Entry> {
    if chain == [] then chain else chain[..|chain| - 1] + [Retag(chain[|chain| - 1], tag)]
  }

  class Cascade {
    const load: Loader
    var result: map<string, EffectiveRule>
    var visited: set<string>

    ghost var hist: Histories
    /** The rule objects of `result`. */
    ghost var repr: set<EffectiveRule>
    /** Counts how often tagLastAs rewrote an entry of a PreviousChain. */
    ghost var chainRetags: nat

    ghost predicate Valid()
      reads this`result, this`hist, this`repr, repr
    {
      && hist.Keys == result.Keys
      && forall id | id in result :: result[id] in repr && result[id].Holds(id, hist[id])
    }

    constructor (load: Loader)
      ensures Valid() && this.load == load && visited == {} && hist == map[] && chainRetags == 0
      ensures repr == {}
    {
      this.load := load;
      result := map[];
      visited := {};
      hist := map[];
      repr := {};
      chainRetags := 0;
    }

    method SetEffective(id: string, sev: Severity, origin: Origin)
      requires Valid() && origin.layer != Unset
      modifies this, repr
      ensures Valid() && fresh(repr - old(repr)) && visited == old(visited) && chainRetags == old(chainRetags)
      ensures hist == old(hist)[id := HistoryOf(old(hist), id) + [Entry(origin, sev)]]
    {
      if id !in result {
        var eff := new EffectiveRule(id);
        result := result[id := eff];
        repr := repr + {eff};
      }
      var eff := result[id];
      eff.Overwrite(sev, origin);
      hist := hist[id := HistoryOf(hist, id) + [Entry(origin, sev)]];
    }

    /** One policy's severity_overrides, in whatever order the map yields them. */
    method ApplyOverrides(overrides: map<string, Severity>, name: string)
      requires Valid()
      modifies this, repr
      ensures Valid() && fresh(repr - old(repr)) && visited == old(visited) && chainRetags == old(chainRetags)
      ensures forall j :: HistoryOf(hist, j) == HistoryOf(old(hist), j) + OverrideLog(overrides, Origin(Policies, name), j)
    {
      hide Valid;
      var todo := overrides.Keys;
      while todo != {}
        invariant todo <= overrides.Keys
        invariant Valid() && fresh(repr - old(repr)) && visited == old(visited) && chainRetags == old(chainRetags)
        invariant forall j | j in todo :: HistoryOf(hist, j) == HistoryOf(old(hist), j)
        invariant forall j | j !in todo ::
          HistoryOf(hist, j) == HistoryOf(old(hist), j) + OverrideLog(overrides, Origin(Policies, name), j)
      {
        var id :| id in todo;
        SetEffective(id, overrides[id], Origin(Policies, name));
        todo := todo - {id};
      }
    }

    method ApplyPolicies(policies: seq<Policy>)
      requires Valid()
      modifies this, repr
      ensures Valid() && fresh(repr - old(repr)) && visited == old(visited) && chainRetags == old(chainRetags)
      ensures forall j :: HistoryOf(hist, j) == HistoryOf(old(hist), j) + PolicyLog(policies, j)
    {
      hide Valid, OverrideLog;
      for i := 0 to |policies|
        invariant Valid() && fresh(repr - old(repr)) && visited == old(visited) && chainRetags == old(chainRetags)
        invariant forall j :: HistoryOf(hist, j) == HistoryOf(old(hist), j) + PolicyLog(policies[..i], j)
      {
        ghost var h := hist;
        ApplyOverrides(policies[i].overrides, policies[i].name);
        PolicyStep(old(hist), h, hist, policies, i);
      }
      assert policies[..|policies|] == policies;
    }

    method ApplyRules(rules: map<string, string>) returns (ok: bool)
      requires Valid()
      modifies this, repr
      ensures ok == Parses(rules)
      ensures Valid() && fresh(repr - old(repr)) && visited == old(visited) && chainRetags == old(chainRetags)
      ensures forall j | j in hist :: hist[j] != []
      ensures ok ==> forall j :: HistoryOf(hist, j) == HistoryOf(old(hist), j) + RuleLog(rules, OWN, j)
    {
      hide ParseSeverity, Valid;
      var todo := rules.Keys;
      while todo != {}
        invariant todo <= rules.Keys
        invariant forall id | id in rules && id !in todo :: ParseSeverity(rules[id]).Some?
        invariant Valid() && fresh(repr - old(repr)) && visited == old(visited) && chainRetags == old(chainRetags)
        invariant forall j | j in todo :: HistoryOf(hist, j) == HistoryOf(old(hist), j)
        invariant forall j | j !in todo :: HistoryOf(hist, j) == HistoryOf(old(hist), j) + RuleLog(rules, OWN, j)
      {
        var id :| id in todo;
        var sev := ParseSeverity(rules[id]);
        if sev.None? {
          HistoriesNonEmpty();
          return false;
        }
        SetEffective(id, sev.value, OWN);
        todo := todo - {id};
      }
      HistoriesNonEmpty();
      return true;
    }

    lemma KeysAgree()
      requires Valid()
      ensures hist.Keys == result.Keys
    {
    }

    lemma HistoriesNonEmpty()
      requires Valid()
      ensures forall j | j in hist :: hist[j] != []
    {
    }

    method TagOne(tag: Origin, id: string)
      requires Valid() && tag.layer != Unset
      modifies this`hist, this`chainRetags, repr
      ensures Valid()
      ensures hist == if id in old(hist) then old(hist)[id := Retagged(old(hist)[id], tag)] else old(hist)
      ensures chainRetags == old(chainRetags) || (id in old(hist) && !Tail(old(hist)[id], true))
    {
      if id in result {
        var eff := result[id];
        var fired := eff.RetagLast(tag, id, hist[id]);
        if fired { chainRetags := chainRetags + 1; }
        hist := hist[id := Retagged(hist[id], tag)];
      }
    }

    /** Relabels what the child just returned from wrote with its own rules.
        When only last writes carry an own label, no chain entry is rewritten. */
    method TagLastAs(tag: Origin, childRules: map<string, string>)
      requires Valid() && tag.layer != Unset
      modifies this`hist, this`chainRetags, repr
      ensures Valid() && hist.Keys == old(hist).Keys
      ensures forall j | j in hist :: hist[j] == if j in childRules then Retagged(old(hist)[j], tag) else old(hist)[j]
      ensures OwnTail(old(hist), childRules.Keys) ==> chainRetags == old(chainRetags)
    {
      hide Retagged, Tail, Valid;
      var todo := childRules.Keys;
      while todo != {}
        invariant todo <= childRules.Keys && Valid() && hist.Keys == old(hist).Keys
        invariant forall j | j in hist && (j in todo || j !in childRules) :: hist[j] == old(hist)[j]
        invariant forall j | j in hist && j in childRules.Keys - todo :: hist[j] == Retagged(old(hist)[j], tag)
        invariant OwnTail(old(hist), childRules.Keys) ==> chainRetags == old(chainRetags)
      {
        var id :| id in todo;
        TagOne(tag, id);
        todo := todo - {id};
      }
    }

    /** One turn of the extends loop: walk the child, then relabel what it wrote. */
    method ApplyUri(uri: string, depth: nat) returns (r: Option<Error>)
      requires Valid() && OwnTail(hist, {}) && depth <= MAX_DEPTH
      modifies this, repr
      ensures Valid() && fresh(repr - old(repr)) && chainRetags == old(chainRetags)
      ensures match UnfoldUri(load, uri, old(visited), depth)
        case Err(e) => r == Some(e)
        case Ok(t) =>
          r == None && visited == old(visited) && OwnTail(hist, {}) && Appends(old(hist), hist, t, LabelOf(uri))
      decreases MAX_DEPTH + 1 - depth, 0
    {
      hide Valid, Appends, OwnTail, Retagged, ParseSeverity;
      if uri in visited { return Some(CyclicExtends); }
      visited := visited + {uri};
      if uri !in load { return Some(LoadFailed); }
      var child := load[uri];
      r := ApplyCascade(child, depth + 1);
      if r.None? {
        ghost var h1 := hist;
        TagLastAs(LabelOf(uri), child.rules);
        visited := visited - {uri};
        UnfoldCfg(load, child, old(visited) + {uri}, depth + 1);
        TagStep(old(hist), h1, hist, Unfold(load, child, old(visited) + {uri}, depth + 1).value, LabelOf(uri));
      }
    }

    /** The extends loop: the configs that `cfg` extends, in order. */
    method ApplyExtends(cfg: Config, depth: nat) returns (r: Option<Error>)
      requires Valid() && OwnTail(hist, {}) && depth <= MAX_DEPTH
      modifies this, repr
      ensures Valid() && fresh(repr - old(repr)) && chainRetags == old(chainRetags)
      ensures match UnfoldFirst(load, cfg.uris, |cfg.uris|, old(visited), depth)
        case Err(e) => r == Some(e)
        case Ok(ts) =>
          r == None && visited == old(visited) && OwnTail(hist, {})
          && AppendsFirst(old(hist), hist, Node(cfg, ts), |ts|)
      decreases MAX_DEPTH + 1 - depth, 1
    {
      hide Valid, AppendsFirst, Appends, OwnTail, UnfoldFirst, UnfoldUri;
      r := None;
      ghost var ts: seq<Branch> := [];
      NothingAppended(hist, cfg);
      UnfoldNone(load, cfg.uris, visited, depth);
      for i := 0 to |cfg.uris|
        invariant Valid() && fresh(repr - old(repr)) && OwnTail(hist, {}) && |ts| == i && r == None
        invariant visited == old(visited) && chainRetags == old(chainRetags)
        invariant UnfoldFirst(load, cfg.uris, i, visited, depth) == Ok(ts)
        invariant AppendsFirst(old(hist), hist, Node(cfg, ts), i)
      {
        ghost var h := hist;
        UnfoldNext(load, cfg.uris, i, visited, depth);
        r := ApplyUri(cfg.uris[i], depth);
        if r.Some? {
          UnfoldErrorStays(load, cfg.uris, i + 1, old(visited), depth);
          return;
        }
        ghost var b := Branch(cfg.uris[i], UnfoldUri(load, cfg.uris[i], visited, depth).value);
        AppendOne(old(hist), h, hist, cfg, ts, b);
        ts := ts + [b];
      }
    }

    method ApplyCascade(cfg: Config, depth: nat) returns (r: Option<Error>)
      requires Valid() && OwnTail(hist, {})
      modifies this, repr
      ensures Valid() && fresh(repr - old(repr)) && chainRetags == old(chainRetags)
      ensures match Unfold(load, cfg, old(visited), depth)
        case Err(e) => r == Some(e)
        case Ok(t) =>
          r == None && visited == old(visited) && OwnTail(hist, cfg.rules.Keys) && Appends(old(hist), hist, t, OWN)
      decreases if depth > MAX_DEPTH then 0 else MAX_DEPTH + 1 - depth, 2
    {
      UnfoldAll(load, cfg, visited, depth);
      hide Valid, AppendsFirst, Appends, OwnTail, ParseSeverity, PolicyLog, RuleLog, Unfold, UnfoldFirst;
      if depth > MAX_DEPTH { return Some(DepthExceeded); }
      ghost var unfolded := UnfoldFirst(load, cfg.uris, |cfg.uris|, visited, depth);
      r := ApplyExtends(cfg, depth);
      if r.Some? { return; }
      ghost var h2 := hist;
      ApplyPolicies(cfg.policies);
      ghost var h3 := hist;
      var ok := ApplyRules(cfg.rules);
      if !ok { return Some(BadSeverity); }
      OwnStep(old(hist), h2, h3, hist, Node(cfg, unfolded.value));
      return None;
    }

    method EnvOne(id: string, env: map<string, string>)
      requires Valid() && id in result
      modifies this`hist, repr
      ensures Valid()
      ensures hist == old(hist)[id := old(hist)[id] + EnvLog(old(hist)[id], env, id)]
    {
      hide ParseSeverity;
      var eff := result[id];
      var key := EnvKey(id);
      if key in env && env[key] != "" {
        var sev := ParseSeverity(env[key]);
        if sev.Some? && eff.severity != HardBlock {
          eff.Overwrite(sev.value, Origin(Env, key));
          hist := hist[id := hist[id] + [Entry(Origin(Env, key), sev.value)]];
          return;
        }
      }
      assert hist[id] + EnvLog(hist[id], env, id) == hist[id];
    }

    method ApplyEnvOverrides(env: map<string, string>)
      requires Valid()
      modifies this`hist, repr
      ensures Valid() && hist.Keys == old(hist).Keys
      ensures forall j | j in hist :: hist[j] == old(hist)[j] + EnvLog(old(hist)[j], env, j)
    {
      KeysAgree();
      hide EnvLog, Valid, EnvDone;
      EnvDoneNone(hist, env);
      var todo := result.Keys;
      while todo != {}
        invariant Valid() && todo <= result.Keys == hist.Keys == old(hist).Keys
        invariant hist == EnvDone(old(hist), env, todo)
      {
        var id :| id in todo;
        EnvDoneNext(old(hist), env, todo, id);
        EnvOne(id, env);
        todo := todo - {id};
      }
      EnvDoneAll(hist, old(hist), env);
    }
  }

  /** The histories once all rules but those in `todo` have had their environment write. */
  ghost function EnvDone(h: Histories, env: map<string, string>, todo: set<string>): Histories {
    map id | id in h :: if id in todo then h[id] else h[id] + EnvLog(h[id], env, id)
  }

  lemma EnvDoneNone(h: Histories, env: map<string, string>)
    ensures EnvDone(h, env, h.Keys) == h
  {
    hide EnvLog;
  }

  lemma EnvDoneNext(h: Histories, env: map<string, string>, todo: set<string>, id: string)
    requires id in todo && id in h
    ensures var was := EnvDone(h, env, todo);
      && id in was && was[id] == h[id]
      && EnvDone(h, env, todo - {id}) == was[id := h[id] + EnvLog(h[id], env, id)]
  {
    hide EnvLog;
  }

  lemma EnvDoneAll(h1: Histories, h: Histories, env: map<string, string>)
    requires h1 == EnvDone(h, env, {})
    ensures forall j | j in h1 :: j in h && h1[j] == h[j] + EnvLog(h[j], env, j)
  {
    hide EnvLog;
  }

  /** Every rule object that comes back carries the log of its writes over the
      whole extends tree, whatever order the maps were visited in. */
  method ResolveEffective(load: Loader, cfg: Config, env: map<string, string>)
    returns (r: Result<map<string, EffectiveRule>>)
    ensures match Unfold(load, cfg, {}, 0)
      case Err(e) => r == Err(e)
      case Ok(t) => r.Ok? && forall id ::
        && (id in r.value <==> Effective(t, env, id) != [])
        && (id in r.value ==> r.value[id].Holds(id, Effective(t, env, id)))
  {
    hide EnvLog, Log;
    var c := new Cascade(load);
    var err := c.ApplyCascade(cfg, 0);
    if err.Some? { return Err(err.value); }
    ghost var t := Unfold(load, cfg, {}, 0).value;
    ghost var h := c.hist;
    c.ApplyEnvOverrides(env);
    forall id ensures HistoryOf(c.hist, id) == Effective(t, env, id) && (id in c.hist ==> c.hist[id] != []) {
      assert HistoryOf(h, id) == Log(t, OWN, id);
      if id !in h { NoEnvOnEmpty(env, id); }
    }
    return Ok(c.result);
  }

  lemma NoEnvOnEmpty(env: map<string, string>, id: string)
    ensures EnvLog([], env, id) == []
  {
  }

  /** Every rule's history grew by exactly the log of `t`. */
  ghost predicate Appends(h0: Histories, h1: Histories, t: Tree, own: Origin) {
    forall j :: HistoryOf(h1, j) == HistoryOf(h0, j) + Log(t, own, j)
  }

  lemma NothingAppended(h: Histories, cfg: Config)
    ensures AppendsFirst(h, h, Node(cfg, []), 0)
  {
  }

  lemma UnfoldErrorStays(load: Loader, uris: seq<string>, n: nat, visited: set<string>, depth: nat)
    requires n <= |uris| && depth <= MAX_DEPTH
    requires UnfoldFirst(load, uris, n, visited, depth).Err?
    ensures UnfoldFirst(load, uris, |uris|, visited, depth) == UnfoldFirst(load, uris, n, visited, depth)
    decreases |uris| - n
  {
    if n < |uris| { UnfoldErrorStays(load, uris, n + 1, visited, depth); }
  }

  lemma UnfoldNone(load: Loader, uris: seq<string>, visited: set<string>, depth: nat)
    requires depth <= MAX_DEPTH
    ensures UnfoldFirst(load, uris, 0, visited, depth) == Ok([])
  {
  }

  lemma UnfoldNext(load: Loader, uris: seq<string>, n: nat, visited: set<string>, depth: nat)
    requires n < |uris| && depth <= MAX_DEPTH && UnfoldFirst(load, uris, n, visited, depth).Ok?
    ensures UnfoldFirst(load, uris, n + 1, visited, depth) == match UnfoldUri(load, uris[n], visited, depth)
      case Err(e) => Err(e)
      case Ok(t) => Ok(UnfoldFirst(load, uris, n, visited, depth).value + [Branch(uris[n], t)])
  {
  }

  lemma UnfoldAll(load: Loader, cfg: Config, visited: set<string>, depth: nat)
    ensures Unfold(load, cfg, visited, depth) ==
      if depth > MAX_DEPTH then Err(DepthExceeded)
      else match UnfoldFirst(load, cfg.uris, |cfg.uris|, visited, depth)
        case Err(e) => Err(e)
        case Ok(ts) => if Parses(cfg.rules) then Ok(Node(cfg, ts)) else Err(BadSeverity)
  {
  }

  ghost predicate AppendsFirst(h0: Histories, h1: Histories, t: Tree, n: nat)
    requires n <= |t.children|
  {
    forall j :: HistoryOf(h1, j) == HistoryOf(h0, j) + LogFirst(t, n, j)
  }

  lemma UnfoldCfg(load: Loader, cfg: Config, visited: set<string>, depth: nat)
    ensures match Unfold(load, cfg, visited, depth)
      case Ok(t) => t.cfg == cfg && |t.children| == |cfg.uris| && Parses(cfg.rules)
      case Err(_) => true
  {
  }

  /** After the relabelling the child's tree has contributed its log under the
      parent's label, and no own label is left. */
  lemma TagStep(h0: Histories, h1: Histories, h2: Histories, t: Tree, tag: Origin)
    requires OwnTail(h1, t.cfg.rules.Keys) && Appends(h0, h1, t, OWN) && tag != OWN
    requires Parses(t.cfg.rules)
    requires h2.Keys == h1.Keys
    requires forall j | j in h2 :: h2[j] == if j in t.cfg.rules then Retagged(h1[j], tag) else h1[j]
    ensures OwnTail(h2, {}) && Appends(h0, h2, t, tag)
  {
    hide ParseSeverity;
    hide Retagged;
    forall j ensures HistoryOf(h2, j) == HistoryOf(h0, j) + Log(t, tag, j)
      ensures j in h2 ==> Tail(h2[j], false)
    {
      if j in t.cfg.rules {
        TagStepAt(HistoryOf(h0, j), HistoryOf(h1, j), t, tag, j);
      }
    }
  }

  lemma TagStepAt(h0: seq<Entry>, h1: seq<Entry>, t: Tree, tag: Origin, j: string)
    requires h1 == h0 + Log(t, OWN, j) && Tail(h1, true)
    requires j in t.cfg.rules && ParseSeverity(t.cfg.rules[j]).Some? && tag != OWN
    ensures Retagged(h1, tag) == h0 + Log(t, tag, j)
    ensures Tail(Retagged(h1, tag), false)
  {
  }

  lemma AppendOne(h0: Histories, h1: Histories, h2: Histories, cfg: Config, ts: seq<Branch>, b: Branch)
    requires AppendsFirst(h0, h1, Node(cfg, ts), |ts|) && Appends(h1, h2, b.tree, LabelOf(b.uri))
    ensures AppendsFirst(h0, h2, Node(cfg, ts + [b]), |ts| + 1)
  {
    hide Log;
    forall j ensures HistoryOf(h2, j) == HistoryOf(h0, j) + LogFirst(Node(cfg, ts + [b]), |ts| + 1, j) {
      LogPrefix(cfg, ts, ts + [b], |ts|, j);
    }
  }

  lemma {:induction false} LogPrefix(cfg: Config, ts: seq<Branch>, us: seq<Branch>, n: nat, id: string)
    requires n <= |ts| <= |us| && us[..|ts|] == ts
    ensures LogFirst(Node(cfg, us), n, id) == LogFirst(Node(cfg, ts), n, id)
    decreases n
  {
    if n > 0 {
      LogPrefix(cfg, ts, us, n - 1, id);
      assert us[n - 1] == us[..|ts|][n - 1];
    }
  }

  /** Policies leave no own label behind; the config's own rules leave exactly theirs. */
  lemma OwnStep(h0: Histories, h1: Histories, h2: Histories, h3: Histories, t: Tree)
    requires OwnTail(h1, {}) && Parses(t.cfg.rules)
    requires forall j | j in h3 :: h3[j] != []
    requires AppendsFirst(h0, h1, t, |t.children|)
    requires forall j :: HistoryOf(h2, j) == HistoryOf(h1, j) + PolicyLog(t.cfg.policies, j)
    requires forall j :: HistoryOf(h3, j) == HistoryOf(h2, j) + RuleLog(t.cfg.rules, OWN, j)
    ensures OwnTail(h3, t.cfg.rules.Keys) && Appends(h0, h3, t, OWN)
  {
    hide ParseSeverity, Tail, PolicyLog, RuleLog, LogFirst;
    forall j ensures HistoryOf(h3, j) == HistoryOf(h0, j) + Log(t, OWN, j)
      ensures j in h3 ==> Tail(h3[j], j in t.cfg.rules)
    {
      Regroup(HistoryOf(h0, j), LogFirst(t, |t.children|, j), PolicyLog(t.cfg.policies, j), RuleLog(t.cfg.rules, OWN, j));
      OwnStepAt(HistoryOf(h1, j), t.cfg, j);
    }
  }

  lemma Regroup<T>(a: seq<T>, b: seq<T>, c: seq<T>, d: seq<T>)
    ensures a + b + c + d == a + (b + c + d)
  {
  }

  lemma OwnStepAt(h: seq<Entry>, cfg: Config, j: string)
    requires h == [] || Tail(h, false)
    requires j in cfg.rules ==> ParseSeverity(cfg.rules[j]).Some?
    ensures var h' := h + PolicyLog(cfg.policies, j) + RuleLog(cfg.rules, OWN, j);
      h' == [] || Tail(h', j in cfg.rules)
  {
    hide ParseSeverity;
    PolicyLogLabels(cfg.policies, j);
    assert NoOwn(h) by { if h != [] { assert h == h[..|h| - 1] + [h[|h| - 1]]; } }
    var h2 := h + PolicyLog(cfg.policies, j);
    assert NoOwn(h2);
    if j in cfg.rules {
      assert (h2 + RuleLog(cfg.rules, OWN, j))[..|h2|] == h2;
    } else if h2 != [] {
      assert h2[|h2| - 1] in h2;
      assert h2 + RuleLog(cfg.rules, OWN, j) == h2;
    }
  }

  lemma PolicyStep(h0: Histories, h1: Histories, h2: Histories, policies: seq<Policy>, i: nat)
    requires i < |policies|
    requires forall j :: HistoryOf(h1, j) == HistoryOf(h0, j) + PolicyLog(policies[..i], j)
    requires forall j ::
      HistoryOf(h2, j) == HistoryOf(h1, j) + OverrideLog(policies[i].overrides, Origin(Policies, policies[i].name), j)
    ensures forall j :: HistoryOf(h2, j) == HistoryOf(h0, j) + PolicyLog(policies[..i + 1], j)
  {
    hide OverrideLog;
    assert policies[..i + 1][..i] == policies[..i];
  }

  lemma {:induction false} PolicyLogLabels(policies: seq<Policy>, id: string)
    ensures forall e | e in PolicyLog(policies, id) :: e.origin.layer == Policies
  {
    if policies != [] { PolicyLogLabels(policies[..|policies| - 1], id); }
  }
}
