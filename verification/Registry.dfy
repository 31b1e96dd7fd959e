/** The resource registry of pkg/registry/registry.go: allocation of unique values
    and of integer ranges, on 64-bit integers. */
module Registry {
  import opened Text
  import opened Decimal

  /** `range` is empty on a unique-typed allocation, `value` None on a range-typed one. */
  datatype Allocation = Allocation(owner: string, value: Option<int64>, range: seq<int64>, env: string, note: string)
  datatype Resource = Resource(kind: string, description: string, allocations: seq<Allocation>)
  type Resources = map<string, Resource>

  datatype Request = Request(
    kind: string, name: string, owner: string, value: Option<int64>,
    rangeStart: Option<int64>, rangeEnd: Option<int64>, env: string, note: string)

  datatype Outcome = Allocated(alloc: Allocation) | Conflict(conflicts: seq<Allocation>) | Unsupported

  /** `suggestion` holds one number, two bounds, or nothing. */
  datatype CheckResult = Fine(suggestion: seq<int64>) | Clashing(conflicts: seq<Allocation>) | UnsupportedKind

  /** Default size and start of a suggested range; the environment may override both. */
  datatype Defaults = Defaults(size: int64, start: int64)

  // ---- conflicts ----

  predicate Compatible(e: string, f: string) {
    e == "" || f == "" || e == f
  }

  predicate ValueClash(a: Allocation, value: int64, env: string) {
    a.value == Some(value) && Compatible(env, a.env)
  }

  predicate RangeClash(a: Allocation, start: int64, end: int64) {
    |a.range| >= 2 && !(end < a.range[0] || start > a.range[1])
  }

  function ValueClashes(allocs: seq<Allocation>, value: int64, env: string): (r: seq<Allocation>)
    ensures forall a :: a in r <==> a in allocs && ValueClash(a, value, env)
    ensures r == [] <==> forall i | 0 <= i < |allocs| :: !ValueClash(allocs[i], value, env)
  {
    if allocs == [] then []
    else
      var n := |allocs| - 1;
      ValueClashes(allocs[..n], value, env) + if ValueClash(allocs[n], value, env) then [allocs[n]] else []
  }

  function RangeClashes(allocs: seq<Allocation>, start: int64, end: int64): (r: seq<Allocation>)
    ensures forall a :: a in r <==> a in allocs && RangeClash(a, start, end)
    ensures r == [] <==> forall i | 0 <= i < |allocs| :: !RangeClash(allocs[i], start, end)
  {
    if allocs == [] then []
    else
      var n := |allocs| - 1;
      RangeClashes(allocs[..n], start, end) + if RangeClash(allocs[n], start, end) then [allocs[n]] else []
  }

  method FindConflictsUnique(resource: Resource, value: int64, env: string) returns (conflicts: seq<Allocation>)
    ensures conflicts == ValueClashes(resource.allocations, value, env)
  {
    conflicts := [];
    var allocs := resource.allocations;
    for i := 0 to |allocs|
      invariant conflicts == ValueClashes(allocs[..i], value, env)
    {
      var alloc := allocs[i];
      assert allocs[..i + 1][..i] == allocs[..i];
      if alloc.value.None? || alloc.value.value != value { continue; }
      if env != "" && alloc.env != "" && alloc.env != env { continue; }
      conflicts := conflicts + [alloc];
    }
    assert allocs[..|allocs|] == allocs;
  }

  method FindConflictsRange(resource: Resource, start: int64, end: int64) returns (conflicts: seq<Allocation>)
    ensures conflicts == RangeClashes(resource.allocations, start, end)
  {
    conflicts := [];
    var allocs := resource.allocations;
    for i := 0 to |allocs|
      invariant conflicts == RangeClashes(allocs[..i], start, end)
    {
      var alloc := allocs[i];
      assert allocs[..i + 1][..i] == allocs[..i];
      if |alloc.range| < 2 { continue; }
      if !(end < alloc.range[0] || start > alloc.range[1]) {
        conflicts := conflicts + [alloc];
      }
    }
    assert allocs[..|allocs|] == allocs;
  }

  // ---- suggestions ----

  /** The values that may clash in an environment. */
  predicate Counts(a: Allocation, env: string) {
    a.value.Some? && Compatible(env, a.env)
  }

  ghost predicate IsMaxValue(allocs: seq<Allocation>, env: string, m: Option<int64>) {
    && (m.None? <==> forall i | 0 <= i < |allocs| :: !Counts(allocs[i], env))
    && (m.Some? ==>
          && (forall i | 0 <= i < |allocs| && Counts(allocs[i], env) :: allocs[i].value.value <= m.value)
          && exists i | 0 <= i < |allocs| :: Counts(allocs[i], env) && allocs[i].value == m)
  }

  ghost predicate IsMaxEnd(allocs: seq<Allocation>, m: Option<int64>) {
    && (m.None? <==> forall i | 0 <= i < |allocs| :: |allocs[i].range| < 2)
    && (m.Some? ==>
          && (forall i | 0 <= i < |allocs| && |allocs[i].range| >= 2 :: allocs[i].range[1] <= m.value)
          && exists i | 0 <= i < |allocs| :: |allocs[i].range| >= 2 && allocs[i].range[1] == m.value)
  }

  function MaxValue(allocs: seq<Allocation>, env: string): (m: Option<int64>)
    ensures IsMaxValue(allocs, env, m)
  {
    if allocs == [] then None
    else
      var n := |allocs| - 1;
      var a, m := allocs[n], MaxValue(allocs[..n], env);
      if !Counts(a, env) then m
      else if m.None? || a.value.value > m.value then a.value
      else m
  }

  function MaxEnd(allocs: seq<Allocation>): (m: Option<int64>)
    ensures IsMaxEnd(allocs, m)
  {
    if allocs == [] then None
    else
      var n := |allocs| - 1;
      var a, m := allocs[n], MaxEnd(allocs[..n]);
      if |a.range| < 2 then m
      else if m.None? || a.range[1] > m.value then Some(a.range[1])
      else m
  }

  lemma MaxValueUnique(allocs: seq<Allocation>, env: string, m: Option<int64>)
    requires IsMaxValue(allocs, env, m)
    ensures m == MaxValue(allocs, env)
  {
  }

  method SuggestNextUnique(resource: Resource, env: string) returns (r: Option<int64>)
    ensures var m := MaxValue(resource.allocations, env);
      r == if m.None? then None else Some(Wrap64(m.value + 1))
  {
    hide Wrap64;
    var allocs := resource.allocations;
    var values: seq<int64> := [];
    for i := 0 to |allocs|
      invariant forall v :: v in values <==> exists j | 0 <= j < i :: Counts(allocs[j], env) && allocs[j].value == Some(v)
    {
      var v := allocs[i].value;
      if v.None? { continue; }
      if env == "" {
        values := values + [v.value];
      } else if allocs[i].env == "" || allocs[i].env == env {
        values := values + [v.value];
      }
    }
    if |values| == 0 {
      assert forall j | 0 <= j < |allocs| && Counts(allocs[j], env) :: allocs[j].value.value in values;
      return None;
    }
    var maxV: int := values[0];
    for k := 1 to |values|
      invariant maxV in values && forall j | 0 <= j < k :: values[j] <= maxV
    {
      if values[k] > maxV { maxV := values[k]; }
    }
    forall j | 0 <= j < |allocs| && Counts(allocs[j], env) ensures allocs[j].value.value <= maxV {
      assert allocs[j].value.value in values;
    }
    MaxValueUnique(allocs, env, Some(maxV));
    return Some(Wrap64(maxV + 1));
  }

  lemma MaxEndUnique(allocs: seq<Allocation>, m: Option<int64>)
    requires IsMaxEnd(allocs, m)
    ensures m == MaxEnd(allocs)
  {
  }

  /** `start + size - 1` in 64-bit arithmetic. */
  function RangeAt(start: int64, size: int64): seq<int64> {
    [start, Wrap64(start + size - 1)]
  }

  function NextUnique(allocs: seq<Allocation>, env: string): seq<int64> {
    var m := MaxValue(allocs, env);
    if m.None? then [] else [Wrap64(m.value + 1)]
  }

  function NextRange(allocs: seq<Allocation>, size: int64): seq<int64> {
    var m := MaxEnd(allocs);
    if m.None? then [] else RangeAt(Wrap64(m.value + 1), size)
  }

  method SuggestNextRange(resource: Resource, size: int64) returns (r: seq<int64>)
    ensures r == NextRange(resource.allocations, size)
  {
    hide Wrap64;
    var allocs := resource.allocations;
    var ends: seq<int64> := [];
    for i := 0 to |allocs|
      invariant forall v :: v in ends <==> exists j | 0 <= j < i :: |allocs[j].range| >= 2 && allocs[j].range[1] == v
    {
      if |allocs[i].range| >= 2 { ends := ends + [allocs[i].range[1]]; }
    }
    if |ends| == 0 {
      assert forall j | 0 <= j < |allocs| && |allocs[j].range| >= 2 :: allocs[j].range[1] in ends;
      return [];
    }
    var maxEnd: int := ends[0];
    for k := 1 to |ends|
      invariant maxEnd in ends && forall j | 0 <= j < k :: ends[j] <= maxEnd
    {
      if ends[k] > maxEnd { maxEnd := ends[k]; }
    }
    forall j | 0 <= j < |allocs| && |allocs[j].range| >= 2 ensures allocs[j].range[1] <= maxEnd {
      assert allocs[j].range[1] in ends;
    }
    MaxEndUnique(allocs, Some(maxEnd));
    var nextStart := Wrap64(maxEnd + 1);
    return [nextStart, Wrap64(nextStart + size - 1)];
  }

  // ---- allocating and checking ----

  /** The resource that a request is added to: a missing one starts out empty. */
  function Target(rs: Resources, req: Request): Resource {
    if req.name in rs then rs[req.name] else Resource(req.kind, req.name, [])
  }

  predicate Explicit(req: Request) {
    if req.kind == "unique" then req.value.Some? else req.rangeStart.Some? && req.rangeEnd.Some?
  }

  /** The numbers that a request asks for, or is given when it leaves them open. */
  function Numbers(allocs: seq<Allocation>, req: Request, d: Defaults): (r: seq<int64>)
    ensures |r| == if req.kind == "unique" then 1 else 2
  {
    if req.kind == "unique" then
      if Explicit(req) then [req.value.value]
      else if MaxValue(allocs, req.env).None? then [1] else NextUnique(allocs, req.env)
    else
      if Explicit(req) then [req.rangeStart.value, req.rangeEnd.value]
      else if MaxEnd(allocs).None? then RangeAt(d.start, d.size) else NextRange(allocs, d.size)
  }

  function Clashes(allocs: seq<Allocation>, req: Request, numbers: seq<int64>): seq<Allocation>
    requires |numbers| == if req.kind == "unique" then 1 else 2
  {
    if req.kind == "unique" then ValueClashes(allocs, numbers[0], req.env)
    else RangeClashes(allocs, numbers[0], numbers[1])
  }

  function Entry(req: Request, numbers: seq<int64>): Allocation
    requires |numbers| == if req.kind == "unique" then 1 else 2
  {
    if req.kind == "unique" then Allocation(req.owner, Some(numbers[0]), [], req.env, req.note)
    else Allocation(req.owner, None, numbers, req.env, req.note)
  }

  predicate Supported(req: Request) {
    req.kind == "unique" || req.kind == "range"
  }

  function Decide(rs: Resources, req: Request, d: Defaults): Outcome {
    var allocs := Target(rs, req).allocations;
    var numbers := Numbers(allocs, req, d);
    var clashes := Clashes(allocs, req, numbers);
    if !Supported(req) then Unsupported
    else if clashes != [] then Conflict(clashes)
    else Allocated(Entry(req, numbers))
  }

  function After(rs: Resources, req: Request, d: Defaults): Resources {
    var outcome, target := Decide(rs, req, d), Target(rs, req);
    if !outcome.Allocated? then rs
    else rs[req.name := target.(allocations := target.allocations + [outcome.alloc])]
  }

  function Inspect(rs: Resources, req: Request, d: Defaults): CheckResult {
    if req.name !in rs then Fine([])
    else if !Supported(req) then UnsupportedKind
    else
      var allocs := rs[req.name].allocations;
      if !Explicit(req) then
        Fine(if req.kind == "unique" then NextUnique(allocs, req.env) else NextRange(allocs, d.size))
      else
        var clashes := Clashes(allocs, req, Numbers(allocs, req, d));
        if clashes != [] then Clashing(clashes) else Fine([])
  }

  class Store {
    var resources: Resources
    const defaults: Defaults

    constructor (defaults: Defaults)
      ensures resources == map[] && this.defaults == defaults
    {
      resources := map[];
      this.defaults := defaults;
    }

    method Allocate(req: Request) returns (outcome: Outcome)
      modifies this
      ensures outcome == Decide(old(resources), req, defaults)
      ensures resources == After(old(resources), req, defaults)
    {
      hide ValueClashes, RangeClashes, MaxValue, MaxEnd, Wrap64, IsMaxValue, IsMaxEnd;
      var resource := if req.name in resources then resources[req.name] else Resource(req.kind, req.name, []);
      var alloc := Allocation(req.owner, None, [], req.env, req.note);
      var conflicts: seq<Allocation>;
      match req.kind {
        case "unique" =>
          var value := req.value;
          if value.None? {
            value := SuggestNextUnique(resource, req.env);
            if value.None? { value := Some(1); }
          }
          conflicts := FindConflictsUnique(resource, value.value, req.env);
          alloc := alloc.(value := value);
        case "range" =>
          var start, end := req.rangeStart, req.rangeEnd;
          if start.None? || end.None? {
            var suggested := SuggestNextRange(resource, defaults.size);
            if suggested != [] {
              start, end := Some(suggested[0]), Some(suggested[1]);
            } else {
              start, end := Some(defaults.start), Some(Wrap64(defaults.start + defaults.size - 1));
            }
          }
          conflicts := FindConflictsRange(resource, start.value, end.value);
          alloc := alloc.(range := [start.value, end.value]);
        case _ => return Unsupported;
      }
      if |conflicts| > 0 {
        return Conflict(conflicts);
      }
      resources := resources[req.name := resource.(allocations := resource.allocations + [alloc])];
      return Allocated(alloc);
    }

    method Check(req: Request) returns (result: CheckResult)
      ensures result == Inspect(resources, req, defaults)
    {
      hide ValueClashes, RangeClashes, MaxValue, MaxEnd, Wrap64, IsMaxValue, IsMaxEnd;
      if req.name !in resources { return Fine([]); }
      var resource := resources[req.name];
      var conflicts: seq<Allocation>;
      match req.kind {
        case "unique" =>
          if req.value.None? {
            var suggestion := SuggestNextUnique(resource, req.env);
            return Fine(if suggestion.None? then [] else [suggestion.value]);
          }
          conflicts := FindConflictsUnique(resource, req.value.value, req.env);
        case "range" =>
          if req.rangeStart.None? || req.rangeEnd.None? {
            var suggestion := SuggestNextRange(resource, defaults.size);
            return Fine(suggestion);
          }
          conflicts := FindConflictsRange(resource, req.rangeStart.value, req.rangeEnd.value);
        case _ => return UnsupportedKind;
      }
      return if |conflicts| > 0 then Clashing(conflicts) else Fine([]);
    }
  }

  /** What is granted is what was asked for: the one new allocation is the requester's, in its
      environment, with the explicit numbers when there are any; other resources stay as they were. */
  lemma GrantedAsAsked(rs: Resources, req: Request, d: Defaults, other: string)
    requires Decide(rs, req, d).Allocated?
    ensures var a, after := Decide(rs, req, d).alloc, After(rs, req, d);
      && a.owner == req.owner && a.env == req.env && a.note == req.note
      && (if req.kind == "unique" then a.value.Some? && a.range == [] else a.value.None? && |a.range| == 2)
      && (req.kind == "unique" && req.value.Some? ==> a.value == req.value)
      && (req.kind == "range" && Explicit(req) ==> a.range == [req.rangeStart.value, req.rangeEnd.value])
      && req.name in after && after[req.name].allocations == (if req.name in rs then rs[req.name].allocations else []) + [a]
      && after[req.name].kind == (if req.name in rs then rs[req.name].kind else req.kind)
      && after[req.name].description == (if req.name in rs then rs[req.name].description else req.name)
      && (other != req.name ==> (other in after <==> other in rs) && (other in rs ==> after[other] == rs[other]))
  {
  }

  // ---- what is refused, and which numbers are given ----

  /** A request of no known kind is not supported. */
  lemma KindsExactly(rs: Resources, req: Request, d: Defaults)
    ensures Decide(rs, req, d).Unsupported? <==> req.kind != "unique" && req.kind != "range"
  {
  }

  /** A value that was asked for is refused exactly when it is taken in the same environment, or where
      one of the two environments is empty; and those allocations are listed. */
  lemma ExplicitUniqueExactly(rs: Resources, req: Request, d: Defaults, a: Allocation)
    requires req.kind == "unique" && req.value.Some?
    ensures var allocs := if req.name in rs then rs[req.name].allocations else [];
      && (Decide(rs, req, d).Conflict? <==> exists i | 0 <= i < |allocs| ::
            allocs[i].value == req.value && (allocs[i].env == req.env || allocs[i].env == "" || req.env == ""))
      && (Decide(rs, req, d).Conflict? ==> (a in Decide(rs, req, d).conflicts <==>
            a in allocs && a.value == req.value && (a.env == req.env || a.env == "" || req.env == "")))
  {
    hide RangeClashes, MaxValue, MaxEnd;
  }

  /** A range that was asked for is refused exactly when some range starts before its end and ends
      behind its start; and those allocations are listed. */
  lemma ExplicitRangeExactly(rs: Resources, req: Request, d: Defaults, a: Allocation)
    requires req.kind == "range" && req.rangeStart.Some? && req.rangeEnd.Some?
    ensures var allocs := if req.name in rs then rs[req.name].allocations else [];
      var start, end := req.rangeStart.value, req.rangeEnd.value;
      && (Decide(rs, req, d).Conflict? <==> exists i | 0 <= i < |allocs| ::
            |allocs[i].range| >= 2 && allocs[i].range[0] <= end && start <= allocs[i].range[1])
      && (Decide(rs, req, d).Conflict? ==> (a in Decide(rs, req, d).conflicts <==>
            a in allocs && |a.range| >= 2 && a.range[0] <= end && start <= a.range[1]))
  {
    hide ValueClashes, MaxValue, MaxEnd;
  }

  /** A value that was left open becomes 1 where nothing counts, and else the successor of the greatest
      value of the same environment or where one has none. */
  lemma OpenUniqueNumber(rs: Resources, req: Request, d: Defaults)
    requires req.kind == "unique" && req.value.None? && Decide(rs, req, d).Allocated?
    ensures var allocs := if req.name in rs then rs[req.name].allocations else [];
      var given := Decide(rs, req, d).alloc.value;
      given.Some? &&
      if forall i | 0 <= i < |allocs| && allocs[i].value.Some? ::
           allocs[i].env != req.env && allocs[i].env != "" && req.env != ""
      then given.value == 1
      else exists i | 0 <= i < |allocs| && allocs[i].value.Some? ::
        && (allocs[i].env == req.env || allocs[i].env == "" || req.env == "")
        && given.value == (if allocs[i].value.value == MAX64 then MIN64 else allocs[i].value.value + 1)
        && forall j | 0 <= j < |allocs| && allocs[j].value.Some?
             && (allocs[j].env == req.env || allocs[j].env == "" || req.env == "") ::
             allocs[j].value.value <= allocs[i].value.value
  {
    hide ValueClashes, RangeClashes, MaxEnd, MaxValue, Wrap64;
    var allocs := Target(rs, req).allocations;
    var m := MaxValue(allocs, req.env);
    assert IsMaxValue(allocs, req.env, m);
    if m.Some? {
      Successor(m.value);
      var i :| 0 <= i < |allocs| && Counts(allocs[i], req.env) && allocs[i].value == m;
      assert allocs[i].env == req.env || allocs[i].env == "" || req.env == "";
    }
  }

  /** A range that was left open starts where the defaults say when there is no range, and else behind
      the greatest end; it has the default size. */
  lemma OpenRangeNumbers(rs: Resources, req: Request, d: Defaults)
    requires req.kind == "range" && (req.rangeStart.None? || req.rangeEnd.None?) && Decide(rs, req, d).Allocated?
    ensures var allocs := if req.name in rs then rs[req.name].allocations else [];
      var given := Decide(rs, req, d).alloc.range;
      |given| == 2 && given[1] == Wrap64(given[0] + d.size - 1) &&
      if forall i | 0 <= i < |allocs| :: |allocs[i].range| < 2 then given[0] == d.start
      else exists i | 0 <= i < |allocs| && |allocs[i].range| >= 2 ::
        && given[0] == (if allocs[i].range[1] == MAX64 then MIN64 else allocs[i].range[1] + 1)
        && forall j | 0 <= j < |allocs| && |allocs[j].range| >= 2 :: allocs[j].range[1] <= allocs[i].range[1]
  {
    hide ValueClashes, RangeClashes, MaxEnd, MaxValue, Wrap64;
    var allocs := Target(rs, req).allocations;
    var m := MaxEnd(allocs);
    if m.Some? {
      Successor(m.value);
      var i :| 0 <= i < |allocs| && |allocs[i].range| >= 2 && allocs[i].range[1] == m.value;
    }
  }

  lemma Successor(n: int64)
    ensures Wrap64(n + 1) == if n == MAX64 then MIN64 else n + 1
  {
  }

  // ---- non-overlap over any run ----

  function Run(rs: Resources, reqs: seq<Request>, d: Defaults): Resources
    decreases |reqs|
  {
    if reqs == [] then rs else Run(After(rs, reqs[0], d), reqs[1..], d)
  }

  predicate Covers(a: Allocation, point: int) {
    |a.range| >= 2 && a.range[0] <= point <= a.range[1]
  }

  /** No shared value in compatible environments, and no overlap of the ranges. */
  predicate Apart(a: Allocation, b: Allocation) {
    && (a.value.Some? ==> !ValueClash(b, a.value.value, a.env))
    && (|a.range| >= 2 ==> !RangeClash(b, a.range[0], a.range[1]))
  }

  ghost predicate AllApart(rs: Resources) {
    forall name, i, j ::
      name in rs && 0 <= i < |rs[name].allocations| && 0 <= j < |rs[name].allocations| && i != j
      ==> Apart(rs[name].allocations[i], rs[name].allocations[j])
  }

  lemma StepKeepsApart(rs: Resources, req: Request, d: Defaults)
    requires AllApart(rs)
    ensures AllApart(After(rs, req, d))
  {
  }

  lemma {:induction false} RunKeepsApart(rs: Resources, reqs: seq<Request>, d: Defaults)
    requires AllApart(rs)
    ensures AllApart(Run(rs, reqs, d))
    decreases |reqs|
  {
    if reqs != [] {
      StepKeepsApart(rs, reqs[0], d);
      RunKeepsApart(After(rs, reqs[0], d), reqs[1..], d);
    }
  }

  /** From an empty registry, no run ever gives one number to two owners: not a value in the same
      environment or where one has none, not a point of two ranges, whatever bounds were asked for. */
  lemma NoOverlapEver(reqs: seq<Request>, d: Defaults, name: string, i: nat, j: nat)
    requires var rs := Run(map[], reqs, d);
      name in rs && i < |rs[name].allocations| && j < |rs[name].allocations| && i != j
    ensures var allocs := Run(map[], reqs, d)[name].allocations;
      && (allocs[i].value.Some? && allocs[i].value == allocs[j].value ==>
            allocs[i].env != allocs[j].env && allocs[i].env != "" && allocs[j].env != "")
      && forall point :: !(Covers(allocs[i], point) && Covers(allocs[j], point))
  {
    RunKeepsApart(map[], reqs, d);
    var allocs := Run(map[], reqs, d)[name].allocations;
    assert Apart(allocs[i], allocs[j]);
  }

  /** Runs only append: what was once allocated stays, in the same order. */
  lemma {:induction false} RunOnlyAppends(rs: Resources, reqs: seq<Request>, d: Defaults, name: string)
    requires name in rs
    ensures name in Run(rs, reqs, d) && rs[name].allocations <= Run(rs, reqs, d)[name].allocations
    decreases |reqs|
  {
    if reqs != [] { RunOnlyAppends(After(rs, reqs[0], d), reqs[1..], d, name); }
  }

  // ---- suggested numbers ----

  /** An open unique request is refused exactly when the largest 64-bit number is taken and
      the wrapped-around least one is taken too. */
  lemma OpenUniqueExactly(rs: Resources, req: Request, d: Defaults)
    requires req.kind == "unique" && !Explicit(req)
    ensures var allocs := Target(rs, req).allocations;
      Decide(rs, req, d).Conflict? <==>
        && MaxValue(allocs, req.env) == Some(MAX64)
        && exists i | 0 <= i < |allocs| :: ValueClash(allocs[i], MIN64, req.env)
  {
    hide ValueClashes, RangeClashes, MaxValue, MaxEnd;
  }

  /** An open range request is refused exactly when a range ends at the largest 64-bit number
      and the wrapped-around range at the least one is taken too. */
  lemma OpenRangeExactly(rs: Resources, req: Request, d: Defaults)
    requires req.kind == "range" && !Explicit(req) && d.size > 0
    ensures var allocs := Target(rs, req).allocations;
      Decide(rs, req, d).Conflict? <==>
        && MaxEnd(allocs) == Some(MAX64)
        && exists i | 0 <= i < |allocs| :: RangeClash(allocs[i], MIN64, MIN64 + d.size - 1)
  {
    hide ValueClashes, RangeClashes, MaxValue, MaxEnd;
  }

  /** A granted open range runs forwards, with exactly the default size, unless its end
      overflows; then it is granted all the same and covers no number at all. */
  lemma OpenRangeIsUsableExactly(rs: Resources, req: Request, d: Defaults)
    requires req.kind == "range" && !Explicit(req) && d.size > 0
    requires Decide(rs, req, d).Allocated?
    ensures var e, a := MaxEnd(Target(rs, req).allocations), Decide(rs, req, d).alloc;
      var start := if e.None? then d.start as int else Wrap64(e.value + 1);
      && (start + d.size - 1 <= MAX64 ==> a.range == [start, start + d.size - 1])
      && (start + d.size - 1 > MAX64 <==> forall point :: !Covers(a, point))
  {
    var a := Decide(rs, req, d).alloc;
    assert a.range[0] <= a.range[1] ==> Covers(a, a.range[0]);
  }

  /** Such a grant: behind a range that ends nine numbers before the largest one. */
  lemma OverflowingRangeIsGranted()
    ensures var rs := map["ports" := Resource("range", "ports", [Allocation("x", None, [1, MAX64 - 9], "", "")])];
      var outcome := Decide(rs, Request("range", "ports", "y", None, None, None, "", ""), Defaults(100, 1));
      outcome.Allocated? && outcome.alloc.range == [MAX64 - 8, MIN64 + 90]
  {
    var allocs := [Allocation("x", None, [1, MAX64 - 9], "", "")];
    var rs := map["ports" := Resource("range", "ports", allocs)];
    var req, d := Request("range", "ports", "y", None, None, None, "", ""), Defaults(100, 1);
    assert allocs[0].range[1] == MAX64 - 9;
    hide RangeClashes, ValueClashes, MaxEnd, MaxValue, Decide, Wrap64, RangeClash;
    MaxEndUnique(allocs, Some(MAX64 - 9));
    hide IsMaxEnd;
    KindsExactly(rs, req, d);
    OpenRangeExactly(rs, req, d);
    OpenRangeNumbers(rs, req, d);
    WrapExactly(MAX64 - 8 + 99, MIN64 + 90);
  }

  /** On an existing resource and explicit numbers, `Check` reports what `Allocate` would;
      the numbers it suggests for an open request are the ones `Allocate` then tries. */
  lemma CheckForetellsAllocate(rs: Resources, req: Request, d: Defaults)
    requires req.name in rs
    ensures var check, outcome := Inspect(rs, req, d), Decide(rs, req, d);
      && (check.UnsupportedKind? <==> outcome.Unsupported?)
      && (check.Clashing? <==> outcome.Conflict? && Explicit(req))
      && (check.Clashing? ==> check.conflicts == outcome.conflicts)
      && (check.Fine? && check.suggestion != [] && outcome.Allocated? ==>
            outcome.alloc == Entry(req, check.suggestion))
  {
  }

  /** `Check` says nothing about a resource that is not there; for a request that leaves its numbers
      open it suggests some, unless there is nothing to go by. */
  lemma CheckSuggestsExactly(rs: Resources, req: Request, d: Defaults)
    ensures req.name !in rs ==> Inspect(rs, req, d) == Fine([])
    ensures req.name in rs && req.kind == "unique" && req.value.None? ==>
      var check, allocs := Inspect(rs, req, d), rs[req.name].allocations;
      check.Fine? && (check.suggestion == [] <==> forall i | 0 <= i < |allocs| && allocs[i].value.Some? ::
        allocs[i].env != req.env && allocs[i].env != "" && req.env != "")
    ensures req.name in rs && req.kind == "range" && (req.rangeStart.None? || req.rangeEnd.None?) ==>
      var check, allocs := Inspect(rs, req, d), rs[req.name].allocations;
      check.Fine? && (check.suggestion == [] <==> forall i | 0 <= i < |allocs| :: |allocs[i].range| < 2)
    ensures req.name in rs && req.kind == "unique" && req.value.Some? ==>
      Inspect(rs, req, d) == match Decide(rs, req, d) case Conflict(cs) => Clashing(cs) case _ => Fine([])
    ensures req.name in rs && req.kind == "range" && req.rangeStart.Some? && req.rangeEnd.Some? ==>
      Inspect(rs, req, d) == match Decide(rs, req, d) case Conflict(cs) => Clashing(cs) case _ => Fine([])
  {
    hide ValueClashes, RangeClashes, MaxValue, MaxEnd, Wrap64;
  }

  /** A request that is not granted leaves the registry as it was. */
  lemma RefusedChangesNothing(rs: Resources, req: Request, d: Defaults)
    requires !Decide(rs, req, d).Allocated?
    ensures After(rs, req, d) == rs
  {
    hide ValueClashes, RangeClashes, MaxValue, MaxEnd;
  }

  /** Such a registry: it holds the largest and the least number. */
  lemma OpenUniqueIsRefused()
    ensures var rs := map["port" := Resource("unique", "port",
        [Allocation("x", Some(MAX64), [], "", ""), Allocation("y", Some(MIN64), [], "", "")])];
      Decide(rs, Request("unique", "port", "z", None, None, None, "", ""), Defaults(100, 1)).Conflict?
  {
    var allocs := [Allocation("x", Some(MAX64), [], "", ""), Allocation("y", Some(MIN64), [], "", "")];
    var rs := map["port" := Resource("unique", "port", allocs)];
    assert Counts(allocs[0], "") && allocs[0].value == Some(MAX64);
    MaxValueUnique(allocs, "", Some(MAX64));
    assert ValueClash(allocs[1], MIN64, "");
    hide RangeClashes, ValueClashes, MaxEnd, MaxValue, IsMaxEnd, IsMaxValue;
    OpenUniqueExactly(rs, Request("unique", "port", "z", None, None, None, "", ""), Defaults(100, 1));
  }

  lemma OpenRangeIsRefused()
    ensures var rs := map["ports" := Resource("range", "ports",
        [Allocation("x", None, [1, MAX64], "", ""), Allocation("y", None, [MIN64, 0], "", "")])];
      Decide(rs, Request("range", "ports", "z", None, None, None, "", ""), Defaults(100, 1)).Conflict?
  {
    var allocs := [Allocation("x", None, [1, MAX64], "", ""), Allocation("y", None, [MIN64, 0], "", "")];
    var rs := map["ports" := Resource("range", "ports", allocs)];
    assert allocs[0].range[1] == MAX64;
    MaxEndUnique(allocs, Some(MAX64));
    assert RangeClash(allocs[1], MIN64, MIN64 + 99);
    hide RangeClashes, ValueClashes, MaxEnd, MaxValue, IsMaxEnd, IsMaxValue;
    OpenRangeExactly(rs, Request("range", "ports", "z", None, None, None, "", ""), Defaults(100, 1));
  }
}
