/** Free sprint IDs, pkg/sprint/multiworktree.go: the next number whose ID no worktree holds,
    on 64-bit integers and with the bound that the runtime sets to the capacity of a slice. */
module SprintIds {
  import opened Text
  import opened Decimal

  const PREFIX := "sprint-"

  function Id(n: int): string {
    PREFIX + IntText(n)
  }

  /** The number of an ID in `sprint-N` form, unless it does not fit 64 bits. */
  function Number(id: string): (n: Option<nat>)
    ensures n.Some? ==> n.value <= MAX64
  {
    if !(PREFIX <= id) then None
    else
      var digits := id[|PREFIX|..];
      if digits == [] || exists c | c in digits :: !IsDigit(c) then None
      else if NatValue(digits) > MAX64 then None
      else Some(NatValue(digits))
  }

  /** A number is read exactly from the prefix and digits, if it fits 64 bits. */
  lemma NumberExactly(id: string, n: nat)
    ensures Number(id) == Some(n) <==>
      n <= 9223372036854775807 && exists digits :: id == "sprint-" + digits && IsNumeral(digits) && NatValue(digits) == n
    ensures Id(n) == "sprint-" + NatText(n)
  {
    hide NatValue, NatText;
    if Number(id) == Some(n) {
      var digits := id[|PREFIX|..];
      assert id == "sprint-" + digits && IsNumeral(digits);
    }
    if exists digits :: id == "sprint-" + digits && IsNumeral(digits) && NatValue(digits) == n {
      var digits :| id == "sprint-" + digits && IsNumeral(digits) && NatValue(digits) == n;
      assert id[|PREFIX|..] == digits;
    }
  }

  predicate IsNumeral(digits: string) {
    digits != "" && forall c | c in digits :: IsDigit(c)
  }

  // ---- what is asked for ----

  function Start(baseID: string): nat {
    var n := Number(baseID);
    if n.Some? then n.value + 1 else 1
  }

  /** The least number from the base's successor on whose ID is free. */
  ghost predicate IsNext(occupied: set<string>, baseID: string, n: nat) {
    && n >= Start(baseID) && Id(n) !in occupied
    && forall m | Start(baseID) <= m < n :: Id(m) in occupied
  }

  /** Nothing but the set of occupied IDs decides the answer. */
  lemma NextIsUnique(occupied: set<string>, baseID: string, m: nat, n: nat)
    requires IsNext(occupied, baseID, m) && IsNext(occupied, baseID, n)
    ensures m == n
  {
  }

  /** Behind a base with a number comes the next one; without a number the search starts at 1. An occupied
      ID is passed over. */
  lemma NextWritten(n: nat, other: string)
    requires n <= 9223372036854775807 && !("sprint-" <= other)
    ensures var base, next := "sprint-" + NatText(n), "sprint-" + NatText(n + 1);
      IsNext({}, base, n + 1) && IsNext({next}, base, n + 2)
    ensures IsNext({}, other, 1) && IsNext({"sprint-" + NatText(1)}, other, 2)
  {
    IdNumber(n);
    IdsWritten(n);
    IdsWritten(n + 1);
    IdsWritten(n + 2);
    IdsWritten(1);
    IdsWritten(2);
    if Id(n + 2) == Id(n + 1) { IdsDiffer(n + 2, n + 1); }
    if Id(2) == Id(1) { IdsDiffer(2, 1); }
    assert Number(other) == None;
    hide NatText, Number, Id;
    assert Start(Id(n)) == n + 1 && Start(other) == 1;
  }

  lemma IdsWritten(n: nat)
    ensures Id(n) == "sprint-" + NatText(n)
  {
    hide NatText;
  }

  // ---- what is computed ----

  /** An answer, a panic on a capacity that is negative or above the bound, or a loop that never ends. */
  datatype Outcome = Found(id: string) | Panics | Hangs

  function Successor(n: Option<nat>, least: int64): int64 {
    if n.Some? && n.value >= least then Wrap64(n.value + 1) else least
  }

  /** `maxN` once the map has yielded these keys. */
  function Highest(order: seq<string>, start: int64): int64 {
    if order == [] then start
    else Successor(Number(order[|order| - 1]), Highest(order[..|order| - 1], start))
  }

  function FirstFree(occupied: set<string>, n: int, maxN: int): int
    requires n <= maxN
    decreases maxN - n
  {
    if Id(n) !in occupied || n == maxN then n else FirstFree(occupied, n + 1, maxN)
  }

  function Start64(baseID: string): int64 {
    var n := Number(baseID);
    if n.Some? then Wrap64(n.value + 1) else 1
  }

  /** With `room` as the largest capacity that `make` grants. */
  function Answer(occupied: set<string>, order: seq<string>, baseID: string, room: nat): Outcome {
    var start := Start64(baseID);
    var maxN := Highest(order, start);
    var capacity := Wrap64(Wrap64(maxN - start) + 1);
    if capacity < 0 || capacity > room then Panics
    else if maxN == MAX64 then Hangs
    else Found(Id(if start <= maxN then FirstFree(occupied, start, maxN) else maxN))
  }

  /** The order in which the map yields its keys. */
  ghost predicate Yields(order: seq<string>, occupied: set<string>) {
    (forall id :: id in order <==> id in occupied) && forall i, j | 0 <= i < j < |order| :: order[i] != order[j]
  }

  method NextAvailableSprintID(occupied: map<string, string>, order: seq<string>, baseID: string, room: nat) returns (r: Outcome)
    requires Yields(order, occupied.Keys)
    ensures r == Answer(occupied.Keys, order, baseID, room)
  {
    hide Number, Id, Wrap64, FirstFree;
    var start: int64 := 1;
    var base := Number(baseID);
    if base.Some? {
      start := Wrap64(base.value + 1);
    }
    var maxN := start;
    for k := 0 to |order|
      invariant maxN == Highest(order[..k], start)
    {
      assert order[..k + 1][..k] == order[..k];
      var n := Number(order[k]);
      if n.Some? && n.value >= maxN {
        maxN := Wrap64(n.value + 1);
      }
    }
    assert order[..|order|] == order;
    var capacity := Wrap64(Wrap64(maxN - start) + 1);
    if capacity < 0 || capacity > room { return Panics; }
    // The counter wraps around before it exceeds the largest number.
    if maxN == MAX64 { return Hangs; }
    var candidates: seq<int> := [];
    var n: int := start;
    while n <= maxN
      invariant start <= n && (n > start ==> n <= maxN + 1)
      invariant |candidates| == n - start && forall k | 0 <= k < |candidates| :: candidates[k] == start + k
    {
      candidates := candidates + [n];
      n := n + 1;
    }
    r := FirstCandidate(occupied, candidates, start, maxN);
  }

  /** The loop over the candidates, and the fallback behind it. */
  method FirstCandidate(occupied: map<string, string>, candidates: seq<int>, start: int, maxN: int) returns (r: Outcome)
    requires |candidates| == if start <= maxN then maxN + 1 - start else 0
    requires forall k | 0 <= k < |candidates| :: candidates[k] == start + k
    ensures r == Found(Id(if start <= maxN then FirstFree(occupied.Keys, start, maxN) else maxN))
  {
    hide Id;
    for k := 0 to |candidates|
      invariant k < |candidates| ==> FirstFree(occupied.Keys, start + k, maxN) == FirstFree(occupied.Keys, start, maxN)
      invariant k == |candidates| && start <= maxN ==> FirstFree(occupied.Keys, start, maxN) == maxN
    {
      var id := Id(candidates[k]);
      if id !in occupied {
        return Found(id);
      }
    }
    return Found(Id(maxN));
  }

  // ---- when it is right ----

  /** The number leaves room for a successor that a loop can count past. */
  predicate Roomy(id: string) {
    var n := Number(id);
    n.Some? ==> n.value < MAX64 - 1
  }

  lemma {:induction false} HighestBounds(order: seq<string>, start: int64)
    requires start >= 1 && start < MAX64 && forall id | id in order :: Roomy(id)
    ensures start <= Highest(order, start) < MAX64
    ensures forall id | id in order && Number(id).Some? :: Number(id).value < Highest(order, start)
  {
    hide Number;
    if order != [] {
      var k := |order| - 1;
      assert order == order[..k] + [order[k]];
      HighestBounds(order[..k], start);
      assert Roomy(order[k]);
    }
  }

  lemma {:induction false} FirstFreeIs(occupied: set<string>, n: int, maxN: int)
    requires n <= maxN && Id(maxN) !in occupied
    ensures var m := FirstFree(occupied, n, maxN);
      n <= m <= maxN && Id(m) !in occupied && forall k | n <= k < m :: Id(k) in occupied
    decreases maxN - n
  {
    hide Id;
    if Id(n) in occupied && n != maxN { FirstFreeIs(occupied, n + 1, maxN); }
  }

  lemma {:induction false} FirstFreeBounds(occupied: set<string>, n: int, maxN: int)
    requires n <= maxN
    ensures n <= FirstFree(occupied, n, maxN) <= maxN
    decreases maxN - n
  {
    hide Id;
    if Id(n) in occupied && n != maxN { FirstFreeBounds(occupied, n + 1, maxN); }
  }

  lemma IdNumber(n: nat)
    requires n <= MAX64
    ensures Number(Id(n)) == Some(n)
  {
    NatRoundTrip(n);
    assert Id(n)[|PREFIX|..] == NatText(n);
  }

  lemma IdsDiffer(m: int, n: int)
    requires Id(m) == Id(n)
    ensures m == n
  {
    IntRoundTrip(m);
    IntRoundTrip(n);
    assert Id(m)[|PREFIX|..] == IntText(m) && Id(n)[|PREFIX|..] == IntText(n);
  }

  ghost predicate IsRight(occupied: set<string>, order: seq<string>, baseID: string, room: nat) {
    exists n: nat :: IsNext(occupied, baseID, n) && Answer(occupied, order, baseID, room) == Found(Id(n))
  }

  /** The candidates from the base's successor to the one of this number are not too many. */
  predicate Near(id: string, baseID: string, room: nat) {
    var n := Number(id);
    n.Some? ==> n.value + 2 - Start(baseID) <= room
  }

  /** There is room behind every number, and none is too far from the base. */
  predicate Fits(occupied: set<string>, baseID: string, room: nat) {
    Roomy(baseID) && room >= 1 && forall id | id in occupied :: Roomy(id) && Near(id, baseID, room)
  }

  /** Some ID accounts for the largest candidate, unless it is the first. */
  lemma {:induction false} HighestIsReached(order: seq<string>, start: int64)
    requires start >= 1 && start < MAX64 && forall id | id in order :: Roomy(id)
    ensures Highest(order, start) == start
      || exists id | id in order :: Number(id).Some? && Number(id).value + 1 == Highest(order, start)
  {
    hide Number;
    if order != [] {
      var k := |order| - 1;
      assert order == order[..k] + [order[k]];
      assert Roomy(order[k]);
      HighestIsReached(order[..k], start);
    }
  }

  /** With room everywhere the capacity is within the bound exactly when no ID is too far away. */
  lemma CapacityExactly(occupied: set<string>, order: seq<string>, baseID: string, room: nat)
    requires Yields(order, occupied) && Roomy(baseID) && forall id | id in occupied :: Roomy(id)
    ensures var start := Start64(baseID);
      && start == Start(baseID) <= Highest(order, start) < MAX64
      && Wrap64(Wrap64(Highest(order, start) - start) + 1) == Highest(order, start) - start + 1
      && (Highest(order, start) - start + 1 <= room <==> Fits(occupied, baseID, room))
  {
    var start := Start64(baseID);
    StartIsExact(baseID);
    hide Number, Wrap64, Roomy, Highest, Start64, Start;
    HighestBounds(order, start);
    HighestIsReached(order, start);
    WrapExactly(Highest(order, start) - start, Highest(order, start) - start);
    WrapExactly(Highest(order, start) - start + 1, Highest(order, start) - start + 1);
    assert forall id | id in occupied :: id in order;
  }

  lemma StartIsExact(baseID: string)
    requires Roomy(baseID)
    ensures 1 <= Start64(baseID) == Start(baseID) < MAX64
  {
    hide Number;
  }

  /** Within these bounds the answer is right, and the fallback is never taken. */
  lemma FittingIsRight(occupied: set<string>, order: seq<string>, baseID: string, room: nat)
    requires Yields(order, occupied) && Fits(occupied, baseID, room)
    ensures IsRight(occupied, order, baseID, room)
  {
    hide Number, Id, Near;
    var start := Start64(baseID);
    CapacityExactly(occupied, order, baseID, room);
    HighestBounds(order, start);
    var maxN := Highest(order, start);
    IdNumber(maxN);
    assert Id(maxN) in occupied ==> Id(maxN) in order;
    FirstFreeIs(occupied, start, maxN);
    var n: nat := FirstFree(occupied, start, maxN);
    assert IsNext(occupied, baseID, n);
  }

  /** What is found is always the ID of a number below the largest one. */
  lemma FoundIsBelow(occupied: set<string>, order: seq<string>, baseID: string, room: nat) returns (m: int)
    requires Answer(occupied, order, baseID, room).Found?
    ensures Answer(occupied, order, baseID, room) == Found(Id(m)) && MIN64 <= m < MAX64
    ensures Start64(baseID) > Highest(order, Start64(baseID)) ==> m == Highest(order, Start64(baseID))
  {
    hide Number, Id, Wrap64;
    var start := Start64(baseID);
    var maxN := Highest(order, start);
    m := maxN;
    if start <= maxN {
      FirstFreeBounds(occupied, start, maxN);
      m := FirstFree(occupied, start, maxN);
    }
  }

  /** Without room behind the base no order of the map gives the right answer. */
  lemma CrampedBaseIsWrong(occupied: set<string>, order: seq<string>, baseID: string, room: nat)
    requires !Roomy(baseID)
    ensures !IsRight(occupied, order, baseID, room)
  {
    hide Id, Number, Wrap64, Answer;
    if IsRight(occupied, order, baseID, room) {
      var n: nat :| IsNext(occupied, baseID, n) && Answer(occupied, order, baseID, room) == Found(Id(n));
      var m := FoundIsBelow(occupied, order, baseID, room);
      IdsDiffer(m, n);
    }
  }

  /** Without room behind an occupied ID the order that yields it last gives a wrong answer. */
  lemma CrampedLastIsWrong(occupied: set<string>, front: seq<string>, last: string, baseID: string, room: nat)
    requires Roomy(baseID) && !Roomy(last)
    ensures !IsRight(occupied, front + [last], baseID, room)
  {
    hide Id, Number;
    var order, start := front + [last], Start64(baseID);
    assert order[..|front|] == front;
    var maxN := Highest(order, start);
    assert maxN == MAX64 || maxN == MIN64;
    if IsRight(occupied, order, baseID, room) {
      var n: nat :| IsNext(occupied, baseID, n) && Answer(occupied, order, baseID, room) == Found(Id(n));
      var m := FoundIsBelow(occupied, order, baseID, room);
      IdsDiffer(m, n);
    }
  }

  /** With an ID too far away every order panics. */
  lemma FarIsWrong(occupied: set<string>, order: seq<string>, baseID: string, room: nat)
    requires Yields(order, occupied) && Roomy(baseID) && (forall id | id in occupied :: Roomy(id))
    requires !Fits(occupied, baseID, room)
    ensures Answer(occupied, order, baseID, room) == Panics && !IsRight(occupied, order, baseID, room)
  {
    hide Fits, Id, Wrap64, FirstFree;
    CapacityExactly(occupied, order, baseID, room);
  }

  /** The answer is right in whatever order the map yields its keys exactly when neither the base nor
      an occupied ID has one of the two largest 64-bit numbers, and none is too far from the base. */
  lemma RightExactly(occupied: set<string>, baseID: string, room: nat)
    ensures (forall order | Yields(order, occupied) :: IsRight(occupied, order, baseID, room)) <==> Fits(occupied, baseID, room)
  {
    hide IsRight, Roomy, Near;
    if Fits(occupied, baseID, room) {
      forall order | Yields(order, occupied) ensures IsRight(occupied, order, baseID, room) {
        FittingIsRight(occupied, order, baseID, room);
      }
    } else if id :| id in occupied && !Roomy(id) && Roomy(baseID) {
      var front := SortedKeys(occupied - {id});
      ListingYields(front, occupied - {id});
      assert Yields(front + [id], occupied);
      CrampedLastIsWrong(occupied, front, id, baseID, room);
    } else {
      var order := SortedKeys(occupied);
      ListingYields(order, occupied);
      if Roomy(baseID) { FarIsWrong(occupied, order, baseID, room); } else { CrampedBaseIsWrong(occupied, order, baseID, room); }
    }
  }

  /** Behind the largest number the search starts at the least one; an ID with the second largest then
      makes the candidates run over the whole range, and the loop does not end. */
  lemma WrappedBaseHangs(base: string, id: string, room: nat)
    requires Number(base) == Some(MAX64) && Number(id) == Some(MAX64 - 1)
    ensures Answer({id}, [id], base, room) == Hangs
  {
    hide Number, Wrap64, Id;
    WrapExactly(MAX64 + 1, MIN64);
    WrapExactly(MAX64, MAX64);
    WrapExactly(MAX64 - MIN64, -1);
    WrapExactly(0, 0);
    assert [id][..0] == [];
    assert Highest([], MIN64) == MIN64;
  }

  lemma ListingYields(order: seq<string>, occupied: set<string>)
    requires order == SortedKeys(occupied)
    ensures Yields(order, occupied)
  {
    forall i, j | 0 <= i < j < |order| ensures order[i] != order[j] { LessIrreflexive(order[i]); }
  }
}
