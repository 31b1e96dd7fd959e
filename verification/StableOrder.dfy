/** The order in which a stable sort by key lists the positions of a sequence.
    It is the only listing of the positions that ascends by key and, among equal
    keys, by position; so any stable sort of the library produces it. */
module StableOrder {
  import opened Text

  /** Position i comes before position j. */
  predicate Before(keys: seq<string>, i: nat, j: nat)
    requires i < |keys| && j < |keys|
  {
    Less(keys[i], keys[j]) || (keys[i] == keys[j] && i < j)
  }

  predicate Below(order: seq<nat>, n: nat) {
    forall i | 0 <= i < |order| :: order[i] < n
  }

  ghost predicate InOrder(order: seq<nat>, keys: seq<string>) {
    Below(order, |keys|) && forall a, b | 0 <= a < b < |order| :: Before(keys, order[a], order[b])
  }

  /** Inserts position j behind every position with a key not above its own. */
  function Insert(order: seq<nat>, keys: seq<string>, j: nat): (r: seq<nat>)
    requires j < |keys| && Below(order, j)
    ensures |r| == |order| + 1 && Below(r, j + 1) && forall p: nat :: p in r <==> p in order || p == j
  {
    if order == [] then [j]
    else
      var n := |order| - 1;
      assert order == order[..n] + [order[n]];
      if Less(keys[j], keys[order[n]]) then Insert(order[..n], keys, j) + [order[n]] else order + [j]
  }

  /** The stable order of the first n positions. */
  function Order(keys: seq<string>, n: nat): (r: seq<nat>)
    requires n <= |keys|
    ensures |r| == n && Below(r, n) && forall p: nat :: p in r <==> p < n
  {
    if n == 0 then [] else Insert(Order(keys, n - 1), keys, n - 1)
  }

  lemma BeforeTransitive(keys: seq<string>, i: nat, j: nat, k: nat)
    requires i < |keys| && j < |keys| && k < |keys| && Before(keys, i, j) && Before(keys, j, k)
    ensures Before(keys, i, k)
  {
    if Less(keys[i], keys[j]) && Less(keys[j], keys[k]) { LessTransitive(keys[i], keys[j], keys[k]); }
  }

  lemma {:induction false} InsertInOrder(order: seq<nat>, keys: seq<string>, j: nat)
    requires j < |keys| && InOrder(order, keys) && Below(order, j)
    ensures InOrder(Insert(order, keys, j), keys)
  {
    if order != [] {
      var n := |order| - 1;
      var r := Insert(order, keys, j);
      if Less(keys[j], keys[order[n]]) {
        InsertInOrder(order[..n], keys, j);
        forall a | 0 <= a < |r| - 1 ensures Before(keys, r[a], order[n]) {
          assert r[a] in Insert(order[..n], keys, j);
          assert r[a] in order[..n] || r[a] == j;
          if r[a] != j { var b :| 0 <= b < n && order[b] == r[a]; }
        }
      } else {
        LessTotal(keys[j], keys[order[n]]);
        assert order[n] in order;
        assert Before(keys, order[n], j);
        forall a | 0 <= a < n ensures Before(keys, order[a], j) { BeforeTransitive(keys, order[a], order[n], j); }
      }
    }
  }

  lemma {:induction false} OrderInOrder(keys: seq<string>, n: nat)
    requires n <= |keys|
    ensures InOrder(Order(keys, n), keys)
  {
    if n > 0 {
      OrderInOrder(keys, n - 1);
      InsertInOrder(Order(keys, n - 1), keys, n - 1);
    }
  }

  lemma BeforeIrreflexive(keys: seq<string>, i: nat, j: nat)
    requires i < |keys| && j < |keys| && Before(keys, i, j)
    ensures !Before(keys, j, i) && i != j
  {
    LessIrreflexive(keys[i]);
    if Less(keys[i], keys[j]) && Less(keys[j], keys[i]) { LessTransitive(keys[i], keys[j], keys[i]); }
  }

  /** Whatever a stable sort does inside, it lists the positions in this order. */
  lemma {:induction false} OrderUnique(a: seq<nat>, b: seq<nat>, keys: seq<string>)
    requires InOrder(a, keys) && InOrder(b, keys) && forall p: nat :: p in a <==> p in b
    ensures a == b
    decreases |a|
  {
    assert a != [] ==> a[0] in a;
    assert b != [] ==> b[0] in b;
    if a != [] {
      if a[0] != b[0] {
        var i :| 0 <= i < |b| && b[i] == a[0];
        var j :| 0 <= j < |a| && a[j] == b[0];
        BeforeIrreflexive(keys, a[0], b[0]);
      }
      forall p: nat ensures p in a[1..] <==> p in b[1..] {
        Tail(a, keys, p);
        Tail(b, keys, p);
      }
      OrderUnique(a[1..], b[1..], keys);
      assert a == [a[0]] + a[1..] && b == [b[0]] + b[1..];
    }
  }

  lemma Tail(a: seq<nat>, keys: seq<string>, p: nat)
    requires InOrder(a, keys) && a != []
    ensures p in a[1..] <==> p in a && p != a[0]
  {
    assert a == [a[0]] + a[1..];
    if p in a[1..] {
      var i :| 0 <= i < |a[1..]| && a[1..][i] == p;
      BeforeIrreflexive(keys, a[0], a[i + 1]);
    }
  }

  /** Keys that already ascend stay where they are. */
  lemma SortedStays(keys: seq<string>)
    requires forall i, j | 0 <= i < j < |keys| :: !Less(keys[j], keys[i])
    ensures Order(keys, |keys|) == seq(|keys|, i requires 0 <= i < |keys| => i)
  {
    var id := seq(|keys|, i requires 0 <= i < |keys| => i);
    forall i, j | 0 <= i < j < |keys| ensures Before(keys, id[i], id[j]) { LessTotal(keys[i], keys[j]); }
    forall p: nat ensures p in id <==> p in Order(keys, |keys|) {
      if p < |keys| { assert id[p] == p; }
    }
    OrderInOrder(keys, |keys|);
    OrderUnique(Order(keys, |keys|), id, keys);
  }

  /** `sort.SliceStable`, as far as its contract goes: every position once, ascending by key and,
      among equal keys, by position. */
  method SliceStable(keys: seq<string>) returns (order: seq<nat>)
    ensures order == Order(keys, |keys|)
    ensures InOrder(order, keys) && forall p: nat :: p in order <==> p < |keys|
  {
    order := [];
    for j := 0 to |keys|
      invariant order == Order(keys, j)
    {
      order := Insert(order, keys, j);
    }
    OrderInOrder(keys, |keys|);
  }
}
