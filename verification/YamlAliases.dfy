/** Aliases under the canonicaliser of pkg/config/canonical.go. The sort moves nodes, and the
    text is then written in the new order; a reader of that text binds each alias to the node
    that carried its name last, in document order. So moving a pair can give an alias another
    target, or none. This module says exactly when the meaning survives, and what the
    leaf-key check notices. */
module YamlAliases {
  import opened Text
  import opened StableOrder
  import opened YamlTree

  // ---- document order and bindings ----

  /** All nodes, in document order. */
  function Nodes(t: Tree): (r: seq<Tree>)
    ensures t in r
    decreases t, |t.content| + 1
  {
    [t] + NodesFirst(t, |t.content|)
  }

  function NodesFirst(t: Tree, n: nat): seq<Tree>
    requires n <= |t.content|
    decreases t, n
  {
    if n == 0 then [] else NodesFirst(t, n - 1) + Nodes(t.content[n - 1])
  }

  lemma {:induction false} InNodesFirst(t: Tree, n: nat, x: Tree)
    requires n <= |t.content|
    ensures x in NodesFirst(t, n) <==> exists i | 0 <= i < n :: x in Nodes(t.content[i])
    decreases n
  {
    hide Nodes;
    if n > 0 { InNodesFirst(t, n - 1, x); }
  }

  lemma InNodes(t: Tree, x: Tree)
    ensures x in Nodes(t) <==> x == t || exists i | 0 <= i < |t.content| :: x in Nodes(t.content[i])
  {
    InNodesFirst(t, |t.content|, x);
  }

  /** The node that took the name last, before position k. */
  function Latest(nodes: seq<Tree>, k: nat, name: string): (r: Option<nat>)
    requires k <= |nodes|
    ensures r.Some? ==> exists j | 0 <= j < k :: nodes[j].anchor == name != "" && nodes[j].id == r.value
  {
    if k == 0 || name == "" then None
    else if nodes[k - 1].anchor == name then Some(nodes[k - 1].id)
    else Latest(nodes, k - 1, name)
  }

  function Target(nodes: seq<Tree>, k: nat): Option<nat>
    requires k < |nodes|
  {
    Latest(nodes, k, nodes[k].value)
  }

  /** A reader of the text binds alias a to node b. */
  predicate BindsTo(t: Tree, a: nat, b: nat) {
    exists k | 0 <= k < |Nodes(t)| ::
      Nodes(t)[k].kind == Alias && Nodes(t)[k].id == a && Target(Nodes(t), k) == Some(b)
  }

  /** The text that the tree is written to parses again: every alias finds its name. */
  predicate Parses(t: Tree) {
    forall k | 0 <= k < |Nodes(t)| :: Nodes(t)[k].kind == Alias ==> Target(Nodes(t), k).Some?
  }

  /** No alias changes its binding under the sort. */
  ghost predicate BindingsKept(t: Tree) {
    forall a, b :: BindsTo(SortTree(t), a, b) <==> BindsTo(t, a, b)
  }

  // ---- each node occurs once ----

  ghost predicate HasId(t: Tree, id: nat)
    decreases t
  {
    t.id == id || exists i :: 0 <= i < |t.content| && HasId(t.content[i], id)
  }

  /** No two nodes of the tree are the same node. */
  ghost predicate Distinct(t: Tree)
    decreases t
  {
    && (forall i | 0 <= i < |t.content| :: Distinct(t.content[i]) && !HasId(t.content[i], t.id))
    && forall i, j, id | 0 <= i < j < |t.content| && HasId(t.content[i], id) :: !HasId(t.content[j], id)
  }

  lemma {:induction false} NodeHasId(t: Tree, x: Tree)
    requires x in Nodes(t)
    ensures HasId(t, x.id)
    decreases t
  {
    InNodes(t, x);
    if x != t {
      var i :| 0 <= i < |t.content| && x in Nodes(t.content[i]);
      NodeHasId(t.content[i], x);
    }
  }

  /** In a tree of distinct nodes the number tells the node. */
  lemma {:induction false} IdTellsNode(t: Tree, x: Tree, y: Tree)
    requires Distinct(t) && x in Nodes(t) && y in Nodes(t) && x.id == y.id
    ensures x == y
    decreases t
  {
    InNodes(t, x);
    InNodes(t, y);
    if x == t || y == t {
      if x != y {
        var z := if x == t then y else x;
        var i :| 0 <= i < |t.content| && z in Nodes(t.content[i]);
        NodeHasId(t.content[i], z);
      }
    } else {
      var i :| 0 <= i < |t.content| && x in Nodes(t.content[i]);
      var j :| 0 <= j < |t.content| && y in Nodes(t.content[j]);
      NodeHasId(t.content[i], x);
      NodeHasId(t.content[j], y);
      if i == j { IdTellsNode(t.content[i], x, y); }
    }
  }

  // ---- the sort moves nodes and makes no new ones ----

  /** The node where the sort has put it: as it was, or sorted itself. */
  predicate Moved(n: Tree, m: Tree) {
    m == n || m == SortTree(n)
  }

  /** Which child the i-th child of the sorted tree is. */
  function Origin(t: Tree, i: nat): nat {
    if t.kind == Mapping then Source(KeysOf(t.content), i) else i
  }

  lemma ChildMoved(t: Tree, i: nat)
    requires i < |t.content|
    ensures Origin(t, i) < |t.content|
    ensures SortTree(t).content[i] == SortTree(t.content[Origin(t, i)])
      || SortTree(t).content[i] == t.content[Origin(t, i)]
  {
    hide Source, Order;
    match t.kind
    case Mapping => SortedEntry(t, i);
    case Document => SortedItem(t, i);
    case Sequence => SortedItem(t, i);
    case _ => LeafSorted(t);
  }

  lemma ChildKept(t: Tree, j: nat) returns (i: nat)
    requires j < |t.content|
    ensures i < |t.content|
    ensures SortTree(t).content[i] == SortTree(t.content[j]) || SortTree(t).content[i] == t.content[j]
  {
    hide Source, Order;
    i := j;
    match t.kind
    case Mapping =>
      i := SourceOnto(KeysOf(t.content), j);
      SortedEntry(t, i);
    case Document => SortedItem(t, i);
    case Sequence => SortedItem(t, i);
    case _ => LeafSorted(t);
  }

  lemma SourceOnto(keys: seq<string>, j: nat) returns (i: nat)
    ensures Source(keys, i) == j && (i < 2 * |keys| <==> j < 2 * |keys|)
  {
    hide Order;
    i := j;
    if j < 2 * |keys| {
      var o := Order(keys, |keys|);
      assert j / 2 in o;
      var p :| 0 <= p < |o| && o[p] == j / 2;
      i := 2 * p + j % 2;
      SourceOfPair(keys, p);
    }
  }

  lemma {:induction false} NodeKept(t: Tree, n: Tree) returns (m: Tree)
    requires n in Nodes(t)
    ensures m in Nodes(SortTree(t)) && Moved(n, m)
    decreases t
  {
    hide SortTree, Nodes;
    InNodes(t, n);
    if n == t {
      m := SortTree(t);
    } else {
      var j :| 0 <= j < |t.content| && n in Nodes(t.content[j]);
      var i := ChildKept(t, j);
      m := n;
      if SortTree(t).content[i] == SortTree(t.content[j]) { m := NodeKept(t.content[j], n); }
      InNodes(SortTree(t), m);
    }
  }

  lemma {:induction false} NodeFrom(t: Tree, m: Tree) returns (n: Tree)
    requires m in Nodes(SortTree(t))
    ensures n in Nodes(t) && Moved(n, m)
    decreases t
  {
    hide SortTree, Nodes;
    InNodes(SortTree(t), m);
    if m == SortTree(t) {
      n := t;
    } else {
      var i :| 0 <= i < |t.content| && m in Nodes(SortTree(t).content[i]);
      ChildMoved(t, i);
      var j := Origin(t, i);
      n := m;
      if SortTree(t).content[i] == SortTree(t.content[j]) { n := NodeFrom(t.content[j], m); }
      InNodes(t, n);
    }
  }

  // ---- reading through aliases ----

  /** At node `from` a reader that follows aliases stands at d. */
  ghost predicate Derefs(t: Tree, from: nat, d: nat) {
    exists n | n in Nodes(t) && n.id == from :: if n.kind == Alias then BindsTo(t, from, d) else d == from
  }

  /** From node `from` a reader that follows aliases gets along the path to node `to`. */
  ghost predicate Reads(t: Tree, from: nat, path: seq<Step>, pick: Pick, to: nat)
    decreases |path|
  {
    exists d :: Derefs(t, from, d) && (if path == [] then to == d else ReadsOn(t, d, path, pick, to))
  }

  ghost predicate ReadsOn(t: Tree, d: nat, path: seq<Step>, pick: Pick, to: nat)
    requires path != []
    decreases |path|, 0
  {
    exists n | n in Nodes(t) && n.id == d ::
      Child(n, path[0], pick).Some? && Reads(t, Child(n, path[0], pick).value.id, path[1..], pick, to)
  }

  lemma DerefsAgree(t: Tree, from: nat, d: nat)
    requires BindingsKept(t)
    ensures Derefs(SortTree(t), from, d) <==> Derefs(t, from, d)
  {
    hide SortTree, Nodes, BindsTo;
    var s := SortTree(t);
    if Derefs(t, from, d) {
      var n :| n in Nodes(t) && n.id == from && if n.kind == Alias then BindsTo(t, from, d) else d == from;
      var m := NodeKept(t, n);
      assert m in Nodes(s) && m.id == from && m.kind == n.kind;
    }
    if Derefs(s, from, d) {
      var m :| m in Nodes(s) && m.id == from && if m.kind == Alias then BindsTo(s, from, d) else d == from;
      var n := NodeFrom(t, m);
      assert n in Nodes(t) && n.id == from && m.kind == n.kind;
    }
  }

  lemma {:induction false} ReadsAgree(t: Tree, from: nat, path: seq<Step>, pick: Pick, to: nat)
    requires BindingsKept(t)
    ensures Reads(SortTree(t), from, path, pick, to) <==> Reads(t, from, path, pick, to)
    decreases |path|
  {
    hide SortTree, Nodes, Derefs, BindsTo, Child, BindingsKept, ReadsOn;
    forall d ensures Derefs(SortTree(t), from, d) <==> Derefs(t, from, d) { DerefsAgree(t, from, d); }
    if path != [] {
      forall d ensures ReadsOn(SortTree(t), d, path, pick, to) <==> ReadsOn(t, d, path, pick, to) {
        ReadsOnAgree(t, d, path, pick, to);
      }
    }
  }

  lemma {:induction false} ReadsOnAgree(t: Tree, d: nat, path: seq<Step>, pick: Pick, to: nat)
    requires path != [] && BindingsKept(t)
    ensures ReadsOn(SortTree(t), d, path, pick, to) <==> ReadsOn(t, d, path, pick, to)
    decreases |path|, 0
  {
    hide SortTree, Nodes, Derefs, BindsTo, Child, BindingsKept, Reads;
    var s := SortTree(t);
    if ReadsOn(t, d, path, pick, to) {
      var n :| n in Nodes(t) && n.id == d
        && Child(n, path[0], pick).Some? && Reads(t, Child(n, path[0], pick).value.id, path[1..], pick, to);
      var m := NodeKept(t, n);
      ChildSorted(n, path[0], pick);
      ReadsAgree(t, Child(n, path[0], pick).value.id, path[1..], pick, to);
      assert m in Nodes(s) && m.id == d;
    }
    if ReadsOn(s, d, path, pick, to) {
      var m :| m in Nodes(s) && m.id == d
        && Child(m, path[0], pick).Some? && Reads(s, Child(m, path[0], pick).value.id, path[1..], pick, to);
      var n := NodeFrom(t, m);
      ChildSorted(n, path[0], pick);
      ReadsAgree(t, Child(n, path[0], pick).value.id, path[1..], pick, to);
      assert n in Nodes(t) && n.id == d;
    }
  }

  /** Every reader gets from every node along every path to the same node as before. */
  ghost predicate ReadingsKept(t: Tree) {
    forall from, path, pick, to :: Reads(SortTree(t), from, path, pick, to) <==> Reads(t, from, path, pick, to)
  }

  /** Canonicalisation keeps the meaning exactly when no alias changes its binding. */
  lemma ReadingsKeptExactly(t: Tree)
    requires Distinct(t)
    ensures ReadingsKept(t) <==> BindingsKept(t)
  {
    hide SortTree, BindsTo, Derefs, Distinct;
    if BindingsKept(t) {
      forall from, path, pick, to
        ensures Reads(SortTree(t), from, path, pick, to) <==> Reads(t, from, path, pick, to)
      {
        ReadsAgree(t, from, path, pick, to);
      }
    }
    if ReadingsKept(t) {
      forall a, b ensures BindsTo(SortTree(t), a, b) <==> BindsTo(t, a, b) {
        assert Reads(SortTree(t), a, [], First, b) <==> Reads(t, a, [], First, b);
        EmptyRead(t, a, b);
        EmptyRead(SortTree(t), a, b);
        BindingIsRead(t, a, b);
      }
    }
  }

  lemma EmptyRead(t: Tree, a: nat, b: nat)
    ensures Reads(t, a, [], First, b) <==> Derefs(t, a, b)
  {
    hide Derefs;
  }

  /** For an alias, standing at a node and being bound to it are the same. */
  lemma BindingIsRead(t: Tree, a: nat, b: nat)
    requires Distinct(t) && (Derefs(SortTree(t), a, b) <==> Derefs(t, a, b))
    ensures BindsTo(SortTree(t), a, b) <==> BindsTo(t, a, b)
  {
    hide SortTree, Nodes, Distinct;
    var s := SortTree(t);
    if BindsTo(t, a, b) || BindsTo(s, a, b) {
      var n: Tree;
      if BindsTo(t, a, b) {
        var k :| 0 <= k < |Nodes(t)| && Nodes(t)[k].kind == Alias && Nodes(t)[k].id == a && Target(Nodes(t), k) == Some(b);
        n := Nodes(t)[k];
      } else {
        var k :| 0 <= k < |Nodes(s)| && Nodes(s)[k].kind == Alias && Nodes(s)[k].id == a && Target(Nodes(s), k) == Some(b);
        n := NodeFrom(t, Nodes(s)[k]);
      }
      OnlyAlias(t, n);
      var m := NodeKept(t, n);
      assert Derefs(t, a, b) <==> BindsTo(t, a, b);
      assert Derefs(s, a, b) <==> BindsTo(s, a, b);
    }
  }

  /** A number that names an alias names nothing else, before and after the sort. */
  lemma OnlyAlias(t: Tree, n: Tree)
    requires Distinct(t) && n in Nodes(t) && n.kind == Alias
    ensures forall x | x in Nodes(t) && x.id == n.id :: x.kind == Alias
    ensures forall x | x in Nodes(SortTree(t)) && x.id == n.id :: x.kind == Alias
  {
    hide SortTree, Nodes, Distinct;
    forall x | x in Nodes(t) && x.id == n.id ensures x.kind == Alias { IdTellsNode(t, x, n); }
    forall x | x in Nodes(SortTree(t)) && x.id == n.id ensures x.kind == Alias {
      var y := NodeFrom(t, x);
      IdTellsNode(t, y, n);
    }
  }

  // ---- the sorted tree's nodes are distinct as well ----

  lemma {:induction false} IdHasNode(t: Tree, id: nat) returns (n: Tree)
    requires HasId(t, id)
    ensures n in Nodes(t) && n.id == id
    decreases t
  {
    hide Nodes;
    n := t;
    if t.id != id {
      var i :| 0 <= i < |t.content| && HasId(t.content[i], id);
      n := IdHasNode(t.content[i], id);
      InNodes(t, n);
    }
  }

  lemma HasIdSorted(t: Tree, id: nat)
    ensures HasId(SortTree(t), id) <==> HasId(t, id)
  {
    hide SortTree, Nodes, HasId;
    if HasId(t, id) {
      var n := IdHasNode(t, id);
      var m := NodeKept(t, n);
      NodeHasId(SortTree(t), m);
    }
    if HasId(SortTree(t), id) {
      var m := IdHasNode(SortTree(t), id);
      var n := NodeFrom(t, m);
      NodeHasId(t, n);
    }
  }

  lemma {:induction false} DistinctSorted(t: Tree)
    requires Distinct(t)
    ensures Distinct(SortTree(t))
    decreases t
  {
    hide SortTree, HasId, Source, Order;
    var s := SortTree(t);
    forall i | 0 <= i < |s.content|
      ensures Distinct(s.content[i]) && Origin(t, i) < |t.content|
      ensures forall id :: HasId(s.content[i], id) <==> HasId(t.content[Origin(t, i)], id)
    {
      ChildMoved(t, i);
      DistinctSorted(t.content[Origin(t, i)]);
      forall id ensures HasId(SortTree(t.content[Origin(t, i)]), id) <==> HasId(t.content[Origin(t, i)], id) {
        HasIdSorted(t.content[Origin(t, i)], id);
      }
    }
    forall i, j, id | 0 <= i < j < |s.content| && HasId(s.content[i], id) ensures !HasId(s.content[j], id) {
      if t.kind == Mapping { SourceInjective(KeysOf(t.content), i, j); }
    }
  }

  /** In a tree of distinct nodes the number tells the position. */
  lemma {:induction false} IdTellsPosition(t: Tree, i: nat, j: nat)
    requires Distinct(t) && i < j < |Nodes(t)|
    ensures Nodes(t)[i].id != Nodes(t)[j].id
    decreases t, |t.content| + 1
  {
    hide HasId;
    var rest := NodesFirst(t, |t.content|);
    assert Nodes(t)[j] == rest[j - 1];
    if i == 0 {
      InNodesFirst(t, |t.content|, rest[j - 1]);
      var c :| 0 <= c < |t.content| && rest[j - 1] in Nodes(t.content[c]);
      NodeHasId(t.content[c], rest[j - 1]);
    } else {
      FirstPositions(t, |t.content|, i - 1, j - 1);
    }
  }

  lemma {:induction false} FirstPositions(t: Tree, n: nat, i: nat, j: nat)
    requires Distinct(t) && n <= |t.content| && i < j < |NodesFirst(t, n)|
    ensures NodesFirst(t, n)[i].id != NodesFirst(t, n)[j].id
    decreases t, n
  {
    hide HasId, Nodes;
    var before, last := NodesFirst(t, n - 1), t.content[n - 1];
    if j < |before| {
      FirstPositions(t, n - 1, i, j);
    } else if i >= |before| {
      IdTellsPosition(last, i - |before|, j - |before|);
    } else {
      InNodesFirst(t, n - 1, before[i]);
      var c :| 0 <= c < n - 1 && before[i] in Nodes(t.content[c]);
      NodeHasId(t.content[c], before[i]);
      NodeHasId(last, Nodes(last)[j - |before|]);
    }
  }

  // ---- anchors given once ----

  /** Every anchor name is given once. */
  ghost predicate UniqueAnchors(t: Tree) {
    forall n, m | n in Nodes(t) && m in Nodes(t) && n.anchor == m.anchor != "" :: n.id == m.id
  }

  /** Where every anchor name is given once, an alias can only lose its target: the bindings are
      kept exactly when the written text parses. */
  lemma UniqueAnchorsExactly(t: Tree)
    requires Distinct(t) && Parses(t) && UniqueAnchors(t)
    ensures BindingsKept(t) <==> Parses(SortTree(t))
  {
    hide SortTree, Nodes, Latest, Distinct;
    var s := SortTree(t);
    if BindingsKept(t) {
      forall k | 0 <= k < |Nodes(s)| && Nodes(s)[k].kind == Alias ensures Target(Nodes(s), k).Some? {
        var n := NodeFrom(t, Nodes(s)[k]);
        var p :| 0 <= p < |Nodes(t)| && Nodes(t)[p] == n;
        assert BindsTo(t, n.id, Target(Nodes(t), p).value);
        assert BindsTo(s, n.id, Target(Nodes(t), p).value);
        BoundHere(t, k);
      }
    }
    if Parses(s) {
      forall a, b ensures BindsTo(s, a, b) <==> BindsTo(t, a, b) {
        if BindsTo(s, a, b) { UniqueBindingFrom(t, a, b); }
        if BindsTo(t, a, b) { UniqueBindingTo(t, a, b); }
      }
    }
  }

  /** An alias that is bound somewhere in the sorted tree is bound where it stands. */
  lemma BoundHere(t: Tree, k: nat)
    requires Distinct(t) && k < |Nodes(SortTree(t))|
    requires exists b: nat :: BindsTo(SortTree(t), Nodes(SortTree(t))[k].id, b)
    ensures Target(Nodes(SortTree(t)), k).Some?
  {
    hide SortTree, Nodes, Distinct, Target;
    var s := SortTree(t);
    DistinctSorted(t);
    var b: nat :| BindsTo(s, Nodes(s)[k].id, b);
    var j :| 0 <= j < |Nodes(s)|
      && Nodes(s)[j].kind == Alias && Nodes(s)[j].id == Nodes(s)[k].id && Target(Nodes(s), j) == Some(b);
    if j < k { IdTellsPosition(s, j, k); }
    if k < j { IdTellsPosition(s, k, j); }
  }

  lemma UniqueBindingFrom(t: Tree, a: nat, b: nat)
    requires Parses(t) && UniqueAnchors(t) && BindsTo(SortTree(t), a, b)
    ensures BindsTo(t, a, b)
  {
    hide SortTree, Nodes, Target, UniqueAnchors;
    var s := SortTree(t);
    var k :| 0 <= k < |Nodes(s)| && Nodes(s)[k].kind == Alias && Nodes(s)[k].id == a && Target(Nodes(s), k) == Some(b);
    var n := NodeFrom(t, Nodes(s)[k]);
    var p :| 0 <= p < |Nodes(t)| && Nodes(t)[p] == n;
    SameTarget(t, p, k);
  }

  lemma UniqueBindingTo(t: Tree, a: nat, b: nat)
    requires Parses(SortTree(t)) && UniqueAnchors(t) && BindsTo(t, a, b)
    ensures BindsTo(SortTree(t), a, b)
  {
    hide SortTree, Nodes, Target, UniqueAnchors;
    var s := SortTree(t);
    var p :| 0 <= p < |Nodes(t)| && Nodes(t)[p].kind == Alias && Nodes(t)[p].id == a && Target(Nodes(t), p) == Some(b);
    var m := NodeKept(t, Nodes(t)[p]);
    var k :| 0 <= k < |Nodes(s)| && Nodes(s)[k] == m;
    SameTarget(t, p, k);
  }

  lemma SameTarget(t: Tree, p: nat, k: nat)
    requires UniqueAnchors(t) && p < |Nodes(t)| && k < |Nodes(SortTree(t))|
    requires Nodes(t)[p].value == Nodes(SortTree(t))[k].value
    requires Target(Nodes(t), p).Some? && Target(Nodes(SortTree(t)), k).Some?
    ensures Target(Nodes(t), p) == Target(Nodes(SortTree(t)), k)
  {
    hide SortTree, Nodes;
    var s, name := SortTree(t), Nodes(t)[p].value;
    var x :| 0 <= x < p && Nodes(t)[x].anchor == name != "" && Nodes(t)[x].id == Target(Nodes(t), p).value;
    var y :| 0 <= y < k && Nodes(s)[y].anchor == name != "" && Nodes(s)[y].id == Target(Nodes(s), k).value;
    var z := NodeFrom(t, Nodes(s)[y]);
    assert Nodes(t)[x] in Nodes(t) && z in Nodes(t);
  }

  // ---- the leaf-key check ----

  ghost predicate HasLeaf(t: Tree, s: string) {
    IsLeaf(t, "", s)
  }

  /** What extractLeafKeys collects from the text of a tree: nothing when it does not parse. */
  ghost predicate ReadsLeaf(t: Tree, s: string) {
    Parses(t) && HasLeaf(t, s)
  }

  /** The check of canonicalizeYAMLChecked. */
  method MissingLeafKeys(t: Tree) returns (missing: set<string>)
    requires Parses(t)
    ensures forall s :: s in missing <==> ReadsLeaf(t, s) && !ReadsLeaf(SortTree(t), s)
  {
    hide SortTree, Parses, IsLeaf;
    var original := WalkLeafKeys(t, "", {});
    var canonical: set<string> := {};
    if Parses(SortTree(t)) {
      canonical := WalkLeafKeys(SortTree(t), "", {});
    }
    missing := original - canonical;
  }

  ghost predicate CheckFires(t: Tree) {
    exists s :: ReadsLeaf(t, s) && !ReadsLeaf(SortTree(t), s)
  }

  /** The check fires exactly when the sort has orphaned an alias and there is a leaf key to miss. */
  lemma CheckFiresExactly(t: Tree)
    requires Parses(t)
    ensures CheckFires(t) <==> !Parses(SortTree(t)) && exists s :: HasLeaf(t, s)
  {
    hide SortTree, Parses;
    forall s ensures HasLeaf(SortTree(t), s) <==> HasLeaf(t, s) { LeafKeysPreserved(t, "", s); }
    hide HasLeaf;
    if !Parses(SortTree(t)) && exists s :: HasLeaf(t, s) {
      var s :| HasLeaf(t, s);
      assert ReadsLeaf(t, s) && !ReadsLeaf(SortTree(t), s);
    }
  }

  /** Where every anchor name is given once and there is a leaf key at all, the check passes
      exactly when every reader reads what it read before. */
  lemma CheckIsExact(t: Tree, leaf: string)
    requires Distinct(t) && Parses(t) && UniqueAnchors(t) && HasLeaf(t, leaf)
    ensures CheckFires(t) <==> !ReadingsKept(t)
  {
    hide SortTree, Parses, HasLeaf, BindingsKept, ReadingsKept, Distinct, UniqueAnchors, CheckFires;
    UniqueAnchorsExactly(t);
    ReadingsKeptExactly(t);
    CheckFiresExactly(t);
  }

  // ---- two documents that the sort breaks ----

  function Leaf(id: nat, kind: Kind, value: string, anchor: string): Tree {
    Node(id, kind, value, anchor, [])
  }

  /** zeta: &d {x: 1}, app: *d */
  function Orphaning(): Tree {
    Node(0, Document, "", "", [Node(1, Mapping, "", "", [
      Leaf(2, Scalar, "zeta", ""), Node(3, Mapping, "", "d", [Leaf(4, Scalar, "x", ""), Leaf(5, Scalar, "1", "")]),
      Leaf(6, Scalar, "app", ""), Leaf(7, Alias, "d", "")])])
  }

  /** a: &x 1, c: *x, b: &x 2 */
  function Rebinding(): Tree {
    Node(0, Document, "", "", [Node(1, Mapping, "", "", [
      Leaf(2, Scalar, "a", ""), Leaf(3, Scalar, "1", "x"),
      Leaf(4, Scalar, "c", ""), Leaf(5, Alias, "x", ""),
      Leaf(6, Scalar, "b", ""), Leaf(7, Scalar, "2", "x")])])
  }

  lemma LeafNodes(n: Tree)
    requires n.content == []
    ensures Nodes(n) == [n]
  {
  }

  lemma {:induction false} FirstOfLeaves(t: Tree, n: nat)
    requires n <= |t.content| && forall i | 0 <= i < |t.content| :: t.content[i].content == []
    ensures NodesFirst(t, n) == t.content[..n]
    decreases n
  {
    if n > 0 {
      FirstOfLeaves(t, n - 1);
      LeafNodes(t.content[n - 1]);
    }
  }

  lemma {:induction false} LatestIs(nodes: seq<Tree>, j: nat, k: nat, name: string)
    requires j < k <= |nodes| && nodes[j].anchor == name != "" && forall i | j < i < k :: nodes[i].anchor != name
    ensures Latest(nodes, k, name) == Some(nodes[j].id)
    decreases k
  {
    if j + 1 < k { LatestIs(nodes, j, k - 1, name); }
  }

  lemma NodesOfLeaves(t: Tree)
    requires forall i | 0 <= i < |t.content| :: t.content[i].content == []
    ensures Nodes(t) == [t] + t.content
  {
    FirstOfLeaves(t, |t.content|);
  }

  lemma NodesOfFour(t: Tree)
    requires |t.content| == 4
    ensures Nodes(t) == [t] + Nodes(t.content[0]) + Nodes(t.content[1]) + Nodes(t.content[2]) + Nodes(t.content[3])
  {
    assert NodesFirst(t, 1) == NodesFirst(t, 0) + Nodes(t.content[0]);
    assert NodesFirst(t, 2) == NodesFirst(t, 1) + Nodes(t.content[1]);
    assert NodesFirst(t, 3) == NodesFirst(t, 2) + Nodes(t.content[2]);
    assert NodesFirst(t, 4) == NodesFirst(t, 3) + Nodes(t.content[3]);
  }

  lemma NodesOfDocument(t: Tree)
    requires |t.content| == 1
    ensures Nodes(t) == [t] + Nodes(t.content[0])
  {
    assert NodesFirst(t, 1) == NodesFirst(t, 0) + Nodes(t.content[0]);
  }

  /** Two pairs in descending order trade places. */
  lemma SortTwo(t: Tree)
    requires t.kind == Mapping && |t.content| == 4 && Less(KeyAt(t, 1), KeyAt(t, 0))
    ensures SortTree(t).content == [t.content[2], SortTree(t.content[3]), t.content[0], SortTree(t.content[1])]
  {
    hide SortTree;
    var keys := KeysOf(t.content);
    assert Order(keys, 1) == [0];
    assert Insert([], keys, 1) == [1];
    assert Order(keys, 2) == Insert([], keys, 1) + [0] == [1, 0];
    SortedKey(t, 0, 1);
    forall i: nat | i < 4 ensures SortTree(t).content[i] ==
      [t.content[2], SortTree(t.content[3]), t.content[0], SortTree(t.content[1])][i]
    {
      SortedEntry(t, i);
    }
  }

  lemma LatestNone(nodes: seq<Tree>, k: nat, name: string)
    requires k <= |nodes| && forall i | 0 <= i < k :: nodes[i].anchor != name
    ensures Latest(nodes, k, name) == None
  {
  }

  lemma OrphaningNodes()
    ensures var nodes := Nodes(Orphaning());
      && |nodes| == 8 && nodes[3].anchor == "d" && nodes[7] == Leaf(7, Alias, "d", "")
      && forall k | 0 <= k < 7 :: nodes[k].kind != Alias && (k != 3 ==> nodes[k].anchor == "")
  {
    var t := Orphaning();
    var m := t.content[0];
    var zeta, d, app, alias := m.content[0], m.content[1], m.content[2], m.content[3];
    OrphaningList(t, m, zeta, d, app, alias, d.content[0], d.content[1]);
  }

  lemma OrphaningList(t: Tree, m: Tree, zeta: Tree, d: Tree, app: Tree, alias: Tree, x: Tree, one: Tree)
    requires t.content == [m] && m.content == [zeta, d, app, alias] && d.content == [x, one]
    requires zeta.content == app.content == alias.content == x.content == one.content == []
    ensures Nodes(t) == [t, m, zeta, d, x, one, app, alias]
  {
    LeafNodes(zeta);
    LeafNodes(app);
    LeafNodes(alias);
    NodesOfLeaves(d);
    hide Nodes;
    NodesOfFour(m);
    NodesOfDocument(t);
  }

  lemma OrphanedNodes()
    ensures var nodes := Nodes(SortTree(Orphaning()));
      |nodes| == 8 && nodes[3] == Leaf(7, Alias, "d", "") && forall k | 0 <= k < 3 :: nodes[k].anchor == ""
  {
    hide SortTree;
    var m := Orphaning().content[0];
    var t, s := SortTree(Orphaning()), SortTree(m);
    SortedItem(Orphaning(), 0);
    SortTwo(m);
    LeafSorted(m.content[3]);
    SortedIsFixedPair(m.content[1]);
    OrphanedList(t, s, s.content[2], s.content[3], s.content[0], s.content[1]);
  }

  lemma SortedIsFixedPair(t: Tree)
    requires t.kind == Mapping && |t.content| == 2 && t.content[1].kind == Scalar
    ensures SortTree(t) == t
  {
    LeafSorted(t.content[1]);
    SortInTwoHalves(t);
  }

  lemma OrphanedList(t: Tree, m: Tree, zeta: Tree, d: Tree, app: Tree, alias: Tree)
    requires t.content == [m] && m.content == [app, alias, zeta, d] && |d.content| == 2
    requires zeta.content == app.content == alias.content == d.content[0].content == d.content[1].content == []
    ensures Nodes(t) == [t, m, app, alias, zeta, d, d.content[0], d.content[1]]
  {
    LeafNodes(zeta);
    LeafNodes(app);
    LeafNodes(alias);
    NodesOfLeaves(d);
    hide Nodes;
    NodesOfFour(m);
    NodesOfDocument(t);
  }

  lemma OrphaningLeaf()
    ensures HasLeaf(Orphaning(), "app")
  {
    var m := Orphaning().content[0];
    assert IsLeaf(m, "", "app") by {
      assert ValueAt(m, 1).kind == Alias && KeyAt(m, 1) == "app";
    }
  }

  /** Sorting puts the alias before its anchor: the text no longer parses, and the check fires. */
  lemma OrphaningFires()
    ensures Parses(Orphaning()) && !Parses(SortTree(Orphaning())) && CheckFires(Orphaning())
  {
    OrphaningNodes();
    OrphanedNodes();
    OrphaningLeaf();
    hide Orphaning, Nodes, SortTree, HasLeaf, Latest, CheckFires;
    var nodes, sorted := Nodes(Orphaning()), Nodes(SortTree(Orphaning()));
    LatestIs(nodes, 3, 7, "d");
    LatestNone(sorted, 3, "d");
    assert Target(sorted, 3) == None;
    CheckFiresExactly(Orphaning());
  }

  lemma SortThree(t: Tree)
    requires t.kind == Mapping && |t.content| == 6
    requires !Less(KeyAt(t, 1), KeyAt(t, 0)) && Less(KeyAt(t, 2), KeyAt(t, 1)) && !Less(KeyAt(t, 2), KeyAt(t, 0))
    requires forall i | 0 <= i < 6 :: t.content[i].kind == Scalar || t.content[i].kind == Alias
    ensures SortTree(t).content ==
      [t.content[0], t.content[1], t.content[4], t.content[5], t.content[2], t.content[3]]
  {
    hide SortTree;
    var keys := KeysOf(t.content);
    assert Order(keys, 1) == [0];
    assert Order(keys, 2) == [0] + [1] == [0, 1];
    assert [0, 1][..1] == [0];
    assert Insert([0], keys, 2) == [0] + [2] == [0, 2];
    assert Order(keys, 3) == Insert([0], keys, 2) + [1] == [0, 2, 1];
    forall i | 0 <= i < 6 ensures SortTree(t).content[i] ==
      [t.content[0], t.content[1], t.content[4], t.content[5], t.content[2], t.content[3]][i]
    {
      SortedEntry(t, i);
      LeafSorted(t.content[Source(keys, i)]);
    }
  }

  lemma NodesOfMapping(t: Tree, m: Tree)
    requires t.content == [m] && forall i | 0 <= i < |m.content| :: m.content[i].content == []
    ensures |Nodes(t)| == |m.content| + 2 && Nodes(t)[0] == t && Nodes(t)[1] == m
    ensures forall k | 2 <= k < |m.content| + 2 :: Nodes(t)[k] == m.content[k - 2]
  {
    NodesOfLeaves(m);
    NodesOfDocument(t);
  }

  lemma RebindingNodes()
    ensures var nodes := Nodes(Rebinding());
      && |nodes| == 8 && nodes[3] == Leaf(3, Scalar, "1", "x") && nodes[5] == Leaf(5, Alias, "x", "")
      && nodes[4].anchor == "" && forall k | 0 <= k < 8 && k != 5 :: nodes[k].kind != Alias
  {
    hide Nodes;
    NodesOfMapping(Rebinding(), Rebinding().content[0]);
  }

  lemma ReboundNodes()
    ensures var nodes := Nodes(SortTree(Rebinding()));
      && |nodes| == 8 && nodes[5] == Leaf(7, Scalar, "2", "x") && nodes[7] == Leaf(5, Alias, "x", "")
      && nodes[6].anchor == "" && forall k | 0 <= k < 7 :: nodes[k].kind != Alias
  {
    hide SortTree, Nodes, KeysOf, Order, Source;
    var t := Rebinding();
    SortedItem(t, 0);
    SortThree(t.content[0]);
    NodesOfMapping(SortTree(t), SortTree(t.content[0]));
  }

  /** Sorting gives the alias another node of the same name: the text parses, the check passes,
      and a reader of "c" finds node 7, the 2, where it found node 3, the 1. */
  lemma RebindingIsSilent()
    ensures Parses(Rebinding()) && !CheckFires(Rebinding())
    ensures BindsTo(Rebinding(), 5, 3) && BindsTo(SortTree(Rebinding()), 5, 7)
    ensures !BindingsKept(Rebinding())
  {
    RebindingNodes();
    ReboundNodes();
    hide Rebinding, Nodes, SortTree, HasLeaf, Latest, CheckFires;
    var nodes, sorted := Nodes(Rebinding()), Nodes(SortTree(Rebinding()));
    LatestIs(nodes, 3, 5, "x");
    LatestIs(sorted, 5, 7, "x");
    assert Target(nodes, 5) == Some(3) && Target(sorted, 7) == Some(7);
    assert !BindsTo(Rebinding(), 5, 7);
    CheckFiresExactly(Rebinding());
  }
}
