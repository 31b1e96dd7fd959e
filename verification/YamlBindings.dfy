/** Which aliases keep their targets under the canonicaliser, said about the tree before the sort:
    where the paths of two nodes fork decides which of them is written first afterwards. */
module YamlBindings {
  import opened Text
  import opened StableOrder
  import opened YamlTree
  import opened YamlAliases

  // ---- which node is written first ----

  /** Node b stands before node a in the text. */
  ghost predicate Written(t: Tree, b: nat, a: nat)
    decreases t
  {
    || (b == t.id && a != b && HasId(t, a))
    || exists i, j | 0 <= i < |t.content| && 0 <= j < |t.content| ::
         HasId(t.content[i], b) && HasId(t.content[j], a) && (if i == j then Written(t.content[i], b, a) else i < j)
  }

  /** The sort puts child i before child j: pairs by key and then by position, and nothing else moves. */
  predicate Earlier(t: Tree, i: nat, j: nat)
    requires i < |t.content| && j < |t.content|
  {
    var keys := KeysOf(t.content);
    if t.kind == Mapping && i < 2 * |keys| && j < 2 * |keys| && i / 2 != j / 2 then Before(keys, i / 2, j / 2) else i < j
  }

  /** The sort goes on inside child i. */
  predicate Entered(t: Tree, i: nat) {
    t.kind == Document || t.kind == Sequence || (t.kind == Mapping && i % 2 == 1)
  }

  /** Node b will stand before node a: it is above it, or comes first where their paths fork. */
  ghost predicate Ahead(t: Tree, b: nat, a: nat)
    decreases t
  {
    || (b == t.id && a != b && HasId(t, a))
    || exists i, j | 0 <= i < |t.content| && 0 <= j < |t.content| ::
         HasId(t.content[i], b) && HasId(t.content[j], a)
         && if i != j then Earlier(t, i, j)
            else if Entered(t, i) then Ahead(t.content[i], b, a) else Written(t.content[i], b, a)
  }

  lemma ChildPlaced(t: Tree, i: nat)
    requires i < |t.content|
    ensures var o := Origin(t, i);
      && o < |t.content|
      && SortTree(t).content[i] == if Entered(t, o) then SortTree(t.content[o]) else t.content[o]
  {
    hide Order;
    match t.kind
    case Mapping =>
      SortedEntry(t, i);
      SourceParity(KeysOf(t.content), i);
    case Document => SortedItem(t, i);
    case Sequence => SortedItem(t, i);
    case _ => LeafSorted(t);
  }

  lemma SourceParity(keys: seq<string>, i: nat)
    ensures Source(keys, i) % 2 == i % 2
  {
    hide Order;
  }

  /** The children come in the order in which the sort has put them. */
  lemma OriginsInOrder(t: Tree, i: nat, j: nat)
    requires i < |t.content| && j < |t.content|
    ensures Origin(t, i) < |t.content| && Origin(t, j) < |t.content|
    ensures i == j <==> Origin(t, i) == Origin(t, j)
    ensures i != j ==> (Earlier(t, Origin(t, i), Origin(t, j)) <==> i < j)
  {
    hide SortTree;
    ChildPlaced(t, i);
    ChildPlaced(t, j);
    if t.kind == Mapping && i != j {
      var keys := KeysOf(t.content);
      SourceInjective(keys, i, j);
      PairsInOrder(keys, i, j);
    }
  }

  lemma PairsInOrder(keys: seq<string>, i: nat, j: nat)
    requires i != j
    ensures var p, q := Source(keys, i), Source(keys, j);
      if i < 2 * |keys| && j < 2 * |keys| && i / 2 != j / 2
      then p / 2 != q / 2 && p < 2 * |keys| && q < 2 * |keys| && (Before(keys, p / 2, q / 2) <==> i < j)
      else (p < q <==> i < j) && !(p < 2 * |keys| && q < 2 * |keys| && p / 2 != q / 2)
  {
    OrderInOrder(keys, |keys|);
    var o := Order(keys, |keys|);
    hide Order, Before, Less;
    if i < 2 * |keys| && j < 2 * |keys| && i / 2 != j / 2 {
      var a, b := i / 2, j / 2;
      if a < b { BeforeIrreflexive(keys, o[a], o[b]); } else { BeforeIrreflexive(keys, o[b], o[a]); }
    }
  }

  /** Child i of the sorted tree is for b and a what the child was that it comes from. */
  ghost predicate Matched(t: Tree, i: nat, b: nat, a: nat) {
    && i < |t.content| && Origin(t, i) < |t.content|
    && var child, o := SortTree(t).content[i], Origin(t, i);
    && (HasId(child, a) <==> HasId(t.content[o], a)) && (HasId(child, b) <==> HasId(t.content[o], b))
    && (Written(child, b, a) <==> if Entered(t, o) then Ahead(t.content[o], b, a) else Written(t.content[o], b, a))
  }

  /** Written first afterwards is what the input says. */
  lemma {:induction false} AheadExactly(t: Tree, b: nat, a: nat)
    ensures Ahead(t, b, a) <==> Written(SortTree(t), b, a)
    decreases t
  {
    hide SortTree, HasId, Origin, Earlier, Entered, Written, Ahead;
    forall i | 0 <= i < |t.content| ensures Matched(t, i, b, a) {
      ChildPlaced(t, i);
      var o := Origin(t, i);
      HasIdSorted(t.content[o], a);
      HasIdSorted(t.content[o], b);
      AheadExactly(t.content[o], b, a);
    }
    hide Matched;
    HasIdSorted(t, a);
    if Written(SortTree(t), b, a) { WrittenIsAhead(t, b, a); }
    if Ahead(t, b, a) { AheadIsWritten(t, b, a); }
  }

  lemma WrittenIsAhead(t: Tree, b: nat, a: nat)
    requires Written(SortTree(t), b, a) && (HasId(SortTree(t), a) <==> HasId(t, a))
    requires forall i | 0 <= i < |t.content| :: Matched(t, i, b, a)
    ensures Ahead(t, b, a)
  {
    hide SortTree, HasId, Origin, Earlier, Entered;
    var s := SortTree(t);
    if !(b == t.id && a != b && HasId(t, a)) {
      var i, j :| 0 <= i < |s.content| && 0 <= j < |s.content|
        && HasId(s.content[i], b) && HasId(s.content[j], a) && if i == j then Written(s.content[i], b, a) else i < j;
      assert Matched(t, i, b, a) && Matched(t, j, b, a);
      OriginsInOrder(t, i, j);
    }
  }

  lemma AheadIsWritten(t: Tree, b: nat, a: nat)
    requires Ahead(t, b, a) && (HasId(SortTree(t), a) <==> HasId(t, a))
    requires forall i | 0 <= i < |t.content| :: Matched(t, i, b, a)
    ensures Written(SortTree(t), b, a)
  {
    hide SortTree, HasId, Origin, Earlier, Entered;
    var s := SortTree(t);
    if !(b == t.id && a != b && HasId(t, a)) {
      var p, q :| 0 <= p < |t.content| && 0 <= q < |t.content|
        && HasId(t.content[p], b) && HasId(t.content[q], a)
        && if p != q then Earlier(t, p, q)
           else if Entered(t, p) then Ahead(t.content[p], b, a) else Written(t.content[p], b, a);
      var i := PlaceOf(t, p);
      var j := PlaceOf(t, q);
      assert Matched(t, i, b, a) && Matched(t, j, b, a);
      OriginsInOrder(t, i, j);
      assert HasId(s.content[i], b) && HasId(s.content[j], a);
    }
  }

  lemma PlaceOf(t: Tree, o: nat) returns (i: nat)
    requires o < |t.content|
    ensures i < |t.content| && Origin(t, i) == o
  {
    hide Source;
    i := o;
    if t.kind == Mapping { i := SourceOnto(KeysOf(t.content), o); }
  }

  // ---- what the positions say ----

  /** Of two nodes only one stands first. */
  lemma {:induction false} WrittenOneWay(t: Tree, b: nat, a: nat)
    requires Distinct(t) && Written(t, b, a)
    ensures !Written(t, a, b)
    decreases t
  {
    hide HasId;
    ChildrenHave(t);
    if b != t.id && a != t.id {
      var i, j :| 0 <= i < |t.content| && 0 <= j < |t.content|
        && HasId(t.content[i], b) && HasId(t.content[j], a) && if i == j then Written(t.content[i], b, a) else i < j;
      if i == j { WrittenOneWay(t.content[i], b, a); }
      OnlyIn(t, i, b);
      OnlyIn(t, j, a);
    }
  }

  lemma ChildrenHave(t: Tree)
    requires Distinct(t)
    ensures forall i | 0 <= i < |t.content| :: !HasId(t.content[i], t.id)
  {
  }

  lemma OnlyIn(t: Tree, i: nat, id: nat)
    requires Distinct(t) && i < |t.content| && HasId(t.content[i], id)
    ensures forall j | 0 <= j < |t.content| && HasId(t.content[j], id) :: j == i
  {
    hide HasId;
  }

  /** In a tree of distinct nodes being written first and having a smaller position are the same. */
  lemma PositionsExactly(t: Tree, p: nat, q: nat)
    requires Distinct(t) && p < |Nodes(t)| && q < |Nodes(t)|
    ensures Written(t, Nodes(t)[p].id, Nodes(t)[q].id) <==> p < q
  {
    hide Nodes, Written, Distinct;
    if p < q { PositionsWritten(t, p, q); }
    if q < p {
      PositionsWritten(t, q, p);
      WrittenOneWay(t, Nodes(t)[q].id, Nodes(t)[p].id);
    }
    if p == q && Written(t, Nodes(t)[p].id, Nodes(t)[q].id) { WrittenOneWay(t, Nodes(t)[p].id, Nodes(t)[p].id); }
  }

  lemma {:induction false} PositionsWritten(t: Tree, p: nat, q: nat)
    requires Distinct(t) && p < q < |Nodes(t)|
    ensures Written(t, Nodes(t)[p].id, Nodes(t)[q].id)
    decreases t, |t.content| + 1
  {
    var rest := NodesFirst(t, |t.content|);
    assert Nodes(t)[0] == t && forall k | 1 <= k < |Nodes(t)| :: Nodes(t)[k] == rest[k - 1];
    hide HasId, Distinct, Nodes, NodesFirst;
    if p == 0 {
      IdTellsPosition(t, 0, q);
      NodeHasId(t, Nodes(t)[q]);
    } else {
      FirstWritten(t, |t.content|, p - 1, q - 1);
    }
  }

  lemma {:induction false} FirstWritten(t: Tree, n: nat, p: nat, q: nat)
    requires Distinct(t) && n <= |t.content| && p < q < |NodesFirst(t, n)|
    ensures exists i, j | 0 <= i < n && 0 <= j < n ::
      var b, a := NodesFirst(t, n)[p].id, NodesFirst(t, n)[q].id;
      HasId(t.content[i], b) && HasId(t.content[j], a) && if i == j then Written(t.content[i], b, a) else i < j
    decreases t, n
  {
    hide HasId, Nodes, Written;
    var before, last := NodesFirst(t, n - 1), t.content[n - 1];
    var b, a := NodesFirst(t, n)[p].id, NodesFirst(t, n)[q].id;
    if q < |before| {
      FirstWritten(t, n - 1, p, q);
      assert before[p].id == b && before[q].id == a;
    } else {
      NodeHasId(last, Nodes(last)[q - |before|]);
      if p >= |before| {
        NodeHasId(last, Nodes(last)[p - |before|]);
        PositionsWritten(last, p - |before|, q - |before|);
      } else {
        InNodesFirst(t, n - 1, before[p]);
        var i :| 0 <= i < n - 1 && before[p] in Nodes(t.content[i]);
        NodeHasId(t.content[i], before[p]);
      }
    }
  }

  // ---- bindings by order ----

  /** Some node of the name stands before node a, and node b is the last of them. */
  ghost predicate LastNamed(t: Tree, name: string, b: nat, a: nat) {
    && Written(t, b, a) && Named(t, b, name)
    && forall c | Named(t, c, name) :: !(Written(t, b, c) && Written(t, c, a))
  }

  /** The node carries the name. */
  ghost predicate Named(t: Tree, id: nat, name: string) {
    exists m | m in Nodes(t) :: m.id == id && m.anchor == name
  }

  /** The name is bound to the last node that took it. */
  lemma LatestExactly(t: Tree, k: nat, name: string, b: nat)
    requires Distinct(t) && k < |Nodes(t)| && name != ""
    ensures Latest(Nodes(t), k, name) == Some(b) <==> LastNamed(t, name, b, Nodes(t)[k].id)
  {
    var nodes, a := Nodes(t), Nodes(t)[k].id;
    hide Nodes, Written, Distinct, Latest;
    if Latest(nodes, k, name) == Some(b) {
      var j := LatestAt(nodes, k, name);
      PositionsExactly(t, j, k);
      assert nodes[j] in nodes;
      forall c | Named(t, c, name) ensures !(Written(t, b, c) && Written(t, c, a)) {
        var m :| m in nodes && m.id == c && m.anchor == name;
        var x :| 0 <= x < |nodes| && nodes[x] == m;
        PositionsExactly(t, j, x);
        PositionsExactly(t, x, k);
      }
    }
    if LastNamed(t, name, b, a) {
      var m :| m in nodes && m.id == b && m.anchor == name;
      var j :| 0 <= j < |nodes| && nodes[j] == m;
      PositionsExactly(t, j, k);
      forall i | j < i < k ensures nodes[i].anchor != name {
        assert nodes[i] in nodes;
        assert nodes[i].anchor == name ==> Named(t, nodes[i].id, name);
        PositionsExactly(t, j, i);
        PositionsExactly(t, i, k);
      }
      LatestIs(nodes, j, k, name);
    }
  }

  lemma {:induction false} LatestAt(nodes: seq<Tree>, k: nat, name: string) returns (j: nat)
    requires k <= |nodes| && Latest(nodes, k, name).Some?
    ensures j < k && nodes[j].anchor == name != "" && Latest(nodes, k, name) == Some(nodes[j].id)
    ensures forall i | j < i < k :: nodes[i].anchor != name
    decreases k
  {
    if nodes[k - 1].anchor == name { j := k - 1; } else { j := LatestAt(nodes, k - 1, name); }
  }

  lemma {:induction false} LatestSomeExactly(nodes: seq<Tree>, k: nat, name: string)
    requires k <= |nodes|
    ensures Latest(nodes, k, name).Some? <==> name != "" && exists j | 0 <= j < k :: nodes[j].anchor == name
    decreases k
  {
    if k > 0 { LatestSomeExactly(nodes, k - 1, name); }
  }

  lemma BindsByOrder(t: Tree, a: nat, b: nat)
    requires Distinct(t)
    ensures BindsTo(t, a, b) <==>
      exists n | n in Nodes(t) :: n.kind == Alias && n.id == a && n.value != "" && LastNamed(t, n.value, b, a)
  {
    var nodes := Nodes(t);
    hide Nodes, Distinct, LastNamed, Latest;
    if BindsTo(t, a, b) {
      var k :| 0 <= k < |nodes| && nodes[k].kind == Alias && nodes[k].id == a && Target(nodes, k) == Some(b);
      LatestSomeExactly(nodes, k, nodes[k].value);
      LatestExactly(t, k, nodes[k].value, b);
      assert nodes[k] in nodes;
    }
    if n :| n in nodes && n.kind == Alias && n.id == a && n.value != "" && LastNamed(t, n.value, b, a) {
      var k :| 0 <= k < |nodes| && nodes[k] == n;
      LatestExactly(t, k, n.value, b);
      assert Target(nodes, k) == Some(b);
    }
  }

  // ---- bindings after the sort, said about the input ----

  ghost predicate LastAhead(t: Tree, name: string, b: nat, a: nat) {
    && Ahead(t, b, a) && Named(t, b, name)
    && forall c | Named(t, c, name) :: !(Ahead(t, b, c) && Ahead(t, c, a))
  }

  lemma LastSorted(t: Tree, name: string, b: nat, a: nat)
    ensures LastNamed(SortTree(t), name, b, a) <==> LastAhead(t, name, b, a)
  {
    hide SortTree, Named, Written, Ahead;
    var s := SortTree(t);
    forall x, y ensures Ahead(t, x, y) <==> Written(s, x, y) { AheadExactly(t, x, y); }
    forall c ensures Named(s, c, name) <==> Named(t, c, name) { NamesStay(t, c, name); }
  }

  lemma NamesStay(t: Tree, id: nat, name: string)
    ensures Named(SortTree(t), id, name) <==> Named(t, id, name)
  {
    hide SortTree, Nodes;
    if m :| m in Nodes(SortTree(t)) && m.id == id && m.anchor == name { var n := NodeFrom(t, m); }
    if n :| n in Nodes(t) && n.id == id && n.anchor == name { var m := NodeKept(t, n); }
  }

  lemma SortedBindsExactly(t: Tree, a: nat, b: nat)
    requires Distinct(t)
    ensures BindsTo(SortTree(t), a, b) <==>
      exists n | n in Nodes(t) :: n.kind == Alias && n.id == a && n.value != "" && LastAhead(t, n.value, b, a)
  {
    hide SortTree, Nodes, LastNamed, LastAhead, Distinct, BindsTo;
    var s := SortTree(t);
    DistinctSorted(t);
    BindsByOrder(s, a, b);
    if m :| m in Nodes(s) && m.kind == Alias && m.id == a && m.value != "" && LastNamed(s, m.value, b, a) {
      var n := NodeFrom(t, m);
      LastSorted(t, m.value, b, a);
      assert n in Nodes(t) && n.kind == Alias && n.id == a && n.value != "" && LastAhead(t, n.value, b, a);
    }
    if n :| n in Nodes(t) && n.kind == Alias && n.id == a && n.value != "" && LastAhead(t, n.value, b, a) {
      var m := NodeKept(t, n);
      LastSorted(t, n.value, b, a);
      assert m in Nodes(s) && m.kind == Alias && m.id == a && m.value != "" && LastNamed(s, m.value, b, a);
    }
  }

  /** The target stays ahead of the alias, and no other node of its name comes in between. */
  ghost predicate StaysLast(t: Tree, a: nat, b: nat) {
    && Ahead(t, b, a)
    && forall c, name | Named(t, b, name) && Named(t, c, name) :: !(Ahead(t, b, c) && Ahead(t, c, a))
  }

  lemma StaysExactly(t: Tree, a: nat, b: nat)
    requires Distinct(t) && BindsTo(t, a, b)
    ensures StaysLast(t, a, b) <==> BindsTo(SortTree(t), a, b)
  {
    hide SortTree, Nodes, Distinct, BindsTo, Ahead, Written;
    BindsByOrder(t, a, b);
    SortedBindsExactly(t, a, b);
    var n :| n in Nodes(t) && n.kind == Alias && n.id == a && n.value != "" && LastNamed(t, n.value, b, a);
    var m :| m in Nodes(t) && m.id == b && m.anchor == n.value;
    forall x | x in Nodes(t) && x.id == b ensures x == m { IdTellsNode(t, x, m); }
    forall x | x in Nodes(t) && x.id == a ensures x == n { IdTellsNode(t, x, n); }
    assert StaysLast(t, a, b) <==> LastAhead(t, n.value, b, a);
  }

  lemma BindsOnce(t: Tree, a: nat, b: nat, c: nat)
    requires Distinct(t) && BindsTo(t, a, b) && BindsTo(t, a, c)
    ensures b == c
  {
    hide Nodes, Distinct, Target;
    var nodes := Nodes(t);
    var j :| 0 <= j < |nodes| && nodes[j].kind == Alias && nodes[j].id == a && Target(nodes, j) == Some(b);
    var k :| 0 <= k < |nodes| && nodes[k].kind == Alias && nodes[k].id == a && Target(nodes, k) == Some(c);
    if j < k { IdTellsPosition(t, j, k); }
    if k < j { IdTellsPosition(t, k, j); }
  }

  /** No alias changes its binding exactly when the target of each stays the last node of its name
      before it. */
  lemma BindingsKeptExactly(t: Tree)
    requires Distinct(t) && Parses(t)
    ensures BindingsKept(t) <==> forall a, b | BindsTo(t, a, b) :: StaysLast(t, a, b)
  {
    hide SortTree, Nodes, Distinct, BindsTo, StaysLast, Parses;
    forall a, b | BindsTo(t, a, b) ensures StaysLast(t, a, b) <==> BindsTo(SortTree(t), a, b) { StaysExactly(t, a, b); }
    if forall a, b | BindsTo(t, a, b) :: StaysLast(t, a, b) {
      forall a, b | BindsTo(SortTree(t), a, b) ensures BindsTo(t, a, b) {
        var c := BoundBefore(t, a, b);
        DistinctSorted(t);
        BindsOnce(SortTree(t), a, b, c);
      }
    }
  }

  lemma BoundBefore(t: Tree, a: nat, b: nat) returns (c: nat)
    requires Parses(t) && BindsTo(SortTree(t), a, b)
    ensures BindsTo(t, a, c)
  {
    hide SortTree, Nodes, Target;
    var s := SortTree(t);
    var k :| 0 <= k < |Nodes(s)| && Nodes(s)[k].kind == Alias && Nodes(s)[k].id == a && Target(Nodes(s), k) == Some(b);
    var n := NodeFrom(t, Nodes(s)[k]);
    var p :| 0 <= p < |Nodes(t)| && Nodes(t)[p] == n;
    c := Target(Nodes(t), p).value;
  }

  /** Where every anchor name is given once, it is enough that each target stays ahead. */
  lemma UniqueBindingsKeptExactly(t: Tree)
    requires Distinct(t) && Parses(t) && UniqueAnchors(t)
    ensures BindingsKept(t) <==> forall a, b | BindsTo(t, a, b) :: Ahead(t, b, a)
  {
    hide SortTree, Nodes, Distinct, BindsTo, StaysLast, Parses, UniqueAnchors, Ahead;
    BindingsKeptExactly(t);
    forall a, b | BindsTo(t, a, b) ensures StaysLast(t, a, b) <==> Ahead(t, b, a) { UniqueStays(t, a, b); }
  }

  lemma UniqueStays(t: Tree, a: nat, b: nat)
    requires Distinct(t) && UniqueAnchors(t) && BindsTo(t, a, b)
    ensures StaysLast(t, a, b) <==> Ahead(t, b, a)
  {
    hide SortTree, Nodes, Distinct, BindsTo, Ahead, Written;
    BindsByOrder(t, a, b);
    var n :| n in Nodes(t) && n.kind == Alias && n.id == a && n.value != "" && LastNamed(t, n.value, b, a);
    var m :| m in Nodes(t) && m.id == b && m.anchor == n.value;
    forall x | x in Nodes(t) && x.id == b ensures x == m { IdTellsNode(t, x, m); }
    NeverAheadOfItself(t, b);
  }

  lemma NeverAheadOfItself(t: Tree, b: nat)
    requires Distinct(t)
    ensures !Ahead(t, b, b)
  {
    hide SortTree, Ahead, Written, Distinct;
    DistinctSorted(t);
    AheadExactly(t, b, b);
    if Written(SortTree(t), b, b) { WrittenOneWay(SortTree(t), b, b); }
  }

  /** Some node of the alias's name stays ahead of it. */
  ghost predicate StaysBound(t: Tree, n: Tree) {
    n.value != "" && exists m | m in Nodes(t) :: m.anchor == n.value && Ahead(t, m.id, n.id)
  }

  /** The written text parses exactly when every alias keeps a node of its name ahead. */
  lemma ParsesExactly(t: Tree)
    requires Distinct(t)
    ensures Parses(SortTree(t)) <==> forall n | n in Nodes(t) && n.kind == Alias :: StaysBound(t, n)
  {
    hide SortTree, Nodes, Distinct, StaysBound, Target;
    var s := SortTree(t);
    DistinctSorted(t);
    forall k | 0 <= k < |Nodes(s)|
      ensures forall n | n in Nodes(t) && Moved(n, Nodes(s)[k]) :: Target(Nodes(s), k).Some? <==> StaysBound(t, n)
    {
      forall n | n in Nodes(t) && Moved(n, Nodes(s)[k]) ensures Target(Nodes(s), k).Some? <==> StaysBound(t, n) {
        BoundExactly(t, n, k);
      }
    }
    if forall n | n in Nodes(t) && n.kind == Alias :: StaysBound(t, n) {
      forall k | 0 <= k < |Nodes(s)| && Nodes(s)[k].kind == Alias ensures Target(Nodes(s), k).Some? {
        var n := NodeFrom(t, Nodes(s)[k]);
      }
    }
    if Parses(s) {
      forall n | n in Nodes(t) && n.kind == Alias ensures StaysBound(t, n) {
        var m := NodeKept(t, n);
        var k :| 0 <= k < |Nodes(s)| && Nodes(s)[k] == m;
        assert Target(Nodes(s), k).Some?;
      }
    }
  }

  lemma BoundExactly(t: Tree, n: Tree, k: nat)
    requires Distinct(t) && Distinct(SortTree(t)) && n in Nodes(t) && k < |Nodes(SortTree(t))| && Moved(n, Nodes(SortTree(t))[k])
    ensures Target(Nodes(SortTree(t)), k).Some? <==> StaysBound(t, n)
  {
    hide SortTree, Nodes, Distinct, Ahead, Written, Latest;
    var nodes := Nodes(SortTree(t));
    LatestSomeExactly(nodes, k, n.value);
    if j :| 0 <= j < k && nodes[j].anchor == n.value {
      var m := NodeFrom(t, nodes[j]);
      PositionsExactly(SortTree(t), j, k);
      AheadExactly(t, m.id, n.id);
      assert m in Nodes(t) && m.anchor == n.value && Ahead(t, m.id, n.id);
    }
    if m :| m in Nodes(t) && m.anchor == n.value && Ahead(t, m.id, n.id) {
      var x := NodeKept(t, m);
      var j :| 0 <= j < |nodes| && nodes[j] == x;
      AheadExactly(t, m.id, n.id);
      PositionsExactly(SortTree(t), j, k);
    }
  }

  /** So the check fires exactly when some alias of the input loses all nodes of its name, and
      there is a leaf key to miss. */
  lemma CheckFiresOnInput(t: Tree)
    requires Distinct(t) && Parses(t)
    ensures CheckFires(t) <==>
      (exists s :: HasLeaf(t, s)) && exists n | n in Nodes(t) && n.kind == Alias :: !StaysBound(t, n)
  {
    hide SortTree, Parses, HasLeaf, StaysBound, CheckFires, Nodes, Distinct;
    CheckFiresExactly(t);
    ParsesExactly(t);
  }
}
