/** What sorting YAML mappings by key (pkg/config/canonical.go) means on trees,
    and what it preserves. */
module YamlTree {
  import opened Text
  import opened Decimal
  import opened StableOrder

  datatype Kind = Document | Mapping | Sequence | Scalar | Alias

  /** A yaml.Node: a mapping's content alternates keys and values, an alias's value is the name
      it refers to, and `anchor` is the name that the node itself carries, or "". The number
      `id` says which node it is: sorting moves nodes, it makes no new ones. */
  datatype Tree = Node(id: nat, kind: Kind, value: string, anchor: string, content: seq<Tree>)

  function KeysOf(content: seq<Tree>): (r: seq<string>)
    ensures |r| == |content| / 2
  {
    seq(|content| / 2, i requires 0 <= i < |content| / 2 => content[2 * i].value)
  }

  /** Where the i-th entry of the sorted content comes from. */
  function Source(keys: seq<string>, i: nat): (j: nat)
    ensures i < 2 * |keys| ==> j < 2 * |keys|
    ensures i >= 2 * |keys| ==> j == i
  {
    if i < 2 * |keys| then 2 * Order(keys, |keys|)[i / 2] + i % 2 else i
  }

  /** Every mapping sorted by key, stably; keys themselves are not descended into. */
  function SortTree(t: Tree): (r: Tree)
    ensures r.id == t.id && r.kind == t.kind && r.value == t.value && r.anchor == t.anchor
    ensures |r.content| == |t.content|
  {
    match t.kind
    case Mapping =>
      var keys := KeysOf(t.content);
      t.(content := seq(|t.content|, i requires 0 <= i < |t.content| =>
        if i % 2 == 1 then SortTree(t.content[Source(keys, i)]) else t.content[Source(keys, i)]))
    case Document => t.(content := seq(|t.content|, i requires 0 <= i < |t.content| => SortTree(t.content[i])))
    case Sequence => t.(content := seq(|t.content|, i requires 0 <= i < |t.content| => SortTree(t.content[i])))
    case _ => t
  }

  /** The two halves of sorting a mapping: move its pairs, then sort its values. */
  function MovePairs(t: Tree): Tree {
    t.(content := seq(|t.content|, i requires 0 <= i < |t.content| =>
      if Source(KeysOf(t.content), i) < |t.content| then t.content[Source(KeysOf(t.content), i)] else t))
  }

  function SortValues(t: Tree): Tree {
    t.(content := seq(|t.content|, i requires 0 <= i < |t.content| =>
      if i % 2 == 1 then SortTree(t.content[i]) else t.content[i]))
  }

  lemma SortInTwoHalves(t: Tree)
    requires t.kind == Mapping
    ensures SortTree(t) == SortValues(MovePairs(t))
    ensures |t.content| / 2 <= 1 ==> MovePairs(t) == t
  {
  }

  lemma MovedPairs(t: Tree, keys: seq<string>)
    requires keys == KeysOf(t.content)
    ensures |MovePairs(t).content| == |t.content|
    ensures MovePairs(t) == t.(content := MovePairs(t).content)
    ensures forall i | 0 <= i < |t.content| ::
      Source(keys, i) < |t.content| && MovePairs(t).content[i] == t.content[Source(keys, i)]
  {
  }

  lemma SourceInjective(keys: seq<string>, i: nat, j: nat)
    requires i != j
    ensures Source(keys, i) != Source(keys, j)
  {
    if i < 2 * |keys| && j < 2 * |keys| && i % 2 == j % 2 {
      OrderInOrder(keys, |keys|);
      var o := Order(keys, |keys|);
      var a, b := i / 2, j / 2;
      if a < b { BeforeIrreflexive(keys, o[a], o[b]); } else { BeforeIrreflexive(keys, o[b], o[a]); }
    }
  }

  lemma SourceOfPair(keys: seq<string>, p: nat)
    requires p < |keys|
    ensures Source(keys, 2 * p) == 2 * Order(keys, |keys|)[p]
    ensures Source(keys, 2 * p + 1) == 2 * Order(keys, |keys|)[p] + 1
  {
    hide Order;
    assert (2 * p) / 2 == p && (2 * p + 1) / 2 == p;
  }

  lemma SortedEntry(t: Tree, i: nat)
    requires t.kind == Mapping && i < |t.content|
    ensures Source(KeysOf(t.content), i) < |t.content|
    ensures var j := Source(KeysOf(t.content), i);
      SortTree(t).content[i] == if i % 2 == 1 then SortTree(t.content[j]) else t.content[j]
  {
  }

  function KeyAt(t: Tree, p: nat): string
    requires p < |t.content| / 2
  {
    t.content[2 * p].value
  }

  function ValueAt(t: Tree, p: nat): Tree
    requires p < |t.content| / 2
  {
    t.content[2 * p + 1]
  }

  lemma SortedKey(t: Tree, p: nat, q: nat)
    requires t.kind == Mapping && p < |t.content| / 2 && q == Order(KeysOf(t.content), |t.content| / 2)[p]
    ensures KeyAt(SortTree(t), p) == KeyAt(t, q)
  {
    hide Source, Order, SortTree;
    SourceOfPair(KeysOf(t.content), p);
    SortedEntry(t, 2 * p);
  }

  lemma SortedValue(t: Tree, p: nat, q: nat)
    requires t.kind == Mapping && p < |t.content| / 2 && q == Order(KeysOf(t.content), |t.content| / 2)[p]
    ensures ValueAt(SortTree(t), p) == SortTree(ValueAt(t, q))
  {
    hide Source, Order, SortTree;
    SourceOfPair(KeysOf(t.content), p);
    SortedEntry(t, 2 * p + 1);
  }

  lemma SortedKeys(t: Tree)
    requires t.kind == Mapping
    ensures KeysOf(SortTree(t).content) == Permuted(KeysOf(t.content))
  {
    hide SortTree, Order;
    var keys := KeysOf(t.content);
    forall p | 0 <= p < |keys| ensures KeysOf(SortTree(t).content)[p] == Permuted(keys)[p] {
      SortedKey(t, p, Order(keys, |keys|)[p]);
    }
  }

  function Permuted(keys: seq<string>): (r: seq<string>)
    ensures |r| == |keys|
  {
    seq(|keys|, p requires 0 <= p < |keys| => keys[Order(keys, |keys|)[p]])
  }

  // ---- sortedness ----

  ghost predicate Ascending(keys: seq<string>) {
    forall i, j | 0 <= i < j < |keys| :: !Less(keys[j], keys[i])
  }

  ghost predicate KeySorted(t: Tree) {
    match t.kind
    case Mapping =>
      Ascending(KeysOf(t.content)) && forall i | 0 <= i < |t.content| && i % 2 == 1 :: KeySorted(t.content[i])
    case Document => forall i | 0 <= i < |t.content| :: KeySorted(t.content[i])
    case Sequence => forall i | 0 <= i < |t.content| :: KeySorted(t.content[i])
    case _ => true
  }

  lemma OrderAscends(keys: seq<string>)
    ensures Ascending(Permuted(keys))
  {
    OrderInOrder(keys, |keys|);
    var o := Order(keys, |keys|);
    forall i, j | 0 <= i < j < |keys| ensures !Less(keys[o[j]], keys[o[i]]) {
      assert Before(keys, o[i], o[j]);
      BeforeIrreflexive(keys, o[i], o[j]);
      LessIrreflexive(keys[o[i]]);
    }
  }

  lemma {:induction false} SortTreeSorts(t: Tree)
    ensures KeySorted(SortTree(t))
    decreases t
  {
    var keys := KeysOf(t.content);
    if t.kind == Mapping {
      SortedKeys(t);
      OrderAscends(keys);
    }
    forall i | 0 <= i < |t.content| && (t.kind == Mapping ==> i % 2 == 1)
      && (t.kind == Mapping || t.kind == Document || t.kind == Sequence)
      ensures KeySorted(SortTree(t).content[i])
    {
      SortTreeSorts(t.content[if t.kind == Mapping then Source(keys, i) else i]);
    }
  }

  /** A sorted tree is left alone, so a second run is the identity. */
  lemma {:induction false} SortedIsFixed(t: Tree)
    requires KeySorted(t)
    ensures SortTree(t) == t
    decreases t
  {
    var keys := KeysOf(t.content);
    if t.kind == Mapping { SortedStays(keys); }
    forall i | 0 <= i < |t.content| ensures SortTree(t).content[i] == t.content[i] {
      if t.kind == Mapping {
        assert Source(keys, i) == i;
        if i % 2 == 1 { SortedIsFixed(t.content[i]); }
      } else if t.kind == Document || t.kind == Sequence {
        SortedIsFixed(t.content[i]);
      }
    }
    assert SortTree(t).content == t.content;
  }

  lemma SortIdempotent(t: Tree)
    ensures SortTree(SortTree(t)) == SortTree(t)
  {
    SortTreeSorts(t);
    SortedIsFixed(SortTree(t));
  }

  // ---- lookup ----

  datatype Step = Key(k: string) | Item(i: nat)

  /** Which of several equal keys a reader takes. */
  datatype Pick = First | Last

  ghost predicate IsPick(keys: seq<string>, k: string, p: nat, pick: Pick) {
    && p < |keys| && keys[p] == k
    && forall q | 0 <= q < |keys| && keys[q] == k :: if pick == First then p <= q else q <= p
  }

  function FirstPos(keys: seq<string>, k: string, from: nat): (r: Option<nat>)
    requires from <= |keys|
    ensures r.Some? ==> r.value < |keys| && keys[r.value] == k
    ensures forall q | from <= q < |keys| && keys[q] == k :: r.Some? && r.value <= q
    decreases |keys| - from
  {
    if from == |keys| then None else if keys[from] == k then Some(from) else FirstPos(keys, k, from + 1)
  }

  function LastPos(keys: seq<string>, k: string, n: nat): (r: Option<nat>)
    requires n <= |keys|
    ensures r.Some? ==> r.value < n && keys[r.value] == k
    ensures forall q | 0 <= q < n && keys[q] == k :: r.Some? && q <= r.value
  {
    if n == 0 then None else if keys[n - 1] == k then Some(n - 1) else LastPos(keys, k, n - 1)
  }

  function PosOf(keys: seq<string>, k: string, pick: Pick): (r: Option<nat>)
    ensures r.Some? ==> IsPick(keys, k, r.value, pick)
    ensures r.None? ==> forall q | 0 <= q < |keys| :: keys[q] != k
  {
    match pick
    case First => FirstPos(keys, k, 0)
    case Last => LastPos(keys, k, |keys|)
  }

  /** One step of a reader: to the value under a key, or to an item. */
  function Child(t: Tree, step: Step, pick: Pick): Option<Tree> {
    match step
    case Key(k) =>
      if t.kind != Mapping then None
      else
        var p := PosOf(KeysOf(t.content), k, pick);
        if p.None? then None else Some(ValueAt(t, p.value))
    case Item(i) =>
      if (t.kind == Sequence || t.kind == Document) && i < |t.content| then Some(t.content[i]) else None
  }

  /** What a reader that does not follow aliases finds at a path. */
  function Lookup(t: Tree, path: seq<Step>, pick: Pick): Option<Tree>
    decreases |path|
  {
    if path == [] then Some(t)
    else match Child(t, path[0], pick)
      case None => None
      case Some(c) => Lookup(c, path[1..], pick)
  }

  lemma PickMoves(keys: seq<string>, k: string, pick: Pick)
    ensures PosOf(Permuted(keys), k, pick).Some? <==> PosOf(keys, k, pick).Some?
    ensures PosOf(keys, k, pick).Some? ==>
      Order(keys, |keys|)[PosOf(Permuted(keys), k, pick).value] == PosOf(keys, k, pick).value
  {
    hide PosOf, Order;
    var o, sorted := Order(keys, |keys|), Permuted(keys);
    OrderInOrder(keys, |keys|);
    var i := PosOf(keys, k, pick);
    assert forall p | 0 <= p < |keys| :: sorted[p] == keys[o[p]];
    if i.Some? {
      assert i.value in o;
      var a :| 0 <= a < |o| && o[a] == i.value;
      forall q | 0 <= q < |keys| && sorted[q] == k ensures if pick == First then a <= q else q <= a {
        LessIrreflexive(k);
        if q < a { assert Before(keys, o[q], o[a]); }
        if a < q { assert Before(keys, o[a], o[q]); }
      }
      assert sorted[a] == k && IsPick(sorted, k, a, pick);
    }
  }

  lemma ChildSorted(t: Tree, step: Step, pick: Pick)
    ensures Child(SortTree(t), step, pick) == match Child(t, step, pick)
      case Some(c) => Some(SortTree(c))
      case None => None
  {
    hide PosOf, KeysOf, Order, SortTree, ValueAt;
    var s := SortTree(t);
    match step
    case Key(k) =>
      if t.kind == Mapping {
        var keys := KeysOf(t.content);
        SortedKeys(t);
        PickMoves(keys, k, pick);
        if PosOf(keys, k, pick).Some? {
          SortedValue(t, PosOf(KeysOf(s.content), k, pick).value, PosOf(keys, k, pick).value);
        }
      }
    case Item(i) =>
      if (t.kind == Sequence || t.kind == Document) && i < |t.content| { SortedItem(t, i); }
  }

  /** Every path finds the sorted form of what it found before, both for a reader that takes the
      first and for one that takes the last of duplicate keys, as far as aliases are not followed. */
  lemma {:induction false} LookupPreserved(t: Tree, path: seq<Step>, pick: Pick)
    ensures Lookup(SortTree(t), path, pick) == match Lookup(t, path, pick)
      case Some(v) => Some(SortTree(v))
      case None => None
    decreases |path|
  {
    hide Child, SortTree;
    if path != [] {
      ChildSorted(t, path[0], pick);
      if Child(t, path[0], pick).Some? { LookupPreserved(Child(t, path[0], pick).value, path[1..], pick); }
    }
  }

  lemma SortedItem(t: Tree, i: nat)
    requires (t.kind == Sequence || t.kind == Document) && i < |t.content|
    ensures SortTree(t).content[i] == SortTree(t.content[i])
  {
  }

  // ---- leaf keys ----

  function KeyPath(prefix: string, k: string): string {
    if prefix == "" then k else prefix + "." + k
  }

  function ItemPath(prefix: string, i: nat): string {
    prefix + "[" + IntText(i) + "]"
  }

  predicate IsCompound(t: Tree) {
    t.kind == Mapping || t.kind == Sequence
  }

  /** `s` is one of the dotted paths that walkLeafKeys collects below `t`. */
  ghost predicate IsLeaf(t: Tree, prefix: string, s: string)
    decreases t
  {
    match t.kind
    case Document => exists i :: 0 <= i < |t.content| && IsLeaf(t.content[i], prefix, s)
    case Mapping => exists i | 0 <= i < |t.content| / 2 ::
      (if IsCompound(ValueAt(t, i)) then IsLeaf(ValueAt(t, i), KeyPath(prefix, KeyAt(t, i)), s)
       else s == KeyPath(prefix, KeyAt(t, i)))
    case Sequence => exists i :: 0 <= i < |t.content| && IsLeaf(t.content[i], ItemPath(prefix, i), s)
    case _ => false
  }

  ghost predicate IsPairLeaf(t: Tree, prefix: string, s: string, i: nat)
    requires i < |t.content| / 2
  {
    if IsCompound(ValueAt(t, i)) then IsLeaf(ValueAt(t, i), KeyPath(prefix, KeyAt(t, i)), s)
    else s == KeyPath(prefix, KeyAt(t, i))
  }

  ghost predicate LeafInFirst(t: Tree, prefix: string, s: string, n: nat)
    requires n <= |t.content| / 2
  {
    exists i | 0 <= i < n :: IsPairLeaf(t, prefix, s, i)
  }

  lemma LeafInNext(t: Tree, prefix: string, s: string, n: nat)
    requires n < |t.content| / 2
    ensures LeafInFirst(t, prefix, s, n + 1) <==> LeafInFirst(t, prefix, s, n) || IsPairLeaf(t, prefix, s, n)
  {
  }

  lemma MappingLeaf(t: Tree, prefix: string, s: string)
    requires t.kind == Mapping
    ensures IsLeaf(t, prefix, s) <==> LeafInFirst(t, prefix, s, |t.content| / 2)
  {
    hide KeyPath, ValueAt;
    if IsLeaf(t, prefix, s) {
      var i: nat :| i < |t.content| / 2 &&
        (if IsCompound(ValueAt(t, i)) then IsLeaf(ValueAt(t, i), KeyPath(prefix, KeyAt(t, i)), s)
         else s == KeyPath(prefix, KeyAt(t, i)));
      assert IsPairLeaf(t, prefix, s, i);
    }
  }

  /** walkLeafKeys: collects into the set that is passed along. */
  method WalkLeafKeys(t: Tree, prefix: string, keys: set<string>) returns (r: set<string>)
    ensures forall s :: s in r <==> s in keys || IsLeaf(t, prefix, s)
    decreases t
  {
    hide KeyPath, ItemPath;
    r := keys;
    match t.kind
    case Document =>
      for i := 0 to |t.content|
        invariant forall s :: s in r <==> s in keys || exists j :: 0 <= j < i && IsLeaf(t.content[j], prefix, s)
      {
        r := WalkLeafKeys(t.content[i], prefix, r);
      }
    case Mapping =>
      for i := 0 to |t.content| / 2
        invariant forall s :: s in r <==> s in keys || LeafInFirst(t, prefix, s, i)
      {
        var path := KeyPath(prefix, KeyAt(t, i));
        var v := ValueAt(t, i);
        if v.kind == Mapping || v.kind == Sequence {
          r := WalkLeafKeys(v, path, r);
        } else {
          r := r + {path};
        }
        forall s { LeafInNext(t, prefix, s, i); }
      }
      forall s { MappingLeaf(t, prefix, s); }
    case Sequence =>
      for i := 0 to |t.content|
        invariant forall s :: s in r <==> s in keys || exists j :: 0 <= j < i && IsLeaf(t.content[j], ItemPath(prefix, j), s)
      {
        r := WalkLeafKeys(t.content[i], ItemPath(prefix, i), r);
      }
    case _ =>
  }

  /** Sorting the nodes loses and invents no leaf key. Whether the text that they are written to
      still parses is another matter, on which YamlAliases decides. */
  lemma {:induction false} LeafKeysPreserved(t: Tree, prefix: string, s: string)
    ensures IsLeaf(SortTree(t), prefix, s) <==> IsLeaf(t, prefix, s)
    decreases t
  {
    hide KeyPath, ItemPath, SortTree, KeysOf, Order;
    var r := SortTree(t);
    match t.kind
    case Mapping =>
      var o := Order(KeysOf(t.content), |t.content| / 2);
      forall p | 0 <= p < |o| ensures IsPairLeaf(r, prefix, s, p) <==> IsPairLeaf(t, prefix, s, o[p]) {
        SortedKey(t, p, o[p]);
        SortedValue(t, p, o[p]);
        LeafKeysPreserved(ValueAt(t, o[p]), KeyPath(prefix, KeyAt(t, o[p])), s);
      }
      MappingLeaf(t, prefix, s);
      MappingLeaf(r, prefix, s);
      if IsLeaf(t, prefix, s) {
        var i :| 0 <= i < |t.content| / 2 && IsPairLeaf(t, prefix, s, i);
        assert i in o;
        var p :| 0 <= p < |o| && o[p] == i;
        assert IsPairLeaf(r, prefix, s, p);
      }
      if IsLeaf(r, prefix, s) {
        var p :| 0 <= p < |o| && IsPairLeaf(r, prefix, s, p);
        assert IsPairLeaf(t, prefix, s, o[p]);
      }
    case Document =>
      forall i | 0 <= i < |t.content| ensures IsLeaf(r.content[i], prefix, s) <==> IsLeaf(t.content[i], prefix, s) {
        SortedItem(t, i);
        LeafKeysPreserved(t.content[i], prefix, s);
      }
    case Sequence =>
      forall i | 0 <= i < |t.content|
        ensures IsLeaf(r.content[i], ItemPath(prefix, i), s) <==> IsLeaf(t.content[i], ItemPath(prefix, i), s)
      {
        SortedItem(t, i);
        LeafKeysPreserved(t.content[i], ItemPath(prefix, i), s);
      }
    case _ =>
      LeafSorted(t);
  }

  lemma LeafSorted(t: Tree)
    requires t.kind == Scalar || t.kind == Alias
    ensures SortTree(t) == t
  {
  }
}
