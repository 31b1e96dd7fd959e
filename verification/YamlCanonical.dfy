/** `sortYAMLMappingsRecursive` of pkg/config/canonical.go: the in-place sort on a
    tree of nodes, against the sort on values. */
module YamlCanonical {
  import opened StableOrder
  import opened YamlTree

  class YamlNode {
    const kind: Kind
    const value: string
    const anchor: string
    var content: seq<YamlNode>

    /** The nodes below and including this one, and the tree they form. */
    ghost var repr: set<YamlNode>
    ghost var tree: Tree

    ghost predicate Valid()
      reads this, repr
      decreases repr, 1
    {
      && Kids()
      && tree.kind == kind && tree.value == value && tree.anchor == anchor && |tree.content| == |content|
      && forall i | 0 <= i < |content| :: tree.content[i] == content[i].tree
    }

    /** The children are valid trees with disjoint nodes. */
    ghost predicate Kids()
      reads this, repr
      decreases repr, 0
    {
      && this in repr
      && (forall i | 0 <= i < |content| ::
            content[i] in repr && content[i] in content[i].repr && content[i].repr <= repr - {this} && content[i].Valid())
      && forall i, j | 0 <= i < |content| && 0 <= j < |content| && i != j :: content[i].repr !! content[j].repr
    }

    /** Sorts one child in place; its siblings are not touched. */
    method SortKid(i: nat)
      requires Kids() && i < |content|
      modifies content[i].repr
      ensures Kids()
      ensures content[i].tree == SortTree(old(content[i].tree))
      ensures forall j | 0 <= j < |content| && j != i :: content[j].tree == old(content[j].tree)
      decreases repr, 0
    {
      hide SortTree;
      content[i].SortMappings();
    }

    method SortMappings()
      requires Valid()
      modifies repr
      ensures Valid() && repr == old(repr) && tree == SortTree(old(tree))
      decreases repr, 2
    {
      hide SortTree, MovePairs, SortValues;
      match kind
      case Document => SortAll();
      case Sequence => SortAll();
      case Mapping =>
        SortInTwoHalves(tree);
        if |content| / 2 > 1 {
          MovePairsByKey();
        }
        SortEveryValue();
      case _ => LeafSorted(tree);
    }

    /** The loop over the children of a document or a sequence. */
    method SortAll()
      requires Valid() && (kind == Document || kind == Sequence)
      modifies repr
      ensures Valid() && repr == old(repr) && tree == SortTree(old(tree))
      decreases repr, 1
    {
      hide SortTree;
      for i := 0 to |content|
        invariant Kids() && repr == old(repr) && tree == old(tree) && content == old(content)
        invariant forall j | 0 <= j < i :: content[j].tree == SortTree(old(content[j].tree))
        invariant forall j | i <= j < |content| :: content[j].tree == old(content[j].tree)
      {
        SortKid(i);
      }
      forall j | 0 <= j < |content| { SortedItem(tree, j); }
      tree := SortTree(tree);
    }

    /** The loop over the values of a mapping. */
    method SortEveryValue()
      requires Valid() && kind == Mapping
      modifies repr
      ensures Valid() && repr == old(repr) && tree == SortValues(old(tree))
      decreases repr, 1
    {
      hide SortTree;
      var i := 1;
      while i < |content|
        invariant i % 2 == 1
        invariant Kids() && repr == old(repr) && tree == old(tree) && content == old(content)
        invariant forall j | 0 <= j < |content| ::
          content[j].tree == if j < i && j % 2 == 1 then SortTree(old(content[j].tree)) else old(content[j].tree)
      {
        SortKid(i);
        i := i + 2;
      }
      tree := SortValues(tree);
    }

    lemma KidValue(i: nat)
      requires Valid() && i < |content|
      ensures content[i].value == tree.content[i].value
    {
      assert content[i].Valid();
    }

    method CollectKeys() returns (keys: seq<string>)
      requires Valid()
      ensures keys == KeysOf(tree.content)
    {
      var n := |content| / 2;
      keys := [];
      for i := 0 to n
        invariant |keys| == i && forall j | 0 <= j < i :: keys[j] == tree.content[2 * j].value
      {
        KidValue(2 * i);
        keys := keys + [content[2 * i].value];
      }
    }

    /** Collects the pairs, sorts them stably by key, and writes them back. */
    method MovePairsByKey()
      requires Valid() && kind == Mapping
      modifies this`content, this`tree
      ensures Valid() && tree == MovePairs(old(tree))
    {
      hide MovePairs, Source, Order;
      var keys := CollectKeys();
      var order := SliceStable(keys);
      var pairs := content;
      content := Rearranged(pairs, keys, order);
      MovedPairs(tree, keys);
      tree := MovePairs(tree);
      forall i, j | 0 <= i < |content| && 0 <= j < |content| && i != j
        ensures content[i].repr !! content[j].repr
      {
        SourceInjective(keys, i, j);
      }
    }
  }

  /** The loop that writes sorted pairs back over the content. */
  method Rearranged(pairs: seq<YamlNode>, keys: seq<string>, order: seq<nat>) returns (content: seq<YamlNode>)
    requires |keys| == |pairs| / 2 && order == Order(keys, |keys|)
    ensures |content| == |pairs|
    ensures forall j | 0 <= j < |pairs| :: Source(keys, j) < |pairs| && content[j] == pairs[Source(keys, j)]
  {
    hide Source, Order;
    content := pairs;
    for i := 0 to |keys|
      invariant |content| == |pairs|
      invariant forall j | 0 <= j < 2 * i :: Source(keys, j) < |pairs| && content[j] == pairs[Source(keys, j)]
      invariant forall j | 2 * i <= j < |pairs| :: content[j] == pairs[j]
    {
      SourceOfPair(keys, i);
      content := content[2 * i := pairs[2 * order[i]]];
      content := content[2 * i + 1 := pairs[2 * order[i] + 1]];
    }
  }
}
