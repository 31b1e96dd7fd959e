/** Sorted mappings and leaf paths of pkg/config/canonical.go written out. */
module YamlExamples {
  import opened Text
  import opened Decimal
  import opened YamlTree
  import opened YamlAliases

  function Pair(id: nat, key: string, value: Tree): Tree {
    Node(id, Mapping, "", "", [Leaf(id + 1, Scalar, key, ""), value])
  }

  /** A key comes behind its own prefix: `go` before `go-plugin`. */
  lemma PrefixComesFirst(key: string, more: string, x: Tree, y: Tree)
    requires more != ""
    ensures var k, l := Leaf(1, Scalar, key + more, ""), Leaf(2, Scalar, key, "");
      SortTree(Node(0, Mapping, "", "", [k, x, l, y])) == Node(0, Mapping, "", "", [l, SortTree(y), k, SortTree(x)])
  {
    var k, l := Leaf(1, Scalar, key + more, ""), Leaf(2, Scalar, key, "");
    var t := Node(0, Mapping, "", "", [k, x, l, y]);
    PrefixIsLess(key, key + more);
    hide SortTree, Less;
    SortTwo(t);
    assert SortTree(t) == t.(content := SortTree(t).content);
  }

  /** Keys are joined by dots. */
  lemma NestedPath(k: string, l: string, s: string)
    requires k != ""
    ensures IsLeaf(Pair(0, k, Pair(2, l, Leaf(4, Scalar, "v", ""))), "", s) <==> s == k + "." + l
  {
    var inner := Pair(2, l, Leaf(4, Scalar, "v", ""));
    PairPath(2, l, Leaf(4, Scalar, "v", ""), k, s);
    PairPath(0, k, inner, "", s);
  }

  lemma PairPath(id: nat, key: string, value: Tree, prefix: string, s: string)
    ensures var path := if prefix == "" then key else prefix + "." + key;
      IsLeaf(Pair(id, key, value), prefix, s) <==>
        if value.kind == Mapping || value.kind == Sequence then IsLeaf(value, path, s) else s == path
  {
    var t := Pair(id, key, value);
    assert KeyAt(t, 0) == key && ValueAt(t, 0) == value;
  }

  /** Items are numbered in brackets from 0 on; an item that is no mapping and no sequence is no leaf. */
  lemma ItemPath(k: string, l: string, m: string, s: string)
    requires k != ""
    ensures IsLeaf(Pair(0, k, Items(l, m)), "", s) <==> s == k + "[0]." + l || s == k + "[2]." + m
  {
    var items, x := Items(l, m), Leaf(9, Alias, "x", "");
    ItemPaths(k, l);
    ItemPaths(k, m);
    hide IsLeaf, YamlTree.ItemPath;
    PairPath(0, k, items, "", s);
    PairPath(3, l, x, YamlTree.ItemPath(k, 0), s);
    PairPath(6, m, x, YamlTree.ItemPath(k, 2), s);
    ThreeItems(items, k, s);
  }

  lemma ItemPaths(k: string, l: string)
    ensures YamlTree.ItemPath(k, 0) + "." + l == k + "[0]." + l && YamlTree.ItemPath(k, 2) + "." + l == k + "[2]." + l
    ensures k != "" ==> YamlTree.ItemPath(k, 0) != "" && YamlTree.ItemPath(k, 2) != ""
  {
    assert IntText(0) == "0" && IntText(2) == "2";
  }

  lemma ThreeItems(t: Tree, prefix: string, s: string)
    requires t.kind == Sequence && |t.content| == 3 && t.content[1].kind == Scalar
    ensures IsLeaf(t, prefix, s) <==>
      IsLeaf(t.content[0], YamlTree.ItemPath(prefix, 0), s) || IsLeaf(t.content[2], YamlTree.ItemPath(prefix, 2), s)
  {
    hide YamlTree.ItemPath;
    assert !IsLeaf(t.content[1], YamlTree.ItemPath(prefix, 1), s);
  }

  function Items(l: string, m: string): Tree {
    Node(2, Sequence, "", "", [Pair(3, l, Leaf(9, Alias, "x", "")), Leaf(5, Scalar, "v", ""), Pair(6, m, Leaf(9, Alias, "x", ""))])
  }
}
