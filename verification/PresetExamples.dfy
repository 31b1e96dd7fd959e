/** Merging and composing presets in plain terms: key by key, and along a chain of presets. */
module PresetExamples {
  import opened Text
  import opened PresetMerge
  import opened PresetCompose

  /** The rules of the merge, for each key: what only one side has stays; maps merge; arrays are
      concatenated, the earlier one first; otherwise the later value wins. */
  lemma MergeByKey(a: Layer, b: Layer, k: string)
    ensures k in Merge(a, b) <==> k in a || k in b
    ensures k in a && k !in b ==> Merge(a, b)[k] == a[k]
    ensures k !in a && k in b ==> Merge(a, b)[k] == b[k]
    ensures k in a && k in b ==> Merge(a, b)[k] == match (a[k], b[k])
      case (Map(x), Map(y)) => Map(Merge(x, y))
      case (Arr(x), Arr(y)) => Arr(x + y)
      case (_, y) => y
  {
    if k in a && k in b {
      assert Merge(a, b)[k] == MergeVal(a[k], b[k]);
      match (a[k], b[k])
      case (Map(x), Map(y)) => assert Map(Merge(x, y)) == MergeVal(a[k], b[k]);
      case _ =>
    }
  }

  /** A list of strings under `extends` is resolved and dropped; anything else there is kept. */
  lemma ExtendsIsDropped(p: Layer, refs: seq<string>)
    requires "extends" in p && p["extends"] == Arr(seq(|refs|, i requires 0 <= i < |refs| => Str(refs[i])))
    ensures NestedOf(p) == Some(refs) && "extends" !in BodyOf(p) && forall k | k in p && k != "extends" :: k in BodyOf(p) && BodyOf(p)[k] == p[k]
  {
    var items := p["extends"].items;
    assert seq(|items|, i requires 0 <= i < |items| => items[i].s) == refs;
  }

  lemma OtherExtendsIsKept(p: Layer)
    requires "extends" in p ==> !p["extends"].Arr? || exists i | 0 <= i < |p["extends"].items| :: !p["extends"].items[i].Str?
    ensures NestedOf(p) == None && BodyOf(p) == p
  {
  }

  // ---- chains ----

  /** Each preset extends the next one, and only that; the last one extends nothing. */
  predicate IsChain(presets: Presets, names: seq<string>) {
    && (forall i, j | 0 <= i < j < |names| :: names[i] != names[j])
    && (forall i | 0 <= i < |names| :: names[i] in presets)
    && forall i | 0 <= i < |names| ::
         if i + 1 < |names| then "extends" in presets[names[i]] && presets[names[i]]["extends"] == Arr([Str(names[i + 1])])
         else "extends" !in presets[names[i]]
  }

  function SetOf(s: seq<string>): set<string> {
    set x | x in s
  }

  /** A chain resolves exactly when it has at most six presets. */
  lemma ChainResolvesExactly(presets: Presets, names: seq<string>)
    requires IsChain(presets, names) && names != []
    ensures Nested(presets, [names[0]], 1, {}, 0).Ok? <==> |names| <= 6
    ensures |names| > 6 ==> Nested(presets, [names[0]], 1, {}, 0) == Err(DepthExceeded)
  {
    assert SetOf(names[..0]) == {};
    ChainFrom(presets, names, 0);
  }

  lemma {:induction false} ChainFrom(presets: Presets, names: seq<string>, i: nat)
    requires IsChain(presets, names) && i < |names| && i <= 5
    ensures var r := Nested(presets, [names[i]], 1, SetOf(names[..i]), i);
      if |names| <= 6 then r.Ok? else r == Err(DepthExceeded)
    decreases 5 - i
  {
    hide Merge, NestedOf;
    var visited, ref := SetOf(names[..i]), names[i];
    assert Nested(presets, [ref], 1, visited, i) == NestedRef(presets, map[], ref, visited, i) by {
      assert Nested(presets, [ref], 0, visited, i) == Ok(map[]);
    }
    assert ref !in names[..i];
    if i + 1 < |names| {
      var next := [names[i + 1]];
      assert [Str(names[i + 1])] == seq(1, k requires 0 <= k < 1 => Str(next[k]));
      ExtendsIsDropped(presets[ref], next);
      if i < 5 {
        assert visited + {ref} == SetOf(names[..i + 1]) by {
          assert names[..i + 1] == names[..i] + [ref];
        }
        ChainFrom(presets, names, i + 1);
      }
    } else {
      assert "extends" !in presets[names[i]];
      OtherExtendsIsKept(presets[ref]);
    }
  }

  /** A preset that extends itself is a cycle, and one that is not there cannot be loaded. */
  lemma BadReferences(presets: Presets, ref: string)
    ensures ref !in presets ==> Nested(presets, [ref], 1, {}, 0) == Err(LoadFailed)
    ensures ref in presets && "extends" in presets[ref] && presets[ref]["extends"] == Arr([Str(ref)]) ==>
      Nested(presets, [ref], 1, {}, 0) == Err(CyclicExtends)
  {
    hide Merge;
    assert Nested(presets, [ref], 0, {}, 0) == Ok(map[]);
    if ref in presets && "extends" in presets[ref] && presets[ref]["extends"] == Arr([Str(ref)]) {
      ExtendsItself(presets[ref], ref);
      assert Nested(presets, [ref], 0, {} + {ref}, 1) == Ok(map[]);
      assert Nested(presets, [ref], 1, {} + {ref}, 1) == Err(CyclicExtends);
    }
  }

  lemma ExtendsItself(p: Layer, ref: string)
    requires "extends" in p && p["extends"] == Arr([Str(ref)])
    ensures NestedOf(p) == Some([ref])
  {
    var refs := [ref];
    assert [Str(ref)] == seq(1, k requires 0 <= k < 1 => Str(refs[k]));
    ExtendsIsDropped(p, refs);
  }

  /** A preset with a list of its own: its own presets come below it, later references above it. */
  lemma CompositionInOrder(presets: Presets, a: string, b: string, c: string)
    requires a in presets && b in presets && c in presets && a != b
    requires "extends" in presets[a] && presets[a]["extends"] == Arr([Str(b)])
    requires "extends" !in presets[b] && "extends" !in presets[c]
    ensures Nested(presets, [a, c], 2, {}, 0) == Ok(Merge(Merge(presets[b], presets[a] - {"extends"}), presets[c]))
  {
    ExtendsItself(presets[a], b);
    OtherExtendsIsKept(presets[b]);
    OtherExtendsIsKept(presets[c]);
    MergeNothing(presets[b]);
    assert Nested(presets, [a, c], 0, {}, 0) == Ok(map[]);
    assert BodyOf(presets[a]) == presets[a] - {"extends"};
    hide Merge, NestedOf, BodyOf;
    assert Nested(presets, [b], 0, {} + {a}, 1) == Ok(map[]);
    assert Nested(presets, [b], 1, {} + {a}, 1) == Ok(presets[b]);
    assert Nested(presets, [a, c], 1, {}, 0) == NestedRef(presets, map[], a, {}, 0);
  }
}
