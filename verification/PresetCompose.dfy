/** Preset composition: `ResolveExtends` of pkg/config/preset_loader.go and
    `applyExtendsAndMerge` of pkg/config/yaml_loader.go. */
module PresetCompose {
  import opened Text
  import opened PresetMerge

  datatype Error = DepthExceeded | CyclicExtends | LoadFailed
  datatype Result<+T> = Ok(value: T) | Err(error: Error)

  /** What each preset reference loads as; a reference outside the map fails. */
  type Presets = map<string, Layer>

  const MAX_DEPTH: nat := 5

  // ---------------------------------------------------------------------
  // Flat meaning: fold the layers
  // ---------------------------------------------------------------------

  function Fold(layers: seq<Layer>): Layer {
    if layers == [] then map[] else Merge(Fold(layers[..|layers| - 1]), layers[|layers| - 1])
  }

  /** Both values have the same kind, and so have the fields they share. */
  predicate Alike(x: Val, y: Val) {
    match x
    case Map(fields) => y.Map? && forall k | k in fields && k in y.fields :: Alike(fields[k], y.fields[k])
    case Arr(_) => y.Arr?
    case Nil => false
    case _ => y.Str? || y.Other?
  }

  /** No layer holds a null, and no path has different kinds in two layers. */
  ghost predicate AllAlike(layers: seq<Layer>) {
    && (forall i | 0 <= i < |layers| :: NoNull(Map(layers[i])))
    && forall i, j | 0 <= i < |layers| && 0 <= j < |layers| :: Alike(Map(layers[i]), Map(layers[j]))
  }

  lemma {:induction false} AlikeRegroups(x: Val, y: Val, z: Val)
    requires Alike(x, y) && Alike(y, z)
    ensures Regroups(x, y, z)
    decreases x
  {
    if x.Map? && z.Map? {
      forall k | k in x.fields && k in y.fields && k in z.fields ensures Regroups(x.fields[k], y.fields[k], z.fields[k]) {
        AlikeRegroups(x.fields[k], y.fields[k], z.fields[k]);
      }
    }
  }

  /** Merging keeps null-freedom and likeness to any third value, on either side. */
  lemma {:induction false} MergeStaysAlike(x: Val, y: Val, z: Val)
    requires Alike(x, y) && Alike(x, z) && Alike(y, z) && Alike(z, x) && Alike(z, y) && NoNull(x) && NoNull(y)
    ensures Alike(MergeVal(x, y), z) && Alike(z, MergeVal(x, y)) && NoNull(MergeVal(x, y))
    decreases x
  {
    if x.Map? {
      var m := MergeVal(x, y);
      forall k | k in m.fields
        ensures NoNull(m.fields[k])
        ensures k in z.fields ==> Alike(m.fields[k], z.fields[k]) && Alike(z.fields[k], m.fields[k])
      {
        if k in x.fields && k in y.fields {
          if k in z.fields {
            MergeStaysAlike(x.fields[k], y.fields[k], z.fields[k]);
          } else {
            AlikeSelf(x.fields[k], y.fields[k]);
            MergeStaysAlike(x.fields[k], y.fields[k], y.fields[k]);
          }
        }
      }
    }
  }

  lemma {:induction false} AlikeSelf(x: Val, y: Val)
    requires NoNull(y) && Alike(x, y)
    ensures Alike(y, y) && Alike(y, x)
    decreases y
  {
    if y.Map? {
      forall k | k in y.fields ensures Alike(y.fields[k], y.fields[k]) { NoNullSelf(y.fields[k]); }
      forall k | k in y.fields && k in x.fields ensures Alike(y.fields[k], x.fields[k]) {
        AlikeSelf(x.fields[k], y.fields[k]);
      }
    }
  }

  lemma {:induction false} NoNullSelf(y: Val)
    requires NoNull(y)
    ensures Alike(y, y)
    decreases y
  {
    if y.Map? {
      forall k | k in y.fields ensures Alike(y.fields[k], y.fields[k]) { NoNullSelf(y.fields[k]); }
    }
  }

  /** A layer that is like every one of some layers is like their fold. */
  lemma {:induction false} FoldStaysAlike(layers: seq<Layer>, z: Layer)
    requires AllAlike(layers + [z])
    ensures NoNull(Map(Fold(layers))) && Alike(Map(Fold(layers)), Map(z)) && Alike(Map(z), Map(Fold(layers)))
    decreases |layers|
  {
    if layers != [] {
      var n := |layers| - 1;
      var front, last := layers[..n], layers[n];
      AlikeSubset(layers + [z], front + [last]);
      AlikeSubset(layers + [z], front + [z]);
      FoldStaysAlike(front, last);
      FoldStaysAlike(front, z);
      assert (layers + [z])[n] == last && (layers + [z])[n + 1] == z;
      MergeStaysAlike(Map(Fold(front)), Map(last), Map(z));
    }
  }

  lemma AlikeSubset(big: seq<Layer>, small: seq<Layer>)
    requires AllAlike(big) && forall l | l in small :: l in big
    ensures AllAlike(small)
  {
    forall i | 0 <= i < |small| ensures NoNull(Map(small[i])) {
      assert small[i] in big;
    }
    forall i, j | 0 <= i < |small| && 0 <= j < |small| ensures Alike(Map(small[i]), Map(small[j])) {
      assert small[i] in big && small[j] in big;
    }
  }

  lemma MergeNothing(a: Layer)
    ensures Merge(map[], a) == a && Merge(a, map[]) == a
  {
  }

  /** On like layers a fold may be cut anywhere: the later part can be composed on its own first. */
  lemma {:induction false} FoldRegroups(a: seq<Layer>, b: seq<Layer>)
    requires AllAlike(a + b)
    ensures Fold(a + b) == Merge(Fold(a), Fold(b))
    decreases |b|
  {
    if b == [] {
      assert a + b == a;
      MergeNothing(Fold(a));
    } else {
      var n := |b| - 1;
      var front, last := b[..n], b[n];
      assert (a + b)[..|a| + n] == a + front && (a + b)[|a| + n] == last;
      assert a + front + [last] == a + b;
      AlikeSubset(a + b, a + front);
      FoldRegroups(a, front);
      FoldRegroupsLast(a, front, last);
    }
  }

  lemma FoldRegroupsLast(a: seq<Layer>, front: seq<Layer>, last: Layer)
    requires AllAlike(a + front + [last])
    ensures Merge(Merge(Fold(a), Fold(front)), last) == Merge(Fold(a), Merge(Fold(front), last))
  {
    if a == [] || front == [] {
      MergeNothing(Fold(front));
      MergeNothing(Fold(a));
      MergeNothing(last);
      MergeNothing(Merge(Fold(front), last));
    } else {
      FoldsAlike(a, front, last);
      hide AllAlike;
      AlikeRegroups(Map(Fold(a)), Map(Fold(front)), Map(last));
      AssociativeExactly(Map(Fold(a)), Map(Fold(front)), Map(last));
    }
  }

  lemma FoldsAlike(a: seq<Layer>, b: seq<Layer>, z: Layer)
    requires AllAlike(a + b + [z])
    ensures Alike(Map(Fold(a)), Map(Fold(b))) && Alike(Map(Fold(b)), Map(z))
  {
    AlikeSubset(a + b + [z], b + [z]);
    FoldStaysAlike(b, z);
    forall l | l in a ensures Alike(Map(l), Map(Fold(b))) && Alike(Map(Fold(b)), Map(l)) {
      AlikeSubset(a + b + [z], b + [l]);
      FoldStaysAlike(b, l);
    }
    AlikeSubset(a + b + [z], a);
    NoNullSelf(Map(Fold(b)));
    forall i, j | 0 <= i < |a + [Fold(b)]| && 0 <= j < |a + [Fold(b)]|
      ensures Alike(Map((a + [Fold(b)])[i]), Map((a + [Fold(b)])[j]))
    {
      assert i < |a| ==> a[i] in a;
      assert j < |a| ==> a[j] in a;
    }
    FoldStaysAlike(a, Fold(b));
  }

  // ---------------------------------------------------------------------
  // Nested resolution
  // ---------------------------------------------------------------------

  predicate IsStringList(v: Val) {
    v.Arr? && forall i | 0 <= i < |v.items| :: v.items[i].Str?
  }

  function ToStringSlice(v: Val): Option<seq<string>> {
    if IsStringList(v) then Some(seq(|v.items|, i requires 0 <= i < |v.items| => v.items[i].s)) else None
  }

  /** The references a preset extends itself, when its `extends` is a list of strings. */
  function NestedOf(p: Layer): Option<seq<string>> {
    if "extends" in p then ToStringSlice(p["extends"]) else None
  }

  /** What the preset contributes itself: `extends` is dropped only when it was resolved. */
  function BodyOf(p: Layer): Layer {
    if NestedOf(p).Some? then p - {"extends"} else p
  }

  /** Preset bodies in post-order over the extends graph: the flat list of layers. */
  function LayersOf(presets: Presets, refs: seq<string>, n: nat, visited: set<string>, depth: nat): Result<seq<Layer>>
    requires n <= |refs| && depth <= MAX_DEPTH
    decreases MAX_DEPTH - depth, n
  {
    if n == 0 then Ok([])
    else match LayersOf(presets, refs, n - 1, visited, depth)
      case Err(e) => Err(e)
      case Ok(before) =>
        var ref := refs[n - 1];
        if ref in visited then Err(CyclicExtends)
        else if ref !in presets then Err(LoadFailed)
        else
          var nested := NestedOf(presets[ref]);
          if nested.None? || nested.value == [] then Ok(before + [BodyOf(presets[ref])])
          else if depth == MAX_DEPTH then Err(DepthExceeded)
          else match LayersOf(presets, nested.value, |nested.value|, visited + {ref}, depth + 1)
            case Err(e) => Err(e)
            case Ok(inner) => Ok(before + inner + [BodyOf(presets[ref])])
  }

  /** What the code computes: each nested list is composed on its own, then merged. */
  function Nested(presets: Presets, refs: seq<string>, n: nat, visited: set<string>, depth: nat): Result<Layer>
    requires n <= |refs| && depth <= MAX_DEPTH
    decreases MAX_DEPTH - depth, n + 1
  {
    if n == 0 then Ok(map[])
    else match Nested(presets, refs, n - 1, visited, depth)
      case Err(e) => Err(e)
      case Ok(before) => NestedRef(presets, before, refs[n - 1], visited, depth)
  }

  function NestedRef(presets: Presets, before: Layer, ref: string, visited: set<string>, depth: nat): Result<Layer>
    requires depth <= MAX_DEPTH
    decreases MAX_DEPTH - depth, 0
  {
    if ref in visited then Err(CyclicExtends)
    else if ref !in presets then Err(LoadFailed)
    else
      var nested := NestedOf(presets[ref]);
      if nested.None? || nested.value == [] then Ok(Merge(before, BodyOf(presets[ref])))
      else if depth == MAX_DEPTH then Err(DepthExceeded)
      else match Nested(presets, nested.value, |nested.value|, visited + {ref}, depth + 1)
        case Err(e) => Err(e)
        case Ok(inner) => Ok(Merge(Merge(before, inner), BodyOf(presets[ref])))
  }

  lemma NestedErrorStays(presets: Presets, refs: seq<string>, n: nat, visited: set<string>, depth: nat)
    requires n <= |refs| && depth <= MAX_DEPTH && Nested(presets, refs, n, visited, depth).Err?
    ensures Nested(presets, refs, |refs|, visited, depth) == Nested(presets, refs, n, visited, depth)
    decreases |refs| - n
  {
    if n < |refs| { NestedErrorStays(presets, refs, n + 1, visited, depth); }
  }

  class Resolver {
    const presets: Presets
    var visited: set<string>

    constructor (presets: Presets)
      ensures this.presets == presets && visited == {}
    {
      this.presets := presets;
      visited := {};
    }

    /** A nil result of the source is the empty layer here. */
    method ResolveExtends(refs: seq<string>, depth: nat) returns (r: Result<Layer>)
      modifies this
      ensures r == if refs == [] then Ok(map[]) else if depth > MAX_DEPTH then Err(DepthExceeded)
        else Nested(presets, refs, |refs|, old(visited), depth)
      ensures r.Ok? ==> visited == old(visited)
      decreases if depth > MAX_DEPTH then 0 else MAX_DEPTH + 1 - depth, 1
    {
      if refs == [] { return Ok(map[]); }
      if depth > MAX_DEPTH { return Err(DepthExceeded); }
      hide NestedRef;
      r := Ok(map[]);
      for i := 0 to |refs|
        invariant visited == old(visited) && r.Ok?
        invariant Nested(presets, refs, i, visited, depth) == r
      {
        r := ResolveRef(r.value, refs[i], depth);
        if r.Err? {
          NestedErrorStays(presets, refs, i + 1, old(visited), depth);
          return;
        }
      }
    }

    /** One turn of the loop: the preset's own extends first, then its body. */
    method ResolveRef(before: Layer, ref: string, depth: nat) returns (r: Result<Layer>)
      requires depth <= MAX_DEPTH
      modifies this
      ensures r == NestedRef(presets, before, ref, old(visited), depth)
      ensures r.Ok? ==> visited == old(visited)
      decreases MAX_DEPTH + 1 - depth, 0
    {
      hide Merge, Nested, IsStringList;
      if ref in visited { return Err(CyclicExtends); }
      visited := visited + {ref};
      if ref !in presets { return Err(LoadFailed); }
      var preset := presets[ref];
      var result := before;
      if "extends" in preset {
        var nested := ToStringSlice(preset["extends"]);
        if nested.Some? {
          preset := preset - {"extends"};
          var inner := ResolveExtends(nested.value, depth + 1);
          if inner.Err? { return inner; }
          MergeNothing(result);
          result := MergeMaps(result, inner.value);
        }
      }
      result := MergeMaps(result, preset);
      visited := visited - {ref};
      return Ok(result);
    }
  }

  /** On layers of like shape without nulls, nested composition is the flat
      left fold of all preset bodies in post-order. */
  lemma {:induction false} NestedIsFlat(presets: Presets, refs: seq<string>, n: nat, visited: set<string>, depth: nat)
    requires n <= |refs| && depth <= MAX_DEPTH
    ensures match (LayersOf(presets, refs, n, visited, depth), Nested(presets, refs, n, visited, depth))
      case (Ok(layers), Ok(m)) => AllAlike(layers) ==> m == Fold(layers)
      case (Err(e), Err(f)) => e == f
      case (Ok(_), Err(_)) => false
      case (Err(_), Ok(_)) => false
    decreases MAX_DEPTH - depth, n
  {
    hide Merge, Fold, NestedOf;
    if n == 0 {
      FoldNothing();
    } else {
      NestedIsFlat(presets, refs, n - 1, visited, depth);
      var ref := refs[n - 1];
      assert Nested(presets, refs, n, visited, depth) == match Nested(presets, refs, n - 1, visited, depth)
        case Err(e) => Err(e)
        case Ok(m) => NestedRef(presets, m, ref, visited, depth);
      if LayersOf(presets, refs, n - 1, visited, depth).Ok? && ref !in visited && ref in presets {
        var before := LayersOf(presets, refs, n - 1, visited, depth).value;
        var nested := NestedOf(presets[ref]);
        var body := BodyOf(presets[ref]);
        var inner: seq<Layer> := [];
        if nested.Some? && nested.value != [] && depth < MAX_DEPTH {
          NestedIsFlat(presets, nested.value, |nested.value|, visited + {ref}, depth + 1);
          if LayersOf(presets, nested.value, |nested.value|, visited + {ref}, depth + 1).Ok? {
            inner := LayersOf(presets, nested.value, |nested.value|, visited + {ref}, depth + 1).value;
          }
        }
        if AllAlike(before + inner + [body]) {
          FoldThree(before, inner, body);
        }
        assert before + [] + [body] == before + [body];
      }
    }
  }

  lemma FoldNothing()
    ensures Fold([]) == map[]
  {
  }

  lemma FoldThree(a: seq<Layer>, b: seq<Layer>, l: Layer)
    requires AllAlike(a + b + [l])
    ensures AllAlike(a) && AllAlike(b)
    ensures Fold(a + b + [l]) == Merge(Merge(Fold(a), Fold(b)), l)
    ensures b == [] ==> Fold(a + b + [l]) == Merge(Fold(a), l)
  {
    AlikeSubset(a + b + [l], a + b);
    AlikeSubset(a + b + [l], a);
    AlikeSubset(a + b + [l], b);
    FoldRegroups(a, b);
    assert (a + b + [l])[..|a + b|] == a + b;
    if b == [] { MergeNothing(Fold(a)); }
  }

  // ---------------------------------------------------------------------
  // What ends up at a path
  // ---------------------------------------------------------------------

  function At(v: Val, path: seq<string>): Option<Val> {
    if path == [] then Some(v)
    else if v.Map? && path[0] in v.fields then At(v.fields[path[0]], path[1..])
    else None
  }

  function ItemsAt(layer: Layer, path: seq<string>): seq<Val> {
    match At(Map(layer), path)
    case Some(Arr(items)) => items
    case _ => []
  }

  predicate IsScalar(v: Val) {
    v.Str? || v.Other?
  }

  function ScalarAt(layer: Layer, path: seq<string>): Option<Val> {
    match At(Map(layer), path)
    case Some(v) => if IsScalar(v) then Some(v) else None
    case None => None
  }

  function AllItemsAt(layers: seq<Layer>, path: seq<string>): seq<Val> {
    if layers == [] then [] else AllItemsAt(layers[..|layers| - 1], path) + ItemsAt(layers[|layers| - 1], path)
  }

  function LastScalarAt(layers: seq<Layer>, path: seq<string>): Option<Val> {
    if layers == [] then None
    else match ScalarAt(layers[|layers| - 1], path)
      case Some(v) => Some(v)
      case None => LastScalarAt(layers[..|layers| - 1], path)
  }

  lemma {:induction false} MergeAt(x: Val, y: Val, path: seq<string>)
    requires Alike(x, y)
    ensures At(MergeVal(x, y), path) == match (At(x, path), At(y, path))
      case (Some(a), Some(b)) => Some(MergeVal(a, b))
      case (Some(a), None) => Some(a)
      case (None, b) => b
    ensures At(x, path).Some? && At(y, path).Some? ==> Alike(At(x, path).value, At(y, path).value)
    decreases |path|
  {
    if path != [] && x.Map? && path[0] in x.fields && path[0] in y.fields {
      MergeAt(x.fields[path[0]], y.fields[path[0]], path[1..]);
    }
  }

  /** At every path the composed array is the concatenation of all layers' arrays
      there, in order, and the composed scalar is the last layer's. */
  lemma {:induction false} FoldAt(layers: seq<Layer>, path: seq<string>)
    requires AllAlike(layers)
    ensures ItemsAt(Fold(layers), path) == AllItemsAt(layers, path)
    ensures ScalarAt(Fold(layers), path) == LastScalarAt(layers, path)
    decreases |layers|
  {
    hide At, ItemsAt, ScalarAt, Merge, Alike, NoNull;
    if layers == [] {
      EmptyAt(path);
    } else {
      var n := |layers| - 1;
      var front, last := layers[..n], layers[n];
      assert layers == front + [last];
      AlikeSubset(layers, front);
      FoldAt(front, path);
      FoldStaysAlike(front, last);
      MergeTwoAt(Fold(front), last, path);
    }
  }

  lemma MergeTwoAt(a: Layer, b: Layer, path: seq<string>)
    requires Alike(Map(a), Map(b))
    ensures ItemsAt(Merge(a, b), path) == ItemsAt(a, path) + ItemsAt(b, path)
    ensures ScalarAt(Merge(a, b), path) == if ScalarAt(b, path).Some? then ScalarAt(b, path) else ScalarAt(a, path)
  {
    MergeAt(Map(a), Map(b), path);
    AlikeKinds(Map(a), Map(b));
    hide At, Alike, MergeVal;
    var x, y := At(Map(a), path), At(Map(b), path);
    if x.Some? && y.Some? { AlikeKinds(x.value, y.value); }
  }

  lemma AlikeKinds(x: Val, y: Val)
    requires Alike(x, y)
    ensures (x.Arr? <==> y.Arr?) && (IsScalar(x) <==> IsScalar(y))
    ensures x.Arr? ==> MergeVal(x, y) == Arr(x.items + y.items)
    ensures IsScalar(x) ==> MergeVal(x, y) == y
    ensures x.Map? ==> MergeVal(x, y).Map?
  {
  }

  lemma EmptyAt(path: seq<string>)
    ensures ItemsAt(map[], path) == [] && ScalarAt(map[], path) == None
  {
  }

  // ---------------------------------------------------------------------
  // The project on top
  // ---------------------------------------------------------------------

  function StringList(ss: seq<string>): Val {
    Arr(seq(|ss|, i requires 0 <= i < |ss| => Str(ss[i])))
  }

  /** applyExtendsAndMerge on a parsed project file. */
  method ApplyExtendsAndMerge(presets: Presets, root: Layer) returns (r: Result<Layer>)
    ensures NestedOf(root).None? || NestedOf(root).value == [] ==> r == Ok(root - {"extends"})
    ensures NestedOf(root).Some? && NestedOf(root).value != [] ==>
      var refs := NestedOf(root).value;
      match Nested(presets, refs, |refs|, {}, 0)
      case Err(e) => r == Err(e)
      case Ok(base) => r == Ok(Merge(base, root - {"extends"})["extends" := StringList(refs)])
  {
    hide Merge, Nested;
    if "extends" !in root {
      assert root - {"extends"} == root;
      return Ok(root);
    }
    var refs := ToStringSlice(root["extends"]);
    if refs.None? || refs.value == [] {
      return Ok(root - {"extends"});
    }
    var resolver := new Resolver(presets);
    var base := resolver.ResolveExtends(refs.value, 0);
    if base.Err? { return base; }
    var project: Layer := map k | k in root && k != "extends" :: root[k];
    assert project == root - {"extends"};
    var result := MergeMaps(base.value, project);
    return Ok(result["extends" := StringList(refs.value)]);
  }

  /** The project file is the last layer: its scalars win whatever the presets hold. */
  lemma ProjectScalarsWin(base: Layer, project: Layer, key: string)
    requires key in project && IsScalar(project[key])
    ensures Merge(base, project)[key] == project[key]
  {
    if key in base { assert MergeVal(base[key], project[key]) == project[key]; }
  }

  /** With the project as one more like layer, the whole result is one flat fold. */
  lemma ProjectIsLastLayer(presets: Presets, refs: seq<string>, project: Layer)
    requires LayersOf(presets, refs, |refs|, {}, 0).Ok?
    requires AllAlike(LayersOf(presets, refs, |refs|, {}, 0).value + [project])
    ensures var layers := LayersOf(presets, refs, |refs|, {}, 0).value;
      && Nested(presets, refs, |refs|, {}, 0).Ok?
      && Merge(Nested(presets, refs, |refs|, {}, 0).value, project) == Fold(layers + [project])
  {
    hide Merge, LayersOf, Nested;
    var layers := LayersOf(presets, refs, |refs|, {}, 0).value;
    NestedIsFlat(presets, refs, |refs|, {}, 0);
    AlikeSubset(layers + [project], layers);
    assert (layers + [project])[..|layers|] == layers;
  }

  /** Without likeness the grouping shows: a scalar between two maps wipes out the first map in
      the flat fold, but not when a preset composes the last two on its own first. */
  lemma GroupingMatters()
    ensures var presets: Presets := map[
        "a" := map["x" := Map(map["p" := Str("1")])],
        "b" := map["x" := Str("off")],
        "c" := map["x" := Map(map["q" := Str("2")])],
        "d" := map["extends" := Arr([Str("b"), Str("c")])]];
      && Nested(presets, ["a", "d"], 2, {}, 0).Ok? && LayersOf(presets, ["a", "d"], 2, {}, 0).Ok?
      && Nested(presets, ["a", "d"], 2, {}, 0).value != Fold(LayersOf(presets, ["a", "d"], 2, {}, 0).value)
  {
    var a: Layer := map["x" := Map(map["p" := Str("1")])];
    var b: Layer := map["x" := Str("off")];
    var c: Layer := map["x" := Map(map["q" := Str("2")])];
    var d: Layer := map["extends" := Arr([Str("b"), Str("c")])];
    ExtendsTwo("b", "c");
    TwoThenOne(map["a" := a, "b" := b, "c" := c, "d" := d]);
    GroupsDiffer();
  }

  lemma ExtendsTwo(b: string, c: string)
    ensures var d: Layer := map["extends" := Arr([Str(b), Str(c)])];
      NestedOf(d) == Some([b, c]) && BodyOf(d) == map[]
  {
    var items := [Str(b), Str(c)];
    assert ToStringSlice(Arr(items)).value == [b, c];
  }

  lemma TwoThenOne(presets: Presets)
    requires "a" in presets && "b" in presets && "c" in presets && "d" in presets
    requires "extends" !in presets["a"] && "extends" !in presets["b"] && "extends" !in presets["c"]
    requires NestedOf(presets["d"]) == Some(["b", "c"]) && BodyOf(presets["d"]) == map[]
    ensures var a, b, c := presets["a"], presets["b"], presets["c"];
      && Nested(presets, ["a", "d"], 2, {}, 0) == Ok(Merge(a, Merge(b, c)))
      && LayersOf(presets, ["a", "d"], 2, {}, 0).Ok?
      && Fold(LayersOf(presets, ["a", "d"], 2, {}, 0).value) == Merge(Merge(a, b), c)
  {
    hide Merge, MergeVal, NestedOf, BodyOf, Fold;
    var a, b, c := presets["a"], presets["b"], presets["c"];
    PlainPreset(a);
    PlainPreset(b);
    PlainPreset(c);
    MergeNothing(a);
    MergeNothing(b);
    MergeNothing(Merge(a, Merge(b, c)));
    MergeNothing(Merge(Merge(a, b), c));
    assert Nested(presets, ["b", "c"], 1, {"d"}, 1) == Ok(b);
    assert Nested(presets, ["a", "d"], 1, {}, 0) == Ok(a);
    assert LayersOf(presets, ["b", "c"], 1, {"d"}, 1).value == [b];
    assert LayersOf(presets, ["b", "c"], 2, {"d"}, 1).value == [b] + [c] == [b, c];
    assert LayersOf(presets, ["a", "d"], 1, {}, 0).value == [a];
    assert LayersOf(presets, ["a", "d"], 2, {}, 0).value == [a] + [b, c] + [map[]] == [a, b, c, map[]];
    FoldFour(a, b, c, map[]);
  }

  lemma PlainPreset(p: Layer)
    requires "extends" !in p
    ensures NestedOf(p).None? && BodyOf(p) == p
  {
  }

  lemma FoldFour(a: Layer, b: Layer, c: Layer, d: Layer)
    ensures Fold([a, b, c, d]) == Merge(Merge(Merge(a, b), c), d)
  {
    hide MergeVal, Merge;
    MergeNothing(a);
    var one, two, three := [a], [a, b], [a, b, c];
    assert [a, b, c, d][..3] == three && three[..2] == two && two[..1] == one && one[..0] == [];
    assert Fold(one) == a;
    assert Fold(two) == Merge(a, b);
    assert Fold(three) == Merge(Merge(a, b), c);
  }

  lemma GroupsDiffer()
    ensures var a: Layer := map["x" := Map(map["p" := Str("1")])];
      var b: Layer := map["x" := Str("off")];
      var c: Layer := map["x" := Map(map["q" := Str("2")])];
      Merge(Merge(a, b), c) != Merge(a, Merge(b, c))
  {
    var a: Layer := map["x" := Map(map["p" := Str("1")])];
    var b: Layer := map["x" := Str("off")];
    var c: Layer := map["x" := Map(map["q" := Str("2")])];
    assert "p" in Merge(a, Merge(b, c))["x"].fields;
    assert "p" !in Merge(Merge(a, b), c)["x"].fields;
  }
}
