/** Deep merge of configuration layers: `mergeMaps` of pkg/config/merge.go.

    Merging is not associative in general.  This module says exactly when it is,
    and that it is on layers of like shape; a fold of layers may then be regrouped. */
module PresetMerge {
  /** YAML values; `Str` is a string, `Other` any further scalar. */
  datatype Val = Nil | Str(s: string) | Other(text: string) | Arr(items: seq<Val>) | Map(fields: map<string, Val>)
  type Layer = map<string, Val>

  /** The value that results where both sides have one: maps merge, arrays
      concatenate, and otherwise the later value wins, even a null one. */
  function MergeVal(x: Val, y: Val): Val
    decreases x
  {
    if x.Map? && y.Map? then
      Map(map k | k in x.fields.Keys + y.fields.Keys ::
        if k !in y.fields then x.fields[k]
        else if k !in x.fields then y.fields[k]
        else MergeVal(x.fields[k], y.fields[k]))
    else if x.Arr? && y.Arr? then Arr(x.items + y.items)
    else y
  }

  function Merge(a: Layer, b: Layer): Layer {
    MergeVal(Map(a), Map(b)).fields
  }

  /** mergeMaps, over the keys of src in whatever order the map yields them. */
  method MergeMaps(dst: Layer, src: Layer) returns (out: Layer)
    ensures out == Merge(dst, src)
    decreases Map(dst)
  {
    out := dst;
    var todo := src.Keys;
    while todo != {}
      invariant todo <= src.Keys
      invariant out.Keys == dst.Keys + (src.Keys - todo)
      invariant forall k | k in out && (k !in src || k in todo) :: out[k] == dst[k]
      invariant forall k | k in src.Keys - todo ::
        out[k] == if k in dst then MergeVal(dst[k], src[k]) else src[k]
    {
      var key :| key in todo;
      todo := todo - {key};
      var srcVal := src[key];
      if key !in out || out[key] == Nil {
        out := out[key := srcVal];
      } else {
        var dstVal := out[key];
        if dstVal.Map? && srcVal.Map? {
          FieldSmaller(dst, key);
          var merged := MergeMaps(dstVal.fields, srcVal.fields);
          out := out[key := Map(merged)];
        } else if dstVal.Arr? && srcVal.Arr? {
          out := out[key := Arr(dstVal.items + srcVal.items)];
        } else {
          out := out[key := srcVal];
        }
      }
    }
  }

  lemma FieldSmaller(dst: Layer, key: string)
    requires key in dst && dst[key].Map?
    ensures Map(dst[key].fields) == dst[key]
  {
  }

  // ---- when merging is associative ----

  /** `z` already holds everything that merging `x` under it would add. */
  predicate Absorbs(z: Val, x: Val) {
    if x.Map? && z.Map? then forall k | k in x.fields :: k in z.fields && Absorbs(z.fields[k], x.fields[k])
    else if x.Arr? && z.Arr? then x.items == []
    else true
  }

  lemma {:induction false} AbsorbsExactly(x: Val, z: Val)
    ensures MergeVal(x, z) == z <==> Absorbs(z, x)
    decreases x
  {
    if x.Map? && z.Map? {
      forall k | k in x.fields && k in z.fields
        ensures MergeVal(x.fields[k], z.fields[k]) == z.fields[k] <==> Absorbs(z.fields[k], x.fields[k])
      {
        AbsorbsExactly(x.fields[k], z.fields[k]);
      }
      if MergeVal(x, z) == z {
        forall k | k in x.fields ensures k in z.fields && MergeVal(x.fields[k], z.fields[k]) == z.fields[k] {
          assert k in MergeVal(x, z).fields;
          assert MergeVal(x, z).fields[k] == z.fields[k];
        }
      }
    } else if x.Arr? && z.Arr? && x.items != [] {
      assert |MergeVal(x, z).items| > |z.items|;
    }
  }

  /** Nowhere do two maps (or two non-empty arrays) that must meet stand on both
      sides of a value of another kind, unless the outer one adds nothing. */
  predicate Regroups(x: Val, y: Val, z: Val) {
    if x.Map? && z.Map? then
      if y.Map? then forall k | k in x.fields && k in y.fields && k in z.fields ::
        Regroups(x.fields[k], y.fields[k], z.fields[k])
      else Absorbs(z, x)
    else if x.Arr? && z.Arr? then y.Arr? || x.items == []
    else true
  }

  /** Three values may be merged in either grouping exactly when they regroup. */
  lemma {:induction false} AssociativeExactly(x: Val, y: Val, z: Val)
    ensures MergeVal(MergeVal(x, y), z) == MergeVal(x, MergeVal(y, z)) <==> Regroups(x, y, z)
    decreases x
  {
    if x.Map? && z.Map? {
      if y.Map? {
        MapsAssociateExactly(x, y, z);
      } else {
        AbsorbsExactly(x, z);
      }
    } else if x.Arr? && z.Arr? {
      if y.Arr? {
        assert x.items + y.items + z.items == x.items + (y.items + z.items);
      } else {
        AbsorbsExactly(x, z);
      }
    }
  }

  lemma {:induction false} MapsAssociateExactly(x: Val, y: Val, z: Val)
    requires x.Map? && y.Map? && z.Map?
    ensures MergeVal(MergeVal(x, y), z) == MergeVal(x, MergeVal(y, z)) <==> Regroups(x, y, z)
    decreases x, 0
  {
    var l, r := MergeVal(MergeVal(x, y), z), MergeVal(x, MergeVal(y, z));
    forall k | k in x.fields && k in y.fields && k in z.fields
      ensures l.fields[k] == r.fields[k] <==> Regroups(x.fields[k], y.fields[k], z.fields[k])
    {
      AssociativeExactly(x.fields[k], y.fields[k], z.fields[k]);
    }
    assert l.fields.Keys == r.fields.Keys;
    forall k | k in l.fields && !(k in x.fields && k in y.fields && k in z.fields) ensures l.fields[k] == r.fields[k] {}
    if Regroups(x, y, z) {
      assert l.fields == r.fields;
    }
  }

  // ---- the documented rule about nulls ----

  /** The documented rule, "nil vs value: nil is ignored, value is preserved", as a merge of its own. */
  function KeepValues(x: Val, y: Val): Val
    decreases x
  {
    if x.Map? && y.Map? then
      Map(map k | k in x.fields.Keys + y.fields.Keys ::
        if k !in y.fields then x.fields[k]
        else if k !in x.fields then y.fields[k]
        else KeepValues(x.fields[k], y.fields[k]))
    else if x.Arr? && y.Arr? then Arr(x.items + y.items)
    else if y.Nil? then x
    else y
  }

  /** At no path that both maps have does a null stand over a value. */
  predicate NoNullOverValue(x: Val, y: Val) {
    if x.Map? && y.Map? then forall k | k in x.fields && k in y.fields :: NoNullOverValue(x.fields[k], y.fields[k])
    else y.Nil? ==> x.Nil?
  }

  /** The code follows the documented rule exactly when no later null meets a value. */
  lemma {:induction false} ValuesKeptExactly(x: Val, y: Val)
    ensures MergeVal(x, y) == KeepValues(x, y) <==> NoNullOverValue(x, y)
    decreases x
  {
    if x.Map? && y.Map? {
      var m, d := MergeVal(x, y), KeepValues(x, y);
      forall k | k in x.fields && k in y.fields
        ensures m.fields[k] == d.fields[k] <==> NoNullOverValue(x.fields[k], y.fields[k])
      {
        ValuesKeptExactly(x.fields[k], y.fields[k]);
      }
      assert m.fields.Keys == d.fields.Keys;
      forall k | k in m.fields && !(k in x.fields && k in y.fields) ensures m.fields[k] == d.fields[k] {}
      if NoNullOverValue(x, y) { assert m.fields == d.fields; }
    }
  }

  /** The later layer with the nulls of its maps left out, as if it had never named those keys. */
  function DropNulls(y: Val): Val {
    match y
    case Map(fields) => Map(map k | k in fields && !fields[k].Nil? :: DropNulls(fields[k]))
    case _ => y
  }

  predicate NoNull(x: Val) {
    match x
    case Nil => false
    case Map(fields) => forall k | k in fields :: NoNull(fields[k])
    case _ => true
  }

  /** Every null of the later maps meets a null of the earlier ones. */
  predicate NullsMatched(x: Val, y: Val)
    decreases y
  {
    y.Map? ==> forall k | k in y.fields ::
      if x.Map? && k in x.fields then
        if y.fields[k].Nil? then x.fields[k].Nil? else NullsMatched(x.fields[k], y.fields[k])
      else NoNull(y.fields[k])
  }

  lemma {:induction false} NothingDroppedExactly(y: Val)
    ensures !y.Nil? ==> (DropNulls(y) == y <==> NoNull(y))
    decreases y
  {
    if y.Map? {
      var d := DropNulls(y);
      forall k | k in y.fields && !y.fields[k].Nil? ensures d.fields[k] == y.fields[k] <==> NoNull(y.fields[k]) {
        NothingDroppedExactly(y.fields[k]);
      }
      if NoNull(y) {
        assert forall k | k in y.fields :: NoNull(y.fields[k]);
        assert d.fields == y.fields;
      }
      if d == y {
        forall k | k in y.fields ensures !y.fields[k].Nil? { assert k in d.fields; }
      }
    }
  }

  /** Nulls are ignored altogether, as keys never named, exactly when each meets a null that
      was already there: a null over a value, but also one under a new key, shows in the result. */
  lemma {:induction false} NullsIgnoredExactly(x: Val, y: Val)
    ensures MergeVal(x, y) == MergeVal(x, DropNulls(y)) <==> NullsMatched(x, y)
    decreases y
  {
    if x.Map? && y.Map? {
      var m, d := MergeVal(x, y), MergeVal(x, DropNulls(y));
      forall k | k in y.fields
        ensures (k in d.fields && m.fields[k] == d.fields[k]) <==>
          if k in x.fields then
            if y.fields[k].Nil? then x.fields[k].Nil? else NullsMatched(x.fields[k], y.fields[k])
          else NoNull(y.fields[k])
      {
        if y.fields[k].Nil? {
          if k in x.fields { assert MergeVal(x.fields[k], Nil) == Nil && d.fields[k] == x.fields[k]; }
        } else if k in x.fields {
          NullsIgnoredExactly(x.fields[k], y.fields[k]);
          assert DropNulls(y).fields[k] == DropNulls(y.fields[k]);
        } else {
          NothingDroppedExactly(y.fields[k]);
          assert d.fields[k] == DropNulls(y.fields[k]);
        }
      }
      assert m.fields.Keys == x.fields.Keys + y.fields.Keys;
      forall k | k in x.fields && k !in y.fields ensures m.fields[k] == d.fields[k] {}
      if NullsMatched(x, y) {
        assert d.fields.Keys == m.fields.Keys;
        assert m.fields == d.fields;
      }
      if m == d {
        forall k | k in y.fields ensures k in d.fields && m.fields[k] == d.fields[k] { assert k in m.fields; }
      }
    } else if y.Map? {
      NothingDroppedExactly(y);
    }
  }

  /** A null that overwrites a value. */
  lemma NullOverwrites()
    ensures Merge(map["x" := Str("1")], map["x" := Nil]) == map["x" := Nil]
    ensures KeepValues(Map(map["x" := Str("1")]), Map(map["x" := Nil])) == Map(map["x" := Str("1")])
  {
    assert MergeVal(Str("1"), Nil) == Nil && KeepValues(Str("1"), Nil) == Str("1");
  }
}
