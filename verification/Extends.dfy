/** GitLab's `extends:`: a job's own fields layered over its parents'. */
module Extends {
  import opened Strings
  import opened Seqs

  /** A decoded YAML value; `Other` is a scalar that is not a string. */
  datatype Value = Text(s: string) | Other(s: string) | ListOf(items: seq<Value>) | MapOf(entries: map<string, Value>)

  type Fields = map<string, Value>

  const VARIABLES := "variables"

  /** The type assertion to a mapping; anything else reads as no entries. */
  function AsMap(v: Value): map<string, Value> {
    if v.MapOf? then v.entries else map[]
  }

  function Variables(f: Fields): map<string, Value> {
    if VARIABLES in f then AsMap(f[VARIABLES]) else map[]
  }

  /** `child` over `parent`. */
  function Merged(child: Fields, parent: Fields): Fields {
    map k | k in parent.Keys + child.Keys ::
      if k !in child then parent[k]
      else if k == VARIABLES then MapOf(Variables(parent) + AsMap(child[k]))
      else child[k]
  }

  /** `base` with those entries of `over` that are not in `rest`. */
  function Written(base: map<string, Value>, over: map<string, Value>, rest: set<string>): map<string, Value> {
    base + (over - rest)
  }

  lemma WrittenEnds(base: map<string, Value>, over: map<string, Value>)
    ensures Written(base, over, over.Keys) == base && Written(base, over, {}) == base + over
  {
    assert over - {} == over && over - over.Keys == map[];
  }

  lemma WriteOne(base: map<string, Value>, over: map<string, Value>, rest: set<string>, k: string)
    requires k in rest && rest <= over.Keys
    ensures Written(base, over, rest)[k := over[k]] == Written(base, over, rest - {k})
  {
  }

  /** The copy loops: those entries of `over` that are not in `rest` have been written. */
  method Overlay(base: map<string, Value>, over: map<string, Value>) returns (out: map<string, Value>)
    ensures out == base + over
  {
    hide Written;
    WrittenEnds(base, over);
    out := base;
    var rest := over.Keys;
    while rest != {}
      invariant rest <= over.Keys && out == Written(base, over, rest)
      decreases |rest|
    {
      var k :| k in rest;
      WriteOne(base, over, rest, k);
      out := out[k := over[k]];
      rest := rest - {k};
    }
  }

  /** Writing one more of the child's fields. */
  lemma MergeOne(child: Fields, k: string, v: Value, parent: Fields)
    requires k !in child
    ensures k != VARIABLES ==> Merged(child[k := v], parent) == Merged(child, parent)[k := v]
    ensures k == VARIABLES ==>
              Variables(Merged(child, parent)) == Variables(parent)
              && Merged(child[k := v], parent) == Merged(child, parent)[k := MapOf(Variables(parent) + AsMap(v))]
  {
  }

  method MergeExtends(child: Fields, parent: Fields) returns (merged: Fields)
    ensures merged == Merged(child, parent)
  {
    hide Merged, AsMap;
    merged := Overlay(map[], parent);
    MergeNone(child, parent);
    var rest := child.Keys;
    while rest != {}
      invariant rest <= child.Keys
      invariant merged == Merged(child - rest, parent)
      decreases |rest|
    {
      var k :| k in rest;
      MergeOne(child - rest, k, child[k], parent);
      assert child - (rest - {k}) == (child - rest)[k := child[k]];
      if k == VARIABLES {
        var pv := Variables(merged);
        var out := Overlay(pv, AsMap(child[k]));
        merged := merged[VARIABLES := MapOf(out)];
      } else {
        merged := merged[k := child[k]];
      }
      rest := rest - {k};
    }
    assert child - {} == child;
  }

  lemma MergeNone(child: Fields, parent: Fields)
    ensures map[] + parent == parent == Merged(child - child.Keys, parent)
  {
  }

  function StringItems(items: seq<Value>): seq<string> {
    if |items| == 0 then []
    else StringItems(items[..|items| - 1]) + (if items[|items| - 1].Text? then [items[|items| - 1].s] else [])
  }

  function ParentsOf(v: Value): seq<string> {
    match v
    case Text(s) => [s]
    case ListOf(items) => StringItems(items)
    case _ => []
  }

  /** The entries of the known parents, first listed first. */
  function Layers(parents: seq<string>, all: map<string, Fields>): seq<Fields> {
    if |parents| == 0 then []
    else
      Layers(parents[..|parents| - 1], all)
      + (if parents[|parents| - 1] in all then [all[parents[|parents| - 1]]] else [])
  }

  function MergedAll(raw: Fields, layers: seq<Fields>): Fields {
    if |layers| == 0 then raw else Merged(MergedAll(raw, layers[..|layers| - 1]), layers[|layers| - 1])
  }

  /** A job's fields once its one level of `extends:` is resolved. */
  function Resolved(raw: Fields, all: map<string, Fields>): Fields {
    if "extends" in raw then MergedAll(raw, Layers(ParentsOf(raw["extends"]), all)) else raw
  }

  datatype Note =
    | Quiet
    | MissingParents(names: seq<string>)
    | DeepParents(names: seq<string>)
    | MergedFrom(names: seq<string>)

  function Missing(parents: seq<string>, all: map<string, Fields>): seq<string> {
    if |parents| == 0 then []
    else
      Missing(parents[..|parents| - 1], all)
      + (if parents[|parents| - 1] in all then [] else [parents[|parents| - 1]])
  }

  function Deep(parents: seq<string>, all: map<string, Fields>): seq<string> {
    if |parents| == 0 then []
    else
      var p := parents[|parents| - 1];
      Deep(parents[..|parents| - 1], all) + (if p in all && "extends" in all[p] then [p] else [])
  }

  method ResolveExtends(raw: Fields, all: map<string, Fields>) returns (merged: Fields, note: Note)
    ensures "extends" !in raw ==> merged == raw && note == Quiet
    ensures "extends" in raw ==>
              var parents := ParentsOf(raw["extends"]);
              merged == MergedAll(raw, Layers(parents, all))
              && note == if Missing(parents, all) != [] then MissingParents(Missing(parents, all))
                         else if Deep(parents, all) != [] then DeepParents(Deep(parents, all))
                         else MergedFrom(parents)
  {
    if "extends" !in raw { return raw, Quiet; }
    var parents := ParentsOf(raw["extends"]);
    merged := raw;
    var missing, deep := [], [];
    for i := 0 to |parents|
      invariant merged == MergedAll(raw, Layers(parents[..i], all))
      invariant missing == Missing(parents[..i], all) && deep == Deep(parents[..i], all)
    {
      PrefixNext(parents, i);
      if parents[i] !in all {
        assert Layers(parents[..i + 1], all) == Layers(parents[..i], all);
        missing := missing + [parents[i]];
        continue;
      }
      var parent := all[parents[i]];
      AppendOne(Layers(parents[..i], all), parent);
      merged := MergeExtends(merged, parent);
      if "extends" in parent { deep := deep + [parents[i]]; }
    }
    WholePrefix(parents);
    if |missing| > 0 { return merged, MissingParents(missing); }
    if |deep| > 0 { return merged, DeepParents(deep); }
    return merged, MergedFrom(parents);
  }

  // ------------------------------------------------------------------ theorems

  /** The value of the first layer that has `k`. */
  function FirstWith(layers: seq<map<string, Value>>, k: string): Option<Value> {
    if |layers| == 0 then None
    else if k in layers[0] then Some(layers[0][k])
    else FirstWith(layers[1..], k)
  }

  function Find(m: map<string, Value>, k: string): Option<Value> {
    if k in m then Some(m[k]) else None
  }

  function VariableLayers(layers: seq<Fields>): (r: seq<map<string, Value>>)
    ensures |r| == |layers| && forall i :: 0 <= i < |layers| ==> r[i] == Variables(layers[i])
  {
    seq(|layers|, i requires 0 <= i < |layers| => Variables(layers[i]))
  }

  lemma {:induction false} FirstWithAppend(a: seq<map<string, Value>>, m: map<string, Value>, k: string)
    ensures FirstWith(a + [m], k) == if FirstWith(a, k).Some? then FirstWith(a, k) else Find(m, k)
  {
    if |a| == 0 {
      assert (a + [m])[1..] == [];
    } else {
      assert (a + [m])[1..] == a[1..] + [m];
      FirstWithAppend(a[1..], m, k);
    }
  }

  /** The job's own fields win, then the first listed parent's, and so on: every field other
      than `variables` is the one of the first layer that has it. */
  lemma {:induction false} FieldsAreLayered(raw: Fields, layers: seq<Fields>, k: string)
    requires k != VARIABLES
    ensures Find(MergedAll(raw, layers), k) == FirstWith([raw] + layers, k)
  {
    if |layers| > 0 {
      var n := |layers| - 1;
      FieldsAreLayered(raw, layers[..n], k);
      FirstWithAppend([raw] + layers[..n], layers[n], k);
      assert [raw] + layers == [raw] + layers[..n] + [layers[n]];
    } else {
      assert ([raw] + layers)[1..] == [];
    }
  }

  /** `variables` is layered key by key instead. */
  lemma {:induction false} VariablesAreLayered(raw: Fields, layers: seq<Fields>, x: string)
    ensures Find(Variables(MergedAll(raw, layers)), x) == FirstWith(VariableLayers([raw] + layers), x)
  {
    var all := [raw] + layers;
    if |layers| > 0 {
      var n := |layers| - 1;
      VariablesAreLayered(raw, layers[..n], x);
      FirstWithAppend(VariableLayers([raw] + layers[..n]), Variables(layers[n]), x);
      assert VariableLayers(all) == VariableLayers([raw] + layers[..n]) + [Variables(layers[n])];
    } else {
      assert VariableLayers(all)[1..] == [];
    }
  }

  // ------------------------------------------------------ the parents, in order

  function TextItem(): Value -> Option<string> {
    (v: Value) => if v.Text? then Some(v.s) else None
  }

  function KnownLayer(all: map<string, Fields>): string -> Option<Fields> {
    (p: string) => if p in all then Some(all[p]) else None
  }

  function UnknownParent(all: map<string, Fields>): string -> Option<string> {
    (p: string) => if p in all then None else Some(p)
  }

  function DeepParent(all: map<string, Fields>): string -> Option<string> {
    (p: string) => if p in all && "extends" in all[p] then Some(p) else None
  }

  /** Parents are listed by a string or the strings of a list. */
  lemma {:induction false} ListedParents(items: seq<Value>)
    ensures Selected(items, TextItem(), StringItems(items))
    ensures ParentsOf(ListOf(items)) == StringItems(items)
    ensures forall p :: ParentsOf(Text(p)) == [p]
  {
    if |items| == 0 {
      SelectedNone<Value, string>(TextItem());
    } else {
      ListedParents(items[..|items| - 1]);
      SelectedLast(items, TextItem(), StringItems(items[..|items| - 1]));
    }
  }

  /** Layers, unknown parents and parents that extend others keep the order of the list. */
  lemma {:induction false} ParentsInOrder(parents: seq<string>, all: map<string, Fields>)
    ensures Selected(parents, KnownLayer(all), Layers(parents, all))
    ensures Selected(parents, UnknownParent(all), Missing(parents, all))
    ensures Selected(parents, DeepParent(all), Deep(parents, all))
  {
    if |parents| == 0 {
      SelectedNone<string, Fields>(KnownLayer(all));
      SelectedNone<string, string>(UnknownParent(all));
      SelectedNone<string, string>(DeepParent(all));
    } else {
      var init := parents[..|parents| - 1];
      ParentsInOrder(init, all);
      SelectedLast(parents, KnownLayer(all), Layers(init, all));
      SelectedLast(parents, UnknownParent(all), Missing(init, all));
      SelectedLast(parents, DeepParent(all), Deep(init, all));
    }
  }

  /** `i` is the first layer that has `k`. */
  ghost predicate FirstHas(layers: seq<map<string, Value>>, k: string, i: nat) {
    i < |layers| && k in layers[i] && forall h :: 0 <= h < i ==> k !in layers[h]
  }

  lemma {:induction false} FirstWithIs(layers: seq<map<string, Value>>, k: string)
    ensures FirstWith(layers, k) == None <==> forall i :: 0 <= i < |layers| ==> k !in layers[i]
    ensures FirstWith(layers, k).Some? ==>
            exists i: nat :: FirstHas(layers, k, i) && FirstWith(layers, k).value == layers[i][k]
  {
    if |layers| > 0 {
      if k in layers[0] {
        assert FirstHas(layers, k, 0);
      } else {
        FirstWithIs(layers[1..], k);
        assert forall i :: 0 < i < |layers| ==> layers[i] == layers[1..][i - 1];
        if i: nat :| FirstHas(layers[1..], k, i) && FirstWith(layers, k).Some? {
          assert FirstHas(layers, k, i + 1);
        }
      }
    }
  }
}
