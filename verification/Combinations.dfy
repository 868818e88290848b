/** When the combinations of a matrix, and the job names made from them, are all different. */
module Combinations {
  import opened Matrix
  import opened Labels
  import opened Collisions
  import GitHub
  import opened Strings

  /** No axis lists a value twice. */
  ghost predicate ValuesDiffer(axes: seq<Axis>) {
    forall a, x, y :: 0 <= a < |axes| && 0 <= x < y < |axes[a].values| ==> axes[a].values[x] != axes[a].values[y]
  }

  ghost predicate EntriesDiffer(combos: seq<Combo>) {
    forall i, j :: 0 <= i < j < |combos| ==> combos[i] != combos[j]
  }

  ghost predicate SameDigit(axes: seq<Axis>, i: nat, j: nat, a: nat)
    requires a < |axes|
  {
    Radix(axes, a) > 0 && Digit(axes, i, a) == Digit(axes, j, a)
  }

  ghost predicate SameDigits(axes: seq<Axis>, i: nat, j: nat) {
    forall a :: 0 <= a < |axes| ==> SameDigit(axes, i, j, a)
  }

  lemma NonZeroInit(axes: seq<Axis>)
    requires |axes| > 0 && Radix(axes, 0) > 0
    ensures |axes[|axes| - 1].values| > 0 && Radix(axes[..|axes| - 1], 0) > 0
  {
    NonZeroFrom(axes, 0, |axes| - 1);
    NonZeroFactors(axes, |axes| - 1);
    RadixInit(axes, 0);
  }

  lemma SameDigitsInit(axes: seq<Axis>, i: nat, j: nat, len: nat)
    requires |axes| > 0 && Radix(axes, 0) > 0 && SameDigits(axes, i, j)
    requires len == |axes[|axes| - 1].values| > 0 && Radix(axes[..|axes| - 1], 0) > 0
    ensures SameDigits(axes[..|axes| - 1], i / len, j / len)
  {
    hide Radix, Digit;
    var init := axes[..|axes| - 1];
    forall a | 0 <= a < |init| ensures SameDigit(init, i / len, j / len, a) {
      assert SameDigit(axes, i, j, a);
      NonZeroFrom(axes, 0, a);
      DigitInit(axes, i, a);
      DigitInit(axes, j, a);
    }
  }

  lemma LastSame(axes: seq<Axis>, i: nat, j: nat)
    requires |axes| > 0 && |axes[|axes| - 1].values| > 0 && SameDigits(axes, i, j)
    ensures i % |axes[|axes| - 1].values| == j % |axes[|axes| - 1].values|
  {
    hide Radix, Digit;
    assert SameDigit(axes, i, j, |axes| - 1);
    LastDigit(axes, i);
    LastDigit(axes, j);
  }

  lemma QuotientOf(axes: seq<Axis>, i: nat) returns (q: nat)
    requires |axes| > 0 && i < Radix(axes, 0)
    ensures |axes[|axes| - 1].values| > 0 && q == i / |axes[|axes| - 1].values|
    ensures 0 < Radix(axes[..|axes| - 1], 0) && q < Radix(axes[..|axes| - 1], 0)
  {
    NonZeroInit(axes);
    RadixInit(axes, 0);
    Quotient(i, Radix(axes[..|axes| - 1], 0), |axes[|axes| - 1].values|);
    q := i / |axes[|axes| - 1].values|;
  }

  lemma SameDivision(i: nat, j: nat, len: nat)
    requires len > 0 && i / len == j / len && i % len == j % len
    ensures i == j
  {
    DivMod(i, len);
    DivMod(j, len);
  }

  /** Without the last axis: the quotients, which decide the rest. */
  lemma Quotients(axes: seq<Axis>, i: nat, j: nat) returns (p: nat, q: nat)
    requires |axes| > 0 && i < Radix(axes, 0) && j < Radix(axes, 0) && SameDigits(axes, i, j)
    ensures p < Radix(axes[..|axes| - 1], 0) && q < Radix(axes[..|axes| - 1], 0) && SameDigits(axes[..|axes| - 1], p, q)
    ensures p == q ==> i == j
  {
    hide Radix, Digit, SameDigits;
    var len := |axes[|axes| - 1].values|;
    p := QuotientOf(axes, i);
    q := QuotientOf(axes, j);
    SameDigitsInit(axes, i, j, len);
    LastSame(axes, i, j);
    if p == q { SameDivision(i, j, len); }
  }

  /** The digits of an entry determine it. */
  lemma {:induction false} DigitsDetermine(axes: seq<Axis>, i: nat, j: nat)
    requires i < Radix(axes, 0) && j < Radix(axes, 0) && SameDigits(axes, i, j)
    ensures i == j
  {
    if |axes| == 0 {
      assert Radix(axes, 0) == 1;
    } else {
      hide Radix, SameDigits;
      var p, q := Quotients(axes, i, j);
      DigitsDetermine(axes[..|axes| - 1], p, q);
    }
  }

  /** Where two entries agree as maps, they agree digit by digit. */
  lemma SameEntrySameDigits(axes: seq<Axis>, i: nat, j: nat)
    requires DistinctKeys(axes) && ValuesDiffer(axes) && i < Radix(axes, 0) && j < Radix(axes, 0)
    requires i < |Product(axes)| && j < |Product(axes)| && Product(axes)[i] == Product(axes)[j]
    ensures SameDigits(axes, i, j)
  {
    hide Product, Radix, Digit;
    ProductEntry(axes, i);
    ProductEntry(axes, j);
    forall a | 0 <= a < |axes| ensures SameDigit(axes, i, j, a) {
      assert Selects(axes, i, a, Product(axes)[i]) && Selects(axes, j, a, Product(axes)[j]);
    }
  }

  /** A choice takes `x` on axis `a` and the first value everywhere else. */
  function ChoiceOf(axes: seq<Axis>, a: nat, x: nat): seq<nat> {
    seq(|axes|, b requires 0 <= b < |axes| => if b == a then x else 0)
  }

  /** An axis that repeats a value repeats an entry. */
  lemma RepeatedValue(axes: seq<Axis>, a: nat, x: nat, y: nat) returns (i: nat, j: nat)
    requires DistinctKeys(axes) && Radix(axes, 0) > 0 && a < |axes|
    requires x < y < |axes[a].values| && axes[a].values[x] == axes[a].values[y]
    ensures i < |Product(axes)| && j < |Product(axes)| && i != j && Product(axes)[i] == Product(axes)[j]
  {
    hide Product, Radix, Digit, Position;
    var d, e := ChoiceOf(axes, a, x), ChoiceOf(axes, a, y);
    forall b | 0 <= b < |axes| ensures |axes[b].values| > 0 {
      NonZeroFrom(axes, 0, b);
      NonZeroFactors(axes, b);
    }
    assert IsChoice(axes, d) && IsChoice(axes, e);
    i, j := Position(axes, d), Position(axes, e);
    DigitsOfPosition(axes, d, a);
    DigitsOfPosition(axes, e, a);
    EveryChoiceIsEnumerated(axes, d);
    EveryChoiceIsEnumerated(axes, e);
    PositionInRange(axes, d);
    PositionInRange(axes, e);
    SameValuesSameEntry(axes, i, j, d, e);
  }

  lemma SameValuesSameEntry(axes: seq<Axis>, i: nat, j: nat, d: seq<nat>, e: seq<nat>)
    requires DistinctKeys(axes) && IsChoice(axes, d) && IsChoice(axes, e)
    requires i == Position(axes, d) < Radix(axes, 0) && j == Position(axes, e) < Radix(axes, 0)
    requires i < |Product(axes)| && j < |Product(axes)|
    requires forall b :: 0 <= b < |axes| ==> axes[b].values[d[b]] == axes[b].values[e[b]]
    ensures Product(axes)[i] == Product(axes)[j]
  {
    hide Product, Radix, Digit, Position;
    ProductEntry(axes, i);
    ProductEntry(axes, j);
    EveryChoiceIsEnumerated(axes, d);
    EveryChoiceIsEnumerated(axes, e);
    var c, c' := Product(axes)[i], Product(axes)[j];
    assert c.Keys == c'.Keys == KeySet(axes);
    forall k | k in c ensures c[k] == c'[k] {
      var b :| 0 <= b < |axes| && axes[b].key == k;
      assert c[axes[b].key] == axes[b].values[d[b]];
    }
  }

  /** The entries of a product are pairwise different exactly when there are none or no axis
      repeats a value. */
  lemma EntriesDifferIffValuesDo(axes: seq<Axis>)
    requires DistinctKeys(axes)
    ensures EntriesDiffer(Product(axes)) <==> Radix(axes, 0) == 0 || ValuesDiffer(axes)
  {
    hide Product, Radix, SameDigits;
    ProductSize(axes);
    if Radix(axes, 0) == 0 || ValuesDiffer(axes) {
      forall i, j | 0 <= i < j < |Product(axes)| ensures Product(axes)[i] != Product(axes)[j] {
        if Product(axes)[i] == Product(axes)[j] {
          SameEntrySameDigits(axes, i, j);
          DigitsDetermine(axes, i, j);
        }
      }
    } else {
      var a, x, y :| 0 <= a < |axes| && 0 <= x < y < |axes[a].values| && axes[a].values[x] == axes[a].values[y];
      var i, j := RepeatedValue(axes, a, x, y);
    }
  }

  /** No value of the axis contains the separator that leads over to `key`. */
  ghost predicate NoneHas(values: seq<string>, key: string) {
    forall x :: 0 <= x < |values| ==> !Has(values[x], Sep(key))
  }

  /** Identifier-like keys, and no value that contains the separator before its own or the
      next key. */
  ghost predicate UnambiguousAxes(axes: seq<Axis>) {
    (forall a :: 0 <= a < |axes| ==> PlainKey(axes[a].key))
    && forall a, b :: 0 <= a && b == a + 1 && b < |axes| ==>
         NoneHas(axes[a].values, axes[b].key) && NoneHas(axes[b].values, axes[b].key)
  }

  lemma KeysAreListed(axes: seq<Axis>)
    requires DistinctKeys(axes) && AscendingKeys(axes)
    ensures Lists(KeysOf(axes), KeySet(axes)) && forall k :: k in KeysOf(axes) <==> k in KeySet(axes)
  {
    var ks := KeysOf(axes);
    forall i, j | 0 <= i < j < |ks| ensures ks[i] != ks[j] && Le(ks[i], ks[j]) {
      assert ks[i] == axes[i].key && ks[j] == axes[j].key;
    }
    MultisetOfDistinct(ks);
    forall k ensures k in ks <==> k in KeySet(axes) {
      if k in KeySet(axes) {
        var a :| 0 <= a < |axes| && axes[a].key == k;
        assert ks[a] == k;
      }
    }
    assert (set k | k in ks) == KeySet(axes);
  }

  lemma AxesKeysArePlain(axes: seq<Axis>)
    requires DistinctKeys(axes) && UnambiguousAxes(axes)
    ensures PlainKeys(KeysOf(axes))
  {
    hide PlainKey, NoneHas;
    var ks := KeysOf(axes);
    forall i, j | 0 <= i < j < |ks| ensures ks[i] != ks[j] { assert axes[i].key != axes[j].key; }
  }

  // --------------------------------------------------- entries are choices

  lemma EntryIsChosen(axes: seq<Axis>, i: nat, c: Combo)
    requires EntryOf(axes, i, c) && forall k :: k in KeysOf(axes) ==> k in c
    ensures Chosen(axes, ValuesOf(KeysOf(axes), c))
  {
    hide Radix, Digit;
    forall a | 0 <= a < |axes| ensures c[axes[a].key] in axes[a].values { assert Selects(axes, i, a, c); }
  }

  lemma {:induction false} Positions(axes: seq<Axis>, vs: seq<string>) returns (d: seq<nat>)
    requires Chosen(axes, vs)
    ensures IsChoice(axes, d) && forall a :: 0 <= a < |axes| ==> axes[a].values[d[a]] == vs[a]
  {
    if |axes| == 0 {
      d := [];
    } else {
      var n := |axes| - 1;
      var init := Positions(axes[..n], vs[..n]);
      assert vs[n] in axes[n].values;
      var x :| 0 <= x < |axes[n].values| && axes[n].values[x] == vs[n];
      d := init + [x];
      assert forall a :: 0 <= a < n ==> axes[..n][a] == axes[a] && vs[..n][a] == vs[a];
    }
  }

  lemma ChoiceIsEntry(axes: seq<Axis>, vs: seq<string>) returns (i: nat)
    requires DistinctKeys(axes) && Chosen(axes, vs)
    ensures i < Radix(axes, 0) && i < |Product(axes)|
    ensures (forall k :: k in KeysOf(axes) ==> k in Product(axes)[i]) && ValuesOf(KeysOf(axes), Product(axes)[i]) == vs
  {
    hide Product, Radix, Digit, Position;
    var d := Positions(axes, vs);
    i := Position(axes, d);
    PositionInRange(axes, d);
    EveryChoiceIsEnumerated(axes, d);
    assert forall a :: 0 <= a < |axes| ==> axes[a].key in Product(axes)[i];
  }

  lemma {:induction false} NoEmptyAxisIfEntries(axes: seq<Axis>)
    requires Radix(axes, 0) > 0
    ensures NoEmptyAxis(axes)
  {
    forall a | 0 <= a < |axes| ensures axes[a].values != [] {
      NonZeroFrom(axes, 0, a);
      NonZeroFactors(axes, a);
    }
  }

  // ----------------------------------------------------------------- names

  /** `names` are the job names of a matrix's combinations. */
  ghost predicate NamesOf(jobName: string, axes: seq<Axis>, names: seq<string>) {
    |names| == |Product(axes)|
    && forall i :: 0 <= i < |names| ==> GitHub.IsJobName(jobName, true, Product(axes)[i], names[i])
  }

  ghost predicate Differ(names: seq<string>) {
    forall i, j :: 0 <= i < j < |names| ==> names[i] != names[j]
  }

  /** Two entries' names are equal exactly when their texts are. */
  lemma SameNameIffSameText(jobName: string, axes: seq<Axis>, i: nat, j: nat, c: Combo, d: Combo, x: string, y: string)
    requires |axes| > 0 && DistinctKeys(axes) && AscendingKeys(axes)
    requires EntryOf(axes, i, c) && EntryOf(axes, j, d)
    requires GitHub.IsJobName(jobName, true, c, x) && GitHub.IsJobName(jobName, true, d, y)
    ensures forall k :: k in KeysOf(axes) <==> k in c
    ensures c.Keys == d.Keys
    ensures x == y <==> Text(axes, ValuesOf(KeysOf(axes), c)) == Text(axes, ValuesOf(KeysOf(axes), d))
  {
    assert c.Keys == KeySet(axes) && d.Keys == KeySet(axes) && axes[0].key in KeySet(axes);
    KeysAreListed(axes);
    hide EntryOf, IsLabel, Lists, DistinctKeys, AscendingKeys, KeySet, Body;
    assert |c| == |c.Keys| && |d| == |d.Keys|;
    SameLabelSameBody(KeysOf(axes), c, d);
    if x == y { var text := GitHub.SameNameSameLabel(jobName, c, d, x); }
    if t :| IsLabel(c, t) && IsLabel(d, t) { SameLabelSameName(jobName, c, d, t, x, y); }
  }

  lemma SameLabelSameName(jobName: string, c: Combo, d: Combo, t: string, x: string, y: string)
    requires |c| > 0 && |d| > 0 && IsLabel(c, t) && IsLabel(d, t)
    requires GitHub.IsJobName(jobName, true, c, x) && GitHub.IsJobName(jobName, true, d, y)
    ensures x == y
  {
    hide IsLabel;
    var u :| IsLabel(c, u) && x == jobName + " (" + u + ")";
    var v :| IsLabel(d, v) && y == jobName + " (" + v + ")";
    LabelUnique(c, t, u);
    LabelUnique(d, t, v);
  }

  lemma EqualNamesMean(jobName: string, axes: seq<Axis>, names: seq<string>, i: nat, j: nat)
    requires |axes| > 0 && DistinctKeys(axes) && AscendingKeys(axes) && PlainKeys(KeysOf(axes))
    requires NamesOf(jobName, axes, names) && i < j < |names| && names[i] == names[j]
    ensures Product(axes)[i] == Product(axes)[j] || Collides(axes)
  {
    hide Product, Radix, GitHub.IsJobName, EntryOf, Text, PlainKeys, Collides, DistinctKeys, AscendingKeys;
    ProductSize(axes);
    ProductEntry(axes, i);
    ProductEntry(axes, j);
    var c, d := Product(axes)[i], Product(axes)[j];
    SameNameIffSameText(jobName, axes, i, j, c, d, names[i], names[j]);
    EntryIsChosen(axes, i, c);
    EntryIsChosen(axes, j, d);
    if c != d {
      OtherValues(KeysOf(axes), c, d);
      CollisionIsFound(axes, ValuesOf(KeysOf(axes), c), ValuesOf(KeysOf(axes), d));
    }
  }

  lemma CollisionMakesEqualNames(jobName: string, axes: seq<Axis>, names: seq<string>)
    requires DistinctKeys(axes) && AscendingKeys(axes) && Radix(axes, 0) > 0
    requires NamesOf(jobName, axes, names) && Collides(axes)
    ensures !Differ(names)
  {
    hide Product, Radix, GitHub.IsJobName, EntryOf, Text, Collides, DistinctKeys, AscendingKeys;
    ProductSize(axes);
    NoEmptyAxisIfEntries(axes);
    var vs, ws := CollisionFound(axes);
    var i := ChoiceIsEntry(axes, vs);
    var j := ChoiceIsEntry(axes, ws);
    ProductEntry(axes, i);
    ProductEntry(axes, j);
    SameNameIffSameText(jobName, axes, i, j, Product(axes)[i], Product(axes)[j], names[i], names[j]);
    assert i != j && names[i] == names[j];
  }

  lemma EqualEntriesEqualNames(jobName: string, axes: seq<Axis>, names: seq<string>)
    requires NamesOf(jobName, axes, names) && !EntriesDiffer(Product(axes))
    ensures !Differ(names)
  {
    hide Product, GitHub.IsJobName;
    var i, j :| 0 <= i < j < |Product(axes)| && Product(axes)[i] == Product(axes)[j];
    NameIsUnique(jobName, Product(axes)[i], names[i], names[j]);
  }

  lemma NameIsUnique(jobName: string, c: Combo, x: string, y: string)
    requires GitHub.IsJobName(jobName, true, c, x) && GitHub.IsJobName(jobName, true, c, y)
    ensures x == y
  {
    hide IsLabel;
    if |c| > 0 {
      var t :| IsLabel(c, t) && x == jobName + " (" + t + ")";
      var u :| IsLabel(c, u) && y == jobName + " (" + u + ")";
      LabelUnique(c, t, u);
    }
  }

  /** With identifier-like keys, a job's expanded names are pairwise different exactly when
      there are none, or no axis repeats a value and no values collide. */
  lemma NamesDifferIff(jobName: string, axes: seq<Axis>, names: seq<string>)
    requires DistinctKeys(axes) && AscendingKeys(axes) && PlainKeys(KeysOf(axes)) && NamesOf(jobName, axes, names)
    ensures Differ(names) <==> Radix(axes, 0) == 0 || (ValuesDiffer(axes) && !Collides(axes))
  {
    hide Product, Radix, GitHub.IsJobName, ValuesDiffer, AscendingKeys, DistinctKeys, PlainKeys, Collides;
    ProductSize(axes);
    EntriesDifferIffValuesDo(axes);
    if Radix(axes, 0) > 0 && !EntriesDiffer(Product(axes)) { EqualEntriesEqualNames(jobName, axes, names); }
    if Radix(axes, 0) > 0 && Collides(axes) { CollisionMakesEqualNames(jobName, axes, names); }
    forall i, j | 0 <= i < j < |names| && names[i] == names[j]
      ensures Product(axes)[i] == Product(axes)[j] || Collides(axes)
    {
      MoreThanOne(axes, j);
      EqualNamesMean(jobName, axes, names, i, j);
    }
  }

  lemma MoreThanOne(axes: seq<Axis>, j: nat)
    requires 0 < j < |Product(axes)|
    ensures |axes| > 0
  {
  }

  /** Values free of the separators around them never collide. */
  lemma UnambiguousNeverCollides(axes: seq<Axis>)
    requires DistinctKeys(axes) && UnambiguousAxes(axes) && NoEmptyAxis(axes)
    ensures !Collides(axes)
  {
    hide PlainKey, Has, Sep, Collides, Body;
    AxesKeysArePlain(axes);
    if Collides(axes) {
      var vs, ws := CollisionFound(axes);
      SecondReading(KeysOf(axes), vs, ws);
      NoClash(axes, vs);
    }
  }

  lemma NoClash(axes: seq<Axis>, vs: seq<string>)
    requires UnambiguousAxes(axes) && Chosen(axes, vs)
    ensures !Ambiguous(KeysOf(axes), vs)
  {
    hide PlainKey, Has, Sep;
    var ks := KeysOf(axes);
    forall b: nat | 0 < b < |ks| ensures !ClashAt(ks, vs, b) {
      var a := b - 1;
      var x :| 0 <= x < |axes[a].values| && axes[a].values[x] == vs[a];
      var y :| 0 <= y < |axes[b].values| && axes[b].values[y] == vs[b];
      assert NoneHas(axes[a].values, axes[b].key) && NoneHas(axes[b].values, axes[b].key);
    }
  }

  /** The same about a job's own matrix, as `parseJob` expands it. */
  lemma MatrixNamesDifferIff(jobName: string, keys: seq<string>, entries: map<string, RawAxis>, names: seq<string>)
    requires Lists(keys, entries.Keys) && forall k :: k in keys ==> k in entries && PlainKey(k)
    requires NamesOf(jobName, AxesOf(keys, entries), names)
    ensures var axes := AxesOf(keys, entries);
            Differ(names) <==> Radix(axes, 0) == 0 || (ValuesDiffer(axes) && !Collides(axes))
  {
    hide NamesOf, ValuesDiffer, EntryOf, Collides, Radix, PlainKey, Differ;
    ProductEnumerates(keys, entries);
    ListsDistinct(keys, entries.Keys);
    AxesOfKeys(keys, entries);
    KeysArePlain(keys, entries);
    NamesDifferIff(jobName, AxesOf(keys, entries), names);
  }

  lemma KeysArePlain(keys: seq<string>, entries: map<string, RawAxis>)
    requires forall k :: k in keys ==> k in entries && PlainKey(k)
    requires DistinctKeys(AxesOf(keys, entries))
    requires forall a :: 0 <= a < |AxesOf(keys, entries)| ==> AxesOf(keys, entries)[a].key in keys
    ensures PlainKeys(KeysOf(AxesOf(keys, entries)))
  {
    hide PlainKey, AxesOf;
  }
}
