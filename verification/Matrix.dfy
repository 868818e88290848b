/** `strategy.matrix`: the cartesian product of a job's axes, and the label that names one
    combination. */
module Matrix {
  import opened Strings
  import opened Seqs

  /** A decoded matrix entry; list items are already formatted. */
  datatype RawAxis = ListOf(values: seq<string>) | NotAList

  datatype Strategy = NoMatrix | MatrixOf(entries: map<string, RawAxis>)

  datatype Axis = Axis(key: string, values: seq<string>)

  /** The nil map of a job without a matrix reads like the empty map. */
  type Combo = map<string, string>

  predicate IsReserved(key: string) {
    key == "include" || key == "exclude"
  }

  /** The list-valued entries among `keys`, in order. */
  function AxesOf(keys: seq<string>, entries: map<string, RawAxis>): seq<Axis>
    requires forall k :: k in keys ==> k in entries
  {
    if |keys| == 0 then []
    else
      var n := |keys| - 1;
      AxesOf(keys[..n], entries)
      + (if !IsReserved(keys[n]) && entries[keys[n]].ListOf? then [Axis(keys[n], entries[keys[n]].values)] else [])
  }

  /** One combination extended by each of the values. */
  function ExtendOne(c: Combo, key: string, values: seq<string>): (r: seq<Combo>)
    ensures |r| == |values| && forall i :: 0 <= i < |values| ==> r[i] == c[key := values[i]]
  {
    seq(|values|, i requires 0 <= i < |values| => c[key := values[i]])
  }

  function ExtendAll(combos: seq<Combo>, ax: Axis): seq<Combo> {
    if |combos| == 0 then []
    else ExtendAll(combos[..|combos| - 1], ax) + ExtendOne(combos[|combos| - 1], ax.key, ax.values)
  }

  function Product(axes: seq<Axis>): seq<Combo> {
    if |axes| == 0 then [map[]] else ExtendAll(Product(axes[..|axes| - 1]), axes[|axes| - 1])
  }

  // ----------------------------------------------------------------- the code

  /** The keys of a Go map, collected in whatever order and sorted. */
  method SortedKeys<V>(m: map<string, V>) returns (keys: seq<string>)
    ensures Lists(keys, m.Keys)
    ensures forall k :: k in keys <==> k in m
  {
    var unsorted: seq<string> := [];
    var rest := m.Keys;
    while rest != {}
      invariant rest <= m.Keys
      invariant multiset(unsorted) == multiset(m.Keys - rest)
      decreases |rest|
    {
      var k :| k in rest;
      assert m.Keys - (rest - {k}) == (m.Keys - rest) + {k};
      unsorted := unsorted + [k];
      rest := rest - {k};
    }
    assert m.Keys - {} == m.Keys;
    keys := Sort(unsorted);
    ListsElements(keys, m.Keys);
  }

  lemma ListsElements(keys: seq<string>, s: set<string>)
    requires Lists(keys, s)
    ensures forall k :: k in keys <==> k in s
  {
    assert forall k :: k in keys <==> k in multiset(keys);
  }

  lemma ListsDistinct(keys: seq<string>, s: set<string>)
    requires Lists(keys, s)
    ensures forall i, j :: 0 <= i < j < |keys| ==> keys[i] != keys[j]
  {
    forall i, j | 0 <= i < j < |keys| ensures keys[i] != keys[j] {
      var x := keys[i];
      assert keys == keys[..j] + keys[j..];
      assert multiset(keys) == multiset(keys[..j]) + multiset(keys[j..]) && multiset(keys)[x] == multiset(s)[x];
      assert x == keys[..j][i] && x in multiset(keys[..j]);
      assert keys[j] == keys[j..][0] && keys[j] in multiset(keys[j..]);
    }
  }

  method MatrixCombinations(strategy: Strategy) returns (combos: seq<Combo>, hasMatrix: bool, notApplied: seq<string>)
    ensures hasMatrix == strategy.MatrixOf?
    ensures strategy.NoMatrix? ==> combos == [map[]] && notApplied == []
    ensures strategy.MatrixOf? ==>
              exists keys :: Lists(keys, strategy.entries.Keys) && (forall k :: k in keys ==> k in strategy.entries)
                && combos == Product(AxesOf(keys, strategy.entries)) && notApplied == ReservedIn(keys)
                && Enumerates(AxesOf(keys, strategy.entries), combos)
  {
    hide Enumerates, Lists;
    notApplied := [];
    if strategy.NoMatrix? {
      return [map[]], false, [];
    }
    var keys := SortedKeys(strategy.entries);
    var axes: seq<Axis> := [];
    for i := 0 to |keys|
      invariant axes == AxesOf(keys[..i], strategy.entries)
      invariant notApplied == ReservedIn(keys[..i])
    {
      PrefixNext(keys, i);
      if IsReserved(keys[i]) {
        notApplied := notApplied + [keys[i]];
        continue;
      }
      match strategy.entries[keys[i]]
      case ListOf(values) => axes := axes + [Axis(keys[i], values)];
      case NotAList =>
    }
    WholePrefix(keys);
    combos := [map[]];
    for a := 0 to |axes|
      invariant combos == Product(axes[..a])
    {
      var next: seq<Combo> := [];
      for c := 0 to |combos|
        invariant next == ExtendAll(combos[..c], axes[a])
      {
        PrefixNext(combos, c);
        var values := axes[a].values;
        var row: seq<Combo> := [];
        for v := 0 to |values|
          invariant row == ExtendOne(combos[c], axes[a].key, values)[..v]
        {
          row := row + [combos[c][axes[a].key := values[v]]];
        }
        next := next + row;
      }
      WholePrefix(combos);
      PrefixNext(axes, a);
      combos := next;
    }
    WholePrefix(axes);
    ProductEnumerates(keys, strategy.entries);
    return combos, true, notApplied;
  }

  function ReservedIn(keys: seq<string>): seq<string> {
    if |keys| == 0 then []
    else ReservedIn(keys[..|keys| - 1]) + (if IsReserved(keys[|keys| - 1]) then [keys[|keys| - 1]] else [])
  }

  function PartOf(k: string, v: string): string {
    k + "=" + v
  }

  function Join(parts: seq<string>): string {
    if |parts| == 0 then "" else if |parts| == 1 then parts[0] else parts[0] + ", " + Join(parts[1..])
  }

  function PartsOf(keys: seq<string>, combo: Combo): (r: seq<string>)
    requires forall k :: k in keys ==> k in combo
    ensures |r| == |keys| && forall i :: 0 <= i < |keys| ==> r[i] == PartOf(keys[i], combo[keys[i]])
  {
    seq(|keys|, i requires 0 <= i < |keys| => PartOf(keys[i], combo[keys[i]]))
  }

  /** `text` is the label of `combo`: its parts, keys ascending. */
  ghost predicate IsLabel(combo: Combo, text: string) {
    exists keys :: Lists(keys, combo.Keys) && (forall k :: k in keys ==> k in combo)
           && text == Join(PartsOf(keys, combo))
  }

  method ComboLabel(combo: Combo) returns (text: string)
    ensures IsLabel(combo, text)
  {
    var keys := SortedKeys(combo);
    var parts: seq<string> := [];
    for i := 0 to |keys|
      invariant parts == PartsOf(keys, combo)[..i]
    {
      parts := parts + [keys[i] + "=" + combo[keys[i]]];
    }
    WholePrefix(PartsOf(keys, combo));
    text := Join(parts);
  }

  // ------------------------------------------------- mixed-radix enumeration

  /** The number of combinations of the axes from `a` on. */
  function Radix(axes: seq<Axis>, a: nat): nat
    requires a <= |axes|
    decreases |axes| - a
  {
    if a == |axes| then 1 else |axes[a].values| * Radix(axes, a + 1)
  }

  /** The digit of entry `i` on axis `a`: later axes vary faster. */
  function Digit(axes: seq<Axis>, i: nat, a: nat): nat
    requires a < |axes| && Radix(axes, a) > 0
  {
    NonZeroFactors(axes, a);
    (i / Radix(axes, a + 1)) % |axes[a].values|
  }

  lemma NonZeroFactors(axes: seq<Axis>, a: nat)
    requires a < |axes| && Radix(axes, a) > 0
    ensures |axes[a].values| > 0 && Radix(axes, a + 1) > 0
  {
  }

  lemma {:induction false} NonZeroFrom(axes: seq<Axis>, a: nat, b: nat)
    requires a <= b <= |axes| && Radix(axes, a) > 0
    ensures Radix(axes, b) > 0
    decreases b - a
  {
    if a < b {
      NonZeroFactors(axes, a);
      NonZeroFrom(axes, a + 1, b);
    }
  }

  /** Adding a last axis multiplies every radix by its length. */
  lemma {:induction false} RadixInit(axes: seq<Axis>, a: nat)
    requires |axes| > 0 && a < |axes|
    ensures Radix(axes, a) == Radix(axes[..|axes| - 1], a) * |axes[|axes| - 1].values|
    decreases |axes| - a
  {
    var init, len := axes[..|axes| - 1], |axes[|axes| - 1].values|;
    if a == |axes| - 1 {
      assert Radix(axes, a + 1) == 1;
    } else {
      RadixInit(axes, a + 1);
      var x, y := |axes[a].values|, Radix(init, a + 1);
      assert Radix(axes, a) == x * (y * len) && Radix(init, a) == x * y;
      assert x * (y * len) == (x * y) * len;
    }
  }

  lemma {:induction false} ExtendAllSize(combos: seq<Combo>, ax: Axis)
    ensures |ExtendAll(combos, ax)| == |combos| * |ax.values|
  {
    if |combos| > 0 { ExtendAllSize(combos[..|combos| - 1], ax); }
  }

  /** Row `q`, column `r` of one round of the product. */
  lemma {:induction false} ExtendAllAt(combos: seq<Combo>, ax: Axis, q: nat, r: nat)
    requires q < |combos| && r < |ax.values|
    ensures q * |ax.values| + r < |ExtendAll(combos, ax)|
    ensures ExtendAll(combos, ax)[q * |ax.values| + r] == combos[q][ax.key := ax.values[r]]
  {
    var n, len := |combos| - 1, |ax.values|;
    ExtendAllSize(combos[..n], ax);
    if q < n {
      ExtendAllAt(combos[..n], ax, q, r);
    } else {
      assert |ExtendAll(combos[..n], ax)| == n * len;
    }
  }

  /** The product has as many entries as the axis lengths multiply to. */
  lemma {:induction false} ProductSize(axes: seq<Axis>)
    ensures |Product(axes)| == Radix(axes, 0)
  {
    if |axes| > 0 {
      ProductSize(axes[..|axes| - 1]);
      ExtendAllSize(Product(axes[..|axes| - 1]), axes[|axes| - 1]);
      RadixInit(axes, 0);
    }
  }

  ghost predicate DistinctKeys(axes: seq<Axis>) {
    forall a, b :: 0 <= a < b < |axes| ==> axes[a].key != axes[b].key
  }

  lemma MulAssociates(x: nat, y: nat, z: nat)
    ensures x * (y * z) == (x * y) * z
  {
  }

  lemma MulDistributes(x: nat, y: nat, z: nat)
    ensures x * (y + z) == x * y + x * z
  {
  }

  lemma MulMonotone(d: nat, x: nat, y: nat)
    requires x <= y
    ensures d * x <= d * y
  {
    MulDistributes(d, x, y - x);
  }

  lemma Recombine(k: nat, m: nat, q: nat, s: nat, r: nat)
    requires s < m && r < k
    ensures k * (m * q + s) + r == (m * k) * q + (k * s + r) && k * s + r < m * k
  {
    MulDistributes(k, m * q, s);
    MulAssociates(k, m, q);
    MulMonotone(k, s + 1, m);
    MulDistributes(k, s, 1);
    assert m * k == k * m;
  }

  lemma DivMod(x: nat, d: nat)
    requires d > 0
    ensures x == d * (x / d) + x % d && x % d < d
  {
  }

  lemma DivideTwice(i: nat, m: nat, k: nat)
    requires m > 0 && k > 0
    ensures m * k > 0 && (i / k) / m == i / (m * k)
  {
    var a, r := i / k, i % k;
    var q, s := a / m, a % m;
    DivMod(i, k);
    DivMod(a, m);
    Recombine(k, m, q, s, r);
    DivisionUnique(i, m * k, q, k * s + r);
  }

  lemma DivisionUnique(i: nat, d: nat, q: nat, r: nat)
    requires d > 0 && i == d * q + r && r < d
    ensures i / d == q && i % d == r
  {
    var q', r' := i / d, i % d;
    assert i == d * q' + r';
    if q < q' {
      MulMonotone(d, q + 1, q');
      MulDistributes(d, q, 1);
    } else if q' < q {
      MulMonotone(d, q' + 1, q);
      MulDistributes(d, q', 1);
    }
  }

  /** Entry `i` holds on each axis the value its digit selects, and has exactly the axis
      keys. */
  ghost function KeySet(axes: seq<Axis>): set<string> {
    set a | 0 <= a < |axes| :: axes[a].key
  }

  ghost predicate EntryOf(axes: seq<Axis>, i: nat, c: Combo) {
    c.Keys == KeySet(axes)
    && forall a :: 0 <= a < |axes| ==> Selects(axes, i, a, c)
  }

  ghost predicate Selects(axes: seq<Axis>, i: nat, a: nat, c: Combo)
    requires a < |axes|
  {
    Radix(axes, a) > 0 && Digit(axes, i, a) < |axes[a].values|
    && axes[a].key in c && c[axes[a].key] == axes[a].values[Digit(axes, i, a)]
  }

  lemma Quotient(i: nat, x: nat, len: nat)
    requires i < x * len
    ensures len > 0 && i / len < x && i == (i / len) * len + i % len
  {
    if i / len >= x { MulMonotone(len, x, i / len); }
  }

  lemma SelectsEarlier(axes: seq<Axis>, i: nat, a: nat, c: Combo, d: Combo)
    requires a < |axes| - 1 && DistinctKeys(axes) && Radix(axes, a) > 0 && |axes[|axes| - 1].values| > 0
    requires Selects(axes[..|axes| - 1], i / |axes[|axes| - 1].values|, a, c)
    requires forall k :: k in c && k != axes[|axes| - 1].key ==> k in d && d[k] == c[k]
    ensures Selects(axes, i, a, d)
  {
    hide Digit, Radix;
    DigitInit(axes, i, a);
    assert axes[a].key != axes[|axes| - 1].key;
  }

  lemma SelectsLast(axes: seq<Axis>, i: nat, d: Combo)
    requires |axes| > 0 && |axes[|axes| - 1].values| > 0
    requires axes[|axes| - 1].key in d
    requires d[axes[|axes| - 1].key] == axes[|axes| - 1].values[i % |axes[|axes| - 1].values|]
    ensures Selects(axes, i, |axes| - 1, d)
  {
    LastDigit(axes, i);
  }

  /** Adding a last axis: the last digit is the remainder, the others are the digits of the
      quotient. */
  lemma EntryExtends(axes: seq<Axis>, i: nat, c: Combo)
    requires |axes| > 0 && DistinctKeys(axes) && i < Radix(axes, 0)
    requires |axes[|axes| - 1].values| > 0
    requires EntryOf(axes[..|axes| - 1], i / |axes[|axes| - 1].values|, c)
    ensures EntryOf(axes, i, c[axes[|axes| - 1].key := axes[|axes| - 1].values[i % |axes[|axes| - 1].values|]])
  {
    hide Selects, Digit, Radix, KeySet;
    var n := |axes| - 1;
    var d := c[axes[n].key := axes[n].values[i % |axes[n].values|]];
    KeysExtend(axes);
    forall a | 0 <= a < |axes| ensures Selects(axes, i, a, d) {
      NonZeroFrom(axes, 0, a);
      if a < n { SelectsEarlier(axes, i, a, c, d); } else { SelectsLast(axes, i, d); }
    }
  }

  lemma LastDigit(axes: seq<Axis>, i: nat)
    requires |axes| > 0 && |axes[|axes| - 1].values| > 0
    ensures Radix(axes, |axes| - 1) > 0 && Digit(axes, i, |axes| - 1) == i % |axes[|axes| - 1].values|
  {
    assert Radix(axes, |axes|) == 1;
  }

  lemma KeysExtend(axes: seq<Axis>)
    requires |axes| > 0
    ensures KeySet(axes) == KeySet(axes[..|axes| - 1]) + {axes[|axes| - 1].key}
  {
    var n := |axes| - 1;
    assert forall a :: 0 <= a < n ==> axes[..n][a] == axes[a];
  }

  lemma {:induction false} ProductEntry(axes: seq<Axis>, i: nat)
    requires DistinctKeys(axes) && i < Radix(axes, 0)
    ensures i < |Product(axes)| && EntryOf(axes, i, Product(axes)[i])
  {
    hide EntryOf, ExtendAll, ExtendOne;
    ProductSize(axes);
    if |axes| == 0 {
      EmptyEntry(i);
    } else {
      var n := |axes| - 1;
      var init, last := axes[..n], axes[n];
      var len := |last.values|;
      RadixInit(axes, 0);
      Quotient(i, Radix(init, 0), len);
      ProductEntry(init, i / len);
      ExtendAllAt(Product(init), last, i / len, i % len);
      EntryExtends(axes, i, Product(init)[i / len]);
    }
  }

  lemma EmptyEntry(i: nat)
    ensures EntryOf([], i, map[])
  {
  }

  lemma DigitInit(axes: seq<Axis>, i: nat, a: nat)
    requires a < |axes| - 1 && Radix(axes, a) > 0
    ensures |axes[|axes| - 1].values| > 0 && Radix(axes[..|axes| - 1], a) > 0
    ensures Digit(axes, i, a) == Digit(axes[..|axes| - 1], i / |axes[|axes| - 1].values|, a)
  {
    var init, len := axes[..|axes| - 1], |axes[|axes| - 1].values|;
    NonZeroFrom(axes, a, |axes| - 1);
    RadixInit(axes, a);
    RadixInit(axes, a + 1);
    NonZeroFactors(axes, a);
    assert Radix(init, a) > 0 && Radix(init, a + 1) > 0;
    DivideTwice(i, Radix(init, a + 1), len);
  }

  // ------------------------------------------------ every choice is enumerated

  /** One position per axis. */
  ghost predicate IsChoice(axes: seq<Axis>, d: seq<nat>) {
    |d| == |axes| && forall a :: 0 <= a < |axes| ==> d[a] < |axes[a].values|
  }

  /** Where a choice stands in the enumeration. */
  function Position(axes: seq<Axis>, d: seq<nat>): nat
    requires |d| == |axes|
  {
    if |axes| == 0 then 0
    else
      var n := |axes| - 1;
      Position(axes[..n], d[..n]) * |axes[n].values| + d[n]
  }

  lemma {:induction false} PositionInRange(axes: seq<Axis>, d: seq<nat>)
    requires IsChoice(axes, d)
    ensures Position(axes, d) < Radix(axes, 0)
  {
    if |axes| > 0 {
      var n := |axes| - 1;
      PositionInRange(axes[..n], d[..n]);
      RadixInit(axes, 0);
      BelowProduct(Position(axes[..n], d[..n]), Radix(axes[..n], 0), d[n], |axes[n].values|);
    }
  }

  lemma BelowProduct(p: nat, x: nat, r: nat, len: nat)
    requires p < x && r < len
    ensures p * len + r < x * len
  {
    MulMonotone(len, p + 1, x);
    MulDistributes(len, p, 1);
    MulCommutes(len, p);
    MulCommutes(len, x);
  }

  /** Digits read back the choice: distinct choices have distinct positions, and every
      choice has one. */
  lemma {:induction false} DigitsOfPosition(axes: seq<Axis>, d: seq<nat>, a: nat)
    requires IsChoice(axes, d) && a < |axes|
    ensures Radix(axes, a) > 0 && Digit(axes, Position(axes, d), a) == d[a]
  {
    PositionInRange(axes, d);
    NonZeroFrom(axes, 0, a);
    var n := |axes| - 1;
    var len, p := |axes[n].values|, Position(axes[..n], d[..n]);
    MulCommutes(len, p);
    DivisionUnique(p * len + d[n], len, p, d[n]);
    if a < n {
      DigitInit(axes, Position(axes, d), a);
      DigitsOfPosition(axes[..n], d[..n], a);
    } else {
      assert Radix(axes, a + 1) == 1;
    }
  }

  lemma MulCommutes(x: nat, y: nat)
    ensures x * y == y * x
  {
  }

  /** The combination that makes a given choice is in the product, at its position. */
  lemma EveryChoiceIsEnumerated(axes: seq<Axis>, d: seq<nat>)
    requires DistinctKeys(axes) && IsChoice(axes, d)
    ensures Position(axes, d) < |Product(axes)|
    ensures forall a :: 0 <= a < |axes| ==>
              axes[a].key in Product(axes)[Position(axes, d)]
              && Product(axes)[Position(axes, d)][axes[a].key] == axes[a].values[d[a]]
  {
    PositionInRange(axes, d);
    ProductEntry(axes, Position(axes, d));
    forall a | 0 <= a < |axes|
      ensures axes[a].key in Product(axes)[Position(axes, d)]
              && Product(axes)[Position(axes, d)][axes[a].key] == axes[a].values[d[a]]
    {
      DigitsOfPosition(axes, d, a);
      assert Selects(axes, Position(axes, d), a, Product(axes)[Position(axes, d)]);
    }
  }

  /** `combos` holds every choice of one value per axis, in mixed-radix order. */
  ghost predicate Enumerates(axes: seq<Axis>, combos: seq<Combo>) {
    DistinctKeys(axes) && AscendingKeys(axes) && |combos| == Radix(axes, 0)
    && forall i: nat :: i < |combos| ==> EntryOf(axes, i, combos[i])
  }

  ghost predicate AscendingKeys(axes: seq<Axis>) {
    forall a, b :: 0 <= a < b < |axes| ==> Le(axes[a].key, axes[b].key)
  }

  /** The keys of the axes taken from sorted matrix keys are distinct and sorted. */
  lemma {:induction false} AxesOfKeys(keys: seq<string>, entries: map<string, RawAxis>)
    requires forall k :: k in keys ==> k in entries
    requires Sorted(keys) && forall i, j :: 0 <= i < j < |keys| ==> keys[i] != keys[j]
    ensures DistinctKeys(AxesOf(keys, entries)) && AscendingKeys(AxesOf(keys, entries))
    ensures forall a :: 0 <= a < |AxesOf(keys, entries)| ==> AxesOf(keys, entries)[a].key in keys
  {
    if |keys| > 0 {
      var n := |keys| - 1;
      AxesOfKeys(keys[..n], entries);
      assert keys[n] !in keys[..n];
      assert forall k :: k in keys[..n] ==> Le(k, keys[n]);
    }
  }

  /** What `matrixCombinations` returns for a matrix enumerates its list-valued keys. */
  lemma ProductEnumerates(keys: seq<string>, entries: map<string, RawAxis>)
    requires Lists(keys, entries.Keys) && forall k :: k in keys ==> k in entries
    ensures Enumerates(AxesOf(keys, entries), Product(AxesOf(keys, entries)))
  {
    hide EntryOf, Product, Radix, DistinctKeys, AscendingKeys;
    var axes := AxesOf(keys, entries);
    ListsDistinct(keys, entries.Keys);
    AxesOfKeys(keys, entries);
    ProductSize(axes);
    forall i: nat | i < |Product(axes)| ensures EntryOf(axes, i, Product(axes)[i]) { ProductEntry(axes, i); }
  }

  // ------------------------------------------------------------------- labels

  /** Free of the ", " that separates parts. */
  ghost predicate NoSeparator(s: string) {
    forall i, j :: 0 <= i && j == i + 1 && j < |s| ==> !(s[i] == ',' && s[j] == ' ')
  }

  /** The rest of a join after its first part. */
  ghost predicate IsRest(r: string) {
    r == "" || (|r| >= 2 && r[0] == ',' && r[1] == ' ')
  }

  lemma FirstPartUnique(a: string, x: string, b: string, y: string)
    requires NoSeparator(a) && NoSeparator(b) && IsRest(x) && IsRest(y) && a + x == b + y && |a| <= |b|
    ensures a == b && x == y
  {
    var s := a + x;
    assert s[..|a|] == a && s[|a|..] == x;
    assert (b + y)[..|b|] == b && (b + y)[|b|..] == y;
  }

  function RestOf(parts: seq<string>): string
    requires |parts| > 0
  {
    if |parts| == 1 then "" else ", " + Join(parts[1..])
  }

  lemma HeadsAgree(p: seq<string>, q: seq<string>)
    requires |p| > 0 && |q| > 0 && NoSeparator(p[0]) && NoSeparator(q[0]) && Join(p) == Join(q)
    ensures p[0] == q[0] && RestOf(p) == RestOf(q)
  {
    assert Join(p) == p[0] + RestOf(p) && Join(q) == q[0] + RestOf(q);
    if |p[0]| <= |q[0]| {
      FirstPartUnique(p[0], RestOf(p), q[0], RestOf(q));
    } else {
      FirstPartUnique(q[0], RestOf(q), p[0], RestOf(p));
    }
  }

  lemma {:induction false} JoinInjective(p: seq<string>, q: seq<string>)
    requires forall x :: x in p || x in q ==> x != "" && NoSeparator(x)
    requires Join(p) == Join(q)
    ensures p == q
    decreases |p|
  {
    hide NoSeparator, Join;
    NonemptyJoin(p);
    NonemptyJoin(q);
    if |p| > 0 {
      assert p[0] in p && q[0] in q;
      HeadsAgree(p, q);
      if |p| > 1 {
        assert |q| > 1;
        assert RestOf(p)[2..] == Join(p[1..]) && RestOf(q)[2..] == Join(q[1..]);
        assert forall x :: x in p[1..] || x in q[1..] ==> x in p || x in q;
        JoinInjective(p[1..], q[1..]);
      }
      assert p == [p[0]] + p[1..] && q == [q[0]] + q[1..];
    }
  }

  lemma NonemptyJoin(p: seq<string>)
    requires forall x :: x in p ==> x != ""
    ensures Join(p) == "" <==> |p| == 0
  {
    if |p| > 0 { assert p[0] in p; }
  }

  /** An identifier-like key. */
  ghost predicate PlainKey(k: string) {
    '=' !in k && NoSeparator(k)
  }

  /** Identifier-like key, separator-free value. */
  ghost predicate IsPlain(k: string, v: string) {
    PlainKey(k) && NoSeparator(v)
  }

  ghost predicate PlainCombo(combo: Combo) {
    forall k :: k in combo ==> IsPlain(k, combo[k])
  }

  lemma PlainPart(k: string, v: string)
    requires IsPlain(k, v)
    ensures NoSeparator(PartOf(k, v)) && PartOf(k, v) != ""
  {
  }

  lemma PartInjective(k: string, v: string, l: string, w: string)
    requires '=' !in k && '=' !in l && PartOf(k, v) == PartOf(l, w)
    ensures k == l && v == w
  {
    var s := PartOf(k, v);
    assert s == k + ("=" + v) && s == l + ("=" + w);
    assert s[..|k|] == k && s[..|l|] == l && s[|k|] == '=' && s[|l|] == '=';
    assert forall i :: 0 <= i < |k| ==> s[i] in k;
    assert forall i :: 0 <= i < |l| ==> s[i] in l;
    assert |k| == |l|;
    assert s[|k| + 1..] == v && s[|l| + 1..] == w;
  }

  /** Labels tell plain combinations apart, whatever their keys. */
  lemma LabelInjective(c: Combo, d: Combo, text: string)
    requires IsLabel(c, text) && IsLabel(d, text) && PlainCombo(c) && PlainCombo(d)
    ensures c == d
  {
    var ks :| Lists(ks, c.Keys) && (forall k :: k in ks ==> k in c) && text == Join(PartsOf(ks, c));
    var ls :| Lists(ls, d.Keys) && (forall k :: k in ls ==> k in d) && text == Join(PartsOf(ls, d));
    ListsElements(ks, c.Keys);
    ListsElements(ls, d.Keys);
    PlainParts(ks, c);
    PlainParts(ls, d);
    JoinInjective(PartsOf(ks, c), PartsOf(ls, d));
    SameParts(ks, c, ls, d);
  }

  lemma PlainParts(keys: seq<string>, c: Combo)
    requires PlainCombo(c) && forall k :: k in keys ==> k in c
    ensures forall x :: x in PartsOf(keys, c) ==> x != "" && NoSeparator(x)
  {
    forall x | x in PartsOf(keys, c) ensures x != "" && NoSeparator(x) {
      var i :| 0 <= i < |keys| && PartsOf(keys, c)[i] == x;
      assert keys[i] in keys;
      PlainPart(keys[i], c[keys[i]]);
    }
  }

  lemma SameParts(ks: seq<string>, c: Combo, ls: seq<string>, d: Combo)
    requires PlainCombo(c) && PlainCombo(d)
    requires (forall k :: k in ks <==> k in c) && (forall k :: k in ls <==> k in d)
    requires PartsOf(ks, c) == PartsOf(ls, d)
    ensures c == d
  {
    forall i | 0 <= i < |ks| ensures ks[i] == ls[i] && c[ks[i]] == d[ls[i]] {
      assert ks[i] in ks && ls[i] in ls;
      assert PartsOf(ks, c)[i] == PartsOf(ls, d)[i];
      PartInjective(ks[i], c[ks[i]], ls[i], d[ls[i]]);
    }
    assert ks == ls;
    assert c.Keys == d.Keys;
    forall k | k in c ensures c[k] == d[k] {
      var i :| 0 <= i < |ks| && ks[i] == k;
    }
  }

  // ------------------------------------------------------ what becomes an axis

  /** A key is an axis unless it is `include` or `exclude` or its entry is no list. */
  function AxisFrom(entries: map<string, RawAxis>): string -> Option<Axis> {
    (k: string) =>
      if k == "include" || k == "exclude" || k !in entries then None
      else match entries[k]
           case ListOf(values) => Some(Axis(k, values))
           case NotAList => None
  }

  function NotApplied(): string -> Option<string> {
    (k: string) => if k == "include" || k == "exclude" then Some(k) else None
  }

  lemma {:induction false} AxesInOrder(keys: seq<string>, entries: map<string, RawAxis>)
    requires forall k :: k in keys ==> k in entries
    ensures Selected(keys, AxisFrom(entries), AxesOf(keys, entries))
    ensures Selected(keys, NotApplied(), ReservedIn(keys))
  {
    if |keys| == 0 {
      SelectedNone<string, Axis>(AxisFrom(entries));
      SelectedNone<string, string>(NotApplied());
    } else {
      var init := keys[..|keys| - 1];
      AxesInOrder(init, entries);
      SelectedLast(keys, AxisFrom(entries), AxesOf(init, entries));
      SelectedLast(keys, NotApplied(), ReservedIn(init));
    }
  }

  /** What a label looks like. */
  lemma LabelOfTwo(v: string, w: string)
    ensures IsLabel(map["node" := v, "os" := w], "node=" + v + ", os=" + w)
  {
    var c, ks := map["node" := v, "os" := w], ["node", "os"];
    assert c.Keys == {"node", "os"} && Lists(ks, c.Keys);
    var parts := PartsOf(ks, c);
    assert parts[1..] == [parts[1]];
    assert Join(parts) == parts[0] + ", " + parts[1];
    assert parts[0] == "node=" + v && parts[1] == "os=" + w;
    assert "node=" + v + ", " + ("os=" + w) == "node=" + v + ", os=" + w;
  }
}
