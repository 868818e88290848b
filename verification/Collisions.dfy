/** Exactly which matrices give two different combinations one label. */
module Collisions {
  import opened Strings
  import opened Matrix
  import opened Labels

  function KeysOf(axes: seq<Axis>): (r: seq<string>)
    ensures |r| == |axes| && forall a :: 0 <= a < |axes| ==> r[a] == axes[a].key
  {
    seq(|axes|, a requires 0 <= a < |axes| => axes[a].key)
  }

  /** One value per axis. */
  ghost predicate Chosen(axes: seq<Axis>, vs: seq<string>) {
    |vs| == |axes| && forall a :: 0 <= a < |axes| ==> vs[a] in axes[a].values
  }

  ghost predicate NoEmptyAxis(axes: seq<Axis>) {
    forall a :: 0 <= a < |axes| ==> axes[a].values != []
  }

  function Text(axes: seq<Axis>, vs: seq<string>): string
    requires |axes| == |vs| > 0
  {
    Body(KeysOf(axes), vs)
  }

  // -------------------------------------------------------------- the search

  /** Some choice reads like `x`, the first key again, and another choice: the separators of
      the second stand later than those of the first. */
  ghost predicate Shifts(axes: seq<Axis>, x: string)
    requires |axes| > 0
    decreases |axes|, 1
  {
    (exists y :: x + Sep(axes[0].key) + y in axes[0].values && Realigns(axes, y))
    || (|axes| > 1
        && exists v, w, y :: v in axes[0].values && w in axes[0].values && x == v + Sep(axes[1].key) + y
             && Shifts(axes[1..], y + Sep(axes[0].key) + w))
  }

  /** `y` can be continued with values of the later axes to the text of a choice. */
  ghost predicate Realigns(axes: seq<Axis>, y: string)
    requires |axes| > 0
    decreases |axes|, 0
  {
    y in axes[0].values
    || (|axes| > 1
        && exists w, z :: w in axes[0].values && (w == y + Sep(axes[1].key) + z || y == w + Sep(axes[1].key) + z)
             && Shifts(axes[1..], z))
  }

  /** Two values of one axis differ by a separator and a text that later values make up for. */
  ghost predicate Collides(axes: seq<Axis>) {
    |axes| > 1
    && (Collides(axes[1..])
        || exists v, w, x :: v in axes[0].values && w in axes[0].values && w == v + Sep(axes[1].key) + x
             && Shifts(axes[1..], x))
  }

  // ------------------------------------------------------------ what it finds

  lemma TextStep(axes: seq<Axis>, vs: seq<string>)
    requires |axes| == |vs| > 0
    ensures |axes| == 1 ==> Text(axes, vs) == vs[0]
    ensures |axes| > 1 ==> Text(axes, vs) == vs[0] + Sep(axes[1].key) + Text(axes[1..], vs[1..])
  {
    if |axes| > 1 {
      assert KeysOf(axes)[1..] == KeysOf(axes[1..]);
      BodyStep(KeysOf(axes), vs);
    }
  }

  lemma ChosenTail(axes: seq<Axis>, vs: seq<string>)
    requires Chosen(axes, vs) && |axes| > 0
    ensures Chosen(axes[1..], vs[1..]) && vs[0] in axes[0].values && vs == [vs[0]] + vs[1..]
  {
  }

  lemma ChosenPrepend(axes: seq<Axis>, v: string, vs: seq<string>)
    requires |axes| > 0 && v in axes[0].values && Chosen(axes[1..], vs)
    ensures Chosen(axes, [v] + vs) && ([v] + vs)[1..] == vs
  {
  }

  lemma {:induction false} SomeChoice(axes: seq<Axis>) returns (vs: seq<string>)
    requires NoEmptyAxis(axes)
    ensures Chosen(axes, vs)
  {
    if |axes| == 0 {
      vs := [];
    } else {
      var rest := SomeChoice(axes[1..]);
      assert axes[0].values[0] in axes[0].values;
      vs := [axes[0].values[0]] + rest;
      ChosenPrepend(axes, axes[0].values[0], rest);
    }
  }

  /** `y` with the later values of a choice after it. */
  function Continued(axes: seq<Axis>, y: string, rest: seq<string>): string
    requires |axes| > 0 && |rest| == |axes| - 1
  {
    if |axes| == 1 then y else y + Sep(axes[1].key) + Text(axes[1..], rest)
  }

  lemma {:induction false} ShiftFound(axes: seq<Axis>, x: string) returns (vs: seq<string>, ws: seq<string>)
    requires |axes| > 0 && NoEmptyAxis(axes) && Shifts(axes, x)
    ensures Chosen(axes, vs) && Chosen(axes, ws) && Text(axes, vs) == x + Sep(axes[0].key) + Text(axes, ws)
    decreases |axes|, 1
  {
    hide Text, Sep;
    var k := Sep(axes[0].key);
    if y :| x + k + y in axes[0].values && Realigns(axes, y) {
      var rest;
      rest, ws := RealignFound(axes, y);
      vs := [x + k + y] + rest;
      ChosenPrepend(axes, x + k + y, rest);
      TextStep(axes, vs);
      if |axes| > 1 { Rebracket(x, k, y, Sep(axes[1].key), Text(axes[1..], rest)); }
    } else {
      var v, w, y :| v in axes[0].values && w in axes[0].values && x == v + Sep(axes[1].key) + y
                     && Shifts(axes[1..], y + k + w);
      var vs', ws' := ShiftFound(axes[1..], y + k + w);
      vs, ws := [v] + vs', [w] + ws';
      ChosenPrepend(axes, v, vs');
      ChosenPrepend(axes, w, ws');
      TextStep(axes, vs);
      TextStep(axes, ws);
      Rebracket2(v, Sep(axes[1].key), y, k, w, Text(axes[1..], ws'));
    }
  }

  lemma Rebracket(x: string, k: string, y: string, l: string, t: string)
    ensures (x + k + y) + l + t == x + k + (y + l + t)
  {
  }

  lemma Rebracket2(v: string, l: string, y: string, k: string, w: string, t: string)
    ensures v + l + ((y + k + w) + l + t) == (v + l + y) + k + (w + l + t)
  {
    assert (y + k + w) + l + t == y + k + (w + l + t);
    assert v + l + (y + k + (w + l + t)) == (v + l + y) + k + (w + l + t);
  }

  lemma {:induction false} RealignFound(axes: seq<Axis>, y: string) returns (rest: seq<string>, ws: seq<string>)
    requires |axes| > 0 && NoEmptyAxis(axes) && Realigns(axes, y)
    ensures Chosen(axes[1..], rest) && Chosen(axes, ws) && Continued(axes, y, rest) == Text(axes, ws)
    decreases |axes|, 0
  {
    hide Text, Sep;
    if y in axes[0].values {
      rest := SomeChoice(axes[1..]);
      ws := [y] + rest;
      ChosenPrepend(axes, y, rest);
      TextStep(axes, ws);
    } else {
      var l := Sep(axes[1].key);
      var w, z :| w in axes[0].values && (w == y + l + z || y == w + l + z) && Shifts(axes[1..], z);
      var vs', ws' := ShiftFound(axes[1..], z);
      if w == y + l + z {
        rest, ws := vs', [w] + ws';
        Rebracket(y, l, z, l, Text(axes[1..], ws'));
      } else {
        rest, ws := ws', [w] + vs';
        Rebracket(w, l, z, l, Text(axes[1..], ws'));
      }
      ChosenPrepend(axes, w, ws[1..]);
      assert ws == [w] + ws[1..];
      TextStep(axes, ws);
    }
  }

  // ------------------------------------------------------------ nothing else

  lemma KeysTail(axes: seq<Axis>)
    requires |axes| > 1 && PlainKeys(KeysOf(axes))
    ensures PlainKeys(KeysOf(axes[1..])) && PlainKey(axes[0].key) && PlainKey(axes[1].key)
  {
    assert KeysOf(axes)[1..] == KeysOf(axes[1..]);
    TailKeys(KeysOf(axes));
  }

  lemma {:induction false} ShiftIsFound(axes: seq<Axis>, x: string, vs: seq<string>, ws: seq<string>)
    requires |axes| > 0 && PlainKeys(KeysOf(axes)) && Chosen(axes, vs) && Chosen(axes, ws)
    requires Text(axes, vs) == x + Sep(axes[0].key) + Text(axes, ws)
    ensures Shifts(axes, x)
    decreases |axes|, 1
  {
    hide Text, Sep, PlainKeys, PlainKey, Realigns;
    var k, t := Sep(axes[0].key), Text(axes, vs);
    TextStep(axes, vs);
    TextStep(axes, ws);
    if |axes| == 1 {
      YisValue(axes, ws[0]);
    } else {
      KeysTail(axes);
      var l, rest := Sep(axes[1].key), Text(axes[1..], vs[1..]);
      ChosenTail(axes, vs);
      ChosenTail(axes, ws);
      if |x| + |k| <= |vs[0]| {
        LongerHead(t, x, k, Text(axes, ws), vs[0], l, rest);
        RealignIsFound(axes, vs[0][|x| + |k|..], vs[1..], ws);
      } else {
        LaterShift(axes, x, vs, ws);
        var y := x[|vs[0]| + |l|..];
        ShiftIsFound(axes[1..], y + k + ws[0], vs[1..], ws[1..]);
      }
    }
  }

  lemma YisValue(axes: seq<Axis>, y: string)
    requires |axes| > 0 && y in axes[0].values
    ensures Realigns(axes, y)
  {
  }

  /** The shifted separator lies behind the next one. */
  lemma LaterShift(axes: seq<Axis>, x: string, vs: seq<string>, ws: seq<string>)
    requires |axes| == |vs| == |ws| > 1 && PlainKeys(KeysOf(axes))
    requires Text(axes, vs) == x + Sep(axes[0].key) + Text(axes, ws) && |x| + |Sep(axes[0].key)| > |vs[0]|
    ensures |vs[0]| + |Sep(axes[1].key)| <= |x|
    ensures x == vs[0] + Sep(axes[1].key) + x[|vs[0]| + |Sep(axes[1].key)|..]
    ensures Text(axes[1..], vs[1..])
         == (x[|vs[0]| + |Sep(axes[1].key)|..] + Sep(axes[0].key) + ws[0]) + Sep(axes[1].key) + Text(axes[1..], ws[1..])
  {
    hide Sep, PlainKeys, Body;
    assert KeysOf(axes)[1..] == KeysOf(axes[1..]);
    ShiftedOn(KeysOf(axes), vs, x, ws);
    TextStep(axes, vs);
    LongerHead(Text(axes, vs), vs[0], Sep(axes[1].key), Text(axes[1..], vs[1..]), x, Sep(axes[0].key), Text(axes, ws));
  }

  lemma {:induction false} RealignIsFound(axes: seq<Axis>, y: string, rest: seq<string>, ws: seq<string>)
    requires |axes| > 1 && PlainKeys(KeysOf(axes)) && Chosen(axes[1..], rest) && Chosen(axes, ws)
    requires y + Sep(axes[1].key) + Text(axes[1..], rest) == Text(axes, ws)
    ensures Realigns(axes, y)
    decreases |axes|, 0
  {
    hide Text, Sep, PlainKeys, PlainKey, Shifts;
    KeysTail(axes);
    TextStep(axes, ws);
    ChosenTail(axes, ws);
    var k, l, t := axes[1].key, Sep(axes[1].key), Text(axes, ws);
    var b, c := Text(axes[1..], rest), Text(axes[1..], ws[1..]);
    if |y| == |ws[0]| {
      SameHead(t, y, ws[0], l, b, c);
    } else if |y| < |ws[0]| {
      HeadContains(t, k, y, b, ws[0], c);
      LongerHead(t, y, l, b, ws[0], l, c);
      ShiftIsFound(axes[1..], ws[0][|y| + |l|..], rest, ws[1..]);
    } else {
      HeadContains(t, k, ws[0], c, y, b);
      LongerHead(t, ws[0], l, c, y, l, b);
      ShiftIsFound(axes[1..], y[|ws[0]| + |l|..], ws[1..], rest);
    }
  }

  // --------------------------------------------------------------- the result

  lemma {:induction false} CollisionFound(axes: seq<Axis>) returns (vs: seq<string>, ws: seq<string>)
    requires NoEmptyAxis(axes) && Collides(axes)
    ensures Chosen(axes, vs) && Chosen(axes, ws) && vs != ws && |axes| > 0 && Text(axes, vs) == Text(axes, ws)
  {
    hide Text, Sep, Shifts;
    var v, w, vs', ws';
    if Collides(axes[1..]) {
      vs', ws' := CollisionFound(axes[1..]);
      v, w := axes[0].values[0], axes[0].values[0];
      assert v in axes[0].values;
    } else {
      var x;
      v, w, x :| v in axes[0].values && w in axes[0].values && w == v + Sep(axes[1].key) + x && Shifts(axes[1..], x);
      vs', ws' := ShiftFound(axes[1..], x);
      Rebracket(v, Sep(axes[1].key), x, Sep(axes[1].key), Text(axes[1..], ws'));
      SepIsNotEmpty(axes[1].key);
    }
    vs, ws := [v] + vs', [w] + ws';
    ChosenPrepend(axes, v, vs');
    ChosenPrepend(axes, w, ws');
    TextStep(axes, vs);
    TextStep(axes, ws);
    assert vs[0] == v && ws[0] == w && vs[1..] == vs' && ws[1..] == ws';
  }

  lemma SepIsNotEmpty(k: string)
    ensures |Sep(k)| > 0
  {
  }

  lemma {:induction false} CollisionIsFound(axes: seq<Axis>, vs: seq<string>, ws: seq<string>)
    requires |axes| > 0 && PlainKeys(KeysOf(axes)) && Chosen(axes, vs) && Chosen(axes, ws)
    requires vs != ws && Text(axes, vs) == Text(axes, ws)
    ensures Collides(axes)
  {
    hide Text, Sep, PlainKeys, PlainKey, Shifts;
    TextStep(axes, vs);
    TextStep(axes, ws);
    ChosenTail(axes, vs);
    ChosenTail(axes, ws);
    if |axes| > 1 {
      KeysTail(axes);
      var l, t, b, c := Sep(axes[1].key), Text(axes, vs), Text(axes[1..], vs[1..]), Text(axes[1..], ws[1..]);
      if |vs[0]| == |ws[0]| {
        SameHead(t, vs[0], ws[0], l, b, c);
        CollisionIsFound(axes[1..], vs[1..], ws[1..]);
      } else if |vs[0]| < |ws[0]| {
        HeadContains(t, axes[1].key, vs[0], b, ws[0], c);
        LongerHead(t, vs[0], l, b, ws[0], l, c);
        ShiftIsFound(axes[1..], ws[0][|vs[0]| + |l|..], vs[1..], ws[1..]);
      } else {
        HeadContains(t, axes[1].key, ws[0], c, vs[0], b);
        LongerHead(t, ws[0], l, c, vs[0], l, b);
        ShiftIsFound(axes[1..], vs[0][|ws[0]| + |l|..], ws[1..], vs[1..]);
      }
    }
  }
}
