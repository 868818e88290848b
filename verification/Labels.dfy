/** Exactly which combinations share their label with another one over the same keys. */
module Labels {
  import opened Strings
  import opened Matrix

  /** What stands between two values of a label: the separator and the next key. */
  function Sep(k: string): string {
    ", " + k + "="
  }

  ghost predicate At(t: string, p: nat, s: string) {
    p + |s| <= |t| && t[p..p + |s|] == s
  }

  ghost predicate Has(t: string, s: string) {
    exists p: nat :: At(t, p, s)
  }

  ghost predicate PlainKeys(ks: seq<string>) {
    (forall k :: k in ks ==> PlainKey(k)) && forall i, j :: 0 <= i < j < |ks| ==> ks[i] != ks[j]
  }

  /** A label without its first key. */
  function Body(ks: seq<string>, vs: seq<string>): string
    requires |ks| == |vs| > 0
  {
    if |ks| == 1 then vs[0] else vs[0] + Sep(ks[1]) + Body(ks[1..], vs[1..])
  }

  /** A value contains the text that leads over to its own key, or to the next one. */
  ghost predicate ClashAt(ks: seq<string>, vs: seq<string>, i: nat)
    requires 0 < i < |ks| == |vs|
  {
    Has(vs[i - 1], Sep(ks[i])) || Has(vs[i], Sep(ks[i]))
  }

  ghost predicate Ambiguous(ks: seq<string>, vs: seq<string>)
    requires |ks| == |vs|
  {
    exists i: nat :: 0 < i < |ks| && ClashAt(ks, vs, i)
  }

  // ------------------------------------------------------------- separators

  lemma SepShape(k: string)
    requires PlainKey(k)
    ensures |Sep(k)| == |k| + 3 && Sep(k)[|k| + 2] == '='
    ensures forall i :: 0 <= i < |k| + 2 ==> Sep(k)[i] != '='
    ensures forall i :: 0 < i && i + 1 < |k| + 3 ==> !(Sep(k)[i] == ',' && Sep(k)[i + 1] == ' ')
    ensures Sep(k)[0] == ',' && Sep(k)[1] == ' '
    ensures Sep(k)[2..|k| + 2] == k
  {
    forall i | 0 <= i < |k| ensures Sep(k)[i + 2] == k[i] && k[i] != '=' { assert k[i] in k; }
    forall i | 0 < i && i + 1 < |k| + 3 ensures !(Sep(k)[i] == ',' && Sep(k)[i + 1] == ' ') {
      if 2 <= i && i + 1 < |k| + 2 {
        assert Sep(k)[i] == k[i - 2] && Sep(k)[i + 1] == k[i - 1];
      }
    }
  }

  lemma AtChar(t: string, p: nat, s: string, i: nat)
    requires At(t, p, s) && i < |s|
    ensures t[p + i] == s[i]
  {
    assert t[p..p + |s|][i] == t[p + i];
  }

  /** Separators never overlap: the only '=' of each is its last character. */
  lemma SepsDisjoint(t: string, p: nat, k: string, q: nat, l: string)
    requires PlainKey(k) && PlainKey(l) && At(t, p, Sep(k)) && At(t, q, Sep(l)) && p <= q
    ensures p + |Sep(k)| <= q || (p == q && k == l)
  {
    SepShape(k);
    SepShape(l);
    hide Sep, PlainKey, At;
    var e, f := p + |k| + 2, q + |l| + 2;
    AtChar(t, p, Sep(k), |k| + 2);
    AtChar(t, q, Sep(l), |l| + 2);
    if q <= e {
      if e < f {
        AtChar(t, q, Sep(l), e - q);
        assert false;
      } else if f < e {
        AtChar(t, p, Sep(k), f - p);
        assert false;
      } else {
        AtChar(t, p, Sep(k), q - p);
        AtChar(t, p, Sep(k), q + 1 - p);
        AtChar(t, q, Sep(l), 0);
        AtChar(t, q, Sep(l), 1);
        SameSep(t, p, k, l);
      }
    }
  }

  lemma SameSep(t: string, p: nat, k: string, l: string)
    requires PlainKey(k) && PlainKey(l) && At(t, p, Sep(k)) && At(t, p, Sep(l)) && |k| == |l|
    ensures k == l
  {
    SepShape(k);
    SepShape(l);
  }

  // --------------------------------------------------------- only if it clashes

  lemma TailKeys(ks: seq<string>)
    requires PlainKeys(ks) && |ks| > 1
    ensures PlainKeys(ks[1..]) && PlainKey(ks[0]) && PlainKey(ks[1]) && ks[0] != ks[1]
  {
  }

  lemma TailAmbiguous(ks: seq<string>, vs: seq<string>)
    requires |ks| == |vs| > 1
    ensures Has(vs[0], Sep(ks[1])) || Has(vs[1], Sep(ks[1])) || Ambiguous(ks[1..], vs[1..]) ==> Ambiguous(ks, vs)
  {
    hide Has, Sep;
    if Has(vs[0], Sep(ks[1])) || Has(vs[1], Sep(ks[1])) { assert ClashAt(ks, vs, 1); }
    if Ambiguous(ks[1..], vs[1..]) {
      var i: nat :| 0 < i < |ks| - 1 && ClashAt(ks[1..], vs[1..], i);
      assert ClashAt(ks, vs, i + 1);
    }
  }

  lemma InPrefix(t: string, v: string, rest: string, p: nat, s: string)
    requires t == v + rest && At(t, p, s) && p + |s| <= |v|
    ensures Has(v, s)
  {
    assert v[p..p + |s|] == t[p..p + |s|];
    assert At(v, p, s);
  }

  lemma AtMiddle(a: string, s: string, b: string)
    ensures At(a + s + b, |a|, s)
  {
  }

  /** Two readings of a text as head, separator, tail: the shorter head is a part of the
      longer one. */
  lemma LongerHead(t: string, a: string, s: string, b: string, x: string, r: string, c: string)
    requires t == a + s + b == x + r + c && |a| + |s| <= |x|
    ensures x == a + s + x[|a| + |s|..] && b == x[|a| + |s|..] + r + c
  {
    var n := |a| + |s|;
    assert t == x + (r + c);
    assert t[..n] == a + s && x[..n] == t[..n];
    assert t[n..] == b && t[n..] == x[n..] + (r + c);
  }

  /** What the values from `ks[0]` on look like when a separator stands one place too late. */
  lemma {:induction false} Shifted(ks: seq<string>, vs: seq<string>, x: string, ws: seq<string>)
    requires |ks| == |vs| == |ws| > 0 && PlainKeys(ks)
    requires Body(ks, vs) == x + Sep(ks[0]) + Body(ks, ws)
    ensures Has(vs[0], Sep(ks[0])) || Ambiguous(ks, vs)
    decreases |ks|
  {
    hide Has, At, Sep, PlainKey, Ambiguous, PlainKeys;
    var t := Body(ks, vs);
    AtMiddle(x, Sep(ks[0]), Body(ks, ws));
    if |ks| == 1 {
      InPrefix(t, vs[0], "", |x|, Sep(ks[0]));
    } else {
      TailKeys(ks);
      var rest := Body(ks[1..], vs[1..]);
      AtMiddle(vs[0], Sep(ks[1]), rest);
      if |x| + |Sep(ks[0])| <= |vs[0]| {
        assert t == vs[0] + (Sep(ks[1]) + rest);
        InPrefix(t, vs[0], Sep(ks[1]) + rest, |x|, Sep(ks[0]));
      } else {
        ShiftedOn(ks, vs, x, ws);
        var y := x[|vs[0]| + |Sep(ks[1])|..] + Sep(ks[0]) + ws[0];
        Shifted(ks[1..], vs[1..], y, ws[1..]);
        TailAmbiguous(ks, vs);
      }
    }
  }

  /** The separator lies behind the next one, so the rest is shifted again. */
  lemma ShiftedOn(ks: seq<string>, vs: seq<string>, x: string, ws: seq<string>)
    requires |ks| == |vs| == |ws| > 1 && PlainKeys(ks)
    requires Body(ks, vs) == x + Sep(ks[0]) + Body(ks, ws) && |x| + |Sep(ks[0])| > |vs[0]|
    ensures |vs[0]| + |Sep(ks[1])| <= |x|
    ensures Body(ks[1..], vs[1..])
         == (x[|vs[0]| + |Sep(ks[1])|..] + Sep(ks[0]) + ws[0]) + Sep(ks[1]) + Body(ks[1..], ws[1..])
  {
    hide At, Sep, PlainKey, PlainKeys;
    var t := Body(ks, vs);
    var rest, tail := Body(ks[1..], vs[1..]), Body(ks[1..], ws[1..]);
    TailKeys(ks);
    AtMiddle(x, Sep(ks[0]), Body(ks, ws));
    AtMiddle(vs[0], Sep(ks[1]), rest);
    if |x| <= |vs[0]| {
      SepsDisjoint(t, |x|, ks[0], |vs[0]|, ks[1]);
    } else {
      SepsDisjoint(t, |vs[0]|, ks[1], |x|, ks[0]);
    }
    LongerHead(t, vs[0], Sep(ks[1]), rest, x, Sep(ks[0]), Body(ks, ws));
    Regroup(x[|vs[0]| + |Sep(ks[1])|..], Sep(ks[0]), ws[0], Sep(ks[1]), tail);
  }

  lemma Regroup(a: string, b: string, c: string, d: string, e: string)
    ensures a + b + (c + d + e) == (a + b + c) + d + e
  {
  }

  /** A second reading of a label means that some value contains a separator. */
  lemma {:induction false} SecondReading(ks: seq<string>, vs: seq<string>, ws: seq<string>)
    requires |ks| == |vs| == |ws| > 0 && PlainKeys(ks) && Body(ks, vs) == Body(ks, ws) && vs != ws
    ensures Ambiguous(ks, vs)
    decreases |ks|
  {
    hide Has, At, Sep, PlainKey, Ambiguous, PlainKeys;
    if |ks| > 1 {
      var t := Body(ks, vs);
      TailKeys(ks);
      TailAmbiguous(ks, vs);
      assert vs == [vs[0]] + vs[1..] && ws == [ws[0]] + ws[1..];
      if |vs[0]| == |ws[0]| {
        SameHead(t, vs[0], ws[0], Sep(ks[1]), Body(ks[1..], vs[1..]), Body(ks[1..], ws[1..]));
        SecondReading(ks[1..], vs[1..], ws[1..]);
      } else if |ws[0]| < |vs[0]| {
        HeadContains(t, ks[1], ws[0], Body(ks[1..], ws[1..]), vs[0], Body(ks[1..], vs[1..]));
      } else {
        HeadContains(t, ks[1], vs[0], Body(ks[1..], vs[1..]), ws[0], Body(ks[1..], ws[1..]));
        var x := ws[0][|vs[0]| + |Sep(ks[1])|..];
        Shifted(ks[1..], vs[1..], x, ws[1..]);
      }
    }
  }

  lemma SameHead(t: string, v: string, w: string, s: string, b: string, c: string)
    requires t == v + s + b == w + s + c && |v| == |w|
    ensures v == w && b == c
  {
    assert v == t[..|v|] && w == t[..|v|];
    assert b == t[|v| + |s|..] && c == t[|v| + |s|..];
  }

  /** The separator after the shorter head lies wholly inside the longer one. */
  lemma HeadContains(t: string, k: string, v: string, b: string, w: string, c: string)
    requires PlainKey(k) && t == v + Sep(k) + b == w + Sep(k) + c && |v| < |w|
    ensures Has(w, Sep(k)) && |v| + |Sep(k)| <= |w|
    ensures b == w[|v| + |Sep(k)|..] + Sep(k) + c
  {
    hide At, Has, Sep, PlainKey;
    AtMiddle(v, Sep(k), b);
    AtMiddle(w, Sep(k), c);
    SepsDisjoint(t, |v|, k, |w|, k);
    assert t == w + (Sep(k) + c);
    InPrefix(t, w, Sep(k) + c, |v|, Sep(k));
    LongerHead(t, v, Sep(k), b, w, Sep(k), c);
  }

  // ---------------------------------------------------------- whenever it clashes

  lemma SplitAt(t: string, s: string) returns (a: string, b: string)
    requires Has(t, s)
    ensures t == a + s + b
  {
    var p: nat :| At(t, p, s);
    a, b := t[..p], t[p + |s|..];
  }

  /** A value that contains a separator gives a second reading: the text is cut there
      instead. */
  lemma {:induction false} Reread(ks: seq<string>, vs: seq<string>, i: nat) returns (ws: seq<string>)
    requires 0 < i < |ks| == |vs| && ClashAt(ks, vs, i)
    ensures |ws| == |vs| && ws != vs && Body(ks, ws) == Body(ks, vs)
    decreases i
  {
    hide Has, Sep;
    if i == 1 {
      ws := RereadFirst(ks, vs);
    } else {
      assert ClashAt(ks[1..], vs[1..], i - 1);
      var rest := Reread(ks[1..], vs[1..], i - 1);
      ws := [vs[0]] + rest;
      assert ws[1..] == rest;
    }
  }

  lemma RereadFirst(ks: seq<string>, vs: seq<string>) returns (ws: seq<string>)
    requires 1 < |ks| == |vs| && ClashAt(ks, vs, 1)
    ensures |ws| == |vs| && ws != vs && Body(ks, ws) == Body(ks, vs)
  {
    hide Has, Body;
    var s, tail := Sep(ks[1]), vs[1..];
    if Has(vs[0], s) {
      var a, b := SplitAt(vs[0], s);
      ws := [a, b + s + vs[1]] + vs[2..];
      BodyHead(ks[1..], b + s, tail, ws[1..]);
      Regroup3(a, s, b, s, Body(ks[1..], tail));
    } else {
      var a, b := SplitAt(vs[1], s);
      ws := [vs[0] + s + a, b] + vs[2..];
      BodyHead(ks[1..], a + s, ws[1..], tail);
      Regroup3(vs[0], s, a, s, Body(ks[1..], ws[1..]));
    }
    assert |ws[0]| != |vs[0]|;
    BodyStep(ks, vs);
    BodyStep(ks, ws);
  }

  lemma Regroup3(a: string, s: string, b: string, r: string, c: string)
    ensures (a + s + b) + r + c == a + s + ((b + r) + c)
  {
  }

  lemma BodyStep(ks: seq<string>, vs: seq<string>)
    requires 1 < |ks| == |vs|
    ensures Body(ks, vs) == vs[0] + Sep(ks[1]) + Body(ks[1..], vs[1..])
  {
  }

  lemma PutBefore(u: string, v: string, s: string, rest: string)
    ensures (u + v) + s + rest == u + (v + s + rest)
  {
  }

  /** What is put before the first value comes before the whole text. */
  lemma BodyHead(ks: seq<string>, u: string, vs: seq<string>, ws: seq<string>)
    requires |ks| == |vs| == |ws| > 0 && ws[0] == u + vs[0] && ws[1..] == vs[1..]
    ensures Body(ks, ws) == u + Body(ks, vs)
  {
    if |ks| > 1 {
      hide Body;
      BodyStep(ks, vs);
      BodyStep(ks, ws);
      PutBefore(u, vs[0], Sep(ks[1]), Body(ks[1..], vs[1..]));
    }
  }

  // -------------------------------------------------------------- combinations

  function ValuesOf(ks: seq<string>, c: Combo): (r: seq<string>)
    requires forall k :: k in ks ==> k in c
    ensures |r| == |ks| && forall i :: 0 <= i < |ks| ==> r[i] == c[ks[i]]
  {
    seq(|ks|, i requires 0 <= i < |ks| => c[ks[i]])
  }

  lemma {:induction false} JoinIsBody(ks: seq<string>, c: Combo)
    requires |ks| > 0 && forall k :: k in ks ==> k in c
    ensures Join(PartsOf(ks, c)) == ks[0] + "=" + Body(ks, ValuesOf(ks, c))
  {
    var parts, vs := PartsOf(ks, c), ValuesOf(ks, c);
    if |ks| > 1 {
      JoinIsBody(ks[1..], c);
      assert parts[1..] == PartsOf(ks[1..], c) && vs[1..] == ValuesOf(ks[1..], c);
      JoinStep(ks[0], vs[0], ks[1], Body(ks[1..], vs[1..]));
    }
  }

  lemma JoinStep(k: string, v: string, l: string, rest: string)
    ensures PartOf(k, v) + ", " + (l + "=" + rest) == k + "=" + (v + Sep(l) + rest)
  {
  }

  /** `d` is another combination over the same keys, with the same label. */
  ghost predicate Confused(c: Combo, d: Combo) {
    d != c && d.Keys == c.Keys && exists text :: IsLabel(c, text) && IsLabel(d, text)
  }

  /** A combination has one label, however Go iterates over it. */
  lemma LabelUnique(c: Combo, t: string, u: string)
    requires IsLabel(c, t) && IsLabel(c, u)
    ensures t == u
  {
    forall x, y | Lists(x, c.Keys) && Lists(y, c.Keys) ensures x == y { SortedUnique(x, y); }
  }

  lemma LabelIs(ks: seq<string>, c: Combo)
    requires Lists(ks, c.Keys) && forall k :: k in ks ==> k in c
    ensures IsLabel(c, Join(PartsOf(ks, c)))
    ensures forall t :: IsLabel(c, t) ==> t == Join(PartsOf(ks, c))
  {
    var text := Join(PartsOf(ks, c));
    assert IsLabel(c, text);
    hide IsLabel;
    forall t | IsLabel(c, t) ensures t == text { LabelUnique(c, t, text); }
  }

  /** The combination over `ks` with the given values. */
  lemma Combination(ks: seq<string>, vs: seq<string>) returns (d: Combo)
    requires |ks| == |vs| && forall i, j :: 0 <= i < j < |ks| ==> ks[i] != ks[j]
    ensures (forall k :: k in ks <==> k in d) && ValuesOf(ks, d) == vs
  {
    d := map i | 0 <= i < |ks| :: ks[i] := vs[i];
  }

  lemma OtherValues(ks: seq<string>, c: Combo, d: Combo)
    requires (forall k :: k in ks <==> k in c) && c.Keys == d.Keys && c != d
    ensures ValuesOf(ks, c) != ValuesOf(ks, d)
  {
    var k :| k in c && c[k] != d[k];
    var i :| 0 <= i < |ks| && ks[i] == k;
    assert ValuesOf(ks, c)[i] != ValuesOf(ks, d)[i];
  }

  /** Labels over the same keys agree exactly where the bodies do. */
  lemma SameLabelSameBody(ks: seq<string>, c: Combo, d: Combo)
    requires |ks| > 0 && Lists(ks, c.Keys) && c.Keys == d.Keys && forall k :: k in ks <==> k in c
    ensures (exists t :: IsLabel(c, t) && IsLabel(d, t)) <==> Body(ks, ValuesOf(ks, c)) == Body(ks, ValuesOf(ks, d))
  {
    hide IsLabel, Lists;
    LabelIs(ks, c);
    LabelIs(ks, d);
    JoinIsBody(ks, c);
    JoinIsBody(ks, d);
    var x, y, h := Body(ks, ValuesOf(ks, c)), Body(ks, ValuesOf(ks, d)), ks[0] + "=";
    assert (h + x)[|h|..] == x && (h + y)[|h|..] == y;
  }

  /** Exactly when a label is not unique: a combination with identifier-like keys shares it
      with another combination over the same keys if and only if, for two neighbouring keys,
      one of their values contains the separator followed by the second key and "=". */
  lemma ConfusedIffAmbiguous(ks: seq<string>, c: Combo)
    requires Lists(ks, c.Keys) && PlainKeys(ks) && forall k :: k in ks <==> k in c
    ensures (exists d :: Confused(c, d)) <==> Ambiguous(ks, ValuesOf(ks, c))
  {
    hide IsLabel, Lists, Ambiguous, PlainKey;
    var vs := ValuesOf(ks, c);
    if d :| Confused(c, d) { ConfusedIsAmbiguous(ks, c, d); }
    if Ambiguous(ks, vs) { var d := LabelsCanCollide(ks, c); }
  }

  lemma ConfusedIsAmbiguous(ks: seq<string>, c: Combo, d: Combo)
    requires Lists(ks, c.Keys) && PlainKeys(ks) && (forall k :: k in ks <==> k in c) && Confused(c, d)
    ensures Ambiguous(ks, ValuesOf(ks, c))
  {
    hide IsLabel, Lists, Ambiguous, PlainKeys;
    OtherValues(ks, c, d);
    SameLabelSameBody(ks, c, d);
    SecondReading(ks, ValuesOf(ks, c), ValuesOf(ks, d));
  }

  /** With such a value there is always another combination of the same label. */
  lemma LabelsCanCollide(ks: seq<string>, c: Combo) returns (d: Combo)
    requires Lists(ks, c.Keys) && PlainKeys(ks) && (forall k :: k in ks <==> k in c) && Ambiguous(ks, ValuesOf(ks, c))
    ensures Confused(c, d)
  {
    hide IsLabel, Lists, ClashAt, PlainKey, Body;
    var vs := ValuesOf(ks, c);
    var i: nat :| 0 < i < |ks| && ClashAt(ks, vs, i);
    var ws := Reread(ks, vs, i);
    d := Combination(ks, ws);
    assert d.Keys == c.Keys;
    SameLabelSameBody(ks, c, d);
  }

  /** Labels are unique over one set of keys wherever no value clashes. */
  lemma LabelDetermines(ks: seq<string>, c: Combo, d: Combo, text: string)
    requires Lists(ks, c.Keys) && PlainKeys(ks) && (forall k :: k in ks <==> k in c) && c.Keys == d.Keys
    requires IsLabel(c, text) && IsLabel(d, text) && !Ambiguous(ks, ValuesOf(ks, c))
    ensures c == d
  {
    hide IsLabel, Lists, Ambiguous, PlainKeys;
    if c != d {
      assert Confused(c, d);
      ConfusedIffAmbiguous(ks, c);
    }
  }

  /** Separator-free values never clash. */
  lemma PlainIsUnambiguous(ks: seq<string>, c: Combo)
    requires PlainCombo(c) && forall k :: k in ks ==> k in c
    ensures !Ambiguous(ks, ValuesOf(ks, c))
  {
    var vs := ValuesOf(ks, c);
    forall i: nat, k | i < |ks| ensures !Has(vs[i], Sep(k)) {
      assert ks[i] in ks && IsPlain(ks[i], vs[i]);
      NoSepInside(vs[i], k);
    }
  }

  lemma NoSepInside(v: string, k: string)
    requires NoSeparator(v)
    ensures !Has(v, Sep(k))
  {
    if p: nat :| At(v, p, Sep(k)) {
      AtChar(v, p, Sep(k), 0);
      AtChar(v, p, Sep(k), 1);
    }
  }
}
