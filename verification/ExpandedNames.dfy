/** When the expanded names of a workflow's base jobs are all different. */
module ExpandedNames {
  import opened Graph
  import opened Strings
  import opened Expansion

  ghost predicate NoRepeat(names: seq<string>) {
    forall i, j :: 0 <= i < j < |names| ==> names[i] != names[j]
  }

  /** No base job's expansion repeats a name, and no two of the list share one. */
  ghost predicate NamesApart(base: seq<Node>, exp: Combinations) {
    (forall i :: 0 <= i < |base| && base[i].name in exp ==> NoRepeat(exp[base[i].name]))
    && forall i, j, x :: 0 <= i < j < |base| && Owns(exp, base[i].name, x) ==> !Owns(exp, base[j].name, x)
  }

  lemma AppendNodes(a: seq<Node>, b: seq<Node>)
    ensures Distinct(a + b) <==> Distinct(a) && Distinct(b) && Names(a) !! Names(b)
  {
    var all := a + b;
    assert forall i :: 0 <= i < |a| ==> all[i] == a[i];
    assert forall k :: 0 <= k < |b| ==> all[|a| + k] == b[k];
    if Distinct(all) {
      DistinctParts(a, b);
      forall i, j | 0 <= i < j < |b| ensures b[i].name != b[j].name {
        assert all[|a| + i].name != all[|a| + j].name;
      }
    }
    if Distinct(a) && Distinct(b) && Names(a) !! Names(b) {
      forall i, j | 0 <= i < j < |all| ensures all[i].name != all[j].name {
        if i < |a| <= j {
          var k := j - |a|;
          assert a[i] in a && b[k] in b && all[j] == b[k];
          assert a[i].name in Names(a) && b[k].name in Names(b);
        }
      }
    }
  }

  lemma ExpandNamesDistinct(names: seq<string>, depends: seq<string>)
    ensures Distinct(ExpandNames(names, depends)) <==> NoRepeat(names)
    ensures forall x :: x in Names(ExpandNames(names, depends)) <==> x in names
  {
    var nodes := ExpandNames(names, depends);
    assert forall i :: 0 <= i < |names| ==> nodes[i].name == names[i];
    forall x ensures x in Names(nodes) <==> x in names {
      if x in names {
        var i :| 0 <= i < |names| && names[i] == x;
        assert nodes[i] in nodes;
      }
    }
    if Distinct(nodes) {
      forall i, j | 0 <= i < j < |names| ensures names[i] != names[j] { assert nodes[i].name != nodes[j].name; }
    }
  }

  /** One of the first `n` base jobs owns the name. */
  ghost predicate OwnedBefore(base: seq<Node>, n: nat, exp: Combinations, x: string)
    requires n <= |base|
  {
    exists i :: 0 <= i < n && Owns(exp, base[i].name, x)
  }

  lemma {:induction false} NamesOfExpand(base: seq<Node>, exp: Combinations, x: string)
    ensures x in Names(Expand(base, exp)) <==> exists i :: 0 <= i < |base| && Owns(exp, base[i].name, x)
  {
    if x in Names(Expand(base, exp)) {
      var m :| m in Expand(base, exp) && m.name == x;
      ExpandMembers(base, exp, m);
      var n :| n in base && n.name in exp && m.name in exp[n.name] && m.depends == ResolveNeeds(n.depends, exp);
      var i :| 0 <= i < |base| && base[i] == n;
      assert Owns(exp, base[i].name, x);
    }
    if i :| 0 <= i < |base| && Owns(exp, base[i].name, x) {
      assert base[i] in base;
      ExpandNamesMembers(base, exp, base[i].name, x);
    }
  }

  lemma ApartNext(base: seq<Node>, exp: Combinations)
    requires |base| > 0
    ensures var n := |base| - 1;
            NamesApart(base, exp) <==>
              NamesApart(base[..n], exp) && (base[n].name in exp ==> NoRepeat(exp[base[n].name]))
              && forall i, x :: 0 <= i < n && Owns(exp, base[i].name, x) ==> !Owns(exp, base[n].name, x)
  {
    hide NoRepeat;
    var n := |base| - 1;
    assert forall i :: 0 <= i < n ==> base[..n][i] == base[i];
  }

  /** The names of the expanded graph are distinct exactly when each base job's own are and no
      two base jobs share one. */
  lemma {:induction false} DistinctIffNamesApart(base: seq<Node>, exp: Combinations)
    ensures Distinct(Expand(base, exp)) <==> NamesApart(base, exp)
  {
    hide Distinct, NamesApart, NoRepeat;
    if |base| == 0 {
      NothingApart(exp);
    } else {
      var n := |base| - 1;
      DistinctIffNamesApart(base[..n], exp);
      ApartNext(base, exp);
      assert forall i :: 0 <= i < n ==> base[..n][i] == base[i];
      forall x ensures x in Names(Expand(base[..n], exp)) <==> OwnedBefore(base, n, exp, x) {
        NamesOfExpand(base[..n], exp, x);
      }
      LastIsApart(base, exp);
    }
  }

  lemma NothingApart(exp: Combinations)
    ensures Distinct(Expand([], exp)) && NamesApart([], exp)
  {
  }

  lemma DisjointIff(base: seq<Node>, n: nat, exp: Combinations, a: string, before: set<string>, last: set<string>)
    requires n <= |base| && a in exp && forall x :: x in before <==> OwnedBefore(base, n, exp, x)
    requires forall x :: x in last <==> x in exp[a]
    ensures before !! last <==> forall i, x :: 0 <= i < n && Owns(exp, base[i].name, x) ==> !Owns(exp, a, x)
  {
    if before !! last {
      forall i, x | 0 <= i < n && Owns(exp, base[i].name, x) ensures !Owns(exp, a, x) {
        assert OwnedBefore(base, n, exp, x);
      }
    }
    if x :| x in before && x in last {
      var i :| 0 <= i < n && Owns(exp, base[i].name, x);
      assert Owns(exp, a, x);
    }
  }

  lemma LastIsApart(base: seq<Node>, exp: Combinations)
    requires |base| > 0
    requires var n := |base| - 1;
             var init := Expand(base[..n], exp);
             forall x :: x in Names(init) <==> OwnedBefore(base, n, exp, x)
    ensures var n := |base| - 1;
            Distinct(Expand(base, exp)) <==>
              Distinct(Expand(base[..n], exp)) && (base[n].name in exp ==> NoRepeat(exp[base[n].name]))
              && forall i, x :: 0 <= i < n && Owns(exp, base[i].name, x) ==> !Owns(exp, base[n].name, x)
  {
    hide Distinct, NoRepeat, Names, ExpandNames;
    var n := |base| - 1;
    var a := base[n].name;
    if a in exp {
      var last := ExpandNames(exp[a], ResolveNeeds(base[n].depends, exp));
      AppendNodes(Expand(base[..n], exp), last);
      ExpandNamesDistinct(exp[a], ResolveNeeds(base[n].depends, exp));
      DisjointIff(base, n, exp, a, Names(Expand(base[..n], exp)), Names(last));
    } else {
      assert Expand(base, exp) == Expand(base[..n], exp);
    }
  }

  // --------------------------------------------------------- across base jobs

  /** The name of a base job's combination: the base name, or with the combination's label. */
  function FullName(a: string, text: Option<string>): string {
    match text
    case None => a
    case Some(t) => a + " (" + t + ")"
  }

  /** `b` reads like a labelled combination of `a` that is not finished or goes on. */
  ghost predicate Reads(a: string, b: string, r: string) {
    b == a + " (" + r
  }

  /** What follows is the rest of the shorter one's label. */
  predicate EndsAlike(s: string, r: string, t: Option<string>) {
    match t
    case None => r == s + ")"
    case Some(u) => s == r + " (" + u
  }

  /** When combinations of two base jobs share a name: only if the longer base name continues
      the shorter with " (", and then what follows must be the rest of the shorter one's
      label. */
  lemma FullNamesClashIff(a: string, s: Option<string>, b: string, t: Option<string>)
    requires a != b && |a| <= |b|
    ensures FullName(a, s) == FullName(b, t) <==>
              s.Some? && exists r :: Reads(a, b, r) && EndsAlike(s.value, r, t)
  {
    var x, y := FullName(a, s), FullName(b, t);
    if x == y {
      assert x[..|a|] == a && y[..|b|] == b;
      Continues(a, s, b, t);
      var r := b[|a| + 2..];
      assert Reads(a, b, r);
      assert y == (match t case None => a + " (" + r case Some(u) => a + " (" + (r + " (" + u + ")"));
      assert x == a + " (" + (s.value + ")");
      assert x[|a| + 2..] == s.value + ")";
      if t.Some? {
        var u := t.value;
        assert y == a + " (" + (r + " (" + u + ")");
        assert y[|a| + 2..] == r + " (" + u + ")";
        assert (r + " (" + u + ")")[..|s.value|] == r + " (" + u;
      }
    }
    if s.Some? {
      if r :| Reads(a, b, r) && EndsAlike(s.value, r, t) {
        match t
        case None => assert a + " (" + (s.value + ")") == x;
        case Some(u) => assert a + " (" + (r + " (" + u) + ")" == a + " (" + r + " (" + u + ")";
      }
    }
  }

  /** Two base names of one job name: the longer goes on after the shorter with " (". */
  lemma Continues(a: string, s: Option<string>, b: string, t: Option<string>)
    requires a != b && |a| <= |b| && FullName(a, s) == FullName(b, t)
    ensures s.Some? && |b| >= |a| + 2 && b == a + " (" + b[|a| + 2..]
  {
    var x, y := FullName(a, s), FullName(b, t);
    assert x[..|a|] == a && y[..|b|] == b;
    if s.Some? {
      assert x[|a|] == ' ' && x[|a| + 1] == '(';
      if t.Some? { assert y[|b|] == ' ' && y[|b| + 1] == '('; }
    }
  }

  /** Names of expanded jobs are made of their base names. */
  ghost predicate NamedAfter(exp: Combinations) {
    forall a, x :: Owns(exp, a, x) ==> exists text :: x == FullName(a, text)
  }

  ghost predicate NoneReads(exp: Combinations) {
    forall a, b, r :: a in exp && b in exp && a != b ==> !Reads(a, b, r)
  }

  /** So where no base name goes on after another with " (", the expanded names are distinct
      exactly when each base job's own are. */
  lemma OwnNamesSuffice(base: seq<Node>, exp: Combinations)
    requires Distinct(base) && NamedAfter(exp) && NoneReads(exp)
    ensures Distinct(Expand(base, exp)) <==>
              forall i :: 0 <= i < |base| && base[i].name in exp ==> NoRepeat(exp[base[i].name])
  {
    hide Expand, NoRepeat, FullName, Reads;
    DistinctIffNamesApart(base, exp);
    forall i, j, x | 0 <= i < j < |base| && Owns(exp, base[i].name, x) ensures !Owns(exp, base[j].name, x) {
      if Owns(exp, base[j].name, x) { NoSharedName(exp, base[i].name, base[j].name, x); }
    }
  }

  lemma NoSharedName(exp: Combinations, a: string, b: string, x: string)
    requires NamedAfter(exp) && NoneReads(exp) && a != b && Owns(exp, a, x)
    ensures !Owns(exp, b, x)
  {
    hide FullName, Reads;
    if Owns(exp, b, x) {
      var s :| x == FullName(a, s);
      var t :| x == FullName(b, t);
      if |a| <= |b| { FullNamesClashIff(a, s, b, t); } else { FullNamesClashIff(b, t, a, s); }
    }
  }
}
