/** Matrix expansion of a dependency graph: every base job becomes its combinations, and a
    dependency on a base job becomes a dependency on all of them. */
module Expansion {
  import opened Graph
  import opened Seqs
  import L = Levels

  /** The expanded names of each base job. */
  type Combinations = map<string, seq<string>>

  /** A need on a base job is a need on each of its combinations, in order. */
  function ResolveNeeds(needs: seq<string>, exp: Combinations): seq<string> {
    if |needs| == 0 then []
    else
      var d := needs[|needs| - 1];
      ResolveNeeds(needs[..|needs| - 1], exp) + (if d in exp then exp[d] else [])
  }

  function ExpandNames(names: seq<string>, depends: seq<string>): (r: seq<Node>)
    ensures |r| == |names| && forall i :: 0 <= i < |names| ==> r[i] == Node(names[i], depends)
  {
    seq(|names|, i requires 0 <= i < |names| => Node(names[i], depends))
  }

  function Expand(base: seq<Node>, exp: Combinations): seq<Node> {
    if |base| == 0 then []
    else
      var n := base[|base| - 1];
      Expand(base[..|base| - 1], exp)
      + (if n.name in exp then ExpandNames(exp[n.name], ResolveNeeds(n.depends, exp)) else [])
  }

  /** Base jobs that have at least one combination, without the needs that have none. */
  predicate HasCombos(exp: Combinations, a: string) {
    a in exp && exp[a] != []
  }

  function PruneNeeds(needs: seq<string>, exp: Combinations): seq<string> {
    if |needs| == 0 then []
    else
      PruneNeeds(needs[..|needs| - 1], exp)
      + (if HasCombos(exp, needs[|needs| - 1]) then [needs[|needs| - 1]] else [])
  }

  function Prune(base: seq<Node>, exp: Combinations): seq<Node> {
    if |base| == 0 then []
    else
      var n := base[|base| - 1];
      Prune(base[..|base| - 1], exp)
      + (if HasCombos(exp, n.name) then [Node(n.name, PruneNeeds(n.depends, exp))] else [])
  }

  // --------------------------------------------------------------- membership

  lemma {:induction false} ResolveNeedsMembers(needs: seq<string>, exp: Combinations, y: string)
    ensures y in ResolveNeeds(needs, exp) <==> exists d :: d in needs && d in exp && y in exp[d]
  {
    if |needs| > 0 {
      var n := |needs| - 1;
      ResolveNeedsMembers(needs[..n], exp, y);
      assert needs == needs[..n] + [needs[n]];
    }
  }

  lemma {:induction false} PruneNeedsMembers(needs: seq<string>, exp: Combinations, d: string)
    ensures d in PruneNeeds(needs, exp) <==> d in needs && HasCombos(exp, d)
  {
    if |needs| > 0 {
      var n := |needs| - 1;
      PruneNeedsMembers(needs[..n], exp, d);
      assert needs == needs[..n] + [needs[n]];
    }
  }

  lemma {:induction false} ExpandMembers(base: seq<Node>, exp: Combinations, m: Node)
    ensures m in Expand(base, exp) <==>
              exists n :: n in base && n.name in exp && m.name in exp[n.name]
                     && m.depends == ResolveNeeds(n.depends, exp)
  {
    if |base| > 0 {
      var k := |base| - 1;
      ExpandMembers(base[..k], exp, m);
      assert base == base[..k] + [base[k]];
      var n := base[k];
      if n.name in exp {
        var more := ExpandNames(exp[n.name], ResolveNeeds(n.depends, exp));
        assert m in more <==> m.name in exp[n.name] && m.depends == ResolveNeeds(n.depends, exp) by {
          if m.name in exp[n.name] && m.depends == ResolveNeeds(n.depends, exp) {
            var i :| 0 <= i < |exp[n.name]| && exp[n.name][i] == m.name;
            assert more[i] == m;
          }
        }
      }
    }
  }

  lemma {:induction false} PruneMembers(base: seq<Node>, exp: Combinations, m: Node)
    ensures m in Prune(base, exp) <==>
              exists n :: n in base && HasCombos(exp, n.name) && m == Node(n.name, PruneNeeds(n.depends, exp))
  {
    if |base| > 0 {
      var k := |base| - 1;
      PruneMembers(base[..k], exp, m);
      assert base == base[..k] + [base[k]];
    }
  }

  // -------------------------------------------------------------------- edges

  /** `x` is one of the combinations of base job `a`. */
  predicate Owns(exp: Combinations, a: string, x: string) {
    a in exp && x in exp[a]
  }

  /** No name belongs to two base jobs. */
  ghost predicate OneOwner(exp: Combinations) {
    forall a, b, x :: Owns(exp, a, x) && Owns(exp, b, x) ==> a == b
  }

  lemma ExpandEdge(base: seq<Node>, exp: Combinations, x: string, y: string) returns (a: string, b: string)
    requires Edge(Expand(base, exp), x, y)
    ensures Owns(exp, a, x) && Owns(exp, b, y) && Edge(Prune(base, exp), a, b)
  {
    var m :| m in Expand(base, exp) && m.name == x && y in m.depends;
    ExpandMembers(base, exp, m);
    var n :| n in base && n.name in exp && m.name in exp[n.name] && m.depends == ResolveNeeds(n.depends, exp);
    ResolveNeedsMembers(n.depends, exp, y);
    var d :| d in n.depends && d in exp && y in exp[d];
    a, b := n.name, d;
    var pruned := Node(n.name, PruneNeeds(n.depends, exp));
    PruneMembers(base, exp, pruned);
    PruneNeedsMembers(n.depends, exp, d);
    assert pruned in Prune(base, exp) && d in pruned.depends;
  }

  lemma PruneEdge(base: seq<Node>, exp: Combinations, a: string, b: string, x: string, y: string)
    requires Edge(Prune(base, exp), a, b) && Owns(exp, a, x) && Owns(exp, b, y)
    ensures Edge(Expand(base, exp), x, y)
  {
    var m :| m in Prune(base, exp) && m.name == a && b in m.depends;
    PruneMembers(base, exp, m);
    var n :| n in base && HasCombos(exp, n.name) && m == Node(n.name, PruneNeeds(n.depends, exp));
    PruneNeedsMembers(n.depends, exp, b);
    ResolveNeedsMembers(n.depends, exp, y);
    var e := Node(x, ResolveNeeds(n.depends, exp));
    ExpandMembers(base, exp, e);
    assert e in Expand(base, exp) && y in e.depends;
  }

  lemma PrunedTargetHasCombos(base: seq<Node>, exp: Combinations, a: string, b: string)
    requires Edge(Prune(base, exp), a, b)
    ensures HasCombos(exp, a) && HasCombos(exp, b)
  {
    var m :| m in Prune(base, exp) && m.name == a && b in m.depends;
    PruneMembers(base, exp, m);
    var n :| n in base && HasCombos(exp, n.name) && m == Node(n.name, PruneNeeds(n.depends, exp));
    PruneNeedsMembers(n.depends, exp, b);
  }

  // -------------------------------------------------------------------- walks

  /** A walk of combinations is a walk of their base jobs. */
  lemma {:induction false} Project(base: seq<Node>, exp: Combinations, p: seq<string>, a: string)
    returns (q: seq<string>)
    requires OneOwner(exp) && Chain(Expand(base, exp), p) && Owns(exp, a, p[0])
    ensures Chain(Prune(base, exp), q) && |q| == |p| && q[0] == a && Owns(exp, q[|q| - 1], p[|p| - 1])
    decreases |p|
  {
    if |p| == 1 {
      q := [a];
    } else {
      assert Edge(Expand(base, exp), p[0], p[1]);
      var a', b := ExpandEdge(base, exp, p[0], p[1]);
      assert a' == a;
      ChainSlice(Expand(base, exp), p, 1, |p|);
      var t := Project(base, exp, p[1..], b);
      ChainPrepend(Prune(base, exp), a, t);
      q := [a] + t;
    }
  }

  /** A walk of base jobs lifts to one of their combinations, from any of the first one's. */
  lemma {:induction false} Lift(base: seq<Node>, exp: Combinations, q: seq<string>, x: string) returns (p: seq<string>)
    requires Chain(Prune(base, exp), q) && Owns(exp, q[0], x)
    ensures Chain(Expand(base, exp), p) && |p| == |q| && p[0] == x
    ensures |q| > 1 ==> HasCombos(exp, q[|q| - 1]) && p[|p| - 1] == exp[q[|q| - 1]][0]
    decreases |q|
  {
    if |q| == 1 {
      p := [x];
    } else {
      assert Edge(Prune(base, exp), q[0], q[1]);
      PrunedTargetHasCombos(base, exp, q[0], q[1]);
      var y := exp[q[1]][0];
      ChainSlice(Prune(base, exp), q, 1, |q|);
      var t := Lift(base, exp, q[1..], y);
      PruneEdge(base, exp, q[0], q[1], x, y);
      ChainPrepend(Expand(base, exp), x, t);
      p := [x] + t;
    }
  }

  lemma ExpandedCycle(base: seq<Node>, exp: Combinations)
    requires OneOwner(exp)
    ensures Acyclic(Expand(base, exp)) <==> Acyclic(Prune(base, exp))
  {
    var e, b := Expand(base, exp), Prune(base, exp);
    if !Acyclic(e) {
      var x :| Reaches(e, x, x);
      var p :| Path(e, p, x, x);
      assert Edge(e, p[0], p[1]);
      var a, _ := ExpandEdge(base, exp, p[0], p[1]);
      var q := Project(base, exp, p, a);
      assert q[|q| - 1] == a;
      assert Path(b, q, a, a);
      assert Reaches(b, a, a);
    }
    if !Acyclic(b) {
      var a :| Reaches(b, a, a);
      var q :| Path(b, q, a, a);
      assert Edge(b, q[0], q[1]);
      PrunedTargetHasCombos(base, exp, q[0], q[1]);
      var p := Lift(base, exp, q, exp[a][0]);
      assert Path(e, p, p[0], p[0]);
      assert Reaches(e, p[0], p[0]);
    }
  }

  lemma ExpandedLevel(base: seq<Node>, exp: Combinations, a: string, x: string)
    requires OneOwner(exp) && Owns(exp, a, x)
    requires !ReachesCycle(Expand(base, exp), x) && !ReachesCycle(Prune(base, exp), a)
    ensures Level(Expand(base, exp), x) == Level(Prune(base, exp), a)
  {
    var e, b := Expand(base, exp), Prune(base, exp);
    var l := Level(b, a);
    var q :| Chain(b, q) && q[0] == a && |q| == l + 1;
    var p := Lift(base, exp, q, x);
    forall r | Chain(e, r) && r[0] == x ensures |r| <= l + 1 {
      var t := Project(base, exp, r, a);
    }
    LevelUnique(e, x, l);
  }

  // ---------------------------------------------------------------- the theorem

  /** What `parseInDir` has established when it levels the expanded graph: the kept base
      jobs are the ones with expansions, and no need of a job that has combinations is
      unknown. */
  ghost predicate Expandable(base: seq<Node>, exp: Combinations) {
    exp.Keys == Names(base)
    && forall n, d :: n in base && HasCombos(exp, n.name) && d in n.depends ==> d in exp
  }

  lemma {:induction false} ExpandNamesMembers(base: seq<Node>, exp: Combinations, a: string, x: string)
    requires a in Names(base) && Owns(exp, a, x)
    ensures x in Names(Expand(base, exp))
  {
    var n :| n in base && n.name == a;
    var m := Node(x, ResolveNeeds(n.depends, exp));
    ExpandMembers(base, exp, m);
    assert m in Expand(base, exp);
  }

  lemma ExpandedClosed(base: seq<Node>, exp: Combinations)
    requires Expandable(base, exp)
    ensures Closed(Expand(base, exp)) && Closed(Prune(base, exp))
  {
    forall m, y | m in Expand(base, exp) && y in m.depends ensures y in Names(Expand(base, exp)) {
      assert Edge(Expand(base, exp), m.name, y);
      var a, b := ExpandEdge(base, exp, m.name, y);
      ExpandNamesMembers(base, exp, b, y);
    }
    forall m, d | m in Prune(base, exp) && d in m.depends ensures d in Names(Prune(base, exp)) {
      assert Edge(Prune(base, exp), m.name, d);
      PrunedTargetHasCombos(base, exp, m.name, d);
      var n :| n in base && n.name == d;
      PruneMembers(base, exp, Node(n.name, PruneNeeds(n.depends, exp)));
      assert Node(n.name, PruneNeeds(n.depends, exp)) in Prune(base, exp);
    }
  }

  /** Matrix expansion commutes with levelling: for distinct expanded names, the expanded
      graph can be levelled exactly when the base graph without its combination-less jobs
      can, and every combination gets its base job's level. */
  lemma ExpansionCommutesWithLevelling(base: seq<Node>, exp: Combinations)
    requires Expandable(base, exp) && OneOwner(exp) && Distinct(Expand(base, exp)) && Distinct(Prune(base, exp))
    ensures Valid(Expand(base, exp)) <==> Valid(Prune(base, exp))
    ensures Valid(Expand(base, exp)) ==> forall a, x :: Owns(exp, a, x) ==>
              x in L.LevelMap(Expand(base, exp)) && a in L.LevelMap(Prune(base, exp))
              && L.LevelMap(Expand(base, exp))[x] == L.LevelMap(Prune(base, exp))[a]
  {
    ExpandedCycle(base, exp);
    ExpandedClosed(base, exp);
    if Acyclic(Expand(base, exp)) {
      AcyclicReachesNoCycle(Expand(base, exp));
      AcyclicReachesNoCycle(Prune(base, exp));
      forall a, x | Owns(exp, a, x)
        ensures x in L.LevelMap(Expand(base, exp)) && a in L.LevelMap(Prune(base, exp))
                && L.LevelMap(Expand(base, exp))[x] == L.LevelMap(Prune(base, exp))[a]
      {
        ExpandNamesMembers(base, exp, a, x);
        PrunedHas(base, exp, a);
        ExpandedLevel(base, exp, a, x);
      }
    }
  }

  lemma PrunedHas(base: seq<Node>, exp: Combinations, a: string)
    requires a in Names(base) && HasCombos(exp, a)
    ensures a in Names(Prune(base, exp))
  {
    var n :| n in base && n.name == a;
    PruneMembers(base, exp, Node(n.name, PruneNeeds(n.depends, exp)));
    assert Node(n.name, PruneNeeds(n.depends, exp)) in Prune(base, exp);
  }

  // ------------------------------------------ what distinct names already give

  lemma DistinctParts(a: seq<Node>, b: seq<Node>)
    requires Distinct(a + b)
    ensures Distinct(a)
    ensures forall m, n :: m in a && n in b ==> m.name != n.name
  {
    var all := a + b;
    assert forall i :: 0 <= i < |a| ==> all[i] == a[i];
    assert forall k :: 0 <= k < |b| ==> all[|a| + k] == b[k];
    forall m, n | m in a && n in b ensures m.name != n.name {
      var i :| 0 <= i < |a| && a[i] == m;
      var k :| 0 <= k < |b| && b[k] == n;
      assert all[i].name != all[|a| + k].name;
    }
  }

  /** The combinations of the last base job. */
  function LastExpanded(base: seq<Node>, exp: Combinations): seq<Node>
    requires |base| > 0
  {
    var n := base[|base| - 1];
    if n.name in exp then ExpandNames(exp[n.name], ResolveNeeds(n.depends, exp)) else []
  }

  lemma LastExpandedHas(base: seq<Node>, exp: Combinations, x: string)
    requires |base| > 0 && Owns(exp, base[|base| - 1].name, x)
    ensures x in Names(LastExpanded(base, exp))
  {
    var n := base[|base| - 1];
    var k :| 0 <= k < |exp[n.name]| && exp[n.name][k] == x;
    assert LastExpanded(base, exp)[k] in LastExpanded(base, exp);
  }

  lemma ExpandInit(base: seq<Node>, exp: Combinations)
    requires |base| > 0 && Distinct(Expand(base, exp))
    ensures Distinct(Expand(base[..|base| - 1], exp))
    ensures forall m, n :: m in Expand(base[..|base| - 1], exp) && n in LastExpanded(base, exp) ==> m.name != n.name
  {
    DistinctParts(Expand(base[..|base| - 1], exp), LastExpanded(base, exp));
  }

  /** Two entries of the base list never own a common combination. */
  lemma {:induction false} EntriesShareNothing(base: seq<Node>, exp: Combinations, i: nat, j: nat, x: string)
    requires Distinct(Expand(base, exp)) && i < j < |base|
    ensures !(Owns(exp, base[i].name, x) && Owns(exp, base[j].name, x))
    decreases |base|
  {
    ExpandInit(base, exp);
    var init := base[..|base| - 1];
    if j < |base| - 1 {
      EntriesShareNothing(init, exp, i, j, x);
    } else if Owns(exp, base[i].name, x) {
      assert base[i] == init[i] && init[i] in init;
      ExpandNamesMembers(init, exp, base[i].name, x);
      if Owns(exp, base[j].name, x) { LastExpandedHas(base, exp, x); }
    }
  }

  lemma DistinctMeansOneOwner(base: seq<Node>, exp: Combinations)
    requires Distinct(Expand(base, exp)) && exp.Keys == Names(base)
    ensures OneOwner(exp)
  {
    hide Distinct, Expand;
    forall a, b, x | Owns(exp, a, x) && Owns(exp, b, x) ensures a == b {
      var n :| n in base && n.name == a;
      var m :| m in base && m.name == b;
      var i :| 0 <= i < |base| && base[i] == n;
      var j :| 0 <= j < |base| && base[j] == m;
      if i < j { EntriesShareNothing(base, exp, i, j, x); }
      if j < i { EntriesShareNothing(base, exp, j, i, x); }
    }
  }

  lemma {:induction false} PrunedDistinct(base: seq<Node>, exp: Combinations)
    requires Distinct(Expand(base, exp))
    ensures Distinct(Prune(base, exp))
  {
    if |base| > 0 {
      var k := |base| - 1;
      ExpandInit(base, exp);
      PrunedDistinct(base[..k], exp);
      if HasCombos(exp, base[k].name) {
        var p := Prune(base[..k], exp);
        forall i | 0 <= i < |p| ensures p[i].name != base[k].name {
          PruneMembers(base[..k], exp, p[i]);
          var n :| n in base[..k] && HasCombos(exp, n.name) && p[i] == Node(n.name, PruneNeeds(n.depends, exp));
          var h :| 0 <= h < k && base[..k][h] == n;
          EntriesShareNothing(base, exp, h, k, exp[n.name][0]);
        }
      }
    }
  }

  /** The general form, with only what `parseInDir` checks before levelling. */
  lemma ExpandedLevels(base: seq<Node>, exp: Combinations)
    requires Expandable(base, exp) && Distinct(Expand(base, exp))
    ensures Valid(Expand(base, exp)) <==> Valid(Prune(base, exp))
    ensures Valid(Expand(base, exp)) ==> forall a, x :: Owns(exp, a, x) ==>
              x in L.LevelMap(Expand(base, exp)) && a in L.LevelMap(Prune(base, exp))
              && L.LevelMap(Expand(base, exp))[x] == L.LevelMap(Prune(base, exp))[a]
  {
    DistinctMeansOneOwner(base, exp);
    PrunedDistinct(base, exp);
    ExpansionCommutesWithLevelling(base, exp);
  }

  /** Nothing is pruned when every job has a combination and every need is known. */
  lemma PrunesLast(base: seq<Node>, exp: Combinations)
    requires |base| > 0 && HasCombos(exp, base[|base| - 1].name) && Prune(base[..|base| - 1], exp) == base[..|base| - 1]
    requires PruneNeeds(base[|base| - 1].depends, exp) == base[|base| - 1].depends
    ensures Prune(base, exp) == base
  {
    hide HasCombos, PruneNeeds;
    assert base == base[..|base| - 1] + [base[|base| - 1]];
  }

  lemma PrunesEmpty(exp: Combinations)
    ensures Prune([], exp) == []
  {
  }

  lemma {:induction false} PrunesNothing(base: seq<Node>, exp: Combinations)
    requires forall n :: n in base ==> HasCombos(exp, n.name)
    requires forall n, d :: n in base && d in n.depends ==> HasCombos(exp, d)
    ensures Prune(base, exp) == base
  {
    if |base| > 0 {
      var k := |base| - 1;
      assert base[k] in base;
      hide HasCombos, PruneNeeds, Prune;
      InPrefix(base, k);
      PrunesNothing(base[..k], exp);
      KeepsNeeds(base[k].depends, exp);
      PrunesLast(base, exp);
    } else {
      PrunesEmpty(exp);
    }
  }

  lemma {:induction false} KeepsNeeds(needs: seq<string>, exp: Combinations)
    requires forall d :: d in needs ==> HasCombos(exp, d)
    ensures PruneNeeds(needs, exp) == needs
  {
    if |needs| > 0 {
      var k := |needs| - 1;
      assert needs[k] in needs;
      InPrefix(needs, k);
      KeepsNeeds(needs[..k], exp);
      assert needs == needs[..k] + [needs[k]];
    }
  }

  /** When every kept base job has a combination, the base graph itself decides. */
  lemma ExpandedLevelsAreBaseLevels(base: seq<Node>, exp: Combinations)
    requires Expandable(base, exp) && Distinct(Expand(base, exp))
    requires forall n :: n in base ==> HasCombos(exp, n.name)
    ensures Valid(Expand(base, exp)) <==> Valid(base)
    ensures Valid(Expand(base, exp)) ==> forall a, x :: Owns(exp, a, x) ==>
              x in L.LevelMap(Expand(base, exp)) && a in L.LevelMap(base)
              && L.LevelMap(Expand(base, exp))[x] == L.LevelMap(base)[a]
  {
    forall n, d | n in base && d in n.depends ensures HasCombos(exp, d) {
      assert HasCombos(exp, n.name) && d in exp && d in Names(base);
      var m :| m in base && m.name == d;
    }
    PrunesNothing(base, exp);
    ExpandedLevels(base, exp);
  }

  // ----------------------------------------------------------------- the order

  function NeedParts(needs: seq<string>, exp: Combinations): (r: seq<seq<string>>)
    ensures |r| == |needs| && forall i :: 0 <= i < |needs| ==> r[i] == if needs[i] in exp then exp[needs[i]] else []
  {
    seq(|needs|, i requires 0 <= i < |needs| => if needs[i] in exp then exp[needs[i]] else [])
  }

  /** Needs keep their order, each replaced by all its combinations in theirs. */
  lemma {:induction false} NeedsInOrder(needs: seq<string>, exp: Combinations)
    ensures ResolveNeeds(needs, exp) == Flatten(NeedParts(needs, exp))
  {
    if |needs| > 0 {
      var n := |needs| - 1;
      NeedsInOrder(needs[..n], exp);
      assert NeedParts(needs, exp)[..n] == NeedParts(needs[..n], exp);
    }
  }

  function NodeParts(base: seq<Node>, exp: Combinations): (r: seq<seq<Node>>)
    ensures |r| == |base|
    ensures forall i :: 0 <= i < |base| ==>
              r[i] == if base[i].name in exp
              then ExpandNames(exp[base[i].name], ResolveNeeds(base[i].depends, exp)) else []
  {
    seq(|base|, i requires 0 <= i < |base| =>
          if base[i].name in exp then ExpandNames(exp[base[i].name], ResolveNeeds(base[i].depends, exp)) else [])
  }

  /** Base jobs keep their order, each replaced by all its combinations in theirs. */
  lemma {:induction false} CombinationsInOrder(base: seq<Node>, exp: Combinations)
    ensures Expand(base, exp) == Flatten(NodeParts(base, exp))
  {
    if |base| > 0 {
      var n := |base| - 1;
      CombinationsInOrder(base[..n], exp);
      assert NodeParts(base, exp)[..n] == NodeParts(base[..n], exp);
    }
  }
}
