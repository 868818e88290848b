/** What the level map and the flat order that `dag.Levels` returns are good for, and
    that removing skipped nodes first changes neither. */
module LevelTheorems {
  import opened Graph
  import opened Strings
  import L = Levels
  import S = Skips

  // ------------------------------------------------------------ the flat order

  function NameSeq(nodes: seq<Node>): (r: seq<string>) {
    if |nodes| == 0 then [] else [nodes[0].name] + NameSeq(nodes[1..])
  }

  /** `x` comes before `y` by (level, declaration index). */
  ghost predicate Before(nodes: seq<Node>, levels: map<string, nat>, x: string, y: string) {
    x in levels && y in levels
    && (levels[x] < levels[y] || (levels[x] == levels[y] && DeclaredBefore(nodes, x, y)))
  }

  ghost predicate DeclaredBefore(nodes: seq<Node>, x: string, y: string) {
    exists i, j :: 0 <= i < j < |nodes| && nodes[i].name == x && nodes[j].name == y
  }

  lemma DeclaredBeforeInTail(nodes: seq<Node>, x: string, y: string)
    requires |nodes| > 0 && DeclaredBefore(nodes[1..], x, y)
    ensures DeclaredBefore(nodes, x, y)
  {
    var p, q :| 0 <= p < q < |nodes[1..]| && nodes[1..][p].name == x && nodes[1..][q].name == y;
    assert nodes[p + 1].name == x && nodes[q + 1].name == y;
  }

  lemma HeadDeclaredBefore(nodes: seq<Node>, y: string)
    requires |nodes| > 0 && y in Names(nodes[1..])
    ensures DeclaredBefore(nodes, nodes[0].name, y)
  {
    var n :| n in nodes[1..] && n.name == y;
    var q :| 0 <= q < |nodes[1..]| && nodes[1..][q] == n;
    assert nodes[0].name == nodes[0].name && nodes[q + 1].name == y;
  }

  lemma {:induction false} OnLevelSound(nodes: seq<Node>, levels: map<string, nat>, lvl: nat)
    requires forall n :: n in nodes ==> n.name in levels
    ensures SortedOn(nodes, levels, lvl, L.OnLevel(nodes, levels, lvl))
  {
    if |nodes| > 0 {
      var rest := nodes[1..];
      OnLevelSound(rest, levels, lvl);
      var o, r := L.OnLevel(nodes, levels, lvl), L.OnLevel(rest, levels, lvl);
      var d := |o| - |r|;
      forall i, j | 0 <= i < j < |o| ensures DeclaredBefore(nodes, o[i], o[j]) {
        assert o[j] == r[j - d];
        if i >= d {
          DeclaredBeforeInTail(nodes, r[i - d], r[j - d]);
        } else {
          assert r[j - d] in r;
          HeadDeclaredBefore(nodes, o[j]);
        }
      }
    }
  }

  /** Names of nodes below `bound`, sorted by (level, declaration index). */
  ghost predicate SortedBelow(nodes: seq<Node>, levels: map<string, nat>, bound: nat, order: seq<string>)
    requires forall n :: n in nodes ==> n.name in levels
  {
    (forall x :: x in order ==> x in Names(nodes) && levels[x] < bound)
    && forall i, j :: 0 <= i < j < |order| ==> Before(nodes, levels, order[i], order[j])
  }

  /** Names of nodes on one level, in declaration order. */
  ghost predicate SortedOn(nodes: seq<Node>, levels: map<string, nat>, lvl: nat, order: seq<string>)
    requires forall n :: n in nodes ==> n.name in levels
  {
    (forall x :: x in order ==> x in Names(nodes) && levels[x] == lvl)
    && forall i, j :: 0 <= i < j < |order| ==> DeclaredBefore(nodes, order[i], order[j])
  }

  lemma NextLevelSorted(nodes: seq<Node>, levels: map<string, nat>, lvl: nat, a: seq<string>, b: seq<string>)
    requires forall n :: n in nodes ==> n.name in levels
    requires SortedBelow(nodes, levels, lvl, a) && SortedOn(nodes, levels, lvl, b)
    ensures SortedBelow(nodes, levels, lvl + 1, a + b)
  {
    hide DeclaredBefore;
    var order := a + b;
    forall i, j | 0 <= i < j < |order| ensures Before(nodes, levels, order[i], order[j]) {
      if j >= |a| {
        var k := j - |a|;
        assert order[j] == b[k] && b[k] in b;
        if i < |a| {
          assert order[i] == a[i] && a[i] in a;
        } else {
          var h := i - |a|;
          assert order[i] == b[h] && b[h] in b;
        }
      }
    }
  }

  lemma {:induction false} LevelsBelowSorted(nodes: seq<Node>, levels: map<string, nat>, bound: nat)
    requires forall n :: n in nodes ==> n.name in levels
    ensures SortedBelow(nodes, levels, bound, L.LevelsBelow(nodes, levels, bound))
  {
    hide SortedBelow, L.OnLevel, DeclaredBefore;
    if bound > 0 {
      LevelsBelowSorted(nodes, levels, bound - 1);
      OnLevelSound(nodes, levels, bound - 1);
      var below, on := L.LevelsBelow(nodes, levels, bound - 1), L.OnLevel(nodes, levels, bound - 1);
      NextLevelSorted(nodes, levels, bound - 1, below, on);
    } else {
      NothingSorted(nodes, levels);
    }
  }

  lemma NothingSorted(nodes: seq<Node>, levels: map<string, nat>)
    requires forall n :: n in nodes ==> n.name in levels
    ensures SortedBelow(nodes, levels, 0, [])
  {
  }

  lemma {:induction false} OnLevelComplete(nodes: seq<Node>, levels: map<string, nat>, n: Node)
    requires forall n :: n in nodes ==> n.name in levels
    requires n in nodes
    ensures n.name in L.OnLevel(nodes, levels, levels[n.name])
  {
    if nodes[0] != n { OnLevelComplete(nodes[1..], levels, n); }
  }

  lemma {:induction false} LevelsBelowComplete(nodes: seq<Node>, levels: map<string, nat>, n: Node, bound: nat)
    requires forall n :: n in nodes ==> n.name in levels
    requires n in nodes && levels[n.name] < bound
    ensures n.name in L.LevelsBelow(nodes, levels, bound)
  {
    hide L.OnLevel;
    if levels[n.name] == bound - 1 {
      OnLevelComplete(nodes, levels, n);
    } else {
      LevelsBelowComplete(nodes, levels, n, bound - 1);
    }
  }

  /** The order is a permutation of the names, sorted by (level, declaration index). */
  ghost predicate SortedPermutation(nodes: seq<Node>, levels: map<string, nat>, order: seq<string>) {
    multiset(order) == multiset(NameSeq(nodes))
    && forall i, j :: 0 <= i < j < |order| ==> Before(nodes, levels, order[i], order[j])
  }

  lemma LevelOrderIsSortedPermutation(nodes: seq<Node>)
    requires Valid(nodes)
    ensures SortedPermutation(nodes, L.LevelMap(nodes), L.LevelOrder(nodes))
  {
    var m, o := L.LevelMap(nodes), L.LevelOrder(nodes);
    LevelsAreBounded(nodes);
    LevelsBelowSorted(nodes, m, |Names(nodes)| + 1);
    forall n | n in nodes ensures n.name in o { LevelsBelowComplete(nodes, m, n, |Names(nodes)| + 1); }
    SortedIsPermutation(nodes, m, o);
  }

  lemma SortedIsPermutation(nodes: seq<Node>, levels: map<string, nat>, order: seq<string>)
    requires Distinct(nodes)
    requires forall x :: x in order <==> x in Names(nodes)
    requires forall i, j :: 0 <= i < j < |order| ==> Before(nodes, levels, order[i], order[j])
    ensures multiset(order) == multiset(NameSeq(nodes))
  {
    forall i, j | 0 <= i < j < |order| ensures order[i] != order[j] {
      BeforeDiffers(nodes, levels, order[i], order[j]);
    }
    NameSeqElements(nodes);
    MultisetOfDistinct(order);
    MultisetOfDistinct(NameSeq(nodes));
    assert (set x | x in order) == (set x | x in NameSeq(nodes));
  }

  lemma BeforeDiffers(nodes: seq<Node>, levels: map<string, nat>, x: string, y: string)
    requires Distinct(nodes) && Before(nodes, levels, x, y)
    ensures x != y
  {
  }

  lemma LevelsAreBounded(nodes: seq<Node>)
    requires Acyclic(nodes)
    ensures forall a :: a in Names(nodes) ==> a in L.LevelMap(nodes) && L.LevelMap(nodes)[a] <= |Names(nodes)|
  {
    AcyclicReachesNoCycle(nodes);
    forall a | a in Names(nodes) ensures L.LevelMap(nodes)[a] <= |Names(nodes)| {
      var len := LongestExists(nodes, a);
      LevelUnique(nodes, a, len);
    }
  }

  lemma {:induction false} NameSeqElements(nodes: seq<Node>)
    ensures |NameSeq(nodes)| == |nodes|
    ensures forall i :: 0 <= i < |nodes| ==> NameSeq(nodes)[i] == nodes[i].name
    ensures forall x :: x in NameSeq(nodes) <==> x in Names(nodes)
  {
    if |nodes| > 0 { NameSeqElements(nodes[1..]); }
  }

  /** Every name occurs exactly once, and every dependency before its dependents. */
  ghost predicate Executable(nodes: seq<Node>, order: seq<string>) {
    (forall x :: x in order <==> x in Names(nodes))
    && (forall i, j :: 0 <= i < j < |order| ==> order[i] != order[j] && !Reaches(nodes, order[i], order[j]))
  }

  lemma DependenciesComeFirst(nodes: seq<Node>)
    requires Valid(nodes)
    ensures Executable(nodes, L.LevelOrder(nodes))
  {
    LevelOrderIsSortedPermutation(nodes);
    SortedIsExecutable(nodes, L.LevelMap(nodes), L.LevelOrder(nodes));
  }

  lemma BeforeDoesNotReach(nodes: seq<Node>, levels: map<string, nat>, x: string, y: string)
    requires Acyclic(nodes) && levels == L.LevelMap(nodes) && Before(nodes, levels, x, y)
    ensures !Reaches(nodes, x, y)
  {
    AcyclicReachesNoCycle(nodes);
    if Reaches(nodes, x, y) { LevelDropsAlong(nodes, x, y); }
  }

  lemma SortedIsExecutable(nodes: seq<Node>, levels: map<string, nat>, order: seq<string>)
    requires Valid(nodes) && levels == L.LevelMap(nodes) && SortedPermutation(nodes, levels, order)
    ensures Executable(nodes, order)
  {
    NameSeqElements(nodes);
    assert forall x :: x in order <==> x in multiset(order);
    forall i, j | 0 <= i < j < |order| ensures order[i] != order[j] && !Reaches(nodes, order[i], order[j]) {
      BeforeDiffers(nodes, levels, order[i], order[j]);
      BeforeDoesNotReach(nodes, levels, order[i], order[j]);
    }
  }

  /** Nodes of one level never depend on each other, even transitively. */
  lemma SameLevelUnrelated(nodes: seq<Node>, a: string, b: string)
    requires Acyclic(nodes) && a in Names(nodes) && b in Names(nodes)
    requires L.LevelMap(nodes)[a] == L.LevelMap(nodes)[b]
    ensures !Reaches(nodes, a, b)
  {
    AcyclicReachesNoCycle(nodes);
    if Reaches(nodes, a, b) { LevelDropsAlong(nodes, a, b); }
  }

  // ---------------------------------------------------------------- filtering

  lemma {:induction false} KeepElements(nodes: seq<Node>, s: set<string>)
    ensures forall n :: n in S.Keep(nodes, s) <==> n in nodes && n.name !in s
  {
    if |nodes| > 0 { KeepElements(nodes[1..], s); }
  }

  lemma {:induction false} KeepDistinct(nodes: seq<Node>, s: set<string>)
    requires Distinct(nodes)
    ensures Distinct(S.Keep(nodes, s))
  {
    if |nodes| > 0 {
      KeepDistinct(nodes[1..], s);
      KeepElements(nodes[1..], s);
      var k := S.Keep(nodes[1..], s);
      forall j | 0 <= j < |k| ensures k[j].name != nodes[0].name {
        assert k[j] in nodes[1..];
      }
    }
  }

  lemma KeepEdges(nodes: seq<Node>, s: set<string>, a: string, b: string)
    ensures Edge(S.Keep(nodes, s), a, b) <==> Edge(nodes, a, b) && a !in s
  {
    KeepElements(nodes, s);
  }

  /** From a kept node the walks of the whole graph are the walks of the kept graph. */
  lemma {:induction false} KeptChains(nodes: seq<Node>, s: set<string>, p: seq<string>)
    requires S.ClosedUnderNeeds(nodes, s) && |p| > 0 && p[0] !in s
    ensures Chain(S.Keep(nodes, s), p) <==> Chain(nodes, p)
  {
    var kept := S.Keep(nodes, s);
    if Chain(kept, p) {
      forall i, j | 0 <= i && j == i + 1 && j < |p| ensures Edge(nodes, p[i], p[j]) {
        KeepEdges(nodes, s, p[i], p[j]);
      }
    }
    if Chain(nodes, p) {
      KeptChainStays(nodes, s, p);
      forall i, j | 0 <= i && j == i + 1 && j < |p| ensures Edge(kept, p[i], p[j]) {
        KeepEdges(nodes, s, p[i], p[j]);
      }
    }
  }

  lemma {:induction false} KeptChainStays(nodes: seq<Node>, s: set<string>, p: seq<string>)
    requires S.ClosedUnderNeeds(nodes, s) && Chain(nodes, p) && p[0] !in s
    ensures forall x :: x in p ==> x !in s
  {
    if |p| > 1 {
      assert Edge(nodes, p[0], p[1]);
      ChainSlice(nodes, p, 1, |p|);
      KeptChainStays(nodes, s, p[1..]);
      assert p == [p[0]] + p[1..];
    }
  }

  lemma KeptReaches(nodes: seq<Node>, s: set<string>, a: string, b: string)
    requires S.ClosedUnderNeeds(nodes, s) && a !in s
    ensures Reaches(S.Keep(nodes, s), a, b) <==> Reaches(nodes, a, b)
    ensures Reaches(nodes, a, b) ==> b !in s
  {
    var kept := S.Keep(nodes, s);
    if p :| Path(kept, p, a, b) {
      KeptChains(nodes, s, p);
      assert Path(nodes, p, a, b);
    }
    if p :| Path(nodes, p, a, b) {
      KeptChains(nodes, s, p);
      KeptChainStays(nodes, s, p);
      assert Path(kept, p, a, b);
    }
  }

  lemma KeptReachesCycle(nodes: seq<Node>, s: set<string>, a: string)
    requires S.ClosedUnderNeeds(nodes, s) && a !in s
    ensures ReachesCycle(S.Keep(nodes, s), a) <==> ReachesCycle(nodes, a)
  {
    var kept := S.Keep(nodes, s);
    forall b ensures Reaches(kept, a, b) <==> Reaches(nodes, a, b) { KeptReaches(nodes, s, a, b); }
    forall b | a == b || Reaches(nodes, a, b) ensures Reaches(kept, b, b) <==> Reaches(nodes, b, b) {
      KeptReaches(nodes, s, a, b);
      KeptReaches(nodes, s, b, b);
    }
  }

  lemma KeptLevel(nodes: seq<Node>, s: set<string>, a: string)
    requires S.ClosedUnderNeeds(nodes, s) && a !in s && !ReachesCycle(nodes, a)
    ensures !ReachesCycle(S.Keep(nodes, s), a) && Level(S.Keep(nodes, s), a) == Level(nodes, a)
  {
    var kept := S.Keep(nodes, s);
    KeptReachesCycle(nodes, s, a);
    var l := Level(nodes, a);
    var p :| Chain(nodes, p) && p[0] == a && |p| == l + 1;
    KeptChains(nodes, s, p);
    forall q | Chain(kept, q) && q[0] == a ensures |q| <= l + 1 { KeptChains(nodes, s, q); }
    LevelUnique(kept, a, l);
  }

  function KeepNames(names: seq<string>, s: set<string>): seq<string> {
    if |names| == 0 then [] else (if names[0] in s then [] else [names[0]]) + KeepNames(names[1..], s)
  }

  lemma {:induction false} KeepNamesAppend(a: seq<string>, b: seq<string>, s: set<string>)
    ensures KeepNames(a + b, s) == KeepNames(a, s) + KeepNames(b, s)
  {
    if |a| == 0 {
      assert a + b == b;
    } else {
      assert (a + b)[1..] == a[1..] + b;
      KeepNamesAppend(a[1..], b, s);
    }
  }

  lemma {:induction false} OnLevelKeeps(nodes: seq<Node>, s: set<string>, all: map<string, nat>,
                                        some: map<string, nat>, lvl: nat)
    requires forall n :: n in nodes ==> n.name in all
    requires forall n :: n in nodes && n.name !in s ==> n.name in some && some[n.name] == all[n.name]
    ensures forall n :: n in S.Keep(nodes, s) ==> n.name in some
    ensures L.OnLevel(S.Keep(nodes, s), some, lvl) == KeepNames(L.OnLevel(nodes, all, lvl), s)
  {
    KeepElements(nodes, s);
    if |nodes| > 0 {
      OnLevelKeeps(nodes[1..], s, all, some, lvl);
      var head := if nodes[0].name in s then [] else [nodes[0]];
      KeepElements(nodes[1..], s);
      L.OnLevelAppend(head, S.Keep(nodes[1..], s), some, lvl);
      KeepNamesAppend(if all[nodes[0].name] == lvl then [nodes[0].name] else [], L.OnLevel(nodes[1..], all, lvl), s);
    }
  }

  lemma NoNamesKept(s: set<string>)
    ensures KeepNames([], s) == []
  {
  }

  lemma {:induction false} LevelsBelowKeeps(nodes: seq<Node>, s: set<string>, all: map<string, nat>,
                                            some: map<string, nat>, bound: nat)
    requires forall n :: n in nodes ==> n.name in all
    requires forall n :: n in nodes && n.name !in s ==> n.name in some && some[n.name] == all[n.name]
    ensures forall n :: n in S.Keep(nodes, s) ==> n.name in some
    ensures L.LevelsBelow(S.Keep(nodes, s), some, bound) == KeepNames(L.LevelsBelow(nodes, all, bound), s)
  {
    hide S.Keep, L.OnLevel, KeepNames;
    KeepElements(nodes, s);
    if bound == 0 {
      NoNamesKept(s);
    } else {
      LevelsBelowKeeps(nodes, s, all, some, bound - 1);
      OnLevelKeeps(nodes, s, all, some, bound - 1);
      KeepNamesAppend(L.LevelsBelow(nodes, all, bound - 1), L.OnLevel(nodes, all, bound - 1), s);
    }
  }

  lemma KeptIsClosed(nodes: seq<Node>, s: set<string>)
    requires S.ClosedUnderNeeds(nodes, s) && Closed(nodes)
    ensures Closed(S.Keep(nodes, s))
    ensures forall a, b :: Edge(S.Keep(nodes, s), a, b) ==> b !in s
  {
    var kept := S.Keep(nodes, s);
    KeepElements(nodes, s);
    forall n, d | n in kept && d in n.depends ensures d in Names(kept) && d !in s {
      assert n in nodes && d in Names(nodes);
      assert Edge(nodes, n.name, d);
      var m :| m in nodes && m.name == d;
      assert m in kept;
    }
  }

  lemma KeptIsAcyclic(nodes: seq<Node>, s: set<string>)
    requires S.ClosedUnderNeeds(nodes, s) && Acyclic(nodes)
    ensures Acyclic(S.Keep(nodes, s))
  {
    var kept := S.Keep(nodes, s);
    forall a ensures !Reaches(kept, a, a) {
      if Reaches(kept, a, a) {
        var b := FirstEdge(kept, a, a);
        KeepEdges(nodes, s, a, b);
        KeptReaches(nodes, s, a, a);
      }
    }
  }

  lemma KeptLevelMap(nodes: seq<Node>, s: set<string>)
    requires S.ClosedUnderNeeds(nodes, s) && Acyclic(nodes) && Acyclic(S.Keep(nodes, s))
    ensures forall n :: n in nodes ==> n.name in L.LevelMap(nodes)
    ensures forall n :: n in nodes && n.name !in s ==>
              n.name in L.LevelMap(S.Keep(nodes, s))
              && L.LevelMap(S.Keep(nodes, s))[n.name] == L.LevelMap(nodes)[n.name]
  {
    AcyclicReachesNoCycle(nodes);
    KeepElements(nodes, s);
    forall n | n in nodes && n.name !in s
      ensures n.name in L.LevelMap(S.Keep(nodes, s))
              && L.LevelMap(S.Keep(nodes, s))[n.name] == L.LevelMap(nodes)[n.name]
    {
      assert n in S.Keep(nodes, s);
      KeptLevel(nodes, s, n.name);
    }
  }

  lemma KeptOrder(nodes: seq<Node>, s: set<string>)
    requires S.ClosedUnderNeeds(nodes, s) && Acyclic(nodes) && Acyclic(S.Keep(nodes, s))
    ensures L.LevelOrder(S.Keep(nodes, s)) == KeepNames(L.LevelOrder(nodes), s)
  {
    var kept := S.Keep(nodes, s);
    KeptLevelMap(nodes, s);
    var all, some := L.LevelMap(nodes), L.LevelMap(kept);
    var bound := |Names(nodes)| + 1;
    LevelsBelowKeeps(nodes, s, all, some, bound);
    LevelsAreBounded(nodes);
    LevelsAreBounded(kept);
    KeepElements(nodes, s);
    forall n | n in kept ensures n.name in some && some[n.name] < bound && some[n.name] < |Names(kept)| + 1 {
      assert n in nodes && n.name !in s;
    }
    L.LevelsBelowSettles(kept, some, |Names(kept)| + 1, bound);
  }

  /** Filtering preserves scheduling: no kept node depends on a skipped one, and what
      could be levelled before can be levelled after, with the same levels and the same
      relative order. */
  lemma FilteringPreservesScheduling(nodes: seq<Node>, skipped: set<string>, s: set<string>, kept: seq<Node>)
    requires Valid(nodes)
    requires s == S.SkipSet(nodes, skipped) && kept == S.Keep(nodes, s)
    ensures Valid(kept)
    ensures forall a, b :: Edge(kept, a, b) ==> b !in s
    ensures forall n :: n in kept ==> n.name in L.LevelMap(kept) && n.name in L.LevelMap(nodes)
                                      && L.LevelMap(kept)[n.name] == L.LevelMap(nodes)[n.name]
    ensures L.LevelOrder(kept) == KeepNames(L.LevelOrder(nodes), s)
  {
    S.SkipSetIsLeastFixpoint(nodes, skipped);
    KeepDistinct(nodes, s);
    KeptIsClosed(nodes, s);
    KeptIsAcyclic(nodes, s);
    KeptLevelMap(nodes, s);
    KeepElements(nodes, s);
    KeptOrder(nodes, s);
  }

  // ------------------------------------------------------- the same graph again

  /** Two lists of the same nodes have the same walks. */
  lemma SameEdges(a: seq<Node>, b: seq<Node>)
    requires forall n :: n in a <==> n in b
    ensures forall x, y :: Edge(a, x, y) <==> Edge(b, x, y)
    ensures Names(a) == Names(b)
  {
    forall x ensures x in Names(a) <==> x in Names(b) {
      if x in Names(a) {
        var n :| n in a && n.name == x;
        assert n in b;
      }
      if x in Names(b) {
        var n :| n in b && n.name == x;
        assert n in a;
      }
    }
  }

  /** The jobs of a level order, listed in that order, form a valid graph again. */
  lemma ReorderedIsValid(nodes: seq<Node>, again: seq<Node>)
    requires Valid(nodes) && Distinct(again) && forall n :: n in nodes <==> n in again
    ensures Valid(again)
  {
    SameEdges(nodes, again);
    forall n, d | n in again && d in n.depends ensures d in Names(again) {
      assert n in nodes && d in Names(nodes);
    }
    forall x ensures !Reaches(again, x, x) {
      if p :| Path(again, p, x, x) {
        assert Path(nodes, p, x, x);
        assert Reaches(nodes, x, x);
      }
    }
  }

  /** The nodes of a graph, listed in an executable order. */
  ghost predicate Relisted(nodes: seq<Node>, order: seq<string>, again: seq<Node>) {
    |again| == |order| && forall i :: 0 <= i < |order| ==> again[i] == Node(order[i], DependsOf(nodes, order[i]))
  }

  lemma ListedIsDistinct(nodes: seq<Node>, order: seq<string>, again: seq<Node>)
    requires Executable(nodes, order) && Relisted(nodes, order, again)
    ensures Distinct(again)
  {
    forall i, j | 0 <= i < j < |again| ensures again[i].name != again[j].name {
      assert order[i] != order[j];
    }
  }

  lemma ListedHasSameNodes(nodes: seq<Node>, order: seq<string>, again: seq<Node>)
    requires Distinct(nodes) && Executable(nodes, order) && Relisted(nodes, order, again)
    ensures forall n :: n in again <==> n in nodes
  {
    forall n | n in again ensures n in nodes {
      var i :| 0 <= i < |again| && again[i] == n;
      assert order[i] in order;
      var m :| m in nodes && m.name == order[i];
      DependsOfNode(nodes, m);
    }
    forall n | n in nodes ensures n in again {
      assert n.name in Names(nodes) && n.name in order;
      var i :| 0 <= i < |order| && order[i] == n.name;
      DependsOfNode(nodes, n);
      assert again[i] == n;
    }
  }

  lemma ListedIsValid(nodes: seq<Node>, again: seq<Node>)
    requires Valid(nodes) && Relisted(nodes, L.LevelOrder(nodes), again)
    ensures Valid(again) && forall n :: n in again <==> n in nodes
  {
    hide L.LevelOrder, Executable, Relisted;
    DependenciesComeFirst(nodes);
    ListedParts(nodes, L.LevelOrder(nodes), again);
  }

  lemma ListedParts(nodes: seq<Node>, order: seq<string>, again: seq<Node>)
    requires Valid(nodes) && Executable(nodes, order) && Relisted(nodes, order, again)
    ensures Valid(again) && forall n :: n in again <==> n in nodes
  {
    ListedIsDistinct(nodes, order, again);
    ListedHasSameNodes(nodes, order, again);
    ReorderedIsValid(nodes, again);
  }
}
