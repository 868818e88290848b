/** `dag.Levels`: a memoised depth-first search that levels a dependency graph, or
    says why it cannot. */
module Levels {
  import opened Graph
  import opened Seqs
  import opened Strings

  datatype LevelsError = Duplicate(name: string) | UnknownDependency(name: string) | Circular(name: string)

  datatype LevelsResult = Ok(levels: map<string, nat>, order: seq<string>) | Err(error: LevelsError)

  datatype Resolved = Level(lvl: nat) | Stop(error: LevelsError)

  // ----------------------------------------------------------- specification

  ghost function LevelMap(nodes: seq<Node>): (m: map<string, nat>)
    requires Acyclic(nodes)
  {
    AcyclicReachesNoCycle(nodes);
    map a | a in Names(nodes) :: Graph.Level(nodes, a)
  }

  /** The names on one level, in declaration order. */
  function OnLevel(nodes: seq<Node>, levels: map<string, nat>, lvl: nat): seq<string>
    requires forall n :: n in nodes ==> n.name in levels
  {
    if |nodes| == 0 then []
    else (if levels[nodes[0].name] == lvl then [nodes[0].name] else []) + OnLevel(nodes[1..], levels, lvl)
  }

  /** Levels 0 .. bound-1, one after the other. */
  function LevelsBelow(nodes: seq<Node>, levels: map<string, nat>, bound: nat): seq<string>
    requires forall n :: n in nodes ==> n.name in levels
  {
    if bound == 0 then [] else LevelsBelow(nodes, levels, bound - 1) + OnLevel(nodes, levels, bound - 1)
  }

  /** The flat execution order: ascending levels, declaration order within a level. */
  ghost function LevelOrder(nodes: seq<Node>): seq<string>
    requires Acyclic(nodes)
  {
    LevelsBelow(nodes, LevelMap(nodes), |Names(nodes)| + 1)
  }

  /** `a` depends on something that cannot be levelled. */
  ghost predicate Troubled(nodes: seq<Node>, a: string) {
    ReachesCycle(nodes, a) || exists x :: Reaches(nodes, a, x) && x !in Names(nodes)
  }

  /** What an error reports is really there. */
  ghost predicate ErrorIsReal(nodes: seq<Node>, e: LevelsError) {
    match e
    case Duplicate(x) =>
      exists i, j :: 0 <= i < j < |nodes| && nodes[i].name == nodes[j].name == x && Distinct(nodes[..j])
    case UnknownDependency(x) => Distinct(nodes) && x !in Names(nodes) && FirstTrouble(nodes, x)
    case Circular(x) => Distinct(nodes) && Reaches(nodes, x, x) && FirstTrouble(nodes, x)
  }

  /** `x` is found from the first declared node from which anything is wrong. */
  ghost predicate FirstTrouble(nodes: seq<Node>, x: string) {
    exists i :: 0 <= i < |nodes| && (nodes[i].name == x || Reaches(nodes, nodes[i].name, x))
                && forall j :: 0 <= j < i ==> !Troubled(nodes, nodes[j].name)
  }

  // ------------------------------------------------------------ what is known

  /** Everything memoised so far is right, and its dependencies are memoised too. */
  ghost predicate Memoised(nodes: seq<Node>, levels: map<string, nat>) {
    forall a :: a in levels ==>
      a in Names(nodes) && !ReachesCycle(nodes, a) && levels[a] == Graph.Level(nodes, a)
      && forall b :: Edge(nodes, a, b) ==> b in levels
  }

  lemma MemoisedIsNotTroubled(nodes: seq<Node>, levels: map<string, nat>, a: string)
    requires Memoised(nodes, levels) && a in levels
    ensures !Troubled(nodes, a)
  {
    forall x | Reaches(nodes, a, x) ensures x in Names(nodes) { MemoisedCloses(nodes, levels, a, x); }
  }

  lemma {:induction false} MemoisedCloses(nodes: seq<Node>, levels: map<string, nat>, a: string, x: string)
    requires Memoised(nodes, levels) && a in levels && Reaches(nodes, a, x)
    ensures x in levels
    decreases Graph.Level(nodes, a)
  {
    var b := FirstEdge(nodes, a, x);
    LevelDrops(nodes, a, b);
    if b != x { MemoisedCloses(nodes, levels, b, x); }
  }

  /** `maxDep` is the highest level among `depends`, or -1 when there are none. */
  ghost predicate Scanned(levels: map<string, nat>, depends: seq<string>, maxDep: int) {
    (forall d :: d in depends ==> d in levels && levels[d] <= maxDep)
    && (maxDep == -1 || exists d :: d in depends && levels[d] == maxDep)
  }

  ghost predicate Extends(before: map<string, nat>, after: map<string, nat>) {
    forall a :: a in before ==> a in after && after[a] == before[a]
  }

  lemma ScanOne(before: map<string, nat>, after: map<string, nat>, depends: seq<string>, maxDep: int, dep: string)
    requires Scanned(before, depends, maxDep) && Extends(before, after) && dep in after
    ensures Scanned(after, depends + [dep], if after[dep] > maxDep then after[dep] else maxDep)
  {
    if after[dep] <= maxDep && maxDep != -1 {
      var d :| d in depends && before[d] == maxDep;
      assert d in depends + [dep] && after[d] == maxDep;
    } else {
      assert dep in depends + [dep];
    }
  }

  /** The step of the recurrence: one more than the highest dependency. */
  lemma LevelOfDepends(nodes: seq<Node>, levels: map<string, nat>, n: Node, maxDep: int)
    requires Distinct(nodes) && n in nodes && Memoised(nodes, levels)
    requires Scanned(levels, n.depends, maxDep)
    ensures !ReachesCycle(nodes, n.name) && Graph.Level(nodes, n.name) == maxDep + 1
    ensures maxDep >= -1
  {
    DependsOfNode(nodes, n);
    forall b ensures Edge(nodes, n.name, b) <==> b in n.depends { EdgeIsDepends(nodes, n.name, b); }
    ReachesCycleStep(nodes, n.name);
    if maxDep != -1 {
      var d :| d in n.depends && levels[d] == maxDep;
      LevelDrops(nodes, n.name, d);
    }
    if Graph.Level(nodes, n.name) > 0 {
      var b := LevelAttained(nodes, n.name);
    }
  }

  // ------------------------------------------------------------- the search

  /** `visiting` marks exactly the names on the call stack. */
  ghost predicate Marks(visiting: map<string, bool>, stack: seq<string>) {
    forall a :: (a in visiting && visiting[a]) <==> a in stack
  }

  lemma MarkOne(nodes: seq<Node>, visiting: map<string, bool>, stack: seq<string>, name: string)
    requires Marks(visiting, stack) && name !in stack && name in Names(nodes)
    ensures Marks(visiting[name := true], stack + [name])
    ensures Names(nodes) - Elements(stack + [name]) < Names(nodes) - Elements(stack)
  {
    assert Elements(stack + [name]) == Elements(stack) + {name};
    assert name in Names(nodes) - Elements(stack);
  }

  lemma UnmarkOne(visiting: map<string, bool>, stack: seq<string>, name: string)
    requires Marks(visiting, stack + [name]) && name !in stack
    ensures Marks(visiting[name := false], stack)
  {
    assert forall a :: a in stack + [name] <==> a in stack || a == name;
  }

  /** The variables `resolve` captures. */
  class Resolver {
    const nodes: seq<Node>
    const index: map<string, nat>
    var levels: map<string, nat>
    var visiting: map<string, bool>

    constructor (nodes: seq<Node>, index: map<string, nat>)
      ensures this.nodes == nodes && this.index == index && levels == map[] && visiting == map[]
    {
      this.nodes, this.index := nodes, index;
      levels, visiting := map[], map[];
    }

    ghost predicate Valid()
      reads this
    {
      Distinct(nodes)
      && index.Keys == Names(nodes)
      && (forall a :: a in index ==> index[a] < |nodes| && nodes[index[a]].name == a)
      && Memoised(nodes, levels)
    }

    /** `stack` is the chain of calls that led here; it is what `visiting` marks. */
    method Resolve(name: string, ghost stack: seq<string>) returns (r: Resolved)
      requires Valid()
      requires Chain(nodes, stack + [name])
      requires |stack| == 0 ==> name in Names(nodes)
      requires Marks(visiting, stack)
      modifies this
      decreases Names(nodes) - Elements(stack)
      ensures Valid() && Extends(old(levels), levels)
      ensures r.Level? ==> Marks(visiting, stack)
      ensures r.Level? ==> name in levels && levels[name] == r.lvl
      ensures r.Stop? ==> Explains(nodes, name, r.error)
    {
      if name in levels {
        return Level(levels[name]);
      }
      if name !in index {
        return Stop(UnknownDependency(name));
      }
      var i := index[name];
      if name in visiting && visiting[name] {
        StackHasCycle(nodes, stack, name);
        return Stop(Circular(name));
      }
      MarkOne(nodes, visiting, stack, name);
      visiting := visiting[name := true];
      var maxDep: int := -1;
      var depends := nodes[i].depends;
      for k := 0 to |depends|
        invariant Valid() && Extends(old(levels), levels)
        invariant Marks(visiting, stack + [name])
        invariant Scanned(levels, depends[..k], maxDep)
      {
        var dep := depends[k];
        assert Edge(nodes, name, dep);
        ExtendStack(nodes, stack, name, dep);
        ghost var before := levels;
        var d := Resolve(dep, stack + [name]);
        if d.Stop? {
          ExplainsUp(nodes, name, dep, d.error);
          return d;
        }
        ScanOne(before, levels, depends[..k], maxDep, dep);
        PrefixNext(depends, k);
        if d.lvl > maxDep { maxDep := d.lvl; }
      }
      WholePrefix(depends);
      UnmarkOne(visiting, stack, name);
      visiting := visiting[name := false];
      LevelOfDepends(nodes, levels, nodes[i], maxDep);
      var lvl := maxDep + 1;
      MemoiseOne(nodes, levels, nodes[i], lvl);
      levels := levels[name := lvl];
      return Level(lvl);
    }
  }

  /** An error met while resolving `name` is about something `name` depends on. */
  ghost predicate Explains(nodes: seq<Node>, name: string, e: LevelsError) {
    (e.name == name || Reaches(nodes, name, e.name))
    && match e
       case Duplicate(_) => false
       case UnknownDependency(x) => x !in Names(nodes)
       case Circular(x) => Reaches(nodes, x, x)
  }

  lemma ExplainsUp(nodes: seq<Node>, name: string, dep: string, e: LevelsError)
    requires Edge(nodes, name, dep) && Explains(nodes, dep, e)
    ensures Explains(nodes, name, e)
  {
    EdgeReaches(nodes, name, dep);
    if e.name != dep { EdgeThenReaches(nodes, name, dep, e.name); }
  }

  lemma StackHasCycle(nodes: seq<Node>, stack: seq<string>, name: string)
    requires Chain(nodes, stack + [name]) && name in stack
    ensures Reaches(nodes, name, name)
  {
    var p := stack + [name];
    var i :| 0 <= i < |stack| && stack[i] == name;
    ChainSlice(nodes, p, i, |p|);
    assert Path(nodes, p[i..|p|], name, name);
  }

  lemma ExtendStack(nodes: seq<Node>, stack: seq<string>, name: string, dep: string)
    requires Chain(nodes, stack + [name]) && Edge(nodes, name, dep)
    ensures Chain(nodes, stack + [name] + [dep])
  {
  }

  lemma MemoiseOne(nodes: seq<Node>, levels: map<string, nat>, n: Node, lvl: nat)
    requires Distinct(nodes) && n in nodes && Memoised(nodes, levels)
    requires forall d :: d in n.depends ==> d in levels
    requires !ReachesCycle(nodes, n.name) && Graph.Level(nodes, n.name) == lvl
    ensures Memoised(nodes, levels[n.name := lvl])
  {
    DependsOfNode(nodes, n);
    forall b | Edge(nodes, n.name, b) ensures b in levels { EdgeIsDepends(nodes, n.name, b); }
  }

  /** `Levels` succeeds exactly on the graphs that have a level for every node. */
  method Levels(nodes: seq<Node>) returns (r: LevelsResult)
    ensures r.Ok? <==> Valid(nodes)
    ensures r.Ok? ==> r.levels == LevelMap(nodes) && r.order == LevelOrder(nodes)
    ensures r.Err? ==> ErrorIsReal(nodes, r.error)
  {
    hide ErrorIsReal, LevelMap, LevelsBelow, IndexOf, Reaches, Memoised;
    var index: map<string, nat> := map[];
    NothingIndexed(nodes);
    for i := 0 to |nodes|
      invariant IndexOf(nodes, i, index)
    {
      if nodes[i].name in index {
        DuplicateFound(nodes, i, index);
        return Err(Duplicate(nodes[i].name));
      }
      IndexOne(nodes, i, index);
      index := index[nodes[i].name := i];
    }
    IndexComplete(nodes, index);

    var search := new Resolver(nodes, index);
    var stop, maxLevel := ResolveAll(search);
    if stop.Some? { return Err(stop.value); }
    AllMemoised(nodes, search.levels);
    var order := Flatten(nodes, search.levels, maxLevel);
    LevelsBelowSettles(nodes, search.levels, maxLevel + 1, |Names(nodes)| + 1);
    return Ok(search.levels, order);
  }

  lemma NothingIndexed(nodes: seq<Node>)
    ensures IndexOf(nodes, 0, map[])
  {
  }

  lemma IndexComplete(nodes: seq<Node>, index: map<string, nat>)
    requires IndexOf(nodes, |nodes|, index)
    ensures Distinct(nodes) && index.Keys == Names(nodes) && Memoised(nodes, map[])
    ensures forall a :: a in index ==> index[a] < |nodes| && nodes[index[a]].name == a
  {
    WholePrefix(nodes);
  }

  /** The first loop over the nodes: resolves each, keeping the highest level. */
  method ResolveAll(search: Resolver) returns (stop: Option<LevelsError>, maxLevel: nat)
    requires search.Valid() && search.levels == map[] && Marks(search.visiting, [])
    modifies search
    ensures search.Valid()
    ensures stop == None ==> Levelled(search.nodes, search.levels, maxLevel)
    ensures stop.Some? ==> ErrorIsReal(search.nodes, stop.value) && !Graph.Valid(search.nodes)
  {
    hide ErrorIsReal, Graph.Valid, Memoised;
    var nodes := search.nodes;
    maxLevel := 0;
    for i := 0 to |nodes|
      invariant search.Valid() && Marks(search.visiting, [])
      invariant Levelled(nodes[..i], search.levels, maxLevel)
    {
      ghost var before := search.levels;
      SingletonChain(nodes, nodes[i].name);
      var l := search.Resolve(nodes[i].name, []);
      if l.Stop? {
        TroubleFound(nodes, before, i, l.error, maxLevel);
        return Some(l.error), maxLevel;
      }
      LevelledNext(nodes, i, before, search.levels, maxLevel);
      if l.lvl > maxLevel { maxLevel := l.lvl; }
    }
    WholePrefix(nodes);
    return None, maxLevel;
  }

  lemma SingletonChain(nodes: seq<Node>, a: string)
    ensures Chain(nodes, [] + [a])
  {
  }

  lemma LevelledNext(nodes: seq<Node>, i: nat, before: map<string, nat>, after: map<string, nat>, maxLevel: nat)
    requires i < |nodes| && Levelled(nodes[..i], before, maxLevel) && Extends(before, after) && nodes[i].name in after
    ensures Levelled(nodes[..i + 1], after, if after[nodes[i].name] > maxLevel then after[nodes[i].name] else maxLevel)
  {
    PrefixNext(nodes, i);
    assert nodes[i] in nodes[..i + 1];
    if maxLevel > 0 {
      var n :| n in nodes[..i] && before[n.name] == maxLevel;
      assert n in nodes[..i + 1] && after[n.name] == maxLevel;
    }
  }

  ghost predicate IndexOf(nodes: seq<Node>, i: nat, index: map<string, nat>)
    requires i <= |nodes|
  {
    Distinct(nodes[..i]) && index.Keys == Names(nodes[..i])
    && forall a :: a in index ==> index[a] < i && nodes[index[a]].name == a
  }

  lemma IndexOne(nodes: seq<Node>, i: nat, index: map<string, nat>)
    requires i < |nodes| && IndexOf(nodes, i, index) && nodes[i].name !in index
    ensures IndexOf(nodes, i + 1, index[nodes[i].name := i])
  {
    PrefixNext(nodes, i);
    forall j | 0 <= j < i ensures nodes[j].name != nodes[i].name { assert nodes[j] in nodes[..i]; }
  }

  lemma DuplicateFound(nodes: seq<Node>, i: nat, index: map<string, nat>)
    requires i < |nodes| && IndexOf(nodes, i, index) && nodes[i].name in index
    ensures ErrorIsReal(nodes, Duplicate(nodes[i].name)) && !Valid(nodes)
  {
    assert nodes[index[nodes[i].name]].name == nodes[i].name;
  }

  /** Every node has its level, and `maxLevel` is the highest, 0 when there is none. */
  ghost predicate Levelled(nodes: seq<Node>, levels: map<string, nat>, maxLevel: nat) {
    (forall n :: n in nodes ==> n.name in levels && levels[n.name] <= maxLevel)
    && (maxLevel == 0 || exists n :: n in nodes && levels[n.name] == maxLevel)
  }

  lemma TroubleFound(nodes: seq<Node>, levels: map<string, nat>, i: nat, e: LevelsError, maxLevel: nat)
    requires i < |nodes| && Distinct(nodes) && Memoised(nodes, levels) && Levelled(nodes[..i], levels, maxLevel)
    requires Explains(nodes, nodes[i].name, e)
    ensures ErrorIsReal(nodes, e) && !Valid(nodes)
  {
    forall j | 0 <= j < i ensures !Troubled(nodes, nodes[j].name) {
      assert nodes[j] in nodes[..i];
      MemoisedIsNotTroubled(nodes, levels, nodes[j].name);
    }
    assert FirstTrouble(nodes, e.name);
    TroubleIsInvalid(nodes, e);
  }

  method Flatten(nodes: seq<Node>, levels: map<string, nat>, maxLevel: nat) returns (order: seq<string>)
    requires forall n :: n in nodes ==> n.name in levels
    ensures order == LevelsBelow(nodes, levels, maxLevel + 1)
  {
    order := [];
    for lvl := 0 to maxLevel + 1
      invariant order == LevelsBelow(nodes, levels, lvl)
    {
      for i := 0 to |nodes|
        invariant order == LevelsBelow(nodes, levels, lvl) + OnLevel(nodes[..i], levels, lvl)
      {
        PrefixNext(nodes, i);
        OnLevelAppend(nodes[..i], [nodes[i]], levels, lvl);
        if levels[nodes[i].name] == lvl { order := order + [nodes[i].name]; }
      }
      WholePrefix(nodes);
    }
  }

  lemma TroubleIsInvalid(nodes: seq<Node>, e: LevelsError)
    requires ErrorIsReal(nodes, e)
    ensures !Valid(nodes)
  {
    match e
    case Duplicate(x) =>
    case Circular(x) =>
    case UnknownDependency(x) =>
      if Closed(nodes) {
        var i :| 0 <= i < |nodes| && (nodes[i].name == x || Reaches(nodes, nodes[i].name, x));
        var b := LastEdge(nodes, nodes[i].name, x);
      }
  }

  lemma AllMemoised(nodes: seq<Node>, levels: map<string, nat>)
    requires Distinct(nodes) && Memoised(nodes, levels)
    requires forall n :: n in nodes ==> n.name in levels
    ensures Valid(nodes) && levels == LevelMap(nodes)
    ensures forall n :: n in nodes ==> levels[n.name] <= |Names(nodes)|
  {
    forall n, d | n in nodes && d in n.depends ensures d in Names(nodes) {
      assert Edge(nodes, n.name, d);
    }
    forall a ensures !Reaches(nodes, a, a) {
      if Reaches(nodes, a, a) {
        var b := FirstEdge(nodes, a, a);
        assert a in levels && ReachesCycle(nodes, a);
      }
    }
    assert levels.Keys == Names(nodes);
    forall n | n in nodes ensures levels[n.name] <= |Names(nodes)| {
      var len := LongestExists(nodes, n.name);
      LevelUnique(nodes, n.name, len);
    }
  }

  lemma {:induction false} OnLevelAppend(a: seq<Node>, b: seq<Node>, levels: map<string, nat>, lvl: nat)
    requires forall n :: n in a + b ==> n.name in levels
    ensures forall n :: n in a ==> n.name in levels
    ensures forall n :: n in b ==> n.name in levels
    ensures OnLevel(a + b, levels, lvl) == OnLevel(a, levels, lvl) + OnLevel(b, levels, lvl)
  {
    assert forall n :: n in a ==> n in a + b;
    assert forall n :: n in b ==> n in a + b;
    if |a| == 0 {
      assert a + b == b;
    } else {
      assert (a + b)[1..] == a[1..] + b;
      OnLevelAppend(a[1..], b, levels, lvl);
    }
  }

  /** Levels above every node's add nothing. */
  lemma {:induction false} LevelsBelowSettles(nodes: seq<Node>, levels: map<string, nat>, a: nat, b: nat)
    requires forall n :: n in nodes ==> n.name in levels && levels[n.name] < a && levels[n.name] < b
    ensures LevelsBelow(nodes, levels, a) == LevelsBelow(nodes, levels, b)
    decreases a + b
  {
    if a < b {
      OnLevelEmpty(nodes, levels, b - 1);
      LevelsBelowSettles(nodes, levels, a, b - 1);
    } else if b < a {
      OnLevelEmpty(nodes, levels, a - 1);
      LevelsBelowSettles(nodes, levels, a - 1, b);
    }
  }

  lemma {:induction false} OnLevelEmpty(nodes: seq<Node>, levels: map<string, nat>, lvl: nat)
    requires forall n :: n in nodes ==> n.name in levels && levels[n.name] != lvl
    ensures OnLevel(nodes, levels, lvl) == []
  {
    if |nodes| > 0 { OnLevelEmpty(nodes[1..], levels, lvl); }
  }
}
