/** Dependency graphs as the rest of PolyCI sees them: a list of named nodes, each
    listing the names it depends on.  Nothing here assumes that names are distinct,
    that a dependency is declared, or that the graph is acyclic. */
module Graph {

  datatype Node = Node(name: string, depends: seq<string>)

  function Names(nodes: seq<Node>): set<string> {
    set n | n in nodes :: n.name
  }

  ghost predicate Edge(nodes: seq<Node>, a: string, b: string) {
    exists n :: n in nodes && n.name == a && b in n.depends
  }

  ghost predicate Distinct(nodes: seq<Node>) {
    forall i, j :: 0 <= i < j < |nodes| ==> nodes[i].name != nodes[j].name
  }

  /** Every dependency is declared. */
  ghost predicate Closed(nodes: seq<Node>) {
    forall n, d :: n in nodes && d in n.depends ==> d in Names(nodes)
  }

  /** A walk along edges. */
  ghost predicate Chain(nodes: seq<Node>, p: seq<string>) {
    |p| > 0 && forall i, j :: 0 <= i && j == i + 1 && j < |p| ==> Edge(nodes, p[i], p[j])
  }

  ghost predicate Path(nodes: seq<Node>, p: seq<string>, a: string, b: string) {
    Chain(nodes, p) && |p| >= 2 && p[0] == a && p[|p| - 1] == b
  }

  /** `a` depends on `b`, directly or transitively. */
  ghost predicate Reaches(nodes: seq<Node>, a: string, b: string) {
    exists p :: Path(nodes, p, a, b)
  }

  ghost predicate Acyclic(nodes: seq<Node>) {
    forall a :: !Reaches(nodes, a, a)
  }

  /** `a` lies on a cycle or depends on something that does. */
  ghost predicate ReachesCycle(nodes: seq<Node>, a: string) {
    exists c :: (a == c || Reaches(nodes, a, c)) && Reaches(nodes, c, c)
  }

  ghost predicate Valid(nodes: seq<Node>) {
    Distinct(nodes) && Closed(nodes) && Acyclic(nodes)
  }

  /** `len` is the length of the longest dependency chain starting at `a`. */
  ghost predicate LongestFrom(nodes: seq<Node>, a: string, len: nat) {
    (exists p :: Chain(nodes, p) && p[0] == a && |p| == len + 1)
    && (forall p :: Chain(nodes, p) && p[0] == a ==> |p| <= len + 1)
  }

  // ------------------------------------------------------------------- walks

  lemma EdgeReaches(nodes: seq<Node>, a: string, b: string)
    requires Edge(nodes, a, b)
    ensures Reaches(nodes, a, b)
  {
    assert Path(nodes, [a, b], a, b);
  }

  lemma ChainPrepend(nodes: seq<Node>, a: string, p: seq<string>)
    requires Chain(nodes, p) && Edge(nodes, a, p[0])
    ensures Chain(nodes, [a] + p)
  {
  }

  lemma ChainSlice(nodes: seq<Node>, p: seq<string>, i: nat, j: nat)
    requires Chain(nodes, p) && i < j <= |p|
    ensures Chain(nodes, p[i..j])
  {
  }

  lemma EdgeThenReaches(nodes: seq<Node>, a: string, b: string, c: string)
    requires Edge(nodes, a, b) && Reaches(nodes, b, c)
    ensures Reaches(nodes, a, c)
  {
    var p :| Path(nodes, p, b, c);
    ChainPrepend(nodes, a, p);
    assert Path(nodes, [a] + p, a, c);
  }

  /** The first edge of a dependency. */
  lemma FirstEdge(nodes: seq<Node>, a: string, c: string) returns (b: string)
    requires Reaches(nodes, a, c)
    ensures Edge(nodes, a, b) && (b == c || Reaches(nodes, b, c))
  {
    var p :| Path(nodes, p, a, c);
    b := p[1];
    if |p| > 2 {
      ChainSlice(nodes, p, 1, |p|);
      assert Path(nodes, p[1..], b, c);
    }
  }

  /** The last edge of a dependency. */
  lemma LastEdge(nodes: seq<Node>, a: string, c: string) returns (b: string)
    requires Reaches(nodes, a, c)
    ensures Edge(nodes, b, c) && (b == a || Reaches(nodes, a, b))
  {
    var p :| Path(nodes, p, a, c);
    b := p[|p| - 2];
    if |p| > 2 {
      ChainSlice(nodes, p, 0, |p| - 1);
      assert Path(nodes, p[0..|p| - 1], a, b);
    }
  }

  /** A node reaches a cycle exactly when one of its dependencies does. */
  lemma ReachesCycleStep(nodes: seq<Node>, a: string)
    ensures ReachesCycle(nodes, a) <==> exists b :: Edge(nodes, a, b) && ReachesCycle(nodes, b)
  {
    if ReachesCycle(nodes, a) {
      var c :| (a == c || Reaches(nodes, a, c)) && Reaches(nodes, c, c);
      var b := FirstEdge(nodes, a, c);
      assert ReachesCycle(nodes, b);
    }
    if b :| Edge(nodes, a, b) && ReachesCycle(nodes, b) {
      var c :| (b == c || Reaches(nodes, b, c)) && Reaches(nodes, c, c);
      if b == c { EdgeReaches(nodes, a, b); } else { EdgeThenReaches(nodes, a, b, c); }
    }
  }

  lemma AcyclicReachesNoCycle(nodes: seq<Node>)
    ensures Acyclic(nodes) <==> forall a :: !ReachesCycle(nodes, a)
  {
    if !Acyclic(nodes) {
      var a :| Reaches(nodes, a, a);
      assert ReachesCycle(nodes, a);
    }
  }

  // -------------------------------------------------- long walks hit a cycle

  lemma EmptyIsValid()
    ensures Valid([])
  {
    forall a ensures !Reaches([], a, a) {
      if Reaches([], a, a) { var b := FirstEdge([], a, a); }
    }
  }

  lemma {:induction false} Pigeonhole(s: seq<string>, names: set<string>)
    requires forall x :: x in s ==> x in names
    requires forall i, j :: 0 <= i < j < |s| ==> s[i] != s[j]
    ensures |s| <= |names|
  {
    if |s| > 0 {
      Pigeonhole(s[1..], names - {s[0]});
    }
  }

  /** A walk with more edges than there are nodes runs into a cycle. */
  lemma LongChainReachesCycle(nodes: seq<Node>, p: seq<string>)
    requires Chain(nodes, p) && |p| > |Names(nodes)| + 1
    ensures ReachesCycle(nodes, p[0])
  {
    var q := p[..|p| - 1];
    forall x | x in q ensures x in Names(nodes) {
      var i :| 0 <= i < |q| && q[i] == x;
      assert Edge(nodes, p[i], p[i + 1]);
    }
    if forall i, j :: 0 <= i < j < |q| ==> q[i] != q[j] {
      Pigeonhole(q, Names(nodes));
      assert false;
    }
    var i, j :| 0 <= i < j < |q| && q[i] == q[j];
    ChainSlice(nodes, p, i, j + 1);
    var c := q[i];
    assert Path(nodes, p[i..j + 1], c, c);
    assert Reaches(nodes, c, c);
    if i > 0 {
      ChainSlice(nodes, p, 0, i + 1);
      assert Path(nodes, p[0..i + 1], p[0], c);
      assert Reaches(nodes, p[0], c);
    }
  }

  ghost predicate EdgeInto(nodes: seq<Node>, x: string, targets: set<string>) {
    exists y :: y in targets && Edge(nodes, x, y)
  }

  /** If every member of a set has an edge into the set, every member reaches a cycle. */
  lemma NoExitReachesCycle(nodes: seq<Node>, trapped: set<string>, a: string)
    requires a in trapped
    requires forall x {:trigger EdgeInto(nodes, x, trapped)} :: x in trapped ==> EdgeInto(nodes, x, trapped)
    ensures ReachesCycle(nodes, a)
  {
    var p := WalkInside(nodes, trapped, a, |Names(nodes)| + 2);
    LongChainReachesCycle(nodes, p);
  }

  lemma {:induction false} WalkInside(nodes: seq<Node>, trapped: set<string>, a: string, n: nat)
    returns (p: seq<string>)
    requires a in trapped && n > 0
    requires forall x {:trigger EdgeInto(nodes, x, trapped)} :: x in trapped ==> EdgeInto(nodes, x, trapped)
    ensures Chain(nodes, p) && |p| == n && p[0] == a
    decreases n
  {
    if n == 1 {
      p := [a];
    } else {
      assert EdgeInto(nodes, a, trapped);
      var b :| b in trapped && Edge(nodes, a, b);
      p := WalkInside(nodes, trapped, b, n - 1);
      ChainPrepend(nodes, a, p);
      p := [a] + p;
    }
  }

  // ------------------------------------------------------------------ levels

  lemma ShorterChain(nodes: seq<Node>, p: seq<string>, k: nat)
    requires Chain(nodes, p) && 0 < k <= |p|
    ensures exists q :: Chain(nodes, q) && q[0] == p[0] && |q| == k
  {
    ChainSlice(nodes, p, 0, k);
    assert p[0..k][0] == p[0];
  }

  /** Off the cycles, a longest chain exists. */
  lemma LongestExists(nodes: seq<Node>, a: string) returns (len: nat)
    requires !ReachesCycle(nodes, a)
    ensures LongestFrom(nodes, a, len) && len <= |Names(nodes)|
  {
    assert Chain(nodes, [a]);
    len := 0;
    while exists p :: Chain(nodes, p) && p[0] == a && |p| == len + 2
      invariant exists p :: Chain(nodes, p) && p[0] == a && |p| == len + 1
      invariant len <= |Names(nodes)|
      decreases |Names(nodes)| - len
    {
      var p :| Chain(nodes, p) && p[0] == a && |p| == len + 2;
      if |p| > |Names(nodes)| + 1 { LongChainReachesCycle(nodes, p); }
      len := len + 1;
    }
    forall p | Chain(nodes, p) && p[0] == a ensures |p| <= len + 1 {
      if |p| > len + 1 { ShorterChain(nodes, p, len + 2); }
    }
  }

  /** The length of the longest dependency chain from `a`. */
  ghost function Level(nodes: seq<Node>, a: string): (len: nat)
    requires !ReachesCycle(nodes, a)
    ensures LongestFrom(nodes, a, len)
  {
    assert exists l: nat :: LongestFrom(nodes, a, l) by { var l := LongestExists(nodes, a); }
    var l: nat :| LongestFrom(nodes, a, l);
    l
  }

  lemma LevelUnique(nodes: seq<Node>, a: string, len: nat)
    requires !ReachesCycle(nodes, a) && LongestFrom(nodes, a, len)
    ensures len == Level(nodes, a)
  {
    var l := Level(nodes, a);
    var p :| Chain(nodes, p) && p[0] == a && |p| == len + 1;
    var q :| Chain(nodes, q) && q[0] == a && |q| == l + 1;
  }

  /** A dependency sits on a strictly lower level. */
  lemma LevelDrops(nodes: seq<Node>, a: string, b: string)
    requires !ReachesCycle(nodes, a) && Edge(nodes, a, b)
    ensures !ReachesCycle(nodes, b) && Level(nodes, b) < Level(nodes, a)
  {
    ReachesCycleStep(nodes, a);
    var l := Level(nodes, b);
    var p :| Chain(nodes, p) && p[0] == b && |p| == l + 1;
    ChainPrepend(nodes, a, p);
    assert ([a] + p)[0] == a;
  }

  /** A level above zero is one more than the level of some dependency. */
  lemma LevelAttained(nodes: seq<Node>, a: string) returns (b: string)
    requires !ReachesCycle(nodes, a) && Level(nodes, a) > 0
    ensures Edge(nodes, a, b) && !ReachesCycle(nodes, b) && Level(nodes, a) == Level(nodes, b) + 1
  {
    var p :| Chain(nodes, p) && p[0] == a && |p| == Level(nodes, a) + 1;
    b := p[1];
    ChainSlice(nodes, p, 1, |p|);
    LevelDrops(nodes, a, b);
  }

  /** The same for a transitive dependency, so nodes on one level are unrelated. */
  lemma LevelDropsAlong(nodes: seq<Node>, a: string, c: string)
    requires !ReachesCycle(nodes, a) && Reaches(nodes, a, c)
    ensures !ReachesCycle(nodes, c) && Level(nodes, c) < Level(nodes, a)
    decreases Level(nodes, a)
  {
    var b := FirstEdge(nodes, a, c);
    LevelDrops(nodes, a, b);
    if b != c { LevelDropsAlong(nodes, b, c); }
  }

  // ------------------------------------------------------------ dependencies

  /** The dependency list of the first node called `a`, in declaration order. */
  function DependsOf(nodes: seq<Node>, a: string): seq<string> {
    if |nodes| == 0 then [] else if nodes[0].name == a then nodes[0].depends else DependsOf(nodes[1..], a)
  }

  lemma {:induction false} DependsOfNode(nodes: seq<Node>, n: Node)
    requires Distinct(nodes) && n in nodes
    ensures DependsOf(nodes, n.name) == n.depends
  {
    if nodes[0] != n {
      var i :| 0 <= i < |nodes| && nodes[i] == n;
      assert nodes[0].name != nodes[i].name;
      assert n == nodes[1..][i - 1];
      DependsOfNode(nodes[1..], n);
    }
  }

  lemma EdgeIsDepends(nodes: seq<Node>, a: string, b: string)
    requires Distinct(nodes)
    ensures Edge(nodes, a, b) <==> a in Names(nodes) && b in DependsOf(nodes, a)
  {
    if a in Names(nodes) {
      var m :| m in nodes && m.name == a;
      DependsOfNode(nodes, m);
    }
    if n :| n in nodes && n.name == a && b in n.depends {
      DependsOfNode(nodes, n);
    }
  }
}
