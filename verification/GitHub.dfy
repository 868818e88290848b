/** The GitHub Actions front end: names of matrix combinations, skipping, expansion of
    `needs:`, levelling and assembly.  Starts from decoded base jobs. */
module GitHub {
  import opened Graph
  import opened Pipeline
  import opened Seqs
  import opened Strings
  import Expansion
  import Matrix
  import L = Levels
  import LevelTheorems
  import S = Skips

  // ------------------------------------------------- names of combinations

  /** The job name `parseJob` gives a combination. */
  ghost predicate IsJobName(jobName: string, hasMatrix: bool, combo: Matrix.Combo, name: string) {
    if hasMatrix && |combo| > 0
    then exists text :: Matrix.IsLabel(combo, text) && name == jobName + " (" + text + ")"
    else name == jobName
  }

  method CombinationNames(jobName: string, strategy: Matrix.Strategy)
    returns (names: seq<string>, combos: seq<Matrix.Combo>)
    ensures |names| == |combos|
    ensures strategy.NoMatrix? ==> combos == [map[]]
    ensures strategy.MatrixOf? ==>
              exists keys :: Lists(keys, strategy.entries.Keys) && (forall k :: k in keys ==> k in strategy.entries)
                && combos == Matrix.Product(Matrix.AxesOf(keys, strategy.entries))
    ensures forall i :: 0 <= i < |names| ==> IsJobName(jobName, strategy.MatrixOf?, combos[i], names[i])
  {
    hide Matrix.Product, Matrix.AxesOf, Matrix.IsLabel, Matrix.Enumerates, Matrix.ReservedIn, Lists;
    var hasMatrix, notApplied;
    combos, hasMatrix, notApplied := Matrix.MatrixCombinations(strategy);
    names := [];
    for i := 0 to |combos|
      invariant |names| == i && forall k :: 0 <= k < i ==> IsJobName(jobName, hasMatrix, combos[k], names[k])
    {
      var name := jobName;
      if hasMatrix && |combos[i]| > 0 {
        var text := Matrix.ComboLabel(combos[i]);
        name := jobName + " (" + text + ")";
      }
      names := names + [name];
    }
  }

  /** One job's combinations have the same name only if they have the same label. */
  lemma SameNameSameLabel(jobName: string, c: Matrix.Combo, d: Matrix.Combo, name: string) returns (text: string)
    requires |c| > 0 && |d| > 0 && IsJobName(jobName, true, c, name) && IsJobName(jobName, true, d, name)
    ensures Matrix.IsLabel(c, text) && Matrix.IsLabel(d, text)
  {
    text :| Matrix.IsLabel(c, text) && name == jobName + " (" + text + ")";
    var u :| Matrix.IsLabel(d, u) && name == jobName + " (" + u + ")";
    var p := jobName + " (";
    assert name[|p|..|name| - 1] == text && name[|p|..|name| - 1] == u;
  }

  // ------------------------------------------------------------ decoded input

  datatype Def = Def(name: string, body: string)

  /** What `parseJob` made of a base job: a reason to skip it, or its combinations and its
      needs, still base names. */
  datatype ParsedJob = Bad(reason: string) | Good(defs: seq<Def>, needs: seq<string>)

  datatype Base = Base(name: string, job: ParsedJob)

  datatype Result =
    | Ok(p: Pipeline)
    | UnknownNeed(job: string, need: string)
    | NotLevelled(error: L.LevelsError)
    | NoRunnableJobs

  // ----------------------------------------------------------- specification

  function DefNames(defs: seq<Def>): seq<string> {
    Map((d: Def) => d.name, defs)
  }

  /** The last usable entry of each base name. */
  function ParsedOf(bases: seq<Base>): map<string, ParsedJob> {
    if |bases| == 0 then map[]
    else
      var b := bases[|bases| - 1];
      if b.job.Good? then ParsedOf(bases[..|bases| - 1])[b.name := b.job] else ParsedOf(bases[..|bases| - 1])
  }

  function BadOf(bases: seq<Base>): map<string, S.Reason> {
    if |bases| == 0 then map[]
    else
      var b := bases[|bases| - 1];
      if b.job.Bad? then BadOf(bases[..|bases| - 1])[b.name := S.Given(b.job.reason)] else BadOf(bases[..|bases| - 1])
  }

  lemma {:induction false} ParsedAreGood(bases: seq<Base>)
    ensures forall a :: a in ParsedOf(bases) ==> ParsedOf(bases)[a].Good?
  {
    if |bases| > 0 { ParsedAreGood(bases[..|bases| - 1]); }
  }

  /** One node per entry whose base name was parsed, in file order. */
  function BaseNodes(order: seq<string>, parsed: map<string, ParsedJob>): seq<Node> {
    if |order| == 0 then []
    else
      var a := order[|order| - 1];
      BaseNodes(order[..|order| - 1], parsed)
      + (if a in parsed && parsed[a].Good? then [Node(a, parsed[a].needs)] else [])
  }

  function Order(bases: seq<Base>): seq<string> {
    Map((b: Base) => b.name, bases)
  }

  /** The base jobs that still run. */
  ghost function KeptNodes(bases: seq<Base>): seq<Node> {
    var nodes := BaseNodes(Order(bases), ParsedOf(bases));
    S.Keep(nodes, S.SkipSet(nodes, BadOf(bases).Keys))
  }

  ghost function Expansions(bases: seq<Base>): map<string, seq<string>> {
    map a | a in Names(KeptNodes(bases)) && a in ParsedOf(bases) && ParsedOf(bases)[a].Good? ::
      DefNames(ParsedOf(bases)[a].defs)
  }

  ghost function ExpandedNodes(bases: seq<Base>): seq<Node> {
    Expansion.Expand(KeptNodes(bases), Expansions(bases))
  }

  /** The jobs of the result: the expanded names in level order, each with its level's stage,
      its resolved needs and a definition of its own. */
  ghost predicate JobsInLevelOrder(bases: seq<Base>, nodes: seq<Node>, jobs: seq<Job>) {
    Valid(nodes) && JobsFor(ParsedOf(bases), Expansions(bases), nodes, L.LevelOrder(nodes), jobs)
  }

  ghost predicate JobsFor(parsed: map<string, ParsedJob>, exp: map<string, seq<string>>, nodes: seq<Node>,
                          order: seq<string>, jobs: seq<Job>)
    requires Acyclic(nodes)
  {
    |jobs| == |order| && forall i :: 0 <= i < |jobs| ==> IsJobAt(parsed, exp, nodes, order[i], jobs[i])
  }

  ghost predicate IsJobAt(parsed: map<string, ParsedJob>, exp: map<string, seq<string>>, nodes: seq<Node>,
                          name: string, j: Job)
    requires Acyclic(nodes)
  {
    j.name == name && name in L.LevelMap(nodes)
    && j.stage == LevelStage("", L.LevelMap(nodes)[name])
    && j.dependsOn == DependsOf(nodes, name)
    && HasDef(parsed, exp, Def(name, j.body))
  }

  /** Every skipped entry, in file order, with the reason recorded for its name. */
  function SkippedList(order: seq<string>, reasons: map<string, S.Reason>): seq<SkippedJob> {
    if |order| == 0 then []
    else
      var a := order[|order| - 1];
      SkippedList(order[..|order| - 1], reasons) + (if a in reasons then [SkippedJob(a, reasons[a])] else [])
  }

  // ----------------------------------------------------------------- the code

  /** Phase 1. */
  method Collect(bases: seq<Base>)
    returns (parsed: map<string, ParsedJob>, bad: map<string, S.Reason>, order: seq<string>)
    ensures parsed == ParsedOf(bases) && bad == BadOf(bases) && order == Order(bases)
  {
    parsed, bad, order := map[], map[], [];
    for i := 0 to |bases|
      invariant parsed == ParsedOf(bases[..i]) && bad == BadOf(bases[..i]) && order == Order(bases)[..i]
    {
      PrefixNext(bases, i);
      order := order + [bases[i].name];
      match bases[i].job
      case Bad(reason) => bad := bad[bases[i].name := S.Given(reason)];
      case Good(_, _) => parsed := parsed[bases[i].name := bases[i].job];
    }
    WholePrefix(bases);
    WholePrefix(Order(bases));
  }

  /** Phase 2, up to the call of `FilterSkipped`. */
  method NodesToFilter(order: seq<string>, parsed: map<string, ParsedJob>) returns (nodes: seq<Node>)
    requires forall a :: a in parsed ==> parsed[a].Good?
    ensures nodes == BaseNodes(order, parsed)
  {
    nodes := [];
    for i := 0 to |order|
      invariant nodes == BaseNodes(order[..i], parsed)
    {
      PrefixNext(order, i);
      if order[i] in parsed {
        nodes := nodes + [Node(order[i], parsed[order[i]].needs)];
      }
    }
    WholePrefix(order);
  }

  /** The kept entries of the file order, with their needs. */
  function KeptOf(order: seq<string>, parsed: map<string, ParsedJob>, kept: set<string>): seq<Node> {
    if |order| == 0 then []
    else
      var a := order[|order| - 1];
      KeptOf(order[..|order| - 1], parsed, kept)
      + (if a in kept && a in parsed && parsed[a].Good? then [Node(a, parsed[a].needs)] else [])
  }

  lemma {:induction false} KeptOfIsKeep(order: seq<string>, parsed: map<string, ParsedJob>, kept: set<string>,
                                        skipped: set<string>)
    requires forall a :: a in order && a in parsed && parsed[a].Good? ==> (a in kept <==> a !in skipped)
    ensures KeptOf(order, parsed, kept) == S.Keep(BaseNodes(order, parsed), skipped)
  {
    if |order| > 0 {
      var n := |order| - 1;
      var a := order[n];
      assert a in order && forall x :: x in order[..n] ==> x in order;
      KeptOfIsKeep(order[..n], parsed, kept, skipped);
      if a in parsed && parsed[a].Good? {
        var last := [Node(a, parsed[a].needs)];
        S.KeepAppend(BaseNodes(order[..n], parsed), last, skipped);
        assert last[1..] == [];
      } else {
        assert BaseNodes(order, parsed) == BaseNodes(order[..n], parsed);
      }
    }
  }

  lemma {:induction false} BaseNodeNames(order: seq<string>, parsed: map<string, ParsedJob>)
    ensures forall n :: n in BaseNodes(order, parsed) ==>
              n.name in order && n.name in parsed && parsed[n.name].Good? && n.depends == parsed[n.name].needs
    ensures forall a :: a in order && a in parsed && parsed[a].Good? ==>
            Node(a, parsed[a].needs) in BaseNodes(order, parsed)
  {
    if |order| > 0 {
      var n := |order| - 1;
      BaseNodeNames(order[..n], parsed);
      assert order == order[..n] + [order[n]];
    }
  }

  /** `defs` holds, for every expanded name, a definition of a kept base job. */
  ghost predicate DefsFor(parsed: map<string, ParsedJob>, exp: map<string, seq<string>>, defs: map<string, Def>) {
    (forall a, x :: Expansion.Owns(exp, a, x) ==> x in defs)
    && forall x :: x in defs ==> defs[x].name == x && HasDef(parsed, exp, defs[x])
  }

  ghost predicate HasDef(parsed: map<string, ParsedJob>, exp: map<string, seq<string>>, d: Def) {
    exists a :: a in exp && a in parsed && parsed[a].Good? && d in parsed[a].defs
  }

  /** The inner loop: one base job's combinations enter `defs`. */
  method AddDefs(more: seq<Def>, before: map<string, Def>) returns (names: seq<string>, defs: map<string, Def>)
    ensures names == DefNames(more)
    ensures (forall x :: x in before ==> x in defs) && (forall i :: 0 <= i < |more| ==> more[i].name in defs)
    ensures forall x :: x in defs ==> (x in before && defs[x] == before[x]) || (defs[x] in more && defs[x].name == x)
  {
    names, defs := [], before;
    for j := 0 to |more|
      invariant names == DefNames(more)[..j]
      invariant (forall x :: x in before ==> x in defs) && (forall i :: 0 <= i < j ==> more[i].name in defs)
      invariant forall x :: x in defs ==>
                (x in before && defs[x] == before[x]) || (defs[x] in more && defs[x].name == x)
    {
      defs := defs[more[j].name := more[j]];
      names := names + [more[j].name];
    }
    WholePrefix(DefNames(more));
  }

  lemma DefsForNext(parsed: map<string, ParsedJob>, exp: map<string, seq<string>>, before: map<string, Def>,
                    a: string, defs: map<string, Def>)
    requires DefsFor(parsed, exp, before) && a in parsed && parsed[a].Good?
    requires a in exp ==> exp[a] == DefNames(parsed[a].defs)
    requires (forall x :: x in before ==> x in defs)
             && (forall i :: 0 <= i < |parsed[a].defs| ==> parsed[a].defs[i].name in defs)
    requires forall x :: x in defs ==>
               (x in before && defs[x] == before[x]) || (defs[x] in parsed[a].defs && defs[x].name == x)
    ensures DefsFor(parsed, exp[a := DefNames(parsed[a].defs)], defs)
  {
    var exp' := exp[a := DefNames(parsed[a].defs)];
    forall b, x | Expansion.Owns(exp', b, x) ensures x in defs {
      if b == a {
        var i :| 0 <= i < |exp'[a]| && exp'[a][i] == x;
        assert parsed[a].defs[i].name == x;
      } else {
        assert Expansion.Owns(exp, b, x);
      }
    }
    forall x | x in defs ensures defs[x].name == x && HasDef(parsed, exp', defs[x]) {
      if defs[x] in parsed[a].defs && defs[x].name == x {
        assert a in exp';
      } else {
        var b :| b in exp && b in parsed && parsed[b].Good? && before[x] in parsed[b].defs;
        assert b in exp';
      }
    }
  }

  /** Phase 3, first loop. */
  method Expand(order: seq<string>, parsed: map<string, ParsedJob>, kept: set<string>)
    returns (exp: map<string, seq<string>>, defs: map<string, Def>)
    requires forall a :: a in parsed ==> parsed[a].Good?
    requires forall a :: a in kept ==> a in parsed && a in order
    ensures exp == map a | a in kept && a in parsed && parsed[a].Good? :: DefNames(parsed[a].defs)
    ensures DefsFor(parsed, exp, defs)
  {
    hide DefsFor;
    exp, defs := map[], map[];
    assert DefsFor(parsed, exp, defs) by { NoDefs(parsed); }
    for i := 0 to |order|
      invariant exp == map a | a in kept && a in order[..i] && a in parsed && parsed[a].Good? ::
                         DefNames(parsed[a].defs)
      invariant DefsFor(parsed, exp, defs)
    {
      PrefixNext(order, i);
      if order[i] in kept {
        ghost var before := defs;
        var names;
        names, defs := AddDefs(parsed[order[i]].defs, defs);
        DefsForNext(parsed, exp, before, order[i], defs);
        exp := exp[order[i] := names];
      }
    }
    WholePrefix(order);
  }

  lemma NoDefs(parsed: map<string, ParsedJob>)
    ensures DefsFor(parsed, map[], map[])
  {
  }

  /** `d` is the first of `needs` that names no kept base job. */
  ghost predicate FirstUnknownIn(needs: seq<string>, exp: map<string, seq<string>>, d: string) {
    d !in exp && exists k: nat :: k < |needs| && needs[k] == d && forall m :: 0 <= m < k ==> needs[m] in exp
  }

  /** Every need of a base job that has combinations names a kept base job. */
  ghost predicate NeedsKnownIn(nodes: seq<Node>, exp: map<string, seq<string>>) {
    forall n, d :: n in nodes && Expansion.HasCombos(exp, n.name) && d in n.depends ==> d in exp
  }

  /** The first base job with combinations and an unknown need, and the first such need. */
  ghost predicate FirstUnknownNeed(nodes: seq<Node>, exp: map<string, seq<string>>, job: string, need: string) {
    exists i: nat :: i < |nodes| && nodes[i].name == job && Expansion.HasCombos(exp, job)
      && FirstUnknownIn(nodes[i].depends, exp, need) && NeedsKnownIn(nodes[..i], exp)
  }

  /** The needs of an expanded job, or the first one that names no kept base job. */
  method ResolveNeeds(needs: seq<string>, exp: map<string, seq<string>>)
    returns (unknown: Option<string>, resolved: seq<string>)
    ensures unknown == None ==> resolved == Expansion.ResolveNeeds(needs, exp) && forall d :: d in needs ==> d in exp
    ensures unknown.Some? ==> FirstUnknownIn(needs, exp, unknown.value)
  {
    resolved := [];
    for k := 0 to |needs|
      invariant resolved == Expansion.ResolveNeeds(needs[..k], exp)
      invariant forall m :: 0 <= m < k ==> needs[m] in exp
    {
      PrefixNext(needs, k);
      if needs[k] !in exp { return Some(needs[k]), []; }
      resolved := resolved + exp[needs[k]];
    }
    WholePrefix(needs);
    return None, resolved;
  }

  /** The node of an expanded name, as recorded name by name; of a repeated name the last. */
  function LastDepends(nodes: seq<Node>): map<string, seq<string>> {
    if |nodes| == 0 then map[]
    else LastDepends(nodes[..|nodes| - 1])[nodes[|nodes| - 1].name := nodes[|nodes| - 1].depends]
  }

  lemma {:induction false} LastDependsIsDependsOf(nodes: seq<Node>, n: Node)
    requires Distinct(nodes) && n in nodes
    ensures n.name in LastDepends(nodes) && LastDepends(nodes)[n.name] == n.depends
  {
    var k := |nodes| - 1;
    if n != nodes[k] {
      assert nodes == nodes[..k] + [nodes[k]];
      var i :| 0 <= i < k && nodes[i] == n;
      assert nodes[i].name != nodes[k].name;
      LastDependsIsDependsOf(nodes[..k], n);
    }
  }

  lemma LastDependsAppend(nodes: seq<Node>, n: Node)
    ensures LastDepends(nodes + [n]) == LastDepends(nodes)[n.name := n.depends]
  {
    AppendOne(nodes, n);
  }

  /** The inner loop: the nodes of one base job's combinations. */
  method AddCombinations(names: seq<string>, needs: seq<string>, exp: map<string, seq<string>>,
                         before: seq<Node>, recorded: map<string, seq<string>>)
    returns (unknown: Option<string>, nodes: seq<Node>, needsByName: map<string, seq<string>>)
    requires recorded == LastDepends(before)
    ensures unknown == None ==>
              nodes == before + Expansion.ExpandNames(names, Expansion.ResolveNeeds(needs, exp))
              && needsByName == LastDepends(nodes) && (names != [] ==> forall d :: d in needs ==> d in exp)
    ensures unknown.Some? ==> names != [] && FirstUnknownIn(needs, exp, unknown.value)
  {
    hide LastDepends, Expansion.ResolveNeeds, Expansion.ExpandNames;
    nodes, needsByName := before, recorded;
    ghost var all := Expansion.ExpandNames(names, Expansion.ResolveNeeds(needs, exp));
    assert before + all[..0] == before;
    for k := 0 to |names|
      invariant nodes == before + all[..k] && needsByName == LastDepends(nodes)
      invariant k > 0 ==> forall d :: d in needs ==> d in exp
    {
      var need, resolved := ResolveNeeds(needs, exp);
      if need.Some? { return need, [], map[]; }
      PrefixNext(all, k);
      LastDependsAppend(nodes, Node(names[k], resolved));
      nodes := nodes + [Node(names[k], resolved)];
      needsByName := needsByName[names[k] := resolved];
    }
    WholePrefix(all);
    return None, nodes, needsByName;
  }

  /** Phase 3, second loop: the expanded nodes, or the need that stops the parse. */
  method BuildNodes(order: seq<string>, parsed: map<string, ParsedJob>, kept: set<string>,
                    exp: map<string, seq<string>>)
    returns (unknown: Option<(string, string)>, nodes: seq<Node>, needsByName: map<string, seq<string>>)
    requires forall a :: a in parsed ==> parsed[a].Good?
    requires forall a :: a in kept ==> a in parsed && a in exp
    requires exp.Keys == kept
    ensures unknown == None ==>
              nodes == Expansion.Expand(KeptOf(order, parsed, kept), exp) && needsByName == LastDepends(nodes)
              && NeedsKnownIn(KeptOf(order, parsed, kept), exp)
    ensures unknown.Some? ==> FirstUnknownNeed(KeptOf(order, parsed, kept), exp, unknown.value.0, unknown.value.1)
  {
    hide KeptOf, Expansion.Expand, LastDepends, Expansion.ResolveNeeds, Expansion.ExpandNames;
    nodes, needsByName := [], map[];
    NothingKept(parsed, kept, exp);
    for i := 0 to |order|
      invariant nodes == Expansion.Expand(KeptOf(order[..i], parsed, kept), exp) && needsByName == LastDepends(nodes)
      invariant NeedsKnownIn(KeptOf(order[..i], parsed, kept), exp)
    {
      var a := order[i];
      KeptNext(order, parsed, kept, exp, i);
      if a in kept {
        var unknown';
        unknown', nodes, needsByName := AddCombinations(exp[a], parsed[a].needs, exp, nodes, needsByName);
        if unknown'.Some? {
          UnknownFound(order, parsed, kept, exp, i, unknown'.value);
          return Some((a, unknown'.value)), [], map[];
        }
      }
    }
    WholePrefix(order);
    return None, nodes, needsByName;
  }

  lemma NothingKept(parsed: map<string, ParsedJob>, kept: set<string>, exp: map<string, seq<string>>)
    ensures KeptOf([], parsed, kept) == [] && Expansion.Expand([], exp) == [] && LastDepends([]) == map[]
  {
  }

  lemma KeptNext(order: seq<string>, parsed: map<string, ParsedJob>, kept: set<string>, exp: map<string, seq<string>>,
                 i: nat)
    requires i < |order|
    requires forall a :: a in parsed ==> parsed[a].Good?
    requires forall a :: a in kept ==> a in parsed && a in exp
    ensures order[i] in kept ==>
              var n := Node(order[i], parsed[order[i]].needs);
              KeptOf(order[..i + 1], parsed, kept) == KeptOf(order[..i], parsed, kept) + [n]
              && Expansion.Expand(KeptOf(order[..i + 1], parsed, kept), exp)
                 == Expansion.Expand(KeptOf(order[..i], parsed, kept), exp)
                    + Expansion.ExpandNames(exp[n.name], Expansion.ResolveNeeds(n.depends, exp))
    ensures order[i] !in kept ==> KeptOf(order[..i + 1], parsed, kept) == KeptOf(order[..i], parsed, kept)
  {
    PrefixNext(order, i);
    if order[i] in kept {
      var n := Node(order[i], parsed[order[i]].needs);
      AppendOne(KeptOf(order[..i], parsed, kept), n);
    }
  }

  lemma {:induction false} KeptOfPrefix(order: seq<string>, parsed: map<string, ParsedJob>, kept: set<string>, i: nat)
    requires i <= |order|
    ensures KeptOf(order[..i], parsed, kept) <= KeptOf(order, parsed, kept)
    decreases |order|
  {
    if i < |order| {
      KeptOfPrefix(order[..|order| - 1], parsed, kept, i);
      assert order[..|order| - 1][..i] == order[..i];
    } else {
      WholePrefix(order);
    }
  }

  lemma UnknownFound(order: seq<string>, parsed: map<string, ParsedJob>, kept: set<string>,
                     exp: map<string, seq<string>>, i: nat,
                     need: string)
    requires i < |order| && forall a :: a in parsed ==> parsed[a].Good?
    requires order[i] in kept && forall a :: a in kept ==> a in parsed && a in exp
    requires NeedsKnownIn(KeptOf(order[..i], parsed, kept), exp)
    requires exp[order[i]] != [] && FirstUnknownIn(parsed[order[i]].needs, exp, need)
    ensures FirstUnknownNeed(KeptOf(order, parsed, kept), exp, order[i], need)
  {
    hide KeptOf, Expansion.Expand, FirstUnknownIn, NeedsKnownIn;
    var before, all := KeptOf(order[..i], parsed, kept), KeptOf(order, parsed, kept);
    KeptNext(order, parsed, kept, exp, i);
    KeptOfPrefix(order, parsed, kept, i + 1);
    var n := |before|;
    assert all[n] == Node(order[i], parsed[order[i]].needs) && all[..n] == before;
  }

  // ----------------------------------------------------------------- assembly

  method Assemble(nodes: seq<Node>, ok: L.LevelsResult, defs: map<string, Def>, needsByName: map<string, seq<string>>,
                  ghost parsed: map<string, ParsedJob>, ghost exp: map<string, seq<string>>)
    returns (jobs: seq<Job>)
    requires Valid(nodes) && ok.Ok? && ok.levels == L.LevelMap(nodes) && ok.order == L.LevelOrder(nodes)
    requires needsByName == LastDepends(nodes)
    requires forall n :: n in nodes ==> n.name in defs
    requires DefsFor(parsed, exp, defs)
    ensures JobsFor(parsed, exp, nodes, L.LevelOrder(nodes), jobs)
  {
    hide L.LevelMap, L.LevelOrder, LastDepends, DefsFor, HasDef, LevelStage, Valid;
    jobs := [];
    AcyclicIfValid(nodes);
    LevelTheorems.DependenciesComeFirst(nodes);
    for i := 0 to |ok.order|
      invariant |jobs| == i
      invariant forall k :: 0 <= k < i ==> IsJobAt(parsed, exp, nodes, ok.order[k], jobs[k])
    {
      var name := ok.order[i];
      NodeNamed(nodes, name);
      DefOf(parsed, exp, defs, name);
      jobs := jobs + [Job(name, LevelStage("", ok.levels[name]), defs[name].body, needsByName[name])];
    }
  }

  lemma AcyclicIfValid(nodes: seq<Node>)
    requires Valid(nodes)
    ensures Acyclic(nodes)
  {
  }

  lemma DefOf(parsed: map<string, ParsedJob>, exp: map<string, seq<string>>, defs: map<string, Def>, name: string)
    requires DefsFor(parsed, exp, defs) && name in defs
    ensures HasDef(parsed, exp, Def(name, defs[name].body))
  {
  }

  lemma NodeNamed(nodes: seq<Node>, name: string)
    requires Valid(nodes) && name in Names(nodes)
    ensures Node(name, DependsOf(nodes, name)) in nodes && name in L.LevelMap(nodes)
    ensures name in LastDepends(nodes) && LastDepends(nodes)[name] == DependsOf(nodes, name)
  {
    var n :| n in nodes && n.name == name;
    DependsOfNode(nodes, n);
    LastDependsIsDependsOf(nodes, n);
  }

  /** The jobs are the expanded nodes, reordered. */
  lemma JobsAreNodes(parsed: map<string, ParsedJob>, exp: map<string, seq<string>>, nodes: seq<Node>, jobs: seq<Job>)
    requires Valid(nodes) && JobsFor(parsed, exp, nodes, L.LevelOrder(nodes), jobs)
    ensures Valid(NodesOf(jobs))
    ensures forall n :: n in NodesOf(jobs) <==> n in nodes
  {
    hide L.LevelOrder, HasDef, LevelStage;
    assert LevelTheorems.Relisted(nodes, L.LevelOrder(nodes), NodesOf(jobs));
    LevelTheorems.ListedIsValid(nodes, NodesOf(jobs));
  }

  method ListSkipped(order: seq<string>, reasons: map<string, S.Reason>) returns (skipped: seq<SkippedJob>)
    ensures skipped == SkippedList(order, reasons)
  {
    skipped := [];
    for i := 0 to |order|
      invariant skipped == SkippedList(order[..i], reasons)
    {
      PrefixNext(order, i);
      if order[i] in reasons { skipped := skipped + [SkippedJob(order[i], reasons[order[i]])]; }
    }
    WholePrefix(order);
  }

  /** The skipped list names exactly the skipped base jobs, with reasons that unwind to the
      problems found in phase 1. */
  ghost predicate SkipsExplained(bases: seq<Base>, skipped: seq<SkippedJob>) {
    var nodes := BaseNodes(Order(bases), ParsedOf(bases));
    exists reasons: map<string, S.Reason> :: reasons.Keys == S.SkipSet(nodes, BadOf(bases).Keys)
      && (forall a :: a in reasons ==> S.Unwinds(nodes, BadOf(bases), a, reasons[a]))
      && skipped == SkippedList(Order(bases), reasons)
  }

  ghost predicate NeedsKnown(bases: seq<Base>) {
    NeedsKnownIn(KeptNodes(bases), Expansions(bases))
  }

  ghost predicate NothingSkipped(bases: seq<Base>) {
    forall a :: a in Order(bases) ==> a !in S.SkipSet(BaseNodes(Order(bases), ParsedOf(bases)), BadOf(bases).Keys)
  }

  lemma {:induction false} NothingListed(order: seq<string>, reasons: map<string, S.Reason>)
    ensures SkippedList(order, reasons) == [] <==> forall a :: a in order ==> a !in reasons
  {
    if |order| > 0 {
      var n := |order| - 1;
      NothingListed(order[..n], reasons);
      assert order == order[..n] + [order[n]];
    }
  }

  lemma UnknownIsNotKnown(nodes: seq<Node>, exp: map<string, seq<string>>, job: string, need: string)
    requires FirstUnknownNeed(nodes, exp, job, need)
    ensures !NeedsKnownIn(nodes, exp)
  {
    var i: nat :| i < |nodes| && nodes[i].name == job && Expansion.HasCombos(exp, job)
                  && FirstUnknownIn(nodes[i].depends, exp, need);
    assert nodes[i] in nodes && need in nodes[i].depends;
  }

  method ParseInDir(bases: seq<Base>) returns (r: Result)
    ensures r.UnknownNeed? <==> !NeedsKnown(bases)
    ensures r.UnknownNeed? ==> FirstUnknownNeed(KeptNodes(bases), Expansions(bases), r.job, r.need)
    ensures r.NotLevelled? <==> NeedsKnown(bases) && !Valid(ExpandedNodes(bases))
    ensures r.NotLevelled? ==> L.ErrorIsReal(ExpandedNodes(bases), r.error)
    ensures r.Ok? ==> JobsInLevelOrder(bases, ExpandedNodes(bases), r.p.jobs) && SkipsExplained(bases, r.p.skipped)
    ensures r.Ok? ==> Valid(NodesOf(r.p.jobs))
    ensures r.Ok? ==>
            exists top :: IsTopLevel(L.LevelMap(ExpandedNodes(bases)), top) && r.p.stages == LevelStages("", top)
    ensures r.NoRunnableJobs? ==> SkipsExplained(bases, [])
    ensures r.NoRunnableJobs? <==> NeedsKnown(bases) && ExpandedNodes(bases) == [] && NothingSkipped(bases)
  {
    hide Valid, L.LevelMap, L.LevelOrder, L.ErrorIsReal, S.SkipSet, S.Unwinds, Expansion.Expand, JobsFor,
         DefsFor, LastDepends, BaseNodes, ParsedOf, BadOf, IsTopLevel, S.CascadeLog, KeptOf, NeedsKnownIn,
         FirstUnknownNeed;
    var parsed, bad, order := Collect(bases);
    ParsedAreGood(bases);
    var baseNodes := NodesToFilter(order, parsed);
    var keptNodes, reasons, log := S.FilterSkipped(baseNodes, bad);
    var kept := set n | n in keptNodes :: n.name;
    KeptNames(bases, kept);
    var exp, defs := Expand(order, parsed, kept);
    var unknown, nodes, needsByName := BuildNodes(order, parsed, kept, exp);
    KeptOfIsKeep(order, parsed, kept, S.SkipSet(baseNodes, bad.Keys));
    assert exp == Expansions(bases);
    if unknown.Some? {
      UnknownIsNotKnown(KeptNodes(bases), exp, unknown.value.0, unknown.value.1);
      return UnknownNeed(unknown.value.0, unknown.value.1);
    }
    assert nodes == ExpandedNodes(bases);
    var levels := L.Levels(nodes);
    EmptyIsValid();
    if levels.Err? { return NotLevelled(levels.error); }
    ExpandedHaveDefs(KeptNodes(bases), exp, parsed, defs);
    var jobs := Assemble(nodes, levels, defs, needsByName, parsed, exp);
    JobsAreNodes(parsed, exp, nodes, jobs);
    assert |nodes| > 0 ==> nodes[0] in NodesOf(jobs);
    var stages := StagesOf("", levels.levels);
    var skipped := ListSkipped(order, reasons);
    NothingListed(order, reasons);
    assert |jobs| > 0 ==> NodesOf(jobs)[0] in nodes;
    if |jobs| == 0 && |skipped| == 0 {
      return NoRunnableJobs;
    }
    return Ok(Pipeline(stages, jobs, skipped));
  }

  lemma KeptNames(bases: seq<Base>, kept: set<string>)
    requires kept == Names(KeptNodes(bases))
    ensures var nodes := BaseNodes(Order(bases), ParsedOf(bases));
            var skipped := S.SkipSet(nodes, BadOf(bases).Keys);
            (forall a :: a in kept ==> a in ParsedOf(bases) && a in Order(bases))
            && (forall a :: a in Order(bases) && a in ParsedOf(bases) && ParsedOf(bases)[a].Good? ==>
                  (a in kept <==> a !in skipped))
  {
    var order, parsed := Order(bases), ParsedOf(bases);
    var nodes := BaseNodes(order, parsed);
    var skipped := S.SkipSet(nodes, BadOf(bases).Keys);
    BaseNodeNames(order, parsed);
    LevelTheorems.KeepElements(nodes, skipped);
    forall a | a in order && a in parsed && parsed[a].Good? ensures a in kept <==> a !in skipped {
      var n := Node(a, parsed[a].needs);
      assert n in nodes;
      if a !in skipped { assert n in S.Keep(nodes, skipped); }
    }
  }

  lemma ExpandedHaveDefs(base: seq<Node>, exp: map<string, seq<string>>, parsed: map<string, ParsedJob>,
                         defs: map<string, Def>)
    requires DefsFor(parsed, exp, defs)
    ensures forall n :: n in Expansion.Expand(base, exp) ==> n.name in defs
  {
    forall m | m in Expansion.Expand(base, exp) ensures m.name in defs {
      Expansion.ExpandMembers(base, exp, m);
      var n :| n in base && n.name in exp && m.name in exp[n.name]
               && m.depends == Expansion.ResolveNeeds(n.depends, exp);
      assert Expansion.Owns(exp, n.name, m.name);
    }
  }

  // ------------------------------------------------------ which entry counts

  /** Of a repeated base name the last usable entry is expanded. */
  lemma {:induction false} LastGoodCounts(bases: seq<Base>, i: nat)
    requires i < |bases| && bases[i].job.Good?
    requires forall k :: i < k < |bases| && bases[k].name == bases[i].name ==> bases[k].job.Bad?
    ensures bases[i].name in ParsedOf(bases) && ParsedOf(bases)[bases[i].name] == bases[i].job
  {
    var n := |bases| - 1;
    if i < n { LastGoodCounts(bases[..n], i); }
  }

  /** And of the unusable ones the last gives the reason. */
  lemma {:induction false} LastBadCounts(bases: seq<Base>, i: nat)
    requires i < |bases| && bases[i].job.Bad?
    requires forall k :: i < k < |bases| && bases[k].name == bases[i].name ==> bases[k].job.Good?
    ensures bases[i].name in BadOf(bases) && BadOf(bases)[bases[i].name] == S.Given(bases[i].job.reason)
  {
    var n := |bases| - 1;
    if i < n { LastBadCounts(bases[..n], i); }
  }

  lemma {:induction false} CountedIsListed(bases: seq<Base>, a: string)
    ensures a in ParsedOf(bases) ==> exists i :: 0 <= i < |bases| && bases[i].name == a && bases[i].job.Good?
    ensures a in BadOf(bases) ==> exists i :: 0 <= i < |bases| && bases[i].name == a && bases[i].job.Bad?
  {
    if |bases| > 0 {
      var n := |bases| - 1;
      CountedIsListed(bases[..n], a);
      assert forall i :: 0 <= i < n ==> bases[..n][i] == bases[i];
    }
  }

  function ParsedNode(parsed: map<string, ParsedJob>): string -> Option<Node> {
    (a: string) => if a in parsed && parsed[a].Good? then Some(Node(a, parsed[a].needs)) else None
  }

  function SkippedFrom(reasons: map<string, S.Reason>): string -> Option<SkippedJob> {
    (a: string) => if a in reasons then Some(SkippedJob(a, reasons[a])) else None
  }

  /** Base jobs enter the graph, and skipped ones the list, in file order. */
  lemma {:induction false} BasesInOrder(order: seq<string>, parsed: map<string, ParsedJob>,
                                        reasons: map<string, S.Reason>)
    ensures Selected(order, ParsedNode(parsed), BaseNodes(order, parsed))
    ensures Selected(order, SkippedFrom(reasons), SkippedList(order, reasons))
  {
    if |order| == 0 {
      SelectedNone<string, Node>(ParsedNode(parsed));
      SelectedNone<string, SkippedJob>(SkippedFrom(reasons));
    } else {
      var init := order[..|order| - 1];
      BasesInOrder(init, parsed, reasons);
      SelectedLast(order, ParsedNode(parsed), BaseNodes(init, parsed));
      SelectedLast(order, SkippedFrom(reasons), SkippedList(init, reasons));
    }
  }

  /** What the name of a combination looks like. */
  lemma NameOfTwo(jobName: string, v: string, w: string)
    ensures IsJobName(jobName, true, map["node" := v, "os" := w], jobName + " (" + ("node=" + v + ", os=" + w) + ")")
    ensures IsJobName(jobName, false, map[], jobName) && IsJobName(jobName, true, map[], jobName)
  {
    Matrix.LabelOfTwo(v, w);
    var c: Matrix.Combo := map["node" := v, "os" := w];
    assert "node" in c.Keys && |c| == |c.Keys| > 0;
  }

  /** Every job's stage is "level-" and the digits of its level. */
  lemma JobsShowTheirLevel(bases: seq<Base>, nodes: seq<Node>, jobs: seq<Job>, j: Job)
    requires JobsInLevelOrder(bases, nodes, jobs) && j in jobs
    ensures |j.stage| > 6 && j.stage[..6] == "level-"
    ensures j.name in L.LevelMap(nodes) && ValueOf(j.stage[6..]) == L.LevelMap(nodes)[j.name]
  {
    hide L.LevelMap, L.LevelOrder, HasDef, LevelStage;
    var i :| 0 <= i < |jobs| && jobs[i] == j;
    assert IsJobAt(ParsedOf(bases), Expansions(bases), nodes, L.LevelOrder(nodes)[i], j);
    StageShowsLevel("", L.LevelMap(nodes)[j.name], j.stage);
    assert "" + "level-" == "level-";
  }
}
