/** What becomes of each base job of a GitHub workflow: listed as skipped, expanded into jobs,
    or -- with an empty matrix -- gone without a trace. */
module BaseJobs {
  import opened Graph
  import opened Pipeline
  import opened Seqs
  import GitHub
  import Expansion
  import Matrix
  import T = LevelTheorems
  import L = Levels
  import S = Skips

  ghost predicate IsListed(skipped: seq<SkippedJob>, a: string) {
    exists i :: 0 <= i < |skipped| && skipped[i].name == a
  }

  ghost predicate HasJob(bases: seq<GitHub.Base>, jobs: seq<Job>, a: string) {
    exists j :: j in jobs && Expansion.Owns(GitHub.Expansions(bases), a, j.name)
  }

  lemma {:induction false} ListedIffReason(order: seq<string>, reasons: map<string, S.Reason>, a: string)
    ensures IsListed(GitHub.SkippedList(order, reasons), a) <==> a in order && a in reasons
  {
    if |order| > 0 {
      var n := |order| - 1;
      var init, all := GitHub.SkippedList(order[..n], reasons), GitHub.SkippedList(order, reasons);
      ListedIffReason(order[..n], reasons, a);
      assert order == order[..n] + [order[n]];
      assert forall i :: 0 <= i < |init| ==> all[i] == init[i];
      assert order[n] in reasons ==> all[|init|].name == order[n];
    }
  }

  /** Every base job is good or bad. */
  lemma {:induction false} ParsedOrBad(bases: seq<GitHub.Base>, a: string)
    requires a in GitHub.Order(bases)
    ensures a in GitHub.ParsedOf(bases) || a in GitHub.BadOf(bases)
  {
    var n := |bases| - 1;
    if bases[n].name != a {
      var i :| 0 <= i < |bases| && GitHub.Order(bases)[i] == a;
      assert GitHub.Order(bases[..n])[i] == a;
      ParsedOrBad(bases[..n], a);
    }
  }

  /** A declared base job is kept or skipped, never both. */
  lemma KeptOrSkipped(bases: seq<GitHub.Base>, a: string)
    requires a in GitHub.Order(bases)
    ensures var nodes := GitHub.BaseNodes(GitHub.Order(bases), GitHub.ParsedOf(bases));
            a in Names(GitHub.KeptNodes(bases)) <==> a !in S.SkipSet(nodes, GitHub.BadOf(bases).Keys)
  {
    hide S.Keep;
    var nodes := GitHub.BaseNodes(GitHub.Order(bases), GitHub.ParsedOf(bases));
    GitHub.KeptNames(bases, Names(GitHub.KeptNodes(bases)));
    GitHub.ParsedAreGood(bases);
    ParsedOrBad(bases, a);
    S.SkipSetIsLeastFixpoint(nodes, GitHub.BadOf(bases).Keys);
  }

  lemma JobIffCombination(bases: seq<GitHub.Base>, jobs: seq<Job>, a: string)
    requires GitHub.JobsInLevelOrder(bases, GitHub.ExpandedNodes(bases), jobs)
    ensures HasJob(bases, jobs, a) <==> Expansion.HasCombos(GitHub.Expansions(bases), a)
  {
    hide GitHub.KeptNodes, L.LevelOrder, GitHub.JobsFor, Expansion.Expand;
    var exp := GitHub.Expansions(bases);
    if Expansion.HasCombos(exp, a) {
      var x := exp[a][0];
      Expansion.ExpandNamesMembers(GitHub.KeptNodes(bases), exp, a, x);
      GitHub.JobsAreNodes(GitHub.ParsedOf(bases), exp, GitHub.ExpandedNodes(bases), jobs);
      var n :| n in GitHub.ExpandedNodes(bases) && n.name == x;
      var i :| 0 <= i < |jobs| && NodesOf(jobs)[i] == n;
      assert jobs[i] in jobs && Expansion.Owns(exp, a, jobs[i].name);
    }
  }

  /** "Each base job yields a job or a skip" holds for a declared base job exactly when it has
      a combination unless it is skipped. */
  lemma ShownIffCombination(bases: seq<GitHub.Base>, jobs: seq<Job>, skipped: seq<SkippedJob>, a: string)
    requires GitHub.JobsInLevelOrder(bases, GitHub.ExpandedNodes(bases), jobs)
    requires GitHub.SkipsExplained(bases, skipped) && a in GitHub.Order(bases)
    ensures IsListed(skipped, a) || HasJob(bases, jobs, a)
            <==> (a in Names(GitHub.KeptNodes(bases)) ==> Expansion.HasCombos(GitHub.Expansions(bases), a))
    ensures IsListed(skipped, a) <==> a !in Names(GitHub.KeptNodes(bases))
  {
    hide GitHub.JobsInLevelOrder, GitHub.KeptNodes, GitHub.Expansions, Expansion.HasCombos, IsListed, HasJob, S.SkipSet,
         S.Unwinds;
    var nodes := GitHub.BaseNodes(GitHub.Order(bases), GitHub.ParsedOf(bases));
    var reasons: map<string, S.Reason> :|
      reasons.Keys == S.SkipSet(nodes, GitHub.BadOf(bases).Keys)
      && skipped == GitHub.SkippedList(GitHub.Order(bases), reasons);
    ListedIffReason(GitHub.Order(bases), reasons, a);
    KeptOrSkipped(bases, a);
    JobIffCombination(bases, jobs, a);
  }

  /** A matrix leaves no combination exactly when one of its axes is empty. */
  lemma {:induction false} NoCombinationIffEmptyAxis(axes: seq<Matrix.Axis>, a: nat)
    requires a <= |axes|
    ensures Matrix.Radix(axes, a) == 0 <==> exists b :: a <= b < |axes| && axes[b].values == []
    decreases |axes| - a
  {
    if a < |axes| {
      NoCombinationIffEmptyAxis(axes, a + 1);
      if axes[a].values != [] { Positive(|axes[a].values|, Matrix.Radix(axes, a + 1)); }
    }
  }

  lemma Positive(x: nat, y: nat)
    requires x > 0
    ensures x * y == 0 <==> y == 0
  {
  }

  /** A workflow that shows it: "gone" has an empty matrix axis and so no combination. */
  const VANISHING := [GitHub.Base("gone", GitHub.Good([], [])),
                      GitHub.Base("stays", GitHub.Good([GitHub.Def("stays", "")], []))]

  lemma EmptyAxisVanishes(jobs: seq<Job>, skipped: seq<SkippedJob>)
    requires GitHub.JobsInLevelOrder(VANISHING, GitHub.ExpandedNodes(VANISHING), jobs)
    requires GitHub.SkipsExplained(VANISHING, skipped)
    ensures "gone" in GitHub.Order(VANISHING) && !IsListed(skipped, "gone") && !HasJob(VANISHING, jobs, "gone")
  {
    hide GitHub.JobsInLevelOrder, GitHub.SkipsExplained, IsListed, HasJob;
    assert VANISHING[0].name == "gone" && GitHub.Order(VANISHING)[0] == "gone";
    NothingIsSkipped();
    KeptOrSkipped(VANISHING, "gone");
    ShownIffCombination(VANISHING, jobs, skipped, "gone");
  }

  lemma NothingIsSkipped()
    ensures GitHub.BadOf(VANISHING) == map[]
    ensures "gone" in GitHub.ParsedOf(VANISHING) && GitHub.ParsedOf(VANISHING)["gone"] == GitHub.Good([], [])
    ensures forall nodes :: S.SkipSet(nodes, {}) == {}
  {
    assert VANISHING[..1] == [VANISHING[0]] && [VANISHING[0]][..0] == [];
  }

  /** That workflow parses: its other job is the whole pipeline. */
  lemma VanishingParses()
    ensures GitHub.NeedsKnown(VANISHING) && GitHub.ExpandedNodes(VANISHING) == [Node("stays", [])]
    ensures Valid(GitHub.ExpandedNodes(VANISHING))
  {
    hide GitHub.KeptNodes, GitHub.Expansions, Valid, Expansion.Expand;
    VanishingKept();
    VanishingExpansions([Node("gone", []), Node("stays", [])]);
    VanishingExpands(map["gone" := [], "stays" := ["stays"]]);
    SingleIsValid("stays");
  }

  lemma ExpandAppend(base: seq<Node>, n: Node, exp: Expansion.Combinations)
    requires n.name in exp && n.depends == []
    ensures Expansion.Expand(base + [n], exp) == Expansion.Expand(base, exp) + Expansion.ExpandNames(exp[n.name], [])
  {
    AppendOne(base, n);
  }

  lemma VanishingExpands(exp: Expansion.Combinations)
    requires exp == map["gone" := [], "stays" := ["stays"]]
    ensures Expansion.Expand([Node("gone", []), Node("stays", [])], exp) == [Node("stays", [])]
  {
    ExpandAppend([], Node("gone", []), exp);
    ExpandAppend([Node("gone", [])], Node("stays", []), exp);
    assert Expansion.Expand([], exp) == [];
    hide Expansion.Expand, Expansion.ExpandNames;
    assert [] + [Node("gone", [])] == [Node("gone", [])];
    assert [Node("gone", [])] + [Node("stays", [])] == [Node("gone", []), Node("stays", [])];
  }

  lemma BaseNodesAppend(order: seq<string>, a: string, parsed: map<string, GitHub.ParsedJob>)
    requires a in parsed && parsed[a].Good?
    ensures GitHub.BaseNodes(order + [a], parsed) == GitHub.BaseNodes(order, parsed) + [Node(a, parsed[a].needs)]
  {
    AppendOne(order, a);
  }

  lemma VanishingParsed()
    ensures GitHub.ParsedOf(VANISHING) == map["gone" := VANISHING[0].job, "stays" := VANISHING[1].job]
  {
    assert VANISHING[..1] == [VANISHING[0]] && [VANISHING[0]][..0] == [];
    assert GitHub.ParsedOf([]) == map[];
    assert GitHub.ParsedOf([VANISHING[0]]) == map["gone" := VANISHING[0].job];
  }

  lemma VanishingKept()
    ensures GitHub.KeptNodes(VANISHING) == [Node("gone", []), Node("stays", [])]
  {
    var order, parsed := GitHub.Order(VANISHING), GitHub.ParsedOf(VANISHING);
    hide GitHub.ParsedOf, S.SkipSet;
    VanishingParsed();
    var nodes := [Node("gone", []), Node("stays", [])];
    assert [] + ["gone"] == ["gone"] && order == ["gone"] + ["stays"];
    assert GitHub.BaseNodes([], parsed) == [];
    BaseNodesAppend([], "gone", parsed);
    BaseNodesAppend(["gone"], "stays", parsed);
    assert GitHub.BaseNodes(order, parsed) == nodes;
    NothingIsSkipped();
    assert GitHub.BadOf(VANISHING).Keys == {} && S.SkipSet(nodes, {}) == {};
    KeepAll(nodes);
  }

  lemma {:induction false} KeepAll(nodes: seq<Node>)
    ensures S.Keep(nodes, {}) == nodes
  {
    if |nodes| > 0 { KeepAll(nodes[1..]); }
  }

  lemma VanishingExpansions(kept: seq<Node>)
    requires kept == [Node("gone", []), Node("stays", [])] && GitHub.KeptNodes(VANISHING) == kept
    ensures GitHub.Expansions(VANISHING) == map["gone" := [], "stays" := ["stays"]]
  {
    hide GitHub.KeptNodes;
    assert VANISHING[..1] == [VANISHING[0]] && [VANISHING[0]][..0] == [];
    assert kept[0] in kept && kept[1] in kept;
    var defs := [GitHub.Def("stays", "")];
    assert GitHub.DefNames([]) == [] && GitHub.DefNames(defs) == ["stays"];
  }

  lemma SingleIsValid(name: string)
    ensures Valid([Node(name, [])])
  {
    forall x ensures !Reaches([Node(name, [])], x, x) {
      if Reaches([Node(name, [])], x, x) { var y := FirstEdge([Node(name, [])], x, x); }
    }
  }
}
