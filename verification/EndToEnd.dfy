/** From a decoded document through its front end to the scheduler. */
module EndToEnd {
  import opened Graph
  import opened Pipeline
  import opened Strings
  import opened Scheduler
  import opened SchedulerTheorems
  import GitLab
  import CircleCI
  import GitHub
  import Expansion
  import R = Run
  import opened Outcomes
  import L = Levels

  datatype Document =
    | GitLabFile(stages: seq<string>, entries: seq<GitLab.Entry>)
    | CircleCIFile(config: CircleCI.Config, order: seq<string>, workflows: map<string, seq<CircleCI.Ref>>)
    | GitHubFile(bases: seq<GitHub.Base>)
  {
    /** A CircleCI document lists the workflows it declares. */
    predicate WellFormed() {
      CircleCIFile? ==> forall w :: w in order ==> w in workflows
    }
  }

  /** What a front end may return for a document. */
  ghost predicate Produced(d: Document, jobs: seq<Job>)
    requires d.WellFormed()
  {
    match d
    case GitLabFile(stages, entries) => jobs == GitLab.Assigned(stages, GitLab.JobsOf(stages, entries))
    case CircleCIFile(config, order, workflows) => CircleCI.IsConcatenation(config, order, workflows, jobs)
    case GitHubFile(bases) => GitHub.JobsInLevelOrder(bases, GitHub.ExpandedNodes(bases), jobs)
  }

  datatype Outcome = NotParsed | Executed(jobs: seq<Job>, result: R.RunResult)

  method ParseDocument(d: Document) returns (jobs: Option<seq<Job>>)
    requires d.WellFormed()
    ensures jobs.Some? ==> Produced(d, jobs.value)
  {
    match d {
      case GitLabFile(stages, entries) =>
        var r := GitLab.Parse(stages, entries);
        jobs := if r.Ok? then Some(r.p.jobs) else None;
      case CircleCIFile(config, order, workflows) =>
        var r := CircleCI.Parse(config, order, workflows);
        jobs := if r.Ok? then Some(r.p.jobs) else None;
      case GitHubFile(bases) =>
        var r := GitHub.ParseInDir(bases);
        jobs := if r.Ok? then Some(r.p.jobs) else None;
    }
  }

  /** Whatever a front end returns, distinct names are all it takes to be a valid graph. */
  lemma ProducedIsSound(d: Document, jobs: seq<Job>)
    requires d.WellFormed() && Produced(d, jobs)
    ensures Distinct(NodesOf(jobs)) ==> Valid(NodesOf(jobs))
  {
    hide Distinct, Closed, Acyclic, GitLab.Assigned, GitLab.JobsOf, CircleCI.IsConcatenation, GitHub.JobsFor,
         NodesOf, L.LevelOrder;
    if Distinct(NodesOf(jobs)) {
      match d {
        case GitLabFile(stages, entries) => GitLab.ParsedIsSound(stages, entries);
        case CircleCIFile(config, order, workflows) => CircleCI.ConcatenationIsValid(config, order, workflows, jobs);
        case GitHubFile(bases) =>
          GitHub.JobsAreNodes(GitHub.ParsedOf(bases), GitHub.Expansions(bases), GitHub.ExpandedNodes(bases), jobs);
      }
    }
  }

  /** No front end's output can deadlock the scheduler: unless `Run` rejects a repeated name
      up front, no job ever waits for ever and every run ends within a bound that is known
      beforehand, whatever the jobs' outcomes. */
  lemma NeverDeadlocks(d: Document, jobs: seq<Job>, o: Oracle, schedule: seq<string>, s: Sys)
    requires d.WellFormed() && Produced(d, jobs) && Distinct(NodesOf(jobs))
    requires Runs(NodesOf(jobs), o, Init(NodesOf(jobs)), schedule, s)
    ensures Accepted(NodesOf(jobs))
    ensures |schedule| <= Measure(NodesOf(jobs), Init(NodesOf(jobs)), NodesOf(jobs))
    ensures AllExited(NodesOf(jobs), s) || exists j :: Enabled(NodesOf(jobs), s, j)
  {
    hide Produced, Distinct, Closed, Acyclic, Runs, Init, AllExited, NodesOf, Enabled;
    var nodes := NodesOf(jobs);
    ProducedIsSound(d, jobs);
    InitInv(nodes, o);
    RunsAreBounded(nodes, o, Init(nodes), schedule, s);
    if !AllExited(nodes, s) { AcyclicMakesProgress(nodes, o, s); }
  }

  /** `polyci run`: it never hangs. A repeated name is rejected; otherwise every job's fate is
      reported. */
  method RunDocument(d: Document, o: Oracle) returns (r: Outcome)
    requires d.WellFormed()
    ensures r.Executed? ==> Produced(d, r.jobs) && !r.result.NeverReturns? && !r.result.UnknownDependency?
    ensures r.Executed? ==> (r.result.DuplicateJob? <==> !Distinct(NodesOf(r.jobs)))
    ensures r.Executed? && Valid(NodesOf(r.jobs)) ==> R.ReportsFate(NodesOf(r.jobs), o, r.result)
  {
    hide Produced, Distinct, Closed, Acyclic, NodesOf, R.ReportsFate;
    var jobs := ParseDocument(d);
    if jobs == None { return NotParsed; }
    ProducedIsSound(d, jobs.value);
    var result := R.Run(NodesOf(jobs.value), o);
    return Executed(jobs.value, result);
  }

  // ---------------------------------------------------- stages while running

  /** Nothing starts before everything it transitively depends on has succeeded. */
  lemma {:induction false} PathSucceeded(jobs: seq<Node>, s: Sys, p: seq<string>, a: string, b: string)
    requires StartedAfterSuccess(jobs, s) && Path(jobs, p, a, b)
    requires a in s.states && HasStarted(s.states[a])
    ensures b in s.states && s.states[b] == Succeeded
    decreases |p|
  {
    assert Edge(jobs, p[0], p[1]);
    if |p| > 2 {
      ChainSlice(jobs, p, 1, |p|);
      PathSucceeded(jobs, s, p[1..], p[1], b);
    }
  }

  /** GitLab's stages act as barriers at run time although `Run` knows nothing of stages: when
      nobody depends on a job named "", in every reachable state, once a job has started, all
      jobs of earlier stages have succeeded. */
  lemma StagesAreBarriers(stages: seq<string>, entries: seq<GitLab.Entry>, o: Oracle, s: Sys, a: Job, b: Job)
    requires var jobs := GitLab.JobsOf(stages, entries);
             var nodes := NodesOf(GitLab.Assigned(stages, jobs));
             Distinct(nodes) && NoEmptyDependency(nodes) && Reachable(nodes, o, s)
             && a in jobs && b in jobs && GitLab.IndexOf(stages, b) < GitLab.IndexOf(stages, a)
             && a.name in s.states && HasStarted(s.states[a.name])
    ensures b.name in s.states && s.states[b.name] == Succeeded
  {
    hide Distinct, Closed, Acyclic, Reachable, NoEmptyDependency, StartedAfterSuccess, NodesOf, GitLab.JobsOf,
         GitLab.Assigned, GitLab.IndexOf;
    var jobs := GitLab.JobsOf(stages, entries);
    var nodes := NodesOf(GitLab.Assigned(stages, jobs));
    GitLab.ParsedIsSound(stages, entries);
    StartedAfterSuccessHolds(nodes, o, s);
    assert Reaches(nodes, a.name, b.name);
    var p :| Path(nodes, p, a.name, b.name);
    PathSucceeded(nodes, s, p, a.name, b.name);
  }

  /** The same over positions in the stage list: what comes earlier there has succeeded. */
  lemma EarlierStagesSucceeded(stages: seq<string>, entries: seq<GitLab.Entry>, o: Oracle, s: Sys, a: Job, i: nat,
                               b: Job, k: nat)
    requires var jobs := GitLab.JobsOf(stages, entries);
             var nodes := NodesOf(GitLab.Assigned(stages, jobs));
             Distinct(nodes) && NoEmptyDependency(nodes) && Reachable(nodes, o, s)
             && a in jobs && b in jobs && GitLab.LastAt(stages, a.stage, i)
             && GitLab.LastAt(stages, b.stage, k) && k < i
             && a.name in s.states && HasStarted(s.states[a.name])
    ensures b.name in s.states && s.states[b.name] == Succeeded
  {
    hide Distinct, Reachable, NoEmptyDependency, NodesOf, GitLab.JobsOf, GitLab.Assigned,
         GitLab.StageIndex, GitLab.LastAt,
         HasStarted;
    GitLab.StageIndexIsPosition(stages, a.stage, i);
    GitLab.StageIndexIsPosition(stages, b.stage, k);
    StagesAreBarriers(stages, entries, o, s, a, b);
  }

  /** The stages of the started jobs are barriers in this state. */
  ghost predicate BarriersHold(stages: seq<string>, jobs: seq<Job>, s: Sys) {
    forall a, b :: a in jobs && b in jobs && GitLab.IndexOf(stages, b) < GitLab.IndexOf(stages, a)
                   && a.name in s.states && HasStarted(s.states[a.name]) ==>
      b.name in s.states && s.states[b.name] == Succeeded
  }

  /** Over all outcomes and schedules this holds exactly when no job depends on one named "":
      with an entry "" in a stage before another job's, that job starts although "" failed. */
  lemma BarriersHoldIffNoEmptyDependency(stages: seq<string>, entries: seq<GitLab.Entry>)
    requires Distinct(NodesOf(GitLab.Assigned(stages, GitLab.JobsOf(stages, entries))))
    ensures var jobs := GitLab.JobsOf(stages, entries);
            var nodes := NodesOf(GitLab.Assigned(stages, jobs));
            (forall o, s :: Reachable(nodes, o, s) ==> BarriersHold(stages, jobs, s)) <==> NoEmptyDependency(nodes)
  {
    hide Distinct, Closed, Acyclic, Reachable, NoEmptyDependency, BarriersHold, NodesOf, GitLab.JobsOf, GitLab.Assigned;
    var jobs := GitLab.JobsOf(stages, entries);
    var nodes := NodesOf(GitLab.Assigned(stages, jobs));
    GitLab.ParsedIsSound(stages, entries);
    if NoEmptyDependency(nodes) {
      forall o, s | Reachable(nodes, o, s) ensures BarriersHold(stages, jobs, s) {
        BarriersHoldInState(stages, entries, o, s);
      }
    } else {
      var s := EmptyNameCounterexample(nodes);
      EmptyNameBreaksBarrier(stages, entries, s);
    }
  }

  lemma BarriersHoldInState(stages: seq<string>, entries: seq<GitLab.Entry>, o: Oracle, s: Sys)
    requires var nodes := NodesOf(GitLab.Assigned(stages, GitLab.JobsOf(stages, entries)));
             Distinct(nodes) && NoEmptyDependency(nodes) && Reachable(nodes, o, s)
    ensures BarriersHold(stages, GitLab.JobsOf(stages, entries), s)
  {
    hide Distinct, Reachable, NoEmptyDependency, NodesOf, GitLab.JobsOf, GitLab.Assigned, GitLab.IndexOf, HasStarted;
    var jobs := GitLab.JobsOf(stages, entries);
    forall a, b | a in jobs && b in jobs && GitLab.IndexOf(stages, b) < GitLab.IndexOf(stages, a)
                  && a.name in s.states && HasStarted(s.states[a.name])
      ensures b.name in s.states && s.states[b.name] == Succeeded
    {
      StagesAreBarriers(stages, entries, o, s, a, b);
    }
  }

  lemma EmptyNameBreaksBarrier(stages: seq<string>, entries: seq<GitLab.Entry>, s: Sys)
    requires var nodes := NodesOf(GitLab.Assigned(stages, GitLab.JobsOf(stages, entries)));
             Distinct(nodes) && !StartedAfterSuccess(nodes, s)
    ensures !BarriersHold(stages, GitLab.JobsOf(stages, entries), s)
  {
    hide Distinct, GitLab.JobsOf, GitLab.IndexOf, HasStarted, GitLab.NamesFixStage, GitLab.Unassigned;
    var jobs := GitLab.JobsOf(stages, entries);
    var nodes := NodesOf(GitLab.Assigned(stages, jobs));
    GitLab.JobsOfMembers(stages, entries);
    GitLab.DistinctFixesStage(stages, jobs);
    var j, d :| Edge(nodes, j, d) && j in s.states && HasStarted(s.states[j])
                && !(d in s.states && s.states[d] == Succeeded);
    var a := JobOfNode(stages, jobs, j, d);
    var b := GitLab.EdgeGoesDown(stages, jobs, a, d);
  }

  lemma JobOfNode(stages: seq<string>, jobs: seq<Job>, x: string, y: string) returns (a: Job)
    requires Edge(NodesOf(GitLab.Assigned(stages, jobs)), x, y)
    ensures a in jobs && a.name == x
  {
    var nodes := NodesOf(GitLab.Assigned(stages, jobs));
    var n :| n in nodes && n.name == x && y in n.depends;
    var i :| 0 <= i < |nodes| && nodes[i] == n;
    a := jobs[i];
  }

  // ------------------------------------------------------ stages of a matrix

  /** `a` is the base job a combination comes from, and the stage shows its level in the graph
      of the base jobs that have combinations. */
  ghost predicate OnBaseLevel(bases: seq<GitHub.Base>, j: Job, a: string)
  {
    var base := Expansion.Prune(GitHub.KeptNodes(bases), GitHub.Expansions(bases));
    Acyclic(base) && Expansion.Owns(GitHub.Expansions(bases), a, j.name) && a in L.LevelMap(base)
    && j.stage == LevelStage("", L.LevelMap(base)[a])
  }

  /** Every job of a GitHub pipeline comes from exactly one base job and shows that job's level
      in the graph of the kept base jobs that have combinations, so all combinations of a
      matrix share a stage. */
  lemma StageIsBaseLevel(bases: seq<GitHub.Base>, jobs: seq<Job>, j: Job)
    requires GitHub.NeedsKnown(bases) && GitHub.JobsInLevelOrder(bases, GitHub.ExpandedNodes(bases), jobs) && j in jobs
    ensures exists a :: OnBaseLevel(bases, j, a)
    ensures forall a :: Expansion.Owns(GitHub.Expansions(bases), a, j.name) ==> OnBaseLevel(bases, j, a)
    ensures forall a, b :: OnBaseLevel(bases, j, a) && OnBaseLevel(bases, j, b) ==> a == b
  {
    hide LevelStage, L.LevelMap, L.LevelOrder, Expansion.Prune, Expansion.Expand, GitHub.KeptNodes,
         GitHub.Expansions, Closed;
    var base, exp := GitHub.KeptNodes(bases), GitHub.Expansions(bases);
    var nodes := GitHub.ExpandedNodes(bases);
    KeptIsExpandable(bases);
    Expansion.ExpandedLevels(base, exp);
    Expansion.DistinctMeansOneOwner(base, exp);
    var i :| 0 <= i < |jobs| && jobs[i] == j;
    assert GitHub.IsJobAt(GitHub.ParsedOf(bases), exp, nodes, L.LevelOrder(nodes)[i], j);
    var a := DefinitionIsOwned(bases, GitHub.Def(j.name, j.body));
    assert OnBaseLevel(bases, j, a);
  }

  lemma DefinitionIsOwned(bases: seq<GitHub.Base>, d: GitHub.Def) returns (a: string)
    requires GitHub.HasDef(GitHub.ParsedOf(bases), GitHub.Expansions(bases), d)
    ensures Expansion.Owns(GitHub.Expansions(bases), a, d.name)
  {
    var parsed, exp := GitHub.ParsedOf(bases), GitHub.Expansions(bases);
    a :| a in exp && a in parsed && parsed[a].Good? && d in parsed[a].defs;
    var k :| 0 <= k < |parsed[a].defs| && parsed[a].defs[k] == d;
    assert exp[a][k] == d.name;
  }

  lemma KeptIsExpandable(bases: seq<GitHub.Base>)
    requires GitHub.NeedsKnown(bases)
    ensures Expansion.Expandable(GitHub.KeptNodes(bases), GitHub.Expansions(bases))
  {
    GitHub.KeptNames(bases, Names(GitHub.KeptNodes(bases)));
    GitHub.ParsedAreGood(bases);
    hide GitHub.KeptNodes;
  }
}
