/** `Docker.Run` itself: the checks before anything starts, the scheduler driven by an
    arbitrary interleaving, and the error that is returned. */
module Run {
  import opened Graph
  import opened Strings
  import opened Seqs
  import opened Scheduler
  import opened SchedulerTheorems
  import opened Outcomes

  datatype RunResult =
    | Nil
    | DuplicateJob(name: string)
    | UnknownDependency(job: string, dep: string)
    | OneFailed(name: string, err: Option<JobError>)
    | ManyFailed(names: seq<string>, first: Option<JobError>)
    | NeverReturns(stuck: set<string>)  // wg.Wait blocks: no goroutine can move, these have not exited

  function ErrOf(errs: map<string, JobError>, name: string): Option<JobError> {
    if name in errs then Some(errs[name]) else None
  }

  /** The returned error, from the sorted names of the failed jobs. */
  function Report(names: seq<string>, errs: map<string, JobError>): (r: RunResult)
    ensures r.Nil? || r.OneFailed? || r.ManyFailed?
  {
    if |names| == 0 then Nil
    else if |names| == 1 then OneFailed(names[0], ErrOf(errs, names[0]))
    else ManyFailed(names, ErrOf(errs, names[0]))
  }

  /** The names of the failed jobs and their errors, by fate alone. */
  ghost function FateFailed(jobs: seq<Node>, o: Oracle): set<string>
    requires Valid(jobs)
  {
    AcyclicReachesNoCycle(jobs);
    set j | j in Names(jobs) && Fate(jobs, o, j).state == Failed
  }

  /** The result is fixed by the jobs and their outcomes: which names failed, in order,
      and the error of the first of them. */
  ghost predicate ReportsFate(jobs: seq<Node>, o: Oracle, r: RunResult)
    requires Valid(jobs)
  {
    exists names :: Lists(names, FateFailed(jobs, o)) && ReportsNames(o, names, r)
  }

  predicate ReportsNames(o: Oracle, names: seq<string>, r: RunResult) {
    match r
    case Nil => names == []
    case OneFailed(name, err) => names == [name] && o(name).Some? && err == Some(RunError(o(name).value))
    case ManyFailed(all, first) =>
      |all| > 1 && names == all && o(all[0]).Some? && first == Some(RunError(o(all[0]).value))
    case _ => false
  }

  /** The failed names collected from the map, in whatever order, then sorted. */
  method CollectFailed(s: Sys) returns (names: seq<string>)
    ensures Lists(names, FailedJobs(s))
  {
    var failed: seq<string> := [];
    var rest := s.states.Keys;
    while rest != {}
      invariant rest <= s.states.Keys
      invariant multiset(failed) == multiset(FailedJobs(s) - rest)
      decreases |rest|
    {
      var name :| name in rest;
      if s.states[name] == Failed {
        assert FailedJobs(s) - (rest - {name}) == (FailedJobs(s) - rest) + {name};
        failed := failed + [name];
      } else {
        assert FailedJobs(s) - (rest - {name}) == FailedJobs(s) - rest;
      }
      rest := rest - {name};
    }
    assert FailedJobs(s) - {} == FailedJobs(s);
    names := Sort(failed);
  }

  /** Lets enabled goroutines move, one at a time in an arbitrary order, until none can. */
  method Interleave(jobs: seq<Node>, o: Oracle) returns (s: Sys)
    requires Accepted(jobs)
    ensures Reachable(jobs, o, s) && Quiescent(jobs, s)
  {
    s := Init(jobs);
    InitInv(jobs, o);
    ghost var schedule: seq<string> := [];
    while exists j :: j in Names(jobs) && Enabled(jobs, s, j)
      invariant Inv(jobs, o, s) && Runs(jobs, o, Init(jobs), schedule, s)
      decreases Measure(jobs, s, jobs)
    {
      var j :| j in Names(jobs) && Enabled(jobs, s, j);
      StepMeasure(jobs, o, s, j, jobs);
      StepInv(jobs, o, s, j);
      RunsThenStep(jobs, o, Init(jobs), schedule, s, j);
      schedule := schedule + [j];
      s := After(jobs, o, s, j);
    }
  }

  /** Every schedule gives the same result: the two rejections, no return exactly on a
      cyclic graph, and otherwise the report of the jobs' fates. */
  method Run(jobs: seq<Node>, o: Oracle) returns (r: RunResult)
    ensures r.DuplicateJob? <==> !Distinct(jobs)
    ensures r.UnknownDependency? <==> Distinct(jobs) && !Closed(jobs)
    ensures !Accepted(jobs) ==> IsRejection(jobs, r)
    ensures r.NeverReturns? <==> Accepted(jobs) && !Acyclic(jobs)
    ensures r.NeverReturns? ==> forall j :: j in r.stuck <==> j in Names(jobs) && ReachesCycle(jobs, j)
    ensures Valid(jobs) ==> ReportsFate(jobs, o, r)
  {
    hide IsRejection, ReportsFate, Reachable, Quiescent, Closed, Distinct, ReachesCycle, Inv, Report;
    if |jobs| == 0 {
      EmptyReportsFate(jobs, o);
      return Nil;
    }
    var rejection := Check(jobs);
    if rejection.Some? { return rejection.value; }

    var s := Interleave(jobs, o);
    var stuck := set j | j in Names(jobs) && j !in s.done;
    StuckReachCycles(jobs, o, s);
    if stuck != {} {
      assert exists j :: j in stuck;
      return NeverReturns(stuck);
    }
    assert forall j :: j in Names(jobs) ==> j !in stuck;
    var names := CollectFailed(s);
    ReportIsFate(jobs, o, s, names);
    return Report(names, s.errs);
  }

  lemma StuckReachCycles(jobs: seq<Node>, o: Oracle, s: Sys)
    requires Accepted(jobs) && Reachable(jobs, o, s) && Quiescent(jobs, s)
    ensures Inv(jobs, o, s)
    ensures forall j :: j in Names(jobs) ==> (j !in s.done <==> ReachesCycle(jobs, j))
    ensures Acyclic(jobs) <==> forall j :: j in Names(jobs) ==> j in s.done
  {
    ReachableInv(jobs, o, s);
    QuiescentMeansFinished(jobs, o, s);
    AcyclicReachesNoCycle(jobs);
    CyclesAreJobs(jobs);
  }

  /** The checks before any job starts. */
  method Check(jobs: seq<Node>) returns (r: Option<RunResult>)
    ensures r == None <==> Accepted(jobs)
    ensures r.Some? ==> IsRejection(jobs, r.value)
    ensures r.Some? ==> if Distinct(jobs) then r.value.UnknownDependency? else r.value.DuplicateJob?
  {
    var seen: set<string> := {};
    for i := 0 to |jobs|
      invariant Distinct(jobs[..i]) && seen == Names(jobs[..i])
    {
      if jobs[i].name in seen {
        RepeatedName(jobs, i);
        return Some(DuplicateJob(jobs[i].name));
      }
      PrefixNext(jobs, i);
      DistinctNext(jobs, i);
      seen := seen + {jobs[i].name};
    }
    WholePrefix(jobs);
    for i := 0 to |jobs|
      invariant AllKnown(jobs, i)
    {
      for k := 0 to |jobs[i].depends|
        invariant forall m :: 0 <= m < k ==> jobs[i].depends[m] in Names(jobs)
      {
        if jobs[i].depends[k] !in seen {
          assert FirstUnknown(jobs, i, k);
          assert jobs[i] in jobs && jobs[i].depends[k] in jobs[i].depends;
          return Some(UnknownDependency(jobs[i].name, jobs[i].depends[k]));
        }
      }
    }
    KnownIsClosed(jobs);
    return None;
  }

  /** The first repeated name, or else the first dependency that names no job. */
  ghost predicate IsRejection(jobs: seq<Node>, r: RunResult) {
    match r
    case DuplicateJob(name) =>
      exists i, j :: 0 <= i < j < |jobs| && jobs[i].name == jobs[j].name == name && Distinct(jobs[..j])
    case UnknownDependency(job, dep) =>
      Distinct(jobs)
      && exists i: nat, k: nat :: FirstUnknown(jobs, i, k) && jobs[i].name == job && jobs[i].depends[k] == dep
    case _ => false
  }

  lemma RepeatedName(jobs: seq<Node>, i: nat)
    requires i < |jobs| && Distinct(jobs[..i]) && jobs[i].name in Names(jobs[..i])
    ensures !Distinct(jobs) && IsRejection(jobs, DuplicateJob(jobs[i].name))
  {
    var n :| n in jobs[..i] && n.name == jobs[i].name;
    var h :| 0 <= h < i && jobs[..i][h] == n;
    assert jobs[h].name == jobs[i].name;
  }

  ghost predicate AllKnown(jobs: seq<Node>, i: nat) {
    forall h, m :: 0 <= h < i && h < |jobs| && 0 <= m < |jobs[h].depends| ==> jobs[h].depends[m] in Names(jobs)
  }

  /** The first dependency, in declaration order, that names no job. */
  ghost predicate FirstUnknown(jobs: seq<Node>, i: nat, k: nat) {
    i < |jobs| && k < |jobs[i].depends| && jobs[i].depends[k] !in Names(jobs) && AllKnown(jobs, i)
    && forall m :: 0 <= m < k ==> jobs[i].depends[m] in Names(jobs)
  }

  lemma KnownIsClosed(jobs: seq<Node>)
    requires AllKnown(jobs, |jobs|)
    ensures Closed(jobs)
  {
    forall n, d | n in jobs && d in n.depends ensures d in Names(jobs) {
      var h :| 0 <= h < |jobs| && jobs[h] == n;
      var m :| 0 <= m < |n.depends| && n.depends[m] == d;
      assert jobs[h].depends[m] in Names(jobs);
    }
  }

  lemma DistinctNext(jobs: seq<Node>, i: nat)
    requires i < |jobs| && Distinct(jobs[..i]) && jobs[i].name !in Names(jobs[..i])
    ensures Distinct(jobs[..i + 1])
  {
    forall h | 0 <= h < i ensures jobs[h].name != jobs[i].name { assert jobs[..i][h] in jobs[..i]; }
  }

  lemma CyclesAreJobs(jobs: seq<Node>)
    ensures forall a :: ReachesCycle(jobs, a) ==> a in Names(jobs)
  {
    forall a | ReachesCycle(jobs, a) ensures a in Names(jobs) {
      ReachesCycleStep(jobs, a);
      var b :| Edge(jobs, a, b) && ReachesCycle(jobs, b);
    }
  }

  lemma EmptyReportsFate(jobs: seq<Node>, o: Oracle)
    requires |jobs| == 0
    ensures Valid(jobs) && ReportsFate(jobs, o, Nil)
  {
    EmptyIsValid();
    assert FateFailed(jobs, o) == {};
    assert Lists([], FateFailed(jobs, o)) && ReportsNames(o, [], Nil);
  }

  lemma FailedIsFate(jobs: seq<Node>, o: Oracle, s: Sys)
    requires Valid(jobs) && Inv(jobs, o, s) && Quiescent(jobs, s)
    ensures FailedJobs(s) == FateFailed(jobs, o)
  {
    AcyclicReachesNoCycle(jobs);
    QuiescentMeansFinished(jobs, o, s);
    forall j | j in Names(jobs) ensures s.states[j] == Fate(jobs, o, j).state { FinishedIsFate(jobs, o, s, j); }
  }

  lemma FailedHasError(jobs: seq<Node>, o: Oracle, s: Sys, j: string)
    requires Inv(jobs, o, s) && j in FailedJobs(s)
    ensures o(j).Some? && ErrOf(s.errs, j) == Some(RunError(o(j).value))
  {
    assert JobInv(jobs, o, s, j);
  }

  lemma ReportNames(o: Oracle, names: seq<string>, errs: map<string, JobError>)
    requires |names| > 0 ==> o(names[0]).Some? && ErrOf(errs, names[0]) == Some(RunError(o(names[0]).value))
    ensures ReportsNames(o, names, Report(names, errs))
  {
    assert |names| == 1 ==> names == [names[0]];
  }

  lemma ReportIsFate(jobs: seq<Node>, o: Oracle, s: Sys, names: seq<string>)
    requires Valid(jobs) && Inv(jobs, o, s) && Quiescent(jobs, s) && Lists(names, FailedJobs(s))
    ensures ReportsFate(jobs, o, Report(names, s.errs))
  {
    FailedIsFate(jobs, o, s);
    if |names| > 0 {
      assert names[0] in multiset(names);
      FailedHasError(jobs, o, s, names[0]);
    }
    ReportNames(o, names, s.errs);
  }

  /** At most one result reports the fates, so what `Run` returns does not depend on the
      schedule or on the order in which Go iterates over `states`. */
  lemma ResultIsUnique(jobs: seq<Node>, o: Oracle, a: RunResult, b: RunResult)
    requires Valid(jobs) && ReportsFate(jobs, o, a) && ReportsFate(jobs, o, b)
    ensures a == b
  {
    forall x, y | Lists(x, FateFailed(jobs, o)) && Lists(y, FateFailed(jobs, o)) ensures x == y {
      SortedUnique(x, y);
    }
  }

  /** The report in terms of the failed jobs alone: nil without any, the one with its own error,
      and of several the error of the smallest name. */
  lemma ReportedError(jobs: seq<Node>, o: Oracle, r: RunResult)
    requires Valid(jobs) && ReportsFate(jobs, o, r)
    ensures r.Nil? || r.OneFailed? || r.ManyFailed?
    ensures r.Nil? <==> FateFailed(jobs, o) == {}
    ensures r.OneFailed? ==>
            FateFailed(jobs, o) == {r.name} && o(r.name).Some? && r.err == Some(RunError(o(r.name).value))
    ensures r.ManyFailed? ==>
              Lists(r.names, FateFailed(jobs, o)) && |r.names| > 1
              && exists x :: x in FateFailed(jobs, o) && o(x).Some? && r.first == Some(RunError(o(x).value))
                   && forall y :: y in FateFailed(jobs, o) ==> Le(x, y)
  {
    hide FateFailed, Le;
    var failed := FateFailed(jobs, o);
    var names :| Lists(names, failed) && ReportsNames(o, names, r);
    assert forall x :: x in failed <==> x in multiset(names);
    assert forall x :: x in multiset(names) <==> x in names;
    if r.ManyFailed? {
      forall y | y in failed ensures Le(names[0], y) { SortedHead(names, y); }
      assert names[0] in failed;
    }
    if r.OneFailed? { assert names[0] == r.name; }
    if r.Nil? { assert forall x :: x !in failed; }
    if failed == {} { assert |names| == |multiset(names)| == 0; }
  }
}
