/** What every run of the scheduler does, whatever the interleaving: safety, progress,
    and one outcome. */
module SchedulerTheorems {
  import opened Graph
  import opened Strings
  import opened Seqs
  import opened Scheduler

  // ------------------------------------------------------------------- safety

  predicate IsTerminal(st: JobState) {
    st == Succeeded || st == Failed || st == Skipped
  }

  predicate HasStarted(st: JobState) {
    st == Running || st == Succeeded || st == Failed
  }

  /** Nothing blocks exactly when every bad dependency is the one named "". */
  lemma {:induction false} FirstBadNone(bad: set<string>, depends: seq<string>)
    ensures FirstBad(bad, depends) == "" <==> forall d :: d in depends && d in bad ==> d == ""
  {
    if |depends| > 0 {
      var n := |depends| - 1;
      FirstBadNone(bad, depends[..n]);
      assert depends == depends[..n] + [depends[n]];
    }
  }

  /** What blocks is the first bad dependency with a name. */
  ghost predicate FirstBadAt(bad: set<string>, depends: seq<string>, k: nat) {
    k < |depends| && depends[k] != "" && depends[k] in bad
    && forall i :: 0 <= i < k ==> depends[i] !in bad || depends[i] == ""
  }

  lemma {:induction false} FirstBadSome(bad: set<string>, depends: seq<string>) returns (k: nat)
    requires FirstBad(bad, depends) != ""
    ensures FirstBadAt(bad, depends, k) && depends[k] == FirstBad(bad, depends)
  {
    var n := |depends| - 1;
    if FirstBad(bad, depends[..n]) != "" {
      k := FirstBadSome(bad, depends[..n]);
      assert forall i :: 0 <= i < n ==> depends[..n][i] == depends[i];
    } else {
      k := n;
      FirstBadNone(bad, depends[..n]);
      assert forall i :: 0 <= i < n ==> depends[i] in depends[..n];
    }
  }

  /** `j` was skipped because of its k-th dependency, the first listed one (with a
      non-empty name) that failed or was skipped. */
  ghost predicate SkippedFor(jobs: seq<Node>, s: Sys, j: string, k: nat)
    requires k < |DependsOf(jobs, j)|
  {
    FirstBadAt(BadJobs(s), DependsOf(jobs, j), k)
    && j in s.errs && s.errs[j] == BlockedOn(DependsOf(jobs, j)[k])
  }

  lemma LeftPendingMeansDone(jobs: seq<Node>, o: Oracle, s: Sys, j: string)
    requires Inv(jobs, o, s) && j in Names(jobs) && s.states[j] != Pending
    ensures AllDone(s, DependsOf(jobs, j))
  {
    assert JobInv(jobs, o, s, j);
  }

  lemma DoneIsTerminal(jobs: seq<Node>, o: Oracle, s: Sys, j: string)
    requires Inv(jobs, o, s) && j in s.done
    ensures j in s.states && IsTerminal(s.states[j])
  {
    assert JobInv(jobs, o, s, j);
  }

  lemma SkippedMeansBlocked(jobs: seq<Node>, o: Oracle, s: Sys, j: string)
    requires Inv(jobs, o, s) && j in Names(jobs) && s.states[j] == Skipped
    ensures exists k :: 0 <= k < |DependsOf(jobs, j)| && SkippedFor(jobs, s, j, k)
  {
    assert JobInv(jobs, o, s, j);
    var k := FirstBadSome(BadJobs(s), DependsOf(jobs, j));
    assert SkippedFor(jobs, s, j, k);
  }

  /** In every reachable state: a job that has left the pending state has only finished
      dependencies; a skipped job names the first of its dependencies that did not
      succeed; a closed channel means a final state. */
  lemma ReachableIsSafe(jobs: seq<Node>, o: Oracle, s: Sys, j: string)
    requires Accepted(jobs) && Reachable(jobs, o, s) && j in Names(jobs)
    ensures j in s.states
    ensures s.states[j] != Pending ==>
              forall d :: d in DependsOf(jobs, j) ==> d in s.done && d in s.states && IsTerminal(s.states[d])
    ensures s.states[j] == Skipped ==>
              exists k :: 0 <= k < |DependsOf(jobs, j)| && SkippedFor(jobs, s, j, k)
    ensures j in s.done ==> IsTerminal(s.states[j])
  {
    ReachableInv(jobs, o, s);
    if s.states[j] != Pending {
      LeftPendingMeansDone(jobs, o, s, j);
      forall d | d in DependsOf(jobs, j) ensures d in s.states && IsTerminal(s.states[d]) {
        DoneIsTerminal(jobs, o, s, d);
      }
    }
    if s.states[j] == Skipped { SkippedMeansBlocked(jobs, o, s, j); }
    if j in s.done { DoneIsTerminal(jobs, o, s, j); }
  }

  /** Started jobs have only succeeded dependencies. */
  ghost predicate StartedAfterSuccess(jobs: seq<Node>, s: Sys) {
    forall j, d :: Edge(jobs, j, d) && j in s.states && HasStarted(s.states[j]) ==>
      d in s.states && s.states[d] == Succeeded
  }

  /** No job depends on a job with the empty name. */
  predicate NoEmptyDependency(jobs: seq<Node>) {
    forall n :: n in jobs ==> "" !in n.depends
  }

  lemma StartedAfterSuccessHolds(jobs: seq<Node>, o: Oracle, s: Sys)
    requires Accepted(jobs) && NoEmptyDependency(jobs) && Reachable(jobs, o, s)
    ensures StartedAfterSuccess(jobs, s)
  {
    hide FirstBad, Reachable, ReachesCycle;
    ReachableInv(jobs, o, s);
    forall j, d | Edge(jobs, j, d) && j in s.states && HasStarted(s.states[j])
      ensures d in s.states && s.states[d] == Succeeded
    {
      EdgeIsDepends(jobs, j, d);
      ReachableIsSafe(jobs, o, s, j);
      assert JobInv(jobs, o, s, j);
      FirstBadNone(BadJobs(s), DependsOf(jobs, j));
    }
  }

  /** A final state and its error are never changed again. */
  lemma {:induction false} TerminalStays(jobs: seq<Node>, o: Oracle, s: Sys, schedule: seq<string>, t: Sys, j: string)
    requires Accepted(jobs) && Inv(jobs, o, s) && Runs(jobs, o, s, schedule, t)
    requires j in s.states && IsTerminal(s.states[j])
    ensures j in t.states && t.states[j] == s.states[j]
    ensures (j in t.errs <==> j in s.errs) && (j in s.errs ==> t.errs[j] == s.errs[j])
    decreases |schedule|
  {
    if |schedule| > 0 {
      var i := schedule[0];
      var u := After(jobs, o, s, i);
      if i == j { assert JobInv(jobs, o, s, j); } else { StepFrame(jobs, o, s, i, j); }
      StepInv(jobs, o, s, i);
      TerminalStays(jobs, o, u, schedule[1..], t, j);
    }
  }

  // ------------------------------------------------------- every run is finite

  function Weight(jobs: seq<Node>, s: Sys, j: string): nat {
    if j !in s.pc then 0 else
    var n := |DependsOf(jobs, j)|;
    match s.pc[j]
    case Receive(k, _) => if k <= n then 2 * (n - k) + 3 else 0
    case Inspect(k, _) => if k < n then 2 * (n - k) + 2 else 0
    case InJob => 2
    case Closing => 1
    case Exited => 0
  }

  /** Remaining dependency waits and unfinished jobs. */
  function Measure(jobs: seq<Node>, s: Sys, some: seq<Node>): nat {
    if |some| == 0 then 0 else Weight(jobs, s, some[0].name) + Measure(jobs, s, some[1..])
  }

  lemma StepWeight(jobs: seq<Node>, o: Oracle, s: Sys, j: string)
    requires Enabled(jobs, s, j)
    ensures Weight(jobs, After(jobs, o, s, j), j) < Weight(jobs, s, j)
  {
  }

  lemma {:induction false} StepMeasure(jobs: seq<Node>, o: Oracle, s: Sys, j: string, some: seq<Node>)
    requires Enabled(jobs, s, j)
    ensures Measure(jobs, After(jobs, o, s, j), some) <= Measure(jobs, s, some)
    ensures j in Names(some) ==> Measure(jobs, After(jobs, o, s, j), some) < Measure(jobs, s, some)
  {
    if |some| > 0 {
      StepMeasure(jobs, o, s, j, some[1..]);
      if some[0].name == j {
        StepWeight(jobs, o, s, j);
      } else {
        StepFrame(jobs, o, s, j, some[0].name);
        assert j in Names(some) ==> j in Names(some[1..]);
      }
    }
  }

  /** No run is longer than the measure of the state it starts in. */
  lemma {:induction false} RunsAreBounded(jobs: seq<Node>, o: Oracle, s: Sys, schedule: seq<string>, t: Sys)
    requires Accepted(jobs) && Inv(jobs, o, s) && Runs(jobs, o, s, schedule, t)
    ensures |schedule| + Measure(jobs, t, jobs) <= Measure(jobs, s, jobs)
    decreases |schedule|
  {
    if |schedule| > 0 {
      var j := schedule[0];
      StepKeys(jobs, o, s, j);
      StepMeasure(jobs, o, s, j, jobs);
      StepInv(jobs, o, s, j);
      RunsAreBounded(jobs, o, After(jobs, o, s, j), schedule[1..], t);
    }
  }

  // ------------------------------------------------------------------ progress

  /** When nothing can move, exactly the jobs that reach a cycle are unfinished, and each
      of them has never left the pending state. */
  lemma QuiescentMeansFinished(jobs: seq<Node>, o: Oracle, s: Sys)
    requires Accepted(jobs) && Inv(jobs, o, s) && Quiescent(jobs, s)
    ensures forall j :: j in Names(jobs) ==> (j in s.done <==> !ReachesCycle(jobs, j))
    ensures forall j :: j in Names(jobs) && ReachesCycle(jobs, j) ==>
              s.pc[j].Receive? && s.states[j] == Pending
  {
    var stuck := set j | j in Names(jobs) && j !in s.done;
    forall j {:trigger EdgeInto(jobs, j, stuck)} | j in stuck ensures EdgeInto(jobs, j, stuck) {
      assert JobInv(jobs, o, s, j) && !Enabled(jobs, s, j);
      var d := DependsOf(jobs, j)[s.pc[j].k];
      EdgeIsDepends(jobs, j, d);
      DependencyIsJob(jobs, j, d);
      assert d in stuck && Edge(jobs, j, d);
    }
    forall j | j in Names(jobs) ensures j in s.done <==> !ReachesCycle(jobs, j) {
      if j in stuck { NoExitReachesCycle(jobs, stuck, j); }
    }
    forall j | j in Names(jobs) && ReachesCycle(jobs, j) ensures s.pc[j].Receive? && s.states[j] == Pending {
      assert JobInv(jobs, o, s, j) && !Enabled(jobs, s, j);
    }
  }

  lemma DependencyIsJob(jobs: seq<Node>, j: string, d: string)
    requires Closed(jobs) && Edge(jobs, j, d)
    ensures d in Names(jobs)
  {
    var n :| n in jobs && n.name == j && d in n.depends;
  }

  ghost predicate AllExited(jobs: seq<Node>, s: Sys) {
    forall j :: j in Names(jobs) ==> j in s.pc && s.pc[j].Exited?
  }

  /** Deadlock freedom: on an acyclic graph, a reachable state in which some job is
      unfinished has a step. */
  lemma AcyclicMakesProgress(jobs: seq<Node>, o: Oracle, s: Sys)
    requires Valid(jobs) && Reachable(jobs, o, s) && !AllExited(jobs, s)
    ensures exists j :: Enabled(jobs, s, j)
  {
    ReachableInv(jobs, o, s);
    if Quiescent(jobs, s) {
      QuiescentMeansFinished(jobs, o, s);
      AcyclicReachesNoCycle(jobs);
    }
  }

  /** Conversely, a job that reaches a cycle never leaves the pending state, in any run. */
  lemma CycleStaysPending(jobs: seq<Node>, o: Oracle, s: Sys, j: string)
    requires Accepted(jobs) && Reachable(jobs, o, s) && j in Names(jobs) && ReachesCycle(jobs, j)
    ensures j in s.states && s.states[j] == Pending && j !in s.done
  {
    ReachableInv(jobs, o, s);
    assert JobInv(jobs, o, s, j);
    if s.states[j] != Pending { DoneReachesNoCycle(jobs, o, s, j); }
  }

  // --------------------------------------------------------------- one outcome

  datatype Verdict = Verdict(state: JobState, err: Option<JobError>)

  function Judge(o: Oracle, j: string, blockedOn: string): Verdict {
    if blockedOn != "" then Verdict(Skipped, Some(BlockedOn(blockedOn)))
    else match o(j)
         case None => Verdict(Succeeded, None)
         case Some(e) => Verdict(Failed, Some(RunError(e)))
  }

  /** The verdict on `j`, from the verdicts on what it depends on; no scheduler involved. */
  ghost function Fate(jobs: seq<Node>, o: Oracle, j: string): Verdict
    requires Accepted(jobs) && j in Names(jobs) && !ReachesCycle(jobs, j)
    decreases Level(jobs, j), |DependsOf(jobs, j)| + 1
  {
    Judge(o, j, FateBlocked(jobs, o, j, |DependsOf(jobs, j)|))
  }

  ghost function FateBlocked(jobs: seq<Node>, o: Oracle, j: string, k: nat): string
    requires Accepted(jobs) && j in Names(jobs) && !ReachesCycle(jobs, j) && k <= |DependsOf(jobs, j)|
    decreases Level(jobs, j), k
  {
    if k == 0 then "" else
      var d := DependsOf(jobs, j)[k - 1];
      DependencyIsLower(jobs, j, d);
      var b := FateBlocked(jobs, o, j, k - 1);
      if IsBad(Fate(jobs, o, d).state) && b == "" then d else b
  }

  lemma DependencyIsLower(jobs: seq<Node>, j: string, d: string)
    requires Accepted(jobs) && j in Names(jobs) && !ReachesCycle(jobs, j) && d in DependsOf(jobs, j)
    ensures d in Names(jobs) && !ReachesCycle(jobs, d) && Level(jobs, d) < Level(jobs, j)
  {
    EdgeIsDepends(jobs, j, d);
    DependencyIsJob(jobs, j, d);
    LevelDrops(jobs, j, d);
  }

  /** The recorded verdict of a job. */
  function Recorded(s: Sys, j: string): Verdict {
    Verdict(GetState(s, j), if j in s.errs then Some(s.errs[j]) else None)
  }

  lemma {:induction false} FateBlockedIsFirstBad(jobs: seq<Node>, o: Oracle, j: string, k: nat, bad: set<string>)
    requires Accepted(jobs) && j in Names(jobs) && !ReachesCycle(jobs, j) && k <= |DependsOf(jobs, j)|
    requires forall d :: d in DependsOf(jobs, j) ==>
               d in Names(jobs) && !ReachesCycle(jobs, d) && (d in bad <==> IsBad(Fate(jobs, o, d).state))
    ensures FateBlocked(jobs, o, j, k) == FirstBad(bad, DependsOf(jobs, j)[..k])
  {
    if k > 0 {
      FateBlockedIsFirstBad(jobs, o, j, k - 1, bad);
      FirstBadExtend(bad, DependsOf(jobs, j), k - 1);
      assert DependsOf(jobs, j)[k - 1] in DependsOf(jobs, j);
    }
  }

  /** Whatever the schedule, a finished job got its fate. */
  lemma {:induction false} FinishedIsFate(jobs: seq<Node>, o: Oracle, s: Sys, j: string)
    requires Accepted(jobs) && Inv(jobs, o, s) && j in s.done
    ensures !ReachesCycle(jobs, j) && Recorded(s, j) == Fate(jobs, o, j)
    decreases Level(jobs, j)
  {
    var depends := DependsOf(jobs, j);
    assert JobInv(jobs, o, s, j);
    forall d | d in depends
      ensures d in Names(jobs) && !ReachesCycle(jobs, d) && (d in BadJobs(s) <==> IsBad(Fate(jobs, o, d).state))
    {
      DependencyIsLower(jobs, j, d);
      FinishedIsFate(jobs, o, s, d);
    }
    FateBlockedIsFirstBad(jobs, o, j, |depends|, BadJobs(s));
    WholePrefix(depends);
  }

  /** Where a quiescent run has left job `j`. */
  ghost predicate Ended(jobs: seq<Node>, o: Oracle, s: Sys, j: string)
    requires Accepted(jobs) && j in Names(jobs)
  {
    j in s.pc
    && if ReachesCycle(jobs, j) then
         Recorded(s, j) == Verdict(Pending, None) && j !in s.done && s.pc[j].Receive?
         && s.pc[j].k < |DependsOf(jobs, j)| && ReachesCycle(jobs, DependsOf(jobs, j)[s.pc[j].k])
         && (forall i :: 0 <= i < s.pc[j].k ==> !ReachesCycle(jobs, DependsOf(jobs, j)[i]))
         && s.pc[j].blockedOn == FirstBad(BadJobs(s), DependsOf(jobs, j)[..s.pc[j].k])
       else s.pc[j].Exited? && j in s.done && Recorded(s, j) == Fate(jobs, o, j)
  }

  lemma QuiescentEnds(jobs: seq<Node>, o: Oracle, s: Sys, j: string)
    requires Accepted(jobs) && Inv(jobs, o, s) && Quiescent(jobs, s) && j in Names(jobs)
    ensures Ended(jobs, o, s, j)
  {
    QuiescentMeansFinished(jobs, o, s);
    assert JobInv(jobs, o, s, j) && !Enabled(jobs, s, j);
    if ReachesCycle(jobs, j) {
      var depends, k := DependsOf(jobs, j), s.pc[j].k;
      EdgeIsDepends(jobs, j, depends[k]);
      DependencyIsJob(jobs, j, depends[k]);
      forall i | 0 <= i < k ensures !ReachesCycle(jobs, depends[i]) {
        assert depends[i] in depends[..k];
      }
    } else {
      FinishedIsFate(jobs, o, s, j);
    }
  }

  lemma EndedAlike(jobs: seq<Node>, o: Oracle, s: Sys, t: Sys, j: string)
    requires Accepted(jobs) && j in Names(jobs) && Ended(jobs, o, s, j) && Ended(jobs, o, t, j)
    ensures Recorded(s, j) == Recorded(t, j) && (j in s.done <==> j in t.done)
    ensures BadJobs(s) == BadJobs(t) ==> s.pc[j] == t.pc[j]
  {
  }

  /** Equal records make equal maps. */
  lemma SameRecords(s: Sys, t: Sys, names: set<string>)
    requires s.states.Keys == t.states.Keys == names && s.errs.Keys <= names && t.errs.Keys <= names
    requires s.done <= names && t.done <= names
    requires forall j :: j in names ==> Recorded(s, j) == Recorded(t, j) && (j in s.done <==> j in t.done)
    ensures s.states == t.states && s.errs == t.errs && s.done == t.done
  {
    forall j | j in names
      ensures s.states[j] == t.states[j] && (j in s.errs <==> j in t.errs) && (j in s.errs ==> s.errs[j] == t.errs[j])
    {
      assert Recorded(s, j) == Recorded(t, j);
    }
    assert s.done == t.done;
  }

  /** Confluence: all maximal runs end in the same state, errors and stuck jobs' positions
      included, whether or not the graph is acyclic. */
  lemma Confluence(jobs: seq<Node>, o: Oracle, s: Sys, t: Sys)
    requires Accepted(jobs)
    requires Reachable(jobs, o, s) && Quiescent(jobs, s)
    requires Reachable(jobs, o, t) && Quiescent(jobs, t)
    ensures s == t
  {
    hide Ended, Reachable, Quiescent, ReachesCycle;
    ReachableInv(jobs, o, s);
    ReachableInv(jobs, o, t);
    forall j | j in Names(jobs) ensures Recorded(s, j) == Recorded(t, j) && (j in s.done <==> j in t.done) {
      QuiescentEnds(jobs, o, s, j);
      QuiescentEnds(jobs, o, t, j);
      EndedAlike(jobs, o, s, t, j);
    }
    SameRecords(s, t, Names(jobs));
    assert BadJobs(s) == BadJobs(t);
    forall j | j in Names(jobs) ensures s.pc[j] == t.pc[j] {
      QuiescentEnds(jobs, o, s, j);
      QuiescentEnds(jobs, o, t, j);
      EndedAlike(jobs, o, s, t, j);
    }
    assert s.pc == t.pc;
  }
}
