/** What `Docker.Run` returns, and how its runtime skip cascade relates to the static
    functions of package dag. */
module Outcomes {
  import opened Graph
  import opened Strings
  import opened Seqs
  import opened Scheduler
  import opened SchedulerTheorems
  import L = Levels
  import T = LevelTheorems
  import S = Skips

  // ------------------------------------------- one by one, in Levels' order

  function BadIn(m: map<string, Verdict>): set<string> {
    set j | j in m && IsBad(m[j].state)
  }

  /** Runs jobs one after the other, each judged by the verdicts recorded so far. */
  function InOrder(jobs: seq<Node>, o: Oracle, order: seq<string>, m: map<string, Verdict>): map<string, Verdict>
    decreases |order|
  {
    if |order| == 0 then m
    else
      var j := order[0];
      InOrder(jobs, o, order[1..], m[j := Judge(o, j, FirstBad(BadIn(m), DependsOf(jobs, j)))])
  }

  ghost predicate RightSoFar(jobs: seq<Node>, o: Oracle, m: map<string, Verdict>)
    requires Valid(jobs)
  {
    m.Keys <= Names(jobs) && forall j :: j in m ==> !ReachesCycle(jobs, j) && m[j] == Fate(jobs, o, j)
  }

  /** Whoever is next has all its dependencies judged already. */
  lemma JudgeIsFate(jobs: seq<Node>, o: Oracle, order: seq<string>, i: nat, m: map<string, Verdict>)
    requires Valid(jobs) && T.Executable(jobs, order) && i < |order|
    requires m.Keys == (set x | x in order[..i]) && RightSoFar(jobs, o, m)
    ensures order[i] in Names(jobs) && !ReachesCycle(jobs, order[i])
    ensures Judge(o, order[i], FirstBad(BadIn(m), DependsOf(jobs, order[i]))) == Fate(jobs, o, order[i])
  {
    AcyclicReachesNoCycle(jobs);
    var j := order[i];
    var depends := DependsOf(jobs, j);
    forall d | d in depends
      ensures d in Names(jobs) && !ReachesCycle(jobs, d) && (d in BadIn(m) <==> IsBad(Fate(jobs, o, d).state))
    {
      DependencyIsLower(jobs, j, d);
      EdgeIsDepends(jobs, j, d);
      EdgeReaches(jobs, j, d);
      var k :| 0 <= k < |order| && order[k] == d;
      assert k < i && order[k] in order[..i];
    }
    FateBlockedIsFirstBad(jobs, o, j, |depends|, BadIn(m));
    WholePrefix(depends);
  }

  lemma {:induction false} InOrderIsFate(jobs: seq<Node>, o: Oracle, order: seq<string>, i: nat,
                                         m: map<string, Verdict>)
    requires Valid(jobs) && T.Executable(jobs, order) && i <= |order|
    requires m.Keys == (set x | x in order[..i]) && RightSoFar(jobs, o, m)
    ensures InOrder(jobs, o, order[i..], m).Keys == Names(jobs)
    ensures RightSoFar(jobs, o, InOrder(jobs, o, order[i..], m))
    decreases |order| - i
  {
    hide Fate, FateBlocked, Judge, FirstBad, Valid;
    if i == |order| {
      WholePrefix(order);
    } else {
      JudgeIsFate(jobs, o, order, i, m);
      var j := order[i];
      var m' := m[j := Judge(o, j, FirstBad(BadIn(m), DependsOf(jobs, j)))];
      PrefixNext(order, i);
      assert order[i..][1..] == order[i + 1..];
      InOrderIsFate(jobs, o, order, i + 1, m');
    }
  }

  function FinalRecord(jobs: seq<Node>, s: Sys): map<string, Verdict> {
    map j | j in Names(jobs) :: Recorded(s, j)
  }

  lemma RightIsRecorded(jobs: seq<Node>, o: Oracle, s: Sys, m: map<string, Verdict>)
    requires Valid(jobs) && Inv(jobs, o, s) && Quiescent(jobs, s)
    requires m.Keys == Names(jobs) && RightSoFar(jobs, o, m)
    ensures m == FinalRecord(jobs, s)
  {
    QuiescentMeansFinished(jobs, o, s);
    AcyclicReachesNoCycle(jobs);
    forall j | j in Names(jobs) ensures m[j] == Recorded(s, j) { FinishedIsFate(jobs, o, s, j); }
  }

  /** A finished run has recorded for every job what running the jobs one by one in the
      order of `dag.Levels` records. */
  lemma ConcurrentEqualsSequential(jobs: seq<Node>, o: Oracle, s: Sys)
    requires Valid(jobs) && Reachable(jobs, o, s) && Quiescent(jobs, s)
    ensures InOrder(jobs, o, L.LevelOrder(jobs), map[]) == FinalRecord(jobs, s)
  {
    hide Inv, Fate, Quiescent, T.Executable, L.LevelOrder;
    ReachableInv(jobs, o, s);
    T.DependenciesComeFirst(jobs);
    var order := L.LevelOrder(jobs);
    InOrderIsFate(jobs, o, order, 0, map[]);
    assert order[0..] == order;
    RightIsRecorded(jobs, o, s, InOrder(jobs, o, order, map[]));
  }

  // ------------------------------------------------ the cascade, static and run

  function FailedJobs(s: Sys): set<string> {
    set j | j in s.states && s.states[j] == Failed
  }

  ghost predicate CascadeMatches(jobs: seq<Node>, s: Sys) {
    BadJobs(s) == S.SkipSet(jobs, FailedJobs(s))
    && forall j :: j in s.states && s.states[j] == Succeeded <==>
         j in Names(S.Keep(jobs, S.SkipSet(jobs, FailedJobs(s))))
  }

  lemma BadIsClosed(jobs: seq<Node>, o: Oracle, s: Sys)
    requires Valid(jobs) && Inv(jobs, o, s) && Quiescent(jobs, s) && NoEmptyDependency(jobs)
    ensures S.ClosedUnderNeeds(jobs, BadJobs(s))
  {
    QuiescentMeansFinished(jobs, o, s);
    AcyclicReachesNoCycle(jobs);
    forall a, b | Edge(jobs, a, b) && b in BadJobs(s) ensures a in BadJobs(s) {
      EdgeIsDepends(jobs, a, b);
      assert JobInv(jobs, o, s, a);
      FirstBadNone(BadJobs(s), DependsOf(jobs, a));
    }
  }

  lemma {:induction false} BadIsLeast(jobs: seq<Node>, o: Oracle, s: Sys, z: set<string>, j: string)
    requires Valid(jobs) && Inv(jobs, o, s) && FailedJobs(s) <= z && S.ClosedUnderNeeds(jobs, z)
    requires j in BadJobs(s) && !ReachesCycle(jobs, j)
    ensures j in z
    decreases Level(jobs, j)
  {
    if s.states[j] == Skipped {
      SkippedMeansBlocked(jobs, o, s, j);
      var k :| 0 <= k < |DependsOf(jobs, j)| && SkippedFor(jobs, s, j, k);
      var d := DependsOf(jobs, j)[k];
      DependencyIsLower(jobs, j, d);
      BadIsLeast(jobs, o, s, z, d);
      EdgeIsDepends(jobs, j, d);
    }
  }

  lemma EveryJobEndsGoodOrBad(jobs: seq<Node>, o: Oracle, s: Sys, j: string)
    requires Valid(jobs) && Inv(jobs, o, s) && Quiescent(jobs, s) && j in Names(jobs)
    ensures s.states[j] == Succeeded <==> j !in BadJobs(s)
  {
    QuiescentMeansFinished(jobs, o, s);
    AcyclicReachesNoCycle(jobs);
    DoneIsTerminal(jobs, o, s, j);
  }

  lemma CascadeHolds(jobs: seq<Node>, o: Oracle, s: Sys)
    requires Valid(jobs) && NoEmptyDependency(jobs) && Reachable(jobs, o, s) && Quiescent(jobs, s)
    ensures CascadeMatches(jobs, s)
  {
    ReachableInv(jobs, o, s);
    AcyclicReachesNoCycle(jobs);
    var z := S.SkipSet(jobs, FailedJobs(s));
    S.SkipSetIsLeastFixpoint(jobs, FailedJobs(s));
    BadIsClosed(jobs, o, s);
    forall j | j in BadJobs(s) ensures j in z { BadIsLeast(jobs, o, s, z, j); }
    assert BadJobs(s) == z;
    T.KeepElements(jobs, z);
    forall j ensures j in s.states && s.states[j] == Succeeded <==> j in Names(S.Keep(jobs, z)) {
      if j in Names(jobs) {
        EveryJobEndsGoodOrBad(jobs, o, s, j);
        var n :| n in jobs && n.name == j;
        assert j !in z ==> n in S.Keep(jobs, z);
      }
    }
  }

  /** Any state can be run to quiescence. */
  lemma {:induction false} RunsToQuiescence(jobs: seq<Node>, o: Oracle, s: Sys, schedule: seq<string>) returns (t: Sys)
    requires Accepted(jobs) && Runs(jobs, o, Init(jobs), schedule, s) && Inv(jobs, o, s)
    ensures Reachable(jobs, o, t) && Quiescent(jobs, t)
    decreases Measure(jobs, s, jobs)
  {
    if j :| Enabled(jobs, s, j) {
      StepKeys(jobs, o, s, j);
      StepMeasure(jobs, o, s, j, jobs);
      StepInv(jobs, o, s, j);
      RunsThenStep(jobs, o, Init(jobs), schedule, s, j);
      t := RunsToQuiescence(jobs, o, After(jobs, o, s, j), schedule + [j]);
    } else {
      t := s;
    }
  }

  lemma {:induction false} RunsThenStep(jobs: seq<Node>, o: Oracle, s: Sys, schedule: seq<string>, t: Sys, j: string)
    requires Runs(jobs, o, s, schedule, t) && Enabled(jobs, t, j)
    ensures Runs(jobs, o, s, schedule + [j], After(jobs, o, t, j))
    decreases |schedule|
  {
    var longer := schedule + [j];
    if |schedule| > 0 {
      RunsThenStep(jobs, o, After(jobs, o, s, schedule[0]), schedule[1..], t, j);
      assert longer[1..] == schedule[1..] + [j];
    } else {
      assert longer[1..] == [];
    }
  }

  /** The outcome that tells an empty name from "not blocked". */
  function OnlyEmptyFails(): Oracle {
    (j: string) => if j == "" then Some("failed") else None
  }

  lemma DoneDependsDone(jobs: seq<Node>, o: Oracle, s: Sys, j: string)
    requires Inv(jobs, o, s) && j in s.done
    ensures AllDone(s, DependsOf(jobs, j)) && Decided(jobs, o, s, j)
  {
    hide FirstBad, ReachesCycle, Decided, DependsOf;
    assert JobInv(jobs, o, s, j);
  }

  /** A job none of whose named dependencies is bad runs, and ends as its outcome says. */
  lemma UnblockedEnds(jobs: seq<Node>, s: Sys, j: string)
    requires Inv(jobs, OnlyEmptyFails(), s) && j in s.done
    requires forall d :: d in DependsOf(jobs, j) && d in BadJobs(s) ==> d == ""
    ensures s.states[j] == if j == "" then Failed else Succeeded
  {
    hide FirstBad, ReachesCycle, DependsOf;
    DoneDependsDone(jobs, OnlyEmptyFails(), s, j);
    FirstBadNone(BadJobs(s), DependsOf(jobs, j));
  }

  lemma {:induction false} EmptyNameBlocksNobody(jobs: seq<Node>, s: Sys, j: string)
    requires Valid(jobs) && Inv(jobs, OnlyEmptyFails(), s) && j in s.done && !ReachesCycle(jobs, j)
    ensures s.states[j] == if j == "" then Failed else Succeeded
    decreases Level(jobs, j)
  {
    hide Distinct, Closed, Acyclic, ReachesCycle, Level, JobInv, DependsOf, Decided;
    DoneDependsDone(jobs, OnlyEmptyFails(), s, j);
    forall d | d in DependsOf(jobs, j) && d in BadJobs(s) ensures d == "" {
      DependencyIsLower(jobs, j, d);
      EmptyNameBlocksNobody(jobs, s, d);
    }
    UnblockedEnds(jobs, s, j);
  }

  lemma EmptyNameBreaks(jobs: seq<Node>, s: Sys, n: Node)
    requires Valid(jobs) && Inv(jobs, OnlyEmptyFails(), s) && Quiescent(jobs, s)
    requires n in jobs && "" in n.depends
    ensures !StartedAfterSuccess(jobs, s)
    ensures n.name in S.SkipSet(jobs, FailedJobs(s)) && n.name !in BadJobs(s)
  {
    QuiescentMeansFinished(jobs, OnlyEmptyFails(), s);
    AcyclicReachesNoCycle(jobs);
    assert Edge(jobs, n.name, "");
    EdgeReaches(jobs, n.name, "");
    DependencyIsJob(jobs, n.name, "");
    EmptyNameBlocksNobody(jobs, s, "");
    EmptyNameBlocksNobody(jobs, s, n.name);
    assert "" in FailedJobs(s) && S.ReachesAny(jobs, n.name, FailedJobs(s));
  }

  /** A run in which a dependent of the job named "" starts although that job failed. */
  lemma EmptyNameCounterexample(jobs: seq<Node>) returns (s: Sys)
    requires Valid(jobs) && !NoEmptyDependency(jobs)
    ensures Reachable(jobs, OnlyEmptyFails(), s) && Quiescent(jobs, s)
    ensures !StartedAfterSuccess(jobs, s) && !CascadeMatches(jobs, s)
  {
    var o := OnlyEmptyFails();
    InitInv(jobs, o);
    assert Runs(jobs, o, Init(jobs), [], Init(jobs));
    s := RunsToQuiescence(jobs, o, Init(jobs), []);
    ReachableInv(jobs, o, s);
    var n :| n in jobs && "" in n.depends;
    EmptyNameBreaks(jobs, s, n);
  }

  /** The runtime cascade is `FilterSkipped` applied to the failed jobs, for every outcome
      and every schedule, exactly when nobody depends on a job named "". */
  lemma CascadeMatchesIffNoEmptyDependency(jobs: seq<Node>)
    requires Valid(jobs)
    ensures (forall o, s :: Reachable(jobs, o, s) && Quiescent(jobs, s) ==> CascadeMatches(jobs, s))
            <==> NoEmptyDependency(jobs)
  {
    if NoEmptyDependency(jobs) {
      forall o, s | Reachable(jobs, o, s) && Quiescent(jobs, s) ensures CascadeMatches(jobs, s) {
        CascadeHolds(jobs, o, s);
      }
    } else {
      var s := EmptyNameCounterexample(jobs);
    }
  }

  /** "A job starts only after its dependencies succeeded" holds under the same condition. */
  lemma StartedAfterSuccessIffNoEmptyDependency(jobs: seq<Node>)
    requires Valid(jobs)
    ensures (forall o, s :: Reachable(jobs, o, s) ==> StartedAfterSuccess(jobs, s)) <==> NoEmptyDependency(jobs)
  {
    if NoEmptyDependency(jobs) {
      forall o, s | Reachable(jobs, o, s) ensures StartedAfterSuccess(jobs, s) {
        StartedAfterSuccessHolds(jobs, o, s);
      }
    } else {
      var s := EmptyNameCounterexample(jobs);
    }
  }

  // --------------------------------------------------- one job fails or is aborted

  /** The outcomes when `j` alone fails -- by abort or otherwise. */
  ghost predicate OnlyFails(jobs: seq<Node>, o: Oracle, j: string) {
    forall k :: k in Names(jobs) ==> (o(k).Some? <==> k == j)
  }

  lemma FailedOnly(jobs: seq<Node>, o: Oracle, s: Sys, j: string)
    requires Valid(jobs) && j in Names(jobs) && OnlyFails(jobs, o, j)
    requires NoEmptyDependency(jobs) && Inv(jobs, o, s) && Quiescent(jobs, s) && CascadeMatches(jobs, s)
    ensures FailedJobs(s) == {j}
  {
    hide Quiescent, CascadeMatches, NoEmptyDependency, S.SkipSet, FirstBad;
    AcyclicReachesNoCycle(jobs);
    QuiescentMeansFinished(jobs, o, s);
    forall k | k in FailedJobs(s) ensures k == j { assert JobInv(jobs, o, s, k); }
    assert JobInv(jobs, o, s, j);
    FirstBadNone(BadJobs(s), DependsOf(jobs, j));
    NobodyFails(jobs, s);
    assert j !in FailedJobs(s) ==> FailedJobs(s) == {};
  }

  lemma NobodyFails(jobs: seq<Node>, s: Sys)
    requires CascadeMatches(jobs, s)
    ensures FailedJobs(s) == {} ==> BadJobs(s) == {}
  {
  }

  /** What one failure stops: in a finished run in which `j` alone fails, a job does not
      succeed exactly when it is `j` or depends on it. */
  lemma FailureStopsDependents(jobs: seq<Node>, o: Oracle, s: Sys, j: string)
    requires Valid(jobs) && NoEmptyDependency(jobs) && j in Names(jobs) && OnlyFails(jobs, o, j)
    requires Reachable(jobs, o, s) && Quiescent(jobs, s)
    ensures forall k :: k in Names(jobs) ==>
              k in s.states && (s.states[k] != Succeeded <==> k == j || Reaches(jobs, k, j))
  {
    hide Quiescent, NoEmptyDependency, Reachable, Reaches, OnlyFails;
    ReachableInv(jobs, o, s);
    CascadeHolds(jobs, o, s);
    FailedOnly(jobs, o, s, j);
    forall k | k in Names(jobs) ensures s.states[k] != Succeeded <==> k == j || Reaches(jobs, k, j) {
      CascadeOfOne(jobs, s, j, k);
    }
  }

  lemma CascadeOfOne(jobs: seq<Node>, s: Sys, j: string, k: string)
    requires CascadeMatches(jobs, s) && FailedJobs(s) == {j} && k in Names(jobs) && k in s.states
    ensures s.states[k] != Succeeded <==> k == j || Reaches(jobs, k, j)
  {
    hide Reaches;
    T.KeepElements(jobs, S.SkipSet(jobs, {j}));
    var n :| n in jobs && n.name == k;
    assert S.ReachesAny(jobs, k, {j}) <==> Reaches(jobs, k, j);
    assert n in S.Keep(jobs, S.SkipSet(jobs, {j})) <==> k !in S.SkipSet(jobs, {j});
  }

  /** So aborting one job stops every other job exactly when every other job depends on it. */
  lemma AbortStopsAllIffAllDepend(jobs: seq<Node>, o: Oracle, s: Sys, j: string)
    requires Valid(jobs) && NoEmptyDependency(jobs) && j in Names(jobs) && OnlyFails(jobs, o, j)
    requires Reachable(jobs, o, s) && Quiescent(jobs, s)
    ensures (forall k :: k in Names(jobs) && k != j ==> k in s.states && s.states[k] == Skipped)
            <==> forall k :: k in Names(jobs) && k != j ==> Reaches(jobs, k, j)
  {
    hide Quiescent, NoEmptyDependency, Reachable, Reaches, OnlyFails;
    FailureStopsDependents(jobs, o, s, j);
    ReachableInv(jobs, o, s);
    AcyclicReachesNoCycle(jobs);
    CascadeHolds(jobs, o, s);
    FailedOnly(jobs, o, s, j);
    forall k | k in Names(jobs) && k != j ensures s.states[k] == Succeeded || s.states[k] == Skipped {
      EveryJobEndsGoodOrBad(jobs, o, s, k);
      assert k !in FailedJobs(s);
    }
  }
}
