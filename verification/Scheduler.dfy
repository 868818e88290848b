/** `Docker.Run`'s scheduler as a transition system: one goroutine per job, each waiting
    on its dependencies' `done` channels in order.  A step is one goroutine doing one
    thing between two points where others may interleave: a channel receive, a locked
    read of `states`, a locked write of `states`/`errs`, the return of `runJob`, or the
    close of its own channel.  What `runJob` returns is a fixed oracle per job. */
module Scheduler {
  import opened Graph
  import opened Strings
  import opened Seqs

  datatype JobState = Pending | Running | Succeeded | Failed | Skipped

  datatype JobError = BlockedOn(dep: string) | RunError(text: string)

  /** `None` is a nil error. */
  type Oracle = string -> Option<string>

  datatype Pc =
    | Receive(k: nat, blockedOn: string)  // about to receive from the k-th dependency's channel, or past the last
    | Inspect(k: nat, blockedOn: string)  // received; about to read the k-th dependency's state
    | InJob                               // inside runJob
    | Closing                             // final state set; about to close its own channel
    | Exited

  datatype Sys = Sys(pc: map<string, Pc>, states: map<string, JobState>, errs: map<string, JobError>, done: set<string>)

  function Init(jobs: seq<Node>): Sys {
    Sys(map j | j in Names(jobs) :: Receive(0, ""), map j | j in Names(jobs) :: Pending, map[], {})
  }

  predicate Enabled(jobs: seq<Node>, s: Sys, j: string) {
    j in s.pc
    && match s.pc[j]
       case Receive(k, _) => k == |DependsOf(jobs, j)| || (k < |DependsOf(jobs, j)| && DependsOf(jobs, j)[k] in s.done)
       case Inspect(k, _) => k < |DependsOf(jobs, j)|
       case InJob => true
       case Closing => true
       case Exited => false
  }

  /** `getState`; a Go map lookup yields the zero state for a missing key. */
  function GetState(s: Sys, j: string): JobState {
    if j in s.states then s.states[j] else Pending
  }

  predicate IsBad(st: JobState) {
    st == Failed || st == Skipped
  }

  /** The step goroutine `j` takes. */
  function After(jobs: seq<Node>, o: Oracle, s: Sys, j: string): Sys
    requires Enabled(jobs, s, j)
  {
    var depends := DependsOf(jobs, j);
    match s.pc[j]
    case Receive(k, b) =>
      if k < |depends| then s.(pc := s.pc[j := Inspect(k, b)])
      else if b != "" then
        s.(pc := s.pc[j := Closing], states := s.states[j := Skipped], errs := s.errs[j := BlockedOn(b)])
      else s.(pc := s.pc[j := InJob], states := s.states[j := Running])
    case Inspect(k, b) =>
      var b' := if IsBad(GetState(s, depends[k])) && b == "" then depends[k] else b;
      s.(pc := s.pc[j := Receive(k + 1, b')])
    case InJob =>
      (match o(j)
       case None => s.(pc := s.pc[j := Closing], states := s.states[j := Succeeded])
       case Some(e) => s.(pc := s.pc[j := Closing], states := s.states[j := Failed], errs := s.errs[j := RunError(e)]))
    case Closing => s.(pc := s.pc[j := Exited], done := s.done + {j})
  }

  /** `schedule` names who moves at each step. */
  ghost predicate Runs(jobs: seq<Node>, o: Oracle, s: Sys, schedule: seq<string>, t: Sys)
    decreases |schedule|
  {
    if |schedule| == 0 then s == t
    else Enabled(jobs, s, schedule[0]) && Runs(jobs, o, After(jobs, o, s, schedule[0]), schedule[1..], t)
  }

  ghost predicate Reachable(jobs: seq<Node>, o: Oracle, s: Sys) {
    exists schedule :: Runs(jobs, o, Init(jobs), schedule, s)
  }

  ghost predicate Quiescent(jobs: seq<Node>, s: Sys) {
    forall j :: !Enabled(jobs, s, j)
  }

  /** What `Run` checks before starting anything. */
  ghost predicate Accepted(jobs: seq<Node>) {
    Distinct(jobs) && Closed(jobs)
  }

  // ------------------------------------------------------------- the invariant

  /** The `blockedOn` loop over a prefix of the dependency list.  The empty string doubles
      as "nothing yet", so a bad dependency named "" is forgotten. */
  function FirstBad(bad: set<string>, depends: seq<string>): string {
    if |depends| == 0 then ""
    else
      var b := FirstBad(bad, depends[..|depends| - 1]);
      var d := depends[|depends| - 1];
      if d in bad && b == "" then d else b
  }

  function BadJobs(s: Sys): set<string> {
    set j | j in s.states && IsBad(s.states[j])
  }

  /** `states[j]` and `errs[j]` are what the dependencies and `runJob` dictate. */
  ghost predicate Decided(jobs: seq<Node>, o: Oracle, s: Sys, j: string)
    requires j in s.states
  {
    var b := FirstBad(BadJobs(s), DependsOf(jobs, j));
    if b != "" then s.states[j] == Skipped && j in s.errs && s.errs[j] == BlockedOn(b)
    else match o(j)
         case None => s.states[j] == Succeeded && j !in s.errs
         case Some(e) => s.states[j] == Failed && j in s.errs && s.errs[j] == RunError(e)
  }

  ghost predicate AllDone(s: Sys, depends: seq<string>) {
    forall d :: d in depends ==> d in s.done
  }

  ghost predicate JobInv(jobs: seq<Node>, o: Oracle, s: Sys, j: string)
    requires j in s.pc && j in s.states
  {
    var depends := DependsOf(jobs, j);
    (j in s.done <==> s.pc[j].Exited?)
    && match s.pc[j]
       case Receive(k, b) =>
         k <= |depends| && s.states[j] == Pending && j !in s.errs
         && AllDone(s, depends[..k]) && b == FirstBad(BadJobs(s), depends[..k])
       case Inspect(k, b) =>
         k < |depends| && s.states[j] == Pending && j !in s.errs
         && AllDone(s, depends[..k + 1]) && b == FirstBad(BadJobs(s), depends[..k])
       case InJob =>
         s.states[j] == Running && j !in s.errs
         && AllDone(s, depends) && FirstBad(BadJobs(s), depends) == ""
       case Closing => AllDone(s, depends) && Decided(jobs, o, s, j)
       case Exited => AllDone(s, depends) && Decided(jobs, o, s, j)
  }

  ghost predicate Inv(jobs: seq<Node>, o: Oracle, s: Sys) {
    s.pc.Keys == Names(jobs) && s.states.Keys == Names(jobs) && s.done <= Names(jobs) && s.errs.Keys <= Names(jobs)
    && (forall j :: j in Names(jobs) ==> JobInv(jobs, o, s, j))
    && (forall j :: j in s.done ==> !ReachesCycle(jobs, j))
  }

  lemma InitInv(jobs: seq<Node>, o: Oracle)
    ensures Inv(jobs, o, Init(jobs))
  {
  }

  lemma {:induction false} FirstBadAgrees(bad: set<string>, bad': set<string>, depends: seq<string>)
    requires forall d :: d in depends ==> (d in bad <==> d in bad')
    ensures FirstBad(bad, depends) == FirstBad(bad', depends)
  {
    if |depends| > 0 { FirstBadAgrees(bad, bad', depends[..|depends| - 1]); }
  }

  lemma FirstBadExtend(bad: set<string>, depends: seq<string>, k: nat)
    requires k < |depends|
    ensures FirstBad(bad, depends[..k + 1])
         == if depends[k] in bad && FirstBad(bad, depends[..k]) == "" then depends[k] else FirstBad(bad, depends[..k])
  {
    assert depends[..k + 1][..k] == depends[..k];
  }

  /** Everything recorded about `i` is the same in both states. */
  ghost predicate SameEntry(s: Sys, t: Sys, i: string) {
    (i in s.pc <==> i in t.pc) && (i in s.pc ==> s.pc[i] == t.pc[i])
    && (i in s.states <==> i in t.states) && (i in s.states ==> s.states[i] == t.states[i])
    && (i in s.errs <==> i in t.errs) && (i in s.errs ==> s.errs[i] == t.errs[i])
    && (i in s.done <==> i in t.done)
  }

  /** A step of `j` writes only `j`'s own entries. */
  lemma StepFrame(jobs: seq<Node>, o: Oracle, s: Sys, j: string, i: string)
    requires Enabled(jobs, s, j) && i != j
    ensures SameEntry(s, After(jobs, o, s, j), i)
  {
  }

  lemma StepKeys(jobs: seq<Node>, o: Oracle, s: Sys, j: string)
    requires Enabled(jobs, s, j) && Inv(jobs, o, s)
    ensures After(jobs, o, s, j).pc.Keys == s.pc.Keys && After(jobs, o, s, j).states.Keys == s.states.Keys
    ensures s.done <= After(jobs, o, s, j).done <= s.done + {j} && j in Names(jobs) && j !in s.done
  {
    assert JobInv(jobs, o, s, j);
  }

  /** Verdicts on finished dependencies survive a step. */
  lemma DonePrefixStable(jobs: seq<Node>, o: Oracle, s: Sys, j: string, depends: seq<string>)
    requires Enabled(jobs, s, j) && Inv(jobs, o, s) && AllDone(s, depends)
    ensures AllDone(After(jobs, o, s, j), depends)
    ensures FirstBad(BadJobs(After(jobs, o, s, j)), depends) == FirstBad(BadJobs(s), depends)
  {
    var t := After(jobs, o, s, j);
    StepKeys(jobs, o, s, j);
    forall d | d in depends ensures d in t.done && (d in BadJobs(s) <==> d in BadJobs(t)) {
      StepFrame(jobs, o, s, j, d);
    }
    FirstBadAgrees(BadJobs(t), BadJobs(s), depends);
  }

  lemma OthersKeepInv(jobs: seq<Node>, o: Oracle, s: Sys, j: string, i: string)
    requires Enabled(jobs, s, j) && Inv(jobs, o, s) && i in Names(jobs) && i != j
    ensures i in After(jobs, o, s, j).pc && i in After(jobs, o, s, j).states
    ensures JobInv(jobs, o, After(jobs, o, s, j), i)
  {
    var depends := DependsOf(jobs, i);
    StepFrame(jobs, o, s, j, i);
    assert JobInv(jobs, o, s, i);
    match s.pc[i]
    case Receive(k, b) => DonePrefixStable(jobs, o, s, j, depends[..k]);
    case Inspect(k, b) =>
      assert forall d :: d in depends[..k] ==> d in depends[..k + 1];
      DonePrefixStable(jobs, o, s, j, depends[..k]);
      DonePrefixStable(jobs, o, s, j, depends[..k + 1]);
    case InJob => DonePrefixStable(jobs, o, s, j, depends);
    case Closing => DonePrefixStable(jobs, o, s, j, depends);
    case Exited => DonePrefixStable(jobs, o, s, j, depends);
  }

  lemma AwaitKeepsInv(jobs: seq<Node>, o: Oracle, s: Sys, j: string)
    requires Enabled(jobs, s, j) && Inv(jobs, o, s) && s.pc[j].Receive? && s.pc[j].k < |DependsOf(jobs, j)|
    ensures j in After(jobs, o, s, j).pc && j in After(jobs, o, s, j).states
    ensures JobInv(jobs, o, After(jobs, o, s, j), j)
  {
    var depends, k := DependsOf(jobs, j), s.pc[j].k;
    assert JobInv(jobs, o, s, j);
    DonePrefixStable(jobs, o, s, j, depends[..k]);
    PrefixNext(depends, k);
  }

  lemma DecideKeepsInv(jobs: seq<Node>, o: Oracle, s: Sys, j: string)
    requires Enabled(jobs, s, j) && Inv(jobs, o, s) && s.pc[j].Receive? && s.pc[j].k == |DependsOf(jobs, j)|
    ensures j in After(jobs, o, s, j).pc && j in After(jobs, o, s, j).states
    ensures JobInv(jobs, o, After(jobs, o, s, j), j)
  {
    assert JobInv(jobs, o, s, j);
    WholePrefix(DependsOf(jobs, j));
    DonePrefixStable(jobs, o, s, j, DependsOf(jobs, j));
  }

  lemma InspectKeepsInv(jobs: seq<Node>, o: Oracle, s: Sys, j: string)
    requires Enabled(jobs, s, j) && Inv(jobs, o, s) && s.pc[j].Inspect?
    ensures j in After(jobs, o, s, j).pc && j in After(jobs, o, s, j).states
    ensures JobInv(jobs, o, After(jobs, o, s, j), j)
  {
    var depends, k := DependsOf(jobs, j), s.pc[j].k;
    assert JobInv(jobs, o, s, j);
    DonePrefixStable(jobs, o, s, j, depends[..k + 1]);
    FirstBadExtend(BadJobs(s), depends, k);
    PrefixNext(depends, k);
    assert depends[k] in depends[..k + 1];
  }

  lemma FinishKeepsInv(jobs: seq<Node>, o: Oracle, s: Sys, j: string)
    requires Enabled(jobs, s, j) && Inv(jobs, o, s) && (s.pc[j].InJob? || s.pc[j].Closing?)
    ensures j in After(jobs, o, s, j).pc && j in After(jobs, o, s, j).states
    ensures JobInv(jobs, o, After(jobs, o, s, j), j)
  {
    assert JobInv(jobs, o, s, j);
    DonePrefixStable(jobs, o, s, j, DependsOf(jobs, j));
  }

  lemma MoverKeepsInv(jobs: seq<Node>, o: Oracle, s: Sys, j: string)
    requires Enabled(jobs, s, j) && Inv(jobs, o, s)
    ensures j in After(jobs, o, s, j).pc && j in After(jobs, o, s, j).states
    ensures JobInv(jobs, o, After(jobs, o, s, j), j)
  {
    match s.pc[j]
    case Receive(k, _) =>
      if k < |DependsOf(jobs, j)| { AwaitKeepsInv(jobs, o, s, j); } else { DecideKeepsInv(jobs, o, s, j); }
    case Inspect(_, _) => InspectKeepsInv(jobs, o, s, j);
    case InJob => FinishKeepsInv(jobs, o, s, j);
    case Closing => FinishKeepsInv(jobs, o, s, j);
  }

  /** A job all of whose dependencies are off the cycles is off the cycles. */
  lemma DoneReachesNoCycle(jobs: seq<Node>, o: Oracle, s: Sys, j: string)
    requires Accepted(jobs) && Inv(jobs, o, s) && j in Names(jobs) && AllDone(s, DependsOf(jobs, j))
    ensures !ReachesCycle(jobs, j)
  {
    ReachesCycleStep(jobs, j);
    forall b | Edge(jobs, j, b) ensures !ReachesCycle(jobs, b) { EdgeIsDepends(jobs, j, b); }
  }

  lemma StepKeepsDone(jobs: seq<Node>, o: Oracle, s: Sys, j: string)
    requires Accepted(jobs) && Enabled(jobs, s, j) && Inv(jobs, o, s)
    ensures forall i :: i in After(jobs, o, s, j).done ==> !ReachesCycle(jobs, i)
  {
    var t := After(jobs, o, s, j);
    StepKeys(jobs, o, s, j);
    hide ReachesCycle, FirstBad;
    if j in t.done {
      assert JobInv(jobs, o, s, j);
      DoneReachesNoCycle(jobs, o, s, j);
    }
  }

  lemma StepInv(jobs: seq<Node>, o: Oracle, s: Sys, j: string)
    requires Accepted(jobs) && Enabled(jobs, s, j) && Inv(jobs, o, s)
    ensures Inv(jobs, o, After(jobs, o, s, j))
  {
    hide JobInv, ReachesCycle;
    StepKeys(jobs, o, s, j);
    StepErrKeys(jobs, o, s, j);
    StepKeepsDone(jobs, o, s, j);
    forall i | i in Names(jobs) ensures JobInv(jobs, o, After(jobs, o, s, j), i) {
      if i == j { MoverKeepsInv(jobs, o, s, j); } else { OthersKeepInv(jobs, o, s, j, i); }
    }
  }

  lemma StepErrKeys(jobs: seq<Node>, o: Oracle, s: Sys, j: string)
    requires Enabled(jobs, s, j)
    ensures After(jobs, o, s, j).errs.Keys <= s.errs.Keys + {j}
  {
  }

  lemma {:induction false} RunsKeepInv(jobs: seq<Node>, o: Oracle, s: Sys, schedule: seq<string>, t: Sys)
    requires Accepted(jobs) && Inv(jobs, o, s) && Runs(jobs, o, s, schedule, t)
    ensures Inv(jobs, o, t)
    decreases |schedule|
  {
    if |schedule| > 0 {
      StepInv(jobs, o, s, schedule[0]);
      RunsKeepInv(jobs, o, After(jobs, o, s, schedule[0]), schedule[1..], t);
    }
  }

  lemma ReachableInv(jobs: seq<Node>, o: Oracle, s: Sys)
    requires Accepted(jobs) && Reachable(jobs, o, s)
    ensures Inv(jobs, o, s)
  {
    var schedule :| Runs(jobs, o, Init(jobs), schedule, s);
    InitInv(jobs, o);
    RunsKeepInv(jobs, o, Init(jobs), schedule, s);
  }
}
