/** `Docker.runJob`: images, network, service containers, the job's own container, its two
    phases of steps, and the cleanups unwound on every way out. */
module RunJob {
  import opened Strings
  import opened Seqs
  import opened Steps
  import Debugger

  datatype Phase = Main | AfterScript

  datatype Step = Step(name: string, phase: Phase)

  datatype Resource = Network | ServiceContainer(i: nat) | JobContainer

  /** The Docker calls `runJob` makes before any step; service `i` is the i-th of the job's. */
  datatype Call =
    | PullImage
    | PullServiceImage(i: nat)
    | CreateNetwork
    | CreateService(i: nat)
    | StartService(i: nat)
    | CreateContainer
    | StartContainer

  datatype JobFailure = SetupFailed(call: Call) | StepsFailed(err: StepError)

  datatype Event =
    | Called(call: Call, ok: bool)
    | Ran(phase: Phase, visits: seq<Visit>)
    | JobDone(err: Option<JobFailure>)
    | Removed(resource: Resource)

  // ----------------------------------------------------------- specification

  function PullServices(n: nat): seq<Call> {
    seq(n, i requires 0 <= i < n => PullServiceImage(i))
  }

  function BringUpServices(n: nat): seq<Call> {
    seq(2 * n, i requires 0 <= i < 2 * n => if i % 2 == 0 then CreateService(i / 2) else StartService(i / 2))
  }

  /** Every setup call of a job with `n` services, in order. */
  function Plan(n: nat): seq<Call> {
    [PullImage] + (if n == 0 then [] else PullServices(n) + [CreateNetwork] + BringUpServices(n))
    + [CreateContainer, StartContainer]
  }

  lemma PlanAt(n: nat)
    ensures |Plan(n)| == if n == 0 then 3 else 3 * n + 4
    ensures Plan(n)[0] == PullImage
    ensures forall i :: 0 <= i < n ==> Plan(n)[1 + i] == PullServiceImage(i)
    ensures n > 0 ==> Plan(n)[n + 1] == CreateNetwork
    ensures forall i :: 0 <= i < n ==>
            Plan(n)[n + 2 + 2 * i] == CreateService(i) && Plan(n)[n + 3 + 2 * i] == StartService(i)
    ensures Plan(n)[|Plan(n)| - 2] == CreateContainer && Plan(n)[|Plan(n)| - 1] == StartContainer
  {
    forall i | 0 <= i < n
      ensures Plan(n)[n + 2 + 2 * i] == CreateService(i) && Plan(n)[n + 3 + 2 * i] == StartService(i)
    {
      assert BringUpServices(n)[2 * i] == CreateService(i) && BringUpServices(n)[2 * i + 1] == StartService(i);
    }
  }

  /** The calls made when each call's fate is `api`: up to and including the first failure. */
  function Attempt(api: Call -> bool, plan: seq<Call>): seq<Event> {
    if |plan| == 0 then []
    else if api(plan[0]) then [Called(plan[0], true)] + Attempt(api, plan[1..])
    else [Called(plan[0], false)]
  }

  function FirstRefused(api: Call -> bool, plan: seq<Call>): Option<Call> {
    if |plan| == 0 then None
    else if api(plan[0]) then FirstRefused(api, plan[1..])
    else Some(plan[0])
  }

  function ResourceOf(c: Call): Option<Resource> {
    match c
    case CreateNetwork => Some(Network)
    case CreateService(i) => Some(ServiceContainer(i))
    case CreateContainer => Some(JobContainer)
    case _ => None
  }

  /** What the calls of a log have created, in order. */
  function Created(log: seq<Event>): seq<Resource> {
    if |log| == 0 then []
    else (if log[0].Called? && log[0].ok && ResourceOf(log[0].call).Some? then [ResourceOf(log[0].call).value] else [])
         + Created(log[1..])
  }

  function Removals(rs: seq<Resource>): seq<Event> {
    if |rs| == 0 then [] else [Removed(rs[0])] + Removals(rs[1..])
  }

  function NamesOf(steps: seq<Step>, phase: Phase): seq<string> {
    if |steps| == 0 then []
    else (if steps[0].phase == phase then [steps[0].name] else []) + NamesOf(steps[1..], phase)
  }

  function Wrap(err: Option<StepError>): Option<JobFailure> {
    match err
    case None => None
    case Some(e) => Some(StepsFailed(e))
  }

  /** The job's error, from the two phases' outcomes. */
  function FinalError(main: Outcome, after: Outcome): Option<StepError> {
    if main.aborted then main.err
    else if after.aborted then after.err
    else if main.err.Some? then main.err
    else after.err
  }

  // ----------------------------------------------------------------- the code

  class JobRun {
    const api: Call -> bool
    const runner: Runner
    var log: seq<Event>
    var cleanups: seq<Resource>  // pushed in creation order, unwound from the end

    constructor (api: Call -> bool, runner: Runner)
      ensures this.api == api && this.runner == runner && log == [] && cleanups == []
    {
      this.api, this.runner, log, cleanups := api, runner, [], [];
    }

    /** One Docker call; what it creates is queued for removal. */
    method Do(c: Call) returns (ok: bool)
      modifies this
      ensures ok == api(c)
      ensures log == old(log) + [Called(c, ok)]
      ensures cleanups == old(cleanups) + Created([Called(c, ok)])
    {
      ok := api(c);
      log := log + [Called(c, ok)];
      if ok {
        match ResourceOf(c)
        case Some(r) => cleanups := cleanups + [r];
        case None =>
      }
    }

    /** The first `k` calls of the plan went through. */
    ghost predicate SoFar(start: seq<Event>, plan: seq<Call>, k: nat)
      requires k <= |plan|
      reads this
    {
      FirstRefused(api, plan[..k]) == None
      && log == start + Attempt(api, plan[..k]) && cleanups == Created(Attempt(api, plan[..k]))
    }

    /** The plan has been carried out, or given up at `refused`. */
    ghost predicate CarriedOut(start: seq<Event>, plan: seq<Call>, refused: Option<Call>)
      reads this
    {
      refused == FirstRefused(api, plan)
      && log == start + Attempt(api, plan) && cleanups == Created(Attempt(api, plan))
    }

    method DoNext(c: Call, ghost start: seq<Event>, ghost plan: seq<Call>, ghost k: nat) returns (ok: bool)
      requires k < |plan| && plan[k] == c && SoFar(start, plan, k)
      modifies this
      ensures ok ==> SoFar(start, plan, k + 1)
      ensures !ok ==> CarriedOut(start, plan, Some(c))
    {
      ok := Do(c);
      PrefixNext(plan, k);
      AttemptAppend(api, plan[..k], [c]);
      assert Attempt(api, [c]) == [Called(c, ok)];
      CreatedAppend(Attempt(api, plan[..k]), [Called(c, ok)]);
      AttemptAppend(api, plan[..k + 1], plan[k + 1..]);
      assert plan[..k + 1] + plan[k + 1..] == plan;
    }

    /** The setup half: `None` when everything is up, else the call that failed. */
    method SetUp(services: nat) returns (refused: Option<Call>)
      requires cleanups == []
      modifies this
      ensures CarriedOut(old(log), Plan(services), refused)
    {
      ghost var start, plan := log, Plan(services);
      PlanAt(services);
      var ok := DoNext(PullImage, start, plan, 0);
      if !ok { return Some(PullImage); }
      if services > 0 {
        refused := SetUpServices(services, start);
        if refused.Some? { return; }
      }
      ok := DoNext(CreateContainer, start, plan, |plan| - 2);
      if !ok { return Some(CreateContainer); }
      ok := DoNext(StartContainer, start, plan, |plan| - 1);
      if !ok { return Some(StartContainer); }
      WholePrefix(plan);
      return None;
    }

    method SetUpServices(services: nat, ghost start: seq<Event>) returns (refused: Option<Call>)
      requires services > 0 && SoFar(start, Plan(services), 1)
      modifies this
      ensures refused == None ==> SoFar(start, Plan(services), |Plan(services)| - 2)
      ensures refused.Some? ==> CarriedOut(start, Plan(services), refused)
    {
      hide Plan, Attempt, FirstRefused, Created;
      ghost var plan := Plan(services);
      PlanAt(services);
      for i := 0 to services
        invariant SoFar(start, plan, 1 + i)
      {
        var ok := DoNext(PullServiceImage(i), start, plan, 1 + i);
        if !ok { return Some(PullServiceImage(i)); }
      }
      var ok := DoNext(CreateNetwork, start, plan, services + 1);
      if !ok { return Some(CreateNetwork); }
      for i := 0 to services
        invariant SoFar(start, plan, services + 2 + 2 * i)
      {
        ok := DoNext(CreateService(i), start, plan, services + 2 + 2 * i);
        if !ok { return Some(CreateService(i)); }
        ok := DoNext(StartService(i), start, plan, services + 3 + 2 * i);
        if !ok { return Some(StartService(i)); }
      }
      return None;
    }

    /** The two phases, once everything is up. */
    method RunPhases(steps: seq<Step>) returns (err: Option<StepError>)
      requires this as object != runner
      modifies this`log, runner, runner.ctrl
      ensures var e := old(ExpectedPhases(steps));
              err == e.err && log == old(log) + e.events && runner.visits == old(runner.visits) + e.visits
              && runner.Unread() == e.input
    {
      hide RunFrom;
      var main, after := Partition(steps);
      ghost var logged, start := log, runner.visits;
      ghost var o1 := runner.Expected(main, true, 0, None);
      var mainErr, aborted := RunPhase(Main, main);
      if aborted { return mainErr; }
      ghost var o2 := runner.Expected(after, false, 0, None);
      var afterErr, afterAborted := RunPhase(AfterScript, after);
      assert runner.visits == start + (o1.visits + o2.visits);
      assert log == logged + [Ran(Main, o1.visits), Ran(AfterScript, o2.visits)];
      if afterAborted { return afterErr; }
      return if mainErr == None then afterErr else mainErr;
    }

    /** One phase; only the main phase stops at its first failure. */
    method RunPhase(phase: Phase, steps: seq<string>) returns (err: Option<StepError>, aborted: bool)
      requires this as object != runner
      modifies this`log, runner, runner.ctrl
      ensures var o := old(runner.Expected(steps, phase == Main, 0, None));
              err == o.err && aborted == o.aborted && log == old(log) + [Ran(phase, o.visits)]
              && runner.visits == old(runner.visits) + o.visits && runner.Unread() == o.input
    {
      var start := runner.visits;
      ghost var o := runner.Expected(steps, phase == Main, 0, None);
      err, aborted := runner.RunSteps(steps, phase == Main);
      assert runner.visits[|start|..] == o.visits;
      log := log + [Ran(phase, runner.visits[|start|..])];
    }

    method Partition(steps: seq<Step>) returns (main: seq<string>, after: seq<string>)
      ensures main == NamesOf(steps, Main) && after == NamesOf(steps, AfterScript)
    {
      main, after := [], [];
      for i := 0 to |steps|
        invariant main == NamesOf(steps[..i], Main) && after == NamesOf(steps[..i], AfterScript)
      {
        NamesOfNext(steps, i, Main);
        NamesOfNext(steps, i, AfterScript);
        if steps[i].phase == AfterScript { after := after + [steps[i].name]; } else { main := main + [steps[i].name]; }
      }
      WholePrefix(steps);
    }

    ghost function ExpectedPhases(steps: seq<Step>): PhasesResult
      reads this, runner, runner.ctrl
    {
      Phases(runner.Flags(), runner.w, steps, |runner.visits|, runner.Unread())
    }

    method Run(services: nat, steps: seq<Step>) returns (err: Option<JobFailure>)
      requires cleanups == [] && this as object != runner
      modifies this, runner, runner.ctrl
      ensures var e := JobSpec(api, services, old(ExpectedPhases(steps)));
              err == e.err && log == old(log) + e.events
    {
      hide Plan, Attempt, FirstRefused, Created, Phases, Removals, Reverse;
      var refused := SetUp(services);
      if refused.Some? {
        err := Some(SetupFailed(refused.value));
      } else {
        var stepErr := RunPhases(steps);
        err := Wrap(stepErr);
      }
      log := log + [JobDone(err)];
      Unwind();
    }

    /** The deferred loop over `cleanups`, last pushed first. */
    method Unwind()
      modifies this`log
      ensures log == old(log) + Removals(Reverse(cleanups))
    {
      var i := |cleanups|;
      assert cleanups[i..] == [];
      while i > 0
        invariant 0 <= i <= |cleanups|
        invariant log == old(log) + Removals(Reverse(cleanups[i..]))
      {
        i := i - 1;
        assert cleanups[i..] == [cleanups[i]] + cleanups[i + 1..];
        RemovalsAppend(Reverse(cleanups[i + 1..]), [cleanups[i]]);
        log := log + [Removed(cleanups[i])];
      }
      assert cleanups[0..] == cleanups;
    }
  }

  datatype PhasesResult = PhasesResult(err: Option<StepError>, events: seq<Event>, visits: seq<Visit>, input: string)

  datatype JobResult = JobResult(err: Option<JobFailure>, events: seq<Event>)

  function Phases(ctrl: Option<Debugger.Flags>, w: World, steps: seq<Step>, n: nat, input: string): PhasesResult {
    var main := RunFrom(ctrl, w, NamesOf(steps, Main), true, 0, None, n, input);
    if main.aborted then PhasesResult(main.err, [Ran(Main, main.visits)], main.visits, main.input)
    else
      var after := RunFrom(ctrl, w, NamesOf(steps, AfterScript), false, 0, None, n + |main.visits|, main.input);
      PhasesResult(FinalError(main, after), [Ran(Main, main.visits), Ran(AfterScript, after.visits)],
                   main.visits + after.visits, after.input)
  }

  function JobSpec(api: Call -> bool, services: nat, phases: PhasesResult): JobResult {
    var plan := Plan(services);
    var err := match FirstRefused(api, plan)
               case Some(c) => Some(SetupFailed(c))
               case None => Wrap(phases.err);
    JobResult(err, Attempt(api, plan) + (if FirstRefused(api, plan) == None then phases.events else [])
                   + [JobDone(err)] + Removals(Reverse(Created(Attempt(api, plan)))))
  }

  lemma {:induction false} AttemptAppend(api: Call -> bool, a: seq<Call>, b: seq<Call>)
    ensures FirstRefused(api, a) == None ==>
              Attempt(api, a + b) == Attempt(api, a) + Attempt(api, b)
              && FirstRefused(api, a + b) == FirstRefused(api, b)
    ensures FirstRefused(api, a).Some? ==>
              Attempt(api, a + b) == Attempt(api, a) && FirstRefused(api, a + b) == FirstRefused(api, a)
  {
    if |a| == 0 {
      assert a + b == b;
    } else {
      assert (a + b)[1..] == a[1..] + b;
      AttemptAppend(api, a[1..], b);
    }
  }

  lemma {:induction false} CreatedAppend(a: seq<Event>, b: seq<Event>)
    ensures Created(a + b) == Created(a) + Created(b)
  {
    if |a| == 0 {
      assert a + b == b;
    } else {
      assert (a + b)[1..] == a[1..] + b;
      CreatedAppend(a[1..], b);
    }
  }

  lemma {:induction false} NamesOfAppend(a: seq<Step>, b: seq<Step>, p: Phase)
    ensures NamesOf(a + b, p) == NamesOf(a, p) + NamesOf(b, p)
  {
    if |a| == 0 {
      assert a + b == b;
    } else {
      assert (a + b)[1..] == a[1..] + b;
      NamesOfAppend(a[1..], b, p);
    }
  }

  lemma NamesOfNext(steps: seq<Step>, i: nat, p: Phase)
    requires i < |steps|
    ensures NamesOf(steps[..i + 1], p) == NamesOf(steps[..i], p) + (if steps[i].phase == p then [steps[i].name] else [])
  {
    PrefixNext(steps, i);
    NamesOfAppend(steps[..i], [steps[i]], p);
    assert [steps[i]][1..] == [];
  }

  lemma {:induction false} RemovalsAppend(a: seq<Resource>, b: seq<Resource>)
    ensures Removals(a + b) == Removals(a) + Removals(b)
  {
    if |a| == 0 {
      assert a + b == b;
    } else {
      assert (a + b)[1..] == a[1..] + b;
      RemovalsAppend(a[1..], b);
    }
  }

  // ------------------------------------------------------------------ theorems

  function ResourcesOf(calls: seq<Call>): seq<Resource> {
    if |calls| == 0 then []
    else (match ResourceOf(calls[0]) case Some(r) => [r] case None => []) + ResourcesOf(calls[1..])
  }

  lemma {:induction false} ResourcesOfAppend(a: seq<Call>, b: seq<Call>)
    ensures ResourcesOf(a + b) == ResourcesOf(a) + ResourcesOf(b)
  {
    if |a| == 0 {
      assert a + b == b;
    } else {
      assert (a + b)[1..] == a[1..] + b;
      ResourcesOfAppend(a[1..], b);
    }
  }

  /** What an attempt creates is an initial part of what the plan would create. */
  lemma {:induction false} CreatedIsPrefix(api: Call -> bool, plan: seq<Call>)
    ensures Created(Attempt(api, plan)) <= ResourcesOf(plan)
  {
    if |plan| > 0 && api(plan[0]) {
      CreatedIsPrefix(api, plan[1..]);
      assert Attempt(api, plan)[1..] == Attempt(api, plan[1..]);
    }
  }

  function ServiceResources(n: nat): seq<Resource> {
    seq(n, i requires 0 <= i < n => ServiceContainer(i))
  }

  lemma {:induction false} PullsCreateNothing(calls: seq<Call>)
    requires forall c :: c in calls ==> c.PullServiceImage?
    ensures ResourcesOf(calls) == []
  {
    if |calls| > 0 { PullsCreateNothing(calls[1..]); }
  }

  lemma {:induction false} BringUpCreates(n: nat)
    ensures ResourcesOf(BringUpServices(n)) == ServiceResources(n)
  {
    if n > 0 {
      BringUpCreates(n - 1);
      var last := [CreateService(n - 1), StartService(n - 1)];
      assert BringUpServices(n) == BringUpServices(n - 1) + last;
      ResourcesOfAppend(BringUpServices(n - 1), last);
      assert last[1..] == [StartService(n - 1)] && last[1..][1..] == [];
      assert ResourcesOf(last[1..]) == [];
      assert ResourcesOf(last) == [ServiceContainer(n - 1)];
      assert ServiceResources(n) == ServiceResources(n - 1) + [ServiceContainer(n - 1)];
    }
  }

  /** The network comes first, then the services in order, then the job's own container. */
  lemma PlanCreates(n: nat)
    ensures ResourcesOf(Plan(n)) == (if n == 0 then [] else [Network] + ServiceResources(n)) + [JobContainer]
  {
    var middle := if n == 0 then [] else PullServices(n) + [CreateNetwork] + BringUpServices(n);
    var tail := [CreateContainer, StartContainer];
    ResourcesOfAppend([PullImage] + middle, tail);
    ResourcesOfAppend([PullImage], middle);
    assert tail[1..] == [StartContainer] && tail[1..][1..] == [] && [PullImage][1..] == [];
    if n > 0 {
      ResourcesOfAppend(PullServices(n) + [CreateNetwork], BringUpServices(n));
      ResourcesOfAppend(PullServices(n), [CreateNetwork]);
      PullsCreateNothing(PullServices(n));
      BringUpCreates(n);
      assert [CreateNetwork][1..] == [];
    }
  }

  function RemovedIn(log: seq<Event>): seq<Resource> {
    if |log| == 0 then []
    else (if log[0].Removed? then [log[0].resource] else []) + RemovedIn(log[1..])
  }

  lemma {:induction false} RemovedInAppend(a: seq<Event>, b: seq<Event>)
    ensures RemovedIn(a + b) == RemovedIn(a) + RemovedIn(b)
  {
    if |a| == 0 {
      assert a + b == b;
    } else {
      assert (a + b)[1..] == a[1..] + b && (a + b)[0] == a[0];
      RemovedInAppend(a[1..], b);
    }
  }

  lemma {:induction false} RemovalsRemove(rs: seq<Resource>)
    ensures RemovedIn(Removals(rs)) == rs && Created(Removals(rs)) == []
    ensures |Removals(rs)| == |rs| && forall e :: e in Removals(rs) ==> e.Removed?
  {
    if |rs| > 0 { RemovalsRemove(rs[1..]); }
  }

  lemma {:induction false} QuietEvents(log: seq<Event>)
    requires forall e :: e in log ==> e.Ran? || e.JobDone?
    ensures RemovedIn(log) == [] && Created(log) == []
  {
    if |log| > 0 {
      assert log[0] in log;
      QuietEvents(log[1..]);
    }
  }

  lemma {:induction false} AttemptRemovesNothing(api: Call -> bool, plan: seq<Call>)
    ensures RemovedIn(Attempt(api, plan)) == [] && forall e :: e in Attempt(api, plan) ==> e.Called?
  {
    if |plan| > 0 && api(plan[0]) {
      AttemptRemovesNothing(api, plan[1..]);
      assert Attempt(api, plan)[1..] == Attempt(api, plan[1..]);
    }
  }

  lemma {:induction false} ReverseAt<T>(s: seq<T>, k: nat)
    requires k < |s|
    ensures Reverse(s)[|s| - 1 - k] == s[k]
  {
    if k > 0 { ReverseAt(s[1..], k - 1); }
  }

  // ----------------------------------------------- what a failed setup comes to

  /** Call `k` is the first of the plan that is refused. */
  ghost predicate RefusedAt(api: Call -> bool, plan: seq<Call>, k: nat) {
    k < |plan| && !api(plan[k]) && forall i :: 0 <= i < k ==> api(plan[i])
  }

  ghost predicate AllAccepted(api: Call -> bool, plan: seq<Call>) {
    forall i :: 0 <= i < |plan| ==> api(plan[i])
  }

  /** The calls of a plan, all of them accepted or the last one refused. */
  ghost predicate AreCalls(log: seq<Event>, calls: seq<Call>, refused: bool) {
    |log| == |calls| && forall i :: 0 <= i < |log| ==> log[i] == Called(calls[i], !refused || i < |log| - 1)
  }

  ghost predicate OnlyRemovals(log: seq<Event>) {
    forall e :: e in log ==> e.Removed?
  }

  lemma {:induction false} AttemptToRefusal(api: Call -> bool, plan: seq<Call>, k: nat)
    requires RefusedAt(api, plan, k)
    ensures FirstRefused(api, plan) == Some(plan[k])
    ensures AreCalls(Attempt(api, plan), plan[..k + 1], true)
    decreases k
  {
    if k > 0 {
      assert api(plan[0]);
      assert forall i :: 0 <= i < k - 1 ==> plan[1..][i] == plan[i + 1];
      AttemptToRefusal(api, plan[1..], k - 1);
      assert forall i :: 0 <= i < k ==> plan[1..][..k][i] == plan[..k + 1][i + 1];
    }
  }

  lemma {:induction false} AttemptAll(api: Call -> bool, plan: seq<Call>)
    requires AllAccepted(api, plan)
    ensures FirstRefused(api, plan) == None && AreCalls(Attempt(api, plan), plan, false)
  {
    if |plan| > 0 {
      assert forall i :: 0 <= i < |plan| - 1 ==> plan[1..][i] == plan[i + 1];
      AttemptAll(api, plan[1..]);
    }
  }

  /** A refused setup call is what the job returns and reports; no call follows it, and no
      step is executed. */
  lemma RefusedCallIsTheError(api: Call -> bool, n: nat, phases: PhasesResult, k: nat)
    requires RefusedAt(api, Plan(n), k)
    ensures var r := JobSpec(api, n, phases);
            r.err == Some(SetupFailed(Plan(n)[k]))
            && exists calls, removed :: AreCalls(calls, Plan(n)[..k + 1], true) && OnlyRemovals(removed)
                 && r.events == calls + [JobDone(r.err)] + removed
  {
    hide Plan, Attempt, FirstRefused, Created, Removals, Reverse, AreCalls;
    AttemptToRefusal(api, Plan(n), k);
    var calls, removed := Attempt(api, Plan(n)), Removals(Reverse(Created(Attempt(api, Plan(n)))));
    RemovalsRemove(Reverse(Created(Attempt(api, Plan(n)))));
    assert calls + [] == calls;
    assert AreCalls(calls, Plan(n)[..k + 1], true) && OnlyRemovals(removed);
    assert JobSpec(api, n, phases).events == calls + [JobDone(JobSpec(api, n, phases).err)] + removed;
  }

  /** When every call is accepted, the steps decide: what they return is what the job returns
      and reports, after all its calls and executions. */
  lemma StepsAreTheError(api: Call -> bool, n: nat, phases: PhasesResult)
    requires AllAccepted(api, Plan(n))
    ensures var r := JobSpec(api, n, phases);
            (r.err == None <==> phases.err == None)
            && (phases.err.Some? ==> r.err == Some(StepsFailed(phases.err.value)))
            && exists calls, removed :: AreCalls(calls, Plan(n), false) && OnlyRemovals(removed)
                 && r.events == calls + phases.events + [JobDone(r.err)] + removed
  {
    hide Plan, Attempt, FirstRefused, Created, Removals, Reverse, AreCalls;
    AttemptAll(api, Plan(n));
    var calls, removed := Attempt(api, Plan(n)), Removals(Reverse(Created(Attempt(api, Plan(n)))));
    RemovalsRemove(Reverse(Created(Attempt(api, Plan(n)))));
    assert AreCalls(calls, Plan(n), false) && OnlyRemovals(removed);
    assert JobSpec(api, n, phases).events == calls + phases.events + [JobDone(JobSpec(api, n, phases).err)] + removed;
  }

  // ------------------------------------------------------ what is created, and run

  /** An accepted creating call makes its resource; a refused one makes none. */
  function Makes(): Event -> Option<Resource> {
    (e: Event) =>
      match e
      case Called(CreateNetwork, true) => Some(Network)
      case Called(CreateService(i), true) => Some(ServiceContainer(i))
      case Called(CreateContainer, true) => Some(JobContainer)
      case _ => None
  }

  lemma {:induction false} CreatedInOrder(log: seq<Event>)
    ensures Selected(log, Makes(), Created(log))
  {
    if |log| == 0 {
      SelectedNone<Event, Resource>(Makes());
    } else {
      CreatedInOrder(log[1..]);
      SelectedFirst(log, Makes(), Created(log[1..]));
    }
  }

  function InPhase(p: Phase): Step -> Option<string> {
    (s: Step) => if s.phase == p then Some(s.name) else None
  }

  /** Each phase executes its own steps, in the order they are listed. */
  lemma {:induction false} StepsInOrder(steps: seq<Step>, p: Phase)
    ensures Selected(steps, InPhase(p), NamesOf(steps, p))
  {
    if |steps| == 0 {
      SelectedNone<Step, string>(InPhase(p));
    } else {
      StepsInOrder(steps[1..], p);
      SelectedFirst(steps, InPhase(p), NamesOf(steps[1..], p));
    }
  }

  /** A phase result as `Phases` produces it: nothing but executed phases. */
  ghost predicate OnlyPhases(phases: PhasesResult) {
    forall e :: e in phases.events ==> e.Ran?
  }

  /** Every removal comes after every setup call. */
  ghost predicate RemovalsLast(log: seq<Event>) {
    forall i, j :: 0 <= i < |log| && 0 <= j < |log| && log[i].Called? && log[j].Removed? ==> i < j
  }

  /** The resources removed are exactly those created, each once, in reverse order of
      creation, all after the last setup call, and the network last. */
  ghost predicate Conserved(log: seq<Event>) {
    RemovedIn(log) == Reverse(Created(log))
    && (forall i, j :: 0 <= i < j < |Created(log)| ==> Created(log)[i] != Created(log)[j])
    && (Network in Created(log) ==> RemovedIn(log) != [] && RemovedIn(log)[|RemovedIn(log)| - 1] == Network)
    && RemovalsLast(log)
  }

  /** Resource conservation, on every way out of `runJob`: whichever call fails and however
      the steps go, with or without a debugger. */
  lemma ResourcesConserved(api: Call -> bool, n: nat, ctrl: Option<Debugger.Flags>, w: World, steps: seq<Step>,
                           visited: nat,
                           input: string)
    ensures Conserved(JobSpec(api, n, Phases(ctrl, w, steps, visited, input)).events)
  {
    hide Conserved, OnlyPhases;
    PhasesAreOnlyPhases(ctrl, w, steps, visited, input);
    JobConserves(api, n, Phases(ctrl, w, steps, visited, input));
  }

  lemma JobConserves(api: Call -> bool, n: nat, phases: PhasesResult)
    requires OnlyPhases(phases)
    ensures Conserved(JobSpec(api, n, phases).events)
  {
    hide Attempt, Plan, FirstRefused, Created, RemovedIn, Removals;
    var setup := Attempt(api, Plan(n));
    var made := Created(setup);
    var ran := if FirstRefused(api, Plan(n)) == None then phases.events else [];
    var middle := ran + [JobDone(JobSpec(api, n, phases).err)];
    var log := setup + middle + Removals(Reverse(made));
    assert JobSpec(api, n, phases).events == log;
    AttemptRemovesNothing(api, Plan(n));
    QuietEvents(middle);
    RemovalsRemove(Reverse(made));
    LogOfParts(setup, middle, Removals(Reverse(made)));
    PartsAreOrdered(setup, middle, Removals(Reverse(made)));
    CreatedIsPrefix(api, Plan(n));
    PlanCreates(n);
    if Network in made {
      assert made[0] == Network;
      ReverseAt(made, 0);
    }
  }

  lemma PartsAreOrdered(a: seq<Event>, b: seq<Event>, c: seq<Event>)
    requires (forall e :: e in a ==> e.Called?) && (forall e :: e in b ==> e.Ran? || e.JobDone?)
             && (forall e :: e in c ==> e.Removed?)
    ensures RemovalsLast(a + b + c)
  {
    var log := a + b + c;
    assert forall e :: e in b + c ==> !e.Called?;
    assert forall i :: |a| <= i < |log| ==> log[i] in b + c;
    assert forall j :: 0 <= j < |a| ==> log[j] in a;
  }

  lemma LogOfParts(a: seq<Event>, b: seq<Event>, c: seq<Event>)
    requires RemovedIn(a) == RemovedIn(b) == [] && Created(b) == Created(c) == []
    ensures RemovedIn(a + b + c) == RemovedIn(c) && Created(a + b + c) == Created(a)
  {
    RemovedInAppend(a + b, c);
    RemovedInAppend(a, b);
    CreatedAppend(a + b, c);
    CreatedAppend(a, b);
  }

  lemma PhasesAreOnlyPhases(ctrl: Option<Debugger.Flags>, w: World, steps: seq<Step>, n: nat, input: string)
    ensures OnlyPhases(Phases(ctrl, w, steps, n, input))
  {
  }

  /** Without a debugger: the main steps up to the first failure, then every after-script
      step, and the error is the first main failure or else the first after-script one. */
  lemma PhasesWithoutController(w: World, steps: seq<Step>, n: nat, input: string)
    ensures var p := Phases(None, w, steps, n, input);
            |p.events| == 2 && p.events[0].Ran? && p.events[0].phase == Main && p.events[1].Ran?
            && p.events[1].phase == AfterScript
            && exists main: Outcome, after: Outcome ::
                 main.visits == p.events[0].visits && after.visits == p.events[1].visits
                 && StoppedAtFirst(w, NamesOf(steps, Main), 0, n, main)
                 && RanAll(w, NamesOf(steps, AfterScript), 0, n + |main.visits|, after)
                 && p.err == if main.err.Some? then main.err else after.err
  {
    var main := RunFrom(None, w, NamesOf(steps, Main), true, 0, None, n, input);
    StopsAtFirstFailure(w, NamesOf(steps, Main), 0, n, input);
    var after := RunFrom(None, w, NamesOf(steps, AfterScript), false, 0, None, n + |main.visits|, main.input);
    RunsEveryStep(w, NamesOf(steps, AfterScript), 0, n + |main.visits|, main.input);
  }

  /** One phase under a debugger: it fails only by abort, and repeats a step only after a
      retry answered from a shell. */
  ghost predicate Debugged(steps: seq<string>, o: Outcome) {
    ErrorIsAbort(steps, o) && Disciplined(o.visits, 0)
  }

  lemma PhaseIsDebugged(flags: Debugger.Flags, w: World, steps: seq<string>, stop: bool, n: nat, input: string)
    ensures Debugged(steps, RunFrom(Some(flags), w, steps, stop, 0, None, n, input))
  {
    ErrorOnlyOnAbort(flags, w, steps, stop, 0, n, input);
    RetriesFollowShells(flags, w, steps, stop, 0, n, input);
  }

  /** With a debugger: an abort in the main phase runs no after-script step and decides the
      error; otherwise the main phase reported no error at all, and the after-script phase
      decides. */
  lemma PhasesWithController(flags: Debugger.Flags, w: World, steps: seq<Step>, n: nat, input: string)
    ensures var p := Phases(Some(flags), w, steps, n, input);
            exists main: Outcome :: Debugged(NamesOf(steps, Main), main)
              && (if main.aborted then p.events == [Ran(Main, main.visits)] && p.err == main.err
                  else exists after: Outcome :: Debugged(NamesOf(steps, AfterScript), after)
                         && p.events == [Ran(Main, main.visits), Ran(AfterScript, after.visits)] && p.err == after.err)
  {
    hide RunFrom, Disciplined, AbortedBy, NamesOf;
    var ms, fs := NamesOf(steps, Main), NamesOf(steps, AfterScript);
    var main := RunFrom(Some(flags), w, ms, true, 0, None, n, input);
    PhaseIsDebugged(flags, w, ms, true, n, input);
    PhaseIsDebugged(flags, w, fs, false, n + |main.visits|, main.input);
    var after := RunFrom(Some(flags), w, fs, false, 0, None, n + |main.visits|, main.input);
    assert Debugged(ms, main) && Debugged(fs, after);
  }

  lemma {:induction false} PhaseSizes(steps: seq<Step>)
    ensures |NamesOf(steps, Main)| + |NamesOf(steps, AfterScript)| == |steps|
  {
    if |steps| > 0 { PhaseSizes(steps[1..]); }
  }

  /** A whole job executes at most one step per step of the job and line of input. */
  lemma JobExecutionsAreBounded(ctrl: Option<Debugger.Flags>, w: World, steps: seq<Step>, n: nat, input: string)
    ensures var p := Phases(ctrl, w, steps, n, input);
            |p.visits| + Debugger.Newlines(p.input) <= |steps| + Debugger.Newlines(input)
  {
    PhaseSizes(steps);
    var ms, fs := NamesOf(steps, Main), NamesOf(steps, AfterScript);
    var main := RunFrom(ctrl, w, ms, true, 0, None, n, input);
    ExecutionsAreBounded(ctrl, w, ms, true, 0, None, n, input);
    ExecutionsAreBounded(ctrl, w, fs, false, 0, None, n + |main.visits|, main.input);
  }
}
