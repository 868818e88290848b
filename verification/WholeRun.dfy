/** A whole `Run` under the debugger: the goroutines of the scheduler, the Docker calls each
    job makes before its steps, and the steps of all jobs at one terminal, interleaved. */
module WholeRun {
  import opened Graph
  import opened Strings
  import opened Scheduler
  import opened SchedulerTheorems
  import opened Debugger
  import M = Terminal
  import R = RunJob
  import Steps

  datatype Job = Job(name: string, depends: seq<string>, services: nat, steps: seq<R.Step>)

  /** How far a job's setup has come: the next call of its plan, or the call that failed. */
  datatype Setup = Calling(k: nat) | Refused(call: R.Call)

  datatype Whole = Whole(sys: Sys, setup: map<string, Setup>, shared: M.Shared)

  /** A goroutine moves, or the job it runs makes its next Docker call or executes a step. */
  datatype Event = Moves(job: string) | Calls(job: string, ok: bool) | Executes(turn: M.Turn)

  /** The text of the error `runJob` returns. */
  type ErrorText = R.JobFailure -> string

  function Nodes(jobs: seq<Job>): (r: seq<Node>)
    ensures |r| == |jobs| && forall i :: 0 <= i < |jobs| ==> r[i] == Node(jobs[i].name, jobs[i].depends)
  {
    seq(|jobs|, i requires 0 <= i < |jobs| => Node(jobs[i].name, jobs[i].depends))
  }

  function Stepped(jobs: seq<Job>): (r: seq<M.Job>)
    ensures |r| == |jobs| && forall i :: 0 <= i < |jobs| ==> r[i] == M.Job(jobs[i].name, jobs[i].steps)
  {
    seq(|jobs|, i requires 0 <= i < |jobs| => M.Job(jobs[i].name, jobs[i].steps))
  }

  function Named(jobs: seq<Job>, name: string): Option<Job> {
    if |jobs| == 0 then None else if jobs[0].name == name then Some(jobs[0]) else Named(jobs[1..], name)
  }

  function PlanOf(jobs: seq<Job>, name: string): seq<R.Call> {
    match Named(jobs, name)
    case None => []
    case Some(j) => R.Plan(j.services)
  }

  predicate IsUp(jobs: seq<Job>, s: Whole, name: string) {
    name in s.setup && s.setup[name].Calling? && s.setup[name].k >= |PlanOf(jobs, name)|
  }

  /** Where the steps of a job stand. */
  function PlaceOf(jobs: seq<Job>, s: Whole, name: string): M.Place {
    match M.JobNamed(Stepped(jobs), name)
    case None => M.Ended(None)
    case Some(j) => if name in s.shared.places then M.Settle(j, s.shared.places[name]) else M.Ended(None)
  }

  /** What `runJob` returns for a job, once it does. */
  function Returned(jobs: seq<Job>, s: Whole, name: string): Option<Option<R.JobFailure>> {
    if name in s.setup && s.setup[name].Refused? then Some(Some(R.SetupFailed(s.setup[name].call)))
    else if IsUp(jobs, s, name) && PlaceOf(jobs, s, name).Ended? then Some(R.Wrap(PlaceOf(jobs, s, name).err))
    else None
  }

  /** The outcomes known so far, as the scheduler sees them. */
  function OracleOf(jobs: seq<Job>, text: ErrorText, s: Whole): Oracle {
    (name: string) =>
      match Returned(jobs, s, name)
      case Some(Some(f)) => Some(text(f))
      case _ => None
  }

  predicate InJobNow(s: Whole, name: string) {
    name in s.sys.pc && s.sys.pc[name].InJob?
  }

  predicate CanHappen(jobs: seq<Job>, s: Whole, e: Event) {
    match e
    case Moves(j) => Enabled(Nodes(jobs), s.sys, j) && (InJobNow(s, j) ==> Returned(jobs, s, j).Some?)
    case Calls(j, _) => InJobNow(s, j) && j in s.setup && s.setup[j].Calling? && s.setup[j].k < |PlanOf(jobs, j)|
    case Executes(turn) => InJobNow(s, turn.job) && IsUp(jobs, s, turn.job) && M.CanTake(Stepped(jobs), s.shared, turn)
  }

  function Next(ctrl: Option<Flags>, text: ErrorText, jobs: seq<Job>, s: Whole, e: Event): Whole
    requires CanHappen(jobs, s, e)
  {
    match e
    case Moves(j) => s.(sys := After(Nodes(jobs), OracleOf(jobs, text, s), s.sys, j))
    case Calls(j, ok) =>
      var k := s.setup[j].k;
      s.(setup := s.setup[j := if ok then Calling(k + 1) else Refused(PlanOf(jobs, j)[k])])
    case Executes(turn) => s.(shared := M.Take(ctrl, Stepped(jobs), s.shared, turn))
  }

  predicate Leads(ctrl: Option<Flags>, text: ErrorText, jobs: seq<Job>, s: Whole, events: seq<Event>, t: Whole)
    decreases |events|
  {
    if |events| == 0 then s == t
    else CanHappen(jobs, s, events[0]) && Leads(ctrl, text, jobs, Next(ctrl, text, jobs, s, events[0]), events[1..], t)
  }

  function Start(jobs: seq<Job>, input: string): Whole {
    Whole(Init(Nodes(jobs)), map j | j in Names(Nodes(jobs)) :: Calling(0), M.Start(Stepped(jobs), input))
  }

  // ------------------------------------------------------------- projections

  function Schedule(events: seq<Event>): seq<string> {
    if |events| == 0 then []
    else (if events[0].Moves? then [events[0].job] else []) + Schedule(events[1..])
  }

  function Turns(events: seq<Event>): seq<M.Turn> {
    if |events| == 0 then []
    else (if events[0].Executes? then [events[0].turn] else []) + Turns(events[1..])
  }

  function CallsMade(events: seq<Event>): nat {
    if |events| == 0 then 0 else (if events[0].Calls? then 1 else 0) + CallsMade(events[1..])
  }

  lemma {:induction false} EventsCounted(events: seq<Event>)
    ensures |events| == |Schedule(events)| + CallsMade(events) + |Turns(events)|
  {
    if |events| > 0 { EventsCounted(events[1..]); }
  }

  /** What a job has returned stays what it has returned. */
  lemma ReturnedStays(ctrl: Option<Flags>, text: ErrorText, jobs: seq<Job>, s: Whole, e: Event, name: string)
    requires CanHappen(jobs, s, e) && Returned(jobs, s, name).Some?
    ensures Returned(jobs, Next(ctrl, text, jobs, s, e), name) == Returned(jobs, s, name)
  {
    hide M.Settle, M.Move, Enabled, After, M.JobNamed;
  }

  lemma {:induction false} ReturnedForGood(ctrl: Option<Flags>, text: ErrorText, jobs: seq<Job>, s: Whole,
                                           events: seq<Event>,
                                           t: Whole, name: string)
    requires Leads(ctrl, text, jobs, s, events, t) && Returned(jobs, s, name).Some?
    ensures Returned(jobs, t, name) == Returned(jobs, s, name)
    decreases |events|
  {
    hide Returned, CanHappen, Next;
    if |events| > 0 {
      ReturnedStays(ctrl, text, jobs, s, events[0], name);
      ReturnedForGood(ctrl, text, jobs, Next(ctrl, text, jobs, s, events[0]), events[1..], t, name);
    }
  }

  lemma AfterAgrees(nodes: seq<Node>, o: Oracle, o': Oracle, s: Sys, j: string)
    requires Enabled(nodes, s, j) && (s.pc[j].InJob? ==> o(j) == o'(j))
    ensures After(nodes, o, s, j) == After(nodes, o', s, j)
  {
  }

  /** The scheduler's part of a whole run is a run of the scheduler for the outcomes that the
      jobs come to have. */
  lemma {:induction false} MovesAreRuns(ctrl: Option<Flags>, text: ErrorText, jobs: seq<Job>, s: Whole,
                                        events: seq<Event>, t: Whole)
    requires Leads(ctrl, text, jobs, s, events, t)
    ensures Runs(Nodes(jobs), OracleOf(jobs, text, t), s.sys, Schedule(events), t.sys)
    decreases |events|
  {
    hide Returned, After, Enabled, M.CanTake, IsUp;
    if |events| > 0 {
      var e, u := events[0], Next(ctrl, text, jobs, s, events[0]);
      MovesAreRuns(ctrl, text, jobs, u, events[1..], t);
      if e.Moves? {
        PcHasEnabled(Nodes(jobs), s.sys, e.job);
        if s.sys.pc[e.job].InJob? { ReturnedForGood(ctrl, text, jobs, s, events, t, e.job); }
        AfterAgrees(Nodes(jobs), OracleOf(jobs, text, s), OracleOf(jobs, text, t), s.sys, e.job);
        assert Schedule(events)[1..] == Schedule(events[1..]);
      } else {
        assert Schedule(events) == Schedule(events[1..]);
      }
    }
  }

  lemma PcHasEnabled(nodes: seq<Node>, s: Sys, j: string)
    requires Enabled(nodes, s, j)
    ensures j in s.pc
  {
  }

  /** Its executions are a play at the terminal. */
  lemma {:induction false} ExecutionsArePlays(ctrl: Option<Flags>, text: ErrorText, jobs: seq<Job>, s: Whole,
                                              events: seq<Event>, t: Whole)
    requires Leads(ctrl, text, jobs, s, events, t)
    ensures M.Plays(ctrl, Stepped(jobs), s.shared, Turns(events), t.shared)
    decreases |events|
  {
    hide Returned, After, Enabled, M.CanTake, M.Take, IsUp;
    if |events| > 0 {
      ExecutionsArePlays(ctrl, text, jobs, Next(ctrl, text, jobs, s, events[0]), events[1..], t);
      if events[0].Executes? {
        assert Turns(events)[1..] == Turns(events[1..]);
      } else {
        assert Turns(events) == Turns(events[1..]);
      }
    }
  }

  // ---------------------------------------------------------------- the calls

  function CallsLeft(plan: seq<R.Call>, p: Setup): nat {
    if p.Calling? && p.k <= |plan| then |plan| - p.k else 0
  }

  function AllCallsLeft(all: seq<Job>, jobs: seq<Job>, setup: map<string, Setup>): nat {
    if |jobs| == 0 then 0
    else
      (if jobs[0].name in setup then CallsLeft(PlanOf(all, jobs[0].name), setup[jobs[0].name]) else 0)
      + AllCallsLeft(all, jobs[1..], setup)
  }

  function AllCalls(jobs: seq<Job>): nat {
    if |jobs| == 0 then 0 else |R.Plan(jobs[0].services)| + AllCalls(jobs[1..])
  }

  lemma {:induction false} CallCosts(all: seq<Job>, jobs: seq<Job>, setup: map<string, Setup>, name: string, p: Setup)
    requires name in setup && CallsLeft(PlanOf(all, name), p) < CallsLeft(PlanOf(all, name), setup[name])
    ensures AllCallsLeft(all, jobs, setup[name := p]) <= AllCallsLeft(all, jobs, setup)
    ensures (exists j :: j in jobs && j.name == name) ==>
              AllCallsLeft(all, jobs, setup[name := p]) < AllCallsLeft(all, jobs, setup)
  {
    if |jobs| > 0 {
      CallCosts(all, jobs[1..], setup, name, p);
      if jobs[0].name != name {
        assert forall j :: j in jobs && j.name == name ==> j in jobs[1..];
      }
    }
  }

  lemma {:induction false} NamedIsJob(jobs: seq<Job>, name: string)
    ensures Named(jobs, name).Some? ==> Named(jobs, name).value in jobs && Named(jobs, name).value.name == name
  {
    if |jobs| > 0 && jobs[0].name != name { NamedIsJob(jobs[1..], name); }
  }

  lemma {:induction false} CallsAreBounded(ctrl: Option<Flags>, text: ErrorText, jobs: seq<Job>, s: Whole,
                                           events: seq<Event>, t: Whole)
    requires Leads(ctrl, text, jobs, s, events, t)
    ensures CallsMade(events) + AllCallsLeft(jobs, jobs, t.setup) <= AllCallsLeft(jobs, jobs, s.setup)
    decreases |events|
  {
    hide Returned, After, Enabled, M.CanTake, M.Take, IsUp, R.Plan;
    if |events| > 0 {
      var e, u := events[0], Next(ctrl, text, jobs, s, events[0]);
      CallsAreBounded(ctrl, text, jobs, u, events[1..], t);
      if e.Calls? {
        NamedIsJob(jobs, e.job);
        CallCosts(jobs, jobs, s.setup, e.job, u.setup[e.job]);
      }
    }
  }

  // -------------------------------------------------------------- the result

  lemma {:induction false} SetupStaysKnown(ctrl: Option<Flags>, text: ErrorText, jobs: seq<Job>, s: Whole,
                                           events: seq<Event>, t: Whole)
    requires Leads(ctrl, text, jobs, s, events, t)
    ensures t.setup.Keys == s.setup.Keys
    decreases |events|
  {
    hide Returned, After, Enabled, M.CanTake, M.Take, IsUp, R.Plan;
    if |events| > 0 {
      SetupStaysKnown(ctrl, text, jobs, Next(ctrl, text, jobs, s, events[0]), events[1..], t);
    }
  }

  /** A goroutine that could move lets something happen: its own move, or what its job does
      next. */
  lemma EnabledMakesHappen(jobs: seq<Job>, s: Whole, j: string)
    requires Enabled(Nodes(jobs), s.sys, j) && j in s.setup
    ensures exists e :: CanHappen(jobs, s, e)
  {
    hide M.Settle, R.Plan, M.JobNamed;
    PcHasEnabled(Nodes(jobs), s.sys, j);
    if !InJobNow(s, j) || Returned(jobs, s, j).Some? {
      assert CanHappen(jobs, s, Moves(j));
    } else if s.setup[j].k < |PlanOf(jobs, j)| {
      assert CanHappen(jobs, s, Calls(j, true));
    } else {
      SteppedIsNamed(jobs, j);
      assert CanHappen(jobs, s, Executes(M.Turn(j, Steps.StepResult(0, None), "")));
    }
  }

  lemma SteppedIsNamed(jobs: seq<Job>, name: string)
    ensures M.JobNamed(Stepped(jobs), name).Some? ==> M.JobNamed(Stepped(jobs), name).value.name == name
  {
    if M.JobNamed(Stepped(jobs), name).Some? { M.NamedIsJob(Stepped(jobs), name); }
  }

  lemma TailDistinct(nodes: seq<Node>)
    requires Distinct(nodes) && |nodes| > 0
    ensures Distinct(nodes[1..])
  {
  }

  lemma {:induction false} NamedIs(jobs: seq<Job>, j: Job)
    requires Distinct(Nodes(jobs)) && j in jobs
    ensures Named(jobs, j.name) == Some(j)
  {
    var i :| 0 <= i < |jobs| && jobs[i] == j;
    if i > 0 {
      assert Nodes(jobs)[0].name != Nodes(jobs)[i].name;
      assert Nodes(jobs)[1..] == Nodes(jobs[1..]);
      TailDistinct(Nodes(jobs));
      assert jobs[1..][i - 1] == j;
      NamedIs(jobs[1..], j);
    }
  }

  lemma {:induction false} AllCallsAtStart(all: seq<Job>, jobs: seq<Job>, setup: map<string, Setup>)
    requires forall j :: j in jobs ==> Named(all, j.name) == Some(j) && j.name in setup && setup[j.name] == Calling(0)
    ensures AllCallsLeft(all, jobs, setup) == AllCalls(jobs)
  {
    hide R.Plan;
    if |jobs| > 0 {
      assert jobs[0] in jobs;
      AllCallsAtStart(all, jobs[1..], setup);
    }
  }

  lemma StartIsComplete(jobs: seq<Job>, input: string)
    requires Distinct(Nodes(jobs))
    ensures AllCallsLeft(jobs, jobs, Start(jobs, input).setup) == AllCalls(jobs)
    ensures M.DistinctNames(Stepped(jobs))
  {
    hide R.Plan, Named;
    var setup := Start(jobs, input).setup;
    forall j | j in jobs ensures Named(jobs, j.name) == Some(j) && j.name in setup && setup[j.name] == Calling(0) {
      NamedIs(jobs, j);
      var i :| 0 <= i < |jobs| && jobs[i] == j;
      assert Nodes(jobs)[i] in Nodes(jobs) && Nodes(jobs)[i].name == j.name;
    }
    AllCallsAtStart(jobs, jobs, setup);
    forall i, k | 0 <= i < k < |jobs| ensures Stepped(jobs)[i].name != Stepped(jobs)[k].name {
      assert Nodes(jobs)[i].name != Nodes(jobs)[k].name;
    }
  }

  /** The most that can happen: the scheduler's steps, every job's calls and steps, and one
      execution more for every line of input. */
  function Bound(jobs: seq<Job>, input: string): nat {
    Measure(Nodes(jobs), Init(Nodes(jobs)), Nodes(jobs)) + AllCalls(jobs) + M.AllSteps(Stepped(jobs)) + Newlines(input)
  }

  /** A whole run of a valid graph ends, with or without a debugger: however scheduler, Docker
      calls and steps interleave, no more than that can happen, and until every goroutine has
      exited something can.  What the scheduler did is then a run of it for the outcomes the
      jobs came to have. */
  lemma WholeRunEnds(ctrl: Option<Flags>, text: ErrorText, jobs: seq<Job>, input: string, events: seq<Event>, t: Whole)
    requires Valid(Nodes(jobs)) && Leads(ctrl, text, jobs, Start(jobs, input), events, t)
    ensures |events| <= Bound(jobs, input)
    ensures Reachable(Nodes(jobs), OracleOf(jobs, text, t), t.sys)
    ensures AllExited(Nodes(jobs), t.sys) || exists e :: CanHappen(jobs, t, e)
  {
    hide Leads, Distinct, Closed, Acyclic, Enabled, CanHappen, OracleOf, Init, M.Start, M.Plays, Measure, AllExited;
    var s, nodes, o := Start(jobs, input), Nodes(jobs), OracleOf(jobs, text, t);
    MovesAreRuns(ctrl, text, jobs, s, events, t);
    InitInv(nodes, o);
    RunsAreBounded(nodes, o, s.sys, Schedule(events), t.sys);
    StartIsComplete(jobs, input);
    ExecutionsArePlays(ctrl, text, jobs, s, events, t);
    M.AllExecutionsAreBounded(ctrl, Stepped(jobs), input, Turns(events), t.shared);
    CallsAreBounded(ctrl, text, jobs, s, events, t);
    EventsCounted(events);
    if !AllExited(nodes, t.sys) {
      AcyclicMakesProgress(nodes, o, t.sys);
      var j :| Enabled(nodes, t.sys, j);
      SetupStaysKnown(ctrl, text, jobs, s, events, t);
      ReachableInv(nodes, o, t.sys);
      PcHasEnabled(nodes, t.sys, j);
      EnabledMakesHappen(jobs, t, j);
    }
  }

  // --------------------------------------------------- what each job returned

  /** Every call recorded so far is one of the job's plan. */
  ghost predicate SetupInPlan(jobs: seq<Job>, setup: map<string, Setup>) {
    forall name :: name in setup ==>
      match setup[name]
      case Calling(k) => k <= |PlanOf(jobs, name)|
      case Refused(c) => c in PlanOf(jobs, name)
  }

  lemma {:induction false} SetupStaysInPlan(ctrl: Option<Flags>, text: ErrorText, jobs: seq<Job>, s: Whole,
                                            events: seq<Event>, t: Whole)
    requires Leads(ctrl, text, jobs, s, events, t) && SetupInPlan(jobs, s.setup)
    ensures SetupInPlan(jobs, t.setup)
    decreases |events|
  {
    hide Returned, After, Enabled, M.CanTake, M.Take, IsUp, PlanOf;
    if |events| > 0 {
      SetupStaysInPlan(ctrl, text, jobs, Next(ctrl, text, jobs, s, events[0]), events[1..], t);
    }
  }

  /** A refused job returns its setup error, whatever its steps would do. */
  lemma RefusedIsSpecified(services: nat, c: R.Call, phases: R.PhasesResult) returns (api: R.Call -> bool)
    requires c in R.Plan(services)
    ensures R.JobSpec(api, services, phases).err == Some(R.SetupFailed(c))
  {
    hide R.Plan;
    api := (d: R.Call) => d != c;
    var k := FirstAt(R.Plan(services), c);
    R.RefusedCallIsTheError(api, services, phases, k);
  }

  lemma {:induction false} FirstAt(plan: seq<R.Call>, c: R.Call) returns (k: nat)
    requires c in plan
    ensures k < |plan| && plan[k] == c && forall i :: 0 <= i < k ==> plan[i] != c
  {
    if plan[0] == c {
      k := 0;
    } else {
      var h := FirstAt(plan[1..], c);
      k := h + 1;
    }
  }

  lemma UpIsSpecified(services: nat, phases: R.PhasesResult) returns (api: R.Call -> bool)
    ensures R.JobSpec(api, services, phases).err == R.Wrap(phases.err)
  {
    hide R.Plan;
    api := (d: R.Call) => true;
    R.StepsAreTheError(api, services, phases);
  }

  /** What a job has returned is what the specification of that job alone gives, for the calls
      that were accepted and in the world that hands it what it met. */
  ghost predicate IsSpecified(ctrl: Option<Flags>, j: Job, input: string, returned: Option<R.JobFailure>) {
    exists api: R.Call -> bool, w: Steps.World ::
      returned == R.JobSpec(api, j.services, R.Phases(ctrl, w, j.steps, 0, input)).err
  }

  lemma ReturnedIsSpecified(ctrl: Option<Flags>, text: ErrorText, jobs: seq<Job>, input: string, events: seq<Event>,
                            t: Whole, j: Job)
    requires Distinct(Nodes(jobs)) && Leads(ctrl, text, jobs, Start(jobs, input), events, t)
    requires j in jobs && Returned(jobs, t, j.name).Some?
    ensures IsSpecified(ctrl, j, input, Returned(jobs, t, j.name).value)
    ensures t.setup[j.name].Refused? ==> Returned(jobs, t, j.name).value == Some(R.SetupFailed(t.setup[j.name].call))
  {
    hide Leads, Distinct, R.Phases, R.JobSpec, R.Plan, M.Settle, M.JobNamed, Init, Named, M.Start, SetupInPlan;
    var s := Start(jobs, input);
    NamedIs(jobs, j);
    if t.setup[j.name].Refused? {
      StartInPlan(jobs, input);
      SetupStaysInPlan(ctrl, text, jobs, s, events, t);
      RefusedInPlan(jobs, t, j.name);
      var w := Steps.World((k: nat) => Steps.StepResult(0, None), (k: nat) => "", (k: nat) => "");
      var api := RefusedIsSpecified(j.services, t.setup[j.name].call, R.Phases(ctrl, w, j.steps, 0, input));
    } else {
      UpReturnsItsPhases(ctrl, text, jobs, input, events, t, j);
      var w: Steps.World :| Returned(jobs, t, j.name) == Some(R.Wrap(R.Phases(ctrl, w, j.steps, 0, input).err));
      var api := UpIsSpecified(j.services, R.Phases(ctrl, w, j.steps, 0, input));
    }
  }

  lemma StartInPlan(jobs: seq<Job>, input: string)
    ensures SetupInPlan(jobs, Start(jobs, input).setup)
  {
    hide PlanOf;
  }

  lemma RefusedInPlan(jobs: seq<Job>, t: Whole, name: string)
    requires SetupInPlan(jobs, t.setup) && name in t.setup && t.setup[name].Refused?
    ensures t.setup[name].call in PlanOf(jobs, name)
  {
    hide PlanOf;
  }

  lemma UpIsEnded(jobs: seq<Job>, t: Whole, m: M.Job)
    requires M.JobNamed(Stepped(jobs), m.name) == Some(m) && m.name in t.shared.places
    requires IsUp(jobs, t, m.name) && Returned(jobs, t, m.name).Some?
    ensures M.Settle(m, t.shared.places[m.name]).Ended?
    ensures Returned(jobs, t, m.name) == Some(R.Wrap(M.Settle(m, t.shared.places[m.name]).err))
  {
    hide M.Settle, M.JobNamed, R.Plan;
  }

  /** A job that came up returned what its phases give. */
  lemma UpReturnsItsPhases(ctrl: Option<Flags>, text: ErrorText, jobs: seq<Job>, input: string, events: seq<Event>,
                           t: Whole, j: Job)
    requires Distinct(Nodes(jobs)) && Leads(ctrl, text, jobs, Start(jobs, input), events, t)
    requires j in jobs && IsUp(jobs, t, j.name) && Returned(jobs, t, j.name).Some?
    ensures exists w: Steps.World :: Returned(jobs, t, j.name) == Some(R.Wrap(R.Phases(ctrl, w, j.steps, 0, input).err))
  {
    hide Leads, Distinct, R.Phases, R.Plan, M.Settle, M.Plays, M.Start, M.MetBy, M.WorldOf, M.JobNamed, M.DistinctNames,
         IsUp, Returned, PlaceOf, Init;
    var s := Start(jobs, input);
    StartIsComplete(jobs, input);
    ExecutionsArePlays(ctrl, text, jobs, s, events, t);
    var m := M.Job(j.name, j.steps);
    var i :| 0 <= i < |jobs| && jobs[i] == j;
    assert Stepped(jobs)[i] == m && m in Stepped(jobs);
    M.NamedIs(Stepped(jobs), m);
    M.PlacesStay(ctrl, Stepped(jobs), s.shared, Turns(events), t.shared);
    M.StartPlaces(Stepped(jobs), input);
    UpIsEnded(jobs, t, m);
    M.EachJobFollowsItsPhases(ctrl, Stepped(jobs), input, Turns(events), t.shared, m);
  }
}
