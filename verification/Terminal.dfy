/** All jobs of a run at one terminal: `ctrlMu` lets one `AfterStep` at a time read the input
    the debugger shares between them. */
module Terminal {
  import opened Strings
  import opened Debugger
  import opened Steps
  import R = RunJob

  datatype Job = Job(name: string, steps: seq<R.Step>)

  /** What a job does next: a step of its main phase, with that phase's first failure so far;
      a step of its after-script phase, with the main phase's error as well; or nothing, with
      the error it returned. */
  datatype Place =
    | InMain(i: nat, first: Option<StepError>)
    | InAfter(i: nat, mainErr: Option<StepError>, first: Option<StepError>)
    | Ended(err: Option<StepError>)

  datatype Shared = Shared(places: map<string, Place>, input: string)

  /** A job executes its next step, with a result, and gets its answer; `leaves` is what a
      shell session would leave unread. */
  datatype Turn = Turn(job: string, result: StepResult, leaves: string)

  datatype Moved = Moved(place: Place, input: string, visit: Visit)

  function Main(j: Job): seq<string> {
    R.NamesOf(j.steps, R.Main)
  }

  function AfterScript(j: Job): seq<string> {
    R.NamesOf(j.steps, R.AfterScript)
  }

  predicate InRange(j: Job, p: Place) {
    match p
    case InMain(i, _) => i <= |Main(j)|
    case InAfter(i, _, _) => i <= |AfterScript(j)|
    case Ended(_) => true
  }

  /** A finished main phase leads to the after-script phase, and a finished one of those to
      the end. */
  function Settle(j: Job, p: Place): Place {
    match p
    case InMain(i, first) =>
      if i < |Main(j)| then p else if |AfterScript(j)| > 0 then InAfter(0, first, None) else Ended(first)
    case InAfter(i, mainErr, first) =>
      if i < |AfterScript(j)| then p else Ended(if mainErr.Some? then mainErr else first)
    case Ended(_) => p
  }

  /** A step of the main phase, its answer, and where the job goes. */
  function InMainTurn(ctrl: Option<Flags>, j: Job, p: Place, r: StepResult, input: string, leaves: string): Moved
    requires p.InMain? && p.i < |Main(j)|
  {
    var failure := FailureOf(Main(j)[p.i], r);
    match ctrl
    case None =>
      var first := if IsFailure(r) && p.first == None then Some(failure) else p.first;
      Moved(if IsFailure(r) then InAfter(0, first, None) else InMain(p.i + 1, first), input, Visit(p.i, r, false, None))
    case Some(flags) =>
      var a := Decide(flags, IsFailure(r), input, leaves);
      Moved(match a.reply
            case Abort => Ended(Some(if IsFailure(r) then failure else ErrAborted))
            case Retry => p
            case Continue => InMain(p.i + 1, p.first),
            a.rest, Visit(p.i, r, a.shell, Some(a.reply)))
  }

  function InAfterTurn(ctrl: Option<Flags>, j: Job, p: Place, r: StepResult, input: string, leaves: string): Moved
    requires p.InAfter? && p.i < |AfterScript(j)|
  {
    var failure := FailureOf(AfterScript(j)[p.i], r);
    match ctrl
    case None =>
      var first := if IsFailure(r) && p.first == None then Some(failure) else p.first;
      Moved(InAfter(p.i + 1, p.mainErr, first), input, Visit(p.i, r, false, None))
    case Some(flags) =>
      var a := Decide(flags, IsFailure(r), input, leaves);
      Moved(match a.reply
            case Abort => Ended(Some(if IsFailure(r) then failure else ErrAborted))
            case Retry => p
            case Continue => InAfter(p.i + 1, p.mainErr, p.first),
            a.rest, Visit(p.i, r, a.shell, Some(a.reply)))
  }

  /** One execution by a job that is not at its end. */
  function Move(ctrl: Option<Flags>, j: Job, p: Place, r: StepResult, input: string, leaves: string): (m: Moved)
    requires !Settle(j, p).Ended?
  {
    var q := Settle(j, p);
    if q.InMain? then InMainTurn(ctrl, j, q, r, input, leaves) else InAfterTurn(ctrl, j, q, r, input, leaves)
  }

  ghost predicate DistinctNames(jobs: seq<Job>) {
    forall i, k :: 0 <= i < k < |jobs| ==> jobs[i].name != jobs[k].name
  }

  function JobNamed(jobs: seq<Job>, name: string): Option<Job> {
    if |jobs| == 0 then None else if jobs[0].name == name then Some(jobs[0]) else JobNamed(jobs[1..], name)
  }

  predicate CanTake(jobs: seq<Job>, s: Shared, turn: Turn) {
    var j := JobNamed(jobs, turn.job);
    j.Some? && turn.job in s.places && !Settle(j.value, s.places[turn.job]).Ended?
  }

  function MoveOf(ctrl: Option<Flags>, jobs: seq<Job>, s: Shared, turn: Turn): Moved
    requires CanTake(jobs, s, turn)
  {
    Move(ctrl, JobNamed(jobs, turn.job).value, s.places[turn.job], turn.result, s.input, turn.leaves)
  }

  function Take(ctrl: Option<Flags>, jobs: seq<Job>, s: Shared, turn: Turn): Shared
    requires CanTake(jobs, s, turn)
  {
    var m := MoveOf(ctrl, jobs, s, turn);
    Shared(s.places[turn.job := m.place], m.input)
  }

  /** The jobs take turns in any order -- in particular in every order `Run` allows. */
  predicate Plays(ctrl: Option<Flags>, jobs: seq<Job>, s: Shared, turns: seq<Turn>, t: Shared)
    decreases |turns|
  {
    if |turns| == 0 then s == t
    else CanTake(jobs, s, turns[0]) && Plays(ctrl, jobs, Take(ctrl, jobs, s, turns[0]), turns[1..], t)
  }

  function Start(jobs: seq<Job>, input: string): Shared {
    Shared(map k | 0 <= k < |jobs| :: jobs[k].name := InMain(0, None), input)
  }

  lemma {:induction false} NamedIs(jobs: seq<Job>, j: Job)
    requires DistinctNames(jobs) && j in jobs
    ensures JobNamed(jobs, j.name) == Some(j)
  {
    if jobs[0] != j {
      var i :| 0 <= i < |jobs| && jobs[i] == j;
      assert jobs[0].name != jobs[i].name && jobs[1..][i - 1] == j;
      NamedIs(jobs[1..], j);
    }
  }

  lemma {:induction false} NamedIsJob(jobs: seq<Job>, name: string)
    requires JobNamed(jobs, name).Some?
    ensures JobNamed(jobs, name).value in jobs && JobNamed(jobs, name).value.name == name
  {
    if jobs[0].name != name { NamedIsJob(jobs[1..], name); }
  }

  // ------------------------------------------------------------------ the bound

  /** Steps a job has not yet passed. */
  function Ahead(j: Job, p: Place): nat {
    match p
    case InMain(i, _) => (if i <= |Main(j)| then |Main(j)| - i else 0) + |AfterScript(j)|
    case InAfter(i, _, _) => if i <= |AfterScript(j)| then |AfterScript(j)| - i else 0
    case Ended(_) => 0
  }

  function AllAhead(jobs: seq<Job>, places: map<string, Place>): nat {
    if |jobs| == 0 then 0
    else (if jobs[0].name in places then Ahead(jobs[0], places[jobs[0].name]) else 0) + AllAhead(jobs[1..], places)
  }

  function AllSteps(jobs: seq<Job>): nat {
    if |jobs| == 0 then 0 else |jobs[0].steps| + AllSteps(jobs[1..])
  }

  lemma MoveCosts(ctrl: Option<Flags>, j: Job, p: Place, r: StepResult, input: string, leaves: string)
    requires !Settle(j, p).Ended?
    ensures var m := Move(ctrl, j, p, r, input, leaves);
            Ahead(j, m.place) + Newlines(m.input) < Ahead(j, p) + Newlines(input)
            && Newlines(m.input) <= Newlines(input)
  {
    hide Decide, FailureOf;
  }

  lemma {:induction false} OthersStayPut(jobs: seq<Job>, places: map<string, Place>, name: string, p: Place)
    requires forall j :: j in jobs ==> j.name != name
    ensures AllAhead(jobs, places[name := p]) == AllAhead(jobs, places)
  {
    if |jobs| > 0 {
      assert jobs[0] in jobs;
      OthersStayPut(jobs[1..], places, name, p);
    }
  }

  lemma {:induction false} OneMoves(jobs: seq<Job>, places: map<string, Place>, j: Job, p: Place)
    requires DistinctNames(jobs) && j in jobs && j.name in places
    ensures AllAhead(jobs, places[j.name := p]) + Ahead(j, places[j.name]) == AllAhead(jobs, places) + Ahead(j, p)
  {
    hide Ahead;
    if jobs[0] == j {
      forall k | k in jobs[1..] ensures k.name != j.name {
        var i :| 0 <= i < |jobs[1..]| && jobs[1..][i] == k;
        assert jobs[0].name != jobs[i + 1].name;
      }
      OthersStayPut(jobs[1..], places, j.name, p);
    } else {
      var i :| 0 <= i < |jobs| && jobs[i] == j;
      assert jobs[0].name != jobs[i].name && jobs[1..][i - 1] == j;
      OneMoves(jobs[1..], places, j, p);
    }
  }

  lemma {:induction false} TurnsAreBounded(ctrl: Option<Flags>, jobs: seq<Job>, s: Shared, turns: seq<Turn>, t: Shared)
    requires DistinctNames(jobs) && Plays(ctrl, jobs, s, turns, t)
    ensures |turns| + AllAhead(jobs, t.places) + Newlines(t.input) <= AllAhead(jobs, s.places) + Newlines(s.input)
    decreases |turns|
  {
    hide DistinctNames, Move, Settle, Ahead;
    if |turns| > 0 {
      var turn, u := turns[0], Take(ctrl, jobs, s, turns[0]);
      NamedIsJob(jobs, turn.job);
      var j := JobNamed(jobs, turn.job).value;
      MoveCosts(ctrl, j, s.places[turn.job], turn.result, s.input, turn.leaves);
      OneMoves(jobs, s.places, j, u.places[turn.job]);
      TurnsAreBounded(ctrl, jobs, u, turns[1..], t);
    }
  }

  lemma {:induction false} StartIsAllSteps(jobs: seq<Job>, places: map<string, Place>)
    requires forall j :: j in jobs ==> j.name in places && places[j.name] == InMain(0, None)
    ensures AllAhead(jobs, places) == AllSteps(jobs)
  {
    if |jobs| > 0 {
      assert jobs[0] in jobs;
      R.PhaseSizes(jobs[0].steps);
      StartIsAllSteps(jobs[1..], places);
    }
  }

  lemma StartPlaces(jobs: seq<Job>, input: string)
    ensures forall j :: j in jobs ==>
            j.name in Start(jobs, input).places && Start(jobs, input).places[j.name] == InMain(0, None)
  {
    var places := Start(jobs, input).places;
    forall j | j in jobs ensures j.name in places && places[j.name] == InMain(0, None) {
      var k :| 0 <= k < |jobs| && jobs[k] == j;
      assert jobs[k].name in places;
    }
  }

  /** Retry is bounded for a whole run: however its jobs interleave at the terminal, they
      execute together at most one step per step of the pipeline and line of input. */
  lemma AllExecutionsAreBounded(ctrl: Option<Flags>, jobs: seq<Job>, input: string, turns: seq<Turn>, t: Shared)
    requires DistinctNames(jobs) && Plays(ctrl, jobs, Start(jobs, input), turns, t)
    ensures |turns| + Newlines(t.input) <= AllSteps(jobs) + Newlines(input)
  {
    hide DistinctNames, Plays;
    StartPlaces(jobs, input);
    StartIsAllSteps(jobs, Start(jobs, input).places);
    TurnsAreBounded(ctrl, jobs, Start(jobs, input), turns, t);
  }

  // ------------------------------------ every job still runs as if it were alone

  /** What one job meets, turn by turn. */
  datatype Met = Met(result: StepResult, before: string, leaves: string)

  /** The turns a job takes, and its visits. */
  function MetBy(ctrl: Option<Flags>, jobs: seq<Job>, s: Shared, turns: seq<Turn>, t: Shared, name: string): seq<Met>
    requires Plays(ctrl, jobs, s, turns, t)
    decreases |turns|
  {
    if |turns| == 0 then []
    else
      (if turns[0].job == name then [Met(turns[0].result, s.input, turns[0].leaves)] else [])
      + MetBy(ctrl, jobs, Take(ctrl, jobs, s, turns[0]), turns[1..], t, name)
  }

  function VisitsOf(ctrl: Option<Flags>, jobs: seq<Job>, s: Shared, turns: seq<Turn>, t: Shared,
                    name: string): seq<Visit>
    requires Plays(ctrl, jobs, s, turns, t)
    decreases |turns|
  {
    if |turns| == 0 then []
    else
      (if turns[0].job == name then [MoveOf(ctrl, jobs, s, turns[0]).visit] else [])
      + VisitsOf(ctrl, jobs, Take(ctrl, jobs, s, turns[0]), turns[1..], t, name)
  }

  /** The world of a job alone that hands it what it met. */
  function WorldOf(met: seq<Met>): World {
    World((k: nat) => if k < |met| then met[k].result else StepResult(0, None),
          (k: nat) => if k < |met| then met[k].before else "",
          (k: nat) => if k < |met| then met[k].leaves else "")
  }

  ghost predicate Hands(w: World, n: nat, met: seq<Met>) {
    forall k: nat :: k < |met| ==> HandsOne(w, n + k, met[k])
  }

  ghost predicate HandsOne(w: World, n: nat, m: Met) {
    w.exec(n) == m.result && w.others(n) == m.before && w.shell(n) == m.leaves
  }

  datatype Rest = Rest(err: Option<StepError>, visits: seq<Visit>)

  /** What the specification of a single job says is still to come at a place. */
  function RestFrom(ctrl: Option<Flags>, w: World, j: Job, p: Place, n: nat, own: string): Rest
    requires InRange(j, p)
  {
    match p
    case InMain(i, first) =>
      var main := RunFrom(ctrl, w, Main(j), true, i, first, n, own);
      if main.aborted then Rest(main.err, main.visits)
      else
        var after := RunFrom(ctrl, w, AfterScript(j), false, 0, None, n + |main.visits|, main.input);
        Rest(R.FinalError(main, after), main.visits + after.visits)
    case InAfter(i, mainErr, first) =>
      var after := RunFrom(ctrl, w, AfterScript(j), false, i, first, n, own);
      Rest(if after.aborted || mainErr == None then after.err else mainErr, after.visits)
    case Ended(err) => Rest(err, [])
  }

  lemma SettledRest(ctrl: Option<Flags>, w: World, j: Job, p: Place, n: nat, own: string)
    requires InRange(j, p)
    ensures InRange(j, Settle(j, p)) && RestFrom(ctrl, w, j, Settle(j, p), n, own) == RestFrom(ctrl, w, j, p, n, own)
  {
    hide RunFrom, R.NamesOf;
    match p
    case InMain(i, first) =>
      if i == |Main(j)| {
        PhaseOver(ctrl, w, Main(j), true, first, n, own);
        PhaseOver(ctrl, w, AfterScript(j), false, None, n, own);
      }
    case InAfter(i, mainErr, first) =>
      if i == |AfterScript(j)| { PhaseOver(ctrl, w, AfterScript(j), false, first, n, own); }
    case Ended(_) =>
  }

  lemma PhaseOver(ctrl: Option<Flags>, w: World, steps: seq<string>, stop: bool, first: Option<StepError>, n: nat,
                  own: string)
    ensures RunFrom(ctrl, w, steps, stop, |steps|, first, n, own) == Outcome(first, false, [], own)
  {
  }

  function Prepend(v: Visit, r: Rest): Rest {
    r.(visits := [v] + r.visits)
  }

  /** A turn in the main phase is the next step of the job's own specification. */
  lemma MainTurn(ctrl: Option<Flags>, w: World, j: Job, p: Place, n: nat, own: string, input: string)
    requires p.InMain? && p.i < |Main(j)|
    requires if ctrl.Some? then Leaves(own, w.others(n)) == input else own == input
    ensures var m := InMainTurn(ctrl, j, p, w.exec(n), input, w.shell(n));
            InRange(j, m.place)
            && RestFrom(ctrl, w, j, p, n, own) == Prepend(m.visit, RestFrom(ctrl, w, j, m.place, n + 1, m.input))
  {
    hide Decide, FailureOf, Leaves, R.NamesOf;
  }

  lemma AfterTurn(ctrl: Option<Flags>, w: World, j: Job, p: Place, n: nat, own: string, input: string)
    requires p.InAfter? && p.i < |AfterScript(j)|
    requires if ctrl.Some? then Leaves(own, w.others(n)) == input else own == input
    ensures var m := InAfterTurn(ctrl, j, p, w.exec(n), input, w.shell(n));
            InRange(j, m.place)
            && RestFrom(ctrl, w, j, p, n, own) == Prepend(m.visit, RestFrom(ctrl, w, j, m.place, n + 1, m.input))
  {
    hide Decide, FailureOf, Leaves;
  }

  /** Other jobs have at most read on since the job's last visit. */
  ghost predicate ReadOn(ctrl: Option<Flags>, own: string, input: string) {
    if ctrl.Some? then Newlines(input) <= Newlines(own) else own == input
  }

  lemma MoveFollows(ctrl: Option<Flags>, w: World, j: Job, p: Place, n: nat, own: string, input: string)
    requires InRange(j, p) && !Settle(j, p).Ended? && ReadOn(ctrl, own, input)
    requires ctrl.Some? ==> w.others(n) == input
    ensures var m := Move(ctrl, j, p, w.exec(n), input, w.shell(n));
            InRange(j, m.place)
            && RestFrom(ctrl, w, j, p, n, own) == Prepend(m.visit, RestFrom(ctrl, w, j, m.place, n + 1, m.input))
  {
    hide InMainTurn, InAfterTurn, RestFrom, Settle;
    SettledRest(ctrl, w, j, p, n, own);
    var q := Settle(j, p);
    SettledIsReady(j, p);
    if q.InMain? { MainTurn(ctrl, w, j, q, n, own, input); } else { AfterTurn(ctrl, w, j, q, n, own, input); }
  }

  lemma SettledIsReady(j: Job, p: Place)
    ensures var q := Settle(j, p);
            (q.InMain? ==> q.i < |Main(j)|) && (q.InAfter? ==> q.i < |AfterScript(j)|)
  {
  }

  /** What is expected of a job is what it visits in the shared run and then what is expected
      of it at the end. */
  ghost predicate Continues(ctrl: Option<Flags>, w: World, j: Job, p: Place, n: nat, own: string, visits: seq<Visit>,
                            t: Shared)
    requires InRange(j, p)
  {
    j.name in t.places && InRange(j, t.places[j.name])
    && exists own' :: ReadOn(ctrl, own', t.input)
         && RestFrom(ctrl, w, j, p, n, own)
            == Resumed(visits, RestFrom(ctrl, w, j, t.places[j.name], n + |visits|, own'))
  }

  function Resumed(visits: seq<Visit>, r: Rest): Rest {
    r.(visits := visits + r.visits)
  }

  lemma ContinuesNext(ctrl: Option<Flags>, w: World, j: Job, p: Place, n: nat, own: string, m: Moved,
                      visits: seq<Visit>, t: Shared)
    requires InRange(j, p) && InRange(j, m.place)
    requires RestFrom(ctrl, w, j, p, n, own) == Prepend(m.visit, RestFrom(ctrl, w, j, m.place, n + 1, m.input))
    requires Continues(ctrl, w, j, m.place, n + 1, m.input, visits, t)
    ensures Continues(ctrl, w, j, p, n, own, [m.visit] + visits, t)
  {
    hide RestFrom;
    var own' :| ReadOn(ctrl, own', t.input)
                && RestFrom(ctrl, w, j, m.place, n + 1, m.input)
                   == Resumed(visits, RestFrom(ctrl, w, j, t.places[j.name], n + 1 + |visits|, own'));
    var r := RestFrom(ctrl, w, j, t.places[j.name], n + 1 + |visits|, own');
    assert n + |[m.visit] + visits| == n + 1 + |visits|;
    assert [m.visit] + (visits + r.visits) == [m.visit] + visits + r.visits;
  }

  lemma HandsNext(w: World, n: nat, m: Met, met: seq<Met>)
    requires Hands(w, n, [m] + met)
    ensures HandsOne(w, n, m) && Hands(w, n + 1, met)
  {
    assert ([m] + met)[0] == m;
    forall k: nat | k < |met| ensures HandsOne(w, n + 1 + k, met[k]) {
      assert ([m] + met)[k + 1] == met[k] && HandsOne(w, n + (k + 1), ([m] + met)[k + 1]);
    }
  }

  lemma {:induction false} JobFollows(ctrl: Option<Flags>, jobs: seq<Job>, s: Shared, turns: seq<Turn>, t: Shared,
                                      j: Job, w: World,
                                      n: nat, own: string)
    requires Plays(ctrl, jobs, s, turns, t) && JobNamed(jobs, j.name) == Some(j)
    requires j.name in s.places && InRange(j, s.places[j.name]) && ReadOn(ctrl, own, s.input)
    requires Hands(w, n, MetBy(ctrl, jobs, s, turns, t, j.name))
    ensures Continues(ctrl, w, j, s.places[j.name], n, own, VisitsOf(ctrl, jobs, s, turns, t, j.name), t)
    decreases |turns|
  {
    hide InRange, RestFrom, Hands, HandsOne, Move, JobNamed, Settle, Continues, ReadOn;
    if |turns| == 0 {
      NothingMore(ctrl, w, j, n, own, t);
    } else {
      var turn, u := turns[0], Take(ctrl, jobs, s, turns[0]);
      var met := MetBy(ctrl, jobs, u, turns[1..], t, j.name);
      if turn.job == j.name {
        var m := MoveOf(ctrl, jobs, s, turn);
        HandsNext(w, n, Met(turn.result, s.input, turn.leaves), met);
        MyTurn(ctrl, w, j, s.places[j.name], n, own, s.input, turn);
        JobFollows(ctrl, jobs, u, turns[1..], t, j, w, n + 1, m.input);
        ContinuesNext(ctrl, w, j, s.places[j.name], n, own, m, VisitsOf(ctrl, jobs, u, turns[1..], t, j.name), t);
      } else {
        OthersTurn(ctrl, jobs, s, turn, own);
        assert [] + met == met;
        JobFollows(ctrl, jobs, u, turns[1..], t, j, w, n, own);
        assert [] + VisitsOf(ctrl, jobs, u, turns[1..], t, j.name) == VisitsOf(ctrl, jobs, u, turns[1..], t, j.name);
      }
    }
  }

  lemma NothingMore(ctrl: Option<Flags>, w: World, j: Job, n: nat, own: string, t: Shared)
    requires j.name in t.places && InRange(j, t.places[j.name]) && ReadOn(ctrl, own, t.input)
    ensures Continues(ctrl, w, j, t.places[j.name], n, own, [], t)
  {
    hide RestFrom, InRange;
    var r := RestFrom(ctrl, w, j, t.places[j.name], n, own);
    assert Resumed([], r) == r;
  }

  lemma MyTurn(ctrl: Option<Flags>, w: World, j: Job, p: Place, n: nat, own: string, input: string, turn: Turn)
    requires InRange(j, p) && !Settle(j, p).Ended? && ReadOn(ctrl, own, input)
    requires HandsOne(w, n, Met(turn.result, input, turn.leaves))
    ensures var m := Move(ctrl, j, p, turn.result, input, turn.leaves);
            InRange(j, m.place) && ReadOn(ctrl, m.input, m.input)
            && RestFrom(ctrl, w, j, p, n, own) == Prepend(m.visit, RestFrom(ctrl, w, j, m.place, n + 1, m.input))
  {
    hide InRange, RestFrom, Move, Settle;
    MoveFollows(ctrl, w, j, p, n, own, input);
  }

  lemma OthersTurn(ctrl: Option<Flags>, jobs: seq<Job>, s: Shared, turn: Turn, own: string)
    requires CanTake(jobs, s, turn) && ReadOn(ctrl, own, s.input)
    ensures ReadOn(ctrl, own, Take(ctrl, jobs, s, turn).input)
  {
    hide Decide, FailureOf, Settle;
    SettledIsReady(JobNamed(jobs, turn.job).value, s.places[turn.job]);
  }

  lemma {:induction false} PlacesStay(ctrl: Option<Flags>, jobs: seq<Job>, s: Shared, turns: seq<Turn>, t: Shared)
    requires Plays(ctrl, jobs, s, turns, t)
    ensures t.places.Keys == s.places.Keys
    decreases |turns|
  {
    hide Move, Settle, JobNamed;
    if |turns| > 0 { PlacesStay(ctrl, jobs, Take(ctrl, jobs, s, turns[0]), turns[1..], t); }
  }

  /** In a shared run, however its turns interleave, a job that has come to its end has made
      the visits and returned the error that the specification of that job alone gives, in the
      world that hands it what it met at the terminal. */
  lemma EachJobFollowsItsPhases(ctrl: Option<Flags>, jobs: seq<Job>, input: string, turns: seq<Turn>, t: Shared, j: Job)
    requires DistinctNames(jobs) && j in jobs && Plays(ctrl, jobs, Start(jobs, input), turns, t)
    requires j.name in t.places && Settle(j, t.places[j.name]).Ended?
    ensures var s := Start(jobs, input);
            var p := R.Phases(ctrl, WorldOf(MetBy(ctrl, jobs, s, turns, t, j.name)), j.steps, 0, input);
            p.visits == VisitsOf(ctrl, jobs, s, turns, t, j.name) && p.err == Settle(j, t.places[j.name]).err
  {
    hide Plays, Settle, MetBy, VisitsOf, WorldOf, RunFrom, R.NamesOf, JobNamed, DistinctNames;
    var s := Start(jobs, input);
    var met := MetBy(ctrl, jobs, s, turns, t, j.name);
    StartPlaces(jobs, input);
    NamedIs(jobs, j);
    WorldHands(met);
    JobFollows(ctrl, jobs, s, turns, t, j, WorldOf(met), 0, input);
    EndedRest(ctrl, WorldOf(met), j, input, VisitsOf(ctrl, jobs, s, turns, t, j.name), t);
  }

  lemma WorldHands(met: seq<Met>)
    ensures Hands(WorldOf(met), 0, met)
  {
  }

  lemma EndedRest(ctrl: Option<Flags>, w: World, j: Job, input: string, visits: seq<Visit>, t: Shared)
    requires Continues(ctrl, w, j, InMain(0, None), 0, input, visits, t) && Settle(j, t.places[j.name]).Ended?
    ensures var p := R.Phases(ctrl, w, j.steps, 0, input);
            p.visits == visits && p.err == Settle(j, t.places[j.name]).err
  {
    hide RunFrom, R.NamesOf, Settle;
    var q := t.places[j.name];
    var own' :| ReadOn(ctrl, own', t.input)
                && RestFrom(ctrl, w, j, InMain(0, None), 0, input)
                == Resumed(visits, RestFrom(ctrl, w, j, q, 0 + |visits|, own'));
    SettledRest(ctrl, w, j, q, 0 + |visits|, own');
    assert visits + [] == visits;
  }
}
