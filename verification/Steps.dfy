/** `Docker.runSteps`: runs one phase's steps in order, stopping, retrying or going on as
    the failure mode and the debugger say. */
module Steps {
  import opened Strings
  import opened Debugger

  datatype StepResult = StepResult(exitCode: int, err: Option<string>)

  datatype StepError = ExecFailed(text: string) | ExitCode(step: string, code: int) | ErrAborted

  /** The outside world, indexed by how many step executions came before: what the
      execution yields, what other jobs' prompts have left of the input meanwhile, and what
      a shell session would leave of it. */
  datatype World = World(exec: nat -> StepResult, others: nat -> string, shell: nat -> string)

  /** One execution of a step and the controller's answer to it, if there is one. */
  datatype Visit = Visit(step: nat, result: StepResult, shell: bool, reply: Option<Decision>)

  /** `err` is the returned error, `input` what is left unread. */
  datatype Outcome = Outcome(err: Option<StepError>, aborted: bool, visits: seq<Visit>, input: string)

  predicate IsFailure(r: StepResult) {
    r.err.Some? || r.exitCode != 0
  }

  function FailureOf(step: string, r: StepResult): StepError {
    match r.err
    case Some(e) => ExecFailed(e)
    case None => ExitCode(step, r.exitCode)
  }

  /** `i` is the next step, `first` the first failure so far, `n` the number of executions. */
  function RunFrom(ctrl: Option<Flags>, w: World, steps: seq<string>, stopOnFailure: bool,
                   i: nat, first: Option<StepError>, n: nat, input: string): Outcome
    requires i <= |steps|
    decreases |steps| - i, Newlines(input)
  {
    if i == |steps| then Outcome(first, false, [], input)
    else
      var r := w.exec(n);
      match ctrl
      case None =>
        var first' := if IsFailure(r) && first == None then Some(FailureOf(steps[i], r)) else first;
        var v := Visit(i, r, false, None);
        if IsFailure(r) && stopOnFailure then Outcome(first', false, [v], input)
        else Then(v, RunFrom(ctrl, w, steps, stopOnFailure, i + 1, first', n + 1, input))
      case Some(flags) =>
        var a := Decide(flags, IsFailure(r), Leaves(input, w.others(n)), w.shell(n));
        var v := Visit(i, r, a.shell, Some(a.reply));
        match a.reply
        case Abort => Outcome(Some(if IsFailure(r) then FailureOf(steps[i], r) else ErrAborted), true, [v], a.rest)
        case Retry => Then(v, RunFrom(ctrl, w, steps, stopOnFailure, i, first, n + 1, a.rest))
        case Continue => Then(v, RunFrom(ctrl, w, steps, stopOnFailure, i + 1, first, n + 1, a.rest))
  }

  function Then(v: Visit, o: Outcome): Outcome {
    o.(visits := [v] + o.visits)
  }

  function After(vs: seq<Visit>, o: Outcome): Outcome {
    o.(visits := vs + o.visits)
  }

  lemma AfterThen(vs: seq<Visit>, v: Visit, o: Outcome)
    ensures After(vs, Then(v, o)) == After(vs + [v], o)
  {
    assert vs + ([v] + o.visits) == vs + [v] + o.visits;
  }

  /** The executor of one job: its debugger, and every visit so far. */
  class Runner {
    const w: World
    const ctrl: Interactive?
    var visits: seq<Visit>

    constructor (w: World, ctrl: Interactive?)
      ensures this.w == w && this.ctrl == ctrl && visits == []
    {
      this.w, this.ctrl, visits := w, ctrl, [];
    }

    function Flags(): Option<Flags> {
      if ctrl == null then None else Some(ctrl.flags)
    }

    ghost function Unread(): string
      reads this, ctrl
    {
      if ctrl == null then "" else ctrl.input
    }

    ghost function Expected(steps: seq<string>, stopOnFailure: bool, i: nat, first: Option<StepError>): Outcome
      requires i <= |steps|
      reads this, ctrl
    {
      RunFrom(Flags(), w, steps, stopOnFailure, i, first, |visits|, Unread())
    }

    /** Executes step `i` once and, if there is a controller, asks it what next. */
    method Execute(i: nat) returns (r: StepResult, reply: Option<Decision>)
      modifies this, ctrl
      ensures r == w.exec(|old(visits)|)
      ensures ctrl == null ==> reply == None && visits == old(visits) + [Visit(i, r, false, None)]
      ensures ctrl != null ==>
                var n := |old(visits)|;
                var a := Decide(ctrl.flags, IsFailure(r), Leaves(old(Unread()), w.others(n)), w.shell(n));
                reply == Some(a.reply) && ctrl.input == a.rest && visits == old(visits) + [Visit(i, r, a.shell, reply)]
    {
      r := w.exec(|visits|);
      if ctrl == null {
        visits := visits + [Visit(i, r, false, None)];
        return r, None;
      }
      ctrl.ReadElsewhere(w.others(|visits|));
      var d, shell := ctrl.AfterStep(IsFailure(r), w.shell(|visits|));
      visits := visits + [Visit(i, r, shell, Some(d))];
      return r, Some(d);
    }

    /** What the phase comes to when step `i` is next: the visits already made, and
        everything still expected. */
    ghost function Total(steps: seq<string>, stopOnFailure: bool, i: nat, first: Option<StepError>): Outcome
      requires i <= |steps|
      reads this, ctrl
    {
      After(visits, Expected(steps, stopOnFailure, i, first))
    }

    /** The inner loop: step `i`, again for as long as the controller answers retry.
        `stopped` means the phase ends here with `err` and `aborted`. */
    method RunStep(steps: seq<string>, stopOnFailure: bool, i: nat, first: Option<StepError>)
      returns (stopped: bool, err: Option<StepError>, aborted: bool)
      requires i < |steps|
      modifies this, ctrl
      ensures stopped ==> Outcome(err, aborted, visits, Unread()) == old(Total(steps, stopOnFailure, i, first))
      ensures !stopped ==> Total(steps, stopOnFailure, i + 1, err) == old(Total(steps, stopOnFailure, i, first))
    {
      hide Decide, Leaves, FailureOf;
      ghost var goal := Total(steps, stopOnFailure, i, first);
      while true
        invariant Total(steps, stopOnFailure, i, first) == goal
        decreases Newlines(Unread())
      {
        ghost var before := visits;
        var r, reply := Execute(i);
        ghost var v := visits[|before|];
        if reply == Some(Abort) {
          return true, Some(if IsFailure(r) then FailureOf(steps[i], r) else ErrAborted), true;
        }
        if reply == Some(Retry) {
          AfterThen(before, v, Expected(steps, stopOnFailure, i, first));
          continue;
        }
        err := first;
        if reply == None && IsFailure(r) {
          if first == None { err := Some(FailureOf(steps[i], r)); }
          if stopOnFailure { return true, err, false; }
        }
        AfterThen(before, v, Expected(steps, stopOnFailure, i + 1, err));
        return false, err, false;
      }
    }

    method RunSteps(steps: seq<string>, stopOnFailure: bool) returns (err: Option<StepError>, aborted: bool)
      modifies this, ctrl
      ensures Outcome(err, aborted, visits, Unread()) == old(Total(steps, stopOnFailure, 0, None))
    {
      var firstErr: Option<StepError> := None;
      for i := 0 to |steps|
        invariant Total(steps, stopOnFailure, i, firstErr) == old(Total(steps, stopOnFailure, 0, None))
      {
        var stopped, e, abort := RunStep(steps, stopOnFailure, i, firstErr);
        if stopped { return e, abort; }
        firstErr := e;
      }
      return firstErr, false;
    }
  }

  // ------------------------------------------------------------------ theorems

  /** Executions `n`, `n+1`, ... one for each of the steps `i`, `i+1`, ... */
  ghost predicate OneEach(w: World, visits: seq<Visit>, i: nat, n: nat) {
    forall k :: 0 <= k < |visits| ==> visits[k] == Visit(i + k, w.exec(n + k), false, None)
  }

  /** The phase executed each step once, up to and including the first failing one, whose
      failure it returns. */
  ghost predicate StoppedAtFirst(w: World, steps: seq<string>, i: nat, n: nat, o: Outcome)
    requires i <= |steps|
  {
    !o.aborted && OneEach(w, o.visits, i, n) && |o.visits| <= |steps| - i
    && match o.err
       case None => |o.visits| == |steps| - i && NoFailure(o.visits)
       case Some(e) =>
         |o.visits| > 0 && FirstFailureAt(o.visits, |o.visits| - 1)
         && e == FailureOf(steps[i + |o.visits| - 1], o.visits[|o.visits| - 1].result)
  }

  ghost predicate NoFailure(visits: seq<Visit>) {
    forall k :: 0 <= k < |visits| ==> !IsFailure(visits[k].result)
  }

  lemma ThenOneEach(w: World, visits: seq<Visit>, i: nat, n: nat)
    requires OneEach(w, visits, i + 1, n + 1)
    ensures OneEach(w, [Visit(i, w.exec(n), false, None)] + visits, i, n)
  {
  }

  lemma ThenNoFailure(v: Visit, visits: seq<Visit>)
    requires !IsFailure(v.result)
    ensures NoFailure(visits) ==> NoFailure([v] + visits)
    ensures forall k: nat :: FirstFailureAt(visits, k) ==> FirstFailureAt([v] + visits, k + 1)
  {
  }

  lemma {:induction false} StopsAtFirstFailure(w: World, steps: seq<string>, i: nat, n: nat, input: string)
    requires i <= |steps|
    ensures StoppedAtFirst(w, steps, i, n, RunFrom(None, w, steps, true, i, None, n, input))
    ensures RunFrom(None, w, steps, true, i, None, n, input).input == input
    decreases |steps| - i
  {
    hide FailureOf, Decide;
    if i < |steps| && !IsFailure(w.exec(n)) {
      StopsAtFirstFailure(w, steps, i + 1, n + 1, input);
      var o := RunFrom(None, w, steps, true, i + 1, None, n + 1, input);
      ThenOneEach(w, o.visits, i, n);
      ThenNoFailure(Visit(i, w.exec(n), false, None), o.visits);
    }
  }

  /** The phase executed every step once, and returns its first failure. */
  ghost predicate RanAll(w: World, steps: seq<string>, i: nat, n: nat, o: Outcome)
    requires i <= |steps|
  {
    !o.aborted && OneEach(w, o.visits, i, n) && |o.visits| == |steps| - i
    && match o.err
       case None => NoFailure(o.visits)
       case Some(e) => exists k: nat :: FirstFailureAt(o.visits, k) && e == FailureOf(steps[i + k], o.visits[k].result)
  }

  /** Once there is a first failure, the rest of the phase only adds executions. */
  lemma {:induction false} KeepsFirstFailure(w: World, steps: seq<string>, i: nat, first: StepError, n: nat,
                                             input: string)
    requires i <= |steps|
    ensures var o := RunFrom(None, w, steps, false, i, Some(first), n, input);
            !o.aborted && o.err == Some(first) && o.input == input && |o.visits| == |steps| - i
            && OneEach(w, o.visits, i, n)
    decreases |steps| - i
  {
    if i < |steps| {
      KeepsFirstFailure(w, steps, i + 1, first, n + 1, input);
      ThenOneEach(w, RunFrom(None, w, steps, false, i + 1, Some(first), n + 1, input).visits, i, n);
    }
  }

  lemma ThenRanAll(w: World, steps: seq<string>, i: nat, n: nat, o: Outcome)
    requires i < |steps| && RanAll(w, steps, i + 1, n + 1, o) && !IsFailure(w.exec(n))
    ensures RanAll(w, steps, i, n, Then(Visit(i, w.exec(n), false, None), o))
  {
    var v := Visit(i, w.exec(n), false, None);
    ThenOneEach(w, o.visits, i, n);
    ThenNoFailure(v, o.visits);
    if o.err.Some? {
      var k: nat :| FirstFailureAt(o.visits, k) && o.err.value == FailureOf(steps[i + 1 + k], o.visits[k].result);
      assert FirstFailureAt([v] + o.visits, k + 1);
    }
  }

  lemma {:induction false} RunsEveryStep(w: World, steps: seq<string>, i: nat, n: nat, input: string)
    requires i <= |steps|
    ensures RanAll(w, steps, i, n, RunFrom(None, w, steps, false, i, None, n, input))
    ensures RunFrom(None, w, steps, false, i, None, n, input).input == input
    decreases |steps| - i
  {
    hide FailureOf, Decide;
    if i < |steps| {
      var r := w.exec(n);
      if IsFailure(r) {
        var f := FailureOf(steps[i], r);
        KeepsFirstFailure(w, steps, i + 1, f, n + 1, input);
        var o' := RunFrom(None, w, steps, false, i + 1, Some(f), n + 1, input);
        ThenOneEach(w, o'.visits, i, n);
        assert FirstFailureAt([Visit(i, r, false, None)] + o'.visits, 0);
      } else {
        RunsEveryStep(w, steps, i + 1, n + 1, input);
        ThenRanAll(w, steps, i, n, RunFrom(None, w, steps, false, i + 1, None, n + 1, input));
      }
    }
  }

  ghost predicate FirstFailureAt(visits: seq<Visit>, k: nat) {
    k < |visits| && IsFailure(visits[k].result) && forall m :: 0 <= m < k ==> !IsFailure(visits[m].result)
  }

  /** An error comes exactly with an abort, and is that of the last visit. */
  ghost predicate ErrorIsAbort(steps: seq<string>, o: Outcome) {
    (o.aborted <==> o.err.Some?)
    && (o.aborted ==> |o.visits| > 0 && AbortedBy(steps, o.visits[|o.visits| - 1], o.err))
  }

  predicate AbortedBy(steps: seq<string>, v: Visit, err: Option<StepError>) {
    v.reply == Some(Abort) && v.step < |steps|
    && err == Some(if IsFailure(v.result) then FailureOf(steps[v.step], v.result) else ErrAborted)
  }

  lemma ThenErrorIsAbort(steps: seq<string>, v: Visit, o: Outcome)
    requires ErrorIsAbort(steps, o)
    ensures ErrorIsAbort(steps, Then(v, o))
  {
    if o.aborted { assert Then(v, o).visits[|o.visits|] == o.visits[|o.visits| - 1]; }
  }

  /** With a controller, an error is returned only together with abort. */
  lemma {:induction false} ErrorOnlyOnAbort(flags: Flags, w: World, steps: seq<string>, stop: bool, i: nat, n: nat,
                                            input: string)
    requires i <= |steps|
    ensures ErrorIsAbort(steps, RunFrom(Some(flags), w, steps, stop, i, None, n, input))
    decreases |steps| - i, Newlines(input)
  {
    hide Decide, Leaves;
    if i < |steps| {
      var r := w.exec(n);
      var a := Decide(flags, IsFailure(r), Leaves(input, w.others(n)), w.shell(n));
      var v := Visit(i, r, a.shell, Some(a.reply));
      match a.reply
      case Abort =>
      case Retry =>
        ErrorOnlyOnAbort(flags, w, steps, stop, i, n + 1, a.rest);
        ThenErrorIsAbort(steps, v, RunFrom(Some(flags), w, steps, stop, i, None, n + 1, a.rest));
      case Continue =>
        ErrorOnlyOnAbort(flags, w, steps, stop, i + 1, n + 1, a.rest);
        ThenErrorIsAbort(steps, v, RunFrom(Some(flags), w, steps, stop, i + 1, None, n + 1, a.rest));
    }
  }

  /** What may follow a visit: the same step, after a retry answered from a shell session of
      that very call; or the next step, after a continue.  Nothing follows an abort. */
  predicate MayFollow(v: Visit, next: Visit) {
    (v.reply == Some(Retry) && v.shell && next.step == v.step)
    || (v.reply == Some(Continue) && next.step == v.step + 1)
  }

  ghost predicate Disciplined(visits: seq<Visit>, i: nat) {
    (|visits| > 0 ==> visits[0].step == i)
    && forall k, l :: 0 <= k && l == k + 1 && l < |visits| ==> MayFollow(visits[k], visits[l])
  }

  lemma DisciplinedThen(v: Visit, visits: seq<Visit>, i: nat)
    requires Disciplined(visits, i)
    requires (v.reply == Some(Retry) && v.shell && v.step == i) || (v.reply == Some(Continue) && v.step + 1 == i)
    ensures Disciplined([v] + visits, v.step)
  {
    var all := [v] + visits;
    forall k, l | 0 <= k && l == k + 1 && l < |all| ensures MayFollow(all[k], all[l]) {
      if k > 0 { assert all[k] == visits[k - 1] && all[l] == visits[l - 1]; }
    }
  }

  lemma {:induction false} RetriesFollowShells(flags: Flags, w: World, steps: seq<string>, stop: bool, i: nat, n: nat,
                                               input: string)
    requires i <= |steps|
    ensures Disciplined(RunFrom(Some(flags), w, steps, stop, i, None, n, input).visits, i)
    decreases |steps| - i, Newlines(input)
  {
    hide Decide, Leaves;
    if i < |steps| {
      var r := w.exec(n);
      var a := Decide(flags, IsFailure(r), Leaves(input, w.others(n)), w.shell(n));
      var v := Visit(i, r, a.shell, Some(a.reply));
      match a.reply
      case Abort =>
      case Retry =>
        RetriesFollowShells(flags, w, steps, stop, i, n + 1, a.rest);
        DisciplinedThen(v, RunFrom(Some(flags), w, steps, stop, i, None, n + 1, a.rest).visits, i);
      case Continue =>
        RetriesFollowShells(flags, w, steps, stop, i + 1, n + 1, a.rest);
        DisciplinedThen(v, RunFrom(Some(flags), w, steps, stop, i + 1, None, n + 1, a.rest).visits, i + 1);
    }
  }

  /** Retry is bounded: on finite input a phase executes at most one step per step and one
      per line of input used up, even when other jobs share the terminal. */
  lemma {:induction false} ExecutionsAreBounded(ctrl: Option<Flags>, w: World, steps: seq<string>, stop: bool,
                                                i: nat, first: Option<StepError>, n: nat, input: string)
    requires i <= |steps|
    ensures var o := RunFrom(ctrl, w, steps, stop, i, first, n, input);
            |o.visits| + Newlines(o.input) <= |steps| - i + Newlines(input)
    decreases |steps| - i, Newlines(input)
  {
    hide Decide, Leaves;
    if i < |steps| {
      var r := w.exec(n);
      match ctrl
      case None =>
        var first' := if IsFailure(r) && first == None then Some(FailureOf(steps[i], r)) else first;
        ExecutionsAreBounded(ctrl, w, steps, stop, i + 1, first', n + 1, input);
      case Some(flags) =>
        var a := Decide(flags, IsFailure(r), Leaves(input, w.others(n)), w.shell(n));
        match a.reply
        case Abort =>
        case Retry => ExecutionsAreBounded(ctrl, w, steps, stop, i, first, n + 1, a.rest);
        case Continue => ExecutionsAreBounded(ctrl, w, steps, stop, i + 1, first, n + 1, a.rest);
    }
  }

  // --------------------------------------------------- failures, field by field

  /** `e` is the failure of a step with that result: the execution's own error, or else its
      exit code. */
  ghost predicate IsErrorOf(e: StepError, step: string, r: StepResult) {
    match e
    case ExecFailed(text) => r.err == Some(text)
    case ExitCode(s, code) => r.err == None && code == r.exitCode && code != 0 && s == step
    case ErrAborted => false
  }

  ghost predicate Passed(r: StepResult) {
    r.exitCode == 0 && r.err == None
  }

  lemma FailureByFields(step: string, r: StepResult)
    ensures IsFailure(r) <==> !Passed(r)
    ensures IsFailure(r) ==> IsErrorOf(FailureOf(step, r), step, r)
  {
  }

  /** A phase's error is the first failure among its visits, and there is none exactly when
      every step exited with 0 and without an error of its own. */
  ghost predicate ReportsFirstFailure(steps: seq<string>, o: Outcome) {
    (o.err == None <==> forall k :: 0 <= k < |o.visits| ==> Passed(o.visits[k].result))
    && (o.err.Some? ==> exists k: nat :: FirstNotPassed(o.visits, k) && IsErrorAt(steps, o.visits[k], o.err.value))
  }

  ghost predicate IsErrorAt(steps: seq<string>, v: Visit, e: StepError) {
    v.step < |steps| && IsErrorOf(e, steps[v.step], v.result)
  }

  ghost predicate FirstNotPassed(visits: seq<Visit>, k: nat) {
    k < |visits| && !Passed(visits[k].result) && forall m :: 0 <= m < k ==> Passed(visits[m].result)
  }

  lemma FirstFailureByFields(visits: seq<Visit>, k: nat)
    ensures FirstFailureAt(visits, k) <==> FirstNotPassed(visits, k)
    ensures NoFailure(visits) <==> forall m :: 0 <= m < |visits| ==> Passed(visits[m].result)
  {
  }

  lemma ErrorByFields(w: World, steps: seq<string>, stop: bool, n: nat, input: string)
    ensures ReportsFirstFailure(steps, RunFrom(None, w, steps, stop, 0, None, n, input))
  {
    hide RunFrom, IsFailure, FailureOf, Passed, IsErrorOf;
    var o := RunFrom(None, w, steps, stop, 0, None, n, input);
    if stop { StopsAtFirstFailure(w, steps, 0, n, input); } else { RunsEveryStep(w, steps, 0, n, input); }
    FirstFailureByFields(o.visits, 0);
    if o.err.Some? {
      var k: nat :| FirstFailureAt(o.visits, k) && o.err.value == FailureOf(steps[k], o.visits[k].result);
      FirstFailureByFields(o.visits, k);
      FailureByFields(steps[k], o.visits[k].result);
      assert o.visits[k].step == k && FirstNotPassed(o.visits, k) && IsErrorAt(steps, o.visits[k], o.err.value);
    }
  }

  /** With a controller, an abort reports the aborted step's own failure, and "aborted" only
      for a step that passed. */
  lemma AbortByFields(flags: Flags, w: World, steps: seq<string>, stop: bool, n: nat, input: string)
    ensures var o := RunFrom(Some(flags), w, steps, stop, 0, None, n, input);
            o.aborted ==>
              |o.visits| > 0 && o.err.Some? && o.visits[|o.visits| - 1].step < |steps|
              && var v := o.visits[|o.visits| - 1];
                 if Passed(v.result) then o.err.value == ErrAborted else IsErrorOf(o.err.value, steps[v.step], v.result)
  {
    hide RunFrom, IsFailure, FailureOf, Passed, IsErrorOf;
    var o := RunFrom(Some(flags), w, steps, stop, 0, None, n, input);
    ErrorOnlyOnAbort(flags, w, steps, stop, 0, n, input);
    if o.aborted {
      var v := o.visits[|o.visits| - 1];
      FailureByFields(steps[v.step], v.result);
    }
  }

  /** `v` is the controller's answer, given that input, to a step that passed or did not. */
  ghost predicate IsAnswer(flags: Flags, passed: bool, v: Visit, input: string, leaves: string) {
    var a := Decide(flags, !passed, input, leaves);
    v.reply == Some(a.reply) && v.shell == a.shell
  }

  /** The visit's result is that execution's, and it was answered. */
  ghost predicate Answered(flags: Flags, r: StepResult, v: Visit) {
    v.result == r && exists input, leaves :: IsAnswer(flags, Passed(r), v, input, leaves)
  }

  ghost predicate AllAnswered(flags: Flags, w: World, visits: seq<Visit>, n: nat) {
    forall k :: 0 <= k < |visits| ==> Answered(flags, w.exec(n + k), visits[k])
  }

  lemma AnsweredNext(flags: Flags, w: World, visits: seq<Visit>, n: nat)
    requires |visits| > 0 && Answered(flags, w.exec(n), visits[0]) && AllAnswered(flags, w, visits[1..], n + 1)
    ensures AllAnswered(flags, w, visits, n)
  {
    hide Answered;
    forall k | 0 <= k < |visits| ensures Answered(flags, w.exec(n + k), visits[k]) {
      if k > 0 {
        var h := k - 1;
        assert Answered(flags, w.exec(n + 1 + h), visits[1..][h]) && n + 1 + h == n + k;
      }
    }
  }

  /** The first visit of a phase under a controller, and where the others come from. */
  lemma FirstVisit(flags: Flags, w: World, steps: seq<string>, stop: bool, i: nat, first: Option<StepError>, n: nat,
                   input: string) returns (more: bool, next: nat, rest: string)
    requires i < |steps|
    ensures var o := RunFrom(Some(flags), w, steps, stop, i, first, n, input);
            |o.visits| > 0 && Answered(flags, w.exec(n), o.visits[0])
            && next <= |steps| && (next > i || (next == i && Newlines(rest) < Newlines(input)))
            && (if more then o.visits[1..] == RunFrom(Some(flags), w, steps, stop, next, first, n + 1, rest).visits
                else o.visits[1..] == [])
  {
    hide Decide, Leaves, FailureOf;
    var r := w.exec(n);
    FailureByFields(steps[i], r);
    var a := Decide(flags, IsFailure(r), Leaves(input, w.others(n)), w.shell(n));
    var v := Visit(i, r, a.shell, Some(a.reply));
    assert IsAnswer(flags, Passed(r), v, Leaves(input, w.others(n)), w.shell(n));
    more, next, rest := a.reply != Abort, if a.reply == Retry then i else i + 1, a.rest;
  }

  /** With a controller, every execution is answered by it. */
  lemma {:induction false} EveryVisitIsAnswered(flags: Flags, w: World, steps: seq<string>, stop: bool, i: nat,
                                                first: Option<StepError>, n: nat, input: string)
    requires i <= |steps|
    ensures AllAnswered(flags, w, RunFrom(Some(flags), w, steps, stop, i, first, n, input).visits, n)
    decreases |steps| - i, Newlines(input)
  {
    if i == |steps| {
      assert RunFrom(Some(flags), w, steps, stop, i, first, n, input).visits == [];
    } else {
      hide RunFrom, Answered;
      var more, next, rest := FirstVisit(flags, w, steps, stop, i, first, n, input);
      if more { EveryVisitIsAnswered(flags, w, steps, stop, next, first, n + 1, rest); }
      AnsweredNext(flags, w, RunFrom(Some(flags), w, steps, stop, i, first, n, input).visits, n);
    }
  }

  /** What the flags make of results: with shell-on-fail every failure opens a shell, and
      without step mode a step that passed goes on unasked while a failure without
      shell-on-fail aborts. */
  ghost predicate FollowsFlags(flags: Flags, v: Visit) {
    (!Passed(v.result) && flags.shellOnFail ==> v.shell)
    && (!flags.stepByStep && Passed(v.result) ==> v.reply == Some(Continue) && !v.shell)
    && (!flags.stepByStep && !flags.shellOnFail && !Passed(v.result) ==> v.reply == Some(Abort))
  }

  lemma AnswerFollowsFlags(flags: Flags, r: StepResult, v: Visit)
    requires Answered(flags, r, v)
    ensures FollowsFlags(flags, v)
  {
  }

  lemma AnswersByFlags(flags: Flags, w: World, steps: seq<string>, stop: bool, n: nat, input: string)
    ensures var visits := RunFrom(Some(flags), w, steps, stop, 0, None, n, input).visits;
            forall k :: 0 <= k < |visits| ==> visits[k].result == w.exec(n + k) && FollowsFlags(flags, visits[k])
  {
    hide RunFrom, FollowsFlags;
    var visits := RunFrom(Some(flags), w, steps, stop, 0, None, n, input).visits;
    EveryVisitIsAnswered(flags, w, steps, stop, 0, None, n, input);
    forall k | 0 <= k < |visits| ensures visits[k].result == w.exec(n + k) && FollowsFlags(flags, visits[k]) {
      AnswerFollowsFlags(flags, w.exec(n + k), visits[k]);
    }
  }
}
