# PolyCI's job graph, proved in Dafny

PolyCI turns GitLab, CircleCI and GitHub Actions files into one job graph and runs that graph in Docker. This project models
what lies between the decoded file and the Docker calls, and proves what the four pieces promise each other.

* **The dependency kernel** (`Graph`, `Levels`, `Skips`, `LevelTheorems`; Go package `dag`). `Graph` defines edges, chains,
  transitive dependency and longest chains. `Levels` is the memoised depth-first search over the mutable `levels` and
  `visiting` maps; `Skips` is the repeat-until-stable cascade.
* **The concurrent scheduler** (`Scheduler`, `SchedulerTheorems`, `Outcomes`, `Run`; `Docker.Run`). One goroutine per job,
  as a transition system: a step is a channel receive, a locked read or write of `states`/`errs`, the return of `runJob`, or
  the close of the job's own channel. What `runJob` returns is a fixed oracle per job; the schedule is arbitrary.
* **One job** (`Debugger`, `Answers`, `Steps`, `RunJob`; `Interactive`, `runSteps`, `runJob`). Classes with the same mutable state
  as in Go (unread input, visits, cleanups), each method tied to a function on which the theorems are proved. Docker calls
  succeed or fail by oracle; a shell or another job's prompt may consume input at every visit. `Terminal` puts all jobs of
  a run at the one terminal they share and proves that each still does what its own specification says; `WholeRun` joins
  scheduler, Docker calls and steps into one system and proves that it ends.
* **The front ends** (`Pipeline`, `GitLab`, `GitLabFile`, `Extends`, `CircleCI`, `Workflows`, `GitHub`, `BaseJobs`, `Matrix`,
  `Labels`, `Collisions`, `Combinations`, `Expansion`, `ExpandedNames`, `Expression`), from decoded data to the job list, and **`EndToEnd`**, which joins them to the
  scheduler.

`dafny verify dfyconfig.toml` checks everything.

Where the code says less, or something else, than its comments or a reader may expect, the model follows the code; where a
promise fails on some inputs, the condition under which it holds is proved to be exact:

* `Run` remembers the first unsuccessful dependency in `blockedOn`, and `""` means "none" (docker.go:336-351). A failed
  dependency whose name is the empty string therefore blocks nobody. "A job starts only after its dependencies succeeded"
  and "the runtime cascade is `FilterSkipped`" hold exactly when no job depends on a job named `""`, and so do GitLab's
  stages as barriers at run time.
* GitLab's nearest-stage edges are the full stage barrier exactly when no job name is used in two stages. Entries
  of one name all read the last mapping of that name (gitlab/parser.go:122-152), so a file never does that: the barrier is
  full even where `Run` goes on to reject the repeated name.
* A base job yields a job or a skip exactly when it is skipped or has a combination, and a matrix leaves no combination
  exactly when one of its axes is empty. Such a job vanishes and its own `needs` are never looked up. The theorem about
  expansion and levels is therefore about the base graph without such jobs, and the plain statement follows where every kept
  base job has a combination.
* `comboLabel` is not injective. For keys without `=` and `", "`, a combination shares its label with another one over the
  same keys exactly when, for two neighbouring keys, one of their values contains `", "` followed by the second key and `=`.
  One matrix gives two of its combinations one name exactly when no axis is empty and an axis repeats a value or its values
  collide (`Collisions.Collides`, a search over the axes).
* A CircleCI job kept in two workflows appears twice and is rejected by `Run`, exactly then; it may also be kept in one
  workflow and skipped in another.
* "What is reported as unsupported stays in the text" (the comment at expression.go:64-69) holds for a string exactly when it
  has no `github.sha` or `github.ref` outside a repository and no `github.ref` on a detached HEAD: those are reported as
  unsupported and become the empty string.
* `Abort` ends the current job with an error; the comment at docker.go:109 says it stops the whole pipeline. Where all others
  would succeed and nobody depends on `""`, an abort stops exactly the jobs that depend on the aborted one, so it stops every
  other job exactly when every other job does.
* `Run` never looks for cycles. On a cyclic graph it does not return; which jobs stay pending is proved. No front end
  produces one with distinct names.

## Model

| member | source | states |
|---|---|---|
| `Levels.Levels` | internal/dag/levels.go:25-85 | Succeeds iff names are distinct, every dependency is a node and the graph is acyclic; then each level is the longest chain's length and the order is by level, then declaration. An error is real: a repeated name, an undeclared name or a name on a cycle, reached from the first node with any trouble. |
| `Levels.Resolver.Resolve` | internal/dag/levels.go:37-64 | The recursive search keeps every memoised level correct, restores `visiting`, and stops only with a real unknown name or a name on a cycle; it terminates because the names not on the call stack shrink. |
| `Levels.ResolveAll` | internal/dag/levels.go:66-75 | The loop over all nodes ends with every node levelled and the highest level (0 when there is none), or with the trouble of the first node that has any. |
| `Levels.Flatten` | internal/dag/levels.go:77-83 | The nested loops list the levels one after the other, each in declaration order. |
| `LevelTheorems.LevelOrderIsSortedPermutation` | internal/dag/levels.go:66-84 | The order is a permutation of the names, sorted by (level, declaration index). |
| `LevelTheorems.DependenciesComeFirst` | internal/dag/levels.go:17-24 | Every name once, and nothing comes before something it depends on, directly or transitively. |
| `LevelTheorems.SameLevelUnrelated` | internal/dag/levels.go:17-24 | Two nodes on one level are never related by transitive dependency. |
| `Skips.FilterSkipped` | internal/dag/levels.go:100-134 | Terminates on every graph, cyclic or with repeated names; the keys of the reasons are the given skips and everything that reaches one; the kept nodes are the rest in their order; every reason unwinds along edges to a given one; each entry blames the first dependency skipped before it. |
| `Skips.Pass` | internal/dag/levels.go:110-122 | One pass only adds names that must be skipped, and changes nothing exactly when the set is closed. |
| `Skips.SkipSetIsLeastFixpoint` | internal/dag/levels.go:87-99 | The result is the least set that contains the given skips and is closed under "depends on a member", so declaration order does not matter. |
| `Skips.ReasonsUnwind` | internal/dag/levels.go:95-99 | Following a generated reason dependency by dependency ends, in finitely many steps, at a reason the caller gave. |
| `LevelTheorems.FilteringPreservesScheduling` | internal/dag/levels.go:77-83 | If the full graph is valid, so is the kept one; no kept node depends on a skipped one; kept nodes keep their levels and relative order. |
| `Scheduler.StepInv` | internal/executor/docker.go:328-359 | Every step of every goroutine keeps the scheduler invariant. |
| `SchedulerTheorems.ReachableIsSafe` | internal/executor/docker.go:305-359 | In every reachable state: a job past pending has only finished dependencies; a skipped job has a failed or skipped one and names the first; a closed `done` implies a final state. |
| `SchedulerTheorems.StartedAfterSuccessHolds` | internal/executor/docker.go:334-358 | When nobody depends on a job named "", a running, succeeded or failed job has only succeeded dependencies, in every reachable state. |
| `Outcomes.StartedAfterSuccessIffNoEmptyDependency` | internal/executor/docker.go:334-358 | That holds over all outcomes and schedules exactly when nobody depends on a job named "". |
| `SchedulerTheorems.TerminalStays` | internal/executor/docker.go:313-320 | A final state, and its error, never change in any continuation. |
| `SchedulerTheorems.StepMeasure` | internal/executor/docker.go:328-361 | Every step decreases the remaining waits and unfinished jobs. |
| `SchedulerTheorems.RunsAreBounded` | internal/executor/docker.go:328-361 | No schedule is longer than the measure of the state it starts in. |
| `SchedulerTheorems.AcyclicMakesProgress` | internal/executor/docker.go:286-361 | Deadlock freedom: on an accepted acyclic graph every reachable unfinished state has a step. |
| `SchedulerTheorems.QuiescentMeansFinished` | internal/executor/docker.go:286-361 | When nothing can move, exactly the jobs that reach a cycle are unfinished, each still waiting and pending. |
| `SchedulerTheorems.CycleStaysPending` | internal/executor/docker.go:286-361 | A job that reaches a cycle never leaves pending, in any run. |
| `SchedulerTheorems.FinishedIsFate` | internal/executor/docker.go:328-359 | Whatever the schedule, a finished job's state and error are those its outcome and its dependencies' fates determine. |
| `SchedulerTheorems.Confluence` | internal/executor/docker.go:328-382 | All maximal runs end in the same state, with the same errors and stuck jobs, cyclic or not. |
| `Outcomes.ConcurrentEqualsSequential` | internal/executor/docker.go:328-382 | A finished run has recorded for every job what running the jobs one by one in `dag.Levels`' order records. |
| `Outcomes.CascadeHolds` | internal/executor/docker.go:336-358 | After any run, the failed or skipped jobs are `FilterSkipped`'s keys for the failed ones, and the succeeded jobs are its kept nodes, when nobody depends on "". |
| `Outcomes.CascadeMatchesIffNoEmptyDependency` | internal/executor/docker.go:336-358 | That agreement holds over all outcomes and schedules exactly under this condition. |
| `Outcomes.EmptyNameCounterexample` | internal/executor/docker.go:334-351 | Every valid graph with a dependency on "" has a run that breaks both statements. |
| `Outcomes.FailureStopsDependents` | internal/executor/docker.go:334-358 | When one job alone fails or is aborted and nobody depends on "", a job of a finished run does not succeed exactly when it is that job or depends on it, directly or transitively. |
| `Outcomes.AbortStopsAllIffAllDepend` | internal/executor/docker.go:108-110 | So an abort stops every other job exactly when every other job depends on the aborted one. |
| `Run.Check` | internal/executor/docker.go:290-303 | Rejects exactly the graphs with a repeated name or an unknown dependency, and names the first of its kind. |
| `Run.Interleave` | internal/executor/docker.go:328-361 | Any order of enabled steps ends in a reachable state where nothing can move. |
| `Run.Run` | internal/executor/docker.go:281-383 | Rejects, or fails to return exactly on a cyclic graph with exactly the jobs reaching a cycle stuck, or reports the failed names, sorted, with the first one's error. |
| `Run.CollectFailed` | internal/executor/docker.go:363-374 | The failed names, sorted, whatever the map's iteration order. |
| `Run.ReportIsFate` | internal/executor/docker.go:363-382 | The returned error is determined by the jobs' fates alone. |
| `Run.ResultIsUnique` | internal/executor/docker.go:363-382 | At most one result fits, so neither schedule nor map order shows. |
| `Run.ReportedError` | internal/executor/docker.go:363-382 | Nil exactly without failed jobs; a single one with its own error; of several, all in order with the error of the smallest name. |
| `Strings.LeIsLexicographic` | internal/executor/docker.go:374-374 | The order of names is lexicographic: a prefix first, otherwise by the first different character. |
| `Debugger.ReadLine` | internal/debugger/interactive.go:68-72 | A line read is the text up to and including the first newline, the rest follows it; an unterminated tail reads like end of input. |
| `Debugger.Decide` | internal/debugger/interactive.go:43-114 | A retry follows a shell session of the same call and costs a line; without complete lines every prompt aborts; without step mode a success continues untouched. |
| `Debugger.Interactive.AfterStep` | internal/debugger/interactive.go:43-88 | The prompting loop answers and consumes input as `Decide` says. |
| `Debugger.Interactive.PromptAfterShell` | internal/debugger/interactive.go:93-114 | The loop after a shell answers with the first line that is an answer. |
| `Answers.StepAnswers` | internal/debugger/interactive.go:61-87 | At the step prompt a line of nothing, "y" or "yes", in any letter case and with white space around it, continues; "n", "a" or "abort" aborts; "s" or "shell" opens a shell and the prompt after it; every other line is passed over. |
| `Answers.AfterShellAnswers` | internal/debugger/interactive.go:94-113 | After a shell a line of nothing, "c" or "continue" continues, "a" or "abort" aborts, "r" or "retry" retries, and every other line is passed over. |
| `Answers.NormaliseIffSpells` | internal/debugger/interactive.go:74-74 | A line reads as a word exactly when it is that word in some letter case with white space around it. |
| `Answers.NoLineAborts` | internal/debugger/interactive.go:68-72 | Input without a complete line ends every prompt with abort. |
| `Answers.WhichPrompt` | internal/debugger/interactive.go:44-60 | A failure with shell-on-fail is followed by a shell; otherwise step mode asks, and without it a failure aborts and a success continues. |
| `Steps.Runner.RunSteps` | internal/executor/docker.go:517-569 | Visits, returned error, abort flag and unread input are those of the recursive specification. |
| `Steps.Runner.RunStep` | internal/executor/docker.go:524-566 | The inner retry loop ends the phase or hands the rest of the specification to the next step; it terminates by the lines left. |
| `Steps.StopsAtFirstFailure` | internal/executor/docker.go:505-516 | With no controller and stopping on failure: each step once up to the first failing one, whose failure is returned. |
| `Steps.RunsEveryStep` | internal/executor/docker.go:505-516 | With no controller and not stopping: every step once, and the first failure is returned. |
| `Steps.ErrorOnlyOnAbort` | internal/executor/docker.go:535-555 | With a controller, an error comes exactly with an abort, and is the aborted step's own failure or "aborted by user". |
| `Steps.ErrorByFields` | internal/executor/docker.go:531-562 | With no controller a phase has no error exactly when every execution exited with 0 and without an error; otherwise its error is the first other execution's own error, or else its step's name and exit code. |
| `Steps.AbortByFields` | internal/executor/docker.go:544-549 | An abort reports the aborted step's own failure, and "aborted" only for a step that passed. |
| `Steps.AnswersByFlags` | internal/debugger/interactive.go:43-59 | Each visit has its execution's result; with shell-on-fail every failure opens a shell; without step mode a pass goes on unasked and a failure without shell-on-fail aborts. |
| `Steps.RetriesFollowShells` | internal/executor/docker.go:540-552 | A step is executed again only after a retry answered from a shell session of its last visit; otherwise the next step follows. |
| `Steps.ExecutionsAreBounded` | internal/executor/docker.go:517-569 | Executions plus lines left are at most steps plus lines given. |
| `RunJob.JobRun.Run` | internal/executor/docker.go:385-503 | The event log and error of a whole job are those of the specification, for any number of services and any failing call. |
| `RunJob.RefusedCallIsTheError` | internal/executor/docker.go:388-463 | If call k of the plan is the first refused, the job returns and reports exactly that call's error, its calls are the first k+1 of the plan, and no step is executed. |
| `RunJob.StepsAreTheError` | internal/executor/docker.go:466-502 | If every call is accepted, all calls of the plan and the phases come first, and the job's error is that of the phases. |
| `RunJob.PlanAt` | internal/executor/docker.go:385-463 | Which call stands where in the plan, for any number of services. |
| `RunJob.JobRun.SetUp` | internal/executor/docker.go:388-464 | Calls are made in plan order up to and including the first failure; what was created is queued for removal. |
| `RunJob.JobRun.SetUpServices` | internal/executor/docker.go:408-443 | The service loops keep to the plan: all pulls, the network, then create and start per service. |
| `RunJob.JobRun.RunPhases` | internal/executor/docker.go:466-502 | Main phase, then after-script phase unless aborted; the error is chosen between the two. |
| `RunJob.JobRun.Unwind` | internal/executor/docker.go:399-404 | The deferred loop removes what was pushed, last first. |
| `RunJob.PlanCreates` | internal/executor/docker.go:408-458 | The network comes first, then the service containers in order, then the job's container. |
| `RunJob.CreatedInOrder` | internal/executor/docker.go:394-457 | Created are the resources of the accepted creating calls, in order; a refused one creates nothing. |
| `RunJob.StepsInOrder` | internal/executor/docker.go:466-473 | Each phase executes its own steps, in the order they are listed. |
| `RunJob.ResourcesConserved` | internal/executor/docker.go:394-464 | On every exit path, for any steps and with or without a debugger: removed is exactly created, each once, reversed; every removal comes after all calls; the network goes last. |
| `RunJob.PhasesWithoutController` | internal/executor/docker.go:466-503 | Main steps up to the first failure, then every after-script step; the error is the first main failure, else the first after-script one. |
| `RunJob.PhasesWithController` | internal/executor/docker.go:475-503 | A main-phase abort runs no after-script step and decides the error; otherwise the main phase has no error and the after-script phase decides. |
| `RunJob.JobExecutionsAreBounded` | internal/executor/docker.go:475-569 | A whole job executes at most one step per step of the job and line of input. |
| `Terminal.AllExecutionsAreBounded` | internal/executor/docker.go:540-555 | However the jobs of a run interleave at their shared terminal, they execute together at most one step per step of the pipeline and line of input. |
| `Terminal.EachJobFollowsItsPhases` | internal/executor/docker.go:466-569 | In such a run a job that has come to its end has made the visits and returned the error of its own specification, in the world that hands it what it met at the terminal. |
| `Terminal.MoveFollows` | internal/executor/docker.go:524-566 | One execution in the shared run is one step of that job's own specification. |
| `WholeRun.WholeRunEnds` | internal/executor/docker.go:281-569 | However goroutines, Docker calls and steps of a valid graph interleave, with or without a debugger: no more can happen than the scheduler's measure, all setup calls, all steps and all lines of input together; until every goroutine has exited something can; and the scheduler is in a state it reaches for the outcomes the jobs came to have. |
| `WholeRun.MovesAreRuns` | internal/executor/docker.go:328-361 | The goroutines' part of a whole run is a run of the scheduler for those outcomes. |
| `WholeRun.ExecutionsArePlays` | internal/executor/docker.go:524-566 | The executions of a whole run are a play of the jobs at the shared terminal. |
| `WholeRun.ReturnedIsSpecified` | internal/executor/docker.go:385-503 | What a job has returned is what its own specification gives for the calls that were accepted and the world it met; a refused call is its error. |
| `Matrix.MatrixCombinations` | internal/githubactions/matrix.go:19-81 | The combinations are the product of the list-valued axes, sorted keys: as many as the axis lengths multiply to, entry i holding exactly the axis keys with the values its digits select; `include`/`exclude` are reported and not applied; without a matrix one empty combination. |
| `Matrix.ComboLabel` | internal/githubactions/matrix.go:86-97 | The label joins `key=value` over the sorted keys. |
| `Matrix.LabelOfTwo` | internal/githubactions/matrix.go:83-97 | What a label of two keys looks like. |
| `Matrix.AxesInOrder` | internal/githubactions/matrix.go:40-59 | A key is an axis unless it is `include` or `exclude` or its value is no list; axes keep the order of the keys. |
| `Matrix.ProductSize` | internal/githubactions/matrix.go:65-79 | There are as many entries as the axis lengths multiply to; none if an axis is empty. |
| `Matrix.ProductEntry` | internal/githubactions/matrix.go:65-79 | Entry i has exactly the axis keys and on each axis the value its mixed-radix digit selects. |
| `Matrix.ProductEnumerates` | internal/githubactions/matrix.go:29-79 | For every matrix, the axes taken from its sorted keys have distinct ascending keys and their product enumerates every choice. |
| `Matrix.EveryChoiceIsEnumerated` | internal/githubactions/matrix.go:65-79 | Every choice of one value per axis is in the product, at the position its digits give. |
| `Matrix.DigitsOfPosition` | internal/githubactions/matrix.go:65-79 | Digits invert positions. |
| `Combinations.DigitsDetermine` | internal/githubactions/matrix.go:65-79 | Positions are determined by their digits. |
| `Combinations.EntriesDifferIffValuesDo` | internal/githubactions/matrix.go:65-79 | The entries of a product are pairwise different exactly when there are none or no axis repeats a value. |
| `Matrix.LabelInjective` | internal/githubactions/matrix.go:83-97 | Combinations with identifier-like keys and separator-free values have different labels, whatever their keys. |
| `Labels.ConfusedIffAmbiguous` | internal/githubactions/matrix.go:83-97 | For keys without `=` and the separator: another combination over the same keys has the same label if and only if, for two neighbouring keys, one of their values contains the separator followed by the second key and `=`. |
| `Labels.LabelsCanCollide` | internal/githubactions/matrix.go:83-97 | From such a value a different combination with the same keys and label is constructed. |
| `Labels.LabelDetermines` | internal/githubactions/matrix.go:83-97 | Where no value is of that kind, the label determines the combination among those over its keys. |
| `Labels.PlainIsUnambiguous` | internal/githubactions/matrix.go:83-97 | Separator-free values are never of that kind. |
| `Collisions.CollisionFound` | internal/githubactions/matrix.go:65-97 | Where the search over the axes finds a collision, two different choices of values have one label text. |
| `Collisions.CollisionIsFound` | internal/githubactions/matrix.go:65-97 | With keys without `=` and the separator, it finds every such pair. |
| `Combinations.NamesDifferIff` | internal/githubactions/parser.go:262-267 | With such keys, a matrix job's expanded names are pairwise different exactly when there are none, or no axis repeats a value and no values collide. |
| `Combinations.UnambiguousNeverCollides` | internal/githubactions/matrix.go:83-97 | Values that do not contain the separators around them never collide. |
| `Combinations.MatrixNamesDifferIff` | internal/githubactions/parser.go:260-267 | The same for every decoded matrix and its sorted keys. |
| `GitHub.CombinationNames` | internal/githubactions/parser.go:260-308 | One name per combination: the job's own, or with the label in parentheses. |
| `GitHub.NameOfTwo` | internal/githubactions/parser.go:264-267 | What the name of a combination looks like, and that without keys it is the job's own. |
| `Expansion.ExpandedLevels` | internal/githubactions/parser.go:133-172 | With known needs and distinct expanded names: the expanded graph is valid iff the base graph without zero-combination jobs is, and every combination has its base job's level. |
| `Expansion.ExpandedLevelsAreBaseLevels` | internal/githubactions/parser.go:133-172 | When every kept base job has a combination, the same for the kept base graph itself. |
| `Expansion.NeedsInOrder` | internal/githubactions/parser.go:156-163 | Resolved needs keep their order, each replaced by all its combinations in theirs. |
| `Expansion.CombinationsInOrder` | internal/githubactions/parser.go:148-167 | The expanded nodes keep the order of the base jobs and of their combinations. |
| `ExpandedNames.DistinctIffNamesApart` | internal/githubactions/parser.go:133-167 | Expanded names are distinct exactly when each base job's own are and no two base jobs share one. |
| `ExpandedNames.FullNamesClashIff` | internal/githubactions/parser.go:262-267 | Exactly when combinations of two base jobs share a name: the longer base name goes on after the shorter with " (", and the rest agrees with the label. |
| `ExpandedNames.OwnNamesSuffice` | internal/githubactions/parser.go:133-172 | Where no base name does that, expanded names are distinct exactly when each base job's own are. |
| `GitHub.ParseInDir` | internal/githubactions/parser.go:84-207 | Which error is returned and exactly when, naming the first unknown need; otherwise the jobs in level order with stage, resolved needs and own definition, over a valid graph, and the skipped base jobs with reasons that unwind. |
| `GitHub.Expand` | internal/githubactions/parser.go:133-146 | The expansions of the kept base jobs, and a definition for every expanded name. |
| `GitHub.BuildNodes` | internal/githubactions/parser.go:148-167 | The expanded nodes with their resolved needs, or the first need, in file order, that names no kept base job. |
| `GitHub.JobsAreNodes` | internal/githubactions/parser.go:185-196 | The assembled jobs are the expanded nodes reordered, so they form a valid graph. |
| `GitHub.LastGoodCounts` | internal/githubactions/parser.go:98-107 | Of a repeated base name the last usable entry is expanded. |
| `GitHub.LastBadCounts` | internal/githubactions/parser.go:98-107 | Of several unusable entries of one name the last gives the reason. |
| `GitHub.BasesInOrder` | internal/githubactions/parser.go:114-202 | Base jobs enter the graph, and skipped ones the list, in file order. |
| `GitHub.JobsShowTheirLevel` | internal/githubactions/parser.go:181-189 | Every job's stage is "level-" and the digits of its level. |
| `BaseJobs.ShownIffCombination` | internal/githubactions/parser.go:133-202 | A declared base job is listed as skipped or owns a job of the result exactly when it is not kept or has a combination; it is listed exactly when it is not kept. |
| `BaseJobs.NoCombinationIffEmptyAxis` | internal/githubactions/matrix.go:65-79 | A matrix leaves no combination exactly when one of its axes is empty. |
| `BaseJobs.EmptyAxisVanishes` | internal/githubactions/parser.go:133-202 | In a given two-job workflow the job without combinations is neither listed nor run. |
| `BaseJobs.VanishingParses` | internal/githubactions/parser.go:148-172 | That workflow parses, and its other job is the whole graph. |
| `Expression.FindMatch` | internal/githubactions/expression.go:19-19 | The leftmost match from a position: the first `}}` after `${{` with no newline between. |
| `Expression.MatchesUnique` | internal/githubactions/expression.go:19-19 | A string has exactly one list of leftmost-shortest matches. |
| `Expression.ResolveReferences` | internal/githubactions/expression.go:115-144 | `matrix.` and `env.` references resolve to what the context holds, an unset variable to "", an unknown matrix key to nothing; a dash is allowed in matrix keys only. |
| `Expression.SubstituteExpressions` | internal/githubactions/expression.go:70-151 | The scan returns the substitution over the string's matches, one finding per match. |
| `Expression.SubstitutionIsPiecewise` | internal/githubactions/expression.go:70-151 | The pieces concatenate back to the input, literals are copied, each expression is replaced by what its own text resolves to and never scanned again, and finding i is that of expression i. |
| `Expression.UnsupportedCopiedIffNotDegraded` | internal/githubactions/expression.go:64-69 | Every match reported as unsupported stays in the text exactly when no match refers to a missing commit or symbolic ref. |
| `Expression.ShaSubstitutes` | internal/githubactions/expression.go:131-135 | `${{ github.sha }}` becomes the repository's commit; outside one it is reported as unsupported and replaced by nothing. |
| `Expression.RefSubstitutes` | internal/githubactions/expression.go:137-144 | `${{ github.ref }}` becomes its symbolic ref; on a detached HEAD and outside a repository it is reported as unsupported and replaced by nothing. |
| `Expression.OtherTextIsCopied` | internal/githubactions/expression.go:146-147 | Everything of none of the four forms is reported as not evaluated and copied. |
| `Expression.NewlineIsNoReference` | internal/githubactions/expression.go:19-19 | Braces around a newline are not a reference. |
| `Expression.SubstitutionUnique` | internal/githubactions/expression.go:70-151 | Output and findings are determined by the input. |
| `Expression.NoFindingsIffNoMatch` | internal/githubactions/expression.go:70-151 | No finding exactly when nothing matches, and then nothing changes. |
| `GitLab.AssignDependsOn` | internal/gitlab/parser.go:263-284 | In place, every job gets the jobs of the nearest non-empty earlier stage, and nothing else changes. |
| `GitLab.BarrierIffNamesFixStage` | internal/gitlab/parser.go:258-284 | A job transitively depends on another iff that one's stage is strictly earlier, for every stage list and placement, exactly when no name is used in two stages. |
| `GitLab.AssignedIsSound` | internal/gitlab/parser.go:263-284 | Then every dependency is a job and there is no cycle. |
| `GitLab.StageIndexIsPosition` | internal/gitlab/parser.go:264-267 | A stage's index is its last position in the list. |
| `GitLab.FullBarrierOverList` | internal/gitlab/parser.go:258-284 | So the full barrier is one over the list: a job waits for another, directly or not, exactly when that one's stage comes earlier in it. |
| `GitLab.BarrierInOrder` | internal/gitlab/parser.go:269-280 | A barrier lists its stage's jobs in file order. |
| `GitLab.Parse` | internal/gitlab/parser.go:136-256 | Which entries become jobs, are skipped with which reason, or are ignored; the jobs carry their barriers; where entries of one name name one stage, or names are distinct, the graph is closed and acyclic and the barrier full. |
| `GitLab.EntryFate` | internal/gitlab/parser.go:141-246 | Which entries are ignored, which become jobs and with what, and which of the four reasons, in order, skips the others. |
| `GitLab.EntriesInOrder` | internal/gitlab/parser.go:136-247 | Jobs and skipped jobs are listed in file order. |
| `GitLab.ParsedIsSound` | internal/gitlab/parser.go:136-284 | The same about the result for every list of entries. |
| `GitLabFile.ParseFile` | internal/gitlab/parser.go:116-256 | From raw entries, repeated keys included: every entry is read from its key's last mapping with `extends:` resolved, and the result is closed, acyclic and the full stage barrier. |
| `GitLabFile.EntriesNameOneStage` | internal/gitlab/parser.go:122-160 | Entries of one name read one mapping, so they name one stage. |
| `GitLabFile.MappingIsEntered` | internal/gitlab/parser.go:122-134 | Every mapping whose key is not reserved is found under its key. |
| `GitLabFile.FileIsSound` | internal/gitlab/parser.go:116-284 | So for every file the dependencies are free of cycles and the full barrier, over indices and over positions in the stage list. |
| `GitLabFile.LastMappingWins` | internal/gitlab/parser.go:122-134 | A key stands for its last mapping. |
| `GitLabFile.StageByFields` | internal/gitlab/parser.go:157-160 | A job is in the stage its text names, and in "test" without one. |
| `Extends.MergeExtends` | internal/gitlab/parser.go:464-486 | The child's fields over the parent's, `variables` merged key by key. |
| `Extends.ResolveExtends` | internal/gitlab/parser.go:404-458 | One level of parents merged in listed order, with the finding for missing, deep or merged parents. |
| `Extends.FieldsAreLayered` | internal/gitlab/parser.go:395-434 | A field is that of the first of the job and its listed parents that has it. |
| `Extends.ParentsInOrder` | internal/gitlab/parser.go:422-434 | Layers, unknown parents and parents that extend others keep the order of the list. |
| `Extends.ListedParents` | internal/gitlab/parser.go:410-420 | Parents are listed by a string or by the strings of a list. |
| `Extends.FirstWithIs` | internal/gitlab/parser.go:395-403 | The layer that decides is the first that has the field. |
| `Extends.VariablesAreLayered` | internal/gitlab/parser.go:464-486 | `variables` is layered in the same way key by key. |
| `CircleCI.ParseWorkflow` | internal/circleci/parser.go:95-156 | Fails exactly when the kept part cannot be levelled, with a real error, never with the internal one; otherwise the kept jobs in level order and one stage per level; skipped is exactly what reaches an undefined reference. |
| `CircleCI.FirstSkips` | internal/circleci/parser.go:107-118 | Which references are skipped from the start, and with which reason. |
| `CircleCI.PartShowsLevels` | internal/circleci/parser.go:141-156 | Every job has its definition's body, and its stage is the workflow's name, "/level-" and the digits of its level there. |
| `CircleCI.ReportSkips` | internal/circleci/parser.go:158-163 | Each skipped name is listed once, with the reason of the first workflow that skips it. |
| `CircleCI.Parse` | internal/circleci/parser.go:92-170 | The pipeline is the concatenation of its workflows' jobs and stages; the error is that of the first workflow whose kept part cannot be levelled; nothing is found exactly when no workflow refers to a job. |
| `Seqs.FlattenAt` | internal/circleci/parser.go:94-156 | In the concatenation every element of a part comes after all elements of the parts before it. |
| `CircleCI.ConcatenationIsValid` | internal/circleci/parser.go:94-156 | With distinct names the concatenation has known dependencies and no cycle. |
| `Workflows.DistinctIffKeptApart` | internal/circleci/parser.go:141-156 | The names are distinct exactly when no job is kept in two workflows. |
| `Pipeline.StagesOf` | internal/circleci/parser.go:126-134 | One stage for every level up to the highest, whatever the map's iteration order. |
| `Pipeline.StageShowsLevel` | internal/githubactions/parser.go:181-183 | A stage reads back as its level after the prefix and "level-". |
| `Pipeline.DifferentLevelsDifferentStages` | internal/githubactions/parser.go:181-183 | So different levels have different stages. |
| `EndToEnd.ProducedIsSound` | internal/executor/docker.go:290-303 | Whatever a front end returns, distinct names are all it takes to be a valid graph. |
| `EndToEnd.NeverDeadlocks` | internal/executor/docker.go:286-361 | No front end's output can deadlock the scheduler: every schedule is bounded, and an unfinished state has a step, for all outcomes. |
| `EndToEnd.RunDocument` | cmd/polyci/main.go:97-131 | Parsing and running never hangs: a repeated name is rejected, otherwise every job's fate is reported. |
| `EndToEnd.StagesAreBarriers` | internal/gitlab/parser.go:258-262 | When no job depends on one named "" and names are distinct: once a GitLab job has started, all jobs of earlier stages have succeeded, in every reachable state. |
| `EndToEnd.EarlierStagesSucceeded` | internal/gitlab/parser.go:258-262 | The same over positions in the stage list. |
| `EndToEnd.BarriersHoldIffNoEmptyDependency` | internal/gitlab/parser.go:258-262 | Over all outcomes and reachable states of a GitLab document with distinct names, that holds exactly when no job depends on one named "". |
| `EndToEnd.StageIsBaseLevel` | internal/githubactions/parser.go:185-196 | Every GitHub job comes from exactly one base job, and its stage shows that job's level in the graph of the kept base jobs that have combinations, so all combinations of a matrix share a stage. |

## Left out

- YAML decoding, file reading, git, flags, `check` and `plan` output: the model starts from decoded entries, base jobs, references and git facts.
- The bodies of jobs (image, environment, services' images, commands): carried along as one opaque `body`; the helpers that build them are not modelled.
- Docker API calls, image pulls, exec streaming and the shell: an oracle says for each call whether it succeeds, and the shell can only consume input.
- `context` cancellation, panics and wall-clock time.
- Logging and prompts, and the text of errors and skip reasons: a generated reason is kept as the structure its text is built from, an error as a constructor with its names.
- `Scheduler.After`: closing `done` and `wg.Done` are one step, since nothing can tell them apart; `mu` appears as the atomicity of single reads and writes.
- `Run.Run`: `NeverReturns` stands for `wg.Wait` blocking, which Go reports as a deadlock or simply hangs on.
- `Debugger.Decide`: the lower-case mapping covers the characters that can yield ASCII letters, as no other answer is compared.
- `GitHub.ParseInDir`: starts from what `parseJob` yields per base job; the step, image and findings parsing inside it is not modelled beyond the names of its combinations.
- `GitLabFile.ParseFile`: the stage and `extends:` are computed from the entry's fields; what lines 168-226 compute for image, script and services is a function of those fields.
- `CircleCI.Parse`: starts from the parsed jobs and the reference lists of the workflows; the `build` fallback of a file without workflows is such a list.
- `Extends.MergeExtends`: GitLab's own precedence among several parents, which the code does not follow.
- Findings of the parsers other than those of expressions and `extends:`.
