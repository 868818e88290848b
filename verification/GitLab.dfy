/** The GitLab front end: which entries become jobs, and stage order as dependencies. */
module GitLab {
  import opened Graph
  import opened Pipeline
  import opened Seqs
  import opened Strings
  import Skips

  // ---------------------------------------------------------- stage barriers

  /** Position of a stage; of a repeated one the last, and 0 for an undeclared one, as the
      map lookup gives. */
  function StageIndex(stages: seq<string>, stage: string): nat {
    if |stages| == 0 then 0
    else if stages[|stages| - 1] == stage then |stages| - 1
    else StageIndex(stages[..|stages| - 1], stage)
  }

  function IndexOf(stages: seq<string>, j: Job): nat {
    StageIndex(stages, j.stage)
  }

  function NamesAt(stages: seq<string>, jobs: seq<Job>, idx: nat): seq<string> {
    if |jobs| == 0 then []
    else NamesAt(stages, jobs[..|jobs| - 1], idx)
         + (if IndexOf(stages, jobs[|jobs| - 1]) == idx then [jobs[|jobs| - 1].name] else [])
  }

  /** The jobs of the nearest non-empty stage before `idx`, if there is one. */
  function Barrier(stages: seq<string>, jobs: seq<Job>, idx: nat): Option<seq<string>> {
    if idx == 0 then None
    else if NamesAt(stages, jobs, idx - 1) != [] then Some(NamesAt(stages, jobs, idx - 1))
    else Barrier(stages, jobs, idx - 1)
  }

  function WithBarrier(stages: seq<string>, jobs: seq<Job>, j: Job): Job {
    match Barrier(stages, jobs, IndexOf(stages, j))
    case Some(names) => j.(dependsOn := names)
    case None => j
  }

  /** Every job with its barrier as dependencies. */
  function Assigned(stages: seq<string>, jobs: seq<Job>): (r: seq<Job>)
    ensures |r| == |jobs| && forall i :: 0 <= i < |jobs| ==> r[i] == WithBarrier(stages, jobs, jobs[i])
  {
    seq(|jobs|, i requires 0 <= i < |jobs| => WithBarrier(stages, jobs, jobs[i]))
  }

  /** The names the map under construction holds for a stage index. */
  function Lookup(m: map<nat, seq<string>>, idx: nat): seq<string> {
    if idx in m then m[idx] else []
  }

  method IndexStages(stages: seq<string>) returns (stageIndex: map<string, nat>)
    ensures forall s :: StageIndex(stages, s) == if s in stageIndex then stageIndex[s] else 0
  {
    stageIndex := map[];
    for i := 0 to |stages|
      invariant forall s :: StageIndex(stages[..i], s) == if s in stageIndex then stageIndex[s] else 0
    {
      PrefixNext(stages, i);
      stageIndex := stageIndex[stages[i] := i];
    }
    WholePrefix(stages);
  }

  method GroupByStage(stages: seq<string>, stageIndex: map<string, nat>, jobs: seq<Job>)
    returns (byStage: map<nat, seq<string>>)
    requires forall s :: StageIndex(stages, s) == if s in stageIndex then stageIndex[s] else 0
    ensures forall idx: nat :: Lookup(byStage, idx) == NamesAt(stages, jobs, idx)
  {
    hide NamesAt, StageIndex;
    byStage := map[];
    NobodyAt(stages);
    for i := 0 to |jobs|
      invariant forall idx: nat :: Lookup(byStage, idx) == NamesAt(stages, jobs[..i], idx)
    {
      var idx := if jobs[i].stage in stageIndex then stageIndex[jobs[i].stage] else 0;
      NamesAtNext(stages, jobs, i);
      assert IndexOf(stages, jobs[i]) == idx;
      var more := byStage[idx := Lookup(byStage, idx) + [jobs[i].name]];
      forall k: nat ensures Lookup(more, k) == NamesAt(stages, jobs[..i + 1], k) {
        assert Lookup(byStage, k) == NamesAt(stages, jobs[..i], k);
      }
      byStage := more;
    }
    WholePrefix(jobs);
  }

  lemma NobodyAt(stages: seq<string>)
    ensures forall idx :: NamesAt(stages, [], idx) == []
  {
  }

  lemma NamesAtNext(stages: seq<string>, jobs: seq<Job>, i: nat)
    requires i < |jobs|
    ensures forall idx :: NamesAt(stages, jobs[..i + 1], idx)
              == if IndexOf(stages, jobs[i]) == idx then NamesAt(stages, jobs[..i], idx) + [jobs[i].name]
                 else NamesAt(stages, jobs[..i], idx)
  {
    PrefixNext(jobs, i);
  }

  /** Fills in the dependencies in place. */
  method AssignDependsOn(stages: seq<string>, jobs: array<Job>)
    modifies jobs
    ensures jobs[..] == Assigned(stages, old(jobs[..]))
  {
    hide StageIndex, NamesAt;
    ghost var before := jobs[..];
    var stageIndex := IndexStages(stages);
    var byStage := GroupByStage(stages, stageIndex, jobs[..]);
    for i := 0 to jobs.Length
      invariant forall k :: 0 <= k < i ==> jobs[k] == WithBarrier(stages, before, before[k])
      invariant forall k :: i <= k < jobs.Length ==> jobs[k] == before[k]
    {
      var idx := if jobs[i].stage in stageIndex then stageIndex[jobs[i].stage] else 0;
      var prev := idx;
      while prev > 0 && Lookup(byStage, prev - 1) == []
        invariant prev <= idx && Barrier(stages, before, prev) == Barrier(stages, before, idx)
      {
        prev := prev - 1;
      }
      if prev > 0 {
        jobs[i] := jobs[i].(dependsOn := byStage[prev - 1]);
      }
    }
  }

  // -------------------------------------------- what the barriers amount to

  lemma {:induction false} NamesAtMembers(stages: seq<string>, jobs: seq<Job>, idx: nat, x: string)
    ensures x in NamesAt(stages, jobs, idx) <==> exists j :: j in jobs && j.name == x && IndexOf(stages, j) == idx
  {
    if |jobs| > 0 {
      var n := |jobs| - 1;
      NamesAtMembers(stages, jobs[..n], idx, x);
      assert jobs == jobs[..n] + [jobs[n]];
    }
  }

  lemma {:induction false} BarrierIsNearest(stages: seq<string>, jobs: seq<Job>, idx: nat) returns (prev: nat)
    requires Barrier(stages, jobs, idx).Some?
    ensures prev < idx && Barrier(stages, jobs, idx) == Some(NamesAt(stages, jobs, prev))
            && NamesAt(stages, jobs, prev) != []
    ensures forall k :: prev < k < idx ==> NamesAt(stages, jobs, k) == []
  {
    hide NamesAt;
    if NamesAt(stages, jobs, idx - 1) != [] {
      prev := idx - 1;
    } else {
      prev := BarrierIsNearest(stages, jobs, idx - 1);
    }
  }

  lemma {:induction false} NoBarrierMeansFirst(stages: seq<string>, jobs: seq<Job>, idx: nat, k: nat)
    requires Barrier(stages, jobs, idx) == None && k < idx
    ensures NamesAt(stages, jobs, k) == []
  {
    hide NamesAt;
    if k < idx - 1 { NoBarrierMeansFirst(stages, jobs, idx - 1, k); }
  }

  /** Jobs of one name share one stage. */
  ghost predicate NamesFixStage(stages: seq<string>, jobs: seq<Job>) {
    forall i, j :: i in jobs && j in jobs && i.name == j.name ==> IndexOf(stages, i) == IndexOf(stages, j)
  }

  /** Jobs as the parser hands them to `assignDependsOn`: without dependencies. */
  ghost predicate Unassigned(jobs: seq<Job>) {
    forall j :: j in jobs ==> j.dependsOn == []
  }

  ghost predicate IsFullBarrier(stages: seq<string>, jobs: seq<Job>) {
    forall a, b :: a in jobs && b in jobs ==>
      (Reaches(NodesOf(Assigned(stages, jobs)), a.name, b.name) <==> IndexOf(stages, b) < IndexOf(stages, a))
  }

  /** A job's edges are exactly its stage's barrier. */
  lemma AssignedEdge(stages: seq<string>, jobs: seq<Job>, x: string, y: string)
    requires Unassigned(jobs)
    ensures Edge(NodesOf(Assigned(stages, jobs)), x, y) <==>
              exists j :: j in jobs && j.name == x && OfBarrier(stages, jobs, j, y)
  {
    var nodes := NodesOf(Assigned(stages, jobs));
    if Edge(nodes, x, y) {
      var n :| n in nodes && n.name == x && y in n.depends;
      var i :| 0 <= i < |nodes| && nodes[i] == n;
      assert jobs[i] in jobs && jobs[i].name == x && OfBarrier(stages, jobs, jobs[i], y);
    }
    if j :| j in jobs && j.name == x && OfBarrier(stages, jobs, j, y) {
      var i :| 0 <= i < |jobs| && jobs[i] == j;
      assert nodes[i] in nodes && nodes[i].name == x && y in nodes[i].depends;
    }
  }

  ghost predicate OfBarrier(stages: seq<string>, jobs: seq<Job>, j: Job, y: string) {
    var b := Barrier(stages, jobs, IndexOf(stages, j));
    b.Some? && y in b.value
  }

  lemma EdgeGoesDown(stages: seq<string>, jobs: seq<Job>, a: Job, y: string) returns (b: Job)
    requires Unassigned(jobs) && NamesFixStage(stages, jobs) && a in jobs
    requires Edge(NodesOf(Assigned(stages, jobs)), a.name, y)
    ensures b in jobs && b.name == y && IndexOf(stages, b) < IndexOf(stages, a)
  {
    AssignedEdge(stages, jobs, a.name, y);
    var j :| j in jobs && j.name == a.name && OfBarrier(stages, jobs, j, y);
    var prev := BarrierIsNearest(stages, jobs, IndexOf(stages, j));
    NamesAtMembers(stages, jobs, prev, y);
    b :| b in jobs && b.name == y && IndexOf(stages, b) == prev;
  }

  lemma {:induction false} ReachesGoesDown(stages: seq<string>, jobs: seq<Job>, a: Job, b: Job)
    requires Unassigned(jobs) && NamesFixStage(stages, jobs) && a in jobs && b in jobs
    requires Reaches(NodesOf(Assigned(stages, jobs)), a.name, b.name)
    ensures IndexOf(stages, b) < IndexOf(stages, a)
    decreases IndexOf(stages, a)
  {
    var nodes := NodesOf(Assigned(stages, jobs));
    var y := FirstEdge(nodes, a.name, b.name);
    var c := EdgeGoesDown(stages, jobs, a, y);
    if y != b.name { ReachesGoesDown(stages, jobs, c, b); }
  }

  lemma {:induction false} DownIsReached(stages: seq<string>, jobs: seq<Job>, a: Job, b: Job)
    requires Unassigned(jobs) && a in jobs && b in jobs && IndexOf(stages, b) < IndexOf(stages, a)
    ensures Reaches(NodesOf(Assigned(stages, jobs)), a.name, b.name)
    decreases IndexOf(stages, a)
  {
    var nodes := NodesOf(Assigned(stages, jobs));
    var ia, ib := IndexOf(stages, a), IndexOf(stages, b);
    NamesAtMembers(stages, jobs, ib, b.name);
    if Barrier(stages, jobs, ia) == None { NoBarrierMeansFirst(stages, jobs, ia, ib); }
    var prev := BarrierIsNearest(stages, jobs, ia);
    var y := NamesAt(stages, jobs, prev)[0];
    NamesAtMembers(stages, jobs, prev, y);
    var c :| c in jobs && c.name == y && IndexOf(stages, c) == prev;
    if prev == ib {
      assert OfBarrier(stages, jobs, a, b.name);
      AssignedEdge(stages, jobs, a.name, b.name);
      EdgeReaches(nodes, a.name, b.name);
    } else {
      assert OfBarrier(stages, jobs, a, y);
      AssignedEdge(stages, jobs, a.name, y);
      DownIsReached(stages, jobs, c, b);
      EdgeThenReaches(nodes, a.name, y, b.name);
    }
  }

  /** The nearest-stage edges encode the full stage barrier -- a job waits for another,
      directly or not, exactly when that one's stage comes strictly first -- for every stage
      list and placement of jobs, precisely when no name is used in two stages. */
  lemma BarrierIffNamesFixStage(stages: seq<string>, jobs: seq<Job>)
    requires Unassigned(jobs)
    ensures IsFullBarrier(stages, jobs) <==> NamesFixStage(stages, jobs)
  {
    if NamesFixStage(stages, jobs) {
      forall a, b | a in jobs && b in jobs
        ensures Reaches(NodesOf(Assigned(stages, jobs)), a.name, b.name) <==> IndexOf(stages, b) < IndexOf(stages, a)
      {
        if Reaches(NodesOf(Assigned(stages, jobs)), a.name, b.name) { ReachesGoesDown(stages, jobs, a, b); }
        if IndexOf(stages, b) < IndexOf(stages, a) { DownIsReached(stages, jobs, a, b); }
      }
    }
  }

  lemma JobIsNode(stages: seq<string>, jobs: seq<Job>, j: Job)
    requires j in jobs
    ensures j.name in Names(NodesOf(Assigned(stages, jobs)))
  {
    var nodes := NodesOf(Assigned(stages, jobs));
    var k :| 0 <= k < |jobs| && jobs[k] == j;
    assert nodes[k] in nodes && nodes[k].name == j.name;
  }

  /** The assigned dependencies are jobs of the pipeline and never form a cycle, as long as
      no name is used in two stages. */
  lemma AssignedIsSound(stages: seq<string>, jobs: seq<Job>)
    requires Unassigned(jobs) && NamesFixStage(stages, jobs)
    ensures Closed(NodesOf(Assigned(stages, jobs))) && Acyclic(NodesOf(Assigned(stages, jobs)))
  {
    hide NamesFixStage;
    var nodes := NodesOf(Assigned(stages, jobs));
    forall n, d | n in nodes && d in n.depends ensures d in Names(nodes) {
      var i :| 0 <= i < |nodes| && nodes[i] == n;
      assert Edge(nodes, n.name, d);
      var b := EdgeGoesDown(stages, jobs, jobs[i], d);
      JobIsNode(stages, jobs, b);
    }
    forall x ensures !Reaches(nodes, x, x) {
      if Reaches(nodes, x, x) {
        var y := FirstEdge(nodes, x, x);
        var n :| n in nodes && n.name == x && y in n.depends;
        var i :| 0 <= i < |nodes| && nodes[i] == n;
        ReachesGoesDown(stages, jobs, jobs[i], jobs[i]);
      }
    }
  }

  // ------------------------------------------------------------------- Parse

  /** A decoded top-level entry after `extends:` and the defaults are applied.  `services`
      is the complaint about its services, if any. */
  datatype Entry = Entry(name: string, isMapping: bool, stage: string, image: string, hasScript: bool,
                         services: Option<string>, body: string)

  datatype Parsed = Ok(p: Pipeline) | NoRunnableJobs

  /** What one entry turns into. */
  datatype Fate = Ignored | SkippedBecause(reason: Skips.Reason) | Becomes(job: Job)

  predicate IsReservedKey(key: string) {
    key in {"stages", "variables", "default", "workflow", "include",
            "image", "before_script", "after_script", "cache", "services"}
  }

  predicate IsHidden(key: string) {
    |key| > 0 && key[0] == '.'
  }

  function FateOf(stages: seq<string>, e: Entry): Fate {
    if IsReservedKey(e.name) || IsHidden(e.name) || !e.isMapping then Ignored
    else if e.stage !in stages then SkippedBecause(Skips.Given("stage \"" + e.stage + "\" is not declared in stages"))
    else if e.image == "" then
      SkippedBecause(Skips.Given("no image specified (set image:, default.image, or top-level image:)"))
    else if !e.hasScript then SkippedBecause(Skips.Given("script is required and must not be empty"))
    else if e.services.Some? then SkippedBecause(Skips.Given("services: " + e.services.value))
    else Becomes(Job(e.name, e.stage, e.body, []))
  }

  function JobsOf(stages: seq<string>, entries: seq<Entry>): seq<Job> {
    if |entries| == 0 then []
    else
      var f := FateOf(stages, entries[|entries| - 1]);
      JobsOf(stages, entries[..|entries| - 1]) + (if f.Becomes? then [f.job] else [])
  }

  function SkippedOf(stages: seq<string>, entries: seq<Entry>): seq<SkippedJob> {
    if |entries| == 0 then []
    else
      var e := entries[|entries| - 1];
      var f := FateOf(stages, e);
      SkippedOf(stages, entries[..|entries| - 1]) + (if f.SkippedBecause? then [SkippedJob(e.name, f.reason)] else [])
  }

  method Parse(stages: seq<string>, entries: seq<Entry>) returns (r: Parsed)
    ensures r.NoRunnableJobs? <==> forall e :: e in entries ==> FateOf(stages, e) == Ignored
    ensures r.Ok? ==> r.p.stages == stages && r.p.jobs == Assigned(stages, JobsOf(stages, entries))
                      && r.p.skipped == SkippedOf(stages, entries)
    ensures r.Ok? && (OneStageEach(entries) || Distinct(NodesOf(r.p.jobs))) ==>
              Closed(NodesOf(r.p.jobs)) && Acyclic(NodesOf(r.p.jobs)) && IsFullBarrier(stages, JobsOf(stages, entries))
  {
    var jobs: seq<Job> := [];
    var skipped: seq<SkippedJob> := [];
    for i := 0 to |entries|
      invariant jobs == JobsOf(stages, entries[..i]) && skipped == SkippedOf(stages, entries[..i])
    {
      PrefixNext(entries, i);
      match FateOf(stages, entries[i])
      case Ignored =>
      case SkippedBecause(reason) => skipped := skipped + [SkippedJob(entries[i].name, reason)];
      case Becomes(job) => jobs := jobs + [job];
    }
    WholePrefix(entries);
    NothingFound(stages, entries);
    if |jobs| == 0 && |skipped| == 0 { return NoRunnableJobs; }
    ParsedIsSound(stages, entries);
    var inPlace := new Job[|jobs|](i requires 0 <= i < |jobs| => jobs[i]);
    assert inPlace[..] == jobs;
    AssignDependsOn(stages, inPlace);
    return Ok(Pipeline(stages, inPlace[..], skipped));
  }

  lemma {:induction false} NothingFound(stages: seq<string>, entries: seq<Entry>)
    ensures JobsOf(stages, entries) == [] && SkippedOf(stages, entries) == [] <==>
              forall e :: e in entries ==> FateOf(stages, e) == Ignored
  {
    if |entries| > 0 {
      var n := |entries| - 1;
      NothingFound(stages, entries[..n]);
      assert entries == entries[..n] + [entries[n]];
    }
  }

  lemma {:induction false} JobsOfMembers(stages: seq<string>, entries: seq<Entry>)
    ensures Unassigned(JobsOf(stages, entries))
    ensures forall j :: j in JobsOf(stages, entries) ==>
              exists e :: e in entries && e.isMapping && e.name == j.name && e.stage == j.stage
  {
    if |entries| > 0 {
      var n := |entries| - 1;
      JobsOfMembers(stages, entries[..n]);
      assert entries == entries[..n] + [entries[n]];
    }
  }

  /** Mappings of one name name one stage. */
  ghost predicate OneStageEach(entries: seq<Entry>) {
    forall e, f :: e in entries && f in entries && e.isMapping && f.isMapping && e.name == f.name ==> e.stage == f.stage
  }

  /** Then, even with repeated names, the parsed jobs depend on each other without a cycle and
      carry the full stage barrier; and so they do whenever their names are distinct. */
  lemma ParsedIsSound(stages: seq<string>, entries: seq<Entry>)
    ensures var jobs := JobsOf(stages, entries);
            var nodes := NodesOf(Assigned(stages, jobs));
            OneStageEach(entries) || Distinct(nodes) ==> Closed(nodes) && Acyclic(nodes) && IsFullBarrier(stages, jobs)
  {
    var jobs := JobsOf(stages, entries);
    var nodes := NodesOf(Assigned(stages, jobs));
    hide Closed, Acyclic, IsFullBarrier, NamesFixStage, OneStageEach, JobsOf, Distinct;
    JobsOfMembers(stages, entries);
    if OneStageEach(entries) || Distinct(nodes) {
      if Distinct(nodes) { DistinctFixesStage(stages, jobs); } else { OneStageFixesStage(stages, entries); }
      AssignedIsSound(stages, jobs);
      BarrierIffNamesFixStage(stages, jobs);
    }
  }

  lemma OneStageFixesStage(stages: seq<string>, entries: seq<Entry>)
    requires OneStageEach(entries)
    ensures NamesFixStage(stages, JobsOf(stages, entries))
  {
    hide JobsOf, StageIndex;
    JobsOfMembers(stages, entries);
    forall a, b | a in JobsOf(stages, entries) && b in JobsOf(stages, entries) && a.name == b.name
      ensures a.stage == b.stage
    {
      var e :| e in entries && e.isMapping && e.name == a.name && e.stage == a.stage;
      var f :| f in entries && f.isMapping && f.name == b.name && f.stage == b.stage;
    }
  }

  lemma SameNameSameNode(nodes: seq<Node>, i: nat, k: nat)
    requires Distinct(nodes) && i < |nodes| && k < |nodes| && nodes[i].name == nodes[k].name
    ensures i == k
  {
  }

  lemma DistinctFixesStage(stages: seq<string>, jobs: seq<Job>)
    requires Distinct(NodesOf(Assigned(stages, jobs)))
    ensures NamesFixStage(stages, jobs)
  {
    hide Distinct, IndexOf;
    var nodes := NodesOf(Assigned(stages, jobs));
    forall a, b | a in jobs && b in jobs && a.name == b.name ensures a == b {
      var i :| 0 <= i < |jobs| && jobs[i] == a;
      var k :| 0 <= k < |jobs| && jobs[k] == b;
      SameNameSameNode(nodes, i, k);
    }
  }

  // ------------------------------------------------------ over the stage list

  /** `i` is the position of the stage in the list, the last one if it is repeated. */
  ghost predicate LastAt(stages: seq<string>, stage: string, i: nat) {
    i < |stages| && stages[i] == stage && forall k :: i < k < |stages| ==> stages[k] != stage
  }

  lemma {:induction false} StageIndexIsPosition(stages: seq<string>, stage: string, i: nat)
    requires LastAt(stages, stage, i)
    ensures StageIndex(stages, stage) == i
  {
    if i < |stages| - 1 { StageIndexIsPosition(stages[..|stages| - 1], stage, i); }
  }

  lemma {:induction false} UndeclaredIsFirst(stages: seq<string>, stage: string)
    requires stage !in stages
    ensures StageIndex(stages, stage) == 0
  {
    if |stages| > 0 {
      assert forall s :: s in stages[..|stages| - 1] ==> s in stages;
      UndeclaredIsFirst(stages[..|stages| - 1], stage);
    }
  }

  /** The barrier over positions in the stage list: a job waits for another, directly or not,
      exactly when that one's stage comes earlier in the list. */
  ghost predicate IsBarrierOver(stages: seq<string>, jobs: seq<Job>, nodes: seq<Node>) {
    forall a, b, i: nat,
           k: nat {:trigger LastAt(stages, a.stage, i), LastAt(stages, b.stage, k), a in jobs, b in jobs} ::
      a in jobs && b in jobs && LastAt(stages, a.stage, i) && LastAt(stages, b.stage, k) ==>
        (Reaches(nodes, a.name, b.name) <==> k < i)
  }

  lemma FullBarrierOverList(stages: seq<string>, jobs: seq<Job>)
    requires IsFullBarrier(stages, jobs)
    ensures IsBarrierOver(stages, jobs, NodesOf(Assigned(stages, jobs)))
  {
    hide StageIndex, Assigned, NodesOf, Reaches, LastAt;
    var nodes := NodesOf(Assigned(stages, jobs));
    forall a, b, i: nat, k: nat | a in jobs && b in jobs && LastAt(stages, a.stage, i) && LastAt(stages, b.stage, k)
      ensures Reaches(nodes, a.name, b.name) <==> k < i
    {
      StageIndexIsPosition(stages, a.stage, i);
      StageIndexIsPosition(stages, b.stage, k);
    }
  }

  function OnStage(stages: seq<string>, idx: nat): Job -> Option<string> {
    (j: Job) => if StageIndex(stages, j.stage) == idx then Some(j.name) else None
  }

  /** A barrier lists its stage's jobs in file order, the order in which they are awaited. */
  lemma {:induction false} BarrierInOrder(stages: seq<string>, jobs: seq<Job>, idx: nat)
    ensures Selected(jobs, OnStage(stages, idx), NamesAt(stages, jobs, idx))
  {
    if |jobs| == 0 {
      SelectedNone<Job, string>(OnStage(stages, idx));
    } else {
      BarrierInOrder(stages, jobs[..|jobs| - 1], idx);
      SelectedLast(jobs, OnStage(stages, idx), NamesAt(stages, jobs[..|jobs| - 1], idx));
    }
  }

  // ------------------------------------------------------- what an entry becomes

  const RESERVED := ["stages", "variables", "default", "workflow", "include",
                     "image", "before_script", "after_script", "cache", "services"]

  /** The four things that keep a visible mapping from becoming a job, checked in this order. */
  lemma EntryFate(stages: seq<string>, e: Entry)
    ensures FateOf(stages, e) == Ignored <==>
              e.name in RESERVED || (exists rest :: e.name == "." + rest) || !e.isMapping
    ensures FateOf(stages, e).Becomes? <==>
              FateOf(stages, e) != Ignored && e.stage in stages && e.image != "" && e.hasScript && e.services == None
    ensures FateOf(stages, e).Becomes? ==>
              var j := FateOf(stages, e).job;
              j.name == e.name && j.stage == e.stage && j.body == e.body && j.dependsOn == []
    ensures FateOf(stages, e).SkippedBecause? ==>
              var text := FateOf(stages, e).reason;
              if e.stage !in stages then text == Skips.Given("stage \"" + e.stage + "\" is not declared in stages")
              else if e.image == "" then
                text == Skips.Given("no image specified (set image:, default.image, or top-level image:)")
              else if !e.hasScript then text == Skips.Given("script is required and must not be empty")
              else e.services.Some? && text == Skips.Given("services: " + e.services.value)
  {
    assert IsReservedKey(e.name) <==> e.name in RESERVED;
    if IsHidden(e.name) { assert e.name == "." + e.name[1..]; }
  }

  function JobFrom(stages: seq<string>): Entry -> Option<Job> {
    (e: Entry) => if FateOf(stages, e).Becomes? then Some(FateOf(stages, e).job) else None
  }

  function SkipFrom(stages: seq<string>): Entry -> Option<SkippedJob> {
    (e: Entry) =>
      if FateOf(stages, e).SkippedBecause? then Some(SkippedJob(e.name, FateOf(stages, e).reason)) else None
  }

  /** Jobs and skipped jobs are listed in file order. */
  lemma {:induction false} EntriesInOrder(stages: seq<string>, entries: seq<Entry>)
    ensures Selected(entries, JobFrom(stages), JobsOf(stages, entries))
    ensures Selected(entries, SkipFrom(stages), SkippedOf(stages, entries))
  {
    hide FateOf;
    if |entries| == 0 {
      SelectedNone<Entry, Job>(JobFrom(stages));
      SelectedNone<Entry, SkippedJob>(SkipFrom(stages));
    } else {
      var init := entries[..|entries| - 1];
      EntriesInOrder(stages, init);
      SelectedLast(entries, JobFrom(stages), JobsOf(stages, init));
      SelectedLast(entries, SkipFrom(stages), SkippedOf(stages, init));
    }
  }
}
