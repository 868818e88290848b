/** The CircleCI front end: every workflow is filtered, levelled and laid out on its own, and
    the pipeline is their concatenation. */
module CircleCI {
  import opened Graph
  import opened Pipeline
  import opened Seqs
  import opened Strings
  import L = Levels
  import T = LevelTheorems
  import S = Skips

  /** One entry of a workflow's job list. */
  datatype Ref = Ref(name: string, needs: seq<string>)

  /** The `jobs:` section: bodies of the jobs that parsed, reasons for those that did not. */
  datatype Config = Config(defs: map<string, string>, bad: map<string, string>)

  datatype Result =
    | Ok(p: Pipeline)
    | NotLevelled(workflow: string, error: L.LevelsError)
    | InternalError
    | NoRunnableJobs

  // ----------------------------------------------------------- specification

  function RefNodes(refs: seq<Ref>): (r: seq<Node>)
    ensures |r| == |refs| && forall i :: 0 <= i < |refs| ==> r[i] == Node(refs[i].name, refs[i].needs)
  {
    seq(|refs|, i requires 0 <= i < |refs| => Node(refs[i].name, refs[i].needs))
  }

  const NOT_DEFINED := "not defined under jobs: (orb-provided jobs and top-level commands: aren't supported)"

  function ReasonFor(c: Config, name: string): S.Reason {
    S.Given(if name in c.bad then c.bad[name] else NOT_DEFINED)
  }

  /** The references without a definition, and why each cannot run. */
  function InitialSkips(c: Config, refs: seq<Ref>): map<string, S.Reason> {
    map r | r in refs && r.name !in c.defs :: r.name := ReasonFor(c, r.name)
  }

  /** Everything skipped in a workflow. */
  ghost function SkippedIn(c: Config, refs: seq<Ref>): set<string> {
    S.SkipSet(RefNodes(refs), InitialSkips(c, refs).Keys)
  }

  ghost function KeptIn(c: Config, refs: seq<Ref>): seq<Node> {
    S.Keep(RefNodes(refs), SkippedIn(c, refs))
  }

  ghost predicate IsJobAt(c: Config, workflow: string, kept: seq<Node>, name: string, j: Job)
    requires Acyclic(kept)
  {
    j.name == name && name in L.LevelMap(kept) && name in c.defs
    && j.stage == LevelStage(workflow + "/", L.LevelMap(kept)[name])
    && j.body == c.defs[name] && j.dependsOn == DependsOf(kept, name)
  }

  ghost predicate JobsFor(c: Config, workflow: string, kept: seq<Node>, order: seq<string>, jobs: seq<Job>)
    requires Acyclic(kept)
  {
    |jobs| == |order| && forall i :: 0 <= i < |jobs| ==> IsJobAt(c, workflow, kept, order[i], jobs[i])
  }

  /** The jobs one workflow contributes: its kept jobs in level order. */
  ghost predicate IsPart(c: Config, workflow: string, refs: seq<Ref>, jobs: seq<Job>) {
    Valid(KeptIn(c, refs)) && JobsFor(c, workflow, KeptIn(c, refs), L.LevelOrder(KeptIn(c, refs)), jobs)
  }

  // ----------------------------------------------------------------- the code

  /** `needs` was recorded for a reference of that name. */
  ghost predicate Recorded(refs: seq<Ref>, needsByName: map<string, seq<string>>) {
    (forall r :: r in refs ==> r.name in needsByName)
    && forall a :: a in needsByName ==> Ref(a, needsByName[a]) in refs
  }

  /** The three maps and lists a workflow's references fill. */
  method Describe(c: Config, refs: seq<Ref>)
    returns (nodes: seq<Node>, skips: map<string, S.Reason>, needsByName: map<string, seq<string>>)
    ensures nodes == RefNodes(refs) && skips == InitialSkips(c, refs) && Recorded(refs, needsByName)
  {
    hide InitialSkips, Recorded, ReasonFor;
    nodes, skips, needsByName := [], map[], map[];
    NothingDescribed(c);
    for i := 0 to |refs|
      invariant nodes == RefNodes(refs)[..i]
      invariant skips == InitialSkips(c, refs[..i]) && Recorded(refs[..i], needsByName)
    {
      var r := refs[i];
      DescribeNext(c, refs, i, needsByName);
      nodes := nodes + [Node(r.name, r.needs)];
      needsByName := needsByName[r.name := r.needs];
      if r.name !in c.defs {
        skips := skips[r.name := ReasonFor(c, r.name)];
      }
    }
    WholePrefix(refs);
    WholePrefix(RefNodes(refs));
  }

  lemma NothingDescribed(c: Config)
    ensures InitialSkips(c, []) == map[] && Recorded([], map[])
  {
  }

  lemma SkipKeys(c: Config, refs: seq<Ref>, a: string)
    ensures a in InitialSkips(c, refs) <==> a !in c.defs && exists r :: r in refs && r.name == a
    ensures a in InitialSkips(c, refs) ==> InitialSkips(c, refs)[a] == ReasonFor(c, a)
  {
  }

  lemma RecordedNext(refs: seq<Ref>, r: Ref, needsByName: map<string, seq<string>>)
    requires Recorded(refs, needsByName)
    ensures Recorded(refs + [r], needsByName[r.name := r.needs])
  {
    assert r == Ref(r.name, r.needs) && r in refs + [r];
  }

  lemma SkipsNext(c: Config, refs: seq<Ref>, r: Ref)
    ensures InitialSkips(c, refs + [r])
         == if r.name in c.defs then InitialSkips(c, refs) else InitialSkips(c, refs)[r.name := ReasonFor(c, r.name)]
  {
    var m := if r.name in c.defs then InitialSkips(c, refs) else InitialSkips(c, refs)[r.name := ReasonFor(c, r.name)];
    var n := InitialSkips(c, refs + [r]);
    hide InitialSkips;
    forall a ensures a in n <==> a in m {
      SkipKeys(c, refs, a);
      SkipKeys(c, refs + [r], a);
      if a == r.name { assert r in refs + [r]; }
    }
    forall a | a in n ensures n[a] == m[a] {
      SkipKeys(c, refs, a);
      SkipKeys(c, refs + [r], a);
    }
  }

  lemma DescribeNext(c: Config, refs: seq<Ref>, i: nat, needsByName: map<string, seq<string>>)
    requires i < |refs| && Recorded(refs[..i], needsByName)
    ensures Recorded(refs[..i + 1], needsByName[refs[i].name := refs[i].needs])
    ensures InitialSkips(c, refs[..i + 1])
         == if refs[i].name in c.defs then InitialSkips(c, refs[..i])
            else InitialSkips(c, refs[..i])[refs[i].name := ReasonFor(c, refs[i].name)]
  {
    hide InitialSkips, Recorded;
    PrefixNext(refs, i);
    RecordedNext(refs[..i], refs[i], needsByName);
    SkipsNext(c, refs[..i], refs[i]);
  }

  lemma NeedsAreDepends(c: Config, refs: seq<Ref>, needsByName: map<string, seq<string>>, name: string)
    requires Recorded(refs, needsByName) && Distinct(KeptIn(c, refs)) && name in Names(KeptIn(c, refs))
    ensures name in needsByName && needsByName[name] == DependsOf(KeptIn(c, refs), name)
    ensures name in c.defs
  {
    var nodes, kept := RefNodes(refs), KeptIn(c, refs);
    T.KeepElements(nodes, SkippedIn(c, refs));
    var k :| k in kept && k.name == name;
    var i :| 0 <= i < |nodes| && nodes[i] == k;
    assert refs[i] in refs && refs[i].name == name;
    S.SkipSetIsLeastFixpoint(nodes, InitialSkips(c, refs).Keys);
    var r := Ref(name, needsByName[name]);
    var j :| 0 <= j < |refs| && refs[j] == r;
    assert nodes[j] in nodes && nodes[j] in kept;
    DependsOfNode(kept, nodes[j]);
  }

  /** One workflow: what is skipped, or its jobs and stages, or why it cannot be levelled. */
  method ParseWorkflow(c: Config, workflow: string, refs: seq<Ref>)
    returns (error: Option<Result>, stages: seq<string>, jobs: seq<Job>, reasons: map<string, S.Reason>)
    ensures error == None <==> Valid(KeptIn(c, refs))
    ensures error.Some? ==> error.value.NotLevelled? && error.value.workflow == workflow
                            && L.ErrorIsReal(KeptIn(c, refs), error.value.error)
    ensures error == None ==> IsPart(c, workflow, refs, jobs) && IsStages(workflow, KeptIn(c, refs), stages)
    ensures reasons.Keys == SkippedIn(c, refs)
    ensures forall a :: a in reasons ==> S.Unwinds(RefNodes(refs), InitialSkips(c, refs), a, reasons[a])
  {
    hide Valid, L.LevelMap, L.LevelOrder, L.ErrorIsReal, S.SkipSet, S.Unwinds, S.CascadeLog, S.Keep, IsJobAt,
         InitialSkips, RefNodes, IsTopLevel;
    var nodes, skips, needsByName := Describe(c, refs);
    var kept;
    ghost var log;
    kept, reasons, log := S.FilterSkipped(nodes, skips);
    var levels := L.Levels(kept);
    stages, jobs := [], [];
    if levels.Err? {
      return Some(NotLevelled(workflow, levels.error)), stages, jobs, reasons;
    }
    stages := StagesOf(workflow + "/", levels.levels);
    OrderIsKept(kept);
    for i := 0 to |levels.order|
      invariant |jobs| == i && forall k :: 0 <= k < i ==> IsJobAt(c, workflow, kept, levels.order[k], jobs[k])
    {
      var name := levels.order[i];
      assert name in Names(kept);
      NeedsAreDepends(c, refs, needsByName, name);
      if name !in c.defs {
        return Some(InternalError), stages, jobs, reasons;
      }
      jobs := jobs + [Job(name, LevelStage(workflow + "/", levels.levels[name]), c.defs[name], needsByName[name])];
      JobIsAt(c, workflow, kept, name, jobs[i]);
    }
    return None, stages, jobs, reasons;
  }

  lemma OrderIsKept(kept: seq<Node>)
    requires Valid(kept)
    ensures Acyclic(kept) && Distinct(kept)
    ensures forall i :: 0 <= i < |L.LevelOrder(kept)| ==> L.LevelOrder(kept)[i] in Names(kept)
    ensures forall a :: a in Names(kept) <==> a in L.LevelMap(kept)
  {
    T.DependenciesComeFirst(kept);
  }

  lemma JobIsAt(c: Config, workflow: string, kept: seq<Node>, name: string, j: Job)
    requires Acyclic(kept) && name in L.LevelMap(kept) && name in c.defs
    requires j == Job(name, LevelStage(workflow + "/", L.LevelMap(kept)[name]), c.defs[name], DependsOf(kept, name))
    ensures IsJobAt(c, workflow, kept, name, j)
  {
  }

  ghost predicate IsStages(workflow: string, kept: seq<Node>, stages: seq<string>) {
    Acyclic(kept) && exists top :: IsTopLevel(L.LevelMap(kept), top) && stages == LevelStages(workflow + "/", top)
  }

  // ------------------------------------------------------------ all workflows

  /** Every skipped name once, with the reason of the first workflow that skips it. */
  ghost predicate SkippedOnce(c: Config, all: seq<seq<Ref>>, skipped: seq<SkippedJob>) {
    (forall i, j :: 0 <= i < j < |skipped| ==> skipped[i].name != skipped[j].name)
    && (forall a :: IsListed(skipped, a) <==> exists k :: 0 <= k < |all| && SkippedRef(c, all[k], a))
    && forall i :: 0 <= i < |skipped| ==> ExplainedByFirst(c, all, skipped[i])
  }

  ghost predicate IsListed(skipped: seq<SkippedJob>, a: string) {
    exists i :: 0 <= i < |skipped| && skipped[i].name == a
  }

  ghost predicate SkippedRef(c: Config, refs: seq<Ref>, a: string) {
    a in SkippedIn(c, refs) && exists r :: r in refs && r.name == a
  }

  ghost predicate ExplainedByFirst(c: Config, all: seq<seq<Ref>>, s: SkippedJob) {
    exists k :: 0 <= k < |all| && SkippedRef(c, all[k], s.name)
      && S.Unwinds(RefNodes(all[k]), InitialSkips(c, all[k]), s.name, s.reason)
      && forall m :: 0 <= m < k ==> !SkippedRef(c, all[m], s.name)
  }

  /** The last loop of a workflow: its skipped references that no earlier one reported. */
  method ReportSkips(c: Config, refs: seq<Ref>, reasons: map<string, S.Reason>, seen: set<string>,
                     before: seq<SkippedJob>,
                     ghost all: seq<seq<Ref>>)
    returns (skipped: seq<SkippedJob>, seen': set<string>)
    requires SkippedOnce(c, all, before) && forall a :: a in seen <==> IsListed(before, a)
    requires reasons.Keys == SkippedIn(c, refs)
    requires forall a :: a in reasons ==> S.Unwinds(RefNodes(refs), InitialSkips(c, refs), a, reasons[a])
    ensures SkippedOnce(c, all + [refs], skipped) && forall a :: a in seen' <==> IsListed(skipped, a)
  {
    hide SkippedOnce, SkippedIn, S.Unwinds, RefNodes, InitialSkips, IsListed, Collected;
    skipped, seen' := before, seen;
    NothingCollected(c, refs, reasons, before, seen, all);
    for i := 0 to |refs|
      invariant forall a :: a in seen' <==> IsListed(skipped, a)
      invariant Collected(c, refs, reasons, seen, before, i, skipped)
    {
      var a := refs[i].name;
      if a in reasons && a !in seen' {
        CollectOne(c, refs, reasons, seen, before, i, skipped);
        ListedNext(skipped, SkippedJob(a, reasons[a]));
        seen' := seen' + {a};
        skipped := skipped + [SkippedJob(a, reasons[a])];
      } else {
        CollectNone(c, refs, reasons, seen, before, i, skipped);
      }
    }
    SkippedOnceNext(c, all, before, refs, reasons, seen, skipped);
  }

  /** The list while references `refs[..i]` have been looked at. */
  ghost predicate Collected(c: Config, refs: seq<Ref>, reasons: map<string, S.Reason>, seen: set<string>,
                            before: seq<SkippedJob>, i: nat, skipped: seq<SkippedJob>)
    requires i <= |refs|
  {
    (forall h, j :: 0 <= h < j < |skipped| ==> skipped[h].name != skipped[j].name)
    && |before| <= |skipped| && skipped[..|before|] == before
    && (forall h :: |before| <= h < |skipped| ==> FreshlySkipped(c, refs, reasons, seen, skipped[h]))
    && forall r :: r in refs[..i] && r.name in reasons ==> IsListed(skipped, r.name)
  }

  lemma NothingCollected(c: Config, refs: seq<Ref>, reasons: map<string, S.Reason>, before: seq<SkippedJob>,
                         seen: set<string>,
                         all: seq<seq<Ref>>)
    requires SkippedOnce(c, all, before)
    ensures Collected(c, refs, reasons, seen, before, 0, before)
  {
  }

  lemma CollectNone(c: Config, refs: seq<Ref>, reasons: map<string, S.Reason>, seen: set<string>,
                    before: seq<SkippedJob>, i: nat, skipped: seq<SkippedJob>)
    requires i < |refs| && Collected(c, refs, reasons, seen, before, i, skipped)
    requires refs[i].name in reasons ==> IsListed(skipped, refs[i].name)
    ensures Collected(c, refs, reasons, seen, before, i + 1, skipped)
  {
    PrefixNext(refs, i);
  }

  lemma CollectOne(c: Config, refs: seq<Ref>, reasons: map<string, S.Reason>, seen: set<string>,
                   before: seq<SkippedJob>, i: nat, skipped: seq<SkippedJob>)
    requires i < |refs| && Collected(c, refs, reasons, seen, before, i, skipped)
    requires refs[i].name in reasons && !IsListed(skipped, refs[i].name)
    requires reasons.Keys == SkippedIn(c, refs) && forall a :: a in seen <==> IsListed(before, a)
    ensures var more := skipped + [SkippedJob(refs[i].name, reasons[refs[i].name])];
            Collected(c, refs, reasons, seen, before, i + 1, more)
  {
    hide SkippedIn;
    var s := SkippedJob(refs[i].name, reasons[refs[i].name]);
    var more := skipped + [s];
    PrefixNext(refs, i);
    ListedNext(skipped, s);
    assert refs[i] in refs && SkippedRef(c, refs, s.name);
    forall h | 0 <= h < |skipped| ensures skipped[h].name != s.name { assert !IsListed(skipped, s.name); }
    assert forall h :: 0 <= h < |before| ==> skipped[h] == before[h];
    assert !IsListed(before, s.name);
    assert more[..|before|] == before;
  }

  ghost predicate FreshlySkipped(c: Config, refs: seq<Ref>, reasons: map<string, S.Reason>, seen: set<string>,
                                 s: SkippedJob) {
    s.name !in seen && s.name in reasons && s.reason == reasons[s.name] && SkippedRef(c, refs, s.name)
  }

  lemma ListedNext(skipped: seq<SkippedJob>, s: SkippedJob)
    ensures forall a :: IsListed(skipped + [s], a) <==> IsListed(skipped, a) || a == s.name
  {
    forall a ensures IsListed(skipped + [s], a) <==> IsListed(skipped, a) || a == s.name {
      if a == s.name { assert (skipped + [s])[|skipped|].name == a; }
      if i :| 0 <= i < |skipped| && skipped[i].name == a { assert (skipped + [s])[i].name == a; }
    }
  }

  lemma SkippedOnceNext(c: Config, all: seq<seq<Ref>>, before: seq<SkippedJob>, refs: seq<Ref>,
                        reasons: map<string, S.Reason>,
                        seen: set<string>, skipped: seq<SkippedJob>)
    requires SkippedOnce(c, all, before) && forall a :: a in seen <==> IsListed(before, a)
    requires reasons.Keys == SkippedIn(c, refs)
    requires forall a :: a in reasons ==> S.Unwinds(RefNodes(refs), InitialSkips(c, refs), a, reasons[a])
    requires Collected(c, refs, reasons, seen, before, |refs|, skipped)
    ensures SkippedOnce(c, all + [refs], skipped)
  {
    WholePrefix(refs);
    hide SkippedIn, S.Unwinds, RefNodes, InitialSkips;
    var more := all + [refs];
    assert forall k :: 0 <= k < |all| ==> more[k] == all[k];
    forall i | 0 <= i < |skipped| ensures ExplainedByFirst(c, more, skipped[i]) {
      if i < |before| {
        assert skipped[i] == before[i];
        assert ExplainedByFirst(c, all, before[i]);
      } else {
        assert FreshlySkipped(c, refs, reasons, seen, skipped[i]) && more[|all|] == refs;
        assert !IsListed(before, skipped[i].name);
        assert forall m :: 0 <= m < |all| ==> !SkippedRef(c, all[m], skipped[i].name);
      }
    }
    forall a ensures IsListed(skipped, a) <==> exists k :: 0 <= k < |more| && SkippedRef(c, more[k], a) {
      if i :| 0 <= i < |skipped| && skipped[i].name == a { assert ExplainedByFirst(c, more, skipped[i]); }
      if k :| 0 <= k < |more| && SkippedRef(c, more[k], a) {
        if k < |all| {
          assert IsListed(before, a);
          var i :| 0 <= i < |before| && before[i].name == a;
          assert skipped[i].name == a;
        } else {
          var r :| r in refs && r.name == a;
        }
      }
    }
  }

  /** `parts` are what the first workflows contribute. */
  ghost predicate JobParts(c: Config, order: seq<string>, workflows: map<string, seq<Ref>>, parts: seq<seq<Job>>)
    requires forall w :: w in order ==> w in workflows
  {
    |parts| <= |order| && forall i :: 0 <= i < |parts| ==> IsPart(c, order[i], workflows[order[i]], parts[i])
  }

  ghost predicate StageParts(c: Config, order: seq<string>, workflows: map<string, seq<Ref>>, parts: seq<seq<string>>)
    requires forall w :: w in order ==> w in workflows
  {
    |parts| <= |order| && forall i :: 0 <= i < |parts| ==> IsStages(order[i], KeptIn(c, workflows[order[i]]), parts[i])
  }

  /** The pipeline's jobs: one part per workflow, in order. */
  ghost predicate IsConcatenation(c: Config, order: seq<string>, workflows: map<string, seq<Ref>>, jobs: seq<Job>)
    requires forall w :: w in order ==> w in workflows
  {
    exists parts :: |parts| == |order| && jobs == Flatten(parts) && JobParts(c, order, workflows, parts)
  }

  /** Its stages: those of every workflow, in order. */
  ghost predicate AllStages(c: Config, order: seq<string>, workflows: map<string, seq<Ref>>, stages: seq<string>)
    requires forall w :: w in order ==> w in workflows
  {
    exists parts :: |parts| == |order| && stages == Flatten(parts) && StageParts(c, order, workflows, parts)
  }

  function RefsOf(order: seq<string>, workflows: map<string, seq<Ref>>): (r: seq<seq<Ref>>)
    requires forall w :: w in order ==> w in workflows
    ensures |r| == |order| && forall i :: 0 <= i < |order| ==> r[i] == workflows[order[i]]
  {
    seq(|order|, i requires 0 <= i < |order| => workflows[order[i]])
  }

  /** The first workflow, in order, whose kept part cannot be levelled. */
  ghost predicate FirstBadWorkflow(c: Config, order: seq<string>, workflows: map<string, seq<Ref>>, w: string)
    requires forall v :: v in order ==> v in workflows
  {
    exists i :: 0 <= i < |order| && order[i] == w && !Valid(KeptIn(c, workflows[w]))
      && forall k :: 0 <= k < i ==> Valid(KeptIn(c, workflows[order[k]]))
  }

  lemma NotEmptyIfBad(c: Config, refs: seq<Ref>)
    ensures !Valid(KeptIn(c, refs)) ==> refs != []
  {
    EmptyIsValid();
    if refs == [] { assert RefNodes(refs) == []; }
  }

  /** A reference is kept or skipped, so its workflow adds a job or a skipped one. */
  lemma ReferenceShows(c: Config, workflow: string, refs: seq<Ref>, part: seq<Job>)
    requires refs != [] && IsPart(c, workflow, refs, part)
    ensures part != [] || exists a :: SkippedRef(c, refs, a)
  {
    var n := RefNodes(refs)[0];
    if n.name in SkippedIn(c, refs) {
      assert refs[0] in refs && SkippedRef(c, refs, refs[0].name);
    } else {
      T.KeepElements(RefNodes(refs), SkippedIn(c, refs));
      assert n in KeptIn(c, refs);
      PartIsValid(c, workflow, refs, part);
      assert n in NodesOf(part);
    }
  }

  lemma FirstNode(jobs: seq<Job>)
    ensures jobs != [] ==> NodeOf(jobs[0]) in NodesOf(jobs)
  {
    if |jobs| > 0 { assert NodesOf(jobs)[0] == NodeOf(jobs[0]); }
  }

  lemma NoReferencesNoPart(c: Config, workflow: string, part: seq<Job>)
    requires IsPart(c, workflow, [], part)
    ensures part == [] && forall a :: !SkippedRef(c, [], a)
  {
    PartIsValid(c, workflow, [], part);
    assert RefNodes([]) == [] && KeptIn(c, []) == [];
    FirstNode(part);
  }

  lemma {:induction false} FlattenEmpty(parts: seq<seq<Job>>)
    ensures Flatten(parts) == [] <==> forall k :: 0 <= k < |parts| ==> parts[k] == []
  {
    if |parts| > 0 {
      var n := |parts| - 1;
      FlattenEmpty(parts[..n]);
      assert forall k :: 0 <= k < n ==> parts[..n][k] == parts[k];
    }
  }

  lemma NothingShown(c: Config, workflow: string, all: seq<seq<Ref>>, i: nat, part: seq<Job>)
    requires i < |all| && IsPart(c, workflow, all[i], part) && part == [] && SkippedOnce(c, all, [])
    ensures all[i] == []
  {
    hide IsPart, SkippedRef, ExplainedByFirst;
    assert forall a :: SkippedRef(c, all[i], a) ==> IsListed([], a);
    if all[i] != [] { ReferenceShows(c, workflow, all[i], part); }
  }

  lemma NothingSkippedIn(c: Config, all: seq<seq<Ref>>, skipped: seq<SkippedJob>)
    requires SkippedOnce(c, all, skipped) && forall k :: 0 <= k < |all| ==> all[k] == []
    ensures skipped == []
  {
    hide ExplainedByFirst, SkippedIn;
    assert |skipped| > 0 ==> IsListed(skipped, skipped[0].name);
  }

  /** Nothing is found exactly when no workflow refers to a job. */
  lemma NothingIffNoReferences(c: Config, order: seq<string>, workflows: map<string, seq<Ref>>, jobs: seq<Job>,
                               skipped: seq<SkippedJob>)
    requires forall w :: w in order ==> w in workflows
    requires IsConcatenation(c, order, workflows, jobs) && SkippedOnce(c, RefsOf(order, workflows), skipped)
    ensures jobs == [] && skipped == [] <==> forall w :: w in order ==> workflows[w] == []
  {
    hide IsPart, SkippedOnce, Flatten;
    var all := RefsOf(order, workflows);
    var parts :| |parts| == |order| && jobs == Flatten(parts) && JobParts(c, order, workflows, parts);
    FlattenEmpty(parts);
    if jobs == [] && skipped == [] {
      forall i | 0 <= i < |order| ensures all[i] == [] { NothingShown(c, order[i], all, i, parts[i]); }
    }
    if forall w :: w in order ==> workflows[w] == [] {
      forall i | 0 <= i < |order| ensures all[i] == [] && parts[i] == [] {
        assert order[i] in order;
        NoReferencesNoPart(c, order[i], parts[i]);
      }
      NothingSkippedIn(c, all, skipped);
    }
  }

  method Parse(c: Config, order: seq<string>, workflows: map<string, seq<Ref>>) returns (r: Result)
    requires forall w :: w in order ==> w in workflows
    ensures r.NotLevelled? <==> exists w :: w in order && !Valid(KeptIn(c, workflows[w]))
    ensures r.NotLevelled? ==> FirstBadWorkflow(c, order, workflows, r.workflow)
                               && L.ErrorIsReal(KeptIn(c, workflows[r.workflow]), r.error)
    ensures !r.InternalError?
    ensures r.Ok? ==> IsConcatenation(c, order, workflows, r.p.jobs) && AllStages(c, order, workflows, r.p.stages)
    ensures r.Ok? ==> SkippedOnce(c, RefsOf(order, workflows), r.p.skipped)
    ensures r.NoRunnableJobs? ==>
            IsConcatenation(c, order, workflows, []) && SkippedOnce(c, RefsOf(order, workflows), [])
    ensures r.NoRunnableJobs? <==> forall w :: w in order ==> workflows[w] == []
  {
    hide SkippedOnce, IsPart, IsStages, JobParts, StageParts, Flatten, Valid, L.ErrorIsReal, KeptIn, SkippedIn,
         S.Unwinds, RefNodes, InitialSkips, IsListed;
    var stages, jobs, skipped := [], [], [];
    var seen: set<string> := {};
    ghost var parts: seq<seq<Job>> := [];
    ghost var stageParts: seq<seq<string>> := [];
    NothingSkipped(c);
    NoParts(c, order, workflows);
    for i := 0 to |order|
      invariant forall k :: 0 <= k < i ==> Valid(KeptIn(c, workflows[order[k]]))
      invariant |parts| == i && jobs == Flatten(parts) && JobParts(c, order, workflows, parts)
      invariant |stageParts| == i && stages == Flatten(stageParts) && StageParts(c, order, workflows, stageParts)
      invariant SkippedOnce(c, RefsOf(order, workflows)[..i], skipped)
      invariant forall a :: a in seen <==> IsListed(skipped, a)
    {
      var refs := workflows[order[i]];
      var error, more, part, reasons := ParseWorkflow(c, order[i], refs);
      if error.Some? {
        assert order[i] in order;
        NotEmptyIfBad(c, refs);
        return error.value;
      }
      stages := stages + more;
      PartsNext(c, order, workflows, parts, stageParts, part, more);
      stageParts := stageParts + [more];
      jobs := jobs + part;
      parts := parts + [part];
      PrefixNext(RefsOf(order, workflows), i);
      skipped, seen := ReportSkips(c, refs, reasons, seen, skipped, RefsOf(order, workflows)[..i]);
    }
    WholePrefix(RefsOf(order, workflows));
    assert forall w :: w in order ==> Valid(KeptIn(c, workflows[w]));
    NothingIffNoReferences(c, order, workflows, jobs, skipped);
    if |jobs| == 0 && |skipped| == 0 { return NoRunnableJobs; }
    return Ok(Pipeline(stages, jobs, skipped));
  }

  lemma NoParts(c: Config, order: seq<string>, workflows: map<string, seq<Ref>>)
    requires forall w :: w in order ==> w in workflows
    ensures JobParts(c, order, workflows, []) && StageParts(c, order, workflows, [])
    ensures Flatten<Job>([]) == [] && Flatten<string>([]) == []
  {
  }

  lemma FlattenNext<A>(parts: seq<seq<A>>, part: seq<A>)
    ensures Flatten(parts + [part]) == Flatten(parts) + part
  {
    AppendOne(parts, part);
  }

  lemma PartsNext(c: Config, order: seq<string>, workflows: map<string, seq<Ref>>, parts: seq<seq<Job>>,
                  stageParts: seq<seq<string>>, part: seq<Job>, stages: seq<string>)
    requires forall w :: w in order ==> w in workflows
    requires |parts| == |stageParts| < |order|
    requires JobParts(c, order, workflows, parts) && StageParts(c, order, workflows, stageParts)
    requires IsPart(c, order[|parts|], workflows[order[|parts|]], part)
    requires IsStages(order[|parts|], KeptIn(c, workflows[order[|parts|]]), stages)
    ensures JobParts(c, order, workflows, parts + [part]) && StageParts(c, order, workflows, stageParts + [stages])
    ensures Flatten(parts + [part]) == Flatten(parts) + part
            && Flatten(stageParts + [stages]) == Flatten(stageParts) + stages
  {
    FlattenNext(parts, part);
    FlattenNext(stageParts, stages);
    hide IsPart, IsStages, Flatten, KeptIn;
  }

  lemma NothingSkipped(c: Config)
    ensures SkippedOnce(c, [], []) && forall a :: !IsListed([], a)
  {
  }

  // --------------------------------------------------- the pipeline is sound

  lemma PartIsValid(c: Config, workflow: string, refs: seq<Ref>, jobs: seq<Job>)
    requires IsPart(c, workflow, refs, jobs)
    ensures Valid(NodesOf(jobs)) && forall n :: n in NodesOf(jobs) <==> n in KeptIn(c, refs)
  {
    var kept := KeptIn(c, refs);
    hide L.LevelOrder, L.LevelMap, KeptIn;
    assert T.Relisted(kept, L.LevelOrder(kept), NodesOf(jobs));
    T.ListedIsValid(kept, NodesOf(jobs));
  }

  /** `a` is a part of a graph with distinct names that is closed in itself. */
  ghost predicate ClosedPart(a: seq<Node>, all: seq<Node>) {
    Distinct(all) && Closed(a) && forall n :: n in a ==> n in all
  }

  /** Edges of the whole stay inside the part they start in. */
  lemma PartEdges(a: seq<Node>, all: seq<Node>, x: string, y: string)
    requires ClosedPart(a, all) && x in Names(a)
    ensures Edge(all, x, y) <==> Edge(a, x, y)
    ensures Edge(all, x, y) ==> y in Names(a)
  {
    var m :| m in a && m.name == x;
    DependsOfNode(all, m);
    EdgeIsDepends(all, x, y);
    if Edge(a, x, y) {
      var n :| n in a && n.name == x && y in n.depends;
      DependsOfNode(all, n);
    }
  }

  lemma {:induction false} PartChains(a: seq<Node>, all: seq<Node>, p: seq<string>)
    requires ClosedPart(a, all) && Chain(all, p) && p[0] in Names(a)
    ensures Chain(a, p)
  {
    if |p| > 1 {
      assert Edge(all, p[0], p[1]);
      PartEdges(a, all, p[0], p[1]);
      ChainSlice(all, p, 1, |p|);
      PartChains(a, all, p[1..]);
      ChainPrepend(a, p[0], p[1..]);
      assert p == [p[0]] + p[1..];
    }
  }

  lemma PartHasNoCycle(a: seq<Node>, all: seq<Node>, x: string)
    requires ClosedPart(a, all) && Acyclic(a) && x in Names(a)
    ensures !Reaches(all, x, x)
  {
    if p :| Path(all, p, x, x) {
      PartChains(a, all, p);
      assert Path(a, p, x, x);
      assert Reaches(a, x, x);
    }
  }

  lemma {:induction false} FlattenMembers(parts: seq<seq<Job>>, j: Job)
    ensures j in Flatten(parts) <==> exists k :: 0 <= k < |parts| && j in parts[k]
  {
    if |parts| > 0 {
      var n := |parts| - 1;
      FlattenMembers(parts[..n], j);
      assert forall k :: 0 <= k < n ==> parts[..n][k] == parts[k];
    }
  }

  lemma NodeOfJob(jobs: seq<Job>, n: Node)
    ensures n in NodesOf(jobs) <==> exists j :: j in jobs && n == Node(j.name, j.dependsOn)
  {
    if n in NodesOf(jobs) {
      var i :| 0 <= i < |jobs| && NodesOf(jobs)[i] == n;
      assert jobs[i] in jobs;
    }
    if j :| j in jobs && n == Node(j.name, j.dependsOn) {
      var i :| 0 <= i < |jobs| && jobs[i] == j;
      assert NodesOf(jobs)[i] == n;
    }
  }

  lemma PartIsInWhole(parts: seq<seq<Job>>, k: nat, n: Node)
    requires k < |parts| && n in NodesOf(parts[k])
    ensures n in NodesOf(Flatten(parts))
  {
    hide NodesOf, Flatten;
    NodeOfJob(parts[k], n);
    var j :| j in parts[k] && n == Node(j.name, j.dependsOn);
    FlattenMembers(parts, j);
    NodeOfJob(Flatten(parts), n);
  }

  lemma PartIsClosedPart(parts: seq<seq<Job>>, k: nat)
    requires k < |parts| && Distinct(NodesOf(Flatten(parts))) && Closed(NodesOf(parts[k]))
    ensures ClosedPart(NodesOf(parts[k]), NodesOf(Flatten(parts)))
  {
    hide NodesOf, Flatten, Distinct, Closed;
    forall n | n in NodesOf(parts[k]) ensures n in NodesOf(Flatten(parts)) { PartIsInWhole(parts, k, n); }
  }

  ghost predicate HasPart(all: seq<Node>, n: Node) {
    exists a :: ClosedPart(a, all) && Acyclic(a) && n in a
  }

  ghost predicate AllValid(parts: seq<seq<Job>>) {
    forall k :: 0 <= k < |parts| ==> ValidPart(parts[k])
  }

  ghost predicate ValidPart(jobs: seq<Job>) {
    Valid(NodesOf(jobs))
  }

  lemma PartOfNode(parts: seq<seq<Job>>, n: Node) returns (k: nat)
    requires n in NodesOf(Flatten(parts))
    ensures k < |parts| && n in NodesOf(parts[k])
  {
    hide NodesOf, Flatten;
    NodeOfJob(Flatten(parts), n);
    var j :| j in Flatten(parts) && n == Node(j.name, j.dependsOn);
    FlattenMembers(parts, j);
    k :| 0 <= k < |parts| && j in parts[k];
    NodeOfJob(parts[k], n);
  }

  lemma NodeHasPart(parts: seq<seq<Job>>, n: Node)
    requires Distinct(NodesOf(Flatten(parts))) && AllValid(parts) && n in NodesOf(Flatten(parts))
    ensures HasPart(NodesOf(Flatten(parts)), n)
  {
    hide NodesOf, Flatten, Distinct, Closed, Acyclic;
    var k := PartOfNode(parts, n);
    assert ValidPart(parts[k]);
    PartIsClosedPart(parts, k);
  }

  /** Put together, the workflows form a valid graph as long as no job is used in two of
      them -- which is what `Run`'s duplicate check rejects. */
  lemma ConcatenationIsValid(c: Config, order: seq<string>, workflows: map<string, seq<Ref>>, jobs: seq<Job>)
    requires forall w :: w in order ==> w in workflows
    requires IsConcatenation(c, order, workflows, jobs) && Distinct(NodesOf(jobs))
    ensures Valid(NodesOf(jobs))
  {
    hide IsPart, Distinct;
    var parts :| |parts| == |order| && jobs == Flatten(parts) && JobParts(c, order, workflows, parts);
    forall k | 0 <= k < |parts| ensures ValidPart(parts[k]) { PartIsValid(c, order[k], workflows[order[k]], parts[k]); }
    PartsAreValid(parts);
  }

  lemma PartsAreValid(parts: seq<seq<Job>>)
    requires Distinct(NodesOf(Flatten(parts))) && AllValid(parts)
    ensures Valid(NodesOf(Flatten(parts)))
  {
    hide NodesOf, Flatten, Distinct, Valid, HasPart, AllValid;
    forall n | n in NodesOf(Flatten(parts)) ensures HasPart(NodesOf(Flatten(parts)), n) { NodeHasPart(parts, n); }
    UnionIsValid(NodesOf(Flatten(parts)));
  }

  /** A graph made of closed acyclic parts is closed and acyclic. */
  lemma UnionIsValid(all: seq<Node>)
    requires Distinct(all) && forall n :: n in all ==> HasPart(all, n)
    ensures Valid(all)
  {
    hide Distinct, Reaches, HasPart;
    forall n, d | n in all && d in n.depends ensures d in Names(all) { EdgeStaysInside(all, n, d); }
    forall x ensures !Reaches(all, x, x) {
      if Reaches(all, x, x) {
        var y := FirstEdge(all, x, x);
        var n :| n in all && n.name == x && y in n.depends;
        NoCycleThrough(all, n);
      }
    }
  }

  lemma EdgeStaysInside(all: seq<Node>, n: Node, d: string)
    requires HasPart(all, n) && n in all && d in n.depends
    ensures d in Names(all)
  {
    var a: seq<Node> :| ClosedPart(a, all) && Acyclic(a) && n in a;
    assert d in Names(a);
    var m: Node :| m in a && m.name == d;
    assert m in all;
  }

  lemma NoCycleThrough(all: seq<Node>, n: Node)
    requires HasPart(all, n)
    ensures !Reaches(all, n.name, n.name)
  {
    hide ClosedPart, Acyclic;
    var a :| ClosedPart(a, all) && Acyclic(a) && n in a;
    PartHasNoCycle(a, all, n.name);
  }

  // ------------------------------------------------ what is skipped, and shown

  /** A reference is skipped from the start exactly when its job has no definition, with the
      reason its definition failed to parse, or that there is none. */
  lemma FirstSkips(c: Config, refs: seq<Ref>, a: string)
    ensures a in InitialSkips(c, refs) <==> a !in c.defs && exists i :: 0 <= i < |refs| && refs[i].name == a
    ensures a in InitialSkips(c, refs) && a in c.bad ==> InitialSkips(c, refs)[a] == S.Given(c.bad[a])
    ensures a in InitialSkips(c, refs) && a !in c.bad ==>
              InitialSkips(c, refs)[a]
              == S.Given("not defined under jobs: (orb-provided jobs and top-level commands: aren't supported)")
  {
    SkipKeys(c, refs, a);
    if i :| 0 <= i < |refs| && refs[i].name == a { assert refs[i] in refs; }
    if r :| r in refs && r.name == a {
      var i :| 0 <= i < |refs| && refs[i] == r;
    }
  }

  /** Every job of a workflow has its definition's body, and shows the workflow's name and its
      level there. */
  lemma PartShowsLevels(c: Config, workflow: string, refs: seq<Ref>, jobs: seq<Job>, j: Job)
    requires IsPart(c, workflow, refs, jobs) && j in jobs
    ensures var start := workflow + "/level-";
            |j.stage| > |start| && j.stage[..|start|] == start
            && j.name in c.defs && j.body == c.defs[j.name]
            && j.name in L.LevelMap(KeptIn(c, refs))
            && ValueOf(j.stage[|start|..]) == L.LevelMap(KeptIn(c, refs))[j.name]
  {
    hide L.LevelMap, L.LevelOrder, KeptIn, LevelStage;
    var kept := KeptIn(c, refs);
    var i :| 0 <= i < |jobs| && jobs[i] == j;
    assert IsJobAt(c, workflow, kept, L.LevelOrder(kept)[i], j);
    StageShowsLevel(workflow + "/", L.LevelMap(kept)[j.name], j.stage);
    assert workflow + "/" + "level-" == workflow + "/level-";
  }
}
