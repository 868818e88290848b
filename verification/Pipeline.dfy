/** The provider-agnostic pipeline every front end produces. */
module Pipeline {
  import opened Graph
  import Skips

  /** `body` stands for the image, environment, services and steps a job carries along. */
  datatype Job = Job(name: string, stage: string, body: string, dependsOn: seq<string>)

  datatype SkippedJob = SkippedJob(name: string, reason: Skips.Reason)

  datatype Pipeline = Pipeline(stages: seq<string>, jobs: seq<Job>, skipped: seq<SkippedJob>)

  function NodeOf(j: Job): Node {
    Node(j.name, j.dependsOn)
  }

  /** The dependency graph of the jobs, as `Run` and `plan` read it. */
  function NodesOf(jobs: seq<Job>): (r: seq<Node>)
    ensures |r| == |jobs| && forall i :: 0 <= i < |jobs| ==> r[i] == NodeOf(jobs[i])
  {
    seq(|jobs|, i requires 0 <= i < |jobs| => NodeOf(jobs[i]))
  }

  function Decimal(n: nat): string {
    if n < 10 then ["0123456789"[n]] else Decimal(n / 10) + ["0123456789"[n % 10]]
  }

  /** The informational stage of a job on a dependency level. */
  function LevelStage(prefix: string, lvl: nat): string {
    prefix + "level-" + Decimal(lvl)
  }

  /** `top` is the highest level, 0 when there is none. */
  ghost predicate IsTopLevel(levels: map<string, nat>, top: nat) {
    (forall a :: a in levels ==> levels[a] <= top) && (top == 0 || exists a :: a in levels && levels[a] == top)
  }

  /** One stage per level, whether or not a job is on it. */
  function LevelStages(prefix: string, top: nat): seq<string> {
    seq(top + 1, i requires 0 <= i < top + 1 => LevelStage(prefix, i))
  }

  method StagesOf(prefix: string, levels: map<string, nat>) returns (stages: seq<string>)
    ensures exists top :: IsTopLevel(levels, top) && stages == LevelStages(prefix, top)
  {
    var top := 0;
    var rest := levels.Keys;
    while rest != {}
      invariant rest <= levels.Keys
      invariant forall a :: a in levels.Keys - rest ==> levels[a] <= top
      invariant top == 0 || exists a :: a in levels && levels[a] == top
      decreases |rest|
    {
      var a :| a in rest;
      if levels[a] > top { top := levels[a]; }
      rest := rest - {a};
    }
    assert IsTopLevel(levels, top);
    stages := [];
    for i := 0 to top + 1
      invariant |stages| == i && forall k :: 0 <= k < i ==> stages[k] == LevelStage(prefix, k)
    {
      stages := stages + [LevelStage(prefix, i)];
    }
    assert stages == LevelStages(prefix, top);
  }

  // --------------------------------------------------------- what a stage tells

  /** The number a string of digits stands for. */
  function ValueOf(digits: string): nat {
    if |digits| == 0 then 0
    else
      var c := digits[|digits| - 1];
      10 * ValueOf(digits[..|digits| - 1]) + (if '0' <= c <= '9' then c as int - '0' as int else 0)
  }

  lemma {:induction false} DecimalReadsBack(n: nat)
    ensures ValueOf(Decimal(n)) == n && |Decimal(n)| > 0
    ensures forall c :: c in Decimal(n) ==> '0' <= c <= '9'
  {
    var d := "0123456789"[n % 10];
    assert '0' <= d <= '9' && d as int - '0' as int == n % 10;
    if n < 10 {
      assert Decimal(n) == [d] && [d][..0] == [];
    } else {
      DecimalReadsBack(n / 10);
      assert (Decimal(n / 10) + [d])[..|Decimal(n / 10)|] == Decimal(n / 10);
    }
  }

  /** The stage's text after the prefix is "level-" and the level's digits, so different levels
      have different stages. */
  lemma StageShowsLevel(prefix: string, lvl: nat, stage: string)
    requires stage == LevelStage(prefix, lvl)
    ensures var start := prefix + "level-";
            |stage| > |start| && stage[..|start|] == start && ValueOf(stage[|start|..]) == lvl
  {
    DecimalReadsBack(lvl);
    assert stage == (prefix + "level-") + Decimal(lvl);
  }

  lemma DifferentLevelsDifferentStages(prefix: string, a: nat, b: nat)
    ensures LevelStage(prefix, a) == LevelStage(prefix, b) <==> a == b
  {
    StageShowsLevel(prefix, a, LevelStage(prefix, a));
    StageShowsLevel(prefix, b, LevelStage(prefix, b));
  }
}
