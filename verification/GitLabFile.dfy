/** The two passes of the GitLab parser over the decoded top level: first every mapping by its
    key, then every entry from the mapping its key stands for. */
module GitLabFile {
  import opened Graph
  import opened Pipeline
  import opened Seqs
  import opened Strings
  import opened Extends
  import opened GitLab

  /** A top-level key with its mapping, if its value is one. */
  datatype RawEntry = RawEntry(key: string, mapping: Option<Fields>)

  /** What the fields and the file's defaults give besides the stage. */
  datatype Details = Details(image: string, hasScript: bool, services: Option<string>, body: string)

  /** The last mapping of every key that is not reserved, hidden templates included. */
  function AllEntries(raw: seq<RawEntry>): map<string, Fields> {
    if |raw| == 0 then map[]
    else
      var r := raw[|raw| - 1];
      if IsReservedKey(r.key) || r.mapping == None then AllEntries(raw[..|raw| - 1])
      else AllEntries(raw[..|raw| - 1])[r.key := r.mapping.value]
  }

  function StageOf(f: Fields): string {
    if "stage" in f && f["stage"].Text? && f["stage"].s != "" then f["stage"].s else "test"
  }

  function EntryOf(r: RawEntry, all: map<string, Fields>, details: Fields -> Details): Entry {
    if r.mapping == None || r.key !in all then Entry(r.key, false, "", "", false, None, "")
    else
      var f := Resolved(all[r.key], all);
      var d := details(f);
      Entry(r.key, true, StageOf(f), d.image, d.hasScript, d.services, d.body)
  }

  function EntriesOf(raw: seq<RawEntry>, details: Fields -> Details): (r: seq<Entry>)
    ensures |r| == |raw| && forall i :: 0 <= i < |raw| ==> r[i] == EntryOf(raw[i], AllEntries(raw), details)
  {
    seq(|raw|, i requires 0 <= i < |raw| => EntryOf(raw[i], AllEntries(raw), details))
  }

  /** Mappings are found under their key, whichever of its entries they come from. */
  lemma {:induction false} MappingIsEntered(raw: seq<RawEntry>, r: RawEntry)
    requires r in raw && r.mapping.Some? && !IsReservedKey(r.key)
    ensures r.key in AllEntries(raw)
  {
    var n := |raw| - 1;
    if raw[n].key != r.key || raw[n].mapping == None {
      assert raw == raw[..n] + [raw[n]];
      MappingIsEntered(raw[..n], r);
    }
  }

  /** Entries of one name read one mapping, so they name one stage. */
  lemma EntriesNameOneStage(raw: seq<RawEntry>, details: Fields -> Details)
    ensures OneStageEach(EntriesOf(raw, details))
  {
    hide AllEntries, Resolved, StageOf;
    var entries := EntriesOf(raw, details);
    forall e, f | e in entries && f in entries && e.isMapping && f.isMapping && e.name == f.name
      ensures e.stage == f.stage
    {
      var i :| 0 <= i < |raw| && entries[i] == e;
      var k :| 0 <= k < |raw| && entries[k] == f;
    }
  }

  /** Whatever the file holds, repeated keys included: the dependencies are jobs of the
      pipeline without a cycle, and they are the full stage barrier. */
  lemma FileIsSound(stages: seq<string>, raw: seq<RawEntry>, details: Fields -> Details)
    ensures var jobs := JobsOf(stages, EntriesOf(raw, details));
            var nodes := NodesOf(Assigned(stages, jobs));
            Closed(nodes) && Acyclic(nodes) && IsFullBarrier(stages, jobs) && IsBarrierOver(stages, jobs, nodes)
  {
    hide Closed, Acyclic, IsFullBarrier, IsBarrierOver, OneStageEach, JobsOf, Assigned, NodesOf;
    EntriesNameOneStage(raw, details);
    ParsedIsSound(stages, EntriesOf(raw, details));
    FullBarrierOverList(stages, JobsOf(stages, EntriesOf(raw, details)));
  }

  method ParseFile(stages: seq<string>, raw: seq<RawEntry>, details: Fields -> Details) returns (r: Parsed)
    ensures r.NoRunnableJobs? <==> forall e :: e in EntriesOf(raw, details) ==> FateOf(stages, e) == Ignored
    ensures r.Ok? ==> r.p.jobs == Assigned(stages, JobsOf(stages, EntriesOf(raw, details)))
                      && r.p.skipped == SkippedOf(stages, EntriesOf(raw, details))
    ensures r.Ok? ==> Closed(NodesOf(r.p.jobs)) && Acyclic(NodesOf(r.p.jobs))
                      && IsFullBarrier(stages, JobsOf(stages, EntriesOf(raw, details)))
  {
    hide Closed, Acyclic, IsFullBarrier, OneStageEach, JobsOf, SkippedOf, Assigned, NodesOf, EntryOf,
         AllEntries, FateOf;
    var all := Collect(raw);
    var entries: seq<Entry> := [];
    for i := 0 to |raw|
      invariant |entries| == i && forall k :: 0 <= k < i ==> entries[k] == EntryOf(raw[k], all, details)
    {
      var e := ReadEntry(raw[i], all, details);
      entries := entries + [e];
    }
    assert entries == EntriesOf(raw, details);
    FileIsSound(stages, raw, details);
    r := Parse(stages, entries);
  }

  /** The preliminary pass. */
  method Collect(raw: seq<RawEntry>) returns (all: map<string, Fields>)
    ensures all == AllEntries(raw)
  {
    all := map[];
    for i := 0 to |raw|
      invariant all == AllEntries(raw[..i])
    {
      PrefixNext(raw, i);
      if IsReservedKey(raw[i].key) || raw[i].mapping == None { continue; }
      all := all[raw[i].key := raw[i].mapping.value];
    }
    WholePrefix(raw);
  }

  method ReadEntry(r: RawEntry, all: map<string, Fields>, details: Fields -> Details) returns (e: Entry)
    ensures e == EntryOf(r, all, details)
  {
    if r.mapping == None || r.key !in all { return Entry(r.key, false, "", "", false, None, ""); }
    var f, note := ResolveExtends(all[r.key], all);
    var d := details(f);
    return Entry(r.key, true, StageOf(f), d.image, d.hasScript, d.services, d.body);
  }

  /** A key stands for its last mapping. */
  lemma {:induction false} LastMappingWins(raw: seq<RawEntry>, i: nat)
    requires i < |raw| && raw[i].mapping.Some? && !IsReservedKey(raw[i].key)
    requires forall k :: i < k < |raw| && raw[k].key == raw[i].key ==> raw[k].mapping == None
    ensures raw[i].key in AllEntries(raw) && AllEntries(raw)[raw[i].key] == raw[i].mapping.value
  {
    var n := |raw| - 1;
    if i < n { LastMappingWins(raw[..n], i); }
  }

  /** Without a stage of its own, or with an empty one, a job is in stage "test". */
  lemma StageByFields(f: Fields)
    ensures forall s :: s != "" ==> StageOf(f["stage" := Text(s)]) == s
    ensures "stage" !in f ==> StageOf(f) == "test"
    ensures forall v: Value :: v == Text("") || !v.Text? ==> StageOf(f["stage" := v]) == "test"
  {
  }
}
