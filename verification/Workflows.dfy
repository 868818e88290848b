/** CircleCI jobs used in several workflows: exactly what `Run` rejects. */
module Workflows {
  import opened Graph
  import opened Pipeline
  import CircleCI
  import Seqs
  import Expansion

  /** No job is kept in two workflows. */
  ghost predicate KeptApart(c: CircleCI.Config, order: seq<string>, workflows: map<string, seq<CircleCI.Ref>>)
    requires forall w :: w in order ==> w in workflows
  {
    forall i, j :: 0 <= i < j < |order| ==>
      Names(CircleCI.KeptIn(c, workflows[order[i]])) !! Names(CircleCI.KeptIn(c, workflows[order[j]]))
  }

  ghost predicate Apart(parts: seq<seq<Job>>) {
    forall i, j :: 0 <= i < j < |parts| ==> Names(NodesOf(parts[i])) !! Names(NodesOf(parts[j]))
  }

  ghost predicate DistinctPart(jobs: seq<Job>) {
    Distinct(NodesOf(jobs))
  }

  lemma NamesAreApart(x: seq<Node>, y: seq<Node>)
    requires Distinct(x + y)
    ensures Names(x) !! Names(y)
  {
    Expansion.DistinctParts(x, y);
  }

  lemma ApartAppend(x: seq<Node>, y: seq<Node>)
    requires Distinct(x) && Distinct(y) && Names(x) !! Names(y)
    ensures Distinct(x + y)
  {
    var all := x + y;
    forall i, j | 0 <= i < j < |all| ensures all[i].name != all[j].name {
      if i < |x| <= j {
        var m := j - |x|;
        assert x[i] in x && y[m] in y && all[j] == y[m];
        assert x[i].name in Names(x) && y[m].name in Names(y);
      }
    }
  }

  lemma AppendDistinct(a: seq<Job>, b: seq<Job>)
    requires DistinctPart(a) && DistinctPart(b)
    ensures DistinctPart(a + b) <==> Names(NodesOf(a)) !! Names(NodesOf(b))
  {
    hide Distinct, Names;
    assert NodesOf(a + b) == NodesOf(a) + NodesOf(b);
    if DistinctPart(a + b) { NamesAreApart(NodesOf(a), NodesOf(b)); }
    if Names(NodesOf(a)) !! Names(NodesOf(b)) { ApartAppend(NodesOf(a), NodesOf(b)); }
  }

  /** A name of the whole is a name of one of the parts. */
  lemma NamesOfWhole(parts: seq<seq<Job>>, x: string)
    ensures x in Names(NodesOf(Seqs.Flatten(parts)))
            <==> exists k :: 0 <= k < |parts| && x in Names(NodesOf(parts[k]))
  {
    hide NodesOf, Seqs.Flatten;
    if x in Names(NodesOf(Seqs.Flatten(parts))) {
      var n :| n in NodesOf(Seqs.Flatten(parts)) && n.name == x;
      var k := CircleCI.PartOfNode(parts, n);
      assert x in Names(NodesOf(parts[k]));
    }
    if k :| 0 <= k < |parts| && x in Names(NodesOf(parts[k])) {
      var n :| n in NodesOf(parts[k]) && n.name == x;
      CircleCI.PartIsInWhole(parts, k, n);
    }
  }

  lemma {:induction false} WholeDistinct(parts: seq<seq<Job>>)
    requires forall k :: 0 <= k < |parts| ==> DistinctPart(parts[k])
    ensures DistinctPart(Seqs.Flatten(parts)) <==> Apart(parts)
  {
    if |parts| > 0 {
      var n := |parts| - 1;
      var init := parts[..n];
      assert forall k :: 0 <= k < n ==> init[k] == parts[k];
      WholeDistinct(init);
      WholeDistinctNext(init, parts[n]);
      assert init + [parts[n]] == parts;
    }
  }

  lemma ApartNext(init: seq<seq<Job>>, last: seq<Job>)
    ensures Apart(init + [last]) <==> Apart(init) && Names(NodesOf(Seqs.Flatten(init))) !! Names(NodesOf(last))
  {
    hide NodesOf, Seqs.Flatten;
    var parts, n := init + [last], |init|;
    assert forall k :: 0 <= k < n ==> parts[k] == init[k];
    forall x
      ensures x in Names(NodesOf(Seqs.Flatten(init))) <==> exists k :: 0 <= k < n && x in Names(NodesOf(init[k]))
    {
      NamesOfWhole(init, x);
    }
    if Apart(parts) {
      forall i, j | 0 <= i < j < n ensures Names(NodesOf(init[i])) !! Names(NodesOf(init[j])) {
        assert Names(NodesOf(parts[i])) !! Names(NodesOf(parts[j]));
      }
      forall k | 0 <= k < n ensures Names(NodesOf(init[k])) !! Names(NodesOf(last)) {
        assert Names(NodesOf(parts[k])) !! Names(NodesOf(parts[n]));
      }
    }
  }

  lemma WholeDistinctNext(init: seq<seq<Job>>, last: seq<Job>)
    requires (DistinctPart(Seqs.Flatten(init)) <==> Apart(init)) && DistinctPart(last)
    ensures DistinctPart(Seqs.Flatten(init + [last])) <==> Apart(init + [last])
  {
    hide NodesOf, Seqs.Flatten, Apart, DistinctPart;
    CircleCI.FlattenNext(init, last);
    ApartNext(init, last);
    if Apart(init) {
      AppendDistinct(Seqs.Flatten(init), last);
    } else {
      PrefixDistinct(Seqs.Flatten(init), last);
    }
  }

  lemma PrefixDistinct(a: seq<Job>, b: seq<Job>)
    ensures DistinctPart(a + b) ==> DistinctPart(a)
  {
    assert forall i :: 0 <= i < |a| ==> NodesOf(a + b)[i] == NodesOf(a)[i];
  }

  lemma PartNames(c: CircleCI.Config, workflow: string, refs: seq<CircleCI.Ref>, jobs: seq<Job>)
    requires CircleCI.IsPart(c, workflow, refs, jobs)
    ensures DistinctPart(jobs) && Names(NodesOf(jobs)) == Names(CircleCI.KeptIn(c, refs))
  {
    CircleCI.PartIsValid(c, workflow, refs, jobs);
  }

  /** The names of a CircleCI pipeline are distinct -- so that `Run` accepts it -- exactly when
      no job is kept in two of its workflows. */
  lemma DistinctIffKeptApart(c: CircleCI.Config, order: seq<string>, workflows: map<string, seq<CircleCI.Ref>>,
                             jobs: seq<Job>)
    requires forall w :: w in order ==> w in workflows
    requires CircleCI.IsConcatenation(c, order, workflows, jobs)
    ensures Distinct(NodesOf(jobs)) <==> KeptApart(c, order, workflows)
  {
    hide CircleCI.IsPart, CircleCI.KeptIn, Seqs.Flatten, NodesOf, Names;
    var parts :| |parts| == |order| && jobs == Seqs.Flatten(parts) && CircleCI.JobParts(c, order, workflows, parts);
    forall k | 0 <= k < |parts|
      ensures DistinctPart(parts[k]) && Names(NodesOf(parts[k])) == Names(CircleCI.KeptIn(c, workflows[order[k]]))
    {
      PartNames(c, order[k], workflows[order[k]], parts[k]);
    }
    WholeDistinct(parts);
    assert Apart(parts) <==> KeptApart(c, order, workflows);
  }
}
