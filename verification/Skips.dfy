/** `dag.FilterSkipped`: removes the nodes a caller could not use, and everything that
    depends on them. */
module Skips {
  import opened Graph
  import opened Seqs

  /** The text of a skip reason, kept as the structure its formatting builds up. */
  datatype Reason = Given(text: string) | DependsOnSkipped(dep: string, because: Reason)

  // ----------------------------------------------------------- specification

  /** Everything that is skipped once `skipped` is. */
  ghost function SkipSet(nodes: seq<Node>, skipped: set<string>): (r: set<string>) {
    skipped + set a | a in Names(nodes) && ReachesAny(nodes, a, skipped)
  }

  ghost predicate ReachesAny(nodes: seq<Node>, a: string, targets: set<string>) {
    exists b :: b in targets && Reaches(nodes, a, b)
  }

  /** Whoever depends on a member is a member. */
  ghost predicate ClosedUnderNeeds(nodes: seq<Node>, s: set<string>) {
    forall a, b :: Edge(nodes, a, b) && b in s ==> a in s
  }

  lemma EdgeFromNode(nodes: seq<Node>, a: string, b: string)
    requires Edge(nodes, a, b)
    ensures a in Names(nodes)
  {
  }

  /** `SkipSet` is the least set that contains the given skips and is closed under
      "depends on a member".  It mentions neither the order nor the distinctness of the
      nodes, and needs no acyclicity. */
  lemma SkipSetIsLeastFixpoint(nodes: seq<Node>, skipped: set<string>)
    ensures skipped <= SkipSet(nodes, skipped)
    ensures ClosedUnderNeeds(nodes, SkipSet(nodes, skipped))
    ensures forall s :: skipped <= s && ClosedUnderNeeds(nodes, s) ==> SkipSet(nodes, skipped) <= s
  {
    forall a, b | Edge(nodes, a, b) && b in SkipSet(nodes, skipped) ensures a in SkipSet(nodes, skipped) {
      EdgeFromNode(nodes, a, b);
      if b in skipped {
        EdgeReaches(nodes, a, b);
      } else {
        var c :| c in skipped && Reaches(nodes, b, c);
        EdgeThenReaches(nodes, a, b, c);
      }
      assert ReachesAny(nodes, a, skipped);
    }
    forall s | skipped <= s && ClosedUnderNeeds(nodes, s) ensures SkipSet(nodes, skipped) <= s {
      forall a | a in SkipSet(nodes, skipped) ensures a in s {
        if a !in skipped {
          var b :| b in skipped && Reaches(nodes, a, b);
          ReachesIntoClosed(nodes, s, a, b);
        }
      }
    }
  }

  lemma {:induction false} ReachesIntoClosed(nodes: seq<Node>, s: set<string>, a: string, b: string)
    requires ClosedUnderNeeds(nodes, s) && Reaches(nodes, a, b) && b in s
    ensures a in s
  {
    var p :| Path(nodes, p, a, b);
    PathIntoClosed(nodes, s, p);
  }

  lemma {:induction false} PathIntoClosed(nodes: seq<Node>, s: set<string>, p: seq<string>)
    requires ClosedUnderNeeds(nodes, s) && Chain(nodes, p) && p[|p| - 1] in s
    ensures p[0] in s
  {
    if |p| > 1 {
      ChainSlice(nodes, p, 1, |p|);
      PathIntoClosed(nodes, s, p[1..]);
      assert Edge(nodes, p[0], p[1]);
    }
  }

  /** The surviving nodes, in their own order. */
  function Keep(nodes: seq<Node>, skipped: set<string>): seq<Node> {
    if |nodes| == 0 then []
    else (if nodes[0].name in skipped then [] else [nodes[0]]) + Keep(nodes[1..], skipped)
  }

  /** One entry of the cascade: `a` was skipped for the first of its dependencies that
      was skipped before it. */
  ghost predicate Cascaded(nodes: seq<Node>, reasons: map<string, Reason>, before: set<string>, a: string) {
    a !in before && a in reasons
    && exists n, k :: n in nodes && n.name == a && 0 <= k < |n.depends|
         && n.depends[k] in before && n.depends[k] in reasons
         && (forall m :: 0 <= m < k ==> n.depends[m] !in before)
         && reasons[a] == DependsOnSkipped(n.depends[k], reasons[n.depends[k]])
  }

  ghost predicate LogEntry(nodes: seq<Node>, skipped: map<string, Reason>, reasons: map<string, Reason>,
                           log: seq<string>, i: nat)
    requires i < |log|
  {
    Cascaded(nodes, reasons, skipped.Keys + Elements(log[..i]), log[i])
  }

  /** `log` lists the generated entries in the order they were added. */
  ghost predicate CascadeLog(nodes: seq<Node>, skipped: map<string, Reason>, reasons: map<string, Reason>,
                             log: seq<string>) {
    reasons.Keys == skipped.Keys + Elements(log)
    && (forall a :: a in skipped ==> reasons[a] == skipped[a])
    && forall i :: 0 <= i < |log| ==> LogEntry(nodes, skipped, reasons, log, i)
  }

  /** Following a reason dependency by dependency ends at a reason the caller gave. */
  ghost predicate Unwinds(nodes: seq<Node>, skipped: map<string, Reason>, a: string, r: Reason)
    decreases r
  {
    if a in skipped then r == skipped[a]
    else r.DependsOnSkipped? && Edge(nodes, a, r.dep) && Unwinds(nodes, skipped, r.dep, r.because)
  }

  lemma {:induction false} ReasonsUnwind(nodes: seq<Node>, skipped: map<string, Reason>, reasons: map<string, Reason>,
                                         log: seq<string>, i: nat, a: string)
    requires CascadeLog(nodes, skipped, reasons, log) && i <= |log|
    requires a in skipped.Keys + Elements(log[..i])
    ensures Unwinds(nodes, skipped, a, reasons[a])
    decreases i
  {
    if a !in skipped {
      var j :| 0 <= j < i && log[j] == a;
      assert LogEntry(nodes, skipped, reasons, log, j);
      var d := reasons[a].dep;
      assert Edge(nodes, a, d);
      ReasonsUnwind(nodes, skipped, reasons, log, j, d);
    }
  }

  // ----------------------------------------------------------------- the code

  method FilterSkipped(nodes: seq<Node>, skipped: map<string, Reason>)
    returns (kept: seq<Node>, reasons: map<string, Reason>, ghost log: seq<string>)
    ensures reasons.Keys == SkipSet(nodes, skipped.Keys)
    ensures kept == Keep(nodes, SkipSet(nodes, skipped.Keys))
    ensures CascadeLog(nodes, skipped, reasons, log)
    ensures forall a :: a in reasons ==> Unwinds(nodes, skipped, a, reasons[a])
  {
    reasons := skipped;
    log := [];
    SkipSetIsLeastFixpoint(nodes, skipped.Keys);
    var changed := true;
    while changed
      invariant CascadeLog(nodes, skipped, reasons, log)
      invariant reasons.Keys <= SkipSet(nodes, skipped.Keys)
      invariant !changed ==> ClosedUnderNeeds(nodes, reasons.Keys)
      decreases SkipSet(nodes, skipped.Keys) - reasons.Keys, changed
    {
      ghost var start := reasons.Keys;
      reasons, log, changed := Pass(nodes, skipped, reasons, log);
      if changed {
        ghost var a :| a in reasons.Keys && a !in start;
        assert a in SkipSet(nodes, skipped.Keys) - start;
      }
    }
    AllUnwind(nodes, skipped, reasons, log);

    kept := [];
    for i := 0 to |nodes|
      invariant kept == Keep(nodes[..i], reasons.Keys)
    {
      PrefixNext(nodes, i);
      KeepAppend(nodes[..i], [nodes[i]], reasons.Keys);
      if nodes[i].name !in reasons { kept := kept + [nodes[i]]; }
    }
    WholePrefix(nodes);
  }

  /** One pass of the repeat-until-stable loop. */
  method Pass(nodes: seq<Node>, ghost skipped: map<string, Reason>, before: map<string, Reason>,
              ghost logged: seq<string>)
    returns (reasons: map<string, Reason>, ghost log: seq<string>, changed: bool)
    requires CascadeLog(nodes, skipped, before, logged) && before.Keys <= SkipSet(nodes, skipped.Keys)
    ensures CascadeLog(nodes, skipped, reasons, log)
    ensures before.Keys <= reasons.Keys <= SkipSet(nodes, skipped.Keys)
    ensures changed <==> before.Keys != reasons.Keys
    ensures !changed ==> ClosedUnderNeeds(nodes, reasons.Keys)
  {
    reasons, log, changed := before, logged, false;
    SkipSetIsLeastFixpoint(nodes, skipped.Keys);
    for i := 0 to |nodes|
      invariant CascadeLog(nodes, skipped, reasons, log)
      invariant before.Keys <= reasons.Keys <= SkipSet(nodes, skipped.Keys)
      invariant changed <==> before.Keys != reasons.Keys
      invariant !changed ==> Settled(nodes[..i], reasons.Keys)
    {
      var n := nodes[i];
      PrefixNext(nodes, i);
      if n.name !in reasons {
        var k := 0;
        while k < |n.depends| && n.depends[k] !in reasons
          invariant k <= |n.depends|
          invariant forall m :: 0 <= m < k ==> n.depends[m] !in reasons
        {
          k := k + 1;
        }
        if k < |n.depends| {
          assert Edge(nodes, n.name, n.depends[k]);
          CascadeOne(nodes, skipped, reasons, log, n, k);
          reasons := reasons[n.name := DependsOnSkipped(n.depends[k], reasons[n.depends[k]])];
          log := log + [n.name];
          changed := true;
        }
      }
    }
    WholePrefix(nodes);
  }

  /** No node of `some` outside `s` depends on a member of `s`. */
  ghost predicate Settled(some: seq<Node>, s: set<string>) {
    forall n :: n in some && n.name !in s ==> forall d :: d in n.depends ==> d !in s
  }

  lemma CascadedStays(nodes: seq<Node>, reasons: map<string, Reason>, before: set<string>, a: string, x: string,
                      r: Reason)
    requires Cascaded(nodes, reasons, before, a) && x !in reasons
    ensures Cascaded(nodes, reasons[x := r], before, a)
  {
  }

  lemma CascadedNow(nodes: seq<Node>, reasons: map<string, Reason>, n: Node, k: nat)
    requires n in nodes && n.name !in reasons && k < |n.depends| && n.depends[k] in reasons
    requires forall m :: 0 <= m < k ==> n.depends[m] !in reasons
    ensures Cascaded(nodes, reasons[n.name := DependsOnSkipped(n.depends[k], reasons[n.depends[k]])],
            reasons.Keys, n.name)
  {
  }

  lemma CascadeOne(nodes: seq<Node>, skipped: map<string, Reason>, reasons: map<string, Reason>, log: seq<string>,
                   n: Node, k: nat)
    requires CascadeLog(nodes, skipped, reasons, log)
    requires n in nodes && n.name !in reasons && k < |n.depends| && n.depends[k] in reasons
    requires forall m :: 0 <= m < k ==> n.depends[m] !in reasons
    ensures CascadeLog(nodes, skipped,
            reasons[n.name := DependsOnSkipped(n.depends[k], reasons[n.depends[k]])], log + [n.name])
  {
    var r := DependsOnSkipped(n.depends[k], reasons[n.depends[k]]);
    var log' := log + [n.name];
    var after := reasons[n.name := r];
    assert Elements(log') == Elements(log) + {n.name};
    forall i | 0 <= i < |log'| ensures LogEntry(nodes, skipped, after, log', i) {
      if i < |log| {
        assert log'[..i] == log[..i];
        assert LogEntry(nodes, skipped, reasons, log, i);
        CascadedStays(nodes, reasons, skipped.Keys + Elements(log[..i]), log[i], n.name, r);
      } else {
        assert log'[..i] == log;
        CascadedNow(nodes, reasons, n, k);
      }
    }
  }

  lemma AllUnwind(nodes: seq<Node>, skipped: map<string, Reason>, reasons: map<string, Reason>, log: seq<string>)
    requires CascadeLog(nodes, skipped, reasons, log)
    ensures forall a :: a in reasons ==> Unwinds(nodes, skipped, a, reasons[a])
  {
    WholePrefix(log);
    forall a | a in reasons ensures Unwinds(nodes, skipped, a, reasons[a]) {
      ReasonsUnwind(nodes, skipped, reasons, log, |log|, a);
    }
  }

  lemma {:induction false} KeepAppend(a: seq<Node>, b: seq<Node>, s: set<string>)
    ensures Keep(a + b, s) == Keep(a, s) + Keep(b, s)
  {
    if |a| == 0 {
      assert a + b == b;
    } else {
      assert (a + b)[1..] == a[1..] + b;
      KeepAppend(a[1..], b, s);
    }
  }
}
