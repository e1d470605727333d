/** `build_dag` as the source writes it: one pass over the targets running the
    four rules in turn and appending candidates to `edges`, then a pass that
    keeps the first copy of each (from, to, relation) triple using a `seen` set. */
module DagBuilder {
  import opened Text
  import opened DagSpec
  import opened DagProperties

  /** `other["text"].split()[0]` is evaluated for every other id of a target
      whose text has a temporal trigger, and raises on a text with no token;
      callers must not pass such input. */
  predicate TokensWhereRead(tasks: seq<Task>)
  {
    forall j, i :: 0 <= j < |tasks| && 0 <= i < |tasks|
      && ContainsAny(Lower(tasks[j].text), TemporalTriggers) && tasks[i].id != tasks[j].id
      ==> HasToken(tasks[i].text)
  }

  /** One more candidate source extends a rule's fan by at most its own edge,
      also when the fan is appended to the `edges` proposed before. */
  lemma FanPrefix(r: Rule, sem: map<string, Category>, others: seq<Task>, i: nat, t: Task, edges: seq<Edge>)
    requires i < |others| && forall x :: x in others ==> x.id in sem
    ensures Fan(r, sem, others[..i + 1], t)
            == Fan(r, sem, others[..i], t) + if Eligible(r, sem, others[i], t) then [Edge(others[i].id, t.id, RelationOf(r))] else []
    ensures Eligible(r, sem, others[i], t) ==>
              edges + Fan(r, sem, others[..i + 1], t)
              == edges + Fan(r, sem, others[..i], t) + [Edge(others[i].id, t.id, RelationOf(r))]
    ensures !Eligible(r, sem, others[i], t) ==> Fan(r, sem, others[..i + 1], t) == Fan(r, sem, others[..i], t)
  {
    assert others[..i + 1][..i] == others[..i];
  }

  /** The whole of `others` is its longest prefix. */
  lemma FanAll(r: Rule, sem: map<string, Category>, others: seq<Task>, t: Task)
    requires forall x :: x in others ==> x.id in sem
    ensures Fan(r, sem, others[..|others|], t) == Fan(r, sem, others, t)
  {
    assert others[..|others|] == others;
  }

  /** Relation 1 for the target `t`: when `t` speaks of order, every other id
      whose owner token `t` mentions, unless administrative, precedes `t`. */
  method TemporalPass(semantics: map<string, Category>, tasks: seq<Task>, t: Task, edges: seq<Edge>)
    returns (out: seq<Edge>)
    requires t.id in semantics && forall o :: o in tasks ==> o.id in semantics
    requires ContainsAny(Lower(t.text), TemporalTriggers) ==>
               forall i :: 0 <= i < |tasks| && tasks[i].id != t.id ==> HasToken(tasks[i].text)
    ensures out == edges + RuleEdges(Temporal, semantics, tasks, t)
  {
    out := edges;
    var tText := Lower(t.text);
    if ContainsAny(tText, TemporalTriggers) {
      for i := 0 to |tasks|
        invariant out == edges + Fan(Temporal, semantics, tasks[..i], t)
      {
        var other := tasks[i];
        FanPrefix(Temporal, semantics, tasks, i, t, edges);
        if other.id == t.id {
          continue;
        }
        assert HasToken(other.text);
        var name := Lower(FirstWord(other.text));
        if Contains(tText, name) && !IsAdmin(Lower(other.text)) {
          out := out + [Edge(other.id, t.id, TemporalAfter)];
        }
      }
      FanAll(Temporal, semantics, tasks, t);
    }
  }

  /** Relation 2 for the target `t`: a REVIEW target follows every BUILD task. */
  method AggregationPass(semantics: map<string, Category>, tasks: seq<Task>, t: Task, edges: seq<Edge>)
    returns (out: seq<Edge>)
    requires t.id in semantics && forall o :: o in tasks ==> o.id in semantics
    ensures out == edges + RuleEdges(Aggregate, semantics, tasks, t)
  {
    out := edges;
    if semantics[t.id] == Review {
      for i := 0 to |tasks|
        invariant out == edges + Fan(Aggregate, semantics, tasks[..i], t)
      {
        var other := tasks[i];
        FanPrefix(Aggregate, semantics, tasks, i, t, edges);
        if semantics[other.id] == Build {
          out := out + [Edge(other.id, t.id, Aggregation)];
        }
      }
      FanAll(Aggregate, semantics, tasks, t);
    }
  }

  /** Rule 2b for the target `t`: a REVIEW target that says "after both" (or
      "after all", "once both", "when both") follows every DESIGN and BUILD task. */
  method ReviewGroupPass(semantics: map<string, Category>, tasks: seq<Task>, t: Task, edges: seq<Edge>)
    returns (out: seq<Edge>)
    requires t.id in semantics && forall o :: o in tasks ==> o.id in semantics
    ensures out == edges + RuleEdges(ReviewGroup, semantics, tasks, t)
  {
    out := edges;
    if semantics[t.id] == Review && ContainsAny(Lower(t.text), ReviewGroupTriggers) {
      for i := 0 to |tasks|
        invariant out == edges + Fan(ReviewGroup, semantics, tasks[..i], t)
      {
        var other := tasks[i];
        FanPrefix(ReviewGroup, semantics, tasks, i, t, edges);
        if semantics[other.id] in {Design, Build} {
          out := out + [Edge(other.id, t.id, GroupDependency)];
        }
      }
      FanAll(ReviewGroup, semantics, tasks, t);
    }
  }

  /** Relation 3 for the target `t`: a target waiting for everyone follows
      every other id that is not administrative. */
  method CollectivePass(semantics: map<string, Category>, tasks: seq<Task>, t: Task, edges: seq<Edge>)
    returns (out: seq<Edge>)
    requires t.id in semantics && forall o :: o in tasks ==> o.id in semantics
    ensures out == edges + RuleEdges(Collective, semantics, tasks, t)
  {
    out := edges;
    var tText := Lower(t.text);
    if ContainsAny(tText, CollectiveTriggers) {
      for i := 0 to |tasks|
        invariant out == edges + Fan(Collective, semantics, tasks[..i], t)
      {
        var other := tasks[i];
        FanPrefix(Collective, semantics, tasks, i, t, edges);
        if other.id != t.id && !IsAdmin(Lower(other.text)) {
          out := out + [Edge(other.id, t.id, GroupDependency)];
        }
      }
      FanAll(Collective, semantics, tasks, t);
    }
  }

  /** Appending four lists one by one appends their concatenation; kept apart
      so that the solver proves it without the passes' definitions in view. */
  lemma AppendFour(e: seq<Edge>, a: seq<Edge>, b: seq<Edge>, c: seq<Edge>, d: seq<Edge>)
    ensures e + a + b + c + d == e + (a + b + c + d)
  {
  }

  /** The body of the outer loop: the four rules for the target `t`, in order. */
  method ProposeFor(semantics: map<string, Category>, tasks: seq<Task>, t: Task, edges: seq<Edge>)
    returns (out: seq<Edge>)
    requires t.id in semantics && forall o :: o in tasks ==> o.id in semantics
    requires ContainsAny(Lower(t.text), TemporalTriggers) ==>
               forall i :: 0 <= i < |tasks| && tasks[i].id != t.id ==> HasToken(tasks[i].text)
    ensures out == edges + TargetEdges(semantics, tasks, t)
  {
    out := TemporalPass(semantics, tasks, t, edges);
    out := AggregationPass(semantics, tasks, t, out);
    out := ReviewGroupPass(semantics, tasks, t, out);
    out := CollectivePass(semantics, tasks, t, out);
    AppendFour(edges, RuleEdges(Temporal, semantics, tasks, t), RuleEdges(Aggregate, semantics, tasks, t),
               RuleEdges(ReviewGroup, semantics, tasks, t), RuleEdges(Collective, semantics, tasks, t));
  }

  /** The deduplication loop: keeps the first copy of each triple, in order. */
  method DedupPass(edges: seq<Edge>) returns (finalEdges: seq<Edge>)
    ensures finalEdges == Dedup(edges)
    ensures NoDuplicates(finalEdges)
    ensures forall e :: e in finalEdges <==> e in edges
  {
    var seen: set<Edge> := {};
    finalEdges := [];
    for i := 0 to |edges|
      invariant finalEdges == Dedup(edges[..i])
      invariant seen == set e | e in finalEdges
    {
      assert edges[..i + 1][..i] == edges[..i];
      var e := edges[i];
      if e !in seen {
        seen := seen + {e};
        finalEdges := finalEdges + [e];
      }
    }
    assert edges[..|edges|] == edges;
    DedupNoDuplicates(edges);
    DedupMembers(edges);
  }

  /** The outer loop over targets: the candidate list before deduplication. */
  method ProposeAll(semantics: map<string, Category>, tasks: seq<Task>) returns (edges: seq<Edge>)
    requires forall o :: o in tasks ==> o.id in semantics
    requires TokensWhereRead(tasks)
    ensures edges == CandidatesUpTo(semantics, tasks, |tasks|)
  {
    edges := [];
    for j := 0 to |tasks|
      invariant edges == CandidatesUpTo(semantics, tasks, j)
    {
      var t := tasks[j];
      assert ContainsAny(Lower(t.text), TemporalTriggers) ==>
               forall i :: 0 <= i < |tasks| && tasks[i].id != t.id ==> HasToken(tasks[i].text);
      edges := ProposeFor(semantics, tasks, t, edges);
    }
  }

  /** Builds the dependency graph of `tasks`: exactly `Dag(tasks)`, hence free
      of self-loops and repeated triples, in target and relation order. */
  method BuildDag(tasks: seq<Task>) returns (finalEdges: seq<Edge>)
    requires TokensWhereRead(tasks)
    ensures finalEdges == Dag(tasks)
    ensures forall e :: e in finalEdges ==> e.from != e.to
    ensures NoDuplicates(finalEdges)
    ensures Ordered(tasks, finalEdges)
    ensures tasks == [] ==> finalEdges == []
  {
    var semantics := Semantics(tasks);
    assert forall o :: o in tasks ==> o.id in semantics;
    var edges := ProposeAll(semantics, tasks);
    finalEdges := DedupPass(edges);
    NoSelfLoops(tasks);
    DagOrdered(tasks);
  }
}
