/** What the graph built by `build_dag` means: which edges each rule yields,
    no self-loops, endpoints among the input ids, one copy of each triple in
    first-occurrence order, and the order of the edges. */
module DagProperties {
  import opened Text
  import opened DagSpec

  ghost predicate UniqueIds(tasks: seq<Task>)
  {
    forall i, j :: 0 <= i < j < |tasks| ==> tasks[i].id != tasks[j].id
  }

  ghost predicate NoDuplicates(es: seq<Edge>)
  {
    forall i, j :: 0 <= i < j < |es| ==> es[i] != es[j]
  }

  // ---------------------------------------------------------------------
  // The classifier and the id-keyed category map
  // ---------------------------------------------------------------------

  /** The classifier's contract pins its result down: the only category that
      matches and is preceded by no matching category is `TaskSemantics(text)`. */
  lemma FirstMatchIsUnique(text: string, c: Category)
    requires c != Other ==> ContainsAny(Lower(text), Keywords(c))
    requires forall d :: Rank(d) < Rank(c) ==> !ContainsAny(Lower(text), Keywords(d))
    ensures TaskSemantics(text) == c
  {
  }

  /** Text naming both a design and a review word is a DESIGN task. */
  lemma DesignPrecedesReview(text: string)
    requires Contains(Lower(text), "design") && Contains(Lower(text), "review")
    ensures TaskSemantics(text) == Design
  {
    assert "design" in Keywords(Design);
  }

  /** The map keyed by id holds, for each id, the category of the LAST task
      carrying that id. */
  lemma {:induction false} SemanticsIsLastWins(tasks: seq<Task>, k: nat)
    requires k < |tasks|
    requires forall m :: k < m < |tasks| ==> tasks[m].id != tasks[k].id
    ensures Semantics(tasks)[tasks[k].id] == TaskSemantics(tasks[k].text)
  {
    if k < |tasks| - 1 {
      SemanticsIsLastWins(tasks[..|tasks| - 1], k);
    }
  }

  /** With unique ids every task's entry is its own category. */
  lemma SemanticsOfUniqueIds(tasks: seq<Task>, k: nat)
    requires UniqueIds(tasks) && k < |tasks|
    ensures Semantics(tasks)[tasks[k].id] == TaskSemantics(tasks[k].text)
  {
    SemanticsIsLastWins(tasks, k);
  }

  // ---------------------------------------------------------------------
  // Deduplication
  // ---------------------------------------------------------------------

  /** Deduplication drops only repeats: the same edges survive. */
  lemma {:induction false} DedupMembers(es: seq<Edge>)
    ensures forall e :: e in Dedup(es) <==> e in es
  {
    if es != [] {
      DedupMembers(es[..|es| - 1]);
      assert forall e :: e in es <==> e in es[..|es| - 1] || e == es[|es| - 1];
    }
  }

  /** No triple is kept twice. */
  lemma {:induction false} DedupNoDuplicates(es: seq<Edge>)
    ensures NoDuplicates(Dedup(es))
  {
    if es != [] {
      DedupNoDuplicates(es[..|es| - 1]);
    }
  }

  /** `x` occurs in `es` before the first occurrence of `y`. */
  ghost predicate OccursBefore(es: seq<Edge>, x: Edge, y: Edge)
  {
    exists k :: 0 <= k < |es| && es[k] == x && y !in es[..k + 1]
  }

  /** The kept edges are in first-occurrence order: each kept edge occurs in
      the input before any occurrence of an edge kept after it. */
  lemma {:induction false} DedupFirstOccurrenceOrder(es: seq<Edge>)
    ensures forall i, j :: 0 <= i < j < |Dedup(es)| ==> OccursBefore(es, Dedup(es)[i], Dedup(es)[j])
  {
    if es != [] {
      var init := es[..|es| - 1];
      var e := es[|es| - 1];
      var kept := Dedup(init);
      DedupFirstOccurrenceOrder(init);
      DedupMembers(init);
      forall i, j | 0 <= i < j < |Dedup(es)|
        ensures OccursBefore(es, Dedup(es)[i], Dedup(es)[j])
      {
        assert Dedup(es)[i] == kept[i];
        if j < |kept| {
          assert Dedup(es)[j] == kept[j];
          assert OccursBefore(init, kept[i], kept[j]);
          var k :| 0 <= k < |init| && init[k] == kept[i] && kept[j] !in init[..k + 1];
          assert es[..k + 1] == init[..k + 1];
          assert es[k] == kept[i];
        } else {
          assert Dedup(es) == kept + [e] && e !in init;
          assert Dedup(es)[j] == e;
          assert kept[i] in init;
          var k :| 0 <= k < |init| && init[k] == kept[i];
          assert e !in es[..k + 1] by {
            assert es[..k + 1] == init[..k + 1];
            assert forall x :: x in init[..k + 1] ==> x in init;
          }
          assert es[k] == kept[i];
        }
      }
    }
  }

  /** A list without repeats is left as it is. */
  lemma {:induction false} DedupOfNoDuplicates(es: seq<Edge>)
    requires NoDuplicates(es)
    ensures Dedup(es) == es
  {
    if es != [] {
      var init := es[..|es| - 1];
      DedupOfNoDuplicates(init);
      assert es[|es| - 1] !in init by {
        forall k | 0 <= k < |init| ensures init[k] != es[|es| - 1] {
          assert init[k] == es[k];
        }
      }
      assert init + [es[|es| - 1]] == es;
    }
  }

  /** The deduplication pass is idempotent. */
  lemma DedupIdempotent(es: seq<Edge>)
    ensures Dedup(Dedup(es)) == Dedup(es)
  {
    DedupNoDuplicates(es);
    DedupOfNoDuplicates(Dedup(es));
  }

  // ---------------------------------------------------------------------
  // Which edges the rules propose
  // ---------------------------------------------------------------------

  /** Some rule that fires on `t` has an eligible source `tasks[i]` yielding `e`. */
  ghost predicate ProposedFor(sem: map<string, Category>, tasks: seq<Task>, t: Task, e: Edge)
    requires t.id in sem && forall o :: o in tasks ==> o.id in sem
  {
    exists r: Rule, i :: 0 <= i < |tasks| && Fires(r, sem, t) && Eligible(r, sem, tasks[i], t)
                         && e == Edge(tasks[i].id, t.id, RelationOf(r))
  }

  /** A rule's inner loop emits `o -> t` for exactly the eligible sources `o`. */
  lemma {:induction false} FanIff(r: Rule, sem: map<string, Category>, others: seq<Task>, t: Task)
    requires forall o :: o in others ==> o.id in sem
    ensures forall e :: e in Fan(r, sem, others, t) <==>
              exists o :: o in others && Eligible(r, sem, o, t) && e == Edge(o.id, t.id, RelationOf(r))
    decreases |others|
  {
    if others != [] {
      FanIff(r, sem, others[..|others| - 1], t);
      assert forall x :: x in others <==> x in others[..|others| - 1] || x == others[|others| - 1];
    }
  }

  lemma RuleEdgesIff(r: Rule, sem: map<string, Category>, tasks: seq<Task>, t: Task, e: Edge)
    requires t.id in sem && forall o :: o in tasks ==> o.id in sem
    ensures e in RuleEdges(r, sem, tasks, t) <==>
              exists i :: 0 <= i < |tasks| && Fires(r, sem, t) && Eligible(r, sem, tasks[i], t)
                          && e == Edge(tasks[i].id, t.id, RelationOf(r))
  {
    FanIff(r, sem, tasks, t);
    if e in RuleEdges(r, sem, tasks, t) {
      var o :| o in tasks && Eligible(r, sem, o, t) && e == Edge(o.id, t.id, RelationOf(r));
      var i :| 0 <= i < |tasks| && tasks[i] == o;
    }
  }

  lemma TargetEdgesIff(sem: map<string, Category>, tasks: seq<Task>, t: Task, e: Edge)
    requires t.id in sem && forall o :: o in tasks ==> o.id in sem
    ensures e in TargetEdges(sem, tasks, t) <==> ProposedFor(sem, tasks, t, e)
  {
    var r0 := RuleEdges(Temporal, sem, tasks, t);
    var r1 := RuleEdges(Aggregate, sem, tasks, t);
    var r2 := RuleEdges(ReviewGroup, sem, tasks, t);
    var r3 := RuleEdges(Collective, sem, tasks, t);
    assert e in TargetEdges(sem, tasks, t) <==> e in r0 || e in r1 || e in r2 || e in r3;
    RuleEdgesIff(Temporal, sem, tasks, t, e);
    RuleEdgesIff(Aggregate, sem, tasks, t, e);
    RuleEdgesIff(ReviewGroup, sem, tasks, t, e);
    RuleEdgesIff(Collective, sem, tasks, t, e);
    if ProposedFor(sem, tasks, t, e) {
      var r: Rule, i :| 0 <= i < |tasks| && Fires(r, sem, t) && Eligible(r, sem, tasks[i], t)
                         && e == Edge(tasks[i].id, t.id, RelationOf(r));
      match r
      case Temporal => assert e in r0;
      case Aggregate => assert e in r1;
      case ReviewGroup => assert e in r2;
      case Collective => assert e in r3;
    }
  }

  /** Some target among the first `n` tasks is proposed the edge `e`. */
  ghost predicate ProposedUpTo(sem: map<string, Category>, tasks: seq<Task>, n: nat, e: Edge)
    requires n <= |tasks| && forall o :: o in tasks ==> o.id in sem
  {
    exists j :: 0 <= j < n && ProposedFor(sem, tasks, tasks[j], e)
  }

  /** Some rule proposes `e` for some target of `tasks`. */
  ghost predicate Proposed(tasks: seq<Task>, e: Edge)
  {
    ProposedUpTo(Semantics(tasks), tasks, |tasks|, e)
  }

  lemma CandidatesUpToIff(sem: map<string, Category>, tasks: seq<Task>, n: nat, e: Edge)
    requires n <= |tasks| && forall o :: o in tasks ==> o.id in sem
    ensures e in CandidatesUpTo(sem, tasks, n) <==> ProposedUpTo(sem, tasks, n, e)
  {
    var k := 0;
    while k < n
      invariant k <= n
      invariant e in CandidatesUpTo(sem, tasks, k) <==> ProposedUpTo(sem, tasks, k, e)
    {
      TargetEdgesIff(sem, tasks, tasks[k], e);
      ProposedUpToStep(sem, tasks, k, e);
      k := k + 1;
    }
  }

  lemma ProposedUpToStep(sem: map<string, Category>, tasks: seq<Task>, m: nat, e: Edge)
    requires m < |tasks| && forall o :: o in tasks ==> o.id in sem
    ensures ProposedUpTo(sem, tasks, m + 1, e) <==>
              ProposedUpTo(sem, tasks, m, e) || ProposedFor(sem, tasks, tasks[m], e)
  {
    if ProposedUpTo(sem, tasks, m + 1, e) {
      var j :| 0 <= j < m + 1 && ProposedFor(sem, tasks, tasks[j], e);
      if j < m {
        assert ProposedUpTo(sem, tasks, m, e);
      }
    }
    if ProposedUpTo(sem, tasks, m, e) {
      var j :| 0 <= j < m && ProposedFor(sem, tasks, tasks[j], e);
      assert ProposedUpTo(sem, tasks, m + 1, e);
    }
    if ProposedFor(sem, tasks, tasks[m], e) {
      assert ProposedUpTo(sem, tasks, m + 1, e);
    }
  }

  /** An edge is in the graph iff some rule proposes it. */
  lemma DagIff(tasks: seq<Task>, e: Edge)
    ensures e in Dag(tasks) <==> Proposed(tasks, e)
  {
    DedupMembers(Candidates(tasks));
    CandidatesUpToIff(Semantics(tasks), tasks, |tasks|, e);
  }

  /** The graph edges are exactly what the rules propose for some target
      `tasks[j]` from some source `tasks[i]`. */
  lemma DagSource(tasks: seq<Task>, e: Edge) returns (j: nat, r: Rule, i: nat)
    requires e in Dag(tasks)
    ensures j < |tasks| && i < |tasks|
    ensures Fires(r, Semantics(tasks), tasks[j]) && Eligible(r, Semantics(tasks), tasks[i], tasks[j])
    ensures e == Edge(tasks[i].id, tasks[j].id, RelationOf(r))
  {
    var sem := Semantics(tasks);
    DagIff(tasks, e);
    j :| 0 <= j < |tasks| && ProposedFor(sem, tasks, tasks[j], e);
    r, i :| 0 <= i < |tasks| && Fires(r, sem, tasks[j]) && Eligible(r, sem, tasks[i], tasks[j])
            && e == Edge(tasks[i].id, tasks[j].id, RelationOf(r));
  }

  /** Conversely, whatever a rule proposes is in the graph. */
  lemma DagContains(tasks: seq<Task>, j: nat, r: Rule, i: nat)
    requires j < |tasks| && i < |tasks|
    requires Fires(r, Semantics(tasks), tasks[j]) && Eligible(r, Semantics(tasks), tasks[i], tasks[j])
    ensures Edge(tasks[i].id, tasks[j].id, RelationOf(r)) in Dag(tasks)
  {
    var sem := Semantics(tasks);
    var e := Edge(tasks[i].id, tasks[j].id, RelationOf(r));
    assert ProposedFor(sem, tasks, tasks[j], e);
    DagIff(tasks, e);
  }

  /** No edge joins a task id to itself. */
  lemma NoSelfLoops(tasks: seq<Task>)
    ensures forall e :: e in Dag(tasks) ==> e.from != e.to
  {
    forall e | e in Dag(tasks) ensures e.from != e.to {
      var j, r, i := DagSource(tasks, e);
    }
  }

  /** Both ends of every edge are ids of input tasks. */
  lemma EndpointsAreTaskIds(tasks: seq<Task>)
    ensures forall e :: e in Dag(tasks) ==>
              (exists i :: 0 <= i < |tasks| && tasks[i].id == e.from)
              && (exists j :: 0 <= j < |tasks| && tasks[j].id == e.to)
  {
    forall e | e in Dag(tasks)
      ensures exists i :: 0 <= i < |tasks| && tasks[i].id == e.from
      ensures exists j :: 0 <= j < |tasks| && tasks[j].id == e.to
    {
      var j, r, i := DagSource(tasks, e);
    }
  }

  /** The graph holds each triple once, in the order its first candidate was made. */
  lemma DagIsFirstOccurrences(tasks: seq<Task>)
    ensures NoDuplicates(Dag(tasks))
    ensures forall e :: e in Dag(tasks) <==> e in Candidates(tasks)
    ensures forall i, j :: 0 <= i < j < |Dag(tasks)| ==>
              OccursBefore(Candidates(tasks), Dag(tasks)[i], Dag(tasks)[j])
  {
    DedupNoDuplicates(Candidates(tasks));
    DedupMembers(Candidates(tasks));
    DedupFirstOccurrenceOrder(Candidates(tasks));
  }

  /** The temporal rule, as written: `o -> t` iff `t` has a temporal trigger,
      `o` is another id, `o`'s owner token occurs in `t`'s text and `o` is not
      administrative. Nothing excludes an `o` with the same owner as `t`. */
  lemma TemporalEdgeIff(tasks: seq<Task>, a: string, b: string)
    ensures Edge(a, b, TemporalAfter) in Dag(tasks) <==>
              exists j, i :: 0 <= j < |tasks| && 0 <= i < |tasks| && tasks[j].id == b && tasks[i].id == a
                && a != b
                && ContainsAny(Lower(tasks[j].text), TemporalTriggers)
                && Contains(Lower(tasks[j].text), Owner(tasks[i]))
                && !IsAdmin(Lower(tasks[i].text))
  {
    if Edge(a, b, TemporalAfter) in Dag(tasks) {
      var j, r, i := DagSource(tasks, Edge(a, b, TemporalAfter));
      assert r == Temporal;
    }
    forall j, i | 0 <= j < |tasks| && 0 <= i < |tasks| && tasks[j].id == b && tasks[i].id == a
                && a != b
                && ContainsAny(Lower(tasks[j].text), TemporalTriggers)
                && Contains(Lower(tasks[j].text), Owner(tasks[i]))
                && !IsAdmin(Lower(tasks[i].text))
      ensures Edge(a, b, TemporalAfter) in Dag(tasks)
    {
      DagContains(tasks, j, Temporal, i);
    }
  }

  /** The aggregation rule: `o -> t` iff `t` is REVIEW and `o` is BUILD
      (categories read from the id-keyed map); administrative sources are not excluded. */
  lemma AggregationEdgeIff(tasks: seq<Task>, a: string, b: string)
    ensures Edge(a, b, Aggregation) in Dag(tasks) <==>
              exists j, i :: 0 <= j < |tasks| && 0 <= i < |tasks| && tasks[j].id == b && tasks[i].id == a
                && Semantics(tasks)[b] == Review && Semantics(tasks)[a] == Build
  {
    if Edge(a, b, Aggregation) in Dag(tasks) {
      var j, r, i := DagSource(tasks, Edge(a, b, Aggregation));
      assert r == Aggregate;
    }
    forall j, i | 0 <= j < |tasks| && 0 <= i < |tasks| && tasks[j].id == b && tasks[i].id == a
                && Semantics(tasks)[b] == Review && Semantics(tasks)[a] == Build
      ensures Edge(a, b, Aggregation) in Dag(tasks)
    {
      DagContains(tasks, j, Aggregate, i);
    }
  }

  /** Rule 2b's test on target `tasks[j]` and source `tasks[i]`: a REVIEW target
      saying "after both", "after all", "once both" or "when both", and a DESIGN
      or BUILD source (administrative or not). */
  ghost predicate ReviewGroupPair(tasks: seq<Task>, j: nat, i: nat)
    requires j < |tasks| && i < |tasks|
  {
    && Semantics(tasks)[tasks[j].id] == Review
    && ContainsAny(Lower(tasks[j].text), ReviewGroupTriggers)
    && Semantics(tasks)[tasks[i].id] in {Design, Build}
  }

  /** The collective rule's test: a collective-completion phrase in the target,
      and a source that is another id and not administrative. */
  ghost predicate CollectivePair(tasks: seq<Task>, j: nat, i: nat)
    requires j < |tasks| && i < |tasks|
  {
    && ContainsAny(Lower(tasks[j].text), CollectiveTriggers)
    && tasks[i].id != tasks[j].id
    && !IsAdmin(Lower(tasks[i].text))
  }

  /** `group_dependency` edges come from rule 2b or from the collective rule, and from nowhere else. */
  lemma GroupEdgeIff(tasks: seq<Task>, a: string, b: string)
    ensures Edge(a, b, GroupDependency) in Dag(tasks) <==>
              exists j: nat, i: nat :: j < |tasks| && i < |tasks| && tasks[j].id == b && tasks[i].id == a
                && (ReviewGroupPair(tasks, j, i) || CollectivePair(tasks, j, i))
  {
    if Edge(a, b, GroupDependency) in Dag(tasks) {
      var j, r, i := DagSource(tasks, Edge(a, b, GroupDependency));
      assert r == ReviewGroup || r == Collective;
      assert ReviewGroupPair(tasks, j, i) || CollectivePair(tasks, j, i);
    }
    forall j: nat, i: nat | j < |tasks| && i < |tasks| && tasks[j].id == b && tasks[i].id == a
                && (ReviewGroupPair(tasks, j, i) || CollectivePair(tasks, j, i))
      ensures Edge(a, b, GroupDependency) in Dag(tasks)
    {
      if ReviewGroupPair(tasks, j, i) {
        DagContains(tasks, j, ReviewGroup, i);
      } else {
        DagContains(tasks, j, Collective, i);
      }
    }
  }

  // ---------------------------------------------------------------------
  // The order of the edges
  // ---------------------------------------------------------------------

  /** The rank of a relation in the order the rules run: temporal, then
      aggregation, then the two group rules, which share the rank of
      group_dependency (rule 2b before the collective rule is fixed by
      TargetEdges itself). */
  function RelationRank(r: Relation): nat
  {
    match r
    case TemporalAfter => 0
    case Aggregation => 1
    case GroupDependency => 2
  }

  /** `x` may come before `y` in the source's order: both point into the same
      target and `x`'s relation ranks no later, or `x`'s target precedes `y`'s. */
  ghost predicate InEdgeOrder(tasks: seq<Task>, x: Edge, y: Edge)
  {
    || (x.to == y.to && RelationRank(x.relation) <= RelationRank(y.relation))
    || exists a, b :: 0 <= a < b < |tasks| && tasks[a].id == x.to && tasks[b].id == y.to
  }

  ghost predicate Ordered(tasks: seq<Task>, es: seq<Edge>)
  {
    forall p, q :: 0 <= p < q < |es| ==> InEdgeOrder(tasks, es[p], es[q])
  }

  ghost predicate RankSorted(es: seq<Edge>)
  {
    forall p, q :: 0 <= p < q < |es| ==> RelationRank(es[p].relation) <= RelationRank(es[q].relation)
  }

  lemma RankSortedAppend(a: seq<Edge>, b: seq<Edge>)
    requires RankSorted(a) && RankSorted(b)
    requires forall x, y :: x in a && y in b ==> RelationRank(x.relation) <= RelationRank(y.relation)
    ensures RankSorted(a + b)
  {
    forall p, q | 0 <= p < q < |a + b|
      ensures RelationRank((a + b)[p].relation) <= RelationRank((a + b)[q].relation)
    {
      if q < |a| {
        assert (a + b)[p] == a[p] && (a + b)[q] == a[q];
      } else if p < |a| {
        assert (a + b)[p] == a[p] && (a + b)[q] == b[q - |a|];
      } else {
        assert (a + b)[p] == b[p - |a|] && (a + b)[q] == b[q - |a|];
      }
    }
  }

  /** All edges of `es` point into `to` and carry the relation `rel`. */
  ghost predicate Uniform(es: seq<Edge>, to: string, rel: Relation)
  {
    forall e :: e in es ==> e.to == to && e.relation == rel
  }

  /** Four blocks of uniform edges into one target, in increasing relation
      rank, form a rank-sorted list into that target. */
  lemma FourBlocks(r0: seq<Edge>, r1: seq<Edge>, r2: seq<Edge>, r3: seq<Edge>, to: string)
    requires Uniform(r0, to, TemporalAfter) && Uniform(r1, to, Aggregation)
    requires Uniform(r2, to, GroupDependency) && Uniform(r3, to, GroupDependency)
    ensures RankSorted(r0 + r1 + r2 + r3)
    ensures forall e :: e in r0 + r1 + r2 + r3 ==> e.to == to
  {
    RankSortedAppend(r0, r1);
    RankSortedAppend(r0 + r1, r2);
    RankSortedAppend(r0 + r1 + r2, r3);
  }

  /** For one target the candidates come temporal first, then aggregation,
      then group dependency, and all point into that target. */
  lemma TargetEdgesSorted(sem: map<string, Category>, tasks: seq<Task>, t: Task)
    requires t.id in sem && forall o :: o in tasks ==> o.id in sem
    ensures RankSorted(TargetEdges(sem, tasks, t))
    ensures forall e :: e in TargetEdges(sem, tasks, t) ==> e.to == t.id
  {
    FourBlocks(RuleEdges(Temporal, sem, tasks, t), RuleEdges(Aggregate, sem, tasks, t),
               RuleEdges(ReviewGroup, sem, tasks, t), RuleEdges(Collective, sem, tasks, t), t.id);
  }

  /** Some task among the first `n` has the id `id`. */
  ghost predicate TargetBefore(tasks: seq<Task>, id: string, n: nat)
  {
    exists a :: 0 <= a < n && a < |tasks| && tasks[a].id == id
  }

  /** Appending the rank-sorted candidates of target `tasks[m]` to an
      ordered list whose targets all come earlier keeps it ordered. */
  lemma OrderedSnoc(tasks: seq<Task>, init: seq<Edge>, last: seq<Edge>, m: nat)
    requires m < |tasks|
    requires Ordered(tasks, init) && RankSorted(last)
    requires forall e :: e in init ==> TargetBefore(tasks, e.to, m)
    requires forall e :: e in last ==> e.to == tasks[m].id
    ensures Ordered(tasks, init + last)
    ensures forall e :: e in init + last ==> TargetBefore(tasks, e.to, m + 1)
  {
    var all := init + last;
    forall p, q | 0 <= p < q < |all| ensures InEdgeOrder(tasks, all[p], all[q]) {
      if q < |init| {
        assert all[p] == init[p] && all[q] == init[q];
      } else if p < |init| {
        assert all[p] == init[p] && all[q] == last[q - |init|];
        assert init[p] in init;
        var a :| 0 <= a < m && a < |tasks| && tasks[a].id == all[p].to;
        assert tasks[m].id == all[q].to;
      } else {
        assert all[p] == last[p - |init|] && all[q] == last[q - |init|];
      }
    }
    forall e | e in all ensures TargetBefore(tasks, e.to, m + 1) {
      if e in init {
        var a :| 0 <= a < m && a < |tasks| && tasks[a].id == e.to;
      } else {
        assert tasks[m].id == e.to;
      }
    }
  }

  lemma CandidatesUpToOrdered(sem: map<string, Category>, tasks: seq<Task>, n: nat)
    requires n <= |tasks| && forall o :: o in tasks ==> o.id in sem
    ensures Ordered(tasks, CandidatesUpTo(sem, tasks, n))
    ensures forall e :: e in CandidatesUpTo(sem, tasks, n) ==> TargetBefore(tasks, e.to, n)
  {
    var k := 0;
    while k < n
      invariant k <= n
      invariant Ordered(tasks, CandidatesUpTo(sem, tasks, k))
      invariant forall e :: e in CandidatesUpTo(sem, tasks, k) ==> TargetBefore(tasks, e.to, k)
    {
      CandidatesStep(sem, tasks, k);
      k := k + 1;
    }
  }

  lemma CandidatesStep(sem: map<string, Category>, tasks: seq<Task>, m: nat)
    requires m < |tasks| && forall o :: o in tasks ==> o.id in sem
    requires Ordered(tasks, CandidatesUpTo(sem, tasks, m))
    requires forall e :: e in CandidatesUpTo(sem, tasks, m) ==> TargetBefore(tasks, e.to, m)
    ensures Ordered(tasks, CandidatesUpTo(sem, tasks, m + 1))
    ensures forall e :: e in CandidatesUpTo(sem, tasks, m + 1) ==> TargetBefore(tasks, e.to, m + 1)
  {
    TargetEdgesSorted(sem, tasks, tasks[m]);
    OrderedSnoc(tasks, CandidatesUpTo(sem, tasks, m), TargetEdges(sem, tasks, tasks[m]), m);
  }

  /** The candidate list is in target order and, per target, in relation order. */
  lemma CandidatesOrdered(tasks: seq<Task>)
    ensures Ordered(tasks, Candidates(tasks))
  {
    CandidatesUpToOrdered(Semantics(tasks), tasks, |tasks|);
  }

  /** Deduplication keeps that order: the graph lists edges by target and,
      per target, temporal before aggregation before group dependency. */
  lemma DagOrdered(tasks: seq<Task>)
    ensures Ordered(tasks, Dag(tasks))
  {
    var c := Candidates(tasks);
    var d := Dag(tasks);
    CandidatesOrdered(tasks);
    DedupFirstOccurrenceOrder(c);
    DedupMembers(c);
    forall i, j | 0 <= i < j < |d| ensures InEdgeOrder(tasks, d[i], d[j]) {
      assert OccursBefore(c, d[i], d[j]);
      var k :| 0 <= k < |c| && c[k] == d[i] && d[j] !in c[..k + 1];
      forall x | 0 <= x <= k ensures c[x] != d[j] {
        assert c[..k + 1][x] == c[x];
      }
      assert d[j] in c;
      var q :| 0 <= q < |c| && c[q] == d[j];
      assert k < q;
    }
  }
}
