/** A worked input for `build_dag`: three tasks, one designer, one developer
    and one reviewer. Because "design" is tested first, the developer's task
    (which mentions "the design") is classified DESIGN, so no aggregation edge
    arises, and rule 2b links both earlier tasks to the review. Each text is
    written as its words joined by single spaces, so that every fact about a
    text comes from facts about its words. */
module DagExample {
  import opened Text
  import opened DagSpec
  import opened DagProperties

  const Words0: seq<string> := ["Maria", "will", "design", "the", "dashboard", "layout"]
  const Words1: seq<string> :=
    ["Raj", "will", "update", "the", "frontend", "components", "after", "Maria", "finishes", "the", "design"]
  const Words2: seq<string> := ["Sara", "will", "review", "everything", "once", "both", "tasks", "are", "done"]

  /** "Maria will design the dashboard layout" */
  const Text0 := JoinWith(Words0, ' ', 0)
  /** "Raj will update the frontend components after Maria finishes the design" */
  const Text1 := JoinWith(Words1, ' ', 0)
  /** "Sara will review everything once both tasks are done" */
  const Text2 := JoinWith(Words2, ' ', 0)

  const LowWords0: seq<string> := ["maria", "will", "design", "the", "dashboard", "layout"]
  const LowWords1: seq<string> :=
    ["raj", "will", "update", "the", "frontend", "components", "after", "maria", "finishes", "the", "design"]
  const LowWords2: seq<string> := ["sara", "will", "review", "everything", "once", "both", "tasks", "are", "done"]

  const Low0 := JoinWith(LowWords0, ' ', 0)
  const Low1 := JoinWith(LowWords1, ' ', 0)
  const Low2 := JoinWith(LowWords2, ' ', 0)

  // Lower-casing.

  lemma LowerWords0()
    ensures LowerEach(Words0) == LowWords0
  {
    assert Lower("Maria") == "maria";
    LowerOfLower("will");
    LowerOfLower("design");
    LowerOfLower("the");
    LowerOfLower("dashboard");
    LowerOfLower("layout");
  }

  lemma Lower0()
    ensures Lower(Text0) == Low0
  {
    LowerJoin(Words0, ' ', 0);
    LowerWords0();
  }

  lemma LowerWords1()
    ensures LowerEach(Words1) == LowWords1
  {
    assert Lower("Raj") == "raj";
    assert Lower("Maria") == "maria";
    LowerOfLower("will");
    LowerOfLower("update");
    LowerOfLower("the");
    LowerOfLower("frontend");
    LowerOfLower("components");
    LowerOfLower("after");
    LowerOfLower("finishes");
    LowerOfLower("design");
  }

  lemma Lower1()
    ensures Lower(Text1) == Low1
  {
    LowerJoin(Words1, ' ', 0);
    LowerWords1();
  }

  lemma LowerWords2()
    ensures LowerEach(Words2) == LowWords2
  {
    assert Lower("Sara") == "sara";
    LowerOfLower("will");
    LowerOfLower("review");
    LowerOfLower("everything");
    LowerOfLower("once");
    LowerOfLower("both");
    LowerOfLower("tasks");
    LowerOfLower("are");
    LowerOfLower("done");
  }

  lemma Lower2()
    ensures Lower(Text2) == Low2
  {
    LowerJoin(Words2, ' ', 0);
    LowerWords2();
  }

  // Keywords that are present or absent.

  /** A keyword without spaces that no word holds is not in the words joined by spaces. */
  lemma WordsLack(ws: seq<string>, k: string)
    requires ws != [] && ' ' !in k
    requires forall w :: w in ws ==> !Contains(w, k)
    ensures !Contains(JoinWith(ws, ' ', 0), k)
  {
    NotInJoin(ws, ' ', 0, [k]);
  }

  /** Letters that no word of `Low0` holds. */
  lemma Low0Letters(x: char)
    requires x in "cfpqx"
    ensures x !in Low0
  {
    CharNotInJoin(LowWords0, ' ', 0, x);
  }

  /** `k` is not in `s` because its block `b` is not. */
  lemma NotViaBlock(s: string, k: string, b: string)
    requires !Contains(s, b) && Contains(k, b)
    ensures !Contains(s, k)
  {
    if Contains(s, k) {
      ContainsTrans(s, k, b);
    }
  }

  lemma Low0Present()
    ensures Contains(Low0, "design")
  {
    MatchContains("design", "design", 0);
    WordInJoin(LowWords0, ' ', 0, 2, "design");
  }

  /** Words that no word of `Low0` holds, and so `Low0` does not. */
  lemma Low0Lacks(k: string)
    requires k in ["when", "soon", "later", "end", "meeting"]
    ensures !Contains(Low0, k)
  {
    forall j | 0 <= j < |LowWords0| ensures !Contains(LowWords0[j], k) {
      ContainsIff(LowWords0[j], k);
    }
    WordsLack(LowWords0, k);
  }

  lemma Low0NotAdmin()
    ensures !IsAdmin(Low0)
  {
    Low0Lacks("meeting");
    Low0Letters('c');
    MissingCharNotContains(Low0, "schedule", 'c');
  }

  /** A text lacking the letters c, f, p, q, x and the words "when", "soon"
      and "later" holds no temporal trigger. */
  lemma NoTemporalTrigger(s: string)
    requires 'c' !in s && 'f' !in s && 'p' !in s && 'q' !in s && 'x' !in s
    requires !Contains(s, "when") && !Contains(s, "soon") && !Contains(s, "later")
    ensures !ContainsAny(s, TemporalTriggers)
  {
    MissingCharNotContains(s, "after", 'f');
    MissingCharNotContains(s, "once", 'c');
    MissingCharNotContains(s, "following", 'f');
    MissingCharNotContains(s, "upon", 'p');
    MatchContains("as soon as", "soon", 3);
    NotViaBlock(s, "as soon as", "soon");
    MissingCharNotContains(s, "subsequent", 'q');
    MissingCharNotContains(s, "next", 'x');
  }

  /** The collective triggers that open with "when". */
  lemma WhenBlocks()
    ensures Contains("when all", "when") && Contains("when all tasks", "when")
    ensures Contains("when they're done", "when")
  {
    MatchContains("when all", "when", 0);
    MatchContains("when all tasks", "when", 0);
    MatchContains("when they're done", "when", 0);
  }

  /** A text lacking the letters c, f and the words "when" and "end" holds
      no collective trigger. */
  lemma NoCollectiveTrigger(s: string)
    requires 'c' !in s && 'f' !in s && !Contains(s, "when") && !Contains(s, "end")
    ensures !ContainsAny(s, CollectiveTriggers)
  {
    MissingCharNotContains(s, "once they", 'c');
    MissingCharNotContains(s, "after everything", 'f');
    MissingCharNotContains(s, "after all tasks", 'f');
    MissingCharNotContains(s, "once all tasks", 'c');
    MissingCharNotContains(s, "after all of them", 'f');
    WhenBlocks();
    NotViaBlock(s, "when all", "when");
    NotViaBlock(s, "when all tasks", "when");
    NotViaBlock(s, "when they're done", "when");
    EndBlocks();
    NotViaBlock(s, "at the end", "end");
  }

  lemma Low0NoTemporal()
    ensures !ContainsAny(Low0, TemporalTriggers)
  {
    Low0Letters('c');
    Low0Letters('f');
    Low0Letters('p');
    Low0Letters('q');
    Low0Letters('x');
    Low0Lacks("when");
    Low0Lacks("soon");
    Low0Lacks("later");
    NoTemporalTrigger(Low0);
  }

  lemma Low0NoCollective()
    ensures !ContainsAny(Low0, CollectiveTriggers)
  {
    Low0Letters('c');
    Low0Letters('f');
    Low0Lacks("when");
    Low0Lacks("end");
    NoCollectiveTrigger(Low0);
  }
  lemma Low1Present()
    ensures Contains(Low1, "design") && Contains(Low1, "after") && Contains(Low1, "maria")
  {
    MatchContains("design", "design", 0);
    WordInJoin(LowWords1, ' ', 0, 10, "design");
    MatchContains("after", "after", 0);
    WordInJoin(LowWords1, ' ', 0, 6, "after");
    MatchContains("maria", "maria", 0);
    WordInJoin(LowWords1, ' ', 0, 7, "maria");
  }

  /** Words that no word of `Low1` holds, and so `Low1` does not. */
  lemma Low1Lacks(k: string)
    requires k in ["when", "all", "sara"]
    ensures !Contains(Low1, k)
  {
    forall j | 0 <= j < |LowWords1| ensures !Contains(LowWords1[j], k) {
      ContainsIff(LowWords1[j], k);
    }
    WordsLack(LowWords1, k);
  }

  /** "once they", "after everything" and "when they're done" all need a y,
      and no word of Raj's text has one. */
  lemma Low1LacksY()
    ensures 'y' !in Low1
  {
    CharNotInJoin(LowWords1, ' ', 0, 'y');
  }

  /** No word of `Low1` starts with an e, so no space in it is followed by "end". */
  lemma Low1LacksEnd()
    ensures !Contains(Low1, " end")
  {
    forall w | w in LowWords1 ensures ' ' !in w && !("end" <= w) {
      assert w[0] != 'e';
    }
    SepPrefixNotInJoin(LowWords1, ' ', 0, "end");
    assert [' '] + "end" == " end";
  }

  /** A text shaped like Raj's lower-cased text (no y, and none of the blocks
      "when", "all" and " end") holds no collective trigger: y rules out the
      three triggers that contain it, the blocks rule out the others. */
  lemma NoCollectiveTriggerInLow1Shape(s: string)
    requires 'y' !in s && !Contains(s, "when") && !Contains(s, "all") && !Contains(s, " end")
    ensures !ContainsAny(s, CollectiveTriggers)
  {
    MissingCharNotContains(s, "once they", 'y');
    MissingCharNotContains(s, "after everything", 'y');
    MissingCharNotContains(s, "when they're done", 'y');
    WhenBlocks();
    NotViaBlock(s, "when all", "when");
    NotViaBlock(s, "when all tasks", "when");
    AllBlocks();
    NotViaBlock(s, "after all tasks", "all");
    NotViaBlock(s, "once all tasks", "all");
    NotViaBlock(s, "after all of them", "all");
    EndBlocks();
    NotViaBlock(s, "at the end", " end");
  }

  /** The collective trigger "at the end" holds " end", and so "end". */
  lemma EndBlocks()
    ensures Contains("at the end", " end") && Contains("at the end", "end")
  {
    MatchContains("at the end", " end", 6);
    MatchContains("at the end", "end", 7);
  }

  /** The collective triggers that hold "all", and "once they". */
  lemma AllBlocks()
    ensures Contains("after all tasks", "all") && Contains("once all tasks", "all")
    ensures Contains("after all of them", "all") && Contains("once they", "they")
  {
    MatchContains("once they", "they", 5);
    MatchContains("after all tasks", "all", 6);
    MatchContains("once all tasks", "all", 5);
    MatchContains("after all of them", "all", 6);
  }

  lemma Low1NoCollective()
    ensures !ContainsAny(Low1, CollectiveTriggers)
  {
    Low1LacksY();
    Low1Lacks("when");
    Low1Lacks("all");
    Low1LacksEnd();
    NoCollectiveTriggerInLow1Shape(Low1);
  }

  lemma Low2Present()
    ensures Contains(Low2, "review") && Contains(Low2, "once") && Contains(Low2, "once both")
  {
    MatchContains("review", "review", 0);
    WordInJoin(LowWords2, ' ', 0, 2, "review");
    MatchContains("once", "once", 0);
    WordInJoin(LowWords2, ' ', 0, 4, "once");
    MatchContains("once both", "once both", 0);
    PairInJoin(LowWords2, ' ', 0, 4, "once both");
  }

  /** Letters that no word of `Low2` holds. */
  lemma Low2Letters(x: char)
    requires x in "fjmpu"
    ensures x !in Low2
  {
    CharNotInJoin(LowWords2, ' ', 0, x);
  }

  lemma Low2NotDesign()
    ensures !ContainsAny(Low2, DesignWords)
  {
    Low2Lacks("design");
    MatchContains("redesign", "design", 2);
    NotViaBlock(Low2, "redesign", "design");
    Low2Letters('u');
    MissingCharNotContains(Low2, "layout", 'u');
    MissingCharNotContains(Low2, "ux", 'u');
  }

  lemma Low2NotBuild()
    ensures !ContainsAny(Low2, BuildWords)
  {
    Low2Letters('u');
    Low2Letters('f');
    Low2Letters('p');
    MissingCharNotContains(Low2, "update", 'u');
    MissingCharNotContains(Low2, "fix", 'f');
    MissingCharNotContains(Low2, "implement", 'p');
    MissingCharNotContains(Low2, "frontend", 'f');
  }

  /** Words that no word of `Low2` holds, and so `Low2` does not. */
  lemma Low2Lacks(k: string)
    requires k in ["design", "when", "they", "all", "end"]
    ensures !Contains(Low2, k)
  {
    forall j | 0 <= j < |LowWords2| ensures !Contains(LowWords2[j], k) {
      ContainsIff(LowWords2[j], k);
    }
    WordsLack(LowWords2, k);
  }

  lemma Low2LacksOwners()
    ensures !Contains(Low2, "maria") && !Contains(Low2, "raj")
  {
    Low2Letters('m');
    Low2Letters('j');
    MissingCharNotContains(Low2, "maria", 'm');
    MissingCharNotContains(Low2, "raj", 'j');
  }

  /** A text shaped like Sara's lower-cased text (no f, and none of the blocks
      "they", "when", "all" and "end") holds no collective trigger: f rules out
      the triggers with "after", the blocks rule out the others. */
  lemma NoCollectiveTriggerInLow2Shape(s: string)
    requires 'f' !in s && !Contains(s, "they") && !Contains(s, "when")
    requires !Contains(s, "all") && !Contains(s, "end")
    ensures !ContainsAny(s, CollectiveTriggers)
  {
    AllBlocks();
    NotViaBlock(s, "once they", "they");
    MissingCharNotContains(s, "after everything", 'f');
    MissingCharNotContains(s, "after all tasks", 'f');
    MissingCharNotContains(s, "after all of them", 'f');
    WhenBlocks();
    NotViaBlock(s, "when all", "when");
    NotViaBlock(s, "when all tasks", "when");
    NotViaBlock(s, "when they're done", "when");
    NotViaBlock(s, "once all tasks", "all");
    EndBlocks();
    NotViaBlock(s, "at the end", "end");
  }

  lemma Low2NoCollective()
    ensures !ContainsAny(Low2, CollectiveTriggers)
  {
    Low2Letters('f');
    Low2Lacks("they");
    Low2Lacks("when");
    Low2Lacks("all");
    Low2Lacks("end");
    NoCollectiveTriggerInLow2Shape(Low2);
  }

  // The classifier, the owners and the graph.

  /** The three tasks; their roles and confidences play no part in the graph. */
  function Tasks(r0: string, r1: string, r2: string, c0: real, c1: real, c2: real): seq<Task>
  {
    [Task("task_0", Text0, r0, c0), Task("task_1", Text1, r1, c1), Task("task_2", Text2, r2, c2)]
  }

  lemma Category0()
    ensures TaskSemantics(Text0) == Design
  {
    Lower0();
    Low0Present();
  }

  lemma Category1()
    ensures TaskSemantics(Text1) == Design
  {
    Lower1();
    Low1Present();
  }

  lemma Category2()
    ensures TaskSemantics(Text2) == Review
  {
    Lower2();
    Low2NotDesign();
    Low2NotBuild();
    Low2Present();
  }

  lemma Owner0()
    ensures Lower(FirstWord(Text0)) == "maria"
  {
    FirstWordJoin(Words0);
    assert Lower("Maria") == "maria";
  }

  lemma Owner1()
    ensures Lower(FirstWord(Text1)) == "raj"
  {
    FirstWordJoin(Words1);
    assert Lower("Raj") == "raj";
  }

  lemma Owner2()
    ensures Lower(FirstWord(Text2)) == "sara"
  {
    FirstWordJoin(Words2);
    assert Lower("Sara") == "sara";
  }

  lemma SemanticsOfThree(a: Task, b: Task, c: Task)
    ensures Semantics([a, b, c])
            == map[][a.id := TaskSemantics(a.text)][b.id := TaskSemantics(b.text)][c.id := TaskSemantics(c.text)]
  {
    assert [a][..0] == [];
    assert Semantics([a]) == map[][a.id := TaskSemantics(a.text)];
    assert [a, b][..1] == [a];
    assert Semantics([a, b]) == Semantics([a])[b.id := TaskSemantics(b.text)];
    assert [a, b, c][..2] == [a, b];
    assert Semantics([a, b, c]) == Semantics([a, b])[c.id := TaskSemantics(c.text)];
  }

  lemma ExampleSemantics(ts: seq<Task>)
    requires Shaped(ts)
    ensures Semantics(ts) == Sem
  {
    SemanticsOfThree(ts[0], ts[1], ts[2]);
    Category0();
    Category1();
    Category2();
  }

  /** The classification of the three tasks, as a map from id. */
  const Sem := map["task_0" := Design, "task_1" := Design, "task_2" := Review]

  /** What one rule proposes from one or two candidate sources. */
  lemma FanOfTwo(r: Rule, sem: map<string, Category>, a: Task, b: Task, t: Task)
    requires a.id in sem && b.id in sem
    ensures Fan(r, sem, [a], t) == (if Eligible(r, sem, a, t) then [Edge(a.id, t.id, RelationOf(r))] else [])
    ensures Fan(r, sem, [a, b], t)
            == Fan(r, sem, [a], t) + (if Eligible(r, sem, b, t) then [Edge(b.id, t.id, RelationOf(r))] else [])
  {
    assert [a][..0] == [];
    assert [a, b][..1] == [a];
  }

  /** What one rule proposes from three candidate sources, in their order. */
  lemma FanOfThree(r: Rule, sem: map<string, Category>, a: Task, b: Task, c: Task, t: Task)
    requires a.id in sem && b.id in sem && c.id in sem
    ensures Fan(r, sem, [a, b, c], t)
            == (if Eligible(r, sem, a, t) then [Edge(a.id, t.id, RelationOf(r))] else [])
               + (if Eligible(r, sem, b, t) then [Edge(b.id, t.id, RelationOf(r))] else [])
               + (if Eligible(r, sem, c, t) then [Edge(c.id, t.id, RelationOf(r))] else [])
  {
    FanOfTwo(r, sem, a, b, t);
    assert [a, b, c][..2] == [a, b];
  }

  /** The three tasks in order, whatever their roles and confidences. */
  ghost predicate Shaped(ts: seq<Task>)
  {
    |ts| == 3 && ts == [ts[0], ts[1], ts[2]]
    && ts[0].id == "task_0" && ts[1].id == "task_1" && ts[2].id == "task_2"
    && ts[0].text == Text0 && ts[1].text == Text1 && ts[2].text == Text2
  }

  /** The first task, a design task with no trigger word, receives no edge. */
  lemma Target0(ts: seq<Task>)
    requires Shaped(ts)
    ensures TargetEdges(Sem, ts, ts[0]) == []
  {
    Lower0();
    Low0NoTemporal();
    Low0NoCollective();
  }

  /** Maria's task is a temporal source for Raj's, Sara's is not. */
  lemma Temporal1(ts: seq<Task>)
    requires Shaped(ts)
    ensures Eligible(Temporal, Sem, ts[0], ts[1])
    ensures !Eligible(Temporal, Sem, ts[1], ts[1]) && !Eligible(Temporal, Sem, ts[2], ts[1])
  {
    Lower0();
    Lower1();
    Low1Present();
    Low1Lacks("sara");
    Low0NotAdmin();
    Owner0();
    Owner2();
  }

  lemma Fires1(ts: seq<Task>)
    requires Shaped(ts)
    ensures Fires(Temporal, Sem, ts[1]) && !Fires(Collective, Sem, ts[1])
  {
    Lower1();
    Low1Present();
    Low1NoCollective();
  }

  /** The second task names Maria after "after": one temporal edge from the first. */
  lemma Target1(ts: seq<Task>)
    requires Shaped(ts)
    ensures TargetEdges(Sem, ts, ts[1]) == [Edge("task_0", "task_1", TemporalAfter)]
  {
    Fires1(ts);
    Temporal1(ts);
    FanOfThree(Temporal, Sem, ts[0], ts[1], ts[2], ts[1]);
  }

  /** No task's owner is named in Sara's task. */
  lemma Temporal2(ts: seq<Task>)
    requires Shaped(ts)
    ensures !Eligible(Temporal, Sem, ts[0], ts[2]) && !Eligible(Temporal, Sem, ts[1], ts[2])
    ensures !Eligible(Temporal, Sem, ts[2], ts[2])
  {
    Lower2();
    Low2LacksOwners();
    Owner0();
    Owner1();
  }

  lemma Fires2(ts: seq<Task>)
    requires Shaped(ts)
    ensures Fires(Temporal, Sem, ts[2]) && Fires(ReviewGroup, Sem, ts[2]) && !Fires(Collective, Sem, ts[2])
  {
    Lower2();
    Low2Present();
    Low2NoCollective();
  }

  lemma Rules2(ts: seq<Task>)
    requires Shaped(ts)
    ensures RuleEdges(Temporal, Sem, ts, ts[2]) == []
    ensures RuleEdges(Aggregate, Sem, ts, ts[2]) == []
    ensures RuleEdges(Collective, Sem, ts, ts[2]) == []
  {
    Fires2(ts);
    Temporal2(ts);
    FanOfThree(Temporal, Sem, ts[0], ts[1], ts[2], ts[2]);
    FanOfThree(Aggregate, Sem, ts[0], ts[1], ts[2], ts[2]);
  }

  /** The review is reached by rule 2b from both design tasks and by nothing else. */
  lemma Target2(ts: seq<Task>)
    requires Shaped(ts)
    ensures TargetEdges(Sem, ts, ts[2])
            == [Edge("task_0", "task_2", GroupDependency), Edge("task_1", "task_2", GroupDependency)]
  {
    Fires2(ts);
    Rules2(ts);
    FanOfThree(ReviewGroup, Sem, ts[0], ts[1], ts[2], ts[2]);
  }

  /** The candidate list of the three tasks, before deduplication. */
  lemma ExampleCandidates(ts: seq<Task>)
    requires Shaped(ts)
    ensures CandidatesUpTo(Sem, ts, 3)
            == [Edge("task_0", "task_1", TemporalAfter),
                Edge("task_0", "task_2", GroupDependency),
                Edge("task_1", "task_2", GroupDependency)]
  {
    Target0(ts);
    Target1(ts);
    Target2(ts);
    assert CandidatesUpTo(Sem, ts, 1) == [];
    assert CandidatesUpTo(Sem, ts, 2) == [Edge("task_0", "task_1", TemporalAfter)];
  }

  lemma ExampleShaped(r0: string, r1: string, r2: string, c0: real, c1: real, c2: real)
    ensures Shaped(Tasks(r0, r1, r2, c0, c1, c2))
  {
  }

  lemma DagOfShaped(ts: seq<Task>)
    requires Shaped(ts)
    ensures Dag(ts)
            == [Edge("task_0", "task_1", TemporalAfter),
                Edge("task_0", "task_2", GroupDependency),
                Edge("task_1", "task_2", GroupDependency)]
  {
    ExampleSemantics(ts);
    ExampleCandidates(ts);
    assert Candidates(ts) == CandidatesUpTo(Sem, ts, 3);
    ThreeEdgesDistinct();
  }

  lemma ThreeEdgesDistinct()
    ensures Dedup([Edge("task_0", "task_1", TemporalAfter),
                   Edge("task_0", "task_2", GroupDependency),
                   Edge("task_1", "task_2", GroupDependency)])
            == [Edge("task_0", "task_1", TemporalAfter),
                Edge("task_0", "task_2", GroupDependency),
                Edge("task_1", "task_2", GroupDependency)]
  {
    var es := [Edge("task_0", "task_1", TemporalAfter),
               Edge("task_0", "task_2", GroupDependency),
               Edge("task_1", "task_2", GroupDependency)];
    assert NoDuplicates(es);
    DedupOfNoDuplicates(es);
  }

  /** `build_dag` on the three tasks yields exactly the temporal edge from
      Maria's task to Raj's and the two group dependencies into Sara's review. */
  lemma ExampleDag(r0: string, r1: string, r2: string, c0: real, c1: real, c2: real)
    ensures Dag(Tasks(r0, r1, r2, c0, c1, c2))
            == [Edge("task_0", "task_1", TemporalAfter),
                Edge("task_0", "task_2", GroupDependency),
                Edge("task_1", "task_2", GroupDependency)]
  {
    ExampleShaped(r0, r1, r2, c0, c1, c2);
    DagOfShaped(Tasks(r0, r1, r2, c0, c1, c2));
  }
}
