/** The task-dependency graph of `build_dag` as values: tasks and edges, the
    administrative filter, the semantic classifier, the four edge rules and the
    deduplication pass, each as a function. DagBuilder.BuildDag computes the
    same result with the source's loops; DagProperties proves what it means. */
module DagSpec {
  import opened Text

  /** A task record `{id, text, role, confidence}`; only `id` and `text` are read here. */
  datatype Task = Task(id: string, text: string, role: string, confidence: real)

  datatype Category = Design | Build | Review | Comm | Other

  datatype Relation = TemporalAfter | Aggregation | GroupDependency

  /** An edge `{from, to, relation}`; the whole triple is the deduplication key. */
  datatype Edge = Edge(from: string, to: string, relation: Relation)

  const AdminWords: seq<string> := ["meeting", "schedule"]
  const DesignWords: seq<string> := ["design", "redesign", "layout", "ux"]
  const BuildWords: seq<string> := ["update", "fix", "implement", "frontend"]
  const ReviewWords: seq<string> := ["review", "approve"]
  const CommWords: seq<string> := ["client", "inform"]
  const TemporalTriggers: seq<string> :=
    ["after", "once", "when", "following", "upon", "as soon as", "later", "subsequent", "next"]
  const ReviewGroupTriggers: seq<string> := ["after both", "after all", "once both", "when both"]
  const CollectiveTriggers: seq<string> :=
    ["once they", "after everything", "when all", "after all tasks", "once all tasks",
     "when all tasks", "after all of them", "at the end", "when they're done"]

  /** `is_admin`: the (already lower-cased) text mentions a meeting or a schedule. */
  predicate IsAdmin(text: string)
  {
    ContainsAny(text, AdminWords)
  }

  /** The keyword set that selects each category; OTHER has none. */
  function Keywords(c: Category): seq<string>
  {
    match c
    case Design => DesignWords
    case Build => BuildWords
    case Review => ReviewWords
    case Comm => CommWords
    case Other => []
  }

  /** Precedence of the categories: the classifier tries them in this order. */
  function Rank(c: Category): nat
  {
    match c
    case Design => 0
    case Build => 1
    case Review => 2
    case Comm => 3
    case Other => 4
  }

  /** `task_semantics`: the category of highest precedence whose keywords occur
      in the lower-cased text; OTHER when none occurs. */
  function TaskSemantics(text: string): (c: Category)
    ensures c != Other ==> ContainsAny(Lower(text), Keywords(c))
    ensures forall d :: Rank(d) < Rank(c) ==> !ContainsAny(Lower(text), Keywords(d))
  {
    var t := Lower(text);
    if ContainsAny(t, DesignWords) then Design
    else if ContainsAny(t, BuildWords) then Build
    else if ContainsAny(t, ReviewWords) then Review
    else if ContainsAny(t, CommWords) then Comm
    else Other
  }

  /** The owner token: the lower-cased first word of the text. */
  function Owner(t: Task): (name: string)
    ensures forall i :: 0 <= i < |name| ==> !IsSpace(name[i]) && !IsUpper(name[i])
    ensures name != [] <==> HasToken(t.text)
  {
    Lower(FirstWord(t.text))
  }

  /** `semantics`: the dict comprehension keyed by id; a later task with the
      same id overwrites an earlier one. */
  function Semantics(tasks: seq<Task>): (sem: map<string, Category>)
    ensures sem.Keys == set t | t in tasks :: t.id
  {
    if tasks == [] then map[]
    else
      var last := tasks[|tasks| - 1];
      Semantics(tasks[..|tasks| - 1])[last.id := TaskSemantics(last.text)]
  }

  /** The four rules in the order `build_dag` runs them for each target. */
  datatype Rule = Temporal | Aggregate | ReviewGroup | Collective

  function RelationOf(r: Rule): Relation
  {
    match r
    case Temporal => TemporalAfter
    case Aggregate => Aggregation
    case ReviewGroup => GroupDependency
    case Collective => GroupDependency
  }

  /** The rule's outer test on the target `t`. */
  predicate Fires(r: Rule, sem: map<string, Category>, t: Task)
    requires t.id in sem
  {
    match r
    case Temporal => ContainsAny(Lower(t.text), TemporalTriggers)
    case Aggregate => sem[t.id] == Review
    case ReviewGroup => sem[t.id] == Review && ContainsAny(Lower(t.text), ReviewGroupTriggers)
    case Collective => ContainsAny(Lower(t.text), CollectiveTriggers)
  }

  /** The rule's inner test on a candidate source `o` for the target `t`. */
  predicate Eligible(r: Rule, sem: map<string, Category>, o: Task, t: Task)
    requires o.id in sem
  {
    match r
    case Temporal => o.id != t.id && Contains(Lower(t.text), Owner(o)) && !IsAdmin(Lower(o.text))
    case Aggregate => sem[o.id] == Build
    case ReviewGroup => sem[o.id] in {Design, Build}
    case Collective => o.id != t.id && !IsAdmin(Lower(o.text))
  }

  /** Edges `o -> t` of relation `RelationOf(r)` for the eligible `o` of `others`, in order. */
  function Fan(r: Rule, sem: map<string, Category>, others: seq<Task>, t: Task): (es: seq<Edge>)
    requires forall o :: o in others ==> o.id in sem
    ensures |es| <= |others|
    ensures forall e :: e in es ==> e.to == t.id && e.relation == RelationOf(r)
  {
    if others == [] then []
    else
      var o := others[|others| - 1];
      var rest := Fan(r, sem, others[..|others| - 1], t);
      if Eligible(r, sem, o, t) then rest + [Edge(o.id, t.id, RelationOf(r))] else rest
  }

  /** What one rule contributes for the target `t`. */
  function RuleEdges(r: Rule, sem: map<string, Category>, tasks: seq<Task>, t: Task): seq<Edge>
    requires t.id in sem && forall o :: o in tasks ==> o.id in sem
  {
    if Fires(r, sem, t) then Fan(r, sem, tasks, t) else []
  }

  /** All candidates for the target `t`: temporal, aggregation, rule 2b, collective. */
  function TargetEdges(sem: map<string, Category>, tasks: seq<Task>, t: Task): seq<Edge>
    requires t.id in sem && forall o :: o in tasks ==> o.id in sem
  {
    RuleEdges(Temporal, sem, tasks, t) + RuleEdges(Aggregate, sem, tasks, t)
    + RuleEdges(ReviewGroup, sem, tasks, t) + RuleEdges(Collective, sem, tasks, t)
  }

  /** The candidate list after the first `n` targets have been processed. */
  function CandidatesUpTo(sem: map<string, Category>, tasks: seq<Task>, n: nat): seq<Edge>
    requires n <= |tasks| && forall o :: o in tasks ==> o.id in sem
  {
    if n == 0 then []
    else CandidatesUpTo(sem, tasks, n - 1) + TargetEdges(sem, tasks, tasks[n - 1])
  }

  /** The `edges` list before deduplication. */
  function Candidates(tasks: seq<Task>): seq<Edge>
  {
    var sem := Semantics(tasks);
    CandidatesUpTo(sem, tasks, |tasks|)
  }

  /** The deduplication pass: the first occurrence of each edge, in order. */
  function Dedup(edges: seq<Edge>): seq<Edge>
  {
    if edges == [] then []
    else
      var kept := Dedup(edges[..|edges| - 1]);
      var e := edges[|edges| - 1];
      if e in kept then kept else kept + [e]
  }

  /** `build_dag` as a function of its input. */
  function Dag(tasks: seq<Task>): seq<Edge>
  {
    Dedup(Candidates(tasks))
  }
}
