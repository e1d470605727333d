# nlp-transcript: the dependency graph, speaker names and task owners

This project models the parts of the meeting-transcript pipeline that do not
talk to a language model:

- `build_dag`. It takes the extracted action items (id, text, role,
  confidence) and infers a dependency graph. There are four lexical rules:
  - a temporal rule;
  - REVIEW aggregates BUILD;
  - rule 2b, where a REVIEW "after both" waits for DESIGN and BUILD;
  - a collective-completion rule.

  It then deduplicates the candidate edges on the whole
  `(from, to, relation)` triple.
- `extract_names`. It collects the speaker labels `Name:` that open
  transcript lines and returns them sorted.
- The owner side of `main.py`:
  - `resolve_owners`: participants named in a task, else participants with
    the task's role;
  - the loop that files each task under every owner's e-mail;
  - the three confidence buckets of a person's tasks.

Modules:

- `Text` (text.dfy) covers ASCII lower-casing, substring search, the first
  whitespace-separated token and subsequences. Whitespace for `str.split()`
  is the set of characters Python's `str.isspace` accepts.
- `DagSpec` (dag_spec.dfy) states the graph as functions: the classifier,
  the rules, the candidate list and the deduplication.
- `DagProperties` (dag_properties.dfy) proves what that graph means.
- `DagBuilder` (dag_builder.dfy) is `build_dag` with its loops. It is
  proved equal to `DagSpec.Dag`.
- `NameExtractor` (name_extractor.dfy) is `extract_names`.
- `Owners` (owners.dfy) covers `resolve_owners`, `tasks_by_person` and the
  buckets.
- `DagExample` (dag_example.dfy) works the graph out on three tasks.

What the code of `build_dag` does, and the model with it:

- Deduplication keys on the `(from, to, relation)` triple. Two edges between
  the same pair of ids under different relations both stay.
- The temporal rule links every other, non-administrative task whose owner
  token occurs in the target's text. It looks at nothing else: ids, the
  owner token, the two texts.
- The collective rule fires on nine phrases, from "once they" to
  "when they're done". The "after both" family belongs to rule 2b, which
  only fires on REVIEW targets.
- The aggregation rule and rule 2b accept administrative sources.
- Duplicate task ids are accepted. The id-to-category dictionary keeps the
  last task with each id (`DagProperties.SemanticsIsLastWins`).

The worked input in `DagExample` has three tasks. Maria designs the
dashboard layout. Raj updates the frontend "after Maria finishes the
design". Sara reviews "once both tasks are done". Raj's text holds
"design", so it is a DESIGN task and no aggregation edge arises.
The graph is the temporal edge from Maria's task to Raj's and rule 2b's two
group dependencies into Sara's review.

## Model

| member | source | states |
|---|---|---|
| DagSpec.TaskSemantics | src/dag_builder.py:41-51 | the category's keywords occur in the lower-cased text (unless OTHER), and no keyword of any earlier category in the order DESIGN, BUILD, REVIEW, COMM occurs |
| DagSpec.Keywords | src/dag_builder.py:43-50 | the keyword list each `if` of `task_semantics` tests, none for OTHER |
| DagSpec.Rank | src/dag_builder.py:43-51 | the order in which `task_semantics` tests the categories: DESIGN, BUILD, REVIEW, COMM, then OTHER |
| DagProperties.FirstMatchIsUnique | src/dag_builder.py:41-51 | a category whose keywords match while no earlier category matches is the classifier's answer, so the classifier is exactly first-match |
| DagProperties.DesignPrecedesReview | src/dag_builder.py:43-48 | a text containing both "design" and "review" is DESIGN |
| DagSpec.Semantics | src/dag_builder.py:53 | the id-keyed category map has exactly the tasks' ids as keys |
| DagProperties.SemanticsIsLastWins | src/dag_builder.py:53 | an id maps to the category of the last task carrying that id |
| DagProperties.SemanticsOfUniqueIds | src/dag_builder.py:53 | with unique ids, each task's id maps to its own text's category |
| DagSpec.Fan | src/dag_builder.py:60-101 | one rule's inner loop over all tasks emits at most one edge per task, all into the target with the rule's relation |
| DagProperties.FanIff | src/dag_builder.py:60-101 | a rule's inner loop emits `o -> t` exactly for the eligible sources `o` among the tasks |
| DagProperties.RuleEdgesIff | src/dag_builder.py:55-101 | an edge is emitted by a rule for a target iff the rule fires on the target and the source is eligible |
| DagProperties.TargetEdgesIff | src/dag_builder.py:55-101 | the edges proposed for one target are exactly those of the four rules |
| DagProperties.ProposedUpToStep | src/dag_builder.py:55-101 | an edge is proposed for the first n+1 targets iff it is proposed for the first n or for target n+1 |
| DagProperties.CandidatesUpToIff | src/dag_builder.py:55-101 | after the first n targets, the candidate list holds exactly the edges proposed for those targets |
| DagProperties.DagIff | src/dag_builder.py:35-112 | an edge is in the result iff some rule proposed it for some target |
| DagProperties.DagSource | src/dag_builder.py:35-112 | every result edge names a target, a rule that fires on it and an eligible source task |
| DagProperties.DagContains | src/dag_builder.py:35-112 | every firing rule with an eligible source contributes its edge to the result |
| DagProperties.NoSelfLoops | src/dag_builder.py:55-101 | no result edge goes from an id to itself |
| DagProperties.EndpointsAreTaskIds | src/dag_builder.py:55-101 | both ends of every result edge are ids of input tasks |
| DagProperties.TemporalEdgeIff | src/dag_builder.py:56-69 | a temporal_after edge a->b exists iff some task b has a temporal trigger, some task a is another id whose first word occurs in b's text, and a is not administrative |
| DagProperties.AggregationEdgeIff | src/dag_builder.py:71-79 | an aggregation edge a->b exists iff a and b are input ids with b REVIEW and a BUILD |
| DagProperties.GroupEdgeIff | src/dag_builder.py:81-101 | a group_dependency edge a->b exists iff rule 2b (REVIEW target saying "after both"/"after all"/"once both"/"when both", DESIGN or BUILD source) or the collective rule (collective phrase, another id, non-administrative source) links them |
| DagProperties.DedupMembers | src/dag_builder.py:103-112 | deduplication keeps exactly the edges of its input |
| DagProperties.DedupNoDuplicates | src/dag_builder.py:103-112 | deduplication leaves no two equal triples |
| DagProperties.DedupFirstOccurrenceOrder | src/dag_builder.py:103-112 | kept edges appear in the order of their first occurrences in the input |
| DagProperties.DedupOfNoDuplicates | src/dag_builder.py:103-112 | a list without repeated triples passes deduplication unchanged |
| DagProperties.DedupIdempotent | src/dag_builder.py:103-112 | deduplicating twice is deduplicating once |
| DagProperties.DagIsFirstOccurrences | src/dag_builder.py:103-112 | the result has no repeated triples, holds exactly the candidates, and keeps their first-occurrence order |
| DagProperties.RankSortedAppend | src/dag_builder.py:58-101 | joining two relation-ordered lists, with every relation in the first no later than every one in the second, keeps them relation-ordered |
| DagProperties.TargetEdgesSorted | src/dag_builder.py:58-101 | within one target, candidates come temporal, then aggregation, then group_dependency, all into that target |
| DagProperties.OrderedSnoc | src/dag_builder.py:55-101 | appending one target's relation-ordered edges to an ordered list whose targets all come earlier keeps it ordered |
| DagProperties.CandidatesStep | src/dag_builder.py:55-101 | processing one more target keeps the candidate list in target order and, per target, in relation order |
| DagProperties.CandidatesUpToOrdered | src/dag_builder.py:55-101 | the candidates of the first n targets are grouped by target in input order, and within a target temporal_after before aggregation before group_dependency |
| DagProperties.CandidatesOrdered | src/dag_builder.py:55-101 | the whole candidate list is in target order, then relation order (temporal_after, aggregation, group_dependency) |
| DagProperties.DagOrdered | src/dag_builder.py:35-112 | the final edge list keeps target order, then relation order |
| DagBuilder.TemporalPass | src/dag_builder.py:56-69 | the temporal loop appends exactly the temporal rule's edges for the target |
| DagBuilder.AggregationPass | src/dag_builder.py:71-79 | the aggregation loop appends exactly that rule's edges for the target |
| DagBuilder.ReviewGroupPass | src/dag_builder.py:81-91 | the rule 2b loop appends exactly that rule's edges for the target |
| DagBuilder.CollectivePass | src/dag_builder.py:93-101 | the collective loop appends exactly that rule's edges for the target |
| DagBuilder.ProposeFor | src/dag_builder.py:56-101 | one iteration of the outer loop appends exactly the target's candidates, the four rules in order |
| DagBuilder.ProposeAll | src/dag_builder.py:55-101 | the outer loop builds the whole candidate list |
| DagBuilder.DedupPass | src/dag_builder.py:103-112 | the `seen`-set loop computes the deduplication: no repeated triple, same members |
| DagBuilder.BuildDag | src/dag_builder.py:35-112 | the loops compute the graph: no self loops, no repeated triples, target order then relation order, empty input gives no edges |
| DagBuilder.TokensWhereRead | src/dag_builder.py:59-63 | the input on which `split()[0]` never raises: every task read as another task of a target with a temporal trigger has a token |
| Text.Lower | src/dag_builder.py:42 | lower-casing keeps the length, leaves no capital, keeps every other character and maps each ASCII capital to the small letter at the same alphabet position |
| Text.LowerIdempotent | src/dag_builder.py:42 | lower-casing twice is lower-casing once, so the already lower-cased texts the rules compare are unchanged by it |
| Text.FirstWord | src/dag_builder.py:63 | the first token has no whitespace and is empty iff the text has no token |
| Text.FirstWordOf | src/dag_builder.py:63 | after leading whitespace, a whitespace-free run that is followed by whitespace or the end is the first token |
| Text.IsSpace | src/dag_builder.py:63 | the separator set of `str.split()`: the characters `str.isspace` accepts |
| Text.HasToken | src/dag_builder.py:63 | `split()` of the text is non-empty, so `split()[0]` does not raise: some character is not whitespace |
| Text.Contains | src/dag_builder.py:39 | the `in` test on strings, by scanning the positions of the text |
| Text.ContainsIff | src/dag_builder.py:39 | the scan finds `k` iff `k` occurs as a contiguous block of the text at some position |
| Text.ContainsAny | src/dag_builder.py:39 | `any(k in text for k in keywords)` |
| DagSpec.IsAdmin | src/dag_builder.py:38-39 | a text is administrative iff it holds "meeting" or "schedule" |
| DagSpec.Owner | src/dag_builder.py:63 | the owner token of a task is lower-case, has no whitespace, and is empty iff the text has no token |
| DagSpec.Fires | src/dag_builder.py:59-94 | which target condition each rule tests: a temporal trigger, a REVIEW target, a REVIEW target with an "after both" phrase, a collective phrase |
| DagSpec.Eligible | src/dag_builder.py:60-96 | which source each rule accepts: another id with the owner token in the target and not administrative; a BUILD task; a DESIGN or BUILD task; another, non-administrative id |
| DagSpec.RuleEdges | src/dag_builder.py:58-101 | one rule's contribution for a target: its fan over all tasks when the rule fires on the target, otherwise nothing |
| DagSpec.TargetEdges | src/dag_builder.py:56-101 | one outer iteration's candidates: the temporal, aggregation, rule 2b and collective rules' edges, concatenated in that order |
| DagSpec.CandidatesUpTo | src/dag_builder.py:55-101 | the `edges` list after the first n iterations of `for t in tasks`: each processed target's candidates, in input order |
| DagSpec.Candidates | src/dag_builder.py:53-101 | the `edges` list before deduplication: each target's candidates, targets in input order, with the id-keyed category map |
| DagSpec.Dedup | src/dag_builder.py:103-112 | the first copy of each triple, in input order |
| DagSpec.Dag | src/dag_builder.py:35-112 | `build_dag` as a function: the deduplicated candidate list |
| DagExample.ExampleDag | src/dag_builder.py:35-112 | on the three example tasks the graph is exactly task_0 -> task_1 temporal_after, task_0 -> task_2 and task_1 -> task_2 group_dependency |
| NameExtractor.SpeakerLabel | src/name_extractor.py:7 | the label a line opens with, if it has the `Name:` shape |
| NameExtractor.IsName | src/name_extractor.py:7 | the full-match shape of the group `[A-Z][a-zA-Z]+` |
| NameExtractor.Below | src/name_extractor.py:11 | Python's code-point lexicographic `<` on strings, the order `sorted()` uses |
| NameExtractor.SpeakerLabelIff | src/name_extractor.py:7 | a line's label is n iff n is a capital ASCII letter followed by one or more ASCII letters and the line starts with n and a colon |
| NameExtractor.LetterRunEnd | src/name_extractor.py:7 | the `[a-zA-Z]+` scan stops at the first non-letter at or after its start, or at the end of the line |
| NameExtractor.Labels | src/name_extractor.py:4-9 | every collected name has the label shape |
| NameExtractor.LabelsIff | src/name_extractor.py:4-9 | a name is collected iff some line starts with it and a colon and it has the label shape |
| NameExtractor.BelowTotal | src/name_extractor.py:11 | the string order used for sorting is total on distinct strings |
| NameExtractor.BelowTransitive | src/name_extractor.py:11 | that order is transitive |
| NameExtractor.Least | src/name_extractor.py:11 | a non-empty set of names has a member below all the others |
| NameExtractor.ExtractNames | src/name_extractor.py:3-11 | the result is strictly ascending (so duplicate-free), holds exactly the collected names, and is empty for no lines |
| NameExtractor.SortedUnique | src/name_extractor.py:11 | two strictly ascending lists with the same members are equal |
| NameExtractor.LabelsIgnoreOrder | src/name_extractor.py:6-9 | the collected names depend only on which lines occur, not on their order |
| NameExtractor.NamesIgnoreOrder | src/name_extractor.py:3-11 | the returned list does not depend on line order or repetition |
| Owners.ByName | src/main.py:66-69 | the name pass keeps, in list order, exactly the participants whose lower-cased name occurs in the lower-cased text, each as often as it is listed |
| Owners.NameIn | src/main.py:63-68 | the participant's lower-cased name occurs in the lower-cased task text |
| Owners.ByRole | src/main.py:71-75 | the role pass keeps, in list order, exactly the participants with the task's role, each as often as it is listed |
| Owners.Owners | src/main.py:62-77 | `resolve_owners` as a function: the named participants if any, else those with the role |
| Owners.OwnersMeaning | src/main.py:62-77 | the owners are a subsequence of the participants: the named ones, each as often as listed, when any is named, otherwise those with the task's role, each as often as listed |
| Owners.ResolveOwners | src/main.py:62-77 | the two loops return the owners, with the same guarantees |
| Owners.File | src/main.py:89-93 | one `setdefault` and append: the grouping dictionary after filing one task under one owner |
| Owners.AssignTo | src/main.py:88-93 | the inner `for owner in owners` steps for one task: the task filed under each owner, in owner order |
| Owners.Assignments | src/main.py:83-93 | every filing step of the grouping loop, in order: for each task, one per resolved owner, none for an ownerless task |
| Owners.FileAll | src/main.py:89-93 | the dictionary after a run of filing steps, each a `setdefault` and append |
| Owners.Grouped | src/main.py:81-93 | `tasks_by_person` after the loop: every task filed once per resolved owner, in task order, from an empty dictionary |
| Owners.HasEmailSnoc | src/main.py:89-93 | one more assignment uses an e-mail iff the earlier ones did or it does |
| Owners.FirstNameSnoc | src/main.py:89-92 | once an e-mail has an entry, later assignments do not change its name |
| Owners.FirstNameFirst | src/main.py:89-92 | the first assignment with an e-mail fixes the entry's name |
| Owners.FileAllMeaning | src/main.py:89-93 | after a run of assignments, an e-mail is a key iff some assignment used it; its entry carries that e-mail, the first owner's name and the tasks filed under it in order |
| Owners.FileAllAppend | src/main.py:81-93 | filing two runs of assignments one after the other is filing their concatenation |
| Owners.FileUnderOwners | src/main.py:88-93 | the inner loop files the task once under each owner, in owner order |
| Owners.GroupTasks | src/main.py:81-93 | the loop builds the grouping dictionary of all tasks |
| Owners.TasksOfAppend | src/main.py:89-93 | the tasks filed under an e-mail by two runs of assignments are those of the first run, then those of the second |
| Owners.Mentions | src/main.py:88-93 | the count of owners with an e-mail is positive iff some owner has it |
| Owners.TasksOfAssignTo | src/main.py:88-93 | filing one task under its owners files it under an e-mail once per owner with that e-mail |
| Owners.TasksOfAssignments | src/main.py:81-93 | the tasks filed under an e-mail are each input task, in order, repeated once per owner with that e-mail |
| Owners.TasksForIff | src/main.py:83-93 | a task is on that list iff it is an input task with an owner of that e-mail |
| Owners.HasEmailTasks | src/main.py:89-93 | an e-mail has been used iff something is filed under it, since every `setdefault` is followed by an append |
| Owners.HasEmailIff | src/main.py:83-93 | an e-mail is used iff some task has an owner with it |
| Owners.FirstNameIsEarliest | src/main.py:89-92 | the recorded name belongs to the earliest assignment with that e-mail |
| Owners.GroupedMeaning | src/main.py:81-93 | the dictionary has a key exactly for the e-mails of owners of some task, so ownerless tasks file nothing; an entry's e-mail is its key, its name is that of the first owner seen with it, and its tasks are the input tasks owned under it, in order, once per such owner |
| Owners.GroupedTasksIff | src/main.py:81-93 | a task is in a person's group iff it is an input task one of whose owners has that person's e-mail |
| Owners.ExactlyOneBucket | src/main.py:98-100 | every confidence satisfies exactly one of >= 0.75, [0.5, 0.75) and < 0.5 |
| Owners.InBucket | src/main.py:98-100 | the three comprehension conditions on a confidence: >= 0.75, [0.5, 0.75), < 0.5 |
| Owners.Bucketed | src/main.py:98-100 | the tasks of a person whose confidence passes a bucket's test, in order |
| Owners.BucketedMeaning | src/main.py:98-100 | a bucket is the subsequence of the tasks whose confidence meets its condition |
| Owners.BucketsPartition | src/main.py:98-100 | the three buckets together hold each task exactly as often as the list does |
| Owners.EmailIff | src/main.py:98-102 | `high or medium` is non-empty iff some task has confidence at least 0.5 |

## Left out

- Reading files, `json`, `glob`, `print`, the e-mail body text, `send_email`,
  `ask_confirmation` and the workflow dump in `src/main.py`. These are I/O;
  the participant list and the tasks are parameters here.
- The language-model modules `src/action_extractor.py` and `src/role_assigner.py`,
  and `extract_first_json_array`/`PROMPT` in `src/dag_builder.py`. These are
  foreign calls and JSON parsing; `build_dag` never calls them.
- `src/generate_participants_ui.py`, `src/visualize.py` and `src/slack_confirm.py`.
  These are UI, plotting and HTTP.
- `str.lower()` is modelled for ASCII letters only. Non-ASCII case mappings
  (including ones that change length) are not modelled.
- DagBuilder.BuildDag requires that every text whose first word is read has
  a token. On a blank text the source raises `IndexError` from
  `split()[0]`. That happens when some other task carries a temporal
  trigger. The exception path is not modelled.
- Confidence is a mathematical real. Floating-point NaN, which fails all
  three bucket tests, and rounding are not modelled.
- Task records are fixed records; missing dictionary keys (`KeyError`) are
  not modelled.
- Owners.GroupTasks: Python dictionary insertion order, which decides the
  order in which people are e-mailed, is not modelled. The model returns a
  map.
