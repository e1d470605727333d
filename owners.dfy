/** The owner side of the pipeline: `resolve_owners` (participants whose name
    the task mentions, else those with the task's role), the loop that files
    each task under every owner's e-mail address, and the three confidence
    buckets of a person's tasks. The participant list is a parameter. */
module Owners {
  import opened Text
  import opened DagSpec

  datatype Participant = Participant(name: string, email: string, role: string)

  /** A person's entry in `tasks_by_person`. */
  datatype Group = Group(name: string, email: string, tasks: seq<Task>)

  // ---------------------------------------------------------------------
  // resolve_owners
  // ---------------------------------------------------------------------

  /** The participant's lower-cased name occurs in the lower-cased task text. */
  predicate NameIn(p: Participant, text: string)
  {
    Contains(Lower(text), Lower(p.name))
  }

  /** The participants named in `text`, in list order, each as often as it
      is listed. */
  function ByName(ps: seq<Participant>, text: string): (r: seq<Participant>)
    ensures Subseq(r, ps)
    ensures forall p :: multiset(r)[p] == if NameIn(p, text) then multiset(ps)[p] else 0
    ensures forall p :: p in r <==> p in ps && NameIn(p, text)
  {
    if ps == [] then []
    else
      var init := ps[..|ps| - 1];
      var p := ps[|ps| - 1];
      var rest := ByName(init, text);
      SubseqSnoc(rest, init, p);
      assert init + [p] == ps;
      assert multiset(ps) == multiset(init) + multiset{p};
      if NameIn(p, text) then
        assert multiset(rest + [p]) == multiset(rest) + multiset{p};
        rest + [p]
      else rest
  }

  /** The participants whose role is `role`, in list order, each as often as
      it is listed. */
  function ByRole(ps: seq<Participant>, role: string): (r: seq<Participant>)
    ensures Subseq(r, ps)
    ensures forall p :: multiset(r)[p] == if p.role == role then multiset(ps)[p] else 0
    ensures forall p :: p in r <==> p in ps && p.role == role
  {
    if ps == [] then []
    else
      var init := ps[..|ps| - 1];
      var p := ps[|ps| - 1];
      var rest := ByRole(init, role);
      SubseqSnoc(rest, init, p);
      assert init + [p] == ps;
      assert multiset(ps) == multiset(init) + multiset{p};
      if p.role == role then
        assert multiset(rest + [p]) == multiset(rest) + multiset{p};
        rest + [p]
      else rest
  }

  /** What `resolve_owners` returns for `task`. */
  function Owners(ps: seq<Participant>, task: Task): seq<Participant>
  {
    var named := ByName(ps, task.text);
    if named != [] then named else ByRole(ps, task.role)
  }

  /** The owners are a subsequence of the participant list: the name matches
      when some participant is named, otherwise the role matches. */
  lemma OwnersMeaning(ps: seq<Participant>, task: Task)
    ensures Subseq(Owners(ps, task), ps)
    ensures (exists p :: p in ps && NameIn(p, task.text)) ==>
              forall p :: multiset(Owners(ps, task))[p] == if NameIn(p, task.text) then multiset(ps)[p] else 0
    ensures (exists p :: p in ps && NameIn(p, task.text)) ==>
              forall p :: p in Owners(ps, task) <==> p in ps && NameIn(p, task.text)
    ensures (forall p :: p in ps ==> !NameIn(p, task.text)) ==>
              forall p :: multiset(Owners(ps, task))[p] == if p.role == task.role then multiset(ps)[p] else 0
    ensures (forall p :: p in ps ==> !NameIn(p, task.text)) ==>
              forall p :: p in Owners(ps, task) <==> p in ps && p.role == task.role
  {
    var named := ByName(ps, task.text);
    if exists p :: p in ps && NameIn(p, task.text) {
      var p :| p in ps && NameIn(p, task.text);
      assert p in named;
    }
    assert named != [] ==> named[0] in named;
  }

  /** `resolve_owners`: a pass collecting the named participants, and, only if
      it found none, a pass collecting those with the task's role. */
  method ResolveOwners(participants: seq<Participant>, task: Task) returns (owners: seq<Participant>)
    ensures owners == Owners(participants, task)
    ensures Subseq(owners, participants)
    ensures (exists p :: p in participants && NameIn(p, task.text)) ==>
              forall p :: multiset(owners)[p] == if NameIn(p, task.text) then multiset(participants)[p] else 0
    ensures (exists p :: p in participants && NameIn(p, task.text)) ==>
              forall p :: p in owners <==> p in participants && NameIn(p, task.text)
    ensures (forall p :: p in participants ==> !NameIn(p, task.text)) ==>
              forall p :: multiset(owners)[p] == if p.role == task.role then multiset(participants)[p] else 0
    ensures (forall p :: p in participants ==> !NameIn(p, task.text)) ==>
              forall p :: p in owners <==> p in participants && p.role == task.role
  {
    var text := Lower(task.text);
    owners := [];
    for i := 0 to |participants|
      invariant owners == ByName(participants[..i], task.text)
    {
      assert participants[..i + 1][..i] == participants[..i];
      var p := participants[i];
      if Contains(text, Lower(p.name)) {
        owners := owners + [p];
      }
    }
    assert participants[..|participants|] == participants;
    if owners == [] {
      for i := 0 to |participants|
        invariant owners == ByRole(participants[..i], task.role)
      {
        assert participants[..i + 1][..i] == participants[..i];
        var p := participants[i];
        if p.role == task.role {
          owners := owners + [p];
        }
      }
      assert participants[..|participants|] == participants;
    }
    OwnersMeaning(participants, task);
  }

  // ---------------------------------------------------------------------
  // tasks_by_person
  // ---------------------------------------------------------------------

  /** One step of the grouping loop: `task` filed under `owner`'s e-mail. */
  datatype Assignment = Assignment(owner: Participant, task: Task)

  /** The inner loop's steps for one task: the task under each owner, in order. */
  function AssignTo(os: seq<Participant>, t: Task): seq<Assignment>
  {
    seq(|os|, i requires 0 <= i < |os| => Assignment(os[i], t))
  }

  /** The assignments the loop performs, in order: per task, one per owner. */
  function Assignments(ps: seq<Participant>, tasks: seq<Task>): seq<Assignment>
  {
    if tasks == [] then []
    else
      var last := tasks[|tasks| - 1];
      Assignments(ps, tasks[..|tasks| - 1]) + AssignTo(Owners(ps, last), last)
  }

  /** `setdefault(email, {name, email, tasks: []})["tasks"].append(task)`. */
  function File(m: map<string, Group>, a: Assignment): map<string, Group>
  {
    var e := a.owner.email;
    var g := if e in m then m[e] else Group(a.owner.name, e, []);
    m[e := g.(tasks := g.tasks + [a.task])]
  }

  /** The dictionary after the assignments `log`, starting from `m`. */
  function FileAll(m: map<string, Group>, log: seq<Assignment>): map<string, Group>
  {
    if log == [] then m else File(FileAll(m, log[..|log| - 1]), log[|log| - 1])
  }

  /** `tasks_by_person` after the loop over `tasks`. */
  function Grouped(ps: seq<Participant>, tasks: seq<Task>): map<string, Group>
  {
    FileAll(map[], Assignments(ps, tasks))
  }

  /** The tasks of the assignments to owners with e-mail `e`, in order. */
  function TasksOf(log: seq<Assignment>, e: string): seq<Task>
  {
    if log == [] then []
    else
      var a := log[|log| - 1];
      TasksOf(log[..|log| - 1], e) + if a.owner.email == e then [a.task] else []
  }

  ghost predicate HasEmail(log: seq<Assignment>, e: string)
  {
    exists i :: 0 <= i < |log| && log[i].owner.email == e
  }

  /** The name of the first owner in `log` with e-mail `e`. */
  function FirstName(log: seq<Assignment>, e: string): string
  {
    if log == [] then ""
    else if log[0].owner.email == e then log[0].owner.name
    else FirstName(log[1..], e)
  }

  lemma {:induction false} FirstNameSnoc(log: seq<Assignment>, a: Assignment, e: string)
    requires HasEmail(log, e)
    ensures FirstName(log + [a], e) == FirstName(log, e)
    decreases |log|
  {
    if log[0].owner.email != e {
      assert (log + [a])[1..] == log[1..] + [a];
      var i :| 0 <= i < |log| && log[i].owner.email == e;
      assert log[1..][i - 1].owner.email == e;
      FirstNameSnoc(log[1..], a, e);
    }
  }

  lemma {:induction false} FirstNameFirst(log: seq<Assignment>, a: Assignment, e: string)
    requires !HasEmail(log, e) && a.owner.email == e
    ensures FirstName(log + [a], e) == a.owner.name
    decreases |log|
  {
    if log != [] {
      assert log[0].owner.email != e;
      assert (log + [a])[1..] == log[1..] + [a];
      assert !HasEmail(log[1..], e);
      FirstNameFirst(log[1..], a, e);
    }
  }

  /** The dictionary built from `log` has a key for each owner e-mail in `log`;
      its entry carries that e-mail, the name of the first owner with it, and
      the tasks assigned to it, in order. */
  lemma {:induction false} FileAllMeaning(log: seq<Assignment>, e: string)
    ensures e in FileAll(map[], log) <==> HasEmail(log, e)
    ensures e in FileAll(map[], log) ==> FileAll(map[], log)[e] == Group(FirstName(log, e), e, TasksOf(log, e))
  {
    if log != [] {
      var init := log[..|log| - 1];
      var a := log[|log| - 1];
      FileAllMeaning(init, e);
      assert init + [a] == log;
      HasEmailSnoc(init, a, e);
      if HasEmail(init, e) {
        FirstNameSnoc(init, a, e);
      } else if a.owner.email == e {
        FirstNameFirst(init, a, e);
        assert TasksOf(init, e) == [] by {
          TasksOfNone(init, e);
        }
      }
    }
  }

  lemma HasEmailSnoc(init: seq<Assignment>, a: Assignment, e: string)
    ensures HasEmail(init + [a], e) <==> HasEmail(init, e) || a.owner.email == e
  {
    var log := init + [a];
    if HasEmail(log, e) {
      var i :| 0 <= i < |log| && log[i].owner.email == e;
      if i < |init| {
        assert init[i] == log[i];
      } else {
        assert log[i] == a;
      }
    }
    if a.owner.email == e {
      assert log[|init|] == a;
    }
    if HasEmail(init, e) {
      var i :| 0 <= i < |init| && init[i].owner.email == e;
      assert log[i] == init[i];
    }
  }

  lemma {:induction false} TasksOfNone(log: seq<Assignment>, e: string)
    requires !HasEmail(log, e)
    ensures TasksOf(log, e) == []
  {
    if log != [] {
      var init := log[..|log| - 1];
      assert !HasEmail(init, e);
      TasksOfNone(init, e);
      assert log[|log| - 1].owner.email != e;
    }
  }

  /** Filing a concatenation files the first part, then the second. */
  lemma {:induction false} FileAllAppend(m: map<string, Group>, a: seq<Assignment>, b: seq<Assignment>)
    ensures FileAll(m, a + b) == FileAll(FileAll(m, a), b)
    decreases |b|
  {
    if b == [] {
      assert a + b == a;
    } else {
      var init := b[..|b| - 1];
      FileAllAppend(m, a, init);
      assert (a + b)[..|a + b| - 1] == a + init;
    }
  }

  /** The inner loop: file `t` under the e-mail of each owner in turn. */
  method FileUnderOwners(tasksByPerson: map<string, Group>, owners: seq<Participant>, t: Task)
    returns (out: map<string, Group>)
    ensures out == FileAll(tasksByPerson, AssignTo(owners, t))
  {
    out := tasksByPerson;
    for i := 0 to |owners|
      invariant out == FileAll(tasksByPerson, AssignTo(owners[..i], t))
    {
      var owner := owners[i];
      assert AssignTo(owners[..i + 1], t)[..i] == AssignTo(owners[..i], t);
      var g := if owner.email in out then out[owner.email] else Group(owner.name, owner.email, []);
      out := out[owner.email := g.(tasks := g.tasks + [t])];
    }
    assert owners[..|owners|] == owners;
  }

  /** `tasks_by_person`: for each task with owners, file it under every owner's e-mail. */
  method GroupTasks(participants: seq<Participant>, tasks: seq<Task>) returns (tasksByPerson: map<string, Group>)
    ensures tasksByPerson == Grouped(participants, tasks)
  {
    tasksByPerson := map[];
    for j := 0 to |tasks|
      invariant tasksByPerson == Grouped(participants, tasks[..j])
    {
      var t := tasks[j];
      assert tasks[..j + 1][..j] == tasks[..j];
      var owners := ResolveOwners(participants, t);
      FileAllAppend(map[], Assignments(participants, tasks[..j]), AssignTo(owners, t));
      if owners == [] {
        assert AssignTo(owners, t) == [];
        continue;
      }
      tasksByPerson := FileUnderOwners(tasksByPerson, owners, t);
    }
    assert tasks[..|tasks|] == tasks;
  }

  // ---------------------------------------------------------------------
  // What the grouping loop promises, stated over the tasks themselves
  // ---------------------------------------------------------------------

  /** How many of the owners `os` have e-mail `e`. */
  function Mentions(os: seq<Participant>, e: string): (n: nat)
    ensures n <= |os|
    ensures n > 0 <==> exists p :: p in os && p.email == e
  {
    if os == [] then 0
    else
      var rest := Mentions(os[1..], e);
      assert forall p :: p in os <==> p == os[0] || p in os[1..];
      (if os[0].email == e then 1 else 0) + rest
  }

  /** `t`, `n` times over. */
  function Repeat(t: Task, n: nat): (r: seq<Task>)
    ensures |r| == n && forall x :: x in r ==> x == t
  {
    if n == 0 then [] else [t] + Repeat(t, n - 1)
  }

  /** The reference list of a person's tasks: each task of the input, in
      order, once for every one of its owners who has the person's e-mail. */
  function TasksFor(ps: seq<Participant>, tasks: seq<Task>, e: string): seq<Task>
  {
    if tasks == [] then []
    else
      var last := tasks[|tasks| - 1];
      TasksFor(ps, tasks[..|tasks| - 1], e) + Repeat(last, Mentions(Owners(ps, last), e))
  }

  /** Some task of `tasks` has an owner with e-mail `e`. */
  ghost predicate Owns(ps: seq<Participant>, tasks: seq<Task>, e: string)
  {
    exists j :: 0 <= j < |tasks| && OwnedBy(ps, tasks[j], e)
  }

  lemma {:induction false} TasksOfAppend(a: seq<Assignment>, b: seq<Assignment>, e: string)
    ensures TasksOf(a + b, e) == TasksOf(a, e) + TasksOf(b, e)
    decreases |b|
  {
    if b == [] {
      assert a + b == a;
    } else {
      var init := b[..|b| - 1];
      TasksOfAppend(a, init, e);
      assert (a + b)[..|a + b| - 1] == a + init;
    }
  }

  lemma {:induction false} TasksOfAssignTo(os: seq<Participant>, t: Task, e: string)
    ensures TasksOf(AssignTo(os, t), e) == Repeat(t, Mentions(os, e))
    decreases |os|
  {
    if os != [] {
      var head := Assignment(os[0], t);
      var tail := AssignTo(os[1..], t);
      AssignToCons(os, t);
      TasksOfCons(head, tail, e);
      TasksOfAssignTo(os[1..], t, e);
      var k := Mentions(os[1..], e);
      if os[0].email == e {
        assert Repeat(t, k + 1) == [t] + Repeat(t, k);
      }
    }
  }

  lemma AssignToCons(os: seq<Participant>, t: Task)
    requires os != []
    ensures AssignTo(os, t) == [Assignment(os[0], t)] + AssignTo(os[1..], t)
  {
  }

  lemma TasksOfCons(a: Assignment, tail: seq<Assignment>, e: string)
    ensures TasksOf([a] + tail, e) == (if a.owner.email == e then [a.task] else []) + TasksOf(tail, e)
  {
    TasksOfAppend([a], tail, e);
    assert [a][..0] == [];
  }

  /** The tasks the loop files under `e` are exactly the reference list. */
  lemma {:induction false} TasksOfAssignments(ps: seq<Participant>, tasks: seq<Task>, e: string)
    ensures TasksOf(Assignments(ps, tasks), e) == TasksFor(ps, tasks, e)
    decreases |tasks|
  {
    if tasks != [] {
      var last := tasks[|tasks| - 1];
      TasksOfAssignments(ps, tasks[..|tasks| - 1], e);
      TasksOfAppend(Assignments(ps, tasks[..|tasks| - 1]), AssignTo(Owners(ps, last), last), e);
      TasksOfAssignTo(Owners(ps, last), last, e);
    }
  }

  /** Some owner of `t` has e-mail `e`. */
  predicate OwnedBy(ps: seq<Participant>, t: Task, e: string)
  {
    Mentions(Owners(ps, t), e) > 0
  }

  /** `x` is one of `tasks` with an owner of e-mail `e`. */
  ghost predicate FiledTask(ps: seq<Participant>, tasks: seq<Task>, e: string, x: Task)
  {
    exists j :: 0 <= j < |tasks| && tasks[j] == x && OwnedBy(ps, x, e)
  }

  lemma FiledSnoc(ps: seq<Participant>, init: seq<Task>, last: Task, e: string, x: Task)
    ensures FiledTask(ps, init + [last], e, x) <==> FiledTask(ps, init, e, x) || (x == last && OwnedBy(ps, x, e))
  {
    var tasks := init + [last];
    if FiledTask(ps, tasks, e, x) && x != last {
      var j :| 0 <= j < |tasks| && tasks[j] == x && OwnedBy(ps, x, e);
      assert init[j] == x;
    }
    if FiledTask(ps, init, e, x) {
      var j :| 0 <= j < |init| && init[j] == x && OwnedBy(ps, x, e);
      assert tasks[j] == x;
    }
    if x == last && OwnedBy(ps, x, e) {
      assert tasks[|init|] == x;
    }
  }

  /** A task is in the reference list of `e` exactly when it is one of the
      input tasks and has an owner with e-mail `e`. */
  lemma {:induction false} TasksForIff(ps: seq<Participant>, tasks: seq<Task>, e: string, x: Task)
    ensures x in TasksFor(ps, tasks, e) <==> FiledTask(ps, tasks, e, x)
    decreases |tasks|
  {
    if tasks != [] {
      var init := tasks[..|tasks| - 1];
      var last := tasks[|tasks| - 1];
      TasksForIff(ps, init, e, x);
      var r := Repeat(last, Mentions(Owners(ps, last), e));
      assert x in r <==> x == last && OwnedBy(ps, x, e) by {
        if x == last && OwnedBy(ps, x, e) { assert r[0] == x; }
      }
      FiledSnoc(ps, init, last, e, x);
      assert init + [last] == tasks;
    }
  }

  /** `e` occurs in the log exactly when some task has an owner with it. */
  lemma {:induction false} HasEmailIff(ps: seq<Participant>, tasks: seq<Task>, e: string)
    ensures HasEmail(Assignments(ps, tasks), e) <==> Owns(ps, tasks, e)
  {
    var log := Assignments(ps, tasks);
    HasEmailTasks(log, e);
    TasksOfAssignments(ps, tasks, e);
    var r := TasksFor(ps, tasks, e);
    if r != [] {
      TasksForIff(ps, tasks, e, r[0]);
    }
    if Owns(ps, tasks, e) {
      var j :| 0 <= j < |tasks| && OwnedBy(ps, tasks[j], e);
      TasksForIff(ps, tasks, e, tasks[j]);
    }
  }

  lemma {:induction false} HasEmailTasks(log: seq<Assignment>, e: string)
    ensures HasEmail(log, e) <==> TasksOf(log, e) != []
    decreases |log|
  {
    if log == [] {
    } else {
      var init := log[..|log| - 1];
      HasEmailTasks(init, e);
      if HasEmail(log, e) && log[|log| - 1].owner.email != e {
        var i :| 0 <= i < |log| && log[i].owner.email == e;
        assert init[i] == log[i];
      }
      if HasEmail(init, e) {
        var i :| 0 <= i < |init| && init[i].owner.email == e;
        assert log[i] == init[i];
      }
    }
  }

  /** `FirstName` is the name on the earliest assignment with e-mail `e`. */
  lemma {:induction false} FirstNameIsEarliest(log: seq<Assignment>, e: string)
    requires HasEmail(log, e)
    ensures exists i :: 0 <= i < |log| && log[i].owner.email == e && log[i].owner.name == FirstName(log, e)
                        && forall k :: 0 <= k < i ==> log[k].owner.email != e
    decreases |log|
  {
    if log[0].owner.email != e {
      var i :| 0 <= i < |log| && log[i].owner.email == e;
      assert log[1..][i - 1].owner.email == e;
      FirstNameIsEarliest(log[1..], e);
      var i' :| 0 <= i' < |log[1..]| && log[1..][i'].owner.email == e && log[1..][i'].owner.name == FirstName(log[1..], e)
                && forall k :: 0 <= k < i' ==> log[1..][k].owner.email != e;
      assert forall k :: 0 <= k < i' + 1 ==> log[k].owner.email != e by {
        forall k | 0 <= k < i' + 1 ensures log[k].owner.email != e {
          if k > 0 { assert log[k] == log[1..][k - 1]; }
        }
      }
      assert log[i' + 1] == log[1..][i'];
    }
  }

  /** The grouping loop's result: one entry per e-mail of an owner of some
      task (so tasks without owners file nothing), keyed by that e-mail,
      named after the earliest owner filed with it (tasks in input order,
      owners in list order), holding every task with an owner of that e-mail
      in input order, once per such owner. */
  lemma GroupedMeaning(ps: seq<Participant>, tasks: seq<Task>, e: string)
    ensures e in Grouped(ps, tasks) <==> Owns(ps, tasks, e)
    ensures e in Grouped(ps, tasks) ==>
              var log := Assignments(ps, tasks);
              && Grouped(ps, tasks)[e].email == e
              && Grouped(ps, tasks)[e].tasks == TasksFor(ps, tasks, e)
              && exists i :: 0 <= i < |log| && log[i].owner.email == e
                             && log[i].owner.name == Grouped(ps, tasks)[e].name
                             && forall k :: 0 <= k < i ==> log[k].owner.email != e
  {
    var log := Assignments(ps, tasks);
    FileAllMeaning(log, e);
    HasEmailIff(ps, tasks, e);
    TasksOfAssignments(ps, tasks, e);
    if HasEmail(log, e) {
      FirstNameIsEarliest(log, e);
    }
  }

  /** Every task in a person's group is an input task with an owner of that
      e-mail; every such task is there. */
  lemma GroupedTasksIff(ps: seq<Participant>, tasks: seq<Task>, e: string, x: Task)
    requires e in Grouped(ps, tasks)
    ensures x in Grouped(ps, tasks)[e].tasks <==> FiledTask(ps, tasks, e, x)
  {
    GroupedMeaning(ps, tasks, e);
    TasksForIff(ps, tasks, e, x);
  }

  // ---------------------------------------------------------------------
  // Confidence buckets
  // ---------------------------------------------------------------------

  datatype Bucket = High | Medium | Low

  /** The three comprehension conditions, on a confidence modelled as a real. */
  predicate InBucket(c: real, b: Bucket)
  {
    match b
    case High => c >= 0.75
    case Medium => 0.5 <= c < 0.75
    case Low => c < 0.5
  }

  /** Each confidence value satisfies exactly one of the three conditions. */
  lemma ExactlyOneBucket(c: real)
    ensures exists b :: InBucket(c, b)
    ensures forall b1, b2 :: InBucket(c, b1) && InBucket(c, b2) ==> b1 == b2
  {
    if c >= 0.75 { assert InBucket(c, High); }
    else if c >= 0.5 { assert InBucket(c, Medium); }
    else { assert InBucket(c, Low); }
  }

  /** `[t for t in tasks if <condition of b>]`. */
  function Bucketed(ts: seq<Task>, b: Bucket): seq<Task>
  {
    if ts == [] then []
    else
      var rest := Bucketed(ts[..|ts| - 1], b);
      var t := ts[|ts| - 1];
      if InBucket(t.confidence, b) then rest + [t] else rest
  }

  /** A bucket is the subsequence of the tasks that meet its condition. */
  lemma {:induction false} BucketedMeaning(ts: seq<Task>, b: Bucket)
    ensures Subseq(Bucketed(ts, b), ts)
    ensures forall t :: t in Bucketed(ts, b) <==> t in ts && InBucket(t.confidence, b)
  {
    if ts != [] {
      var init := ts[..|ts| - 1];
      var t := ts[|ts| - 1];
      BucketedMeaning(init, b);
      SubseqSnoc(Bucketed(init, b), init, t);
      assert init + [t] == ts;
    }
  }

  /** The three buckets together hold every task exactly as often as the list does. */
  lemma {:induction false} BucketsPartition(ts: seq<Task>)
    ensures multiset(Bucketed(ts, High)) + multiset(Bucketed(ts, Medium)) + multiset(Bucketed(ts, Low))
            == multiset(ts)
    ensures |Bucketed(ts, High)| + |Bucketed(ts, Medium)| + |Bucketed(ts, Low)| == |ts|
  {
    if ts != [] {
      var init := ts[..|ts| - 1];
      var t := ts[|ts| - 1];
      BucketsPartition(init);
      assert init + [t] == ts;
    }
  }

  /** An e-mail is sent (`if high or medium`) exactly when some task of the
      person reaches confidence 0.5. */
  lemma EmailIff(ts: seq<Task>)
    ensures Bucketed(ts, High) != [] || Bucketed(ts, Medium) != [] <==>
              exists t :: t in ts && t.confidence >= 0.5
  {
    BucketedMeaning(ts, High);
    BucketedMeaning(ts, Medium);
    var high, medium := Bucketed(ts, High), Bucketed(ts, Medium);
    assert high != [] ==> high[0] in high;
    assert medium != [] ==> medium[0] in medium;
    if exists t :: t in ts && t.confidence >= 0.5 {
      var t :| t in ts && t.confidence >= 0.5;
      if t.confidence >= 0.75 { assert t in Bucketed(ts, High); } else { assert t in Bucketed(ts, Medium); }
    }
  }
}
