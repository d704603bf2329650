/** The task service: turning a create request into a stored task, and the
    three read-only projections of the full task list (by status, by
    priority, overdue). Each projection receives the outcome of the
    repository's `GetAll`, so that its error path is part of the model. */
module Service {
  import opened Models
  import opened Selection
  import opened Repository

  /** A create request as the front end sends it. An absent due date arrives
      as the empty string. */
  datatype CreateTaskInput = CreateTaskInput(title: string, priority: int, dueDate: string)

  /** The task list split by completion. */
  datatype TaskList = TaskList(active: seq<Task>, completed: seq<Task>)

  /** The record `CreateTask` hands to the repository: the caller's title and
      priority, the parsed due date, every other field at its default. */
  function NewTask(input: CreateTaskInput, dueDate: Option<Time>): Task {
    Blank.(title := input.title, priority := input.priority, dueDate := dueDate)
  }

  /** `CreateTask`. A non-empty due date is parsed first (`parse` stands for
      the RFC 3339 parser of the Go runtime); when it is rejected nothing is
      stored. Title and priority are passed on unchecked. */
  function CreateTask(s: Store, input: CreateTaskInput, parse: string -> Option<Time>, now: Time): (r: Outcome)
    requires Valid(s)
    ensures Valid(r.store)
    ensures input.dueDate != "" && parse(input.dueDate).None? ==> r == Outcome(s, Some(InvalidDate))
    ensures r.err.Some? ==> r.store.rows == s.rows
    ensures input.dueDate == "" || parse(input.dueDate).Some? ==>
      (r.err.None? <==> s.nextId !in Ids(s.rows))
    ensures r.err.None? ==>
      && |r.store.rows| == |s.rows| + 1
      && r.store.rows[..|s.rows|] == s.rows
      && var n := r.store.rows[|s.rows|];
         && n.id !in Ids(s.rows)
         && n.title == input.title
         && n.priority == input.priority
         && !n.completed
         && n.dueDate == (if input.dueDate == "" then None else parse(input.dueDate))
         && n.createdAt == now && n.updatedAt == now
  {
    if input.dueDate == "" then
      Create(s, NewTask(input, None), now)
    else
      match parse(input.dueDate)
      case None => Outcome(s, Some(InvalidDate))
      case Some(d) => Create(s, NewTask(input, Some(d)), now)
  }

  /** A request with no due date, or one the parser accepts, always creates
      its task while the id sequence is ahead of every stored id, and keeps
      it ahead. */
  lemma CreateTaskSucceeds(s: Store, input: CreateTaskInput, parse: string -> Option<Time>, now: Time)
    requires Valid(s) && Fresh(s)
    requires input.dueDate == "" || parse(input.dueDate).Some?
    ensures var r := CreateTask(s, input, parse, now);
      && r.err.None?
      && Fresh(r.store)
  {
    var due := if input.dueDate == "" then None else parse(input.dueDate);
    CreateAutoIdSucceeds(s, NewTask(input, due), now);
  }

  /** The reference definition of the status split: each list is the
      in-order subsequence of the tasks with that completion state. */
  function StatusSplit(tasks: seq<Task>): TaskList {
    TaskList(Filter(tasks, IsActive), Filter(tasks, IsCompleted))
  }

  /** `GetTasksByStatus`: one pass over the tasks, appending each to the list
      of its state. On a failed fetch both lists are empty. */
  method GetTasksByStatus(fetched: Result<seq<Task>>) returns (list: TaskList, err: Option<Error>)
    ensures fetched.Err? ==> list == TaskList([], []) && err == Some(fetched.error)
    ensures fetched.Ok? ==> err == None && list == StatusSplit(fetched.value)
  {
    if fetched.Err? {
      return TaskList([], []), Some(fetched.error);
    }
    var tasks := fetched.value;
    var active: seq<Task> := [];
    var completed: seq<Task> := [];
    var i := 0;
    while i < |tasks|
      invariant 0 <= i <= |tasks|
      invariant active == Filter(tasks[..i], IsActive)
      invariant completed == Filter(tasks[..i], IsCompleted)
    {
      var task := tasks[i];
      var prefix := tasks[..i];
      assert tasks[..i + 1] == prefix + [task];
      FilterSnoc(prefix, task, IsActive);
      FilterSnoc(prefix, task, IsCompleted);
      if task.completed {
        assert Filter(prefix + [task], IsActive) == active;
        completed := completed + [task];
      } else {
        assert Filter(prefix + [task], IsCompleted) == completed;
        active := active + [task];
      }
      i := i + 1;
    }
    assert tasks[..|tasks|] == tasks;
    list, err := TaskList(active, completed), None;
  }

  /** The split is a stable partition: the active list holds exactly the
      incomplete tasks and the completed list exactly the completed ones, in
      their original order, and together they are a permutation of the
      input. */
  lemma StatusSplitIsPartition(tasks: seq<Task>)
    ensures var l := StatusSplit(tasks);
      && (forall t :: t in l.active <==> t in tasks && !t.completed)
      && (forall t :: t in l.completed <==> t in tasks && t.completed)
      && multiset(l.active) + multiset(l.completed) == multiset(tasks)
      && |l.active| + |l.completed| == |tasks|
      && SubsequenceOf(l.active, tasks)
      && SubsequenceOf(l.completed, tasks)
  {
    StatusPartition(tasks);
    FilterIsSubsequence(tasks, IsActive);
    FilterIsSubsequence(tasks, IsCompleted);
  }

  /** The priority levels that occur among the tasks. */
  function Priorities(tasks: seq<Task>): set<int> {
    set t | t in tasks :: t.priority
  }

  /** The reference definition of the priority grouping: one bucket per
      priority that occurs, holding that priority's tasks in order. */
  function Buckets(tasks: seq<Task>): map<int, seq<Task>> {
    map k | k in Priorities(tasks) :: Filter(tasks, HasPriority(k))
  }

  /** Appending one task extends exactly the bucket of its priority. */
  lemma BucketsSnoc(tasks: seq<Task>, t: Task)
    ensures Buckets(tasks + [t]) ==
      Buckets(tasks)[t.priority :=
        (if t.priority in Buckets(tasks) then Buckets(tasks)[t.priority] else []) + [t]]
  {
    var before := Buckets(tasks);
    var after := Buckets(tasks + [t]);
    var expected := before[t.priority := (if t.priority in before then before[t.priority] else []) + [t]];
    assert Priorities(tasks + [t]) == Priorities(tasks) + {t.priority};
    assert after.Keys == expected.Keys;
    forall k | k in after.Keys
      ensures after[k] == expected[k]
    {
      FilterSnoc(tasks, t, HasPriority(k));
      if k == t.priority && k !in before {
        forall i | 0 <= i < |tasks| ensures !Holds(HasPriority(k), tasks[i]) {
          assert tasks[i] in tasks;
        }
        FilterDropsAll(tasks, HasPriority(k));
      }
    }
  }

  /** `GetTasksByPriority`: one pass over the tasks, appending each to the
      bucket keyed by its own priority (no range check on the key). A failed
      fetch yields no map at all. */
  method GetTasksByPriority(fetched: Result<seq<Task>>) returns (r: Result<map<int, seq<Task>>>)
    ensures fetched.Err? ==> r == Err(fetched.error)
    ensures fetched.Ok? ==> r == Ok(Buckets(fetched.value))
  {
    if fetched.Err? {
      return Err(fetched.error);
    }
    var tasks := fetched.value;
    var m: map<int, seq<Task>> := map[];
    var i := 0;
    while i < |tasks|
      invariant 0 <= i <= |tasks|
      invariant m == Buckets(tasks[..i])
    {
      var task := tasks[i];
      assert tasks[..i + 1] == tasks[..i] + [task];
      BucketsSnoc(tasks[..i], task);
      var bucket := if task.priority in m then m[task.priority] else [];
      m := m[task.priority := bucket + [task]];
      i := i + 1;
    }
    assert tasks[..|tasks|] == tasks;
    return Ok(m);
  }

  /** Every task lands in the bucket of its own priority and in no other,
      every bucket is non-empty, and each bucket keeps every copy of its
      tasks in their original order. */
  lemma BucketsAreExact(tasks: seq<Task>)
    ensures var b := Buckets(tasks);
      && (forall t :: t in tasks ==> t.priority in b && t in b[t.priority])
      && (forall k, t :: k in b && t in b[k] ==> t in tasks && t.priority == k)
      && (forall k :: k in b ==> b[k] != [] && SubsequenceOf(b[k], tasks))
      && (forall k, t: Task :: k in b && t.priority == k ==> multiset(b[k])[t] == multiset(tasks)[t])
  {
    var b := Buckets(tasks);
    forall k | k in b
      ensures b[k] != [] && SubsequenceOf(b[k], tasks)
    {
      var t :| t in tasks && t.priority == k;
      assert t in b[k];
      FilterIsSubsequence(tasks, HasPriority(k));
    }
    forall k, t: Task | k in b && t.priority == k
      ensures multiset(b[k])[t] == multiset(tasks)[t]
    {
      FilterCount(tasks, HasPriority(k), t);
    }
  }

  /** `GetOverdueTasks`: the tasks, in order, that have a due date strictly
      before `now` and are not completed. `now` is the clock reading the
      source takes once per call. */
  method GetOverdueTasks(fetched: Result<seq<Task>>, now: Time) returns (r: Result<seq<Task>>)
    ensures fetched.Err? ==> r == Err(fetched.error)
    ensures fetched.Ok? ==> r == Ok(Filter(fetched.value, OverdueAt(now)))
  {
    if fetched.Err? {
      return Err(fetched.error);
    }
    var tasks := fetched.value;
    var overdue: seq<Task> := [];
    var i := 0;
    while i < |tasks|
      invariant 0 <= i <= |tasks|
      invariant overdue == Filter(tasks[..i], OverdueAt(now))
    {
      var task := tasks[i];
      assert tasks[..i + 1] == tasks[..i] + [task];
      FilterSnoc(tasks[..i], task, OverdueAt(now));
      if task.dueDate.Some? && task.dueDate.value < now && !task.completed {
        overdue := overdue + [task];
      }
      i := i + 1;
    }
    assert tasks[..|tasks|] == tasks;
    return Ok(overdue);
  }

  /** The status split of everything in the store, as the view fetches it. */
  function StatusOf(s: Store): TaskList
    requires Valid(s)
  {
    StatusSplit(GetAll(s))
  }

  /** A task that is overdue leaves the overdue list once it is toggled to
      completed, and no other task's membership changes. */
  lemma ToggleLeavesOverdue(s: Store, id: nat, now: Time, clock: Time)
    requires Valid(s)
    requires exists t :: t in s.rows && t.id == id && Holds(OverdueAt(now), t)
    ensures var after := ToggleComplete(s, id, clock).store;
      && (forall t :: t in Filter(GetAll(after), OverdueAt(now)) ==> t.id != id)
      && (forall t :: t in s.rows && t.id != id ==>
            (t in Filter(GetAll(after), OverdueAt(now)) <==> t in Filter(GetAll(s), OverdueAt(now))))
  {
    var after := ToggleComplete(s, id, clock).store;
    var t0 :| t0 in s.rows && t0.id == id && Holds(OverdueAt(now), t0);
    forall t | t in after.rows && t.id == id
      ensures !Holds(OverdueAt(now), t)
    {
      var k :| 0 <= k < |after.rows| && after.rows[k] == t;
      FindUnique(s.rows, t0);
      FindUnique(s.rows, s.rows[k]);
    }
    forall t | t in s.rows && t.id != id
      ensures t in after.rows
    {
      var k :| 0 <= k < |s.rows| && s.rows[k] == t;
      assert after.rows[k] == t;
    }
    forall t | t in after.rows && t.id != id
      ensures t in s.rows
    {
      var k :| 0 <= k < |after.rows| && after.rows[k] == t;
      assert s.rows[k] == t;
    }
  }
}
