/** Task records and the value-level meaning of the task engine's
    operations: the clones `generate_recurring_tasks` appends, the list
    `delete_task` returns, the task `complete_task` marks, and the checks
    `add_task` runs. The store methods are proved against these. */
module Tasks {
  import opened Wrappers
  import opened Calendar
  import opened DateText
  import opened Validation
  import opened Schedule

  /** One element of the task list; `due` is stored exactly as given. */
  datatype Task = Task(
    id: int,
    name: string,
    completed: bool,
    due: Option<string>,
    priority: Priority,
    recurrence: Recurrence)

  /** An entry of the completed log: a task without its id. */
  datatype Record = Record(
    name: string,
    completed: bool,
    due: Option<string>,
    priority: Priority,
    recurrence: Recurrence)

  /** `task.copy()` with `"id"` popped. */
  function Snapshot(t: Task): Record {
    Record(t.name, t.completed, t.due, t.priority, t.recurrence)
  }

  /** Ids are 1..N in list order. */
  predicate DenseIds(ts: seq<Task>) {
    forall i :: 0 <= i < |ts| ==> ts[i].id == i + 1
  }

  // ---------------------------------------------------------------------
  // add_task

  /** The four validations of `add_task`, in order; the first failure is
      the error reported. On success, the canonical priority and
      recurrence. */
  function CheckNewTask(name: string, due: Option<string>, priority: Option<string>,
                        recurrence: Option<string>, today: Date): (r: Result<(Priority, Recurrence)>)
    ensures r.Ok? <==>
      ValidateTaskName(name) == Pass && ValidateDueDate(due, today) == Pass
      && ValidatePriority(priority).Ok? && ValidateRecurrence(recurrence).Ok?
    ensures r.Ok? ==> r.value == (ValidatePriority(priority).value, ValidateRecurrence(recurrence).value)
    ensures ValidateTaskName(name).Fail? ==> r == Err(ValidateTaskName(name).error)
    ensures ValidateTaskName(name) == Pass && ValidateDueDate(due, today).Fail? ==> r == Err(ValidateDueDate(due, today).error)
    ensures (ValidateTaskName(name) == Pass && ValidateDueDate(due, today) == Pass
             && ValidatePriority(priority).Err?) ==> r == Err(BadPriority)
    ensures (ValidateTaskName(name) == Pass && ValidateDueDate(due, today) == Pass
             && ValidatePriority(priority).Ok? && ValidateRecurrence(recurrence).Err?) ==> r == Err(BadRecurrence)
  {
    match ValidateTaskName(name)
    case Fail(e) => Err(e)
    case Pass =>
      match ValidateDueDate(due, today)
      case Fail(e) => Err(e)
      case Pass =>
        match ValidatePriority(priority)
        case Err(e) => Err(e)
        case Ok(p) =>
          match ValidateRecurrence(recurrence)
          case Err(e) => Err(e)
          case Ok(rec) => Ok((p, rec))
  }

  /** The checks exactly as `add_task` runs them, with the due date checked
      by the validator as written. */
  function CheckNewTaskAsWritten(name: string, due: Option<string>, priority: Option<string>,
                                 recurrence: Option<string>, today: Date): Result<(Priority, Recurrence)>
  {
    match ValidateTaskName(name)
    case Fail(e) => Err(e)
    case Pass =>
      match ValidateDueDateAsWritten(due, today)
      case Fail(e) => Err(e)
      case Pass =>
        match ValidatePriority(priority)
        case Err(e) => Err(e)
        case Ok(p) =>
          match ValidateRecurrence(recurrence)
          case Err(e) => Err(e)
          case Ok(rec) => Ok((p, rec))
  }

  /** The checks as written and the corrected checks accept the same tasks
      and report the same error, except that a past due date is reported
      as the format error by the code as written. */
  lemma CheckNewTaskAsWrittenDiffers(name: string, due: Option<string>, priority: Option<string>,
                                     recurrence: Option<string>, today: Date)
    ensures var c := CheckNewTask(name, due, priority, recurrence, today);
      CheckNewTaskAsWritten(name, due, priority, recurrence, today)
        == (if c == Err(PastDueDate) then Err(BadDateFormat) else c)
  {
  }

  /** A task that passed the checks can be projected: a due date that
      passed validation parses. */
  lemma CheckedTaskParsable(name: string, due: Option<string>, priority: Option<string>,
                            recurrence: Option<string>, today: Date, id: int)
    requires CheckNewTask(name, due, priority, recurrence, today).Ok?
    ensures var (p, r) := CheckNewTask(name, due, priority, recurrence, today).value;
      Parsable(Task(id, name, false, due, p, r))
  {
  }

  /** Appending the next id to a dense, parsable list keeps it so. */
  lemma AppendKeepsInvariant(ts: seq<Task>, t: Task)
    requires t.id == |ts| + 1 && Parsable(t)
    ensures DenseIds(ts) ==> DenseIds(ts + [t])
    ensures AllParsable(ts) ==> AllParsable(ts + [t])
  {
    var s := ts + [t];
    assert forall i :: 0 <= i < |ts| ==> s[i] == ts[i];
  }

  // ---------------------------------------------------------------------
  // generate_recurring_tasks

  /** The test of line 74: a recurrence other than "None" and a non-empty
      due date. */
  predicate Recurs(t: Task) {
    t.recurrence != NoRecurrence && Given(t.due)
  }

  /** The projection can parse the due date of every recurring task (the
      source raises otherwise). */
  predicate Parsable(t: Task) {
    Recurs(t) ==> ParseDate(t.due.value).Some?
  }

  predicate AllParsable(ts: seq<Task>) {
    forall i :: 0 <= i < |ts| ==> Parsable(ts[i])
  }

  /** A `today` whose projections stay inside `datetime`'s year range. */
  predicate ValidToday(today: Date) {
    Valid(today) && today.year < 9999
  }

  /** The due date a recurring task's clone receives. */
  function ProjectedDue(t: Task, today: Date): (d: Date)
    requires Recurs(t) && Parsable(t) && ValidToday(today)
    ensures Valid(d) && d.year <= 9999 && Before(today, d)
  {
    NextOccurrence(ParseDate(t.due.value).value, t.recurrence, today)
  }

  /** The clone of lines 89-92. */
  function CloneOf(t: Task, id: int, today: Date): Task
    requires Recurs(t) && Parsable(t) && ValidToday(today)
  {
    t.(id := id, due := Some(FormatDate(ProjectedDue(t, today))), completed := false)
  }

  /** What one iteration of the loop does to `new_tasks`: a recurring task
      adds its clone, numbered after the clones so far. */
  function AddClone(prev: seq<Task>, t: Task, base: int, today: Date): (c: seq<Task>)
    requires Parsable(t) && ValidToday(today)
    ensures |c| == |prev| + (if Recurs(t) then 1 else 0)
    ensures c[..|prev|] == prev
  {
    if Recurs(t) then prev + [CloneOf(t, base + |prev|, today)] else prev
  }

  /** The `new_tasks` list after the loop has visited `ts`, the first clone
      numbered `base`. */
  function Clones(ts: seq<Task>, base: int, today: Date): (c: seq<Task>)
    requires AllParsable(ts) && ValidToday(today)
    ensures |c| <= |ts|
    ensures forall k :: 0 <= k < |c| ==> c[k].id == base + k
    decreases |ts|
  {
    if ts == [] then []
    else AddClone(Clones(ts[..|ts| - 1], base, today), ts[|ts| - 1], base, today)
  }

  lemma PrefixParsable(ts: seq<Task>, i: nat)
    requires AllParsable(ts) && i <= |ts|
    ensures AllParsable(ts[..i])
  {
    forall k | 0 <= k < i ensures Parsable(ts[..i][k]) {
      assert ts[..i][k] == ts[k];
    }
  }

  /** One more iteration of the loop over `ts`. */
  lemma ClonesStep(ts: seq<Task>, i: nat, base: int, today: Date)
    requires ValidToday(today) && i < |ts| && AllParsable(ts)
    ensures AllParsable(ts[..i]) && AllParsable(ts[..i + 1])
    ensures Clones(ts[..i + 1], base, today) == AddClone(Clones(ts[..i], base, today), ts[i], base, today)
  {
    PrefixParsable(ts, i);
    PrefixParsable(ts, i + 1);
    var s := ts[..i + 1];
    assert s[..|s| - 1] == ts[..i];
  }

  /** The `new_tasks` list after the loop has visited the first `n` tasks
      of `ts`, indexed into `ts` rather than sliced from it. */
  function ClonesUpTo(ts: seq<Task>, n: nat, base: int, today: Date): seq<Task>
    requires AllParsable(ts) && ValidToday(today) && n <= |ts|
    decreases n
  {
    if n == 0 then [] else AddClone(ClonesUpTo(ts, n - 1, base, today), ts[n - 1], base, today)
  }

  /** The indexed and the sliced descriptions agree. */
  lemma {:induction false} ClonesUpToPrefix(ts: seq<Task>, n: nat, base: int, today: Date)
    requires AllParsable(ts) && ValidToday(today) && n <= |ts|
    ensures AllParsable(ts[..n])
    ensures ClonesUpTo(ts, n, base, today) == Clones(ts[..n], base, today)
    decreases n
  {
    PrefixParsable(ts, n);
    if n > 0 {
      ClonesUpToPrefix(ts, n - 1, base, today);
      ClonesStep(ts, n - 1, base, today);
    }
  }

  lemma ClonesUpToAll(ts: seq<Task>, base: int, today: Date)
    requires AllParsable(ts) && ValidToday(today)
    ensures ClonesUpTo(ts, |ts|, base, today) == Clones(ts, base, today)
  {
    ClonesUpToPrefix(ts, |ts|, base, today);
    assert ts[..|ts|] == ts;
  }

  /** The list `generate_recurring_tasks` returns. */
  function Projection(ts: seq<Task>, today: Date): seq<Task>
    requires AllParsable(ts) && ValidToday(today)
  {
    ts + Clones(ts, |ts| + 1, today)
  }

  /** The recurring tasks of `ts`, in order. */
  function RecurringTasks(ts: seq<Task>): (q: seq<Task>)
    ensures |q| <= |ts|
    ensures forall k :: 0 <= k < |q| ==> Recurs(q[k]) && q[k] in ts
    decreases |ts|
  {
    if ts == [] then []
    else
      var prev := RecurringTasks(ts[..|ts| - 1]);
      if Recurs(ts[|ts| - 1]) then prev + [ts[|ts| - 1]] else prev
  }

  lemma {:induction false} RecurringTasksAppend(a: seq<Task>, b: seq<Task>)
    ensures RecurringTasks(a + b) == RecurringTasks(a) + RecurringTasks(b)
    decreases |b|
  {
    if b == [] {
      assert a + b == a;
    } else {
      var b' := b[..|b| - 1];
      assert (a + b)[..|a + b| - 1] == a + b';
      RecurringTasksAppend(a, b');
    }
  }

  lemma RecurringTasksParsable(ts: seq<Task>)
    requires AllParsable(ts)
    ensures AllParsable(RecurringTasks(ts))
  {
    var q := RecurringTasks(ts);
    forall k | 0 <= k < |q| ensures Parsable(q[k]) {
      var i :| 0 <= i < |ts| && ts[i] == q[k];
    }
  }

  /** One clone per recurring task, in input order, with consecutive ids
      from `base`. */
  lemma {:induction false} ClonesFollowRecurringTasks(ts: seq<Task>, base: int, today: Date)
    requires AllParsable(ts) && ValidToday(today)
    ensures AllParsable(RecurringTasks(ts))
    ensures |Clones(ts, base, today)| == |RecurringTasks(ts)|
    ensures forall k :: 0 <= k < |RecurringTasks(ts)| ==>
              Clones(ts, base, today)[k] == CloneOf(RecurringTasks(ts)[k], base + k, today)
    decreases |ts|
  {
    RecurringTasksParsable(ts);
    if ts != [] {
      var init := ts[..|ts| - 1];
      assert AllParsable(init) by {
        forall i | 0 <= i < |init| ensures Parsable(init[i]) {
          assert init[i] == ts[i];
        }
      }
      ClonesFollowRecurringTasks(init, base, today);
    }
  }

  /** What every clone is: not completed, the source's name, priority and
      recurrence, and a due date after `today` — the source's own due date
      when that is already after `today`, otherwise the first step-date
      after `today`. */
  lemma CloneFacts(t: Task, id: int, today: Date)
    requires Recurs(t) && Parsable(t) && ValidToday(today)
    ensures var c := CloneOf(t, id, today);
      && c.id == id && !c.completed
      && c.name == t.name && c.priority == t.priority && c.recurrence == t.recurrence
      && c.due.Some? && ParseDate(c.due.value) == Some(ProjectedDue(t, today))
      && Before(today, ProjectedDue(t, today))
      && (Before(today, ParseDate(t.due.value).value) ==> c.due == t.due)
  {
    var d := ParseDate(t.due.value).value;
    FormatThenParse(ProjectedDue(t, today));
    if Before(today, d) {
      ParseThenFormat(t.due.value);
    }
  }

  /** Projection keeps the input list as a prefix and keeps ids dense. */
  lemma ProjectionKeepsDense(ts: seq<Task>, today: Date)
    requires AllParsable(ts) && ValidToday(today) && DenseIds(ts)
    ensures Projection(ts, today)[..|ts|] == ts
    ensures DenseIds(Projection(ts, today))
  {
    var p := Projection(ts, today);
    var c := Clones(ts, |ts| + 1, today);
    forall i | 0 <= i < |p| ensures p[i].id == i + 1 {
      if i >= |ts| {
        assert p[i] == c[i - |ts|];
      }
    }
  }

  /** Every clone recurs and has a parsable date, so a projected list can
      be projected again. */
  lemma ClonesRecurAndParse(ts: seq<Task>, base: int, today: Date)
    requires AllParsable(ts) && ValidToday(today)
    ensures forall k :: 0 <= k < |Clones(ts, base, today)| ==>
              Recurs(Clones(ts, base, today)[k]) && Parsable(Clones(ts, base, today)[k])
  {
    var c := Clones(ts, base, today);
    var q := RecurringTasks(ts);
    ClonesFollowRecurringTasks(ts, base, today);
    forall k | 0 <= k < |c| ensures Recurs(c[k]) && Parsable(c[k]) {
      CloneFacts(q[k], base + k, today);
    }
  }

  lemma ProjectionKeepsParsable(ts: seq<Task>, today: Date)
    requires AllParsable(ts) && ValidToday(today)
    ensures AllParsable(Projection(ts, today))
  {
    var c := Clones(ts, |ts| + 1, today);
    ClonesRecurAndParse(ts, |ts| + 1, today);
    var p := Projection(ts, today);
    forall i | 0 <= i < |p| ensures Parsable(p[i]) {
      if i >= |ts| {
        assert p[i] == c[i - |ts|];
      }
    }
  }

  /** Projection is not idempotent: projecting an already projected list
      clones every recurring task again, and every clone too, so the
      second pass adds twice as many tasks as the first. */
  lemma ProjectionRepeats(ts: seq<Task>, today: Date)
    requires AllParsable(ts) && ValidToday(today)
    ensures AllParsable(Projection(ts, today))
    ensures |Projection(Projection(ts, today), today)| - |Projection(ts, today)|
            == 2 * (|Projection(ts, today)| - |ts|)
  {
    ProjectionKeepsParsable(ts, today);
    var p := Projection(ts, today);
    var c := Clones(ts, |ts| + 1, today);
    assert p == ts + c;
    ClonesRecurAndParse(ts, |ts| + 1, today);
    AllRecurring(c);
    RecurringTasksAppend(ts, c);
    ProjectionLength(ts, today);
    ProjectionLength(p, today);
  }

  /** Projection adds one task per recurring task. */
  lemma ProjectionLength(ts: seq<Task>, today: Date)
    requires AllParsable(ts) && ValidToday(today)
    ensures |Projection(ts, today)| == |ts| + |RecurringTasks(ts)|
  {
    ClonesCount(ts, |ts| + 1, today);
  }

  lemma {:induction false} ClonesCount(ts: seq<Task>, base: int, today: Date)
    requires AllParsable(ts) && ValidToday(today)
    ensures |Clones(ts, base, today)| == |RecurringTasks(ts)|
    decreases |ts|
  {
    if ts != [] {
      var init := ts[..|ts| - 1];
      assert AllParsable(init) by {
        forall i | 0 <= i < |init| ensures Parsable(init[i]) {
          assert init[i] == ts[i];
        }
      }
      ClonesCount(init, base, today);
    }
  }

  lemma {:induction false} AllRecurring(c: seq<Task>)
    requires forall k :: 0 <= k < |c| ==> Recurs(c[k])
    ensures RecurringTasks(c) == c
    decreases |c|
  {
    if c != [] {
      AllRecurring(c[..|c| - 1]);
      assert c[..|c| - 1] + [c[|c| - 1]] == c;
    }
  }

  /** A list has no recurring task exactly when `RecurringTasks` is empty. */
  lemma {:induction false} NoRecurringTasks(ts: seq<Task>)
    ensures RecurringTasks(ts) == [] <==> forall i :: 0 <= i < |ts| ==> !Recurs(ts[i])
    decreases |ts|
  {
    if ts != [] {
      var init := ts[..|ts| - 1];
      NoRecurringTasks(init);
      assert forall i :: 0 <= i < |init| ==> init[i] == ts[i];
    }
  }

  /** Saving a list and loading it back gives the same list exactly when no
      task in it recurs: a recurring task is cloned even when it is not
      yet due. */
  lemma ProjectionIdentity(ts: seq<Task>, today: Date)
    requires AllParsable(ts) && ValidToday(today)
    ensures Projection(ts, today) == ts <==> forall i :: 0 <= i < |ts| ==> !Recurs(ts[i])
  {
    ProjectionLength(ts, today);
    NoRecurringTasks(ts);
    if RecurringTasks(ts) == [] {
      assert Clones(ts, |ts| + 1, today) == [];
      assert ts + [] == ts;
    }
  }

  // ---------------------------------------------------------------------
  // delete_task

  /** The comprehension of line 103: the tasks whose id differs from
      `id`, in order. */
  function Without(ts: seq<Task>, id: int): (r: seq<Task>)
    ensures |r| <= |ts|
    decreases |ts|
  {
    if ts == [] then []
    else
      var rest := Without(ts[1..], id);
      if ts[0].id != id then [ts[0]] + rest else rest
  }

  /** The filter keeps exactly the tasks whose id differs from `id`. */
  lemma {:induction false} WithoutMembers(ts: seq<Task>, id: int)
    ensures forall t :: t in Without(ts, id) <==> t in ts && t.id != id
    decreases |ts|
  {
    if ts != [] {
      WithoutMembers(ts[1..], id);
      assert forall t :: t in ts <==> t == ts[0] || t in ts[1..];
    }
  }

  /** Filtering a concatenation filters each part and keeps them in
      order. With `WithoutSingle` this pins the filter down as the
      order-keeping sublist of the tasks whose id differs, repeated ids
      included. */
  lemma {:induction false} WithoutAppend(a: seq<Task>, b: seq<Task>, id: int)
    ensures Without(a + b, id) == Without(a, id) + Without(b, id)
    decreases |a|
  {
    if a == [] {
      assert a + b == b;
    } else {
      assert (a + b)[1..] == a[1..] + b;
      WithoutAppend(a[1..], b, id);
    }
  }

  /** A single task is kept exactly when its id differs. */
  lemma WithoutSingle(t: Task, id: int)
    ensures Without([t], id) == (if t.id != id then [t] else [])
  {
    assert [t][1..] == [];
  }

  /** The renumbering loop of lines 106-107: position i gets id i + 1,
      nothing else changes. */
  function Renumbered(ts: seq<Task>): (r: seq<Task>)
    ensures |r| == |ts| && DenseIds(r)
    ensures forall i :: 0 <= i < |ts| ==> r[i].(id := ts[i].id) == ts[i]
  {
    seq(|ts|, i requires 0 <= i < |ts| => ts[i].(id := i + 1))
  }

  /** The list `delete_task` returns. */
  function Deleted(ts: seq<Task>, id: int): seq<Task> {
    Renumbered(Without(ts, id))
  }

  /** When no task has the id, the filter keeps everything. */
  lemma {:induction false} WithoutAbsent(ts: seq<Task>, id: int)
    requires forall i :: 0 <= i < |ts| ==> ts[i].id != id
    ensures Without(ts, id) == ts
    decreases |ts|
  {
    if ts != [] {
      WithoutAbsent(ts[1..], id);
    }
  }

  /** When exactly the task at `k` has the id, the filter removes just it. */
  lemma {:induction false} WithoutUnique(ts: seq<Task>, id: int, k: nat)
    requires k < |ts| && ts[k].id == id
    requires forall i :: 0 <= i < |ts| && i != k ==> ts[i].id != id
    ensures Without(ts, id) == ts[..k] + ts[k + 1..]
    decreases |ts|
  {
    var tail := ts[1..];
    if k == 0 {
      forall i | 0 <= i < |tail| ensures tail[i].id != id {
        assert tail[i] == ts[i + 1];
      }
      WithoutAbsent(tail, id);
      assert ts[..k] + ts[k + 1..] == tail;
    } else {
      forall i | 0 <= i < |tail| && i != k - 1 ensures tail[i].id != id {
        assert tail[i] == ts[i + 1];
      }
      WithoutUnique(tail, id, k - 1);
      assert ts[..k] + ts[k + 1..] == [ts[0]] + (tail[..k - 1] + tail[k..]);
    }
  }

  /** Ids can repeat once the list has been edited without renumbering
      (ids 2, 3, 3): deleting id 3 removes both tasks with it and renumbers
      the one left. */
  lemma DeleteRepeatedId(a: Task, b: Task, c: Task)
    requires a.id == 2 && b.id == 3 && c.id == 3
    ensures Deleted([a, b, c], 3) == [a.(id := 1)]
  {
    WithoutAppend([a], [b, c], 3);
    WithoutAppend([b], [c], 3);
    WithoutSingle(a, 3);
    WithoutSingle(b, 3);
    WithoutSingle(c, 3);
    assert [a, b, c] == [a] + ([b] + [c]);
  }

  /** Renumbering a list whose ids are already dense changes nothing. */
  lemma RenumberDense(ts: seq<Task>)
    requires DenseIds(ts)
    ensures Renumbered(ts) == ts
  {
  }

  /** Deleting an id no task has only renumbers; on a dense list that is
      the identity. */
  lemma DeleteAbsent(ts: seq<Task>, id: int)
    requires forall i :: 0 <= i < |ts| ==> ts[i].id != id
    ensures Deleted(ts, id) == Renumbered(ts)
    ensures DenseIds(ts) ==> Deleted(ts, id) == ts
  {
    WithoutAbsent(ts, id);
  }

  /** Deleting from a dense list removes exactly the task at position
      id - 1; the tasks before it are unchanged and those after it move up
      one place and one id, with their data unchanged. */
  lemma DeleteFromDense(ts: seq<Task>, id: int)
    requires DenseIds(ts) && 1 <= id <= |ts|
    ensures |Deleted(ts, id)| == |ts| - 1
    ensures forall k :: 0 <= k < id - 1 ==> Deleted(ts, id)[k] == ts[k]
    ensures forall k :: id - 1 <= k < |ts| - 1 ==> Deleted(ts, id)[k] == ts[k + 1].(id := k + 1)
  {
    WithoutUnique(ts, id, id - 1);
    var w := Without(ts, id);
    assert |w| == |ts| - 1;
    forall k | 0 <= k < id - 1 ensures Deleted(ts, id)[k] == ts[k] {
      assert w[k] == ts[k];
    }
    forall k | id - 1 <= k < |ts| - 1 ensures Deleted(ts, id)[k] == ts[k + 1].(id := k + 1) {
      assert w[k] == ts[k + 1];
    }
  }

  // ---------------------------------------------------------------------
  // complete_task

  /** The search of lines 117-118: the position of the first task with
      the id. */
  function FirstWithId(ts: seq<Task>, id: int): (r: Option<nat>)
    ensures r.Some? ==> r.value < |ts| && ts[r.value].id == id
                        && forall j :: 0 <= j < r.value ==> ts[j].id != id
    ensures r.None? ==> forall j :: 0 <= j < |ts| ==> ts[j].id != id
    decreases |ts|
  {
    if ts == [] then None
    else if ts[0].id == id then Some(0)
    else
      match FirstWithId(ts[1..], id)
      case None => None
      case Some(k) => Some(k + 1)
  }

  /** The list after `task["completed"] = True` on the task at `k`. */
  function MarkCompleted(ts: seq<Task>, k: nat): (r: seq<Task>)
    requires k < |ts|
    ensures |r| == |ts| && r[k].completed
    ensures r[k].(completed := ts[k].completed) == ts[k]
    ensures forall j :: 0 <= j < |ts| && j != k ==> r[j] == ts[j]
  {
    ts[k := ts[k].(completed := true)]
  }

  /** Completing the same id again finds the same task, changes nothing
      more, and logs an identical record again. */
  lemma CompleteAgain(ts: seq<Task>, id: int, k: nat)
    requires FirstWithId(ts, id) == Some(k)
    ensures FirstWithId(MarkCompleted(ts, k), id) == Some(k)
    ensures MarkCompleted(MarkCompleted(ts, k), k) == MarkCompleted(ts, k)
    ensures Snapshot(MarkCompleted(MarkCompleted(ts, k), k)[k]) == Snapshot(MarkCompleted(ts, k)[k])
  {
    var m := MarkCompleted(ts, k);
    assert m[k].id == id;
    assert forall j :: 0 <= j < k ==> m[j].id != id;
  }
}
