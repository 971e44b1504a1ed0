/** The task store: the active task list and the completed log as two
    fields of one object. Each operation of the task engine is a method
    that updates them the way the source updates its lists and then
    overwrites its JSON files; a save is an assignment to the field. */
module Store {
  import opened Wrappers
  import opened Calendar
  import opened DateText
  import opened Validation
  import opened Schedule
  import opened Tasks

  class TaskStore {
    /** The active task list (`data.json`). */
    var tasks: seq<Task>
    /** The completed log (`completed_tasks.json`), in completion order. */
    var log: seq<Record>

    /** What every operation of the engine keeps: ids 1..N in list order,
        and every recurring task's due date readable by the projection. */
    ghost predicate Valid()
      reads this
    {
      DenseIds(tasks) && AllParsable(tasks)
    }

    /** First use: both collections start empty. */
    constructor ()
      ensures tasks == [] && log == [] && Valid()
    {
      tasks := [];
      log := [];
    }

    /** `save_tasks`: replace the whole list. */
    method Save(ts: seq<Task>)
      modifies this`tasks
      ensures tasks == ts
      ensures DenseIds(ts) && AllParsable(ts) ==> Valid()
    {
      tasks := ts;
    }

    /** `load_tasks`. When the stored content is blank or not valid JSON
        (`readable` false) the session starts from an empty list; otherwise
        the stored list is projected and the projection saved. */
    method Load(readable: bool, today: Date) returns (loaded: seq<Task>)
      requires ValidToday(today)
      requires readable ==> AllParsable(tasks)
      modifies this`tasks
      ensures readable ==> tasks == Projection(old(tasks), today)
      ensures !readable ==> tasks == []
      ensures loaded == tasks
      ensures old(Valid()) || !readable ==> Valid()
      ensures readable ==> (tasks == old(tasks) <==> forall i :: 0 <= i < |old(tasks)| ==> !Recurs(old(tasks)[i]))
    {
      if !readable {
        tasks := [];
        loaded := [];
        return;
      }
      ProjectionIdentity(tasks, today);
      loaded := GenerateRecurring(today);
    }

    /** `add_task`. A failed validation is reported in `error` (the source
        prints it) and changes nothing; otherwise the new task is appended
        with the next id and the list saved. */
    method AddTask(name: string, due: Option<string>, priority: Option<string>,
                   recurrence: Option<string>, today: Date) returns (error: Option<ValidationError>)
      modifies this`tasks
      ensures CheckNewTask(name, due, priority, recurrence, today).Err? ==>
                error == Some(CheckNewTask(name, due, priority, recurrence, today).error)
                && tasks == old(tasks)
      ensures CheckNewTask(name, due, priority, recurrence, today).Ok? ==>
                var (p, r) := CheckNewTask(name, due, priority, recurrence, today).value;
                error == None && tasks == old(tasks) + [Task(|old(tasks)| + 1, name, false, due, p, r)]
      ensures error.Some? ==>
                CheckNewTaskAsWritten(name, due, priority, recurrence, today)
                == Err(if error.value == PastDueDate then BadDateFormat else error.value)
      ensures old(Valid()) ==> Valid()
    {
      CheckNewTaskAsWrittenDiffers(name, due, priority, recurrence, today);
      var nameCheck := ValidateTaskName(name);
      if nameCheck.Fail? {
        return Some(nameCheck.error);
      }
      var dueCheck := ValidateDueDate(due, today);
      if dueCheck.Fail? {
        return Some(dueCheck.error);
      }
      var priorityCheck := ValidatePriority(priority);
      if priorityCheck.Err? {
        return Some(priorityCheck.error);
      }
      var recurrenceCheck := ValidateRecurrence(recurrence);
      if recurrenceCheck.Err? {
        return Some(recurrenceCheck.error);
      }
      var p, r := priorityCheck.value, recurrenceCheck.value;
      var task := Task(|tasks| + 1, name, false, due, p, r);
      CheckedTaskParsable(name, due, priority, recurrence, today, |tasks| + 1);
      AppendKeepsInvariant(tasks, task);
      tasks := tasks + [task];
      error := None;
    }

    /** `generate_recurring_tasks`: one clone per recurring task, appended
        after all current tasks; the list is saved and returned. */
    method GenerateRecurring(today: Date) returns (result: seq<Task>)
      requires ValidToday(today) && AllParsable(tasks)
      modifies this`tasks
      ensures tasks == Projection(old(tasks), today)
      ensures result == tasks
      ensures old(Valid()) ==> Valid()
    {
      var newTasks := RecurringClones(tasks, today);
      if DenseIds(tasks) {
        ProjectionKeepsDense(tasks, today);
      }
      ProjectionKeepsParsable(tasks, today);
      tasks := tasks + newTasks;
      result := tasks;
    }

    /** `delete_task`: drop every task with the id, renumber the rest 1..N,
        save and return the list. */
    method DeleteTask(id: int) returns (result: seq<Task>)
      modifies this`tasks
      ensures tasks == Deleted(old(tasks), id)
      ensures result == tasks
      ensures DenseIds(tasks)
      ensures old(Valid()) ==> Valid()
    {
      var kept := Without(tasks, id);
      var remaining := kept;
      var i := 0;
      while i < |remaining|
        invariant 0 <= i <= |remaining| == |kept|
        invariant tasks == old(tasks)
        invariant forall k :: 0 <= k < i ==> remaining[k] == kept[k].(id := k + 1)
        invariant forall k :: i <= k < |remaining| ==> remaining[k] == kept[k]
      {
        remaining := remaining[i := remaining[i].(id := i + 1)];
        i := i + 1;
      }
      assert remaining == Renumbered(kept);
      if AllParsable(tasks) {
        WithoutMembers(tasks, id);
        forall k | 0 <= k < |remaining| ensures Parsable(remaining[k]) {
          assert kept[k] in kept;
        }
      }
      tasks := remaining;
      result := remaining;
    }

    /** `complete_task`: mark the first task with the id completed, log its
        snapshot and save; report whether one was found. */
    method CompleteTask(id: int) returns (found: bool)
      modifies this`tasks, this`log
      ensures FirstWithId(old(tasks), id).None? ==> !found && tasks == old(tasks) && log == old(log)
      ensures FirstWithId(old(tasks), id).Some? ==>
                var k := FirstWithId(old(tasks), id).value;
                found && tasks == MarkCompleted(old(tasks), k) && log == old(log) + [Snapshot(tasks[k])]
      ensures old(Valid()) ==> Valid()
    {
      var i := 0;
      while i < |tasks|
        invariant 0 <= i <= |tasks|
        invariant tasks == old(tasks) && log == old(log)
        invariant forall j :: 0 <= j < i ==> tasks[j].id != id
      {
        if tasks[i].id == id {
          tasks := tasks[i := tasks[i].(completed := true)];
          LogCompleted(tasks[i]);
          return true;
        }
        i := i + 1;
      }
      return false;
    }

    /** `log_completed_task`: append the task without its id to the log. */
    method LogCompleted(t: Task)
      modifies this`log
      ensures log == old(log) + [Snapshot(t)]
    {
      log := log + [Snapshot(t)];
    }
  }

  /** The loop of `generate_recurring_tasks` (lines 73-93) that builds
      `new_tasks`: for each recurring task, step its due date past `today`
      and clone it with the next free id. */
  method RecurringClones(ts: seq<Task>, today: Date) returns (newTasks: seq<Task>)
    requires ValidToday(today) && AllParsable(ts)
    ensures newTasks == Clones(ts, |ts| + 1, today)
  {
    newTasks := [];
    var i := 0;
    while i < |ts|
      invariant 0 <= i <= |ts|
      invariant newTasks == ClonesUpTo(ts, i, |ts| + 1, today)
    {
      newTasks := AppendClone(newTasks, ts[i], |ts| + 1, today);
      i := i + 1;
    }
    ClonesUpToAll(ts, |ts| + 1, today);
  }

  /** The body of that loop for one task: a recurring task's clone is
      appended, numbered after the clones so far; any other task adds
      nothing. */
  method AppendClone(newTasks: seq<Task>, task: Task, base: int, today: Date) returns (next: seq<Task>)
    requires ValidToday(today) && Parsable(task)
    ensures next == AddClone(newTasks, task, base, today)
  {
    next := newTasks;
    if task.recurrence != NoRecurrence && Given(task.due) {
      var clone := CloneTask(task, base + |newTasks|, today);
      next := newTasks + [clone];
    }
  }

  /** Lines 75-92 for one recurring task: parse its due date, step it past
      `today`, and copy the task with that date, the given id and
      `completed` false. */
  method CloneTask(task: Task, id: int, today: Date) returns (clone: Task)
    requires ValidToday(today) && Recurs(task) && Parsable(task)
    ensures clone == CloneOf(task, id, today)
  {
    var start := ParseDate(task.due.value).value;
    var due := NextDue(start, task.recurrence, today);
    clone := task.(id := id, due := Some(FormatDate(due)), completed := false);
  }
}
