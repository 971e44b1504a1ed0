# To-mo-Do-ro task engine, modelled in Dafny

This project models the task engine of the To-mo-Do-ro task tracker, as written in
`app/task_manager.py`, together with the four input validators it calls from
`app/validation.py`. It also proves properties of the model.

A task has these fields:
- an id;
- a name;
- a completed flag;
- an optional due date string `YYYY-MM-DD`;
- a priority (High, Medium, Low);
- a recurrence (None, Daily, Weekly, Monthly).

The engine keeps two collections:
- the active task list (`data.json`);
- an append-only log of completed tasks (`completed_tasks.json`).

The engine does five things:
- It adds a validated task with the next dense id.
- On load, it projects every recurring task forward to its first occurrence after today.
- It deletes by id and renumbers the rest 1..N.
- It marks a task completed and logs a snapshot of it without its id.
- It lists tasks in a stable order by priority.

Modules:

- `Wrappers`: the `Option` type.
- `Calendar`, in `calendar.dfy`:
  - proleptic Gregorian dates, as `datetime.date` represents them;
  - `+ timedelta(days=n)`;
  - the source's monthly step formula, proved to land on the 1st of the next month.
- `DateText`, in `date_text.dfy`: the `YYYY-MM-DD` text form, with `strptime` and `strftime` proved inverse to each other.
- `Text`, in `text.dfy`: `str.strip()` and `str.title()`.
- `Validation`, in `validation.dfy`: the four validators as total functions that return the canonical value or an error.
- `Schedule`: the `while due_date <= today` stepping loop, proved against the function `NextOccurrence`.
- `Tasks`: task records, and the functions that say what each engine operation produces. Properties of those functions are proved here.
- `Listing`: the stable sort by priority rank in `list_tasks`.
- `Store`: the class `TaskStore`.
  - Its fields `tasks` and `log` stand for the two JSON files; saving a list is assigning the field.
  - Each operation is a method with a loop where the source has one.
  - Each method is proved to produce the value its `Tasks` function describes.
  - Every engine operation keeps the store invariant: ids are 1..N, and every recurring due date parses.
  - `Save` is the exception. It stores whatever list it is given, so it keeps the invariant only when that list meets it.

"Today" (`datetime.now().date()`) is a parameter of every operation that reads the clock.

Two behaviours of the source are kept as they are:
- A failed `add_task` reports its error and returns normally, leaving the list unchanged.
- `generate_recurring_tasks` clones every recurring task with a due date, even one already due in the future. That clone keeps the same due date.

## Model

| member | source | states |
|---|---|---|
| Validation.ValidateTaskName | app/validation.py:4-9 | accepts exactly when the name is not all whitespace and its raw length is at most 100; fails with the empty-name error exactly when it is all whitespace, and with the too-long error exactly when it is non-blank and longer than 100 |
| Validation.NameLengthBoundary | app/validation.py:6-9 | a non-blank name of exactly 100 characters is accepted and one character more is rejected as too long |
| Validation.ValidateDueDateAsWritten | app/validation.py:12-20 | the code as written: an absent or empty date passes; every failure is the format error; it passes exactly when the text parses to a date on or after today |
| Validation.ValidateDueDate | app/validation.py:12-20 | accepts exactly the same inputs as the code as written; fails with the format error exactly when a given text does not parse, and with the past-date error exactly when it parses to a date before today |
| Validation.DueDateAcceptsTodayOrLater | app/validation.py:14-18 | the `YYYY-MM-DD` text of a date is accepted exactly when the date is today or later, and a strictly earlier date gets the past-date error |
| Validation.DueDateRejectsOtherText | app/validation.py:14-20 | non-empty text that is not the `YYYY-MM-DD` form of any date is rejected as badly formatted |
| Validation.PastDueDateMisreported | app/validation.py:17-20 | for every well-formed past date, the code as written reports the format error while the corrected validator reports the past-date error |
| Validation.PastDueDateMisreportedExample | app/validation.py:17-20 | "2024-01-01" checked on 2024-01-02 gets the format error as written, and the past-date error once corrected |
| Validation.ValidatePriority | app/validation.py:23-31 | empty or absent input gives Medium; an accepted input title-cases, after stripping, to the returned priority's name; a rejected one matches no priority name and gets the priority error |
| Validation.PriorityIgnoresCase | app/validation.py:28-31 | non-empty input gives priority q exactly when the stripped input equals q's name ignoring case, so " high " and "HIGH" give High |
| Validation.PriorityRejectsOthers | app/validation.py:29-30 | input whose stripped form matches no priority name ignoring case, such as "urgent", is rejected |
| Validation.PriorityIdempotent | app/validation.py:28-31 | validating the canonical name of a priority returns that priority |
| Validation.PriorityName | app/validation.py:25 | every priority name is a canonical title-cased word |
| Validation.ValidateRecurrence | app/validation.py:34-42 | empty or absent input gives None; an accepted input title-cases, after stripping, to the returned recurrence's name; a rejected one matches no recurrence name |
| Validation.RecurrenceIgnoresCase | app/validation.py:39-42 | non-empty input gives recurrence q exactly when the stripped input equals q's name ignoring case |
| Validation.RecurrenceRejectsOthers | app/validation.py:40-41 | input matching no recurrence name ignoring case is rejected |
| Validation.RecurrenceIdempotent | app/validation.py:39-42 | validating the canonical name of a recurrence returns that recurrence |
| Validation.RecurrenceNamesDistinct | app/validation.py:36 | the four recurrence names are distinct |
| Validation.RecurrenceName | app/validation.py:36 | every recurrence name is a canonical title-cased word |
| Text.Strip | app/validation.py:6 | the stripped text is empty exactly when the input is all whitespace, and otherwise neither starts nor ends with whitespace |
| Text.StripLeading | app/validation.py:28 | the result is a suffix of the input, preceded only by whitespace, and does not start with whitespace |
| Text.StripTrailing | app/validation.py:28 | the result is a prefix of the input, followed only by whitespace, and does not end with whitespace |
| Text.StripUntrimmed | app/validation.py:28 | stripping text that neither starts nor ends with whitespace leaves it unchanged |
| Text.Title | app/validation.py:28 | `str.title()`: keeps the length (its meaning for the validators is `Text.TitleMatchesWord`) |
| Text.TitleMatchesWord | app/validation.py:28-29 | title-casing gives a canonical word exactly when the input spells that word in any mix of cases |
| DateText.FormatThenParse | app/task_manager.py:91 | parsing the `strftime` text of a date gives the date back |
| DateText.ParseThenFormat | app/task_manager.py:75 | every text `strptime` accepts is the `strftime` text of the date it parses to |
| DateText.ParseDateExactly | app/validation.py:16 | the accepted texts are exactly the formatted valid dates |
| DateText.FormatDate | app/task_manager.py:91 | the text is ten characters with dashes at positions 4 and 7 |
| DateText.ParseDate | app/task_manager.py:75 | an accepted text yields a valid date with a four-digit year |
| Calendar.NextDay | app/task_manager.py:80 | the next day is valid and strictly later, and stays in the year except from December 31 to January 1 |
| Calendar.AddDays | app/task_manager.py:80-82 | adding days gives a valid date, strictly later when at least one day is added |
| Calendar.AddDaysSplit | app/task_manager.py:82 | adding a + b days is adding a days and then b days |
| Calendar.AddDaysMonotone | app/task_manager.py:80-82 | adding a fixed number of days preserves the order of dates |
| Calendar.MonthlyStep | app/task_manager.py:83-86 | the source's formula (go to the 1st, add 32 days, go to the 1st) always gives the 1st of the following month, rolling December into January of the next year, and that date is strictly later |
| Calendar.AddDaysFromFirst32 | app/task_manager.py:85 | 32 days after the 1st of a month is day 33 minus that month's length in the following month |
| Schedule.Step | app/task_manager.py:79-86 | one recurrence step gives a valid date strictly after the original and at most a year later, so the loop terminates |
| Schedule.NextOccurrence | app/task_manager.py:78-86 | the projected date is valid, strictly after today and not before the start date |
| Schedule.NextDue | app/task_manager.py:78-86 | the stepping loop ends at `NextOccurrence` of its start date, a date strictly after today |
| Schedule.NextOccurrenceIsFirstStepAfter | app/task_manager.py:78-86 | the projected date is reached from the start by whole steps, every earlier step-date is on or before today, and it is after today: it is the first step-date after today |
| Schedule.FutureDateKept | app/task_manager.py:78 | a start date already after today is kept as it is |
| Schedule.DailyLandsTomorrow | app/task_manager.py:79-80 | a daily task due on or before today is projected to tomorrow |
| Schedule.WeeklyLandsWithinAWeek | app/task_manager.py:81-82 | a weekly task due on or before today is projected to no later than a week after today |
| Schedule.MonthlyLandsNextFirst | app/task_manager.py:83-86 | a monthly task due on or before today is projected to the 1st of the month after today's month |
| Schedule.DailyExample | app/task_manager.py:79-80 | a daily task due 2024-01-01 and projected on 2024-01-03 is due 2024-01-04 |
| Schedule.MonthlyExample | app/task_manager.py:83-86 | a monthly task due 2024-01-15 and projected on 2024-02-01 is due 2024-03-01 |
| Tasks.CheckNewTask | app/task_manager.py:46-54 | the four validations pass together exactly when the task is accepted; the first failing validation, in the source's order, is the error reported, with the corrected past-date message; success yields the canonical priority and recurrence |
| Tasks.CheckNewTaskAsWritten | app/task_manager.py:46-54 | the four validations as `add_task` runs them, with the due date checked by the validator as written (a definition; its meaning is stated by the next row) |
| Tasks.CheckNewTaskAsWrittenDiffers | app/task_manager.py:46-54 | the checks as written accept the same tasks and report the same error as the corrected checks, except that a past due date is reported as the format error |
| Tasks.CheckedTaskParsable | app/task_manager.py:48 | a task whose due date passed validation can later be projected |
| Tasks.AppendKeepsInvariant | app/task_manager.py:57-64 | appending a task with id length + 1 keeps the ids dense and the due dates parsable |
| Store.TaskStore.AddTask | app/task_manager.py:44-65 | on a failed validation, that error is reported and the list is unchanged; otherwise one task is appended with id old length + 1, completed false, the name and due date as given and the canonical priority and recurrence; a reported error is the source's, except that the source reports a past date as the format error; the invariant is kept |
| Tasks.Recurs | app/task_manager.py:74 | the test that selects a task for cloning: a recurrence other than None and a non-empty due date (a definition) |
| Tasks.CloneOf | app/task_manager.py:89-92 | the clone: a copy with the new id, the projected due date as text and completed false (a definition; `Tasks.CloneFacts` states its properties) |
| Tasks.AddClone | app/task_manager.py:74-93 | one iteration keeps the clones made so far as a prefix and adds exactly one task when the task recurs, none otherwise |
| Tasks.Clones | app/task_manager.py:73-93 | there are at most as many clones as tasks, and the k-th clone has id base + k |
| Tasks.ClonesFollowRecurringTasks | app/task_manager.py:73-93 | there is exactly one clone per task with a recurrence other than None and a non-empty due date, in input order, numbered consecutively |
| Tasks.CloneFacts | app/task_manager.py:78-92 | a clone keeps its source's name, priority and recurrence; it has the given id and completed false; its due date is strictly after today and parses back to the projected date; a source already due after today keeps its own due date text |
| Tasks.ProjectedDue | app/task_manager.py:75-86 | a clone's due date is a valid four-digit-year date strictly after today |
| Tasks.Projection | app/task_manager.py:68-97 | the list `generate_recurring_tasks` returns: the input followed by its clones (a definition; the lemmas below state its properties) |
| Tasks.NoRecurringTasks | app/task_manager.py:74 | `RecurringTasks` is empty exactly when no task passes the cloning test |
| Tasks.ProjectionIdentity | app/task_manager.py:12-97 | saving a list and loading it back gives the same list exactly when no task in it recurs, because a recurring task is cloned even when not yet due |
| Tasks.ProjectionKeepsDense | app/task_manager.py:89-95 | the projected list starts with the input list unchanged and keeps ids dense |
| Tasks.ClonesRecurAndParse | app/task_manager.py:89-93 | every clone is itself recurring and has a parsable due date |
| Tasks.ProjectionKeepsParsable | app/task_manager.py:95 | a projected list can be projected again |
| Tasks.ProjectionLength | app/task_manager.py:73-95 | projection adds exactly one task per recurring task |
| Tasks.ProjectionRepeats | app/task_manager.py:73-95 | projection is not idempotent: a second pass adds twice as many tasks as the first, since clones are cloned again |
| Tasks.ClonesUpToAll | app/task_manager.py:73 | the loop's indexed description of the clones so far agrees, once the loop is done, with the recursive one |
| Store.CloneTask | app/task_manager.py:75-92 | the clone built for one recurring task is `CloneOf` that task |
| Store.AppendClone | app/task_manager.py:74-93 | one iteration appends the task's clone, numbered after the clones so far, exactly when the task recurs, and otherwise changes nothing |
| Store.RecurringClones | app/task_manager.py:70-93 | the loop builds exactly the clone list `Clones` with ids from length + 1 |
| Store.TaskStore.GenerateRecurring | app/task_manager.py:68-97 | the list becomes the input followed by its clones, is saved and returned; the invariant is kept |
| Store.TaskStore.Load | app/task_manager.py:12-35 | unreadable (blank or corrupt) content gives an empty list; readable content gives its projection, which is saved; with readable content the list comes back unchanged exactly when no task recurs, which characterises a save followed by a load; the invariant is kept, and it holds afterwards whenever the content was unreadable |
| Store.TaskStore.Save | app/task_manager.py:38-41 | the stored list becomes the given list; the invariant holds afterwards when the given list is dense and parsable |
| Store.TaskStore.constructor | app/task_manager.py:16-21 | a new store starts with an empty task list and an empty log, which meets the invariant |
| Tasks.Snapshot | app/task_manager.py:134-135 | a log record: the task's fields without its id (a definition) |
| Tasks.Deleted | app/task_manager.py:103-107 | the list `delete_task` returns: the filter, then the renumbering (a definition; `Tasks.DeleteAbsent` and `Tasks.DeleteFromDense` state its properties) |
| Tasks.Without | app/task_manager.py:103 | the filter keeps no more tasks than the input |
| Tasks.WithoutAppend | app/task_manager.py:103 | filtering a concatenation is filtering each part, in order; with `Tasks.WithoutSingle` this makes the filter the order-keeping sublist of the tasks whose id differs, for any input, repeated ids included |
| Tasks.WithoutSingle | app/task_manager.py:103 | a single task is kept exactly when its id differs from the one deleted |
| Tasks.DeleteRepeatedId | app/task_manager.py:103-107 | with ids 2, 3, 3 (a list edited without renumbering), deleting id 3 removes both tasks with it and renumbers the one left to 1 |
| Tasks.WithoutMembers | app/task_manager.py:103 | a task is kept exactly when it is in the input and has a different id |
| Tasks.Renumbered | app/task_manager.py:106-107 | renumbering keeps the length, makes ids 1..N and changes nothing but the ids |
| Tasks.WithoutAbsent | app/task_manager.py:103 | when no task has the id the filter keeps every task |
| Tasks.WithoutUnique | app/task_manager.py:103 | when exactly one task has the id, the filter removes just that task and keeps the order of the rest |
| Tasks.RenumberDense | app/task_manager.py:106-107 | renumbering a dense list changes nothing |
| Tasks.DeleteAbsent | app/task_manager.py:103-107 | deleting an absent id only renumbers, which on a dense list is the identity |
| Tasks.DeleteFromDense | app/task_manager.py:103-107 | deleting from a dense list removes exactly one task; earlier tasks are unchanged and later ones move up one place and one id with their data unchanged |
| Store.TaskStore.DeleteTask | app/task_manager.py:100-111 | the list becomes the filtered list renumbered 1..N, is saved and returned; the invariant is kept |
| Tasks.FirstWithId | app/task_manager.py:117-118 | the result is the position of the first task with the id, or none when no task has it |
| Tasks.MarkCompleted | app/task_manager.py:119 | the task at the position is completed and otherwise unchanged; every other task is unchanged |
| Tasks.CompleteAgain | app/task_manager.py:114-128 | completing the same id again finds the same task, leaves the list as it is and logs an identical record again |
| Store.TaskStore.CompleteTask | app/task_manager.py:114-128 | with no matching id, nothing changes and the result is not found; otherwise the first match is marked completed, the log grows by exactly that task's snapshot without id, and earlier entries stay |
| Store.TaskStore.LogCompleted | app/task_manager.py:131-146 | the log grows by exactly one record: the task without its id |
| Listing.Rank | app/task_manager.py:153-154 | the sort key: the position of the priority in High, Medium, Low (a definition) |
| Listing.SortByPriority | app/task_manager.py:153-154 | the sorted list is a permutation of the input, non-decreasing by rank High < Medium < Low, and keeps the input order within each priority |
| Listing.SortedUnique | app/task_manager.py:153-154 | two lists sorted by rank that keep the same order within each priority are equal |
| Listing.StableSortUnique | app/task_manager.py:153-154 | any stable sort by rank, Python's `sorted` included, gives exactly `SortByPriority`'s result |
| Listing.InsertSorted | app/task_manager.py:153-154 | inserting by rank into a sorted list keeps it sorted |
| Listing.InsertMultiset | app/task_manager.py:153-154 | inserting adds exactly the one task |
| Listing.InsertWithPriority | app/task_manager.py:153-154 | an inserted task goes to the front of its own priority group and leaves the other groups unchanged |

## Left out

- File and JSON I/O. The two JSON files are the store's fields. The model does not create missing files or handle decoding errors.
- Store.TaskStore.Load does not read content. Whether the stored content is blank or corrupt is the input `readable`.
- Store.TaskStore.Load: on unreadable content the source returns an empty list but leaves `data.json` as it is until the next save. The model sets the list to empty at once.
- Tasks.CheckNewTask reports a well-formed past due date with the past-date error, as the validator is evidently meant to. The source reports the format error there. `Tasks.CheckNewTaskAsWrittenDiffers` states the difference exactly.
- Store.TaskStore.AddTask returns the corrected past-date error where the source prints the format error. Its postcondition also states the error the code as written gives.
- Store.TaskStore.LogCompleted: when `completed_tasks.json` is missing or corrupt, the source starts the log afresh and drops the unreadable contents. The model always appends to the existing log.
- Printed messages are left out. That covers the error `add_task` prints (the model returns it instead), the confirmation from `complete_task`, the lines `list_tasks` prints, and the "no tasks" message.
- `view_completed_tasks` only reads and prints the log, so it is not modelled.
- `datetime.now()` is not modelled. The date is the parameter `today`.
- `strptime` leniency is not modelled. Python also accepts unpadded fields such as "2024-1-5", and the model accepts only the zero-padded form `YYYY-MM-DD`.
- Years before 1000 print with fewer than four digits under `strftime` on some platforms. The model always writes four digits.
- The year limit of `datetime`:
  - `FormatDate` requires a year of at most 9999.
  - Projection requires today's year to be below 9999 (`ValidToday`). Past 9999-12-31, Python raises `OverflowError`.
- Store.TaskStore.GenerateRecurring requires every recurring task's due date to parse (`AllParsable`). The source raises `ValueError` at line 75 for one that does not. Tasks added through `add_task` always satisfy this.
- Unknown recurrence strings in a hand-edited file are not modelled; the model's recurrence is one of the four canonical values. For such a task due on or before today, the source's loop at line 78 never ends. For one due after today, the loop does not run and the task is cloned with its own date.
- The model's `Task` always has a recurrence. The source's default for a missing key (line 74) is therefore not modelled.
- Case mapping in `str.title()` covers ASCII letters only. Other letters are left as they are.
- Aliasing is not modelled. The source mutates dicts that the caller's lists share, and the model's records are values.
- Clones piling up over repeated loads is not modelled as a process. `Tasks.ProjectionRepeats` states what one further load does.
- `app/gui.py`, `app/main.py` and `app/pomodoro.py` are user-interface, menu and timer code and are not part of this model.

## Findings

| source | as written | input that shows it | evidently intended | confidence | as-written member | corrected member |
|---|---|---|---|---|---|---|
| app/validation.py:14-20 | the "Due date cannot be in the past!" `ValueError` is raised inside the `try`, whose `except ValueError` replaces it with "Invalid due date format! Use YYYY-MM-DD." | due date "2024-01-01" checked on 2024-01-02 | a well-formed past date is reported as being in the past | high (proved about the model; not executed) | Validation.ValidateDueDateAsWritten, Validation.PastDueDateMisreported, Validation.PastDueDateMisreportedExample | Validation.ValidateDueDate |

`Tasks.CheckNewTask` and `Store.TaskStore.AddTask` use the corrected due-date validator. It accepts exactly the same inputs as the code as written (`Validation.ValidateDueDate`'s first postcondition), so only the message differs. `Tasks.CheckNewTaskAsWritten` runs the checks as written, and `Tasks.CheckNewTaskAsWrittenDiffers` relates the two.
