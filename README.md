# ToDo tool status engine in Dafny

This project models the task logic of `todo_tool.py`, a single-window desktop
to-do list. A task has a title, a description, a priority, a status, an
optional finished date and a list of subtasks. A subtask has a title, a
description, a status and an optional finished date. The model covers:

- the status rules: what `set_status` and `normalize` do to one item, and what
  `recompute_status_from_subtasks` derives for a task from its subtasks. With
  no subtasks the task's own status stands. All Done gives Done, dated with the
  latest subtask date. All ToDo gives ToDo. Any other mix gives the most
  escalated open status, or On Hold;
- the two dialogs' commit steps (`get_task_data`, `get_subtask_data`): strip
  the text, reject a blank title, and write the form into the item or build a
  new one;
- the main window's handlers: add a task, edit, delete, add a subtask, mark
  done, and the selection behind the monthly export;
- which tasks the tree view shows (`task_visible`) and the key it sorts them by
  (`sort_key`);
- what saving and reloading does to the task list.

The code is modelled in its own form. Pure rules are functions on values
(`StatusEngine`, `TaskOps`, `Dialogs`, `MonthExport`, `View`). The `Subtask`
and `Task` dataclasses are classes whose methods update their fields in place
(`Entities`). The main window is a class holding the task list (`Window`).
Each method is specified by the function on values applied to the state before
the call, and the properties are lemmas about those functions.

Modules: `Domain` holds the enumerations, the timestamp and the record types;
`Text` holds `strip`, `lower` and substring search; `StatusEngine`, `TaskOps`,
`Entities`, `Dialogs`, `MonthExport` and `View` follow; `Window` is last.

Two behaviours of the code worth knowing, both kept in the model:

- A task whose subtasks mix only ToDo and Done gets On Hold, not ToDo. The
  candidate list is empty, and the code's fallback is On Hold
  (`todo_tool.py:128-134`). `StatusEngine.ExampleToDoAndDoneGiveOnHold` shows
  this.
- A task whose subtasks are all Done, but none dated, is stamped with the clock
  at every recompute. Each `normalize` at saving and at loading moves its
  finished date (`StatusEngine.RecomputeRestampsUndatedDone`). Only the
  corrected subtask dialog, below, prevents that state from arising.

The clock reading (`iso_now()`, `datetime.now()`) is a parameter `now`, and the
export month is a pair `year`, `month`. Timestamps are a structured
`Timestamp`, compared field by field, in place of ISO-8601 strings.

## Model

| member | source | states |
|---|---|---|
| Domain.IndexOf | todo_tool.py:130 | `list.index`: the position of the first occurrence, with no earlier one |
| Domain.StatiAndOrderAgree | todo_tool.py:31-51 | the display list and the escalation list hold the same seven statuses |
| Domain.MaxStamp | todo_tool.py:118 | `max` over dates: an element of the list that no element exceeds |
| StatusEngine.SetSubtaskStatus | todo_tool.py:72-79 | the status becomes the argument; a Done item keeps an existing date or gets `now`; any other status clears the date |
| StatusEngine.SetTaskStatus | todo_tool.py:137-144 | as for a subtask; the other fields and the subtasks are untouched |
| StatusEngine.SetSubtaskStatusIdempotent | todo_tool.py:72-79 | setting the same status again, at any later clock, changes nothing |
| StatusEngine.NormalizeSubtaskSpec | todo_tool.py:65-70 | an unknown status becomes ToDo, a date survives only on a Done subtask, the result is normalized, title and description are kept |
| StatusEngine.NormalizeSubtaskFixesNormalized | todo_tool.py:65-70 | a normalized subtask is left unchanged, so normalizing twice is normalizing once |
| StatusEngine.CandidatesSpec | todo_tool.py:128 | the candidates are subtask statuses other than ToDo and Done, every such status is among them, and there are none exactly when no subtask has such a status |
| StatusEngine.CandidatesAreKnown | todo_tool.py:128-130 | with known subtask statuses, every candidate is in the escalation order |
| StatusEngine.LastMaxBy | todo_tool.py:130-131 | the last element after sorting by key: an element of the list whose key no element exceeds |
| StatusEngine.DominantIsMaximal | todo_tool.py:128-132 | the dominant status is a candidate, and no candidate is escalated beyond it |
| StatusEngine.DoneDatesSpec | todo_tool.py:112-116 | the collected dates are dates of subtasks, every dated subtask contributes its date, and there are none exactly when no subtask is dated |
| StatusEngine.LatestDateOrIsLatest | todo_tool.py:112-120 | the finished date of an all-Done task is the latest subtask date, or `now` when no subtask is dated |
| StatusEngine.LatestDateIsTheMaximum | todo_tool.py:112-118 | no dated subtask is later than the chosen date |
| StatusEngine.MixedStatusIsDominant | todo_tool.py:128-134 | for a mix, the status is open and known: the status of a subtask that no other open subtask is escalated beyond, or On Hold when no subtask is open |
| StatusEngine.RecomputeShape | todo_tool.py:100-135 | only status and date change; the date is present exactly when the task is Done; with subtasks the status is a known one |
| StatusEngine.RecomputeWithoutSubtasks | todo_tool.py:101-107 | without subtasks the status stands; Done keeps its date or gets `now`; any other status clears the date |
| StatusEngine.RecomputeAllDone | todo_tool.py:110-121 | all subtasks Done gives Done, with the latest subtask date or `now` |
| StatusEngine.RecomputeAllToDo | todo_tool.py:123-126 | all subtasks ToDo gives ToDo without a date |
| StatusEngine.RecomputeMixed | todo_tool.py:128-135 | any other mix gives the dominant candidate or On Hold, without a date |
| StatusEngine.RecomputeDoneIff | todo_tool.py:109-135 | with subtasks, the task is Done exactly when every subtask is Done |
| StatusEngine.RecomputeDependsOnlyOnSubtasks | todo_tool.py:109-135 | with subtasks, the derived status and date depend only on the subtasks, not on the task's previous status or date |
| StatusEngine.RecomputeIdempotent | todo_tool.py:100-135 | recomputing twice with the same clock is recomputing once |
| StatusEngine.RecomputeRestampsUndatedDone | todo_tool.py:117-120 | all Done with no subtask dated: the task's date becomes `now`, whatever it was |
| StatusEngine.NormalizeFieldsSpec | todo_tool.py:90-96 | after defaulting, priority and status are known and every subtask is normalized, so their statuses are known |
| StatusEngine.NormalizeTaskSpec | todo_tool.py:90-98 | a normalized task results, keeping the title and description, with the priority kept if known and Mittel otherwise, and each subtask normalized in place |
| StatusEngine.NormalizeTaskIdempotent | todo_tool.py:90-98 | normalizing twice with the same clock is normalizing once |
| StatusEngine.NormalizeTaskFixesDerived | todo_tool.py:90-98 | a normalized task whose status and date already follow from its subtasks is unchanged |
| StatusEngine.ExampleLatestSubtaskDateWins | todo_tool.py:110-118 | two Done subtasks dated on different days give the later day |
| StatusEngine.ExampleOnHoldDominatesWaiting | todo_tool.py:128-135 | On Hold with "Warte auf Antwort" gives On Hold |
| StatusEngine.ExampleToDoAndDoneGiveOnHold | todo_tool.py:128-135 | ToDo with Done gives On Hold |
| StatusEngine.ExampleAllToDo | todo_tool.py:123-126 | two ToDo subtasks give ToDo without a date |
| TaskOps.NormalizedAreKnown | todo_tool.py:130 | normalized subtasks have statuses the escalation order knows, so recompute does not raise |
| TaskOps.RecomputeKeepsNormalized | todo_tool.py:100-135 | recomputing a task with normalized subtasks gives a normalized task |
| TaskOps.MarkTaskDoneSpec | todo_tool.py:665-670 | the marked task is Done, dated, its other fields kept; every subtask is its old value set Done: title and description kept, its old date or else `now` |
| TaskOps.MarkTaskDoneFinishesAtLatest | todo_tool.py:665-668 | with subtasks, the task's date is the latest subtask date after marking |
| TaskOps.MarkTaskDoneKeepsOwnDate | todo_tool.py:669-670 | without subtasks, an already dated task keeps its date |
| TaskOps.MarkSubtaskDoneSpec | todo_tool.py:677-678 | only the selected subtask changes, to its old value set Done: title and description kept, its old date or else `now`; the task's own fields are kept and its statuses stay known |
| TaskOps.MarkSubtaskDoneCompletesTask | todo_tool.py:677-678 | after marking a subtask done, the task is Done exactly when every other subtask already was |
| TaskOps.AddSubtaskSpec | todo_tool.py:651-652 | the subtask is appended, the task's own fields are kept, the date is present exactly when Done |
| TaskOps.AddOpenSubtaskReopens | todo_tool.py:651-652 | appending a subtask that is not Done reopens a Done task and clears its date |
| TaskOps.AddSubtaskKeepsNormalized | todo_tool.py:651-652 | appending a normalized subtask keeps the task normalized |
| TaskOps.ReplaceSubtaskSpec | todo_tool.py:609-610 | after a subtask edit only that subtask differs and holds the new value; the task's own fields are kept, its status is known and it is dated exactly when Done |
| TaskOps.ReplaceSubtaskKeepsNormalized | todo_tool.py:609-610 | an edit to a normalized subtask keeps the task normalized |
| TaskOps.RemoveAt | todo_tool.py:624 | removing a position keeps the elements before it and shifts those after it |
| TaskOps.RemoveAtMultiset | todo_tool.py:624 | removing a position removes exactly one occurrence of that element |
| TaskOps.RemoveFirstEqualIsSelectedIff | todo_tool.py:624 | removing the first equal element agrees with removing the selected one exactly when the elements between them are all equal |
| TaskOps.RemoveFirstEqualDeletesWrongOne | todo_tool.py:632 | with two equal subtasks, deleting the second one as written removes the first |
| TaskOps.DeleteSubtaskSpec | todo_tool.py:632-633 | the selected subtask is gone, the rest keep their order, statuses stay known and the task's own fields are kept |
| TaskOps.DeleteOnlySubtaskKeepsStatus | todo_tool.py:632-633 | deleting the last subtask leaves the status the subtasks had given the task |
| TaskOps.DeleteSubtaskKeepsNormalized | todo_tool.py:632-633 | deleting a subtask keeps the task normalized |
| TaskOps.MarkTaskDoneKeepsNormalized | todo_tool.py:665-670 | marking the task done keeps it normalized |
| TaskOps.MarkSubtaskDoneKeepsNormalized | todo_tool.py:677-678 | marking a subtask done keeps the task normalized |
| Entities.Subtask.Normalize | todo_tool.py:65-70 | the subtask's new value is the normalized old value |
| Entities.Subtask.SetStatus | todo_tool.py:72-79 | the subtask's new value is `set_status` applied to the old value |
| Entities.Task.SetStatus | todo_tool.py:137-144 | the task's new value is `set_status` applied to the old value |
| Entities.Task.Recompute | todo_tool.py:100-135 | the task's new value is the recomputed old value |
| Entities.Task.Normalize | todo_tool.py:90-98 | the task's new value is the normalized old value; the subtask list is the same list of objects |
| Entities.Task.NormalizeFieldsInPlace | todo_tool.py:91-96 | the task's new value has the defaults applied and every subtask normalized, before the recompute |
| Entities.Task.NormalizeSubtasks | todo_tool.py:94-95 | after the loop every subtask holds its normalized old value |
| Entities.Task.MarkDone | todo_tool.py:665-670 | the task's new value is the marked old value |
| Entities.Task.SetSubtasksDone | todo_tool.py:667-668 | after the loop every subtask holds its old value set Done |
| Entities.Task.MarkSubtaskDone | todo_tool.py:677-678 | the task's new value is the old value with the subtask marked and the task recomputed |
| Entities.Task.AddSubtask | todo_tool.py:651-652 | the object is appended, and the task's new value is the old value with the subtask added |
| Entities.Task.DeleteSubtask | todo_tool.py:632-633 | the selected object leaves the list, and the task's new value is the old one with that subtask deleted |
| Dialogs.CommitTaskFormRejectsBlankTitle | todo_tool.py:223-228 | the commit fails exactly when the title is white space only |
| Dialogs.CommitTaskFormSpec | todo_tool.py:222-238 | a committed task is normalized, carries the stripped texts and the (defaulted) priority, and keeps the subtasks, normalized, in order |
| Dialogs.CommitTaskFormAppliesStatus | todo_tool.py:234-238 | without subtasks the chosen status is applied: Done keeps the date or gets `now`, anything else has no date |
| Dialogs.NormalizeWithoutSubtasks | todo_tool.py:90-98 | normalizing a task without subtasks defaults an unknown status to ToDo and leaves a date exactly on a Done task: the one it had, or `now` |
| Dialogs.CommitTaskFormIgnoresStatus | todo_tool.py:234-235 | with subtasks the chosen status has no effect |
| Dialogs.CommitTaskFormIsNormalized | todo_tool.py:238 | the committed task is a fixed point of `normalize()` with the same clock |
| Dialogs.NewDoneSubtaskAsWrittenHasNoDate | todo_tool.py:283-284 | a new subtask created Done, as written, stays without a date after `normalize()` |
| Dialogs.CommitSubtaskFormRejectsBlankTitle | todo_tool.py:272-276 | the commit fails exactly when the title is white space only |
| Dialogs.CommitSubtaskFormSpec | todo_tool.py:271-284 | a committed subtask is normalized, carries the stripped texts and the chosen status, and is dated exactly when Done: its old date, or `now` |
| Dialogs.GetTaskData | todo_tool.py:222-238 | on a blank title nothing changes; otherwise the existing object is updated, or a fresh one built, holding the committed task |
| Dialogs.WriteTaskForm | todo_tool.py:229-238 | the existing task holds the form's values, then is normalized |
| Dialogs.NewTaskFromForm | todo_tool.py:236-238 | the fresh task holds the form's values, normalized, and has no subtasks |
| Dialogs.GetSubtaskData | todo_tool.py:271-284 | on a blank title nothing changes; otherwise the existing object is updated, or a fresh one built, holding the committed subtask |
| Dialogs.WriteSubtaskForm | todo_tool.py:277-284 | the existing subtask holds the stripped texts, the chosen status set, then normalized |
| Dialogs.NewSubtaskFromForm | todo_tool.py:282-284 | the fresh subtask holds the form's values, normalized, with its status applied through `set_status` so that a Done one is stamped (the corrected construction under "Findings") |
| MonthExport.DoneSubtasksSpec | todo_tool.py:696-707 | `subtasks_done` holds exactly the subtasks done in the month, and is empty exactly when there are none |
| MonthExport.DoneSubtasksAppend | todo_tool.py:696-707 | the selection over two lists is the selection over each, concatenated |
| MonthExport.IncludedIff | todo_tool.py:709 | a task is exported exactly when it or one of its subtasks was done in the month |
| MonthExport.EntryOfSpec | todo_tool.py:710-716 | an entry carries the task's title, description and priority, its subtasks done in the month, and the task's date exactly when the task itself was done in the month |
| MonthExport.EntriesSpec | todo_tool.py:686-716 | the export holds exactly the entries of the included tasks |
| MonthExport.EntriesAppend | todo_tool.py:686-716 | the export over two lists is the export of each, concatenated |
| MonthExport.NothingFoundIff | todo_tool.py:718-720 | nothing is found exactly when no task and no subtask was done in the month |
| MonthExport.ExampleSubtaskAlone | todo_tool.py:687-716 | a task On Hold with one subtask done in the month is exported without a date of its own, with that subtask |
| View.TaskVisibleIff | todo_tool.py:498-508 | a task is shown exactly when both filters match (or are "Alle") and the search is blank or occurs, ignoring case, in the title or description |
| View.NoFilterShowsAll | todo_tool.py:498-508 | with both filters on "Alle" and a blank search every task is shown |
| View.SortKeyDefined | todo_tool.py:512-521 | a normalized task always has a key, of the same kind for one sort field |
| View.KeyLeIsTotalPreorder | todo_tool.py:512-523 | keys of one kind are totally and transitively ordered |
| View.WordLeTotal | todo_tool.py:518 | any two titles compare one way or the other |
| View.WordLeTransitive | todo_tool.py:518 | the comparison of titles is transitive |
| View.PriorityKeyFollowsPrios | todo_tool.py:514 | by priority, the order is that of the priority list |
| View.StatusKeyFollowsEscalation | todo_tool.py:516 | by status, the order is the escalation order, not the display order |
| View.UndatedSortsFirst | todo_tool.py:519-520 | by finished date, an undated task sorts no later than any dated one |
| View.UnknownFieldSortsByTitle | todo_tool.py:521 | an unknown sort field sorts by title |
| View.ShownTasks | todo_tool.py:525-527 | the loop keeps exactly the visible tasks, in order |
| View.VisibleSpec | todo_tool.py:525-527 | the shown tasks are the visible ones, each as often as in the list, and no others |
| Window.MainWindow.AddTask | todo_tool.py:575-583 | on a blank title the list is unchanged; otherwise it gains one fresh task at the end, holding the committed form |
| Window.MainWindow.EditSelectedItem | todo_tool.py:585-613 | the selected task ends as `Window.EditedItem` prescribes: a blank title changes nothing, a task edit leaves the committed task, a subtask edit replaces that subtask and recomputes the task; without a found selection nothing happens |
| Window.EditedTaskItemSpec | todo_tool.py:589-600 | editing a task fails exactly on a blank title and then changes nothing; otherwise the task is the committed form, normalized |
| Window.EditedSubtaskItemSpec | todo_tool.py:601-613 | editing a subtask fails exactly on a blank title; otherwise only that subtask is replaced and the task recomputed; a missing subtask is left alone |
| Window.EditItem | todo_tool.py:589-613 | the selected task objects end holding the edit on values |
| Window.EditTask | todo_tool.py:593-597 | the task holds the committed form after the second `normalize()`, or is unchanged on error |
| Window.EditSubtask | todo_tool.py:606-610 | the subtask object holds the committed form and the task is recomputed, or nothing changes on error |
| Window.CommitIntoSubtask | todo_tool.py:606-609 | committing into subtask `j` changes that subtask alone, and only when the title is not blank |
| Window.AddNewSubtask | todo_tool.py:647-652 | on success the new subtask is appended and the task recomputed; on error nothing changes |
| Window.MainWindow.AddSubtaskToSelected | todo_tool.py:636-655 | the selected task (or that of the selected subtask) gains the committed subtask, or is unchanged on error |
| Window.MainWindow.DeleteSelectedItem | todo_tool.py:615-634 | after confirmation the selected task leaves the list, or the selected subtask leaves its task, which is recomputed; otherwise nothing changes |
| Window.MainWindow.MarkSelectedDone | todo_tool.py:657-679 | the selected task is marked done, or the selected subtask is and its task recomputed |
| Window.MainWindow.ExportMonthDone | todo_tool.py:681-720 | the loop's outcome is the month report of the task list's values |
| Window.SaveAndReloadSpec | todo_tool.py:146-185 | after saving and reloading every task is normalized, in the same order, with its texts and subtask count; with one clock reading it is one normalization |

## Left out

- The Qt user interface is not modelled: widgets, message boxes, styles, the toolbar and the tree items. A dialog becomes the form values it returns, and a message box becomes an error value or a `confirmed` flag.
- `current_selection`, `find_task_by_id` and `find_subtask_by_id` look items up by Python object identity; the model selects by position.
- JSON reading and writing, and the file system, are not modelled. `Window.SaveAndReload` states the effect of `save_tasks` followed by `load_tasks` on values, assuming the JSON round trip keeps every field; a read error is not modelled.
- The HTML report, its file name and `datetime.now()` in `export_month_done` are not modelled; the month is a parameter and the outcome is the list of entries.
- The clock is the parameter `now`. Each `iso_now()` call in one Python action reads the clock anew; the model uses one reading per action.
- ISO-8601 parsing is not modelled. A date is a `Timestamp`, so the `except Exception: pass` branches in the export, which skip an unparsable date, cannot occur.
- An empty finished date string, which Python treats like `None`, is not distinguished from `None`.
- `Text.Lower` lower-cases ASCII letters only, whereas Python's `str.lower()` covers all of Unicode.
- `sorted(..., key=sort_key, reverse=...)` itself is not modelled. The model gives the key and proves that keys of one kind are totally ordered; the tree shows the visible tasks of the already sorted list in order (`View.ShownTasks`).
- `Entities.Task.Recompute`: raises `ValueError` in the code when a subtask status is not in the escalation order, and the model requires known statuses instead. Loaded and committed tasks are normalized (`TaskOps.NormalizedAreKnown`), so the handlers meet this requirement.
- `Window.MainWindow.EditSelectedItem`, `MarkSelectedDone`, `AddSubtaskToSelected` and `DeleteSelectedItem` require only the selected task to be well formed (`Ready`). The window does not carry an invariant over all tasks, such as all tasks being distinct objects.
- `Window.MainWindow.ExportMonthDone`: states the outcome only as the report of the task values; the information message for an empty export is the `NothingFound` outcome.
- `Dialogs.CommitSubtaskFormSpec`: states the corrected construction of a new subtask (see "Findings"): a new Done subtask is dated `now`. The code at `todo_tool.py:283-284` leaves it undated, which `Dialogs.NewDoneSubtaskAsWrittenHasNoDate` states.
- `Dialogs.GetSubtaskData`: a fresh subtask holds the corrected construction, dated `now` when Done; the code builds it undated (`todo_tool.py:283`).
- `Dialogs.NewSubtaskFromForm`: applies `set_status` to the new subtask, so a Done one is dated `now`; the code's constructor call at `todo_tool.py:283` gives it no date.
- `Window.AddNewSubtask`: appends the corrected new subtask. As written, a new Done subtask arrives undated, so it plays no part in the task's finished date (`todo_tool.py:112-118`) and is skipped by the export (`todo_tool.py:697`).
- `Window.MainWindow.AddSubtaskToSelected`: the same corrected construction at the handler level (`todo_tool.py:647-652`).
- `Window.MainWindow.DeleteSelectedItem`: removes the selected position. The code's `list.remove` at `todo_tool.py:624` and `632` removes the first item equal in value, which `TaskOps.RemoveFirstEqual` and `TaskOps.RemoveFirstEqualDeletesWrongOne` state; the two differ only when equal-valued items occur twice (see "Findings").
- A dialog closed with Cancel changes nothing, and the model takes the dialog as accepted.
- Opening and closing the window (`ensure_json_exists`, `closeEvent`, `main`) are not modelled.

## Findings

| source | as written | input that shows it | evidently intended | confidence | as-written member | corrected member |
|---|---|---|---|---|---|---|
| todo_tool.py:624,632 | `list.remove(x)` removes the first element equal in value to the selected dataclass instance | subtasks `[a, b, a]` with the third selected: the first `a` is removed, leaving `[b, a]` | remove the selected item, leaving `[a, b]` | not executed | TaskOps.RemoveFirstEqualDeletesWrongOne | Window.MainWindow.DeleteSelectedItem |
| todo_tool.py:283-284 | a new subtask is built with the chosen status and no finished date, and `normalize()` never adds one | subtask dialog for a new subtask with status Done | a new Done subtask is dated, as an edited one is by `set_status` | not executed | Dialogs.NewDoneSubtaskAsWrittenHasNoDate | Dialogs.CommitSubtaskFormSpec |
