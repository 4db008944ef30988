/** The handlers of `MainWindow` that change the task list or run the export:
    add a task, edit, delete, add a subtask, mark done and the month export. The
    tree widget's current item becomes a `Selection` by position; the dialog a
    handler opens becomes the form it would return; the clock reading and the
    month are parameters. Saving and reloading after each handler is stated on
    values at the end. */
module Window {
  import opened Domain
  import opened Text
  import opened StatusEngine
  import opened Entities
  import opened Dialogs
  import opened MonthExport
  import TaskOps

  /** The item selected in the tree: a task, or subtask `sub` of task `task`. */
  datatype Selection = TaskItem(task: int) | SubtaskItem(task: int, sub: int)

  /** The subtask objects of a list of tasks. */
  function SubtaskObjects(ts: seq<Task>): set<object>
    reads ts
  {
    set t, s | t in ts && s in t.subtasks :: s as object
  }

  /** The values of a list of task objects, in order. */
  function Values(ts: seq<Task>): (r: seq<TaskRec>)
    reads ts, SubtaskObjects(ts)
    ensures |r| == |ts|
    ensures forall i :: 0 <= i < |ts| ==> r[i] == ts[i].Model()
  {
    if ts == [] then []
    else
      var last := ts[|ts| - 1];
      assert forall s :: s in last.subtasks ==> s in SubtaskObjects(ts);
      Values(ts[..|ts| - 1]) + [last.Model()]
  }

  class MainWindow {
    var tasks: seq<Task>

    constructor ()
      ensures tasks == []
    {
      tasks := [];
    }

    /** The selected task exists (the lookup in the task list succeeds). */
    predicate HasTask(sel: Option<Selection>)
      reads this
    {
      sel.Some? && 0 <= sel.value.task < |tasks|
    }

    /** The selected subtask exists. */
    predicate HasSubtask(sel: Option<Selection>)
      reads this, tasks
    {
      HasTask(sel) && sel.value.SubtaskItem? && 0 <= sel.value.sub < |tasks[sel.value.task].subtasks|
    }

    /** The selected task holds each subtask once and its subtask statuses are
        known to the escalation order, so that recomputing it does not raise. */
    predicate Ready(sel: Option<Selection>)
      reads this, tasks, SubtaskObjects(tasks)
    {
      HasTask(sel) ==>
        var t := tasks[sel.value.task];
        assert forall s :: s in t.subtasks ==> s in SubtaskObjects(tasks);
        t.Valid() && KnownStatuses(Models(t.subtasks))
    }

    /** The task a handler on the selection may change: the selected one. */
    function SelectedTask(sel: Option<Selection>): seq<Task>
      reads this
    {
      if HasTask(sel) then [tasks[sel.value.task]] else []
    }

    /** The subtasks a handler on the selection may change: those of the
        selected task. */
    function SelectedSubtasks(sel: Option<Selection>): seq<Subtask>
      reads this, tasks
    {
      if HasTask(sel) then tasks[sel.value.task].subtasks else []
    }

    /** `add_task`: the task dialog for a new task; on success the task is
        appended. */
    method AddTask(f: TaskForm, now: Timestamp) returns (err: Option<DialogError>)
      modifies this
      ensures var expected := CommitTaskForm(None, f, now);
              err.Some? <==> expected.Failure?
      ensures err.Some? ==> tasks == old(tasks)
      ensures err.None? ==>
                |tasks| == |old(tasks)| + 1 && tasks[..|old(tasks)|] == old(tasks) &&
                fresh(tasks[|tasks| - 1]) && tasks[|tasks| - 1].Valid() &&
                tasks[|tasks| - 1].Model() == CommitTaskForm(None, f, now).value
    {
      var r := GetTaskData(null, f, now);
      if r.Failure? {
        return Some(r.error);
      }
      tasks := tasks + [r.value];
      err := None;
    }

    /** `edit_selected_item`: the task dialog on the selected task, followed by
        a second `normalize()`, or the subtask dialog on the selected subtask,
        followed by the recompute of its task. Without a selection, or when the
        selected subtask is not found, nothing happens. */
    method EditSelectedItem(sel: Option<Selection>, tf: TaskForm, sf: SubtaskForm, now: Timestamp)
      returns (err: Option<DialogError>)
      requires Ready(sel)
      modifies SelectedTask(sel), SelectedSubtasks(sel)
      ensures tasks == old(tasks)
      ensures !HasTask(sel) ==> err.None?
      ensures HasTask(sel) ==>
                (err, tasks[sel.value.task].Model()) == EditedItem(old(tasks[sel.value.task].Model()), sel.value, tf, sf, now)
    {
      if !HasTask(sel) {
        return None;
      }
      err := EditItem(tasks[sel.value.task], sel.value, tf, sf, now);
    }

    /** `mark_selected_done`. */
    method MarkSelectedDone(sel: Option<Selection>, now: Timestamp)
      requires Ready(sel)
      modifies SelectedTask(sel), SelectedSubtasks(sel)
      ensures tasks == old(tasks)
      ensures HasTask(sel) && sel.value.TaskItem? ==>
                tasks[sel.value.task].Model() == TaskOps.MarkTaskDone(old(tasks[sel.value.task].Model()), now)
      ensures HasTask(sel) && sel.value.SubtaskItem? && !old(HasSubtask(sel)) ==>
                tasks[sel.value.task].Model() == old(tasks[sel.value.task].Model())
      ensures old(HasSubtask(sel)) ==>
                tasks[sel.value.task].Model() ==
                TaskOps.MarkSubtaskDone(old(tasks[sel.value.task].Model()), sel.value.sub, now)
    {
      if !HasTask(sel) {
        return;
      }
      var t := tasks[sel.value.task];
      match sel.value
      case TaskItem(_) =>
        t.MarkDone(now);
      case SubtaskItem(_, j) =>
        if 0 <= j < |t.subtasks| {
          t.MarkSubtaskDone(j, now);
        }
    }

    /** `add_subtask_to_selected`: the subtask dialog for a new subtask of the
        selected task (or of the task of the selected subtask); on success the
        subtask is appended and the task recomputed. */
    method AddSubtaskToSelected(sel: Option<Selection>, f: SubtaskForm, now: Timestamp) returns (err: Option<DialogError>)
      requires Ready(sel)
      modifies SelectedTask(sel), SelectedSubtasks(sel)
      ensures tasks == old(tasks)
      ensures !HasTask(sel) ==> err.None?
      ensures HasTask(sel) ==>
                var expected := CommitSubtaskForm(None, f, now);
                (err.Some? <==> expected.Failure?) &&
                (err.Some? ==> tasks[sel.value.task].Model() == old(tasks[sel.value.task].Model())) &&
                (err.None? ==>
                   KnownStatuses(old(tasks[sel.value.task].Model()).subtasks + [expected.value]) &&
                   tasks[sel.value.task].Model() ==
                   TaskOps.AddSubtask(old(tasks[sel.value.task].Model()), expected.value, now))
    {
      if !HasTask(sel) {
        return None;
      }
      err := AddNewSubtask(tasks[sel.value.task], f, now);
    }

    /** `delete_selected_item`: after the confirmation, the selected task leaves
        the list, or the selected subtask leaves its task, which is recomputed.
        The item removed is the one at the selected position; the code removes
        the first item equal in value (see TaskOps.RemoveFirstEqual). */
    method DeleteSelectedItem(sel: Option<Selection>, confirmed: bool, now: Timestamp)
      requires Ready(sel)
      modifies this, if confirmed && HasSubtask(sel) then {tasks[sel.value.task]} else {}
      ensures !confirmed || !old(HasTask(sel)) || (sel.value.SubtaskItem? && !old(HasSubtask(sel))) ==>
                tasks == old(tasks)
      ensures confirmed && old(HasTask(sel)) && sel.value.TaskItem? ==>
                tasks == TaskOps.RemoveAt(old(tasks), sel.value.task)
      ensures confirmed && old(HasSubtask(sel)) ==>
                tasks == old(tasks) &&
                tasks[sel.value.task].subtasks == TaskOps.RemoveAt(old(tasks[sel.value.task].subtasks), sel.value.sub) &&
                tasks[sel.value.task].Model() ==
                TaskOps.DeleteSubtask(old(tasks[sel.value.task].Model()), sel.value.sub, now)
    {
      if !confirmed || !HasTask(sel) {
        return;
      }
      match sel.value
      case TaskItem(i) =>
        tasks := TaskOps.RemoveAt(tasks, i);
      case SubtaskItem(i, j) =>
        var t := tasks[i];
        if 0 <= j < |t.subtasks| {
          t.DeleteSubtask(j, now);
        }
    }

    /** `export_month_done` up to the HTML: the tasks and subtasks done in the
        given month, or the outcome that nothing was found. */
    method ExportMonthDone(year: int, month: int) returns (outcome: ExportOutcome)
      ensures outcome == MonthReport(Values(tasks), year, month)
    {
      ghost var vs := Values(tasks);
      var entries: seq<ExportEntry> := [];
      for i := 0 to |tasks|
        invariant entries == Entries(vs[..i], year, month)
      {
        var t := tasks[i];
        var taskDone := t.finishedDate.Some? && InMonth(t.finishedDate.value, year, month) && t.status == Done;
        ghost var ms := vs[i].subtasks;
        var subtasksDone := [];
        for j := 0 to |t.subtasks|
          invariant subtasksDone == DoneSubtasks(ms[..j], year, month)
        {
          var s := t.subtasks[j];
          DoneSubtasksStep(ms, j, year, month);
          if s.finishedDate.Some? && s.status == Done && InMonth(s.finishedDate.value, year, month) {
            subtasksDone := subtasksDone + [DoneSubtask(s.title, s.description, s.finishedDate.value)];
          }
        }
        assert ms[..|t.subtasks|] == ms;
        EntriesStep(vs, i, year, month);
        if taskDone || subtasksDone != [] {
          entries := entries + [ExportEntry(t.title, t.description, t.priority,
                                            if taskDone then t.finishedDate else None, subtasksDone)];
        }
      }
      assert vs[..|tasks|] == vs;
      assert entries == Entries(vs, year, month);
      assert vs == Values(tasks);
      outcome := if entries == [] then NothingFound else Exported(entries);
    }
  }

  /** What `edit_selected_item` does to the selected task, on values: the error
      the dialog raises, or none, and the task afterwards. */
  function EditedItem(t: TaskRec, item: Selection, tf: TaskForm, sf: SubtaskForm, now: Timestamp): (Option<DialogError>, TaskRec)
    requires KnownStatuses(t.subtasks)
  {
    match item
    case TaskItem(_) =>
      var r := CommitTaskForm(Some(t), tf, now);
      if r.Failure? then (Some(r.error), t) else (None, r.value)
    case SubtaskItem(_, j) =>
      if !(0 <= j < |t.subtasks|) then (None, t)
      else
        var r := CommitSubtaskForm(Some(t.subtasks[j]), sf, now);
        if r.Failure? then (Some(r.error), t)
        else
          CommitKeepsKnown(t.subtasks, j, sf, now);
          (None, TaskOps.ReplaceSubtask(t, j, r.value, now))
  }

  /** Editing the selected task fails exactly when the task dialog's title is
      blank, and then changes nothing; otherwise the task becomes the committed
      form, which is normalized. */
  lemma EditedTaskItemSpec(t: TaskRec, i: int, tf: TaskForm, sf: SubtaskForm, now: Timestamp)
    requires KnownStatuses(t.subtasks)
    ensures var (err, r) := EditedItem(t, TaskItem(i), tf, sf, now);
            (err.Some? <==> AllSpace(tf.title)) &&
            (err.Some? ==> r == t) &&
            (err.None? ==> r == CommitTaskForm(Some(t), tf, now).value && TaskNormalized(r))
  {
    CommitTaskFormRejectsBlankTitle(Some(t), tf, now);
    CommitTaskFormSpec(Some(t), tf, now);
  }

  /** Editing a selected subtask fails exactly when the subtask dialog's title
      is blank, and then changes nothing; otherwise that subtask alone is
      replaced by the committed form and the task is recomputed. A subtask that
      is not found is left alone without an error. */
  lemma EditedSubtaskItemSpec(t: TaskRec, i: int, j: int, tf: TaskForm, sf: SubtaskForm, now: Timestamp)
    requires KnownStatuses(t.subtasks)
    ensures var (err, r) := EditedItem(t, SubtaskItem(i, j), tf, sf, now);
            (!(0 <= j < |t.subtasks|) ==> err.None? && r == t) &&
            (0 <= j < |t.subtasks| ==>
               (err.Some? <==> AllSpace(sf.title)) &&
               (err.Some? ==> r == t) &&
               (err.None? ==>
                  r.title == t.title && r.description == t.description && r.priority == t.priority &&
                  |r.subtasks| == |t.subtasks| &&
                  r.subtasks[j] == CommitSubtaskForm(Some(t.subtasks[j]), sf, now).value &&
                  (forall k :: 0 <= k < |t.subtasks| && k != j ==> r.subtasks[k] == t.subtasks[k]) &&
                  (r.finishedDate.Some? <==> r.status == Done)))
  {
    if 0 <= j < |t.subtasks| {
      CommitSubtaskFormRejectsBlankTitle(Some(t.subtasks[j]), sf, now);
      var c := CommitSubtaskForm(Some(t.subtasks[j]), sf, now);
      if c.Success? {
        CommitKeepsKnown(t.subtasks, j, sf, now);
        TaskOps.ReplaceSubtaskSpec(t, j, c.value, now);
      }
    }
  }

  /** `edit_selected_item` once the selected task is found. */
  method EditItem(t: Task, item: Selection, tf: TaskForm, sf: SubtaskForm, now: Timestamp) returns (err: Option<DialogError>)
    requires t.Valid() && KnownStatuses(Models(t.subtasks))
    modifies t, t.subtasks
    ensures t.subtasks == old(t.subtasks)
    ensures (err, t.Model()) == EditedItem(old(t.Model()), item, tf, sf, now)
  {
    ghost var before := t.Model();
    if item.TaskItem? {
      err := EditTask(t, tf, now);
      ghost var r := CommitTaskForm(Some(before), tf, now);
      assert EditedItem(before, item, tf, sf, now) == if r.Failure? then (Some(EmptyTitle), before) else (None, r.value);
      assert err.Some? ==> err.value.EmptyTitle?;
      assert t.Model() == if r.Failure? then before else r.value;
      assert (err, t.Model()) == EditedItem(before, item, tf, sf, now);
    } else if 0 <= item.sub < |t.subtasks| {
      var j := item.sub;
      err := EditSubtask(t, j, sf, now);
      ghost var r := CommitSubtaskForm(Some(before.subtasks[j]), sf, now);
      assert EditedItem(before, item, tf, sf, now) ==
             if r.Failure? then (Some(EmptyTitle), before)
             else (None, TaskOps.ReplaceSubtask(before, j, r.value, now));
      assert err.Some? ==> err.value.EmptyTitle?;
      assert (err, t.Model()) == EditedItem(before, item, tf, sf, now);
    } else {
      err := None;
      assert (err, t.Model()) == EditedItem(before, item, tf, sf, now);
    }
  }

  /** The subtask branch of `edit_selected_item`: the dialog commits into
      subtask `j`, and the task is recomputed. */
  method EditSubtask(t: Task, j: int, f: SubtaskForm, now: Timestamp) returns (err: Option<DialogError>)
    requires t.Valid() && 0 <= j < |t.subtasks| && KnownStatuses(Models(t.subtasks))
    modifies t, t.subtasks[j]
    ensures t.subtasks == old(t.subtasks)
    ensures var before := old(t.Model());
            var expected := CommitSubtaskForm(Some(before.subtasks[j]), f, now);
            (err.Some? <==> expected.Failure?) &&
            (err.Some? ==> t.Model() == before) &&
            (err.None? ==>
               KnownStatuses(before.subtasks[j := expected.value]) &&
               t.Model() == TaskOps.ReplaceSubtask(before, j, expected.value, now))
  {
    ghost var bt := t.Model();
    var r := CommitIntoSubtask(t, j, f, now);
    if r.Failure? {
      assert t.Model() == bt;
      return Some(r.error);
    }
    CommitKeepsKnown(bt.subtasks, j, f, now);
    t.Recompute(now);
    err := None;
  }

  /** The subtask dialog on subtask `j` of `t`: the other subtasks stay as they
      are. */
  method CommitIntoSubtask(t: Task, j: int, f: SubtaskForm, now: Timestamp) returns (r: Result<Subtask, DialogError>)
    requires t.Valid() && 0 <= j < |t.subtasks|
    modifies t.subtasks[j]
    ensures var before := old(Models(t.subtasks));
            var expected := CommitSubtaskForm(Some(before[j]), f, now);
            (r.Failure? <==> expected.Failure?) &&
            (r.Failure? ==> Models(t.subtasks) == before) &&
            (r.Success? ==> Models(t.subtasks) == before[j := expected.value])
  {
    ghost var before := Models(t.subtasks);
    var sub := t.subtasks[j];
    assert forall k :: 0 <= k < |t.subtasks| && k != j ==> t.subtasks[k] != sub;
    r := GetSubtaskData(sub, f, now);
    assert forall k :: 0 <= k < |t.subtasks| && k != j ==> t.subtasks[k].Model() == before[k];
    if r.Success? {
      assert Models(t.subtasks) == before[j := sub.Model()];
    }
  }

  /** Committing the subtask dialog into subtask `j` keeps the statuses known. */
  lemma CommitKeepsKnown(ss: seq<SubtaskRec>, j: int, f: SubtaskForm, now: Timestamp)
    requires KnownStatuses(ss) && 0 <= j < |ss| && CommitSubtaskForm(Some(ss[j]), f, now).Success?
    ensures KnownStatuses(ss[j := CommitSubtaskForm(Some(ss[j]), f, now).value])
  {
    CommitSubtaskFormSpec(Some(ss[j]), f, now);
    TaskOps.ReplaceKnown(ss, j, CommitSubtaskForm(Some(ss[j]), f, now).value);
  }

  /** The dialog of `add_subtask_to_selected` and what follows it: on success
      the new subtask is appended to `t`, which is recomputed. */
  method AddNewSubtask(t: Task, f: SubtaskForm, now: Timestamp) returns (err: Option<DialogError>)
    requires t.Valid() && KnownStatuses(Models(t.subtasks))
    modifies t
    ensures var expected := CommitSubtaskForm(None, f, now);
            (err.Some? <==> expected.Failure?) &&
            (err.Some? ==> t.Model() == old(t.Model())) &&
            (err.None? ==>
               KnownStatuses(old(t.Model()).subtasks + [expected.value]) &&
               t.Model() == TaskOps.AddSubtask(old(t.Model()), expected.value, now))
  {
    ghost var before := Models(t.subtasks);
    var r := GetSubtaskData(null, f, now);
    if r.Failure? {
      return Some(r.error);
    }
    var s := r.value;
    assert Models(t.subtasks) == before;
    CommitSubtaskFormSpec(None, f, now);
    TaskOps.AppendKnown(before, s.Model());
    t.AddSubtask(s, now);
    err := None;
  }

  /** The task branch of `edit_selected_item`: the dialog commits into the task,
      which is then normalized once more. */
  method EditTask(t: Task, f: TaskForm, now: Timestamp) returns (err: Option<DialogError>)
    requires t.Valid()
    modifies t, t.subtasks
    ensures t.subtasks == old(t.subtasks)
    ensures var expected := CommitTaskForm(Some(old(t.Model())), f, now);
            (err.Some? <==> expected.Failure?) &&
            t.Model() == (if expected.Failure? then old(t.Model()) else expected.value)
  {
    ghost var before := t.Model();
    var r := GetTaskData(t, f, now);
    if r.Failure? {
      return Some(r.error);
    }
    CommitTaskFormIsNormalized(Some(before), f, now);
    t.Normalize(now);
    err := None;
  }

  // ---------------------------------------------------------------------------
  // persist_and_reload

  /** `save_tasks` normalizes every task with the clock at saving, and
      `load_tasks` normalizes every task read back with the clock at loading;
      the JSON in between keeps every field. */
  function SaveAndReload(ts: seq<TaskRec>, saved: Timestamp, loaded: Timestamp): seq<TaskRec>
  {
    seq(|ts|, i requires 0 <= i < |ts| => NormalizeTask(NormalizeTask(ts[i], saved), loaded))
  }

  /** After saving and reloading every task is normalized, the list keeps its
      length and order, and each task keeps its title, description and number
      of subtasks; with one clock reading it is a single normalization. */
  lemma SaveAndReloadSpec(ts: seq<TaskRec>, saved: Timestamp, loaded: Timestamp)
    ensures var r := SaveAndReload(ts, saved, loaded);
            |r| == |ts| &&
            forall i :: 0 <= i < |ts| ==>
              TaskNormalized(r[i]) && r[i].title == ts[i].title && r[i].description == ts[i].description &&
              |r[i].subtasks| == |ts[i].subtasks| &&
              (saved == loaded ==> r[i] == NormalizeTask(ts[i], saved))
  {
    var r := SaveAndReload(ts, saved, loaded);
    forall i | 0 <= i < |ts|
      ensures TaskNormalized(r[i]) && r[i].title == ts[i].title && r[i].description == ts[i].description &&
              |r[i].subtasks| == |ts[i].subtasks| &&
              (saved == loaded ==> r[i] == NormalizeTask(ts[i], saved))
    {
      NormalizeTaskSpec(ts[i], saved);
      NormalizeTaskSpec(NormalizeTask(ts[i], saved), loaded);
      if saved == loaded {
        NormalizeTaskIdempotent(ts[i], saved);
      }
    }
  }
}
