/** What the task and subtask dialogs do when their OK button is pressed
    (`TaskDialog.get_task_data`, `SubtaskDialog.get_subtask_data`): strip the
    text fields, reject an empty title, write the form into the existing item or
    build a new one, and normalize it. The form's widgets are reduced to the
    values they hold. */
module Dialogs {
  import opened Domain
  import opened Text
  import opened StatusEngine
  import opened Entities

  /** The values of the task dialog's widgets. */
  datatype TaskForm = TaskForm(title: string, description: string, priority: string, status: string)

  /** The values of the subtask dialog's widgets. */
  datatype SubtaskForm = SubtaskForm(title: string, description: string, status: string)

  /** The `ValueError` raised for a title that is empty after stripping. */
  datatype DialogError = EmptyTitle

  // ---------------------------------------------------------------------------
  // get_task_data

  /** The task the dialog returns, or the error it raises. An existing task takes
      the form's title, description and priority, and the form's status only
      when it has no subtasks; a new task is built from the form. */
  function CommitTaskForm(existing: Option<TaskRec>, f: TaskForm, now: Timestamp): Result<TaskRec, DialogError>
  {
    var title := Strip(f.title);
    var desc := Strip(f.description);
    if title == [] then Failure(EmptyTitle)
    else
      match existing
      case Some(t) => Success(NormalizeTask(EditedTask(t, title, desc, f, now), now))
      case None => Success(NormalizeTask(TaskRec(title, desc, f.priority, f.status, None, []), now))
  }

  /** The existing task with the form written into it, before `normalize()`. */
  function EditedTask(t: TaskRec, title: string, desc: string, f: TaskForm, now: Timestamp): TaskRec
  {
    var t1 := t.(title := title, description := desc, priority := f.priority);
    if t1.subtasks == [] then SetTaskStatus(t1, f.status, now) else t1
  }

  /** The commit fails exactly when the title is whitespace only. */
  lemma CommitTaskFormRejectsBlankTitle(existing: Option<TaskRec>, f: TaskForm, now: Timestamp)
    ensures CommitTaskForm(existing, f, now).Failure? <==> AllSpace(f.title)
  {
    StripEmptyIffBlank(f.title);
  }

  /** A committed task is normalized, carries the stripped title and description
      and the chosen priority (defaulted if unknown), and keeps the existing
      task's subtasks, each normalized, in their order. */
  lemma CommitTaskFormSpec(existing: Option<TaskRec>, f: TaskForm, now: Timestamp)
    ensures var r := CommitTaskForm(existing, f, now);
            r.Success? ==>
              TaskNormalized(r.value) &&
              r.value.title == Strip(f.title) && r.value.description == Strip(f.description) &&
              r.value.priority == (if f.priority in Prios then f.priority else DefaultPriority) &&
              (existing.None? ==> r.value.subtasks == []) &&
              (existing.Some? ==>
                 |r.value.subtasks| == |existing.value.subtasks| &&
                 forall i :: 0 <= i < |existing.value.subtasks| ==>
                   r.value.subtasks[i] == NormalizeSubtask(existing.value.subtasks[i]))
  {
    var title := Strip(f.title);
    if title != [] {
      match existing
      case Some(t) =>
        var t1 := t.(title := title, description := Strip(f.description), priority := f.priority);
        var t2 := if t1.subtasks == [] then SetTaskStatus(t1, f.status, now) else t1;
        NormalizeTaskSpec(t2, now);
      case None =>
        NormalizeTaskSpec(TaskRec(title, Strip(f.description), f.priority, f.status, None, []), now);
    }
  }

  /** Without subtasks the chosen status is applied (an unknown one becomes ToDo):
      a Done task keeps the date it had, or is stamped with `now`, and any other
      status leaves it without a date. */
  lemma CommitTaskFormAppliesStatus(existing: Option<TaskRec>, f: TaskForm, now: Timestamp)
    requires existing.None? || existing.value.subtasks == []
    ensures var r := CommitTaskForm(existing, f, now);
            r.Success? ==>
              r.value.status == (if f.status in Stati then f.status else ToDo) &&
              (r.value.finishedDate.Some? <==> f.status == Done) &&
              (f.status == Done && existing.Some? && existing.value.finishedDate.Some? ==>
                 r.value.finishedDate == existing.value.finishedDate) &&
              (f.status == Done && (existing.None? || existing.value.finishedDate.None?) ==>
                 r.value.finishedDate == Some(now))
  {
    var title := Strip(f.title);
    if title != [] {
      match existing
      case Some(t) =>
        var t2 := EditedTask(t, title, Strip(f.description), f, now);
        assert t2.status == f.status && t2.subtasks == [];
        assert t2.finishedDate == FinishedDateFor(f.status, t.finishedDate, now);
        NormalizeWithoutSubtasks(t2, now);
      case None =>
        NormalizeWithoutSubtasks(TaskRec(title, Strip(f.description), f.priority, f.status, None, []), now);
    }
  }

  /** `normalize()` on a task without subtasks: an unknown status becomes ToDo,
      and the task has a date exactly when it is Done, the one it had or `now`. */
  lemma NormalizeWithoutSubtasks(t: TaskRec, now: Timestamp)
    requires t.subtasks == []
    ensures var r := NormalizeTask(t, now);
            r.status == (if t.status in Stati then t.status else ToDo) &&
            (r.finishedDate.Some? <==> t.status == Done) &&
            (t.status == Done && t.finishedDate.Some? ==> r.finishedDate == t.finishedDate) &&
            (t.status == Done && t.finishedDate.None? ==> r.finishedDate == Some(now))
  {
    NormalizeFieldsSpec(t);
    RecomputeWithoutSubtasks(NormalizeFields(t), now);
  }

  /** With subtasks the chosen status is ignored: any two forms that differ only
      in the status give the same task. */
  lemma CommitTaskFormIgnoresStatus(t: TaskRec, f: TaskForm, other: string, now: Timestamp)
    requires t.subtasks != []
    ensures CommitTaskForm(Some(t), f, now) == CommitTaskForm(Some(t), f.(status := other), now)
  {
  }

  /** The committed task is a fixed point of `normalize()` with the same clock,
      so normalizing it once more changes nothing. */
  lemma CommitTaskFormIsNormalized(existing: Option<TaskRec>, f: TaskForm, now: Timestamp)
    ensures var r := CommitTaskForm(existing, f, now);
            r.Success? ==> NormalizeTask(r.value, now) == r.value
  {
    var title := Strip(f.title);
    if title != [] {
      match existing
      case Some(t) =>
        NormalizeTaskIdempotent(EditedTask(t, title, Strip(f.description), f, now), now);
      case None =>
        NormalizeTaskIdempotent(TaskRec(title, Strip(f.description), f.priority, f.status, None, []), now);
    }
  }

  // ---------------------------------------------------------------------------
  // get_subtask_data

  /** `Subtask(title=..., description=..., status=...)` as the dialog builds a
      new subtask: with no finished date, whatever the status. */
  function NewSubtaskAsWritten(title: string, description: string, status: string): SubtaskRec
  {
    SubtaskRec(title, description, status, None)
  }

  /** A new Done subtask built as written has no finished date even after
      `normalize()`, which never stamps: it breaks the rule that a finished date
      is present exactly when the status is Done. */
  lemma NewDoneSubtaskAsWrittenHasNoDate(title: string, description: string)
    ensures NormalizeSubtask(NewSubtaskAsWritten(title, description, Done)).status == Done
    ensures NormalizeSubtask(NewSubtaskAsWritten(title, description, Done)).finishedDate.None?
  {
  }

  /** A new subtask whose status goes through `set_status`, as an edited one
      does, so that a new Done subtask is stamped with `now`. */
  function NewSubtask(title: string, description: string, status: string, now: Timestamp): SubtaskRec
  {
    SetSubtaskStatus(SubtaskRec(title, description, status, None), status, now)
  }

  /** The subtask the dialog returns, or the error it raises. */
  function CommitSubtaskForm(existing: Option<SubtaskRec>, f: SubtaskForm, now: Timestamp): Result<SubtaskRec, DialogError>
  {
    var title := Strip(f.title);
    var desc := Strip(f.description);
    if title == [] then Failure(EmptyTitle)
    else
      match existing
      case Some(s) => Success(NormalizeSubtask(SetSubtaskStatus(s.(title := title, description := desc), f.status, now)))
      case None => Success(NormalizeSubtask(NewSubtask(title, desc, f.status, now)))
  }

  /** The commit fails exactly when the title is whitespace only. */
  lemma CommitSubtaskFormRejectsBlankTitle(existing: Option<SubtaskRec>, f: SubtaskForm, now: Timestamp)
    ensures CommitSubtaskForm(existing, f, now).Failure? <==> AllSpace(f.title)
  {
    StripEmptyIffBlank(f.title);
  }

  /** A committed subtask, new or edited, is normalized, carries the stripped
      title and description and the chosen status (ToDo if unknown), and has a
      finished date exactly when it is Done: the date it had, or `now`. */
  lemma CommitSubtaskFormSpec(existing: Option<SubtaskRec>, f: SubtaskForm, now: Timestamp)
    ensures var r := CommitSubtaskForm(existing, f, now);
            r.Success? ==>
              SubtaskNormalized(r.value) &&
              r.value.title == Strip(f.title) && r.value.description == Strip(f.description) &&
              r.value.status == (if f.status in Stati then f.status else ToDo) &&
              (r.value.finishedDate.Some? <==> r.value.status == Done) &&
              (f.status == Done && existing.Some? && existing.value.finishedDate.Some? ==>
                 r.value.finishedDate == existing.value.finishedDate) &&
              (f.status == Done && (existing.None? || existing.value.finishedDate.None?) ==>
                 r.value.finishedDate == Some(now))
  {
    var title := Strip(f.title);
    if title != [] {
      var s1 := match existing
        case Some(s) => SetSubtaskStatus(s.(title := title, description := Strip(f.description)), f.status, now)
        case None => NewSubtask(title, Strip(f.description), f.status, now);
      NormalizeSubtaskSpec(s1);
    }
  }

  // ---------------------------------------------------------------------------
  // The dialogs on objects

  /** `TaskDialog.get_task_data()`: on an empty title nothing is changed; otherwise
      the existing task is updated in place and normalized, or a new task is
      created. */
  method GetTaskData(existing: Task?, f: TaskForm, now: Timestamp) returns (r: Result<Task, DialogError>)
    requires existing != null ==> existing.Valid()
    modifies existing, if existing == null then [] else existing.subtasks
    ensures var expected := CommitTaskForm(if existing == null then None else Some(old(existing.Model())), f, now);
            r.Failure? == expected.Failure? &&
            (r.Success? ==> r.value.Model() == expected.value)
    ensures r.Failure? && existing != null ==> existing.Model() == old(existing.Model())
    ensures existing != null ==> existing.subtasks == old(existing.subtasks)
    ensures r.Success? ==> r.value.Valid() && (if existing == null then fresh(r.value) else r.value == existing)
  {
    var title := Strip(f.title);
    var desc := Strip(f.description);
    if title == [] {
      return Failure(EmptyTitle);
    }
    if existing != null {
      ghost var before := existing.Model();
      WriteTaskForm(existing, title, desc, f, now);
      assert CommitTaskForm(Some(before), f, now) == Success(existing.Model());
      r := Success(existing);
    } else {
      var t := NewTaskFromForm(title, desc, f, now);
      assert CommitTaskForm(None, f, now) == Success(t.Model());
      r := Success(t);
    }
  }

  /** The branch of `get_task_data` for a new task. */
  method NewTaskFromForm(title: string, desc: string, f: TaskForm, now: Timestamp) returns (t: Task)
    ensures fresh(t) && t.Valid() && t.subtasks == []
    ensures t.Model() == NormalizeTask(TaskRec(title, desc, f.priority, f.status, None, []), now)
  {
    t := new Task(title, desc, f.priority, f.status);
    t.Normalize(now);
  }

  /** The branch of `get_task_data` for an existing task. */
  method WriteTaskForm(t: Task, title: string, desc: string, f: TaskForm, now: Timestamp)
    requires t.Valid()
    modifies t, t.subtasks
    ensures t.Valid() && t.subtasks == old(t.subtasks)
    ensures t.Model() == NormalizeTask(EditedTask(old(t.Model()), title, desc, f, now), now)
  {
    t.title := title;
    t.description := desc;
    t.priority := f.priority;
    if t.subtasks == [] {
      t.SetStatus(f.status, now);
    }
    t.Normalize(now);
  }

  /** `SubtaskDialog.get_subtask_data()`: on an empty title nothing is changed;
      otherwise the existing subtask is updated in place, or a new one created,
      and normalized. */
  method GetSubtaskData(existing: Subtask?, f: SubtaskForm, now: Timestamp) returns (r: Result<Subtask, DialogError>)
    modifies existing
    ensures var expected := CommitSubtaskForm(if existing == null then None else Some(old(existing.Model())), f, now);
            r.Failure? == expected.Failure? &&
            (r.Success? ==> r.value.Model() == expected.value)
    ensures r.Failure? && existing != null ==> existing.Model() == old(existing.Model())
    ensures r.Success? ==> if existing == null then fresh(r.value) else r.value == existing
  {
    var title := Strip(f.title);
    var desc := Strip(f.description);
    if title == [] {
      return Failure(EmptyTitle);
    }
    if existing != null {
      ghost var before := existing.Model();
      WriteSubtaskForm(existing, title, desc, f, now);
      assert CommitSubtaskForm(Some(before), f, now) == Success(existing.Model());
      r := Success(existing);
    } else {
      var s := NewSubtaskFromForm(title, desc, f, now);
      assert CommitSubtaskForm(None, f, now) == Success(s.Model());
      r := Success(s);
    }
  }

  /** The branch of `get_subtask_data` for an existing subtask. */
  method WriteSubtaskForm(s: Subtask, title: string, desc: string, f: SubtaskForm, now: Timestamp)
    modifies s
    ensures s.Model() == NormalizeSubtask(SetSubtaskStatus(old(s.Model()).(title := title, description := desc), f.status, now))
  {
    s.title := title;
    s.description := desc;
    s.SetStatus(f.status, now);
    s.Normalize();
  }

  /** The branch of `get_subtask_data` for a new subtask. */
  method NewSubtaskFromForm(title: string, desc: string, f: SubtaskForm, now: Timestamp) returns (s: Subtask)
    ensures fresh(s)
    ensures s.Model() == NormalizeSubtask(NewSubtask(title, desc, f.status, now))
  {
    s := new Subtask(title, desc, f.status);
    s.SetStatus(f.status, now);
    s.Normalize();
  }
}
