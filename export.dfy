/** The selection made by `MainWindow.export_month_done`: which tasks, and which
    of their subtasks, count as done in a given month. The HTML built from the
    selection and the file it is written to are not part of this model. */
module MonthExport {
  import opened Domain

  /** A subtask as it appears in the report. */
  datatype DoneSubtask = DoneSubtask(title: string, description: string, finishedDate: Timestamp)

  /** A task as it appears in the report; `taskFinishedDate` is set only when
      the task itself was finished in the month. */
  datatype ExportEntry = ExportEntry(
    title: string,
    description: string,
    priority: string,
    taskFinishedDate: Option<Timestamp>,
    subtasksDone: seq<DoneSubtask>)

  /** The export either finds nothing (the information message, no file) or
      produces the entries of the report. */
  datatype ExportOutcome = NothingFound | Exported(entries: seq<ExportEntry>)

  predicate InMonth(d: Timestamp, year: int, month: int)
  {
    d.year == year && d.month == month
  }

  /** `task_done_this_month`: the task has a finished date in the month and is Done. */
  predicate TaskDoneInMonth(t: TaskRec, year: int, month: int)
  {
    t.finishedDate.Some? && InMonth(t.finishedDate.value, year, month) && t.status == Done
  }

  /** A subtask that goes into `subtasks_done`. */
  predicate SubtaskDoneInMonth(s: SubtaskRec, year: int, month: int)
  {
    s.finishedDate.Some? && s.status == Done && InMonth(s.finishedDate.value, year, month)
  }

  function AsDone(s: SubtaskRec): DoneSubtask
    requires s.finishedDate.Some?
  {
    DoneSubtask(s.title, s.description, s.finishedDate.value)
  }

  /** `subtasks_done`: the subtasks done in the month, in their order. */
  function DoneSubtasks(ss: seq<SubtaskRec>, year: int, month: int): seq<DoneSubtask>
  {
    if ss == [] then []
    else
      var last := ss[|ss| - 1];
      DoneSubtasks(ss[..|ss| - 1], year, month) +
      (if SubtaskDoneInMonth(last, year, month) then [AsDone(last)] else [])
  }

  /** A task enters the report when it or one of its subtasks was done in the month. */
  predicate Included(t: TaskRec, year: int, month: int)
  {
    TaskDoneInMonth(t, year, month) || DoneSubtasks(t.subtasks, year, month) != []
  }

  /** The report entry of a task. */
  function EntryOf(t: TaskRec, year: int, month: int): ExportEntry
  {
    ExportEntry(t.title, t.description, t.priority,
                if TaskDoneInMonth(t, year, month) then t.finishedDate else None,
                DoneSubtasks(t.subtasks, year, month))
  }

  /** `export`: the entries of the included tasks, in task order. */
  function Entries(ts: seq<TaskRec>, year: int, month: int): seq<ExportEntry>
  {
    if ts == [] then []
    else
      var last := ts[|ts| - 1];
      Entries(ts[..|ts| - 1], year, month) +
      (if Included(last, year, month) then [EntryOf(last, year, month)] else [])
  }

  /** The outcome of the export for the month. */
  function MonthReport(ts: seq<TaskRec>, year: int, month: int): ExportOutcome
  {
    var e := Entries(ts, year, month);
    if e == [] then NothingFound else Exported(e)
  }

  // ---------------------------------------------------------------------------
  // Properties

  /** Selecting from two lists one after the other selects from their
      concatenation: the selection keeps the subtasks' order. */
  lemma {:induction false} DoneSubtasksAppend(a: seq<SubtaskRec>, b: seq<SubtaskRec>, year: int, month: int)
    ensures DoneSubtasks(a + b, year, month) == DoneSubtasks(a, year, month) + DoneSubtasks(b, year, month)
    decreases |b|
  {
    if b != [] {
      var b0 := b[..|b| - 1];
      assert (a + b)[..|a + b| - 1] == a + b0;
      assert (a + b)[|a + b| - 1] == b[|b| - 1];
      DoneSubtasksAppend(a, b0, year, month);
    } else {
      assert a + b == a;
    }
  }

  /** Taking one more subtask of a list adds it to the selection when it was
      done in the month (the step of the export's inner loop). */
  lemma DoneSubtasksStep(ss: seq<SubtaskRec>, j: int, year: int, month: int)
    requires 0 <= j < |ss|
    ensures DoneSubtasks(ss[..j + 1], year, month) ==
            DoneSubtasks(ss[..j], year, month) +
            (if SubtaskDoneInMonth(ss[j], year, month) then [AsDone(ss[j])] else [])
  {
    assert ss[..j + 1][..j] == ss[..j];
  }

  /** `subtasks_done` holds exactly the subtasks done in the month: each of its
      elements is such a subtask, each such subtask is in it, and it is empty
      exactly when there is none. */
  lemma {:induction false} DoneSubtasksSpec(ss: seq<SubtaskRec>, year: int, month: int)
    ensures forall k :: 0 <= k < |DoneSubtasks(ss, year, month)| ==>
              exists i :: 0 <= i < |ss| && SubtaskDoneInMonth(ss[i], year, month) &&
                          DoneSubtasks(ss, year, month)[k] == AsDone(ss[i])
    ensures forall i :: 0 <= i < |ss| && SubtaskDoneInMonth(ss[i], year, month) ==>
              AsDone(ss[i]) in DoneSubtasks(ss, year, month)
    ensures DoneSubtasks(ss, year, month) == [] <==>
              forall i :: 0 <= i < |ss| ==> !SubtaskDoneInMonth(ss[i], year, month)
  {
    if ss != [] {
      var init := ss[..|ss| - 1];
      var last := ss[|ss| - 1];
      DoneSubtasksSpec(init, year, month);
      var d0 := DoneSubtasks(init, year, month);
      var tail := if SubtaskDoneInMonth(last, year, month) then [AsDone(last)] else [];
      assert DoneSubtasks(ss, year, month) == d0 + tail;
      assert forall i :: 0 <= i < |init| ==> init[i] == ss[i];
      forall k | 0 <= k < |DoneSubtasks(ss, year, month)|
        ensures exists i :: 0 <= i < |ss| && SubtaskDoneInMonth(ss[i], year, month) &&
                            DoneSubtasks(ss, year, month)[k] == AsDone(ss[i])
      {
        if k < |d0| {
          var i :| 0 <= i < |init| && SubtaskDoneInMonth(init[i], year, month) && d0[k] == AsDone(init[i]);
          assert ss[i] == init[i];
        } else {
          assert SubtaskDoneInMonth(ss[|ss| - 1], year, month);
        }
      }
      forall i | 0 <= i < |ss| && SubtaskDoneInMonth(ss[i], year, month)
        ensures AsDone(ss[i]) in DoneSubtasks(ss, year, month)
      {
        if i < |init| {
          assert ss[i] == init[i];
        } else {
          assert DoneSubtasks(ss, year, month)[|d0|] == AsDone(ss[i]);
        }
      }
    } else {
      assert DoneSubtasks(ss, year, month) == [];
    }
  }

  /** A task is in the report exactly when it was done in the month itself or at
      least one of its subtasks was. */
  lemma IncludedIff(t: TaskRec, year: int, month: int)
    ensures Included(t, year, month) <==>
            TaskDoneInMonth(t, year, month) ||
            exists i :: 0 <= i < |t.subtasks| && SubtaskDoneInMonth(t.subtasks[i], year, month)
  {
    DoneSubtasksSpec(t.subtasks, year, month);
  }

  /** The entry of a task carries its title, description and priority, its
      subtasks done in the month, and its own finished date only when the task
      itself was done in the month. */
  lemma EntryOfSpec(t: TaskRec, year: int, month: int)
    ensures var e := EntryOf(t, year, month);
            e.title == t.title && e.description == t.description && e.priority == t.priority &&
            e.subtasksDone == DoneSubtasks(t.subtasks, year, month) &&
            (e.taskFinishedDate.Some? <==> TaskDoneInMonth(t, year, month)) &&
            (e.taskFinishedDate.Some? ==>
               e.taskFinishedDate == t.finishedDate && InMonth(e.taskFinishedDate.value, year, month))
  {
  }

  /** Collecting the entries of two lists one after the other collects those of
      their concatenation: the report keeps the task order. */
  lemma {:induction false} EntriesAppend(a: seq<TaskRec>, b: seq<TaskRec>, year: int, month: int)
    ensures Entries(a + b, year, month) == Entries(a, year, month) + Entries(b, year, month)
    decreases |b|
  {
    if b != [] {
      var b0 := b[..|b| - 1];
      assert (a + b)[..|a + b| - 1] == a + b0;
      assert (a + b)[|a + b| - 1] == b[|b| - 1];
      EntriesAppend(a, b0, year, month);
    } else {
      assert a + b == a;
    }
  }

  /** Taking one more task of a list adds its entry to the report when it is
      included (the step of the export's outer loop). */
  lemma EntriesStep(ts: seq<TaskRec>, i: int, year: int, month: int)
    requires 0 <= i < |ts|
    ensures Entries(ts[..i + 1], year, month) ==
            Entries(ts[..i], year, month) +
            (if Included(ts[i], year, month) then [EntryOf(ts[i], year, month)] else [])
  {
    assert ts[..i + 1][..i] == ts[..i];
  }

  /** The report holds exactly the entries of the included tasks. */
  lemma {:induction false} EntriesSpec(ts: seq<TaskRec>, year: int, month: int)
    ensures forall k :: 0 <= k < |Entries(ts, year, month)| ==>
              exists i :: 0 <= i < |ts| && Included(ts[i], year, month) &&
                          Entries(ts, year, month)[k] == EntryOf(ts[i], year, month)
    ensures forall i :: 0 <= i < |ts| && Included(ts[i], year, month) ==>
              EntryOf(ts[i], year, month) in Entries(ts, year, month)
    ensures Entries(ts, year, month) == [] <==> forall i :: 0 <= i < |ts| ==> !Included(ts[i], year, month)
  {
    if ts != [] {
      var init := ts[..|ts| - 1];
      var last := ts[|ts| - 1];
      EntriesSpec(init, year, month);
      var e0 := Entries(init, year, month);
      var tail := if Included(last, year, month) then [EntryOf(last, year, month)] else [];
      assert Entries(ts, year, month) == e0 + tail;
      assert forall i :: 0 <= i < |init| ==> init[i] == ts[i];
      forall k | 0 <= k < |Entries(ts, year, month)|
        ensures exists i :: 0 <= i < |ts| && Included(ts[i], year, month) &&
                            Entries(ts, year, month)[k] == EntryOf(ts[i], year, month)
      {
        if k < |e0| {
          var i :| 0 <= i < |init| && Included(init[i], year, month) && e0[k] == EntryOf(init[i], year, month);
          assert ts[i] == init[i];
        } else {
          assert Included(ts[|ts| - 1], year, month);
        }
      }
      forall i | 0 <= i < |ts| && Included(ts[i], year, month)
        ensures EntryOf(ts[i], year, month) in Entries(ts, year, month)
      {
        if i < |init| {
          assert ts[i] == init[i];
        } else {
          assert Entries(ts, year, month)[|e0|] == EntryOf(ts[i], year, month);
        }
      }
    } else {
      assert Entries(ts, year, month) == [];
    }
  }

  /** Nothing is found exactly when no task and no subtask was done in the month. */
  lemma NothingFoundIff(ts: seq<TaskRec>, year: int, month: int)
    ensures MonthReport(ts, year, month) == NothingFound <==>
            forall i :: 0 <= i < |ts| ==>
              !TaskDoneInMonth(ts[i], year, month) &&
              forall j :: 0 <= j < |ts[i].subtasks| ==> !SubtaskDoneInMonth(ts[i].subtasks[j], year, month)
  {
    EntriesSpec(ts, year, month);
    forall i | 0 <= i < |ts| {
      IncludedIff(ts[i], year, month);
    }
  }

  /** A task On Hold whose one subtask was done in the month is reported
      without a date of its own, with that subtask. */
  lemma ExampleSubtaskAlone(t: TaskRec, s: SubtaskRec)
    requires t.status == OnHold && t.subtasks == [s]
    requires s.status == Done && s.finishedDate == Some(Timestamp(2025, 1, 20, 0, 0, 0))
    ensures MonthReport([t], 2025, 1) ==
            Exported([ExportEntry(t.title, t.description, t.priority, None,
                                  [DoneSubtask(s.title, s.description, Timestamp(2025, 1, 20, 0, 0, 0))])])
  {
    assert [t][..0] == [];
    assert t.subtasks[..0] == [];
    assert DoneSubtasks(t.subtasks, 2025, 1) == [AsDone(s)];
    assert !TaskDoneInMonth(t, 2025, 1);
    assert Entries([t], 2025, 1) == [EntryOf(t, 2025, 1)];
  }
}
