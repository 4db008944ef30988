/** The task-level mutations of the main window on plain values: marking a task
    or one of its subtasks done, adding a subtask and deleting one, each followed
    by the recompute of the task's status. The Task class in Entities performs
    them in place and is specified by these functions. */
module TaskOps {
  import opened Domain
  import opened StatusEngine

  /** Normalized subtasks only carry statuses the escalation order knows. */
  lemma NormalizedAreKnown(ss: seq<SubtaskRec>)
    requires forall i :: 0 <= i < |ss| ==> SubtaskNormalized(ss[i])
    ensures KnownStatuses(ss)
  {
    forall i | 0 <= i < |ss| ensures ss[i].status in StatusPriorityOrder {
      StatiAndOrderAgree(ss[i].status);
    }
  }

  /** Appending a normalized subtask keeps the statuses known. */
  lemma AppendKnown(ss: seq<SubtaskRec>, s: SubtaskRec)
    requires KnownStatuses(ss) && SubtaskNormalized(s)
    ensures KnownStatuses(ss + [s])
  {
    StatiAndOrderAgree(s.status);
    assert (ss + [s])[|ss|] == s;
  }

  /** Replacing a subtask by a normalized one keeps the statuses known. */
  lemma ReplaceKnown(ss: seq<SubtaskRec>, j: int, s: SubtaskRec)
    requires KnownStatuses(ss) && 0 <= j < |ss| && SubtaskNormalized(s)
    ensures KnownStatuses(ss[j := s])
  {
    StatiAndOrderAgree(s.status);
  }

  /** Recompute keeps a task normalized: a known priority, normalized subtasks and,
      when there are none, a known status are all it needs. */
  lemma RecomputeKeepsNormalized(t: TaskRec, now: Timestamp)
    requires t.priority in Prios
    requires forall i :: 0 <= i < |t.subtasks| ==> SubtaskNormalized(t.subtasks[i])
    requires t.subtasks == [] ==> t.status in Stati
    ensures KnownStatuses(t.subtasks) && TaskNormalized(Recompute(t, now))
  {
    NormalizedAreKnown(t.subtasks);
    RecomputeShape(t, now);
  }

  // ---------------------------------------------------------------------------
  // mark_selected_done

  /** `s.set_status("Done")` for every subtask, in order. */
  function SetAllDone(ss: seq<SubtaskRec>, now: Timestamp): (r: seq<SubtaskRec>)
    ensures |r| == |ss|
    ensures forall i :: 0 <= i < |ss| ==> r[i] == SetSubtaskStatus(ss[i], Done, now)
  {
    seq(|ss|, i requires 0 <= i < |ss| => SetSubtaskStatus(ss[i], Done, now))
  }

  /** Marking a task done: with subtasks, every subtask is set Done and the task
      recomputed; without, the task itself is set Done. */
  function MarkTaskDone(t: TaskRec, now: Timestamp): TaskRec
  {
    if t.subtasks == [] then SetTaskStatus(t, Done, now)
    else
      var t1 := t.(subtasks := SetAllDone(t.subtasks, now));
      assert AllHave(t1.subtasks, Done);
      Recompute(t1, now)
  }

  /** After marking, the task is Done with a finished date, its own fields are
      kept, and every subtask keeps its title and description and is Done with
      the date it had, or `now` when it had none. */
  lemma MarkTaskDoneSpec(t: TaskRec, now: Timestamp)
    ensures var r := MarkTaskDone(t, now);
            r.status == Done && r.finishedDate.Some? &&
            r.title == t.title && r.description == t.description && r.priority == t.priority &&
            |r.subtasks| == |t.subtasks| &&
            forall i :: 0 <= i < |r.subtasks| ==>
              r.subtasks[i] == SetSubtaskStatus(t.subtasks[i], Done, now) &&
              r.subtasks[i].title == t.subtasks[i].title &&
              r.subtasks[i].description == t.subtasks[i].description &&
              r.subtasks[i].status == Done &&
              r.subtasks[i].finishedDate ==
                (if t.subtasks[i].finishedDate.Some? then t.subtasks[i].finishedDate else Some(now))
  {
    if t.subtasks != [] {
      var t1 := t.(subtasks := SetAllDone(t.subtasks, now));
      RecomputeAllDone(t1, now);
    }
  }

  /** A task with subtasks that is marked done finishes at the latest date of its
      subtasks, which after the marking all carry one. */
  lemma MarkTaskDoneFinishesAtLatest(t: TaskRec, now: Timestamp)
    requires t.subtasks != []
    ensures var r := MarkTaskDone(t, now);
            (exists i :: 0 <= i < |r.subtasks| && r.subtasks[i].finishedDate == r.finishedDate) &&
            (forall i :: 0 <= i < |r.subtasks| ==> StampLe(r.subtasks[i].finishedDate.value, r.finishedDate.value))
  {
    var ss := SetAllDone(t.subtasks, now);
    var d := LatestDateOr(ss, now);
    assert ss[0].finishedDate.Some?;
    RecomputeAllDone(t.(subtasks := ss), now);
    assert MarkTaskDone(t, now) == t.(subtasks := ss, status := Done, finishedDate := Some(d));
    LatestDateOrIsLatest(ss, now);
  }

  /** A task without subtasks that already has a finished date keeps it. */
  lemma MarkTaskDoneKeepsOwnDate(t: TaskRec, now: Timestamp)
    requires t.subtasks == [] && t.finishedDate.Some?
    ensures MarkTaskDone(t, now) == t.(status := Done)
  {
  }

  /** Marking one subtask done, then recomputing the task. */
  function MarkSubtaskDone(t: TaskRec, j: int, now: Timestamp): TaskRec
    requires 0 <= j < |t.subtasks| && KnownStatuses(t.subtasks)
  {
    var ss := t.subtasks[j := SetSubtaskStatus(t.subtasks[j], Done, now)];
    assert KnownStatuses(ss);
    Recompute(t.(subtasks := ss), now)
  }

  /** Only subtask `j` changes: it keeps its title and description and is Done
      with the date it had, or `now` when it had none; the task's own fields are
      kept and its statuses stay known. */
  lemma MarkSubtaskDoneSpec(t: TaskRec, j: int, now: Timestamp)
    requires 0 <= j < |t.subtasks| && KnownStatuses(t.subtasks)
    ensures var r := MarkSubtaskDone(t, j, now);
            KnownStatuses(r.subtasks) &&
            r.title == t.title && r.description == t.description && r.priority == t.priority &&
            |r.subtasks| == |t.subtasks| &&
            r.subtasks[j] == SetSubtaskStatus(t.subtasks[j], Done, now) &&
            r.subtasks[j].title == t.subtasks[j].title &&
            r.subtasks[j].description == t.subtasks[j].description &&
            r.subtasks[j].status == Done &&
            r.subtasks[j].finishedDate ==
              (if t.subtasks[j].finishedDate.Some? then t.subtasks[j].finishedDate else Some(now)) &&
            forall k :: 0 <= k < |t.subtasks| && k != j ==> r.subtasks[k] == t.subtasks[k]
  {
    var ss := t.subtasks[j := SetSubtaskStatus(t.subtasks[j], Done, now)];
    RecomputeShape(t.(subtasks := ss), now);
  }

  /** After marking subtask `j` done, the task is Done exactly when every other
      subtask already was. */
  lemma MarkSubtaskDoneCompletesTask(t: TaskRec, j: int, now: Timestamp)
    requires 0 <= j < |t.subtasks| && KnownStatuses(t.subtasks)
    ensures MarkSubtaskDone(t, j, now).status == Done <==>
            forall k :: 0 <= k < |t.subtasks| && k != j ==> t.subtasks[k].status == Done
  {
    var ss := t.subtasks[j := SetSubtaskStatus(t.subtasks[j], Done, now)];
    assert KnownStatuses(ss);
    RecomputeDoneIff(t.(subtasks := ss), now);
    assert MarkSubtaskDone(t, j, now) == Recompute(t.(subtasks := ss), now);
    assert ss[j].status == Done;
    assert forall k :: 0 <= k < |ss| && k != j ==> ss[k] == t.subtasks[k];
  }

  // ---------------------------------------------------------------------------
  // add_subtask_to_selected

  /** Appending a subtask, then recomputing the task. */
  function AddSubtask(t: TaskRec, s: SubtaskRec, now: Timestamp): TaskRec
    requires KnownStatuses(t.subtasks + [s])
  {
    Recompute(t.(subtasks := t.subtasks + [s]), now)
  }

  /** The new subtask is appended at the end, the task's own fields are kept, and
      the task has a finished date exactly when it is Done. */
  lemma AddSubtaskSpec(t: TaskRec, s: SubtaskRec, now: Timestamp)
    requires KnownStatuses(t.subtasks + [s])
    ensures var r := AddSubtask(t, s, now);
            r.title == t.title && r.description == t.description && r.priority == t.priority &&
            r.subtasks == t.subtasks + [s] && r.status in Stati &&
            (r.finishedDate.Some? <==> r.status == Done)
  {
    RecomputeShape(t.(subtasks := t.subtasks + [s]), now);
  }

  /** Adding a subtask that is not Done reopens the task: it is no longer Done and
      loses its finished date. */
  lemma AddOpenSubtaskReopens(t: TaskRec, s: SubtaskRec, now: Timestamp)
    requires KnownStatuses(t.subtasks + [s]) && s.status != Done
    ensures AddSubtask(t, s, now).status != Done
    ensures AddSubtask(t, s, now).finishedDate == None
  {
    var ss := t.subtasks + [s];
    assert ss[|ss| - 1] == s;
    RecomputeDoneIff(t.(subtasks := ss), now);
    RecomputeShape(t.(subtasks := ss), now);
  }

  /** Adding a normalized subtask keeps a normalized task normalized. */
  lemma AddSubtaskKeepsNormalized(t: TaskRec, s: SubtaskRec, now: Timestamp)
    requires TaskNormalized(t) && SubtaskNormalized(s)
    ensures KnownStatuses(t.subtasks + [s]) && TaskNormalized(AddSubtask(t, s, now))
  {
    var ss := t.subtasks + [s];
    assert forall i :: 0 <= i < |ss| ==> SubtaskNormalized(ss[i]);
    RecomputeKeepsNormalized(t.(subtasks := ss), now);
  }

  // ---------------------------------------------------------------------------
  // edit_selected_item on a subtask

  /** Subtask `j` replaced by its edited value, then the task recomputed. */
  function ReplaceSubtask(t: TaskRec, j: int, s: SubtaskRec, now: Timestamp): TaskRec
    requires 0 <= j < |t.subtasks| && KnownStatuses(t.subtasks[j := s])
  {
    Recompute(t.(subtasks := t.subtasks[j := s]), now)
  }

  /** Only subtask `j` changes, the task's own fields are kept, and the task has
      a finished date exactly when it is Done. */
  lemma ReplaceSubtaskSpec(t: TaskRec, j: int, s: SubtaskRec, now: Timestamp)
    requires 0 <= j < |t.subtasks| && KnownStatuses(t.subtasks[j := s])
    ensures var r := ReplaceSubtask(t, j, s, now);
            r.title == t.title && r.description == t.description && r.priority == t.priority &&
            |r.subtasks| == |t.subtasks| && r.subtasks[j] == s &&
            (forall k :: 0 <= k < |t.subtasks| && k != j ==> r.subtasks[k] == t.subtasks[k]) &&
            r.status in Stati && (r.finishedDate.Some? <==> r.status == Done)
  {
    RecomputeShape(t.(subtasks := t.subtasks[j := s]), now);
  }

  /** Replacing a subtask by a normalized one keeps a normalized task
      normalized. */
  lemma ReplaceSubtaskKeepsNormalized(t: TaskRec, j: int, s: SubtaskRec, now: Timestamp)
    requires TaskNormalized(t) && 0 <= j < |t.subtasks| && SubtaskNormalized(s)
    ensures KnownStatuses(t.subtasks[j := s]) && TaskNormalized(ReplaceSubtask(t, j, s, now))
  {
    var ss := t.subtasks[j := s];
    assert forall i :: 0 <= i < |ss| ==> SubtaskNormalized(ss[i]);
    NormalizedAreKnown(ss);
    RecomputeKeepsNormalized(t.(subtasks := ss), now);
  }

  // ---------------------------------------------------------------------------
  // delete_selected_item

  /** The list without its element at position `j`, the rest in order. */
  function RemoveAt<T>(xs: seq<T>, j: int): (r: seq<T>)
    requires 0 <= j < |xs|
    ensures |r| == |xs| - 1
    ensures forall k :: 0 <= k < j ==> r[k] == xs[k]
    ensures forall k :: j <= k < |r| ==> r[k] == xs[k + 1]
  {
    xs[..j] + xs[j + 1..]
  }

  /** Removing position `j` removes one occurrence of `xs[j]` and nothing else. */
  lemma RemoveAtMultiset<T>(xs: seq<T>, j: int)
    requires 0 <= j < |xs|
    ensures multiset(RemoveAt(xs, j)) + multiset{xs[j]} == multiset(xs)
  {
    assert xs == xs[..j] + [xs[j]] + xs[j + 1..];
  }

  /** `list.remove(x)`: Python removes the first element equal to `x`, which for
      dataclasses compares field values, not identity. */
  function RemoveFirstEqual<T(==)>(xs: seq<T>, x: T): (r: seq<T>)
    requires x in xs
    ensures |r| == |xs| - 1
    ensures r == RemoveAt(xs, IndexOf(xs, x))
  {
    var i := IndexOf(xs, x);
    xs[..i] + xs[i + 1..]
  }

  /** Removing the first equal element agrees with removing the selected one
      exactly when the elements from the first equal one up to the selected one
      are a run of equal values (so the survivors are the same either way). */
  lemma RemoveFirstEqualIsSelectedIff<T>(xs: seq<T>, j: int)
    requires 0 <= j < |xs|
    ensures var i := IndexOf(xs, xs[j]);
            RemoveFirstEqual(xs, xs[j]) == RemoveAt(xs, j) <==>
            forall m :: i <= m < j ==> xs[m] == xs[m + 1]
  {
    var i := IndexOf(xs, xs[j]);
    var r1, r2 := RemoveAt(xs, i), RemoveAt(xs, j);
    if r1 == r2 {
      forall m | i <= m < j ensures xs[m] == xs[m + 1] {
        assert r1[m] == xs[m + 1] && r2[m] == xs[m];
      }
    } else {
      var m :| 0 <= m < |r1| && r1[m] != r2[m];
      assert i <= m < j && xs[m] != xs[m + 1];
    }
  }

  /** The selected subtask is the second of two equal ones: `remove` deletes the
      first instead, so the survivor order is wrong. */
  lemma RemoveFirstEqualDeletesWrongOne<T>(a: T, b: T)
    requires a != b
    ensures RemoveFirstEqual([a, b, a], a) == [b, a]
    ensures RemoveAt([a, b, a], 2) == [a, b]
    ensures RemoveFirstEqual([a, b, a], a) != RemoveAt([a, b, a], 2)
  {
    assert IndexOf([a, b, a], a) == 0;
  }

  /** Deleting subtask `j` (the one selected), then recomputing the task. */
  function DeleteSubtask(t: TaskRec, j: int, now: Timestamp): TaskRec
    requires 0 <= j < |t.subtasks| && KnownStatuses(t.subtasks)
  {
    RemoveAtKnown(t.subtasks, j);
    Recompute(t.(subtasks := RemoveAt(t.subtasks, j)), now)
  }

  /** Removing a subtask keeps the remaining statuses known. */
  lemma RemoveAtKnown(ss: seq<SubtaskRec>, j: int)
    requires 0 <= j < |ss| && KnownStatuses(ss)
    ensures KnownStatuses(RemoveAt(ss, j))
  {
    var r := RemoveAt(ss, j);
    forall k | 0 <= k < |r| ensures r[k].status in StatusPriorityOrder {
      if k >= j { assert r[k] == ss[k + 1]; }
    }
  }

  /** The selected subtask is gone, the others keep their order, and the task's
      own fields are kept. */
  lemma DeleteSubtaskSpec(t: TaskRec, j: int, now: Timestamp)
    requires 0 <= j < |t.subtasks| && KnownStatuses(t.subtasks)
    ensures var r := DeleteSubtask(t, j, now);
            r.title == t.title && r.description == t.description && r.priority == t.priority &&
            r.subtasks == RemoveAt(t.subtasks, j) && KnownStatuses(r.subtasks) &&
            (r.finishedDate.Some? <==> r.status == Done)
  {
    RemoveAtKnown(t.subtasks, j);
    RecomputeShape(t.(subtasks := RemoveAt(t.subtasks, j)), now);
  }

  /** Deleting the last remaining subtask leaves the status the subtasks had given
      the task; a Done task keeps its finished date. */
  lemma DeleteOnlySubtaskKeepsStatus(t: TaskRec, now: Timestamp)
    requires |t.subtasks| == 1 && KnownStatuses(t.subtasks)
    ensures DeleteSubtask(t, 0, now).status == t.status
    ensures t.status == Done && t.finishedDate.Some? ==> DeleteSubtask(t, 0, now).finishedDate == t.finishedDate
    ensures t.status != Done ==> DeleteSubtask(t, 0, now).finishedDate == None
  {
    assert RemoveAt(t.subtasks, 0) == [];
    RecomputeWithoutSubtasks(t.(subtasks := []), now);
  }

  /** Deleting a subtask keeps a normalized task normalized. */
  lemma DeleteSubtaskKeepsNormalized(t: TaskRec, j: int, now: Timestamp)
    requires TaskNormalized(t) && 0 <= j < |t.subtasks|
    ensures KnownStatuses(t.subtasks) && TaskNormalized(DeleteSubtask(t, j, now))
  {
    NormalizedAreKnown(t.subtasks);
    var ss := RemoveAt(t.subtasks, j);
    forall k | 0 <= k < |ss| ensures SubtaskNormalized(ss[k]) {
      if k >= j { assert ss[k] == t.subtasks[k + 1]; }
    }
    RecomputeKeepsNormalized(t.(subtasks := ss), now);
  }

  /** Marking keeps a normalized task normalized. */
  lemma MarkTaskDoneKeepsNormalized(t: TaskRec, now: Timestamp)
    requires TaskNormalized(t)
    ensures TaskNormalized(MarkTaskDone(t, now))
  {
    MarkTaskDoneSpec(t, now);
  }

  lemma MarkSubtaskDoneKeepsNormalized(t: TaskRec, j: int, now: Timestamp)
    requires TaskNormalized(t) && 0 <= j < |t.subtasks|
    ensures KnownStatuses(t.subtasks) && TaskNormalized(MarkSubtaskDone(t, j, now))
  {
    NormalizedAreKnown(t.subtasks);
    var ss := t.subtasks[j := SetSubtaskStatus(t.subtasks[j], Done, now)];
    assert forall k :: 0 <= k < |ss| ==> SubtaskNormalized(ss[k]);
    RecomputeKeepsNormalized(t.(subtasks := ss), now);
  }
}
