/** The `Subtask` and `Task` dataclasses of todo_tool.py as objects whose methods
    update their fields in place. Each method is specified by the function on
    plain values (StatusEngine, TaskOps) applied to the object's value before the
    call. */
module Entities {
  import opened Domain
  import opened StatusEngine
  import TaskOps

  class Subtask {
    var title: string
    var description: string
    var status: string
    var finishedDate: Option<Timestamp>

    /** The field values of this subtask. */
    function Model(): SubtaskRec
      reads this
    {
      SubtaskRec(title, description, status, finishedDate)
    }

    /** `Subtask(title=..., description=..., status=...)`: no finished date. */
    constructor (title: string, description: string, status: string)
      ensures Model() == SubtaskRec(title, description, status, None)
    {
      this.title := title;
      this.description := description;
      this.status := status;
      this.finishedDate := None;
    }

    /** `Subtask.normalize()`. */
    method Normalize()
      modifies this
      ensures Model() == NormalizeSubtask(old(Model()))
    {
      if status !in Stati {
        status := ToDo;
      }
      if status != Done {
        finishedDate := None;
      }
    }

    /** `Subtask.set_status(x)`, with the clock reading `now`. */
    method SetStatus(x: string, now: Timestamp)
      modifies this
      ensures Model() == SetSubtaskStatus(old(Model()), x, now)
    {
      status := x;
      if x == Done {
        if finishedDate.None? {
          finishedDate := Some(now);
        }
      } else {
        finishedDate := None;
      }
    }
  }

  /** The values of a list of subtask objects, in order. */
  function Models(ss: seq<Subtask>): (r: seq<SubtaskRec>)
    reads ss
    ensures |r| == |ss|
    ensures forall i :: 0 <= i < |ss| ==> r[i] == ss[i].Model()
  {
    if ss == [] then [] else [ss[0].Model()] + Models(ss[1..])
  }

  /** No object occurs twice in the list, so updating one element leaves the
      others as they are. */
  predicate Distinct<T(==)>(xs: seq<T>)
  {
    forall i, j :: 0 <= i < j < |xs| ==> xs[i] != xs[j]
  }

  class Task {
    var title: string
    var description: string
    var priority: string
    var status: string
    var finishedDate: Option<Timestamp>
    var subtasks: seq<Subtask>

    /** The subtask list holds each subtask object once. */
    predicate Valid()
      reads this
    {
      Distinct(subtasks)
    }

    /** The field values of this task, its subtasks by value. */
    function Model(): TaskRec
      reads this, subtasks
    {
      TaskRec(title, description, priority, status, finishedDate, Models(subtasks))
    }

    /** The objects the task's methods may update: itself and its subtasks. */
    function Footprint(): set<object>
      reads this
    {
      {this} + set s: Subtask | s in subtasks :: s as object
    }

    /** `Task(title=..., description=..., priority=..., status=...)`: no finished
        date and no subtasks. */
    constructor (title: string, description: string, priority: string, status: string)
      ensures Valid()
      ensures Model() == TaskRec(title, description, priority, status, None, [])
    {
      this.title := title;
      this.description := description;
      this.priority := priority;
      this.status := status;
      this.finishedDate := None;
      this.subtasks := [];
    }

    /** `Task.set_status(x)`; the subtasks are not touched. */
    method SetStatus(x: string, now: Timestamp)
      modifies this
      ensures subtasks == old(subtasks)
      ensures Model() == SetTaskStatus(old(Model()), x, now)
    {
      status := x;
      if x == Done {
        if finishedDate.None? {
          finishedDate := Some(now);
        }
      } else {
        finishedDate := None;
      }
    }

    /** `Task.recompute_status_from_subtasks()`. It raises on a subtask status
        that the escalation order does not know, hence the precondition. */
    method Recompute(now: Timestamp)
      requires KnownStatuses(Models(subtasks))
      modifies this
      ensures subtasks == old(subtasks)
      ensures Model() == StatusEngine.Recompute(old(Model()), now)
    {
      var r := StatusEngine.Recompute(Model(), now);
      status := r.status;
      finishedDate := r.finishedDate;
    }

    /** `Task.normalize()`: default priority and status, normalize every subtask
        in turn, then recompute. */
    method Normalize(now: Timestamp)
      requires Valid()
      modifies this, subtasks
      ensures subtasks == old(subtasks)
      ensures Model() == NormalizeTask(old(Model()), now)
    {
      NormalizeFieldsInPlace();
      NormalizeFieldsSpec(old(Model()));
      Recompute(now);
    }

    /** The part of `normalize()` before the recompute. */
    method NormalizeFieldsInPlace()
      requires Valid()
      modifies this, subtasks
      ensures subtasks == old(subtasks)
      ensures Model() == NormalizeFields(old(Model()))
    {
      if priority !in Prios {
        priority := DefaultPriority;
      }
      if status !in Stati {
        status := ToDo;
      }
      NormalizeSubtasks();
    }

    /** The loop `for s in self.subtasks: s.normalize()`. */
    method NormalizeSubtasks()
      requires Valid()
      modifies subtasks
      ensures Models(subtasks) == NormalizeAll(old(Models(subtasks)))
    {
      ghost var before := Models(subtasks);
      for i := 0 to |subtasks|
        invariant forall k :: 0 <= k < i ==> subtasks[k].Model() == NormalizeSubtask(before[k])
        invariant forall k :: i <= k < |subtasks| ==> subtasks[k].Model() == before[k]
      {
        assert forall k :: 0 <= k < |subtasks| && k != i ==> subtasks[k] != subtasks[i];
        subtasks[i].Normalize();
      }
      forall k | 0 <= k < |subtasks| ensures Models(subtasks)[k] == NormalizeAll(before)[k] {
      }
    }

    /** The Mark-done action on a task: every subtask is set Done and the task
        recomputed, or the task itself is set Done when it has no subtasks. */
    method MarkDone(now: Timestamp)
      requires Valid()
      modifies this, subtasks
      ensures subtasks == old(subtasks)
      ensures Model() == TaskOps.MarkTaskDone(old(Model()), now)
    {
      if subtasks == [] {
        SetStatus(Done, now);
        return;
      }
      ghost var before := Models(subtasks);
      SetSubtasksDone(now);
      assert Model() == old(Model()).(subtasks := TaskOps.SetAllDone(before, now));
      Recompute(now);
    }

    /** The loop `for s in task.subtasks: s.set_status(DONE)`. */
    method SetSubtasksDone(now: Timestamp)
      requires Valid()
      modifies subtasks
      ensures Models(subtasks) == TaskOps.SetAllDone(old(Models(subtasks)), now)
    {
      ghost var before := Models(subtasks);
      for i := 0 to |subtasks|
        invariant forall k :: 0 <= k < i ==> subtasks[k].Model() == SetSubtaskStatus(before[k], Done, now)
        invariant forall k :: i <= k < |subtasks| ==> subtasks[k].Model() == before[k]
      {
        assert forall k :: 0 <= k < |subtasks| && k != i ==> subtasks[k] != subtasks[i];
        subtasks[i].SetStatus(Done, now);
      }
      assert Models(subtasks) == TaskOps.SetAllDone(before, now);
    }

    /** The Mark-done action on subtask `j` of this task. */
    method MarkSubtaskDone(j: int, now: Timestamp)
      requires Valid() && 0 <= j < |subtasks| && KnownStatuses(Models(subtasks))
      modifies this, subtasks[j]
      ensures subtasks == old(subtasks)
      ensures Model() == TaskOps.MarkSubtaskDone(old(Model()), j, now)
    {
      ghost var before := Models(subtasks);
      subtasks[j].SetStatus(Done, now);
      assert Models(subtasks) == before[j := SetSubtaskStatus(before[j], Done, now)];
      Recompute(now);
    }

    /** `task.subtasks.append(sub)` followed by the recompute. */
    method AddSubtask(s: Subtask, now: Timestamp)
      requires Valid() && s !in subtasks
      requires KnownStatuses(Models(subtasks) + [s.Model()])
      modifies this
      ensures Valid() && subtasks == old(subtasks) + [s]
      ensures Model() == TaskOps.AddSubtask(old(Model()), old(s.Model()), now)
    {
      subtasks := subtasks + [s];
      assert Models(subtasks) == old(Models(subtasks)) + [s.Model()];
      Recompute(now);
    }

    /** Removing subtask `j` (the selected one) followed by the recompute. */
    method DeleteSubtask(j: int, now: Timestamp)
      requires Valid() && 0 <= j < |subtasks| && KnownStatuses(Models(subtasks))
      modifies this
      ensures Valid() && subtasks == TaskOps.RemoveAt(old(subtasks), j)
      ensures Model() == TaskOps.DeleteSubtask(old(Model()), j, now)
    {
      subtasks := TaskOps.RemoveAt(subtasks, j);
      assert Models(subtasks) == TaskOps.RemoveAt(old(Models(subtasks)), j);
      Recompute(now);
    }
  }
}
