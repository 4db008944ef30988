/** The values the ToDo tool works with: the status and priority enumerations of
    todo_tool.py, a structured timestamp in place of the ISO-8601 strings, and the
    plain-value shape of a subtask and a task (the classes in Entities have these
    as their abstract value). */
module Domain {

  datatype Option<+T> = None | Some(value: T)

  datatype Result<+T, +E> = Success(value: T) | Failure(error: E)

  // ---------------------------------------------------------------------------
  // Enumerations. Status and priority are kept as strings, so that a value that
  // is not in the enumeration (as read from storage) can be represented.

  const ToDo: string := "ToDo"
  const OnHold: string := "On Hold"
  const Done: string := "Done"

  /** The status list in display order (STATI). */
  const Stati: seq<string> := [
    "ToDo",
    "Meeting vereinbart",
    "On Hold",
    "Warte auf Antwort",
    "Warten auf anderen Arbeitstag",
    "Warten auf Mail",
    "Done"
  ]

  /** The priority list (PRIOS). */
  const Prios: seq<string> := ["Niedrig", "Mittel", "Hoch", "Kritisch"]

  const DefaultPriority: string := "Mittel"

  /** The status list in escalating order, used to pick the dominant status of
      a task's subtasks (STATUS_PRIORITY_ORDER). It is not the display order. */
  const StatusPriorityOrder: seq<string> := [
    "ToDo",
    "Warten auf anderen Arbeitstag",
    "Warten auf Mail",
    "Warte auf Antwort",
    "Meeting vereinbart",
    "On Hold",
    "Done"
  ]

  /** Position of the first occurrence of `x` in `xs` (Python's `list.index`). */
  function IndexOf<T(==)>(xs: seq<T>, x: T): (r: nat)
    requires x in xs
    ensures r < |xs| && xs[r] == x
    ensures forall k :: 0 <= k < r ==> xs[k] != x
  {
    if xs[0] == x then 0 else 1 + IndexOf(xs[1..], x)
  }

  /** Index of a status in the escalation order. */
  function OrderIndex(status: string): (r: nat)
    requires status in StatusPriorityOrder
    ensures r < |StatusPriorityOrder| && StatusPriorityOrder[r] == status
  {
    IndexOf(StatusPriorityOrder, status)
  }

  /** The order index identifies a status: two statuses with the same index are equal. */
  lemma OrderIndexInjective(a: string, b: string)
    requires a in StatusPriorityOrder && b in StatusPriorityOrder
    requires OrderIndex(a) == OrderIndex(b)
    ensures a == b
  {
  }

  /** Both status lists hold the same seven statuses. */
  lemma StatiAndOrderAgree(s: string)
    ensures s in Stati <==> s in StatusPriorityOrder
  {
  }

  // ---------------------------------------------------------------------------
  // Timestamps. `datetime` values with second precision, compared field by field.

  datatype Timestamp = Timestamp(year: int, month: int, day: int, hour: int, minute: int, second: int)

  /** The chronological order on timestamps (earlier or equal). */
  predicate StampLe(a: Timestamp, b: Timestamp)
  {
    a.year < b.year || (a.year == b.year &&
    (a.month < b.month || (a.month == b.month &&
    (a.day < b.day || (a.day == b.day &&
    (a.hour < b.hour || (a.hour == b.hour &&
    (a.minute < b.minute || (a.minute == b.minute &&
    a.second <= b.second)))))))))
  }

  lemma StampLeTotal(a: Timestamp, b: Timestamp)
    ensures StampLe(a, b) || StampLe(b, a)
    ensures StampLe(a, b) && StampLe(b, a) ==> a == b
  {
  }

  lemma StampLeTransitive(a: Timestamp, b: Timestamp, c: Timestamp)
    requires StampLe(a, b) && StampLe(b, c)
    ensures StampLe(a, c)
  {
  }

  /** The latest timestamp of a non-empty list (Python's `max` on datetimes). */
  function MaxStamp(ds: seq<Timestamp>): (r: Timestamp)
    requires ds != []
    ensures r in ds
    ensures forall i :: 0 <= i < |ds| ==> StampLe(ds[i], r)
  {
    if |ds| == 1 then ds[0]
    else
      var rest := MaxStamp(ds[1..]);
      assert forall i :: 1 <= i < |ds| ==> ds[i] == ds[1..][i - 1];
      if StampLe(ds[0], rest) then rest
      else
        StampLeTotal(ds[0], rest);
        forall i | 1 <= i < |ds| ensures StampLe(ds[i], ds[0]) {
          StampLeTransitive(ds[i], rest, ds[0]);
        }
        ds[0]
  }

  // ---------------------------------------------------------------------------
  // Records: the field values of a Subtask and a Task.

  datatype SubtaskRec = SubtaskRec(
    title: string,
    description: string,
    status: string,
    finishedDate: Option<Timestamp>)

  datatype TaskRec = TaskRec(
    title: string,
    description: string,
    priority: string,
    status: string,
    finishedDate: Option<Timestamp>,
    subtasks: seq<SubtaskRec>)

  /** What a normalized subtask satisfies: a known status, and a finished date
      only on a Done subtask. */
  predicate SubtaskNormalized(s: SubtaskRec)
  {
    s.status in Stati && (s.finishedDate.Some? ==> s.status == Done)
  }

  /** What a normalized task satisfies: known priority and status, a finished
      date exactly when it is Done, and normalized subtasks. */
  predicate TaskNormalized(t: TaskRec)
  {
    t.priority in Prios && t.status in Stati &&
    (t.finishedDate.Some? <==> t.status == Done) &&
    forall i :: 0 <= i < |t.subtasks| ==> SubtaskNormalized(t.subtasks[i])
  }

  /** Every subtask status is one that the escalation order knows; otherwise
      `STATUS_PRIORITY_ORDER.index` raises while a task's status is recomputed. */
  predicate KnownStatuses(ss: seq<SubtaskRec>)
  {
    forall i :: 0 <= i < |ss| ==> ss[i].status in StatusPriorityOrder
  }
}
