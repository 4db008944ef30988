/** The status rules of todo_tool.py on plain values: `set_status`, the two
    `normalize` methods and `recompute_status_from_subtasks`. The classes in
    Entities update their fields in place and are specified by these functions.
    The functions carry only the facts their callers need to be well formed; what
    they guarantee is stated by the lemmas next to them. */
module StatusEngine {
  import opened Domain

  // ---------------------------------------------------------------------------
  // set_status

  /** The finished date a status change leaves: a Done item keeps the date it
      has or is stamped with `now`; any other status clears it. */
  function FinishedDateFor(status: string, current: Option<Timestamp>, now: Timestamp): (r: Option<Timestamp>)
    ensures r.Some? <==> status == Done
    ensures status == Done && current.Some? ==> r == current
    ensures status == Done && current.None? ==> r == Some(now)
  {
    if status == Done then (if current.Some? then current else Some(now)) else None
  }

  /** `Subtask.set_status(x)`. */
  function SetSubtaskStatus(s: SubtaskRec, x: string, now: Timestamp): (r: SubtaskRec)
    ensures r.title == s.title && r.description == s.description
    ensures r.status == x
    ensures r.finishedDate.Some? <==> x == Done
    ensures x == Done && s.finishedDate.Some? ==> r.finishedDate == s.finishedDate
    ensures x == Done && s.finishedDate.None? ==> r.finishedDate == Some(now)
  {
    s.(status := x, finishedDate := FinishedDateFor(x, s.finishedDate, now))
  }

  /** `Task.set_status(x)`: the same rule on the task's own fields; the subtasks
      are not touched. */
  function SetTaskStatus(t: TaskRec, x: string, now: Timestamp): (r: TaskRec)
    ensures r.title == t.title && r.description == t.description && r.priority == t.priority
    ensures r.subtasks == t.subtasks
    ensures r.status == x
    ensures r.finishedDate.Some? <==> x == Done
    ensures x == Done && t.finishedDate.Some? ==> r.finishedDate == t.finishedDate
    ensures x == Done && t.finishedDate.None? ==> r.finishedDate == Some(now)
  {
    t.(status := x, finishedDate := FinishedDateFor(x, t.finishedDate, now))
  }

  /** Setting a status twice is setting it once: in particular marking a Done
      item Done again keeps its date, whatever the clock says. */
  lemma SetSubtaskStatusIdempotent(s: SubtaskRec, x: string, now: Timestamp, later: Timestamp)
    ensures SetSubtaskStatus(SetSubtaskStatus(s, x, now), x, later) == SetSubtaskStatus(s, x, now)
  {
  }

  // ---------------------------------------------------------------------------
  // Subtask.normalize

  /** `Subtask.normalize()`: an unknown status becomes ToDo, and a subtask that is
      not Done loses its finished date. */
  function NormalizeSubtask(s: SubtaskRec): SubtaskRec
  {
    var status := if s.status in Stati then s.status else ToDo;
    s.(status := status, finishedDate := if status != Done then None else s.finishedDate)
  }

  /** After `normalize()` the status is one of STATI and only a Done subtask has a
      finished date; a known status is kept, and a Done subtask keeps its date
      (or its lack of one: normalize does not stamp). */
  lemma NormalizeSubtaskSpec(s: SubtaskRec)
    ensures SubtaskNormalized(NormalizeSubtask(s))
    ensures NormalizeSubtask(s).title == s.title && NormalizeSubtask(s).description == s.description
    ensures NormalizeSubtask(s).status == (if s.status in Stati then s.status else ToDo)
    ensures NormalizeSubtask(s).status == Done ==> NormalizeSubtask(s).finishedDate == s.finishedDate
  {
  }

  /** A normalized subtask is left as it is, so normalizing twice is normalizing once. */
  lemma NormalizeSubtaskFixesNormalized(s: SubtaskRec)
    ensures SubtaskNormalized(s) ==> NormalizeSubtask(s) == s
    ensures NormalizeSubtask(NormalizeSubtask(s)) == NormalizeSubtask(s)
  {
  }

  // ---------------------------------------------------------------------------
  // recompute_status_from_subtasks

  /** Every subtask has the given status (the `all(...)` tests). */
  predicate AllHave(ss: seq<SubtaskRec>, status: string)
  {
    forall i :: 0 <= i < |ss| ==> ss[i].status == status
  }

  /** A status that is neither ToDo nor Done: a candidate for the dominant status. */
  predicate Active(status: string)
  {
    status != ToDo && status != Done
  }

  /** The subtask statuses other than ToDo and Done, in subtask order (`candidates`). */
  function Candidates(ss: seq<SubtaskRec>): seq<string>
  {
    if ss == [] then []
    else (if Active(ss[0].status) then [ss[0].status] else []) + Candidates(ss[1..])
  }

  /** The candidates are exactly the active subtask statuses, and there are none
      exactly when every subtask is ToDo or Done. */
  lemma {:induction false} CandidatesSpec(ss: seq<SubtaskRec>)
    ensures forall k :: 0 <= k < |Candidates(ss)| ==>
              Active(Candidates(ss)[k]) && exists i :: 0 <= i < |ss| && ss[i].status == Candidates(ss)[k]
    ensures forall i :: 0 <= i < |ss| && Active(ss[i].status) ==> ss[i].status in Candidates(ss)
    ensures Candidates(ss) == [] <==> forall i :: 0 <= i < |ss| ==> !Active(ss[i].status)
  {
    if ss != [] {
      CandidatesSpec(ss[1..]);
      assert forall i :: 1 <= i < |ss| ==> ss[i] == ss[1..][i - 1];
      var head := if Active(ss[0].status) then [ss[0].status] else [];
      var r := Candidates(ss);
      assert r == head + Candidates(ss[1..]);
      forall k | 0 <= k < |Candidates(ss)|
        ensures Active(Candidates(ss)[k]) && exists i :: 0 <= i < |ss| && ss[i].status == Candidates(ss)[k]
      {
        if k < |head| {
          assert r[k] == ss[0].status;
        } else {
          assert r[k] == Candidates(ss[1..])[k - |head|];
          var i :| 0 <= i < |ss[1..]| && ss[1..][i].status == r[k];
          assert ss[i + 1].status == r[k];
        }
      }
    }
  }

  /** Candidates of known statuses are known. */
  lemma CandidatesAreKnown(ss: seq<SubtaskRec>)
    requires KnownStatuses(ss)
    ensures forall k :: 0 <= k < |Candidates(ss)| ==> Candidates(ss)[k] in StatusPriorityOrder
  {
    CandidatesSpec(ss);
    var r := Candidates(ss);
    forall k | 0 <= k < |r| ensures r[k] in StatusPriorityOrder {
      var i :| 0 <= i < |ss| && ss[i].status == r[k];
    }
  }

  /** The element of a non-empty list with the greatest key. Where it is used the
      keys are distinct (`OrderIndex` is injective), so this is the last element
      of the ascending sort. */
  function LastMaxBy<X>(xs: seq<X>, key: X -> int): (r: X)
    requires xs != []
    ensures r in xs
    ensures forall k :: 0 <= k < |xs| ==> key(xs[k]) <= key(r)
  {
    if |xs| == 1 then xs[0]
    else
      var rest := LastMaxBy(xs[1..], key);
      assert forall k :: 1 <= k < |xs| ==> xs[k] == xs[1..][k - 1];
      if key(xs[0]) <= key(rest) then rest else xs[0]
  }

  /** The sort key `STATUS_PRIORITY_ORDER.index(s)`; it is only applied to known statuses. */
  function SortRank(s: string): int
  {
    if s in StatusPriorityOrder then OrderIndex(s) else -1
  }

  /** `candidates.sort(key=...)` followed by `candidates[-1]`: the last of the
      candidates with the greatest escalation index. */
  function Dominant(cands: seq<string>): string
    requires cands != []
    requires forall k :: 0 <= k < |cands| ==> cands[k] in StatusPriorityOrder
  {
    LastMaxBy(cands, SortRank)
  }

  /** The dominant candidate is a candidate, and no candidate has a greater
      escalation index. */
  lemma DominantIsMaximal(cands: seq<string>)
    requires cands != []
    requires forall k :: 0 <= k < |cands| ==> cands[k] in StatusPriorityOrder
    ensures Dominant(cands) in cands
    ensures forall k :: 0 <= k < |cands| ==> OrderIndex(cands[k]) <= OrderIndex(Dominant(cands))
  {
    var r := Dominant(cands);
    forall k | 0 <= k < |cands| ensures OrderIndex(cands[k]) <= OrderIndex(r) {
      assert SortRank(cands[k]) <= SortRank(r);
    }
  }

  /** The finished dates that the subtasks carry, in subtask order (`done_dates`). */
  function DoneDates(ss: seq<SubtaskRec>): seq<Timestamp>
  {
    if ss == [] then []
    else (if ss[0].finishedDate.Some? then [ss[0].finishedDate.value] else []) + DoneDates(ss[1..])
  }

  /** The done dates are exactly the subtasks' dates, and there are none exactly
      when no subtask carries a date. */
  lemma {:induction false} DoneDatesSpec(ss: seq<SubtaskRec>)
    ensures forall k :: 0 <= k < |DoneDates(ss)| ==>
              exists i :: 0 <= i < |ss| && ss[i].finishedDate == Some(DoneDates(ss)[k])
    ensures forall i :: 0 <= i < |ss| && ss[i].finishedDate.Some? ==> ss[i].finishedDate.value in DoneDates(ss)
    ensures DoneDates(ss) == [] <==> forall i :: 0 <= i < |ss| ==> ss[i].finishedDate.None?
  {
    if ss != [] {
      DoneDatesSpec(ss[1..]);
      assert forall i :: 1 <= i < |ss| ==> ss[i] == ss[1..][i - 1];
      var head := if ss[0].finishedDate.Some? then [ss[0].finishedDate.value] else [];
      var r := DoneDates(ss);
      assert r == head + DoneDates(ss[1..]);
      forall k | 0 <= k < |DoneDates(ss)|
        ensures exists i :: 0 <= i < |ss| && ss[i].finishedDate == Some(DoneDates(ss)[k])
      {
        if k < |head| {
          assert ss[0].finishedDate == Some(DoneDates(ss)[k]);
        } else {
          assert r[k] == DoneDates(ss[1..])[k - |head|];
          var i :| 0 <= i < |ss[1..]| && ss[1..][i].finishedDate == Some(DoneDates(ss[1..])[k - |head|]);
          assert 0 <= i + 1 < |ss| && ss[i + 1].finishedDate == Some(DoneDates(ss)[k]);
        }
      }
    } else {
      assert DoneDates(ss) == [];
    }
  }

  /** The finished date of a task whose subtasks are all Done: the latest subtask
      date (`max(done_dates)`), or `now` when no subtask carries one. */
  function LatestDateOr(ss: seq<SubtaskRec>, now: Timestamp): Timestamp
  {
    var dates := DoneDates(ss);
    if dates == [] then now else MaxStamp(dates)
  }

  /** The date is `now` when no subtask has a date, and otherwise the date of some
      subtask that no other subtask date exceeds. */
  lemma LatestDateOrIsLatest(ss: seq<SubtaskRec>, now: Timestamp)
    ensures (forall i :: 0 <= i < |ss| ==> ss[i].finishedDate.None?) ==> LatestDateOr(ss, now) == now
    ensures (exists i :: 0 <= i < |ss| && ss[i].finishedDate.Some?) ==>
              (exists i :: 0 <= i < |ss| && ss[i].finishedDate == Some(LatestDateOr(ss, now))) &&
              (forall i :: 0 <= i < |ss| && ss[i].finishedDate.Some? ==>
                 StampLe(ss[i].finishedDate.value, LatestDateOr(ss, now)))
  {
    DoneDatesSpec(ss);
    var dates := DoneDates(ss);
    if dates != [] {
      var d := MaxStamp(dates);
      forall j | 0 <= j < |ss| && ss[j].finishedDate.Some?
        ensures StampLe(ss[j].finishedDate.value, d)
      {
        var k :| 0 <= k < |dates| && dates[k] == ss[j].finishedDate.value;
      }
    }
  }

  /** A subtask date that no other subtask date exceeds is the latest date. */
  lemma LatestDateIsTheMaximum(ss: seq<SubtaskRec>, now: Timestamp, j: int)
    requires 0 <= j < |ss| && ss[j].finishedDate.Some?
    requires forall i :: 0 <= i < |ss| && ss[i].finishedDate.Some? ==>
               StampLe(ss[i].finishedDate.value, ss[j].finishedDate.value)
    ensures LatestDateOr(ss, now) == ss[j].finishedDate.value
  {
    LatestDateOrIsLatest(ss, now);
    var b := ss[j].finishedDate.value;
    var d := LatestDateOr(ss, now);
    var i :| 0 <= i < |ss| && ss[i].finishedDate == Some(d);
    assert StampLe(b, d) && StampLe(d, b);
    StampLeTotal(b, d);
  }

  /** The status of a task whose subtasks are neither all Done nor all ToDo: the
      dominant candidate, or On Hold when there is no candidate. */
  function MixedStatus(ss: seq<SubtaskRec>): string
    requires KnownStatuses(ss)
  {
    var cands := Candidates(ss);
    CandidatesAreKnown(ss);
    if cands == [] then OnHold else Dominant(cands)
  }

  /** The mixed status is one of STATI other than ToDo and Done. It is the subtask
      status with the greatest escalation index among those that are neither ToDo
      nor Done, or On Hold when every subtask is ToDo or Done. */
  lemma MixedStatusIsDominant(ss: seq<SubtaskRec>)
    requires KnownStatuses(ss)
    ensures Active(MixedStatus(ss)) && MixedStatus(ss) in Stati
    ensures (forall i :: 0 <= i < |ss| ==> !Active(ss[i].status)) ==> MixedStatus(ss) == OnHold
    ensures (exists i :: 0 <= i < |ss| && Active(ss[i].status)) ==>
              (exists i :: 0 <= i < |ss| && ss[i].status == MixedStatus(ss)) &&
              (forall i :: 0 <= i < |ss| && Active(ss[i].status) ==> OrderIndex(ss[i].status) <= OrderIndex(MixedStatus(ss)))
  {
    CandidatesSpec(ss);
    CandidatesAreKnown(ss);
    var cands := Candidates(ss);
    if cands != [] {
      DominantIsMaximal(cands);
      var d := Dominant(cands);
      StatiAndOrderAgree(d);
      var k :| 0 <= k < |cands| && cands[k] == d;
      forall j | 0 <= j < |ss| && Active(ss[j].status)
        ensures OrderIndex(ss[j].status) <= OrderIndex(d)
      {
        var k :| 0 <= k < |cands| && cands[k] == ss[j].status;
      }
    }
  }

  /** `Task.recompute_status_from_subtasks()`: derive the task's status and finished
      date from its subtasks. The source raises if a subtask status is unknown to
      the escalation order, hence the precondition. */
  function Recompute(t: TaskRec, now: Timestamp): TaskRec
    requires KnownStatuses(t.subtasks)
  {
    var ss := t.subtasks;
    if ss == [] then
      t.(finishedDate := FinishedDateFor(t.status, t.finishedDate, now))
    else if AllHave(ss, Done) then
      t.(status := Done, finishedDate := Some(LatestDateOr(ss, now)))
    else if AllHave(ss, ToDo) then
      t.(status := ToDo, finishedDate := None)
    else
      t.(status := MixedStatus(ss), finishedDate := None)
  }

  /** Recompute touches only the status and the finished date; afterwards a task
      has a finished date exactly when it is Done, and a task with subtasks has
      one of STATI as its status. */
  lemma RecomputeShape(t: TaskRec, now: Timestamp)
    requires KnownStatuses(t.subtasks)
    ensures var r := Recompute(t, now);
            r.title == t.title && r.description == t.description && r.priority == t.priority &&
            r.subtasks == t.subtasks &&
            (r.finishedDate.Some? <==> r.status == Done) &&
            (t.subtasks == [] ==> r.status == t.status) &&
            (t.subtasks != [] ==> r.status in Stati)
  {
    if t.subtasks != [] && !AllHave(t.subtasks, Done) && !AllHave(t.subtasks, ToDo) {
      MixedStatusIsDominant(t.subtasks);
    }
  }

  /** No subtasks: the status stays as it is and the finished date follows the
      set_status rule (kept or stamped when Done, cleared otherwise). */
  lemma RecomputeWithoutSubtasks(t: TaskRec, now: Timestamp)
    requires t.subtasks == []
    ensures Recompute(t, now).status == t.status
    ensures Recompute(t, now).finishedDate.Some? <==> t.status == Done
    ensures t.status == Done && t.finishedDate.Some? ==> Recompute(t, now).finishedDate == t.finishedDate
    ensures t.status == Done && t.finishedDate.None? ==> Recompute(t, now).finishedDate == Some(now)
  {
  }

  /** All subtasks Done: the task is Done, finished at the latest subtask date, or
      at `now` when no subtask carries a date. */
  lemma RecomputeAllDone(t: TaskRec, now: Timestamp)
    requires t.subtasks != [] && AllHave(t.subtasks, Done)
    ensures Recompute(t, now) == t.(status := Done, finishedDate := Some(LatestDateOr(t.subtasks, now)))
  {
  }

  /** All subtasks ToDo: the task is ToDo without a finished date. */
  lemma RecomputeAllToDo(t: TaskRec, now: Timestamp)
    requires t.subtasks != [] && AllHave(t.subtasks, ToDo)
    ensures Recompute(t, now) == t.(status := ToDo, finishedDate := None)
  {
    assert t.subtasks[0].status == ToDo;
  }

  /** Any other mix: the task takes the mixed status and has no finished date. */
  lemma RecomputeMixed(t: TaskRec, now: Timestamp)
    requires KnownStatuses(t.subtasks)
    requires t.subtasks != [] && !AllHave(t.subtasks, Done) && !AllHave(t.subtasks, ToDo)
    ensures Recompute(t, now) == t.(status := MixedStatus(t.subtasks), finishedDate := None)
  {
  }

  /** With subtasks, the recomputed task is Done exactly when every subtask is. */
  lemma RecomputeDoneIff(t: TaskRec, now: Timestamp)
    requires KnownStatuses(t.subtasks) && t.subtasks != []
    ensures Recompute(t, now).status == Done <==> AllHave(t.subtasks, Done)
  {
    if !AllHave(t.subtasks, Done) && !AllHave(t.subtasks, ToDo) {
      MixedStatusIsDominant(t.subtasks);
    }
  }

  /** With subtasks, the task's own status and date do not matter: two tasks with
      the same subtasks get the same status and date. */
  lemma RecomputeDependsOnlyOnSubtasks(t: TaskRec, u: TaskRec, now: Timestamp)
    requires KnownStatuses(t.subtasks)
    requires t.subtasks != [] && u.subtasks == t.subtasks
    ensures Recompute(t, now).status == Recompute(u, now).status
    ensures Recompute(t, now).finishedDate == Recompute(u, now).finishedDate
  {
  }

  /** Recomputing twice with the same clock is recomputing once. */
  lemma RecomputeIdempotent(t: TaskRec, now: Timestamp)
    requires KnownStatuses(t.subtasks)
    ensures Recompute(Recompute(t, now), now) == Recompute(t, now)
  {
    RecomputeShape(t, now);
  }

  /** A Done task whose Done subtasks carry no date gets the clock's reading as
      its finished date at every recompute, so the date moves with each call. */
  lemma RecomputeRestampsUndatedDone(t: TaskRec, now: Timestamp)
    requires t.subtasks != [] && AllHave(t.subtasks, Done)
    requires forall i :: 0 <= i < |t.subtasks| ==> t.subtasks[i].finishedDate.None?
    ensures Recompute(t, now).finishedDate == Some(now)
  {
    LatestDateOrIsLatest(t.subtasks, now);
  }

  // ---------------------------------------------------------------------------
  // Task.normalize

  /** `normalize()` applied to every subtask, in order. */
  function NormalizeAll(ss: seq<SubtaskRec>): seq<SubtaskRec>
  {
    seq(|ss|, i requires 0 <= i < |ss| => NormalizeSubtask(ss[i]))
  }

  /** The defaulted task that `normalize()` hands to the recompute step: unknown
      priority and status replaced, every subtask normalized. */
  function NormalizeFields(t: TaskRec): TaskRec
  {
    t.(priority := if t.priority in Prios then t.priority else DefaultPriority,
       status := if t.status in Stati then t.status else ToDo,
       subtasks := NormalizeAll(t.subtasks))
  }

  /** The defaulted task is fit for the recompute step. */
  lemma NormalizeFieldsSpec(t: TaskRec)
    ensures var r := NormalizeFields(t);
            KnownStatuses(r.subtasks) && r.priority in Prios && r.status in Stati &&
            forall i :: 0 <= i < |r.subtasks| ==> SubtaskNormalized(r.subtasks[i])
  {
    var subs := NormalizeAll(t.subtasks);
    forall i | 0 <= i < |subs| ensures subs[i].status in StatusPriorityOrder {
      StatiAndOrderAgree(subs[i].status);
    }
  }

  /** `Task.normalize()`: default an unknown priority and status, normalize every
      subtask, then recompute the derived status. */
  function NormalizeTask(t: TaskRec, now: Timestamp): TaskRec
  {
    NormalizeFieldsSpec(t);
    Recompute(NormalizeFields(t), now)
  }

  /** After `normalize()` the priority is one of PRIOS, the status one of STATI,
      the task has a finished date exactly when it is Done, and the subtasks are
      the normalized subtasks, same number and same order. */
  lemma NormalizeTaskSpec(t: TaskRec, now: Timestamp)
    ensures var r := NormalizeTask(t, now);
            TaskNormalized(r) &&
            r.title == t.title && r.description == t.description &&
            r.priority == (if t.priority in Prios then t.priority else DefaultPriority) &&
            |r.subtasks| == |t.subtasks| &&
            forall i :: 0 <= i < |t.subtasks| ==> r.subtasks[i] == NormalizeSubtask(t.subtasks[i])
  {
    NormalizeFieldsSpec(t);
    RecomputeShape(NormalizeFields(t), now);
  }

  /** Normalizing with the same clock twice gives what normalizing once gives. */
  lemma {:induction false} NormalizeTaskIdempotent(t: TaskRec, now: Timestamp)
    ensures NormalizeTask(NormalizeTask(t, now), now) == NormalizeTask(t, now)
  {
    var n := NormalizeTask(t, now);
    NormalizeTaskSpec(t, now);
    NormalizeFieldsSpec(n);
    var f := NormalizeFields(n);
    forall i | 0 <= i < |n.subtasks| ensures f.subtasks[i] == n.subtasks[i] {
      NormalizeSubtaskFixesNormalized(n.subtasks[i]);
    }
    assert f == n;
    var m := NormalizeFields(t);
    NormalizeFieldsSpec(t);
    RecomputeIdempotent(m, now);
  }

  /** A normalized task whose status and date already agree with its subtasks
      (as the recompute step leaves them) is a fixed point of normalization. */
  lemma NormalizeTaskFixesDerived(t: TaskRec, now: Timestamp)
    requires TaskNormalized(t)
    requires KnownStatuses(t.subtasks) && Recompute(t, now) == t
    ensures NormalizeTask(t, now) == t
  {
    assert NormalizeAll(t.subtasks) == t.subtasks by {
      forall i | 0 <= i < |t.subtasks| ensures NormalizeAll(t.subtasks)[i] == t.subtasks[i] {
        NormalizeSubtaskFixesNormalized(t.subtasks[i]);
      }
    }
    assert NormalizeFields(t) == t;
  }

  // ---------------------------------------------------------------------------
  // Worked examples

  /** Of two dated subtasks, the later date is the latest. */
  lemma LatestOfTwo(ss: seq<SubtaskRec>, now: Timestamp)
    requires |ss| == 2 && ss[0].finishedDate.Some? && ss[1].finishedDate.Some?
    requires StampLe(ss[0].finishedDate.value, ss[1].finishedDate.value)
    ensures LatestDateOr(ss, now) == ss[1].finishedDate.value
  {
    forall i | 0 <= i < |ss| && ss[i].finishedDate.Some?
      ensures StampLe(ss[i].finishedDate.value, ss[1].finishedDate.value)
    {
      if i == 1 { StampLeTotal(ss[1].finishedDate.value, ss[1].finishedDate.value); }
    }
    LatestDateIsTheMaximum(ss, now, 1);
  }

  /** Two Done subtasks finished on 2025-01-01 and 2025-01-03: the task is Done on 2025-01-03. */
  lemma ExampleLatestSubtaskDateWins(t: TaskRec, now: Timestamp)
    requires |t.subtasks| == 2
    requires t.subtasks[0].status == Done && t.subtasks[0].finishedDate == Some(Timestamp(2025, 1, 1, 0, 0, 0))
    requires t.subtasks[1].status == Done && t.subtasks[1].finishedDate == Some(Timestamp(2025, 1, 3, 0, 0, 0))
    ensures Recompute(t, now).status == Done
    ensures Recompute(t, now).finishedDate == Some(Timestamp(2025, 1, 3, 0, 0, 0))
  {
    assert AllHave(t.subtasks, Done);
    RecomputeAllDone(t, now);
    LatestOfTwo(t.subtasks, now);
  }

  /** Two subtasks that are neither ToDo nor Done are both candidates, in order. */
  lemma CandidatesOfTwo(ss: seq<SubtaskRec>)
    requires |ss| == 2 && Active(ss[0].status) && Active(ss[1].status)
    ensures Candidates(ss) == [ss[0].status, ss[1].status]
  {
    assert ss[1..][1..] == [];
    assert Candidates(ss[1..]) == [ss[1].status] + Candidates(ss[1..][1..]);
  }

  /** On Hold has escalation index 5 and "Warte auf Antwort" index 3. */
  lemma OnHoldDominatesWaiting()
    ensures Dominant([OnHold, "Warte auf Antwort"]) == OnHold
  {
    assert OrderIndex(OnHold) == 5 && OrderIndex("Warte auf Antwort") == 3;
    assert [OnHold, "Warte auf Antwort"][1..] == ["Warte auf Antwort"];
  }

  /** Candidates On Hold and "Warte auf Antwort": the mixed status is On Hold. */
  lemma MixedOfOnHoldAndWaitingCandidates(ss: seq<SubtaskRec>)
    requires KnownStatuses(ss) && Candidates(ss) == [OnHold, "Warte auf Antwort"]
    ensures MixedStatus(ss) == OnHold
  {
    OnHoldDominatesWaiting();
  }

  lemma MixedOfOnHoldAndWaiting(ss: seq<SubtaskRec>)
    requires |ss| == 2
    requires ss[0].status == OnHold && ss[1].status == "Warte auf Antwort"
    ensures KnownStatuses(ss) && MixedStatus(ss) == OnHold
  {
    CandidatesOfTwo(ss);
    MixedOfOnHoldAndWaitingCandidates(ss);
  }

  /** Subtasks On Hold and "Warte auf Antwort": On Hold has the greater escalation index. */
  lemma ExampleOnHoldDominatesWaiting(t: TaskRec, now: Timestamp)
    requires |t.subtasks| == 2
    requires t.subtasks[0].status == OnHold && t.subtasks[1].status == "Warte auf Antwort"
    ensures Recompute(t, now).status == OnHold
    ensures Recompute(t, now).finishedDate == None
  {
    MixedOfOnHoldAndWaiting(t.subtasks);
    assert !AllHave(t.subtasks, Done) && !AllHave(t.subtasks, ToDo) by {
      assert t.subtasks[0].status == OnHold;
    }
    RecomputeMixed(t, now);
  }

  /** Subtasks ToDo and Done, as the code is written: On Hold, without a finished date. */
  lemma ExampleToDoAndDoneGiveOnHold(t: TaskRec, now: Timestamp)
    requires |t.subtasks| == 2
    requires t.subtasks[0].status == ToDo && t.subtasks[1].status == Done
    ensures Recompute(t, now).status == OnHold
    ensures Recompute(t, now).finishedDate == None
  {
    assert !AllHave(t.subtasks, Done) && !AllHave(t.subtasks, ToDo) by {
      assert t.subtasks[0].status == ToDo && t.subtasks[1].status == Done;
    }
    assert forall i :: 0 <= i < |t.subtasks| ==> !Active(t.subtasks[i].status);
    MixedStatusIsDominant(t.subtasks);
    RecomputeMixed(t, now);
  }

  /** Two ToDo subtasks: the task is ToDo without a finished date. */
  lemma ExampleAllToDo(t: TaskRec, now: Timestamp)
    requires |t.subtasks| == 2
    requires t.subtasks[0].status == ToDo && t.subtasks[1].status == ToDo
    ensures Recompute(t, now).status == ToDo
    ensures Recompute(t, now).finishedDate == None
  {
    assert AllHave(t.subtasks, ToDo);
    RecomputeAllToDo(t, now);
  }
}
