/** What `refresh_tree_view` decides before it builds the tree: which tasks the
    filters and the search let through (`task_visible`) and the key the tasks are
    sorted by (`sort_key`). The combo boxes and the search field are reduced to
    the strings they hold. */
module View {
  import opened Domain
  import opened Text

  /** The filter entry that lets every status or priority through. */
  const All: string := "Alle"

  /** The current texts of the status filter, the priority filter and the
      search field. */
  datatype Filter = Filter(status: string, priority: string, search: string)

  /** The search text as the view compares it: lower-cased, then stripped. */
  function Query(search: string): string
  {
    Strip(Lower(search))
  }

  /** `task_visible(t)`. */
  predicate TaskVisible(t: TaskRec, f: Filter)
  {
    var query := Query(f.search);
    if f.status != All && t.status != f.status then false
    else if f.priority != All && t.priority != f.priority then false
    else if query != [] && !Contains(Lower(t.title), query) && !Contains(Lower(t.description), query) then false
    else true
  }

  /** Lower-casing turns no character into white space and none out of it. */
  lemma LowerKeepsSpace(s: string)
    ensures AllSpace(Lower(s)) <==> AllSpace(s)
  {
    assert forall i :: 0 <= i < |s| ==> (IsSpace(Lower(s)[i]) <==> IsSpace(s[i]));
  }

  /** A task is shown exactly when its status matches the status filter (or that
      is "Alle"), its priority matches the priority filter (or that is "Alle"),
      and the search is blank or occurs, ignoring case, in its title or its
      description. */
  lemma TaskVisibleIff(t: TaskRec, f: Filter)
    ensures TaskVisible(t, f) <==>
              (f.status == All || t.status == f.status) &&
              (f.priority == All || t.priority == f.priority) &&
              (AllSpace(f.search) ||
               (exists i :: OccursAt(Lower(t.title), Query(f.search), i)) ||
               (exists i :: OccursAt(Lower(t.description), Query(f.search), i)))
  {
    StripEmptyIffBlank(Lower(f.search));
    LowerKeepsSpace(f.search);
    ContainsIffOccurs(Lower(t.title), Query(f.search));
    ContainsIffOccurs(Lower(t.description), Query(f.search));
  }

  /** With both filters on "Alle" and a blank search every task is shown. */
  lemma NoFilterShowsAll(t: TaskRec, search: string)
    requires AllSpace(search)
    ensures TaskVisible(t, Filter(All, All, search))
  {
    StripEmptyIffBlank(Lower(search));
    LowerKeepsSpace(search);
  }

  // ---------------------------------------------------------------------------
  // sort_key

  /** The value `sort_key` returns: a list index, a lower-cased title, or a
      date. */
  datatype SortKey = Rank(n: int) | Word(w: string) | Date(d: Timestamp)

  /** `datetime.min`, the key of a task without a finished date. */
  const MinStamp: Timestamp := Timestamp(1, 1, 1, 0, 0, 0)

  /** The fields are within the ranges a `datetime` allows from below. */
  predicate InDateTimeRange(d: Timestamp)
  {
    d.year >= 1 && d.month >= 1 && d.day >= 1 && d.hour >= 0 && d.minute >= 0 && d.second >= 0
  }

  /** `sort_key(t)` for the sort field `keyName`, or None where `list.index`
      raises because the priority or the status is not in its list. An unknown
      field sorts by title. */
  function SortKeyOf(t: TaskRec, keyName: string): Option<SortKey>
  {
    if keyName == "Priorität" then
      if t.priority in Prios then Some(Rank(IndexOf(Prios, t.priority))) else None
    else if keyName == "Status" then
      if t.status in StatusPriorityOrder then Some(Rank(OrderIndex(t.status))) else None
    else if keyName == "Titel" then Some(Word(Lower(t.title)))
    else if keyName == "Fertig am" then
      Some(Date(if t.finishedDate.Some? then t.finishedDate.value else MinStamp))
    else Some(Word(Lower(t.title)))
  }

  /** Python's `<=` on strings: code point by code point. */
  predicate WordLe(a: string, b: string)
    decreases |a|
  {
    a == [] || (b != [] && (a[0] < b[0] || (a[0] == b[0] && WordLe(a[1..], b[1..]))))
  }

  lemma {:induction false} WordLeTotal(a: string, b: string)
    ensures WordLe(a, b) || WordLe(b, a)
    decreases |a|
  {
    if a != [] && b != [] && a[0] == b[0] {
      WordLeTotal(a[1..], b[1..]);
    }
  }

  lemma {:induction false} WordLeTransitive(a: string, b: string, c: string)
    requires WordLe(a, b) && WordLe(b, c)
    ensures WordLe(a, c)
    decreases |a|
  {
    if a != [] && a[0] == b[0] && b[0] == c[0] {
      WordLeTransitive(a[1..], b[1..], c[1..]);
    }
  }

  /** Python's `<=` on two keys of the same kind; keys of different kinds do not
      compare. */
  predicate KeyLe(a: SortKey, b: SortKey)
  {
    match (a, b)
    case (Rank(x), Rank(y)) => x <= y
    case (Word(x), Word(y)) => WordLe(x, y)
    case (Date(x), Date(y)) => StampLe(x, y)
    case _ => false
  }

  /** The two keys are of the same kind. */
  predicate SameKind(a: SortKey, b: SortKey)
  {
    (a.Rank? && b.Rank?) || (a.Word? && b.Word?) || (a.Date? && b.Date?)
  }

  /** A normalized task always has a key, and for one sort field all keys are of
      one kind, so `sorted` never raises on the normalized task list. */
  lemma SortKeyDefined(t: TaskRec, u: TaskRec, keyName: string)
    requires TaskNormalized(t) && TaskNormalized(u)
    ensures SortKeyOf(t, keyName).Some? && SortKeyOf(u, keyName).Some?
    ensures SameKind(SortKeyOf(t, keyName).value, SortKeyOf(u, keyName).value)
  {
    StatiAndOrderAgree(t.status);
    StatiAndOrderAgree(u.status);
  }

  /** On keys of one kind the order is total and transitive, so the tasks are
      sorted consistently. */
  lemma KeyLeIsTotalPreorder(a: SortKey, b: SortKey, c: SortKey)
    requires SameKind(a, b) && SameKind(b, c)
    ensures KeyLe(a, b) || KeyLe(b, a)
    ensures KeyLe(a, b) && KeyLe(b, c) ==> KeyLe(a, c)
  {
    match a
    case Rank(_) =>
    case Word(x) =>
      WordLeTotal(x, b.w);
      if KeyLe(a, b) && KeyLe(b, c) {
        WordLeTransitive(x, b.w, c.w);
      }
    case Date(x) =>
      StampLeTotal(x, b.d);
      if KeyLe(a, b) && KeyLe(b, c) {
        StampLeTransitive(x, b.d, c.d);
      }
  }

  /** Sorting by priority follows the priority list: the key rises from
      Niedrig to Kritisch. */
  lemma PriorityKeyFollowsPrios(t: TaskRec, u: TaskRec)
    requires t.priority in Prios && u.priority in Prios
    ensures KeyLe(SortKeyOf(t, "Priorität").value, SortKeyOf(u, "Priorität").value) <==>
            IndexOf(Prios, t.priority) <= IndexOf(Prios, u.priority)
  {
  }

  /** Sorting by status follows the escalation order, not the display order:
      "Warte auf Antwort" sorts before "Meeting vereinbart", which the display
      order puts first. */
  lemma StatusKeyFollowsEscalation(t: TaskRec)
    ensures var waiting := t.(status := "Warte auf Antwort");
            var meeting := t.(status := "Meeting vereinbart");
            KeyLe(SortKeyOf(waiting, "Status").value, SortKeyOf(meeting, "Status").value) &&
            !KeyLe(SortKeyOf(meeting, "Status").value, SortKeyOf(waiting, "Status").value) &&
            IndexOf(Stati, "Meeting vereinbart") < IndexOf(Stati, "Warte auf Antwort")
  {
    assert StatusPriorityOrder[3] == "Warte auf Antwort" && StatusPriorityOrder[4] == "Meeting vereinbart";
    assert Stati[1] == "Meeting vereinbart" && Stati[3] == "Warte auf Antwort";
  }

  /** Sorting by finished date puts a task without a date no later than any task
      with a date (every date is at or after `datetime.min`). */
  lemma UndatedSortsFirst(t: TaskRec, u: TaskRec)
    requires t.finishedDate.None?
    requires u.finishedDate.Some? ==> InDateTimeRange(u.finishedDate.value)
    ensures KeyLe(SortKeyOf(t, "Fertig am").value, SortKeyOf(u, "Fertig am").value)
  {
  }

  /** An unknown sort field sorts by title, as "Titel" does. */
  lemma UnknownFieldSortsByTitle(t: TaskRec, keyName: string)
    requires keyName !in ["Priorität", "Status", "Titel", "Fertig am"]
    ensures SortKeyOf(t, keyName) == SortKeyOf(t, "Titel")
  {
  }

  // ---------------------------------------------------------------------------
  // The tasks the tree shows

  /** The tasks of `ts` that are visible, in their order. */
  function Visible(ts: seq<TaskRec>, f: Filter): seq<TaskRec>
  {
    if ts == [] then []
    else Visible(ts[..|ts| - 1], f) + (if TaskVisible(ts[|ts| - 1], f) then [ts[|ts| - 1]] else [])
  }

  /** The loop over the sorted tasks that skips the invisible ones. */
  method ShownTasks(sorted: seq<TaskRec>, f: Filter) returns (shown: seq<TaskRec>)
    ensures shown == Visible(sorted, f)
  {
    shown := [];
    for i := 0 to |sorted|
      invariant shown == Visible(sorted[..i], f)
    {
      assert sorted[..i + 1][..i] == sorted[..i];
      if TaskVisible(sorted[i], f) {
        shown := shown + [sorted[i]];
      }
    }
    assert sorted[..|sorted|] == sorted;
  }

  /** The shown tasks are exactly the visible ones, each as often as in the
      list, and none is added. */
  lemma {:induction false} VisibleSpec(ts: seq<TaskRec>, f: Filter)
    ensures |Visible(ts, f)| <= |ts|
    ensures forall t :: t in Visible(ts, f) <==> t in ts && TaskVisible(t, f)
    ensures forall t :: TaskVisible(t, f) ==> multiset(Visible(ts, f))[t] == multiset(ts)[t]
  {
    if ts != [] {
      var init, last := ts[..|ts| - 1], ts[|ts| - 1];
      VisibleSpec(init, f);
      assert ts == init + [last];
    } else {
      assert Visible(ts, f) == [];
    }
  }
}
