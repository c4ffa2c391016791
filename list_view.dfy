/** entrypoints/content/App.tsx: the list tab of the assignments dialog. Each class's
    fetched assignments are filtered (finished-and-late work, hidden assignments, the
    checkbox filters), sorted by the chosen date and direction, and classes with nothing
    left are dropped. */
module ListView {
  import opened Types
  import opened Seqs
  import opened Utils
  import opened Filters

  /** `applyFilters`: the guard chain over status, type and group type. */
  function ApplyFilters(f: FilterState, a: Activity): bool
  {
    var status := SubmissionStatus(a);
    if (status == Submitted || status == SubmittedLate) && !f.submitted then false
    else if (status == NotSubmitted || status == InProgress || status == QuizNotSubmitted) && !f.notSubmitted then false
    else
      var isAssignment := a.kind == "ASM";
      if isAssignment && !f.assignment then false
      else if !isAssignment && !f.quiz then false
      else
        var isIndividual := a.groupType == "IND";
        if isIndividual && !f.individual then false
        else if !isIndividual && !f.group then false
        else true
  }

  /** Each flag gates exactly its side: `submitted` the handed-in statuses and `notSubmitted`
      the other three, `assignment` type `ASM` and `quiz` every other type, `individual` group
      type `IND` and `group` every other group type. */
  lemma ApplyFiltersGates(f: FilterState, a: Activity)
    ensures ApplyFilters(f, a) <==>
      (if IsSubmitted(a) then f.submitted else f.notSubmitted)
      && (if a.kind == "ASM" then f.assignment else f.quiz)
      && (if a.groupType == "IND" then f.individual else f.group)
  {
  }

  /** With the default filters every assignment passes. */
  lemma AllShownAcceptsEverything(a: Activity)
    ensures ApplyFilters(AllShown, a)
  {
  }

  /** `SortState` of components/assignment-sort.tsx. */
  datatype SortBy = ByDueDate | ByPostedDate
  datatype Direction = Asc | Desc
  datatype SortState = SortState(sortBy: SortBy, direction: Direction)

  /** `new Date(a.due_date).getTime()` or `new Date(a.start_date).getTime()`. */
  function SortKey(st: SortState, a: Activity): int
  {
    match st.sortBy
    case ByDueDate => DateValue(a.dueDate)
    case ByPostedDate => a.startDate
  }

  /** The comparator handed to `sort`. */
  function Compare(st: SortState, a: Activity, b: Activity): int
  {
    var comparison := SortKey(st, a) - SortKey(st, b);
    if st.direction == Asc then comparison else -comparison
  }

  /** `a` may stay in front of `b`: the comparator does not ask to swap them. */
  predicate Precedes(st: SortState, a: Activity, b: Activity)
  {
    Compare(st, a, b) <= 0
  }

  /** Every earlier element may stay in front of every later one. */
  predicate Sorted(st: SortState, s: seq<Activity>)
  {
    forall i, j :: 0 <= i < j < |s| ==> Precedes(st, s[i], s[j])
  }

  /** Sorted means non-decreasing keys for `asc` and non-increasing keys for `desc`. */
  lemma SortedMeansOrderedKeys(st: SortState, s: seq<Activity>)
    requires Sorted(st, s)
    ensures st.direction == Asc ==> forall i, j :: 0 <= i < j < |s| ==> SortKey(st, s[i]) <= SortKey(st, s[j])
    ensures st.direction == Desc ==> forall i, j :: 0 <= i < j < |s| ==> SortKey(st, s[i]) >= SortKey(st, s[j])
  {
  }

  /** Places `x` after every element the comparator does not put behind it. */
  function Insert(st: SortState, t: seq<Activity>, x: Activity): (r: seq<Activity>)
    ensures multiset(r) == multiset(t) + multiset{x}
  {
    if t == [] then [x]
    else if Precedes(st, t[|t| - 1], x) then t + [x]
    else
      assert t == t[..|t| - 1] + [t[|t| - 1]];
      Insert(st, t[..|t| - 1], x) + [t[|t| - 1]]
  }

  lemma {:induction false} InsertSorted(st: SortState, t: seq<Activity>, x: Activity)
    requires Sorted(st, t)
    ensures Sorted(st, Insert(st, t, x))
  {
    if t != [] {
      var last := t[|t| - 1];
      var init := t[..|t| - 1];
      if Precedes(st, last, x) {
        var r := t + [x];
        forall i, j | 0 <= i < j < |r| ensures Precedes(st, r[i], r[j]) {
          if j == |t| && i < |t| - 1 {
            assert Precedes(st, t[i], last);
          }
        }
      } else {
        InsertSorted(st, init, x);
        var front := Insert(st, init, x);
        var r := front + [last];
        forall i, j | 0 <= i < j < |r| ensures Precedes(st, r[i], r[j]) {
          if j == |front| {
            var y := front[i];
            assert y in multiset(front);
            if y != x {
              assert y in init;
              var k :| 0 <= k < |init| && init[k] == y;
              assert t[k] == y;
            }
          }
        }
      }
    }
  }

  /** `[...assignments].sort(comparator)`: a stable sort, as `Array.prototype.sort` is, so the
      result is the one sorted permutation that keeps equal keys in input order. */
  function SortAssignments(st: SortState, assignments: seq<Activity>): (r: seq<Activity>)
    ensures multiset(r) == multiset(assignments)
  {
    if assignments == [] then []
    else
      var init := assignments[..|assignments| - 1];
      assert assignments == init + [assignments[|assignments| - 1]];
      Insert(st, SortAssignments(st, init), assignments[|assignments| - 1])
  }

  /** The sorted copy is a permutation of the input, in comparator order. */
  lemma {:induction false} SortAssignmentsSorted(st: SortState, assignments: seq<Activity>)
    ensures Sorted(st, SortAssignments(st, assignments))
    ensures multiset(SortAssignments(st, assignments)) == multiset(assignments)
  {
    if assignments != [] {
      var init := assignments[..|assignments| - 1];
      SortAssignmentsSorted(st, init);
      InsertSorted(st, SortAssignments(st, init), assignments[|assignments| - 1]);
    }
  }

  function SameKey(st: SortState, k: int): Activity -> bool
  {
    (a: Activity) => SortKey(st, a) == k
  }

  lemma {:induction false} InsertStable(st: SortState, t: seq<Activity>, x: Activity, k: int)
    ensures Filter(SameKey(st, k), Insert(st, t, x)) == Filter(SameKey(st, k), t) + Filter(SameKey(st, k), [x])
  {
    var p := SameKey(st, k);
    if t == [] {
      assert Filter(p, t) == [];
    } else {
      var last := t[|t| - 1];
      var init := t[..|t| - 1];
      if Precedes(st, last, x) {
        FilterAppend(p, t, [x]);
      } else {
        var front := Insert(st, init, x);
        assert Insert(st, t, x) == front + [last];
        InsertStable(st, init, x, k);
        FilterAppend(p, front, [last]);
        assert t == init + [last];
        FilterAppend(p, init, [last]);
        SwapApart(p, Filter(p, init), x, last);
      }
    }
  }

  /** Two neighbours that do not both pass `p` can be swapped without changing what `p` keeps. */
  lemma SwapApart<T>(p: T -> bool, prefix: seq<T>, x: T, y: T)
    requires !(p(x) && p(y))
    ensures prefix + Filter(p, [x]) + Filter(p, [y]) == prefix + Filter(p, [y]) + Filter(p, [x])
  {
    FilterSingleton(p, x);
    FilterSingleton(p, y);
  }

  /** The sort is stable: the assignments sharing any one key come out in their input order. */
  lemma {:induction false} SortStable(st: SortState, assignments: seq<Activity>, k: int)
    ensures Filter(SameKey(st, k), SortAssignments(st, assignments)) == Filter(SameKey(st, k), assignments)
  {
    if assignments != [] {
      var init := assignments[..|assignments| - 1];
      var last := assignments[|assignments| - 1];
      SortStable(st, init, k);
      InsertStable(st, SortAssignments(st, init), last, k);
      assert assignments == init + [last];
      FilterAppend(SameKey(st, k), init, [last]);
    }
  }

  /** What the list view is configured with: stored hidden ids, filters and sort order. */
  datatype View = View(hiddenClasses: seq<nat>, hiddenAssignments: seq<nat>, filters: FilterState, sort: SortState)

  predicate DueDateExceeded(a: Activity)
  {
    a.dueDateExceed
  }

  /** `!exceededAssignments.includes(a) || !submittedAssignments.includes(a)`. */
  function NotInBoth(exceededAssignments: seq<Activity>, submittedAssignments: seq<Activity>): Activity -> bool
  {
    (a: Activity) => a !in exceededAssignments || a !in submittedAssignments
  }

  /** `!hiddenAssignments.includes(a.id)`. */
  function NotHidden(hiddenAssignments: seq<nat>): Activity -> bool
  {
    (a: Activity) => a.id !in hiddenAssignments
  }

  function PassesFilters(f: FilterState): Activity -> bool
  {
    (a: Activity) => ApplyFilters(f, a)
  }

  /** The three chained filters over one class's query, literally: membership in the
      submitted and the exceeded sub-lists, then hidden ids, then `applyFilters`. */
  function FilteredAssignments(query: seq<Activity>, v: View): seq<Activity>
  {
    var submittedAssignments := Filter(IsSubmitted, query);
    var exceededAssignments := Filter(DueDateExceeded, query);
    Filter(PassesFilters(v.filters),
      Filter(NotHidden(v.hiddenAssignments),
        Filter(NotInBoth(exceededAssignments, submittedAssignments), query)))
  }

  /** An assignment stays in the list unless it is both past due and handed in, hidden,
      or refused by the filters. */
  predicate Kept(v: View, a: Activity)
  {
    !(a.dueDateExceed && IsSubmitted(a)) && a.id !in v.hiddenAssignments && ApplyFilters(v.filters, a)
  }

  function KeptBy(v: View): Activity -> bool
  {
    (a: Activity) => Kept(v, a)
  }

  function NotFinished(): Activity -> bool
  {
    (a: Activity) => !(a.dueDateExceed && IsSubmitted(a))
  }

  function NotFinishedNorHidden(v: View): Activity -> bool
  {
    (a: Activity) => !(a.dueDateExceed && IsSubmitted(a)) && a.id !in v.hiddenAssignments
  }

  /** The chain keeps exactly the assignments satisfying `Kept`, in query order. */
  lemma FilteredAssignmentsExact(query: seq<Activity>, v: View)
    ensures FilteredAssignments(query, v) == Filter(KeptBy(v), query)
  {
    var submittedAssignments := Filter(IsSubmitted, query);
    var exceededAssignments := Filter(DueDateExceeded, query);
    forall a | a in query ensures NotInBoth(exceededAssignments, submittedAssignments)(a) == NotFinished()(a) {
      FilterMember(IsSubmitted, query, a);
      FilterMember(DueDateExceeded, query, a);
    }
    FilterCongruent(NotInBoth(exceededAssignments, submittedAssignments), NotFinished(), query);
    FilterFilter(NotFinished(), NotHidden(v.hiddenAssignments), NotFinishedNorHidden(v), query);
    FilterFilter(NotFinishedNorHidden(v), PassesFilters(v.filters), KeptBy(v), query);
  }

  /** One element of `visibleClasses`. */
  datatype Entry = Skeleton(index: nat) | ClassEntry(info: ClassInfo, assignments: seq<Activity>)

  /** The map callback for class `i`; `None` is the `null` that the final filter drops. */
  function EntryAt(pending: bool, data: seq<Option<seq<Activity>>>, classes: seq<ClassInfo>, v: View, i: nat): Option<Entry>
    requires |data| == |classes| && i < |data|
  {
    if pending then Some(Skeleton(i))
    else
      var classInfo := classes[i];
      if classInfo.id in v.hiddenClasses then None
      else if data[i].None? || |data[i].value| == 0 then None
      else
        var sortedAssignments := SortAssignments(v.sort, FilteredAssignments(data[i].value, v));
        if |sortedAssignments| == 0 then None else Some(ClassEntry(classInfo, sortedAssignments))
  }

  /** The map over the classes, before the `null`s are dropped. */
  function ClassEntries(pending: bool, data: seq<Option<seq<Activity>>>, classes: seq<ClassInfo>, v: View): (r: seq<Option<Entry>>)
    requires |data| == |classes|
    ensures |r| == |data|
    ensures pending ==> forall i :: 0 <= i < |data| ==> r[i] == Some(Skeleton(i))
    ensures !pending ==> forall i :: 0 <= i < |data| ==>
      r[i] == if Shown(data, classes, v, i) then Some(ShownEntry(data, classes, v, i)) else None
  {
    EachEntryShown(data, classes, v);
    seq(|data|, (i: int) requires 0 <= i < |data| => EntryAt(pending, data, classes, v, i))
  }

  /** `visibleClasses`: `data[i]` is the query result of `classes[i]` (both come from the
      same `allClassInfo`), `pending` is true while any query is loading. */
  function VisibleClasses(pending: bool, data: seq<Option<seq<Activity>>>, classes: seq<ClassInfo>, v: View): seq<Entry>
    requires |data| == |classes|
  {
    Somes(ClassEntries(pending, data, classes, v))
  }

  /** Class `i` is not hidden, its query has data, and some of its assignments survive. */
  predicate Shown(data: seq<Option<seq<Activity>>>, classes: seq<ClassInfo>, v: View, i: nat)
    requires |data| == |classes| && i < |data|
  {
    classes[i].id !in v.hiddenClasses && data[i].Some? && Filter(KeptBy(v), data[i].value) != []
  }

  /** The entry of class `i`: the class with its surviving assignments, sorted. */
  function ShownEntry(data: seq<Option<seq<Activity>>>, classes: seq<ClassInfo>, v: View, i: nat): Entry
    requires |data| == |classes| && i < |data| && data[i].Some?
  {
    ClassEntry(classes[i], SortAssignments(v.sort, Filter(KeptBy(v), data[i].value)))
  }

  /** Once loaded, class `i` yields its entry exactly when it is shown. */
  lemma EntryAtShown(data: seq<Option<seq<Activity>>>, classes: seq<ClassInfo>, v: View, i: nat)
    requires |data| == |classes| && i < |data|
    ensures EntryAt(false, data, classes, v, i) == if Shown(data, classes, v, i) then Some(ShownEntry(data, classes, v, i)) else None
  {
    if data[i].Some? {
      FilteredAssignmentsExact(data[i].value, v);
      var kept := Filter(KeptBy(v), data[i].value);
      assert |SortAssignments(v.sort, kept)| == |kept| by {
        assert |multiset(SortAssignments(v.sort, kept))| == |multiset(kept)|;
      }
    }
  }

  lemma EachEntryShown(data: seq<Option<seq<Activity>>>, classes: seq<ClassInfo>, v: View)
    requires |data| == |classes|
    ensures forall i :: 0 <= i < |data| ==>
      EntryAt(false, data, classes, v, i) == if Shown(data, classes, v, i) then Some(ShownEntry(data, classes, v, i)) else None
  {
    forall i | 0 <= i < |data| {
      EntryAtShown(data, classes, v, i);
    }
  }

  /** While loading, one skeleton per class, in order. */
  lemma PendingShowsSkeletons(data: seq<Option<seq<Activity>>>, classes: seq<ClassInfo>, v: View)
    requires |data| == |classes|
    ensures |VisibleClasses(true, data, classes, v)| == |data|
    ensures forall i :: 0 <= i < |data| ==> VisibleClasses(true, data, classes, v)[i] == Skeleton(i)
  {
    SomesAllPresent(ClassEntries(true, data, classes, v));
  }

  /** Once loaded, the entries are exactly the entries of the shown classes: the non-hidden
      classes with at least one surviving assignment, each carrying its sorted survivors. */
  lemma LoadedShowsExactlyVisible(data: seq<Option<seq<Activity>>>, classes: seq<ClassInfo>, v: View, e: Entry)
    requires |data| == |classes|
    ensures e in VisibleClasses(false, data, classes, v) <==>
      exists i :: 0 <= i < |data| && Shown(data, classes, v, i) && e == ShownEntry(data, classes, v, i)
  {
    var os := ClassEntries(false, data, classes, v);
    SomesMembers(os, e);
    if e in VisibleClasses(false, data, classes, v) {
      var i :| 0 <= i < |os| && os[i] == Some(e);
      EntryAtShown(data, classes, v, i);
    }
    if exists i :: 0 <= i < |data| && Shown(data, classes, v, i) && e == ShownEntry(data, classes, v, i) {
      var i :| 0 <= i < |data| && Shown(data, classes, v, i) && e == ShownEntry(data, classes, v, i);
      EntryAtShown(data, classes, v, i);
      assert os[i] == Some(e);
    }
  }

  /** A hidden class never appears once loaded, and neither does a class whose filtered list is empty. */
  lemma HiddenOrEmptyClassAbsent(data: seq<Option<seq<Activity>>>, classes: seq<ClassInfo>, v: View, e: Entry)
    requires |data| == |classes| && e in VisibleClasses(false, data, classes, v)
    ensures e.ClassEntry? && e.info.id !in v.hiddenClasses && e.assignments != []
  {
    LoadedShowsExactlyVisible(data, classes, v, e);
    var i :| 0 <= i < |data| && Shown(data, classes, v, i) && e == ShownEntry(data, classes, v, i);
    var kept := Filter(KeptBy(v), data[i].value);
    assert |SortAssignments(v.sort, kept)| == |kept| by {
      assert |multiset(SortAssignments(v.sort, kept))| == |multiset(kept)|;
    }
  }
}
