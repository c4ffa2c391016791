/** components/calendar-view.tsx: the calendar tab. The fetched lists of all classes are
    flattened and narrowed to a date range, the in-range assignments are bucketed by day,
    the month grid is cut into weeks of seven days, and each cell shows at most a fixed
    number of assignments followed by a "+k more" entry. Days are opaque identifiers and
    the calendar day of a timestamp is a parameter `dayOf`. */
module Calendar {
  import opened Types
  import opened Seqs
  import opened ListView
  import opened Filters

  /** `allAssignments.flat()`: a class whose query has no data yet is an `undefined`
      element of the outer list, which `flat` keeps as an element of the result. */
  function Flat(allAssignments: seq<Option<seq<Activity>>>): (r: seq<Option<Activity>>)
  {
    if allAssignments == [] then []
    else
      (match allAssignments[0] case None => [None] case Some(list) => Wrap(list))
      + Flat(allAssignments[1..])
  }

  /** Each activity of a defined list as a defined element. */
  function Wrap(list: seq<Activity>): (r: seq<Option<Activity>>)
    ensures |r| == |list|
    ensures forall i :: 0 <= i < |list| ==> r[i] == Some(list[i])
  {
    if list == [] then [] else [Some(list[0])] + Wrap(list[1..])
  }

  /** The range callback: drop `undefined`, hidden ids and what `applyFilters` refuses, then
      keep a due date inside `[start, end]`; a missing due date reads as the epoch. */
  function RangeGuard(hiddenAssignments: seq<nat>, filters: FilterState, start: int, end: int): Option<Activity> -> bool
  {
    (o: Option<Activity>) =>
      if o.None? then false
      else if o.value.id in hiddenAssignments then false
      else if !ApplyFilters(filters, o.value) then false
      else start <= DateValue(o.value.dueDate) && DateValue(o.value.dueDate) <= end
  }

  /** `getAssignmentsForRange(start, end)`. */
  function AssignmentsForRange(allAssignments: seq<Option<seq<Activity>>>, hiddenAssignments: seq<nat>,
                               filters: FilterState, start: int, end: int): seq<Activity>
  {
    Somes(Filter(RangeGuard(hiddenAssignments, filters, start, end), Flat(allAssignments)))
  }

  /** An assignment belongs to the range when it is not hidden, passes the filters and is due
      within `[start, end]`, both ends included. */
  predicate InRange(hiddenAssignments: seq<nat>, filters: FilterState, start: int, end: int, a: Activity)
  {
    a.id !in hiddenAssignments && ApplyFilters(filters, a) && start <= DateValue(a.dueDate) <= end
  }

  function InRangeBy(hiddenAssignments: seq<nat>, filters: FilterState, start: int, end: int): Activity -> bool
  {
    (a: Activity) => InRange(hiddenAssignments, filters, start, end, a)
  }

  lemma {:induction false} WrapRange(list: seq<Activity>, hiddenAssignments: seq<nat>, filters: FilterState, start: int, end: int)
    ensures Somes(Filter(RangeGuard(hiddenAssignments, filters, start, end), Wrap(list)))
         == Filter(InRangeBy(hiddenAssignments, filters, start, end), list)
  {
    if list != [] {
      WrapRange(list[1..], hiddenAssignments, filters, start, end);
      var g := RangeGuard(hiddenAssignments, filters, start, end);
      FilterAppend(g, [Some(list[0])], Wrap(list[1..]));
      FilterSingleton(g, Some(list[0]));
      SomesAppend(Filter(g, [Some(list[0])]), Filter(g, Wrap(list[1..])));
    }
  }

  /** The range query keeps, in flattened order, exactly the in-range assignments of the
      defined lists: the `undefined` elements that `flat` lets through never survive. */
  lemma {:induction false} AssignmentsForRangeExact(allAssignments: seq<Option<seq<Activity>>>, hiddenAssignments: seq<nat>,
                                                    filters: FilterState, start: int, end: int)
    ensures AssignmentsForRange(allAssignments, hiddenAssignments, filters, start, end)
         == Filter(InRangeBy(hiddenAssignments, filters, start, end), Defined(allAssignments))
  {
    if allAssignments != [] {
      AssignmentsForRangeExact(allAssignments[1..], hiddenAssignments, filters, start, end);
      var g := RangeGuard(hiddenAssignments, filters, start, end);
      var head := match allAssignments[0] case None => [None] case Some(list) => Wrap(list);
      var defined := match allAssignments[0] case None => [] case Some(list) => list;
      FilterAppend(g, head, Flat(allAssignments[1..]));
      SomesAppend(Filter(g, head), Filter(g, Flat(allAssignments[1..])));
      FilterAppend(InRangeBy(hiddenAssignments, filters, start, end), defined, Defined(allAssignments[1..]));
      match allAssignments[0]
      case None =>
        FilterSingleton(g, None);
      case Some(list) =>
        WrapRange(list, hiddenAssignments, filters, start, end);
    }
  }

  /** `isSameDay(new Date(assignment.due_date), day)`. */
  function DueOn(dayOf: int -> int, day: int): Activity -> bool
  {
    (a: Activity) => dayOf(DateValue(a.dueDate)) == day
  }

  /** `assignmentsByDay`: one bucket per day of the view, each the assignments due that day. */
  function DayBuckets(days: seq<int>, inRange: seq<Activity>, dayOf: int -> int): (r: seq<seq<Activity>>)
    ensures |r| == |days|
    ensures forall i, a :: 0 <= i < |days| ==>
      multiset(r[i])[a] == if dayOf(DateValue(a.dueDate)) == days[i] then multiset(inRange)[a] else 0
  {
    DueOnCounts(days, inRange, dayOf);
    seq(|days|, (i: int) requires 0 <= i < |days| => Filter(DueOn(dayOf, days[i]), inRange))
  }

  lemma DueOnCounts(days: seq<int>, inRange: seq<Activity>, dayOf: int -> int)
    ensures forall i, a :: 0 <= i < |days| ==>
      multiset(Filter(DueOn(dayOf, days[i]), inRange))[a] == if dayOf(DateValue(a.dueDate)) == days[i] then multiset(inRange)[a] else 0
  {
    forall i, a | 0 <= i < |days| {
      FilterCount(DueOn(dayOf, days[i]), inRange, a);
    }
  }

  /** A bucket holds each in-range assignment due that day as often as it occurs and nothing
      else, in range order. */
  lemma DayBucketExact(days: seq<int>, inRange: seq<Activity>, dayOf: int -> int, i: nat, a: Activity)
    requires i < |days|
    ensures a in DayBuckets(days, inRange, dayOf)[i] <==> a in inRange && dayOf(DateValue(a.dueDate)) == days[i]
    ensures multiset(DayBuckets(days, inRange, dayOf)[i])[a] ==
      if dayOf(DateValue(a.dueDate)) == days[i] then multiset(inRange)[a] else 0
  {
    FilterCount(DueOn(dayOf, days[i]), inRange, a);
  }

  /** How many times `day` occurs among `days`. */
  function Occurrences(days: seq<int>, day: int): nat
  {
    if days == [] then 0 else (if days[0] == day then 1 else 0) + Occurrences(days[1..], day)
  }

  lemma {:induction false} OccurrencesOfDistinct(days: seq<int>, day: int)
    requires NoDup(days)
    ensures Occurrences(days, day) == if day in days then 1 else 0
  {
    if days != [] {
      assert NoDup(days[1..]) by {
        forall i, j | 0 <= i < j < |days[1..]| ensures days[1..][i] != days[1..][j] {
          assert days[1..][i] == days[i + 1] && days[1..][j] == days[j + 1];
        }
      }
      OccurrencesOfDistinct(days[1..], day);
      if days[0] == day {
        assert day !in days[1..] by {
          forall k | 0 <= k < |days[1..]| ensures days[1..][k] != day {
            assert days[1..][k] == days[k + 1];
          }
        }
      }
    }
  }

  /** The sizes of the buckets of `days`, added up. */
  function BucketTotal(days: seq<int>, inRange: seq<Activity>, dayOf: int -> int): nat
  {
    if days == [] then 0 else |Filter(DueOn(dayOf, days[0]), inRange)| + BucketTotal(days[1..], inRange, dayOf)
  }

  lemma {:induction false} BucketTotalCons(days: seq<int>, x: Activity, rest: seq<Activity>, dayOf: int -> int)
    ensures BucketTotal(days, [x] + rest, dayOf) == Occurrences(days, dayOf(DateValue(x.dueDate))) + BucketTotal(days, rest, dayOf)
  {
    if days != [] {
      BucketTotalCons(days[1..], x, rest, dayOf);
      FilterAppend(DueOn(dayOf, days[0]), [x], rest);
      FilterSingleton(DueOn(dayOf, days[0]), x);
    }
  }

  lemma {:induction false} BucketTotalIsDueDuringDays(days: seq<int>, inRange: seq<Activity>, dayOf: int -> int)
    requires NoDup(days)
    ensures BucketTotal(days, inRange, dayOf) == |Filter((a: Activity) => dayOf(DateValue(a.dueDate)) in days, inRange)|
  {
    if inRange == [] {
      if days != [] {
        BucketTotalIsDueDuringDays(days[1..], inRange, dayOf);
      }
    } else {
      var x, rest := inRange[0], inRange[1..];
      assert inRange == [x] + rest;
      BucketTotalCons(days, x, rest, dayOf);
      OccurrencesOfDistinct(days, dayOf(DateValue(x.dueDate)));
      BucketTotalIsDueDuringDays(days, rest, dayOf);
    }
  }

  function BucketSizesSum(buckets: seq<seq<Activity>>): nat
  {
    if buckets == [] then 0 else |buckets[0]| + BucketSizesSum(buckets[1..])
  }

  lemma {:induction false} BucketSizesSumIsTotal(days: seq<int>, inRange: seq<Activity>, dayOf: int -> int)
    ensures BucketSizesSum(DayBuckets(days, inRange, dayOf)) == BucketTotal(days, inRange, dayOf)
  {
    if days != [] {
      BucketSizesSumIsTotal(days[1..], inRange, dayOf);
      assert DayBuckets(days, inRange, dayOf)[1..] == DayBuckets(days[1..], inRange, dayOf);
    }
  }

  /** With distinct days, and every in-range assignment due on one of them (as for a range
      that spans exactly the days of the view), the buckets partition the in-range
      assignments: their sizes add up to the number of in-range assignments. */
  lemma DayBucketsPartition(days: seq<int>, inRange: seq<Activity>, dayOf: int -> int)
    requires NoDup(days)
    requires forall a :: a in inRange ==> dayOf(DateValue(a.dueDate)) in days
    ensures BucketSizesSum(DayBuckets(days, inRange, dayOf)) == |inRange|
  {
    BucketSizesSumIsTotal(days, inRange, dayOf);
    BucketTotalIsDueDuringDays(days, inRange, dayOf);
    FilterAll((a: Activity) => dayOf(DateValue(a.dueDate)) in days, inRange);
  }

  /** The week loop of `renderMonthView`: `weeks.push(days.slice(i, i + 7))` for
      `i = 0, 7, 14, …` while `i < days.length`. */
  method ChunkWeeks<T>(days: seq<T>) returns (weeks: seq<seq<T>>)
    ensures Concat(weeks) == days
    ensures |weeks| == (|days| + 6) / 7
    ensures forall k :: 0 <= k < |weeks| ==> weeks[k] == days[7 * k..Min(7 * k + 7, |days|)]
    ensures forall k :: 0 <= k < |weeks| ==> 1 <= |weeks[k]| <= 7
    ensures forall k :: 0 <= k < |weeks| - 1 ==> |weeks[k]| == 7
  {
    weeks := [];
    var i := 0;
    while i < |days|
      invariant i == 7 * |weeks|
      invariant i < |days| + 7
      invariant Concat(weeks) == days[..Min(i, |days|)]
      invariant forall k :: 0 <= k < |weeks| ==> weeks[k] == days[7 * k..Min(7 * k + 7, |days|)]
      decreases |days| - i
    {
      var week := days[i..Min(i + 7, |days|)];
      ConcatSnoc(weeks, week);
      assert days[..Min(i + 7, |days|)] == days[..i] + week;
      weeks := weeks + [week];
      i := i + 7;
    }
    assert days[..Min(i, |days|)] == days;
  }

  /** `MAX_ASSIGNMENTS`. */
  function MaxAssignments(weekCount: nat): nat
  {
    if weekCount > 5 then 2 else 3
  }

  /** A grid of more than 35 days (a sixth week) caps cells at two assignments, otherwise three. */
  lemma MaxAssignmentsForDays(dayCount: nat)
    ensures MaxAssignments((dayCount + 6) / 7) == (if dayCount > 35 then 2 else 3)
  {
  }

  /** `assignments.slice(0, MAX_ASSIGNMENTS)`. */
  function CellShown(assignments: seq<Activity>, max: nat): seq<Activity>
  {
    assignments[..Min(|assignments|, max)]
  }

  /** The `+{assignments.length - MAX_ASSIGNMENTS} more` entry, when there is one. */
  function CellOverflow(assignments: seq<Activity>, max: nat): Option<nat>
  {
    if |assignments| > max then Some(|assignments| - max) else None
  }

  /** A cell shows the first `min(len, MAX)` assignments in order; the overflow entry appears
      exactly when there are more than `MAX`, and the shown ones plus the overflow count
      account for every assignment of the day. */
  lemma CellAccountsForAll(assignments: seq<Activity>, max: nat)
    ensures |CellShown(assignments, max)| == Min(|assignments|, max)
    ensures CellShown(assignments, max) + assignments[|CellShown(assignments, max)|..] == assignments
    ensures CellOverflow(assignments, max).Some? <==> |assignments| > max
    ensures CellOverflow(assignments, max).Some? ==> CellOverflow(assignments, max).value > 0
    ensures |CellShown(assignments, max)| + (if CellOverflow(assignments, max).Some? then CellOverflow(assignments, max).value else 0) == |assignments|
  {
  }

  /** The `weekOffset` and `monthOffset` counters of the navigation buttons. */
  class CalendarNav {
    var weekOffset: int
    var monthOffset: int

    constructor ()
      ensures weekOffset == 0 && monthOffset == 0
    {
      weekOffset := 0;
      monthOffset := 0;
    }

    /** `goToPreviousWeek`. */
    method GoToPreviousWeek()
      modifies this
      ensures weekOffset == old(weekOffset) - 1 && monthOffset == old(monthOffset)
    {
      weekOffset := weekOffset - 1;
    }

    /** `goToNextWeek`. */
    method GoToNextWeek()
      modifies this
      ensures weekOffset == old(weekOffset) + 1 && monthOffset == old(monthOffset)
    {
      weekOffset := weekOffset + 1;
    }

    /** `goToCurrentWeek`. */
    method GoToCurrentWeek()
      modifies this
      ensures weekOffset == 0 && monthOffset == old(monthOffset)
    {
      weekOffset := 0;
    }

    /** `goToPreviousMonth`. */
    method GoToPreviousMonth()
      modifies this
      ensures monthOffset == old(monthOffset) - 1 && weekOffset == old(weekOffset)
    {
      monthOffset := monthOffset - 1;
    }

    /** `goToNextMonth`. */
    method GoToNextMonth()
      modifies this
      ensures monthOffset == old(monthOffset) + 1 && weekOffset == old(weekOffset)
    {
      monthOffset := monthOffset + 1;
    }

    /** `goToCurrentMonth`. */
    method GoToCurrentMonth()
      modifies this
      ensures monthOffset == 0 && weekOffset == old(weekOffset)
    {
      monthOffset := 0;
    }
  }

  /** Next week then previous week returns to the week shown before, and the month view is untouched. */
  method NextThenPreviousWeek(nav: CalendarNav)
    modifies nav
    ensures nav.weekOffset == old(nav.weekOffset) && nav.monthOffset == old(nav.monthOffset)
  {
    nav.GoToNextWeek();
    nav.GoToPreviousWeek();
  }

  /** Next month then previous month returns to the month shown before, and the week view is untouched. */
  method NextThenPreviousMonth(nav: CalendarNav)
    modifies nav
    ensures nav.monthOffset == old(nav.monthOffset) && nav.weekOffset == old(nav.weekOffset)
  {
    nav.GoToNextMonth();
    nav.GoToPreviousMonth();
  }

  /** The two round trips followed by going to the current week: the week view is the current
      one and the month view is the one shown before. */
  method NavigationRoundTrip(nav: CalendarNav)
    modifies nav
    ensures nav.weekOffset == 0 && nav.monthOffset == old(nav.monthOffset)
  {
    NextThenPreviousWeek(nav);
    NextThenPreviousMonth(nav);
    nav.GoToCurrentWeek();
  }
}
