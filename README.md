# Assign Watch, modelled in Dafny

Assign Watch is a browser extension for the LEB2 learning site. It reads the student's
classes and assignments and shows them in a dialog with a list view, filters, a sort
order and a calendar. It lets the student hide classes and assignments. A background
alarm fires a reminder notification 24 hours and again 1 hour before an unsubmitted
assignment is due.

This project models the logic behind those features and proves what it promises:

| module | file | what it models |
|---|---|---|
| `Seqs` | `seqs.dfy` | `Array.prototype.filter`, `findIndex`/`findLastIndex`, the guarded push and the filter-out used on stored id lists, concatenation of chunks |
| `Types` | `types.dfy` | the activity and class records; `filter(Boolean)`-style dropping of `undefined`/`null` (`Somes`); the defined class lists of a list of query results |
| `Text` | `text.dfy` | decimal rendering of ids, `String.prototype.split` on one character, `startsWith` |
| `Utils` | `utils.dfy` | `lib/utils.ts`: the submission-status classifier, the due-date filter, the persisted hidden-class and hidden-assignment lists (class `HiddenStore`) |
| `Background` | `background.dfy` | `entrypoints/background.ts`: one alarm tick (class `Notifier` with the two stored "already notified" lists, the notification log and the storage writes), specified by step functions over a `TickState`, and runs of successive alarms (`Run`); the notification id and the button-click handler |
| `Filters` | `filters.dfy` | `components/assignment-filters.tsx`: the six checkbox flags, `updateFilter`, `activeFilterCount`, `isOnlyChecked` |
| `ListView` | `list_view.dfy` | `entrypoints/content/App.tsx`: `applyFilters`, `sortAssignments` (a stable sort), and the per-class pipeline that builds the list tab |
| `Calendar` | `calendar.dfy` | `components/calendar-view.tsx`: the range query, the day buckets, the week chunking loop, the per-cell cap, and the week/month offsets (class `CalendarNav`) |
| `HiddenItems` | `hidden_items.dfy` | `components/hidden-items-manager.tsx`: resolving hidden ids back to classes and activities (the scan loop is a method), the total and the class badge |
| `RadioFilter` | `radio_filter.dfy` | `entrypoints/content/components/AssignmentFilter.tsx`: the radio `onChange` section update |
| `LegacyApp` | `legacy_app.dfy` | `entrypoints/content/app.tsx`: the older dialog's visibility handlers (class `LegacyVisibility`), its base list and six-condition filter loop, the hidden count, `formatDueDate` and `handleOpenModal` |

Dates are integer millisecond timestamps. A missing date is `None`. `new Date(null)` is
the epoch, so `DateValue(None) == 0`. Activity and class ids are natural numbers,
except in `entrypoints/content/app.tsx`, whose class ids are strings scraped from the page
and whose hidden lists hold strings. There an activity id is compared through its decimal
rendering (`Text.NatToString`).

JavaScript semantics the model writes out:
- dayjs `diff` truncates toward zero (`LegacyApp.TruncDiv`).
- `%` keeps the sign of the dividend (`LegacyApp.JsRem`).
- Regular-expression `.` does not match the four line terminators (`LegacyApp.LineTerminator`).
- `Array.prototype.sort` is stable.
- `Array.prototype.flat` keeps `undefined` entries, which the calendar then drops.

The reminder logic, as the code has it:
- There is no enable flag, no configurable lead time, no per-assignment "last notified"
  timestamp and no re-notification interval. The tick keeps two lists of already-notified ids, has
  fixed 24-hour and 1-hour windows (entrypoints/background.ts:31-32), and never reminds
  again while an id stays listed.
- The notification id is `assignwatch-<type>-<classId>-<id>`, with `-1h` appended for the
  1-hour reminder.
- The tick fetches every class itself. A failure is caught for the whole class, not per
  assignment.
- `lib/utils.ts:61` declares `getAssignments(classId)`, but the tick calls it with a second
  argument. The model treats the fetch as an input that either yields the class's
  activities or fails. The `due_date !== null` filter of lib/utils.ts:67 is applied to
  those activities.

## Model

| member | source | states |
|---|---|---|
| Utils.SubmissionStatus | lib/utils.ts:70-86 | the three "with submission" statuses occur exactly for a truthy submission id; among them `submitted_late` exactly when late, then `quiz_not_submitted` exactly when the quiz flag is 0; without a submission `not_submitted` exactly when the due date is exceeded |
| Utils.LateWins | lib/utils.ts:71-73 | a late submission is `submitted_late` whatever value the quiz flag takes |
| Utils.NoSubmissionDependsOnlyOnExceed | lib/utils.ts:79-85 | without a submission two activities with the same `due_date_exceed` get the same status, `not_submitted` or `in_progress` |
| Utils.SubmittedMeans | lib/utils.ts:70-86 | "submitted or submitted late" holds exactly for a truthy submission id that is late or has a non-zero quiz flag |
| Utils.DueDatedKeepsExactly | lib/utils.ts:67 | the due-date filter keeps exactly the dated activities, each as often as it occurs, and distributes over concatenation (order kept) |
| Utils.HiddenStore.constructor | lib/utils.ts:132-138 | unset stored lists read as empty |
| Utils.HiddenStore.HideClass | lib/utils.ts:140-145 | list unchanged if the id is present, else the id appended; the id is then present; duplicate-freedom preserved; the other list untouched |
| Utils.HiddenStore.HideAssignment | lib/utils.ts:147-152 | the same for the hidden-assignment list |
| Utils.HiddenStore.IsClassHidden | lib/utils.ts:154-157 | true exactly when the id is in the stored list |
| Utils.HiddenStore.IsAssignmentHidden | lib/utils.ts:159-164 | true exactly when the id is in the stored list |
| Utils.HiddenStore.UnhideClass | lib/utils.ts:166-169 | every copy of the id removed, the count of every other id kept, the rest in order; the other list untouched |
| Utils.HiddenStore.UnhideAssignment | lib/utils.ts:171-176 | the same for the hidden-assignment list |
| Utils.HiddenStore.ClearAllHiddenItems | lib/utils.ts:178-181 | both lists empty |
| Utils.HideThenUnhideClass | lib/utils.ts:140-169 | a hidden class reads as hidden, then not after unhiding; the list ends as if the class had only been unhidden; the other list untouched |
| Utils.HideThenUnhideAssignment | lib/utils.ts:147-176 | the same round trip for an assignment |
| Utils.HideClassTwice | lib/utils.ts:140-145 | hiding twice is hiding once |
| Utils.UnhideClassTwice | lib/utils.ts:166-169 | unhiding twice is unhiding once |
| Seqs.AddIfAbsentNoDup | lib/utils.ts:142-143 | after a guarded push the id is present, and a duplicate-free list stays duplicate-free |
| Seqs.WithoutCount | lib/utils.ts:168 | filtering out an id zeroes its count and keeps every other count |
| Seqs.WithoutAddIfAbsent | lib/utils.ts:140-169 | adding an id then filtering it out equals filtering it out |
| Seqs.WithoutIdempotent | lib/utils.ts:168 | unhiding twice is unhiding once |
| Seqs.WithoutAppend | lib/utils.ts:168 | filtering out an id keeps the relative order of the remaining ids |
| Seqs.FilterCount | lib/utils.ts:67 | `filter` keeps every copy of an accepted element and no copy of a rejected one |
| Background.IndexOf | entrypoints/background.ts:43 | `indexOf` is -1 exactly when the id is absent, otherwise the first position holding it |
| Background.SpliceNoDup | entrypoints/background.ts:45 | `splice(index, 1)` on a duplicate-free list leaves it duplicate-free and without the removed id |
| Background.Clean24Effect | entrypoints/background.ts:41-49 | the 24-hour cleanup touches nothing else, removes a resolved (submitted or overdue) assignment's id from a duplicate-free list, leaves an open assignment's state alone, and raises `shouldUpdate` whenever it changes the list |
| Background.Clean1hEffect | entrypoints/background.ts:51-59 | the same facts for the 1-hour list |
| Background.RemindNoDup | entrypoints/background.ts:61-108 | the `!includes` guard keeps both lists duplicate-free across a push |
| Background.ProcessNoDup | entrypoints/background.ts:34-110 | processing one assignment keeps both lists duplicate-free |
| Background.ProcessAllNoDup | entrypoints/background.ts:34-110 | processing a class's assignments keeps both lists duplicate-free |
| Background.ProcessClassesNoDup | entrypoints/background.ts:27-117 | processing every class keeps both lists duplicate-free |
| Background.ProcessPurgesResolved | entrypoints/background.ts:41-108 | after an assignment is processed, if its id is in either list it is not submitted and not overdue |
| Background.ProcessEffect | entrypoints/background.ts:61-108 | the notifications created are exactly the 24-hour one when it fires and then the 1-hour one when it fires; a fired reminder leaves the id listed; an id leaves a list only for a resolved assignment |
| Background.NoticesDiffer | entrypoints/background.ts:68 | the 24-hour and 1-hour notifications of one assignment are distinct |
| Background.ProcessCounts | entrypoints/background.ts:61-108 | each step adds one copy of a notification exactly when its window fires, and no copy otherwise |
| Background.AtMostOneReminderPerWindow | entrypoints/background.ts:61-108 | when one assignment is processed alone at each of a series of non-decreasing times, it gets at most one 24-hour and at most one 1-hour notification (the general case with other assignments, classes and alarms in between is `AtMostOneReminderOverAlarms`) |
| Background.StepKeepsOnce | entrypoints/background.ts:61-108 | "at most one reminder per window so far, and a fired one stays blocked (id listed, handed in, or overdue)" survives processing that same assignment once more at a later time |
| Background.RepeatInvariant | entrypoints/background.ts:34-110 | the invariant holds after processing one assignment alone at every time of a non-decreasing series |
| Background.SpliceKeepsOthers | entrypoints/background.ts:45 | `splice(index, 1)` keeps every value other than the one removed in the list or out of it |
| Background.CleanOther | entrypoints/background.ts:41-59 | the cleanup for one assignment changes neither the listing nor the reminder counts of an assignment with another id |
| Background.RemindOther | entrypoints/background.ts:61-108 | the reminders of one assignment change neither the listing nor the reminder counts of an assignment with another id |
| Background.ProcessOther | entrypoints/background.ts:34-110 | processing one assignment leaves another id's listing in both lists, and the number of each of its two notifications, as they were |
| Background.NotificationIdNamesAssignment | entrypoints/background.ts:68-92 | equal notification ids come from the same assignment id and the same window, whatever the types and class ids (a dash inside a type cannot produce a clash) |
| Background.NoticesApart | entrypoints/background.ts:67-104 | the notifications of assignments with different ids are all distinct |
| Background.ProcessAllKeepsOnce | entrypoints/background.ts:34-110 | processing a class's assignments at one clock reading keeps the at-most-once invariant of an assignment whose id no other record in the list carries |
| Background.ProcessClassesKeepsOnce | entrypoints/background.ts:27-117 | a whole tick, with each class's clock reading no earlier than the one before and failed classes skipped, keeps the invariant at the last reading |
| Background.ProcessLog | entrypoints/background.ts:34-110 | one step does not read the notification log: a longer log gives the same lists and the same new notifications appended after it |
| Background.ProcessAllLog | entrypoints/background.ts:34-110 | the same for a class's assignments |
| Background.ProcessClassesLog | entrypoints/background.ts:27-117 | the same for a whole tick |
| Background.RunKeepsOnce | entrypoints/background.ts:11-126 | the invariant holds after any run of alarms whose clock readings never go back |
| Background.AtMostOneReminderOverAlarms | entrypoints/background.ts:11-126 | over any run of alarms whose clock never goes back, an assignment whose record is the same in every alarm (same due date, submission, title and lateness), and whose id no other record carries, gets at most one 24-hour and at most one 1-hour notification, whatever other assignments, classes and failed fetches come in between |
| Background.FailedClassSkipped | entrypoints/background.ts:111-116 | a class whose fetch fails is skipped and the remaining classes are processed as if it were absent |
| Background.ProcessFlags | entrypoints/background.ts:41-108 | a flag still down after a step was down before, and that list is unchanged |
| Background.ProcessAllFlags | entrypoints/background.ts:34-110 | the same over a class's assignments |
| Background.UnflaggedListUnchanged | entrypoints/background.ts:119-125 | over a whole tick a list whose flag is down equals the list read at the start, so skipping its write loses nothing |
| Background.CheckAssignment | entrypoints/background.ts:34-110 | the in-place splice/push body of the inner loop computes the step function `Process` |
| Background.Notifier.constructor | entrypoints/background.ts:17-20 | unset stored lists read as empty; nothing created or written |
| Background.Notifier.OnAlarm | entrypoints/background.ts:13-126 | another alarm, a falsy user id or a missing class list changes nothing and writes nothing; otherwise the created notifications, the stored lists and the writes are those of the tick function, a list is written only when its flag is up, the stored lists and the log afterwards are one `AlarmStep` of those before, and duplicate-free stored lists stay duplicate-free |
| Background.TailPieces | entrypoints/background.ts:131 | the tail of an id splits into the assignment id and the optional `1h` |
| Background.SplitThreeFields | entrypoints/background.ts:131 | three dash-free fields and a rest split into those fields followed by the rest's pieces |
| Background.NotificationIdPieces | entrypoints/background.ts:68 | a constructed id splits into prefix, type, class id, assignment id and optional `1h` |
| Background.NotificationIdPrefix | entrypoints/background.ts:130 | every constructed id starts with `assignwatch-` |
| Background.NotificationIdRoundTrip | entrypoints/background.ts:129-136 | parsing a constructed id (either reminder) gives back the type, class id and assignment id, and the click opens that assignment's page |
| Text.NatToStringInjective | entrypoints/background.ts:68 | different assignment ids render as different decimal strings |
| Background.ForeignNotificationIgnored | entrypoints/background.ts:130 | an id without the prefix opens nothing |
| Text.SplitJoin | entrypoints/background.ts:131 | splitting `a + "-" + b` with a dash-free `a` gives `a` followed by the pieces of `b` |
| Text.NatToStringHasNoDash | entrypoints/background.ts:68 | a decimal id contains no `-`, so it survives the split as one piece |
| Filters.ValidKeys | components/assignment-filters.tsx:30-34 | each category has exactly two distinct keys |
| Filters.Set | components/assignment-filters.tsx:58-64 | the chosen key takes the value and every other key of every category keeps its value |
| Filters.UpdateFilter | components/assignment-filters.tsx:45-65 | refused exactly when unchecking with every other key of the category already off (so setting true is always accepted); an accepted update changes only the chosen key, to the value |
| Filters.UpdateKeepsCategoriesNonEmpty | components/assignment-filters.tsx:54-56 | if every category had a checked key before an accepted update, it has one after |
| Filters.ActiveFilterCount | components/assignment-filters.tsx:67-71 | the count is at most 6 |
| Filters.ActiveFilterCountIsUncheckedFlags | components/assignment-filters.tsx:67-71 | the count is the number of unchecked flags among the six, and zero exactly when all six are checked |
| Filters.OnlyCheckedRefusesUncheck | components/assignment-filters.tsx:73-80 | `isOnlyChecked` holds exactly when the key is on and the other key of its category is off, and then unchecking it is refused |
| ListView.ApplyFiltersGates | entrypoints/content/App.tsx:223-248 | accepted exactly when the status side's flag, the type's flag (`ASM` or every other type) and the group's flag (`IND` or every other group) are all on |
| ListView.AllShownAcceptsEverything | entrypoints/content/App.tsx:42-55 | with the default flags every assignment is accepted |
| ListView.SortAssignments | entrypoints/content/App.tsx:202-221 | the result is a permutation of the input |
| ListView.SortAssignmentsSorted | entrypoints/content/App.tsx:202-221 | the result is ordered by the comparator, and is a permutation of the input |
| ListView.SortedMeansOrderedKeys | entrypoints/content/App.tsx:206-217 | an ordered list is non-decreasing in the sort key (due or start date) ascending and non-increasing descending |
| ListView.Insert | entrypoints/content/App.tsx:203-218 | inserting adds exactly one copy of the element |
| ListView.InsertSorted | entrypoints/content/App.tsx:203-218 | inserting into an ordered list keeps it ordered |
| ListView.InsertStable | entrypoints/content/App.tsx:203-218 | inserting keeps the inserted element after the elements of equal key |
| ListView.SortStable | entrypoints/content/App.tsx:203-218 | assignments with equal keys keep their input order |
| ListView.FilteredAssignmentsExact | entrypoints/content/App.tsx:318-340 | the filter chain keeps, in input order, exactly the assignments that are not both overdue and submitted, not hidden, and accepted by the filters |
| ListView.ClassEntries | entrypoints/content/App.tsx:303-354 | one result per class, in class order: a skeleton with the class's index while loading, otherwise the class's sorted surviving assignments exactly when the class is shown and `null` when it is not |
| ListView.EntryAtShown | entrypoints/content/App.tsx:309-353 | once loaded, a class yields its sorted surviving assignments exactly when it is not hidden, has data, and some assignment survives, and `null` otherwise |
| ListView.PendingShowsSkeletons | entrypoints/content/App.tsx:305-307 | while loading, the list is one skeleton per class, with its index |
| ListView.LoadedShowsExactlyVisible | entrypoints/content/App.tsx:303-355 | once loaded, an entry is listed exactly when it is the entry of some shown class |
| ListView.HiddenOrEmptyClassAbsent | entrypoints/content/App.tsx:311-347 | no listed entry belongs to a hidden class or has an empty assignment list |
| Calendar.Wrap | components/calendar-view.tsx:95 | `flat` keeps each element of a defined list, in order |
| Calendar.WrapRange | components/calendar-view.tsx:96-109 | on one flattened list the range guard keeps exactly the in-range assignments |
| Calendar.AssignmentsForRangeExact | components/calendar-view.tsx:93-110 | the range query is, in flattened order, exactly the defined assignments that are not hidden, pass the filters and fall due in `[start, end]` |
| Calendar.DayBuckets | components/calendar-view.tsx:126-131 | one bucket per day; bucket `i` holds each in-range assignment due on day `i` as often as it occurs in the range, and nothing else |
| Calendar.DayBucketExact | components/calendar-view.tsx:126-131 | a day's bucket holds exactly the in-range assignments due that day, each as often as in the input |
| Calendar.BucketTotalIsDueDuringDays | components/calendar-view.tsx:126-131 | for distinct days the buckets jointly hold each in-range assignment due on one of those days once |
| Calendar.BucketSizesSumIsTotal | components/calendar-view.tsx:126-131 | the bucket sizes add up to that total |
| Calendar.DayBucketsPartition | components/calendar-view.tsx:126-131 | when the days are distinct and cover every in-range assignment, the buckets partition the range result |
| Calendar.ChunkWeeks | components/calendar-view.tsx:256-259 | the weeks concatenate to the day list; there are ceil(n/7) of them; week k is days 7k to 7k+7; every week has 1 to 7 days and all but the last have 7 |
| Calendar.MaxAssignmentsForDays | components/calendar-view.tsx:261 | the cap is 2 when the grid has more than 35 days (more than 5 weeks) and 3 otherwise |
| Calendar.CellAccountsForAll | components/calendar-view.tsx:318-355 | a cell shows the first min(n, cap) assignments; the "+k more" entry appears exactly when n exceeds the cap, with k positive, and shown plus k is n |
| Calendar.CalendarNav.constructor | components/calendar-view.tsx:70-71 | both offsets start at 0 |
| Calendar.CalendarNav.GoToPreviousWeek | components/calendar-view.tsx:165-167 | the week offset drops by one; the month offset is untouched |
| Calendar.CalendarNav.GoToNextWeek | components/calendar-view.tsx:169-171 | the week offset rises by one; the month offset is untouched |
| Calendar.CalendarNav.GoToCurrentWeek | components/calendar-view.tsx:173-175 | the week offset is 0; the month offset is untouched |
| Calendar.CalendarNav.GoToPreviousMonth | components/calendar-view.tsx:177-179 | the month offset drops by one; the week offset is untouched |
| Calendar.CalendarNav.GoToNextMonth | components/calendar-view.tsx:181-183 | the month offset rises by one; the week offset is untouched |
| Calendar.CalendarNav.GoToCurrentMonth | components/calendar-view.tsx:185-187 | the month offset is 0; the week offset is untouched |
| Calendar.NextThenPreviousWeek | components/calendar-view.tsx:165-171 | next week then previous week restores the week offset and leaves the month offset alone |
| Calendar.NextThenPreviousMonth | components/calendar-view.tsx:177-183 | next month then previous month restores the month offset and leaves the week offset alone |
| Calendar.NavigationRoundTrip | components/calendar-view.tsx:165-187 | both round trips followed by go-to-current-week end at the current week with the month offset as it was |
| HiddenItems.FindClassFirstAndLast | components/hidden-items-manager.tsx:37 | `find` and `findLast` answer `undefined` exactly when no class has the id, and otherwise the first and the last class with it |
| HiddenItems.ResolveClasses | components/hidden-items-manager.tsx:36-37 | one lookup per stored id, in order: `undefined` exactly when no class has that id, otherwise the first class in the list with that id |
| HiddenItems.HiddenClassItemsFollowIds | components/hidden-items-manager.tsx:36-38 | the resolved classes follow the stored ids (resolution distributes over concatenation) and there are at most as many as ids |
| HiddenItems.HiddenClassItemsOfOne | components/hidden-items-manager.tsx:36-38 | one id contributes its first matching class, or nothing |
| HiddenItems.FindHiddenAssignment | components/hidden-items-manager.tsx:41-49 | the loop with its early return answers the first activity with the id across the defined class lists, in class order |
| HiddenItems.FindActivityAppend | components/hidden-items-manager.tsx:42-47 | the first match in two lists in a row is the first list's match if it has one |
| HiddenItems.FirstInListsMatches | components/hidden-items-manager.tsx:41-49 | a found activity has the id and is the first one with it across the defined lists, in class order; nothing is found exactly when no defined list has the id |
| HiddenItems.ResolveAssignments | components/hidden-items-manager.tsx:40-49 | one scan per stored id, in order: `undefined` exactly when no defined class list holds that id, otherwise an activity with that id, the first one across the defined lists in class order |
| HiddenItems.HiddenAssignmentItemsAreHidden | components/hidden-items-manager.tsx:40-50 | every resolved assignment is a fetched activity whose id is stored as hidden, and there are at most as many as ids |
| HiddenItems.TipsExactlyWhenNothingResolves | components/hidden-items-manager.tsx:52-56 | only the tips are shown exactly when no stored class id and no stored assignment id resolves |
| HiddenItems.BadgeTitleIsLastMatch | components/hidden-items-manager.tsx:122-123 | the badge is the title of the last class with the assignment's class id, absent exactly when there is none |
| RadioFilter.OnChangeEffect | entrypoints/content/components/AssignmentFilter.tsx:29-42 | sections and the section's keys are unchanged; the chosen key ends up equal to `checked`, every other key of the section false, every other section unchanged; at most one key of the section is true |
| RadioFilter.OnChangeIdempotent | entrypoints/content/components/AssignmentFilter.tsx:29-42 | applying the same change twice equals applying it once |
| LegacyApp.LegacyVisibility.constructor | entrypoints/content/app.tsx:101-102 | a missing stored list reads as empty |
| LegacyApp.LegacyVisibility.HandleClassVisibilityChange | entrypoints/content/app.tsx:163-174 | checking removes every copy of the id; unchecking appends it unconditionally, one more copy; the other list untouched |
| LegacyApp.LegacyVisibility.HandleAssignmentVisibilityChange | entrypoints/content/app.tsx:176-190 | the same for the hidden-assignment list |
| LegacyApp.ShowUndoesRepeatedHides | entrypoints/content/app.tsx:165-168 | hiding an id any number of times and showing it once gives what showing it alone gives, although the hides pile up copies |
| LegacyApp.BaseListExact | entrypoints/content/app.tsx:608-627 | a card's base list is, in order, exactly the activities with a due date that are not both overdue and quiz-submitted and whose id is not hidden |
| LegacyApp.PassesAllSnoc | entrypoints/content/app.tsx:662-666 | one more condition narrows the combined test by that condition when it is on |
| LegacyApp.FilterTasks | entrypoints/content/app.tsx:629-666 | the `forEach` loop leaves exactly the tasks that satisfy every switched-on condition, in order |
| LegacyApp.ConditionsMeaning | entrypoints/content/app.tsx:631-660 | the six conditions flag by flag: `isAssignment` keeps `ASM`, `isQuiz` keeps `QUZ`, `isGRP` keeps `STU`, `isIND` keeps `IND`, `isNotSubmit` keeps a zero quiz flag, `isSubmit` keeps a non-zero one |
| LegacyApp.NoConditionKeepsAll | entrypoints/content/app.tsx:662-666 | with no condition on, the list is left as it is |
| LegacyApp.ClearedConditionsOff | entrypoints/content/app.tsx:483-489 | the initial object switches no condition on; a section's Clear link turns all its flags off and leaves other sections alone |
| LegacyApp.RadioNeverAsksBothStatuses | entrypoints/content/app.tsx:496-509 | choosing a radio of the submit section never switches both status conditions on |
| LegacyApp.HiddenAssignmentsCountSplits | entrypoints/content/app.tsx:668-671 | the hidden count and the due-dated activities left visible add up to all due-dated activities |
| LegacyApp.HiddenAssignmentsCountZero | entrypoints/content/app.tsx:668-671 | the count is zero exactly when no due-dated activity has a hidden id |
| LegacyApp.ClassCardLists | entrypoints/content/app.tsx:604-666 | a card is rendered exactly for a non-hidden class, and lists exactly the fetched activities in the base list that pass every switched-on condition |
| LegacyApp.FormatDueDateBuckets | entrypoints/content/app.tsx:259-297 | empty label exactly without a due date; passed once a whole second is gone, minutes below an hour, hours below a day, days beyond; the minutes shown are the whole minutes left |
| LegacyApp.HoursLabelAddsUp | entrypoints/content/app.tsx:281-289 | hours shown are 1 to 23, the minutes shown are 1 to 59 and omitted exactly when zero, and together they are the whole minutes left |
| LegacyApp.DaysLabelAddsUp | entrypoints/content/app.tsx:291-297 | days shown are at least 1, the hours shown are 1 to 23 and omitted exactly when zero, and together they are the whole hours left |
| LegacyApp.HandleOpenModalRedirectsOnce | entrypoints/content/app.tsx:238-248 | the dialog redirects exactly from a URL matching the class sub-page pattern; from the class list and from the redirect target it opens in place |

## Left out

- Page scraping (`getAllClassInfo`, `getUserId`) and HTTP fetches: they are I/O. Class lists, user ids and fetched activity lists are inputs, and a failed fetch is the `Failed` response.
- Browser APIs (alarms, notifications, tabs, storage, `window.location`, `history`): created notifications are a log field, opened URLs are return values, and the stored lists are class fields. Storage writes are recorded by key.
- Date libraries (dayjs, date-fns) and time zones: the calendar's day list and its "day of" function are parameters, and `isSameDay` is equality of their values. The week and month offsets are modelled; the date arithmetic that turns them into day lists is not.
- Invalid or empty date strings (which JavaScript turns into `NaN`): dates are `Option<int>`, and an empty string is `None`.
- Every `includes` on arrays of records (App.tsx:333-334, app.tsx:624-625) is by object identity; the model uses value membership, which agrees because the arrays are filtered from the very list being tested.
- React rendering, styling, colours, Thai and English label text, icons and i18n: presentation only. `formatDueDate` returns a label datatype instead of coloured text.
- The popup settings forms: their keys are never read by the background tick.
- Concurrency between the content script and the background writing the same keys: each handler is one sequential step.
- The legacy dialog's `local:classWithAssignments` store (entrypoints/content/app.tsx:219-236): a write-only cache that nothing in the modelled core reads.
- The `openModal=true` URL-parameter effect (entrypoints/content/app.tsx:250-257): it only opens the dialog and rewrites the address bar.
- The calendar's week view: it buckets by day like the month view but applies no cap, so only the month view's cap is modelled.
- Background.AtMostOneReminderPerWindow: covers one assignment processed alone at each tick. The bound for a full tick and a run of alarms, with other assignments and classes in between, is `AtMostOneReminderOverAlarms`. It requires the assignment's record to be identical wherever it appears in the run, and no other record to carry its id.
- Background.AtMostOneReminderOverAlarms: no at-most-once bound is promised for a record that changes during the run, and the source gives none. An id is dropped once the assignment is overdue or submitted (entrypoints/background.ts:41-48). If the due date is then extended or the submission withdrawn, the reminder rule holds again and a second 24-hour or 1-hour reminder is created (entrypoints/background.ts:61-84). What does hold for changing records is the step-wise rule of `ProcessEffect`, `Fires24` and `Fires1h`: no reminder fires while the id stays listed, and an id leaves a list only for a resolved assignment.
- Filters.ActiveFilterCount: states only the bound 0..6 in its own contract; the exact count of unchecked flags is stated by `ActiveFilterCountIsUncheckedFlags`.
- ListView.SortAssignments: the engine's sort algorithm is not specified beyond stability, so the model sorts by stable insertion; any stable sort gives the same result, so the order is the source's.
- RadioFilter.OnChange: the DOM event is reduced to its `checked` value, a parameter. It requires the section to exist, which every call site in entrypoints/content/app.tsx guarantees.
- Filters.UpdateFilter: requires a key from `VALID_KEYS`, which every checkbox in components/assignment-filters.tsx passes.
- Utils.HiddenStore.HideClass: the source skips the storage write when the id is already present; the model's field simply keeps its value, which is the same final state.
- The "radio shows `obj[section][itemKey]`" rule (AssignmentFilter.tsx:24-28) is the definition `RadioFilter.Checked`, used by the lemmas rather than stated as one of its own.
