/** entrypoints/background.ts: the `checkAssignments` alarm handler that sends
    "due soon" notifications 24 hours and 1 hour before an assignment's due date,
    remembers which assignments were already notified in two persisted id lists,
    and the notification-button handler that opens the assignment's page. */
module Background {
  import opened Types
  import opened Seqs
  import opened Text
  import opened Utils

  const HourMs: int := 60 * 60 * 1000
  const DayMs: int := 24 * HourMs

  /** A call of `browser.notifications.create`. */
  datatype Notification = Notification(id: string, title: string, message: string)

  /** What fetching one class's activities produced: the activities and the clock
      reading taken right after the fetch, or an exception (caught and logged). */
  datatype Response = Fetched(now: int, activities: seq<Activity>) | Failed

  /** The two storage keys the tick may write. */
  datatype StorageKey = NotifiedAssignmentsKey | NotifiedAssignments1hKey

  /** The working state of one tick: the two in-memory lists, their dirty flags
      (`shouldUpdate`, `shouldUpdate1h`), and the notifications created so far. */
  datatype TickState = TickState(
    notified: seq<nat>,
    notified1h: seq<nat>,
    shouldUpdate: bool,
    shouldUpdate1h: bool,
    created: seq<Notification>)

  function Start(notified: seq<nat>, notified1h: seq<nat>): TickState
  {
    TickState(notified, notified1h, false, false, [])
  }

  /** `assignwatch-${type}-${class_id}-${id}`, with `-1h` appended for the one-hour reminder. */
  function NotificationId(kind: string, classId: nat, id: nat, oneHour: bool): string
  {
    "assignwatch-" + kind + "-" + NatToString(classId) + "-" + NatToString(id) + (if oneHour then "-1h" else "")
  }

  function Notice24(a: Activity): Notification
  {
    Notification(NotificationId(a.kind, a.classId, a.id, false), "Assignment Due Soon!",
                 "\"" + a.title + "\" is due in less than 24 hours.")
  }

  function Notice1h(a: Activity): Notification
  {
    Notification(NotificationId(a.kind, a.classId, a.id, true), "Assignment Due Soon!",
                 "\"" + a.title + "\" is due in less than 1 hour.")
  }

  /** `s.indexOf(x)`: the first position of `x`, or -1. */
  function IndexOf(s: seq<nat>, x: nat): (r: int)
    ensures -1 <= r < |s|
    ensures r == -1 <==> x !in s
    ensures r >= 0 ==> s[r] == x && forall k :: 0 <= k < r ==> s[k] != x
  {
    if s == [] then -1
    else if s[0] == x then 0
    else var k := IndexOf(s[1..], x); if k == -1 then -1 else k + 1
  }

  /** `s.splice(i, 1)` on a copy. */
  function Splice(s: seq<nat>, i: nat): seq<nat>
    requires i < |s|
  {
    s[..i] + s[i + 1..]
  }

  /** An assignment that is handed in or past due needs no reminder. */
  predicate Resolved(a: Activity, now: int)
  {
    IsSubmitted(a) || DateValue(a.dueDate) < now
  }

  /** Cleanup of the 24-hour list: a listed assignment that is handed in or overdue
      loses its first occurrence (`indexOf` + `splice`) and marks the list dirty. */
  function Clean24(s: TickState, a: Activity, now: int): TickState
  {
    if a.id in s.notified && (IsSubmitted(a) || DateValue(a.dueDate) < now) then
      var index := IndexOf(s.notified, a.id);
      if index > -1 then s.(notified := Splice(s.notified, index), shouldUpdate := true) else s
    else s
  }

  /** The same cleanup of the 1-hour list. */
  function Clean1h(s: TickState, a: Activity, now: int): TickState
  {
    if a.id in s.notified1h && (IsSubmitted(a) || DateValue(a.dueDate) < now) then
      var index := IndexOf(s.notified1h, a.id);
      if index > -1 then s.(notified1h := Splice(s.notified1h, index), shouldUpdate1h := true) else s
    else s
  }

  /** The 24-hour reminder: for a dated, not handed-in assignment not yet listed and due in
      `(now, now + 24h]`, create the notification and list the id. */
  function Remind24(s: TickState, a: Activity, now: int): TickState
  {
    var dueDate := DateValue(a.dueDate);
    if a.dueDate.Some? && !IsSubmitted(a) && a.id !in s.notified && dueDate > now && dueDate <= now + DayMs then
      s.(created := s.created + [Notice24(a)], notified := s.notified + [a.id], shouldUpdate := true)
    else s
  }

  /** The 1-hour reminder, with its own list and window `(now, now + 1h]`. */
  function Remind1h(s: TickState, a: Activity, now: int): TickState
  {
    var dueDate := DateValue(a.dueDate);
    if a.dueDate.Some? && !IsSubmitted(a) && a.id !in s.notified1h && dueDate > now && dueDate <= now + HourMs then
      s.(created := s.created + [Notice1h(a)], notified1h := s.notified1h + [a.id], shouldUpdate1h := true)
    else s
  }

  /** The body of the inner loop for one assignment at clock reading `now`. */
  function Process(s: TickState, a: Activity, now: int): TickState
  {
    Remind1h(Remind24(Clean1h(Clean24(s, a, now), a, now), a, now), a, now)
  }

  /** The inner loop over one class's assignments. */
  function ProcessAll(s: TickState, assignments: seq<Activity>, now: int): TickState
  {
    if assignments == [] then s
    else Process(ProcessAll(s, assignments[..|assignments| - 1], now), assignments[|assignments| - 1], now)
  }

  /** The outer loop over classes; a class whose fetch failed is skipped. */
  function ProcessClasses(s: TickState, responses: seq<Response>): TickState
  {
    if responses == [] then s
    else
      var before := ProcessClasses(s, responses[..|responses| - 1]);
      match responses[|responses| - 1]
      case Failed => before
      case Fetched(now, raw) => ProcessAll(before, DueDated(raw), now)
  }

  /** The 24-hour reminder fires for `a`: it has a due date, is not handed in, is not yet
      listed, and is due in `(now, now + 24h]`. */
  predicate Fires24(s: TickState, a: Activity, now: int)
  {
    a.dueDate.Some? && !IsSubmitted(a) && a.id !in s.notified
    && now < DateValue(a.dueDate) <= now + DayMs
  }

  /** The 1-hour reminder fires for `a`: the same rule with its own list and window `(now, now + 1h]`. */
  predicate Fires1h(s: TickState, a: Activity, now: int)
  {
    a.dueDate.Some? && !IsSubmitted(a) && a.id !in s.notified1h
    && now < DateValue(a.dueDate) <= now + HourMs
  }

  lemma SpliceNoDup(s: seq<nat>, i: nat)
    requires i < |s| && NoDup(s)
    ensures NoDup(Splice(s, i)) && s[i] !in Splice(s, i)
  {
    var r := Splice(s, i);
    forall p, q | 0 <= p < q < |r| ensures r[p] != r[q] {
      var p' := if p < i then p else p + 1;
      var q' := if q < i then q else q + 1;
      assert r[p] == s[p'] && r[q] == s[q'];
    }
    forall k | 0 <= k < |r| ensures r[k] != s[i] {
      var k' := if k < i then k else k + 1;
      assert r[k] == s[k'];
    }
  }

  /** Cleanup of the 24-hour list touches nothing else, keeps the list duplicate-free,
      removes the id of a resolved assignment from a duplicate-free list, and leaves an
      open assignment's state as it was. */
  lemma Clean24Effect(s: TickState, a: Activity, now: int)
    ensures var r := Clean24(s, a, now);
      && r.created == s.created && r.notified1h == s.notified1h && r.shouldUpdate1h == s.shouldUpdate1h
      && (!Resolved(a, now) ==> r == s)
      && (NoDup(s.notified) ==> NoDup(r.notified) && (Resolved(a, now) ==> a.id !in r.notified))
      && (!r.shouldUpdate ==> !s.shouldUpdate && r.notified == s.notified)
  {
    if a.id in s.notified && NoDup(s.notified) {
      SpliceNoDup(s.notified, IndexOf(s.notified, a.id));
    }
  }

  /** The same facts for the cleanup of the 1-hour list. */
  lemma Clean1hEffect(s: TickState, a: Activity, now: int)
    ensures var r := Clean1h(s, a, now);
      && r.created == s.created && r.notified == s.notified && r.shouldUpdate == s.shouldUpdate
      && (!Resolved(a, now) ==> r == s)
      && (NoDup(s.notified1h) ==> NoDup(r.notified1h) && (Resolved(a, now) ==> a.id !in r.notified1h))
      && (!r.shouldUpdate1h ==> !s.shouldUpdate1h && r.notified1h == s.notified1h)
  {
    if a.id in s.notified1h && NoDup(s.notified1h) {
      SpliceNoDup(s.notified1h, IndexOf(s.notified1h, a.id));
    }
  }

  /** A reminder pushes only an id that is absent, so duplicate-freedom is kept. */
  lemma RemindNoDup(s: TickState, a: Activity, now: int)
    ensures NoDup(s.notified) ==> NoDup(Remind24(s, a, now).notified)
    ensures NoDup(s.notified1h) ==> NoDup(Remind1h(s, a, now).notified1h)
  {
    AddIfAbsentNoDup(s.notified, a.id);
    AddIfAbsentNoDup(s.notified1h, a.id);
  }

  /** Each step keeps both lists duplicate-free: every push is guarded by `!includes`. */
  lemma ProcessNoDup(s: TickState, a: Activity, now: int)
    requires NoDup(s.notified) && NoDup(s.notified1h)
    ensures NoDup(Process(s, a, now).notified) && NoDup(Process(s, a, now).notified1h)
  {
    var s1 := Clean24(s, a, now);
    Clean24Effect(s, a, now);
    var s2 := Clean1h(s1, a, now);
    Clean1hEffect(s1, a, now);
    RemindNoDup(s2, a, now);
    var s3 := Remind24(s2, a, now);
    RemindNoDup(s3, a, now);
  }

  lemma {:induction false} ProcessAllNoDup(s: TickState, assignments: seq<Activity>, now: int)
    requires NoDup(s.notified) && NoDup(s.notified1h)
    ensures NoDup(ProcessAll(s, assignments, now).notified) && NoDup(ProcessAll(s, assignments, now).notified1h)
  {
    if assignments != [] {
      ProcessAllNoDup(s, assignments[..|assignments| - 1], now);
      ProcessNoDup(ProcessAll(s, assignments[..|assignments| - 1], now), assignments[|assignments| - 1], now);
    }
  }

  /** A whole tick keeps both lists duplicate-free. */
  lemma {:induction false} ProcessClassesNoDup(s: TickState, responses: seq<Response>)
    requires NoDup(s.notified) && NoDup(s.notified1h)
    ensures NoDup(ProcessClasses(s, responses).notified) && NoDup(ProcessClasses(s, responses).notified1h)
  {
    if responses != [] {
      var init := responses[..|responses| - 1];
      ProcessClassesNoDup(s, init);
      match responses[|responses| - 1]
      case Failed =>
      case Fetched(now, raw) => ProcessAllNoDup(ProcessClasses(s, init), DueDated(raw), now);
    }
  }

  /** Right after an assignment is processed, its id is listed only if it is still open:
      not handed in and not yet past due. */
  lemma ProcessPurgesResolved(s: TickState, a: Activity, now: int)
    requires NoDup(s.notified) && NoDup(s.notified1h)
    ensures a.id in Process(s, a, now).notified ==> !IsSubmitted(a) && DateValue(a.dueDate) >= now
    ensures a.id in Process(s, a, now).notified1h ==> !IsSubmitted(a) && DateValue(a.dueDate) >= now
  {
    var s1 := Clean24(s, a, now);
    Clean24Effect(s, a, now);
    Clean1hEffect(s1, a, now);
  }

  /** What one step does, stated against the lists as they were before the step:
      it creates exactly the reminders whose rule holds, a fired reminder lists the id,
      and an id leaves a list only when the assignment is resolved. */
  lemma ProcessEffect(s: TickState, a: Activity, now: int)
    ensures Process(s, a, now).created ==
      s.created + (if Fires24(s, a, now) then [Notice24(a)] else []) + (if Fires1h(s, a, now) then [Notice1h(a)] else [])
    ensures Fires24(s, a, now) ==> a.id in Process(s, a, now).notified
    ensures Fires1h(s, a, now) ==> a.id in Process(s, a, now).notified1h
    ensures a.id in s.notified && a.id !in Process(s, a, now).notified ==> Resolved(a, now)
    ensures a.id in s.notified1h && a.id !in Process(s, a, now).notified1h ==> Resolved(a, now)
  {
    var s1 := Clean24(s, a, now);
    Clean24Effect(s, a, now);
    var s2 := Clean1h(s1, a, now);
    Clean1hEffect(s1, a, now);
    if !Resolved(a, now) {
      assert s2 == s;
    }
  }

  /** The two reminders of one assignment carry different ids (the 1-hour id is longer). */
  lemma NoticesDiffer(a: Activity)
    ensures Notice24(a) != Notice1h(a)
  {
    assert |NotificationId(a.kind, a.classId, a.id, true)| == |NotificationId(a.kind, a.classId, a.id, false)| + 3;
  }

  /** A notification id names its assignment and its window: equal ids come from the same
      assignment id and the same reminder, whatever the types and class ids. */
  lemma NotificationIdNamesAssignment(kind: string, classId: nat, id: nat, oneHour: bool,
                                      kind': string, classId': nat, id': nat, oneHour': bool)
    ensures NotificationId(kind, classId, id, oneHour) == NotificationId(kind', classId', id', oneHour') ==>
            id == id' && oneHour == oneHour'
  {
    var x := NotificationId(kind, classId, id, oneHour);
    var x' := NotificationId(kind', classId', id', oneHour');
    var p := "assignwatch-" + kind + "-" + NatToString(classId);
    var p' := "assignwatch-" + kind' + "-" + NatToString(classId');
    var d, d' := NatToString(id), NatToString(id');
    NatToStringHasNoDash(id);
    NatToStringHasNoDash(id');
    var y, y' := p + "-" + d, p' + "-" + d';
    assert x == y + (if oneHour then "-1h" else "") && x' == y' + (if oneHour' then "-1h" else "");
    // a 24-hour id ends with a digit of the assignment id, a 1-hour id with `h`
    assert d[|d| - 1] in d && d'[|d'| - 1] in d';
    assert (oneHour <==> x[|x| - 1] == 'h') && (oneHour' <==> x'[|x'| - 1] == 'h');
    if x == x' {
      assert y == x[..|x| - (if oneHour then 3 else 0)] && y' == x'[..|x'| - (if oneHour' then 3 else 0)];
      LastPieceDetermined(p, d, p', d', '-');
      NatToStringInjective(id, id');
    }
  }

  /** Reminders of two assignments with different ids are different notifications. */
  lemma NoticesApart(a: Activity, b: Activity)
    requires a.id != b.id
    ensures Notice24(a) != Notice24(b) && Notice24(a) != Notice1h(b)
    ensures Notice1h(a) != Notice24(b) && Notice1h(a) != Notice1h(b)
  {
    NotificationIdNamesAssignment(a.kind, a.classId, a.id, false, b.kind, b.classId, b.id, false);
    NotificationIdNamesAssignment(a.kind, a.classId, a.id, false, b.kind, b.classId, b.id, true);
    NotificationIdNamesAssignment(a.kind, a.classId, a.id, true, b.kind, b.classId, b.id, false);
    NotificationIdNamesAssignment(a.kind, a.classId, a.id, true, b.kind, b.classId, b.id, true);
  }

  function Count(created: seq<Notification>, n: Notification): nat
  {
    multiset(created)[n]
  }

  /** One step adds exactly one copy of each reminder whose rule holds. */
  lemma ProcessCounts(s: TickState, a: Activity, now: int)
    ensures Count(Process(s, a, now).created, Notice24(a)) == Count(s.created, Notice24(a)) + (if Fires24(s, a, now) then 1 else 0)
    ensures Count(Process(s, a, now).created, Notice1h(a)) == Count(s.created, Notice1h(a)) + (if Fires1h(s, a, now) then 1 else 0)
  {
    ProcessEffect(s, a, now);
    NoticesDiffer(a);
    var f24: seq<Notification> := if Fires24(s, a, now) then [Notice24(a)] else [];
    var f1h: seq<Notification> := if Fires1h(s, a, now) then [Notice1h(a)] else [];
    assert multiset(Process(s, a, now).created) == multiset(s.created) + multiset(f24) + multiset(f1h);
  }

  /** Repeated ticks over the same assignment at the clock readings `times`. */
  function Repeat(s: TickState, a: Activity, times: seq<int>): TickState
  {
    if times == [] then s else Process(Repeat(s, a, times[..|times| - 1]), a, times[|times| - 1])
  }

  predicate NonDecreasing(times: seq<int>)
  {
    forall i, j :: 0 <= i < j < |times| ==> times[i] <= times[j]
  }

  /** However many ticks run, with the clock moving forward, an assignment gets at most one
      24-hour and at most one 1-hour reminder: after firing, the listed id blocks a repeat,
      and the id is dropped only once the assignment is handed in or overdue, after which
      the window can no longer hold. */
  lemma AtMostOneReminderPerWindow(s: TickState, a: Activity, times: seq<int>)
    requires NonDecreasing(times)
    ensures Count(Repeat(s, a, times).created, Notice24(a)) <= Count(s.created, Notice24(a)) + 1
    ensures Count(Repeat(s, a, times).created, Notice1h(a)) <= Count(s.created, Notice1h(a)) + 1
  {
    if times != [] {
      RepeatInvariant(s, a, times);
    }
  }

  /** A reminder that has fired is blocked afterwards: its id is listed, or the assignment
      is handed in, or it is overdue at the latest clock reading. */
  predicate Blocked(listed: bool, a: Activity, last: int)
  {
    listed || IsSubmitted(a) || DateValue(a.dueDate) < last
  }

  /** At most one 24-hour reminder beyond `base` so far, and a blocked one if there was one. */
  predicate Once24(r: TickState, a: Activity, base: nat, last: int)
  {
    var c := Count(r.created, Notice24(a));
    c <= base + 1 && (c == base + 1 ==> Blocked(a.id in r.notified, a, last))
  }

  predicate Once1h(r: TickState, a: Activity, base: nat, last: int)
  {
    var c := Count(r.created, Notice1h(a));
    c <= base + 1 && (c == base + 1 ==> Blocked(a.id in r.notified1h, a, last))
  }

  /** One more tick at a later clock reading keeps both at-most-once invariants. */
  lemma StepKeepsOnce(prev: TickState, a: Activity, t: int, last: int, base24: nat, base1h: nat)
    requires last <= t && Once24(prev, a, base24, last) && Once1h(prev, a, base1h, last)
    ensures Once24(Process(prev, a, t), a, base24, t) && Once1h(Process(prev, a, t), a, base1h, t)
  {
    ProcessEffect(prev, a, t);
    ProcessCounts(prev, a, t);
  }

  lemma {:induction false} RepeatInvariant(s: TickState, a: Activity, times: seq<int>)
    requires times != [] && NonDecreasing(times)
    ensures Once24(Repeat(s, a, times), a, Count(s.created, Notice24(a)), times[|times| - 1])
    ensures Once1h(Repeat(s, a, times), a, Count(s.created, Notice1h(a)), times[|times| - 1])
  {
    var init := times[..|times| - 1];
    var t := times[|times| - 1];
    if init == [] {
      StepKeepsOnce(s, a, t, t, Count(s.created, Notice24(a)), Count(s.created, Notice1h(a)));
    } else {
      assert NonDecreasing(init) by {
        forall i, j | 0 <= i < j < |init| ensures init[i] <= init[j] {
          assert init[i] == times[i] && init[j] == times[j];
        }
      }
      RepeatInvariant(s, a, init);
      var last := init[|init| - 1];
      assert last == times[|times| - 2] <= t;
      StepKeepsOnce(Repeat(s, a, init), a, t, last, Count(s.created, Notice24(a)), Count(s.created, Notice1h(a)));
    }
  }

  /** Removing one entry keeps every other value's membership. */
  lemma SpliceKeepsOthers(s: seq<nat>, i: nat, x: nat)
    requires i < |s| && x != s[i]
    ensures x in Splice(s, i) <==> x in s
  {
    var r := Splice(s, i);
    if x in s {
      var k :| 0 <= k < |s| && s[k] == x;
      assert r[if k < i then k else k - 1] == x;
    }
  }

  /** `r` agrees with `s` on everything the invariants say about `a`: both listings and the
      number of each of `a`'s reminders. */
  predicate KeepsFor(s: TickState, r: TickState, a: Activity)
  {
    && (a.id in r.notified <==> a.id in s.notified) && (a.id in r.notified1h <==> a.id in s.notified1h)
    && Count(r.created, Notice24(a)) == Count(s.created, Notice24(a))
    && Count(r.created, Notice1h(a)) == Count(s.created, Notice1h(a))
  }

  lemma CleanOther(s: TickState, b: Activity, now: int, a: Activity)
    requires b.id != a.id
    ensures KeepsFor(s, Clean24(s, b, now), a) && KeepsFor(s, Clean1h(s, b, now), a)
  {
    if Clean24(s, b, now) != s {
      SpliceKeepsOthers(s.notified, IndexOf(s.notified, b.id), a.id);
    }
    if Clean1h(s, b, now) != s {
      SpliceKeepsOthers(s.notified1h, IndexOf(s.notified1h, b.id), a.id);
    }
  }

  lemma RemindOther(s: TickState, b: Activity, now: int, a: Activity)
    requires b.id != a.id
    ensures KeepsFor(s, Remind24(s, b, now), a) && KeepsFor(s, Remind1h(s, b, now), a)
  {
    NoticesApart(a, b);
    assert multiset(s.created + [Notice24(b)]) == multiset(s.created) + multiset{Notice24(b)};
    assert multiset(s.created + [Notice1h(b)]) == multiset(s.created) + multiset{Notice1h(b)};
  }

  /** Processing an assignment with another id leaves `a`'s listing and `a`'s reminders alone. */
  lemma ProcessOther(s: TickState, b: Activity, now: int, a: Activity)
    requires b.id != a.id
    ensures KeepsFor(s, Process(s, b, now), a)
  {
    var s1 := Clean24(s, b, now);
    var s2 := Clean1h(s1, b, now);
    var s3 := Remind24(s2, b, now);
    CleanOther(s, b, now, a);
    CleanOther(s1, b, now, a);
    RemindOther(s2, b, now, a);
    RemindOther(s3, b, now, a);
  }

  /** The invariants survive the clock moving forward with nothing processed. */
  lemma OnceLater(r: TickState, a: Activity, base24: nat, base1h: nat, last: int, t: int)
    requires last <= t && Once24(r, a, base24, last) && Once1h(r, a, base1h, last)
    ensures Once24(r, a, base24, t) && Once1h(r, a, base1h, t)
  {
  }

  /** Every record with `a`'s id among `assignments` is `a` itself. */
  predicate SoleRecordIn(a: Activity, assignments: seq<Activity>)
  {
    forall b :: b in assignments && b.id == a.id ==> b == a
  }

  /** One class at clock reading `t` keeps both invariants for `a`: the steps on `a` keep them
      by `StepKeepsOnce`, the steps on other assignments by `ProcessOther`. */
  lemma {:induction false} ProcessAllKeepsOnce(s: TickState, a: Activity, assignments: seq<Activity>, t: int,
                                               last: int, base24: nat, base1h: nat)
    requires last <= t && Once24(s, a, base24, last) && Once1h(s, a, base1h, last)
    requires SoleRecordIn(a, assignments)
    ensures Once24(ProcessAll(s, assignments, t), a, base24, t) && Once1h(ProcessAll(s, assignments, t), a, base1h, t)
  {
    if assignments == [] {
      OnceLater(s, a, base24, base1h, last, t);
    } else {
      var init := assignments[..|assignments| - 1];
      var b := assignments[|assignments| - 1];
      assert SoleRecordIn(a, init) by {
        forall x | x in init ensures x in assignments {
          var k :| 0 <= k < |init| && init[k] == x;
          assert assignments[k] == x;
        }
      }
      ProcessAllKeepsOnce(s, a, init, t, last, base24, base1h);
      var prev := ProcessAll(s, init, t);
      if b.id == a.id {
        StepKeepsOnce(prev, a, t, t, base24, base1h);
      } else {
        ProcessOther(prev, b, t, a);
      }
    }
  }

  /** The clock reading after the fetches in `responses`, starting from `last`: the reading
      of the last fetch that succeeded. */
  function LastTime(last: int, responses: seq<Response>): int
  {
    if responses == [] then last
    else match responses[|responses| - 1]
      case Failed => LastTime(last, responses[..|responses| - 1])
      case Fetched(now, _) => now
  }

  /** Each successful fetch reads the clock no earlier than the reading before it. */
  predicate Clocked(last: int, responses: seq<Response>)
  {
    responses != [] ==>
      var init := responses[..|responses| - 1];
      && Clocked(last, init)
      && (responses[|responses| - 1].Fetched? ==> LastTime(last, init) <= responses[|responses| - 1].now)
  }

  /** Every fetched record with `a`'s id is `a` itself: the record is the same wherever it
      appears, and no other activity shares its id. */
  predicate SoleRecord(a: Activity, responses: seq<Response>)
  {
    forall i :: 0 <= i < |responses| && responses[i].Fetched? ==> SoleRecordIn(a, responses[i].activities)
  }

  /** A whole tick keeps both invariants for `a`, whatever else its classes hold. */
  lemma {:induction false} ProcessClassesKeepsOnce(s: TickState, a: Activity, responses: seq<Response>,
                                                   last: int, base24: nat, base1h: nat)
    requires Once24(s, a, base24, last) && Once1h(s, a, base1h, last)
    requires Clocked(last, responses) && SoleRecord(a, responses)
    ensures Once24(ProcessClasses(s, responses), a, base24, LastTime(last, responses))
    ensures Once1h(ProcessClasses(s, responses), a, base1h, LastTime(last, responses))
  {
    if responses != [] {
      var init := responses[..|responses| - 1];
      assert SoleRecord(a, init) by {
        forall i | 0 <= i < |init| && init[i].Fetched? ensures SoleRecordIn(a, init[i].activities) {
          assert init[i] == responses[i];
        }
      }
      ProcessClassesKeepsOnce(s, a, init, last, base24, base1h);
      match responses[|responses| - 1]
      case Failed =>
      case Fetched(now, raw) =>
        assert SoleRecordIn(a, DueDated(raw)) by {
          assert SoleRecordIn(a, responses[|responses| - 1].activities);
          forall b | b in DueDated(raw) ensures b in raw {
            DueDatedKeepsExactly(raw, [], b);
          }
        }
        ProcessAllKeepsOnce(ProcessClasses(s, init), a, DueDated(raw), now, LastTime(last, init), base24, base1h);
    }
  }

  lemma CleanLog(s: TickState, a: Activity, now: int)
    ensures Clean24(s, a, now) == Clean24(s.(created := []), a, now).(created := s.created)
    ensures Clean1h(s, a, now) == Clean1h(s.(created := []), a, now).(created := s.created)
  {
  }

  lemma RemindLog(s: TickState, a: Activity, now: int)
    ensures var r := Remind24(s.(created := []), a, now); Remind24(s, a, now) == r.(created := s.created + r.created)
    ensures var r := Remind1h(s.(created := []), a, now); Remind1h(s, a, now) == r.(created := s.created + r.created)
  {
  }

  /** Processing does not read the log: a state with a longer log produces the same lists and
      the same new notifications after it. */
  lemma ProcessLog(s: TickState, a: Activity, now: int)
    ensures var r := Process(s.(created := []), a, now);
      Process(s, a, now) == r.(created := s.created + r.created)
  {
    var e := s.(created := []);
    var s1, e1 := Clean24(s, a, now), Clean24(e, a, now);
    CleanLog(s, a, now);
    var s2, e2 := Clean1h(s1, a, now), Clean1h(e1, a, now);
    CleanLog(s1, a, now);
    assert s1.(created := []) == e1;
    var s3, e3 := Remind24(s2, a, now), Remind24(e2, a, now);
    RemindLog(s2, a, now);
    assert s2.(created := []) == e2;
    assert s3 == e3.(created := s.created + e3.created);
    RemindLog(s3, a, now);
    RemindLog(e3, a, now);
    assert s3.(created := []) == e3.(created := []);
  }

  lemma {:induction false} ProcessAllLog(s: TickState, assignments: seq<Activity>, now: int)
    ensures var r := ProcessAll(s.(created := []), assignments, now);
      ProcessAll(s, assignments, now) == r.(created := s.created + r.created)
  {
    if assignments != [] {
      var init := assignments[..|assignments| - 1];
      var b := assignments[|assignments| - 1];
      ProcessAllLog(s, init, now);
      var r0 := ProcessAll(s.(created := []), init, now);
      ProcessLog(r0.(created := s.created + r0.created), b, now);
      ProcessLog(r0, b, now);
      assert r0.(created := s.created + r0.created).(created := []) == r0.(created := []);
    }
  }

  lemma {:induction false} ProcessClassesLog(s: TickState, responses: seq<Response>)
    ensures var r := ProcessClasses(s.(created := []), responses);
      ProcessClasses(s, responses) == r.(created := s.created + r.created)
  {
    if responses != [] {
      var init := responses[..|responses| - 1];
      ProcessClassesLog(s, init);
      var r0 := ProcessClasses(s.(created := []), init);
      match responses[|responses| - 1]
      case Failed =>
      case Fetched(now, raw) =>
        ProcessAllLog(r0.(created := s.created + r0.created), DueDated(raw), now);
        ProcessAllLog(r0, DueDated(raw), now);
        assert r0.(created := s.created + r0.created).(created := []) == r0.(created := []);
    }
  }

  /** What one alarm leaves behind: the two lists the tick ends with (which is what storage
      holds afterwards, by `UnflaggedListUnchanged`) and the log extended with the tick's
      notifications. */
  function AlarmStep(s: TickState, responses: seq<Response>): TickState
  {
    var r := ProcessClasses(Start(s.notified, s.notified1h), responses);
    TickState(r.notified, r.notified1h, false, false, s.created + r.created)
  }

  /** Successive alarms; `ticks[k]` is what the fetches of the `k`-th alarm produced. */
  function Run(s: TickState, ticks: seq<seq<Response>>): TickState
  {
    if ticks == [] then s else AlarmStep(Run(s, ticks[..|ticks| - 1]), ticks[|ticks| - 1])
  }

  /** The clock reading after a run of alarms. */
  function RunTime(last: int, ticks: seq<seq<Response>>): int
  {
    if ticks == [] then last else LastTime(RunTime(last, ticks[..|ticks| - 1]), ticks[|ticks| - 1])
  }

  /** The clock never goes back, within an alarm or from one alarm to the next. */
  predicate RunClocked(last: int, ticks: seq<seq<Response>>)
  {
    ticks != [] ==>
      RunClocked(last, ticks[..|ticks| - 1]) && Clocked(RunTime(last, ticks[..|ticks| - 1]), ticks[|ticks| - 1])
  }

  lemma {:induction false} RunKeepsOnce(s: TickState, a: Activity, start: int, ticks: seq<seq<Response>>)
    requires RunClocked(start, ticks)
    requires forall k :: 0 <= k < |ticks| ==> SoleRecord(a, ticks[k])
    ensures Once24(Run(s, ticks), a, Count(s.created, Notice24(a)), RunTime(start, ticks))
    ensures Once1h(Run(s, ticks), a, Count(s.created, Notice1h(a)), RunTime(start, ticks))
  {
    if ticks != [] {
      var init := ticks[..|ticks| - 1];
      var responses := ticks[|ticks| - 1];
      assert forall k :: 0 <= k < |init| ==> init[k] == ticks[k];
      RunKeepsOnce(s, a, start, init);
      var prev := Run(s, init);
      var p0 := TickState(prev.notified, prev.notified1h, false, false, prev.created);
      assert p0.(created := []) == Start(prev.notified, prev.notified1h);
      ProcessClassesLog(p0, responses);
      ProcessClassesKeepsOnce(p0, a, responses, RunTime(start, init),
                              Count(s.created, Notice24(a)), Count(s.created, Notice1h(a)));
    }
  }

  /** Over any run of alarms with the clock moving forward, an assignment whose record is the
      same in every alarm, and whose id no other record carries, gets at most one 24-hour and
      at most one 1-hour reminder, however the other assignments, the other classes and the
      failed fetches are interleaved with it. A record whose due date moves or whose submission
      is withdrawn after its id was dropped can be reminded again; `ProcessEffect` states the
      rule that holds step by step for changing records. */
  lemma AtMostOneReminderOverAlarms(s: TickState, a: Activity, start: int, ticks: seq<seq<Response>>)
    requires RunClocked(start, ticks)
    requires forall k :: 0 <= k < |ticks| ==> SoleRecord(a, ticks[k])
    ensures Count(Run(s, ticks).created, Notice24(a)) <= Count(s.created, Notice24(a)) + 1
    ensures Count(Run(s, ticks).created, Notice1h(a)) <= Count(s.created, Notice1h(a)) + 1
  {
    RunKeepsOnce(s, a, start, ticks);
  }

  /** A class whose fetch failed contributes nothing: the remaining classes are processed
      as if it were absent. */
  lemma {:induction false} FailedClassSkipped(s: TickState, before: seq<Response>, after: seq<Response>)
    ensures ProcessClasses(s, before + [Failed] + after) == ProcessClasses(s, before + after)
  {
    if after == [] {
      assert before + [Failed] + after == before + [Failed];
      assert (before + [Failed])[..|before|] == before;
      assert before + after == before;
    } else {
      var rs := before + [Failed] + after;
      var rs' := before + after;
      var init := after[..|after| - 1];
      assert rs[..|rs| - 1] == before + [Failed] + init;
      assert rs'[..|rs'| - 1] == before + init;
      assert rs[|rs| - 1] == rs'[|rs'| - 1];
      FailedClassSkipped(s, before, init);
    }
  }

  /** A dirty flag that stays down means its list was never touched. */
  lemma ProcessFlags(s: TickState, a: Activity, now: int)
    ensures !Process(s, a, now).shouldUpdate ==> !s.shouldUpdate && Process(s, a, now).notified == s.notified
    ensures !Process(s, a, now).shouldUpdate1h ==> !s.shouldUpdate1h && Process(s, a, now).notified1h == s.notified1h
  {
    var s1 := Clean24(s, a, now);
    Clean24Effect(s, a, now);
    Clean1hEffect(s1, a, now);
  }

  lemma {:induction false} ProcessAllFlags(s: TickState, assignments: seq<Activity>, now: int)
    ensures var r := ProcessAll(s, assignments, now);
      && (!r.shouldUpdate ==> !s.shouldUpdate && r.notified == s.notified)
      && (!r.shouldUpdate1h ==> !s.shouldUpdate1h && r.notified1h == s.notified1h)
  {
    if assignments != [] {
      ProcessAllFlags(s, assignments[..|assignments| - 1], now);
      ProcessFlags(ProcessAll(s, assignments[..|assignments| - 1], now), assignments[|assignments| - 1], now);
    }
  }

  /** Over a whole tick, a list whose flag is still down at the end is exactly the list read at
      the start, so skipping its write loses nothing. */
  lemma {:induction false} UnflaggedListUnchanged(s: TickState, responses: seq<Response>)
    ensures var r := ProcessClasses(s, responses);
      && (!r.shouldUpdate ==> !s.shouldUpdate && r.notified == s.notified)
      && (!r.shouldUpdate1h ==> !s.shouldUpdate1h && r.notified1h == s.notified1h)
  {
    if responses != [] {
      var init := responses[..|responses| - 1];
      UnflaggedListUnchanged(s, init);
      match responses[|responses| - 1]
      case Failed =>
      case Fetched(now, raw) => ProcessAllFlags(ProcessClasses(s, init), DueDated(raw), now);
    }
  }

  /** One pass of the inner loop: the cleanup of both lists, then the two reminders. */
  method CheckAssignment(notified: seq<nat>, notified1h: seq<nat>, shouldUpdateIn: bool, shouldUpdate1hIn: bool,
                         logIn: seq<Notification>, assignment: Activity, now: int)
    returns (notifiedAssignments: seq<nat>, notifiedAssignments1h: seq<nat>, shouldUpdate: bool, shouldUpdate1h: bool,
             log: seq<Notification>)
    ensures TickState(notifiedAssignments, notifiedAssignments1h, shouldUpdate, shouldUpdate1h, log)
            == Process(TickState(notified, notified1h, shouldUpdateIn, shouldUpdate1hIn, logIn), assignment, now)
  {
    notifiedAssignments, notifiedAssignments1h, shouldUpdate, shouldUpdate1h, log :=
      notified, notified1h, shouldUpdateIn, shouldUpdate1hIn, logIn;
    var isSubmitted := IsSubmitted(assignment);
    var dueDate := DateValue(assignment.dueDate);
    var isOverdue := dueDate < now;
    ghost var s0 := TickState(notifiedAssignments, notifiedAssignments1h, shouldUpdate, shouldUpdate1h, log);

    if assignment.id in notifiedAssignments {
      if isSubmitted || isOverdue {
        var index := IndexOf(notifiedAssignments, assignment.id);
        if index > -1 {
          notifiedAssignments := notifiedAssignments[..index] + notifiedAssignments[index + 1..];
          shouldUpdate := true;
        }
      }
    }
    ghost var s1 := TickState(notifiedAssignments, notifiedAssignments1h, shouldUpdate, shouldUpdate1h, log);
    assert s1 == Clean24(s0, assignment, now);

    if assignment.id in notifiedAssignments1h {
      if isSubmitted || isOverdue {
        var index := IndexOf(notifiedAssignments1h, assignment.id);
        if index > -1 {
          notifiedAssignments1h := notifiedAssignments1h[..index] + notifiedAssignments1h[index + 1..];
          shouldUpdate1h := true;
        }
      }
    }
    ghost var s2 := TickState(notifiedAssignments, notifiedAssignments1h, shouldUpdate, shouldUpdate1h, log);
    assert s2 == Clean1h(s1, assignment, now);

    if assignment.dueDate.Some? && !isSubmitted {
      if assignment.id !in notifiedAssignments && dueDate > now && dueDate <= now + DayMs {
        log := log + [Notice24(assignment)];
        notifiedAssignments := notifiedAssignments + [assignment.id];
        shouldUpdate := true;
      }
      assert TickState(notifiedAssignments, notifiedAssignments1h, shouldUpdate, shouldUpdate1h, log)
             == Remind24(s2, assignment, now);
      if assignment.id !in notifiedAssignments1h && dueDate > now && dueDate <= now + HourMs {
        log := log + [Notice1h(assignment)];
        notifiedAssignments1h := notifiedAssignments1h + [assignment.id];
        shouldUpdate1h := true;
      }
    }
  }

  /** `userId` is a string; the empty string is falsy. */
  predicate Truthy(userId: Option<string>)
  {
    userId.Some? && userId.value != ""
  }

  /** The extension's background: the persisted lists and a record of every notification
      created and every storage write, in order. */
  class Notifier {
    var storedNotified: seq<nat>      // `notifiedAssignments` in storage (unset reads as [])
    var storedNotified1h: seq<nat>    // `notifiedAssignments1h` in storage
    var created: seq<Notification>
    var writes: seq<StorageKey>

    constructor ()
      ensures storedNotified == [] && storedNotified1h == [] && created == [] && writes == []
    {
      storedNotified, storedNotified1h, created, writes := [], [], [], [];
    }

    /** The alarm listener. `responses[i]` is what fetching the activities of
        `classInfo[i]` produced. */
    method OnAlarm(alarmName: string, userId: Option<string>, classInfo: Option<seq<ClassInfo>>, responses: seq<Response>)
      requires classInfo.Some? ==> |responses| == |classInfo.value|
      modifies this
      ensures !(alarmName == "checkAssignments" && Truthy(userId) && classInfo.Some?) ==>
        storedNotified == old(storedNotified) && storedNotified1h == old(storedNotified1h)
        && created == old(created) && writes == old(writes)
      ensures alarmName == "checkAssignments" && Truthy(userId) && classInfo.Some? ==>
        var r := ProcessClasses(Start(old(storedNotified), old(storedNotified1h)), responses);
        && created == old(created) + r.created
        && storedNotified == (if r.shouldUpdate then r.notified else old(storedNotified))
        && storedNotified1h == (if r.shouldUpdate1h then r.notified1h else old(storedNotified1h))
        && writes == old(writes) + (if r.shouldUpdate then [NotifiedAssignmentsKey] else [])
                                 + (if r.shouldUpdate1h then [NotifiedAssignments1hKey] else [])
      ensures alarmName == "checkAssignments" && Truthy(userId) && classInfo.Some? ==>
        TickState(storedNotified, storedNotified1h, false, false, created)
        == AlarmStep(TickState(old(storedNotified), old(storedNotified1h), false, false, old(created)), responses)
      ensures NoDup(old(storedNotified)) && NoDup(old(storedNotified1h)) ==>
        NoDup(storedNotified) && NoDup(storedNotified1h)
    {
      if alarmName != "checkAssignments" {
        return;
      }
      var notifiedAssignments := storedNotified;
      var notifiedAssignments1h := storedNotified1h;
      if !Truthy(userId) || classInfo.None? {
        return;
      }
      var shouldUpdate := false;
      var shouldUpdate1h := false;
      var log: seq<Notification> := [];
      ghost var start := Start(notifiedAssignments, notifiedAssignments1h);

      for i := 0 to |responses|
        invariant TickState(notifiedAssignments, notifiedAssignments1h, shouldUpdate, shouldUpdate1h, log)
                  == ProcessClasses(start, responses[..i])
        invariant unchanged(this)
      {
        assert responses[..i + 1][..i] == responses[..i];
        match responses[i]
        case Failed =>
          // the exception is caught and logged; nothing else happens for this class
        case Fetched(now, raw) =>
          var assignments := DueDated(raw);
          ghost var base := ProcessClasses(start, responses[..i]);
          for j := 0 to |assignments|
            invariant TickState(notifiedAssignments, notifiedAssignments1h, shouldUpdate, shouldUpdate1h, log)
                      == ProcessAll(base, assignments[..j], now)
            invariant unchanged(this)
          {
            assert assignments[..j + 1][..j] == assignments[..j];
            notifiedAssignments, notifiedAssignments1h, shouldUpdate, shouldUpdate1h, log :=
              CheckAssignment(notifiedAssignments, notifiedAssignments1h, shouldUpdate, shouldUpdate1h, log, assignments[j], now);
          }
          assert assignments[..|assignments|] == assignments;
      }
      assert responses[..|responses|] == responses;
      ghost var r := ProcessClasses(start, responses);
      assert r == TickState(notifiedAssignments, notifiedAssignments1h, shouldUpdate, shouldUpdate1h, log);
      UnflaggedListUnchanged(start, responses);

      created := created + log;
      if shouldUpdate {
        storedNotified := notifiedAssignments;
        writes := writes + [NotifiedAssignmentsKey];
      }
      if shouldUpdate1h {
        storedNotified1h := notifiedAssignments1h;
        writes := writes + [NotifiedAssignments1hKey];
      }
      if NoDup(start.notified) && NoDup(start.notified1h) {
        ProcessClassesNoDup(start, responses);
      }
    }
  }

  /** `notificationId.split("-").slice(1)` destructured into `[type, classId, assignmentId]`. */
  function ParseNotificationId(notificationId: string): (Option<string>, Option<string>, Option<string>)
  {
    var parts := Split(notificationId, '-')[1..];
    (At(parts, 0), At(parts, 1), At(parts, 2))
  }

  /** The page of an assignment: `activity` for type `ASM`, `quiz` for anything else. */
  function AssignmentUrl(kind: Option<string>, classId: Option<string>, assignmentId: Option<string>): string
  {
    "https://app.leb2.org/class/" + Render(classId) + "/"
    + (if kind == Some("ASM") then "activity" else "quiz") + "/" + Render(assignmentId)
  }

  /** The button handler: the URL of the tab it opens, or nothing for a foreign notification. */
  function OnButtonClicked(notificationId: string): Option<string>
  {
    if StartsWith(notificationId, "assignwatch-") then
      var (kind, classId, assignmentId) := ParseNotificationId(notificationId);
      Some(AssignmentUrl(kind, classId, assignmentId))
    else None
  }

  /** The last piece of an id: the assignment id, then `1h` for the one-hour reminder. */
  lemma TailPieces(ds: string, oneHour: bool)
    requires '-' !in ds
    ensures Split(ds + (if oneHour then "-1h" else ""), '-') == [ds] + (if oneHour then ["1h"] else [])
  {
    if oneHour {
      assert ds + "-1h" == ds + ['-'] + "1h";
      SplitJoin(ds, '-', "1h");
      SplitNoSeparator("1h", '-');
    } else {
      assert ds + "" == ds;
      SplitNoSeparator(ds, '-');
    }
  }

  /** Three dash-free fields joined by `-` in front of `rest` split off as three pieces. */
  lemma SplitThreeFields(a: string, b: string, c: string, rest: string)
    requires '-' !in a && '-' !in b && '-' !in c
    ensures Split(a + "-" + b + "-" + c + "-" + rest, '-') == [a, b, c] + Split(rest, '-')
  {
    assert a + "-" + b + "-" + c + "-" + rest == a + ['-'] + (b + ['-'] + (c + ['-'] + rest));
    SplitJoin(a, '-', b + ['-'] + (c + ['-'] + rest));
    SplitJoin(b, '-', c + ['-'] + rest);
    SplitJoin(c, '-', rest);
  }

  /** A constructed id splits on `-` into its prefix, type, class id, assignment id and optional `1h`. */
  lemma NotificationIdPieces(kind: string, classId: nat, id: nat, oneHour: bool)
    requires '-' !in kind
    ensures Split(NotificationId(kind, classId, id, oneHour), '-')
            == ["assignwatch", kind, NatToString(classId), NatToString(id)] + (if oneHour then ["1h"] else [])
  {
    var cs, ds := NatToString(classId), NatToString(id);
    NatToStringHasNoDash(classId);
    NatToStringHasNoDash(id);
    var suffix := if oneHour then "-1h" else "";
    assert "assignwatch-" == "assignwatch" + "-";
    assert '-' !in "assignwatch";
    assert NotificationId(kind, classId, id, oneHour) == "assignwatch" + "-" + kind + "-" + cs + "-" + (ds + suffix);
    SplitThreeFields("assignwatch", kind, cs, ds + suffix);
    TailPieces(ds, oneHour);
  }

  lemma NotificationIdPrefix(kind: string, classId: nat, id: nat, oneHour: bool)
    ensures StartsWith(NotificationId(kind, classId, id, oneHour), "assignwatch-")
  {
    var nid := NotificationId(kind, classId, id, oneHour);
    assert nid == "assignwatch-" + (kind + "-" + NatToString(classId) + "-" + NatToString(id) + (if oneHour then "-1h" else ""));
  }

  /** Parsing a constructed id gives back its type, class id and assignment id (as the decimal
      strings that were written), for both reminders, provided the type holds no `-`; the
      click therefore opens the assignment's own page. */
  lemma NotificationIdRoundTrip(kind: string, classId: nat, id: nat, oneHour: bool)
    requires '-' !in kind
    ensures ParseNotificationId(NotificationId(kind, classId, id, oneHour))
            == (Some(kind), Some(NatToString(classId)), Some(NatToString(id)))
    ensures OnButtonClicked(NotificationId(kind, classId, id, oneHour))
            == Some(AssignmentUrl(Some(kind), Some(NatToString(classId)), Some(NatToString(id))))
  {
    NotificationIdPieces(kind, classId, id, oneHour);
    NotificationIdPrefix(kind, classId, id, oneHour);
    var parts := Split(NotificationId(kind, classId, id, oneHour), '-')[1..];
    assert parts[0] == kind && parts[1] == NatToString(classId) && parts[2] == NatToString(id);
  }

  /** A notification whose id does not start with `assignwatch-` opens nothing. */
  lemma ForeignNotificationIgnored(notificationId: string)
    requires !StartsWith(notificationId, "assignwatch-")
    ensures OnButtonClicked(notificationId).None?
  {
  }
}
