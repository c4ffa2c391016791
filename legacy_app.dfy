/** entrypoints/content/app.tsx: the older dialog of the content script. Hidden classes and
    assignments are kept as lists of id strings; each class card shows its due-dated
    assignments minus the finished-and-late and hidden ones, narrowed by the radio filter
    dropdown, with a relative due label; opening the dialog from a class sub-page first
    redirects to the class list. */
module LegacyApp {
  import opened Types
  import opened Seqs
  import opened Text
  import opened RadioFilter

  /** A class card as scraped by this dialog: the id is the text after the first `-` of the
      card's `name` attribute, so it is a string. */
  datatype LegacyClass = LegacyClass(id: string, title: string, description: string)

  /** The hidden-id lists of this dialog (`local:hiddenClasses`, `local:hiddenAssignments`),
      each written back to storage whenever it is replaced. */
  class LegacyVisibility {
    var hiddenClasses: seq<string>
    var hiddenAssignments: seq<string>

    /** `loadPreferences`: a missing stored list reads as `[]`. */
    constructor (savedHiddenClasses: Option<seq<string>>, savedHiddenAssignments: Option<seq<string>>)
      ensures hiddenClasses == (if savedHiddenClasses.Some? then savedHiddenClasses.value else [])
      ensures hiddenAssignments == (if savedHiddenAssignments.Some? then savedHiddenAssignments.value else [])
    {
      hiddenClasses := if savedHiddenClasses.Some? then savedHiddenClasses.value else [];
      hiddenAssignments := if savedHiddenAssignments.Some? then savedHiddenAssignments.value else [];
    }

    /** `handleClassVisibilityChange`: checking shows the class by removing every copy of its
        id; unchecking appends the id without looking for an earlier copy. */
    method HandleClassVisibilityChange(classId: string, isChecked: bool)
      modifies this
      ensures hiddenClasses == if isChecked then Without(old(hiddenClasses), classId) else old(hiddenClasses) + [classId]
      ensures isChecked ==> classId !in hiddenClasses
      ensures !isChecked ==> multiset(hiddenClasses)[classId] == multiset(old(hiddenClasses))[classId] + 1
      ensures hiddenAssignments == old(hiddenAssignments)
    {
      var newHiddenClasses := if isChecked then Without(hiddenClasses, classId) else hiddenClasses + [classId];
      hiddenClasses := newHiddenClasses;
    }

    /** `handleAssignmentVisibilityChange`: the same rule on the hidden-assignment list. */
    method HandleAssignmentVisibilityChange(assignmentId: string, isChecked: bool)
      modifies this
      ensures hiddenAssignments == if isChecked then Without(old(hiddenAssignments), assignmentId) else old(hiddenAssignments) + [assignmentId]
      ensures isChecked ==> assignmentId !in hiddenAssignments
      ensures !isChecked ==> multiset(hiddenAssignments)[assignmentId] == multiset(old(hiddenAssignments))[assignmentId] + 1
      ensures hiddenClasses == old(hiddenClasses)
    {
      var newHiddenAssignments := if isChecked then Without(hiddenAssignments, assignmentId) else hiddenAssignments + [assignmentId];
      hiddenAssignments := newHiddenAssignments;
    }
  }

  /** Hiding an id any number of times and then showing it once leaves the list as showing
      it alone would: the duplicates that unchecked appends pile up never outlive a show. */
  lemma {:induction false} ShowUndoesRepeatedHides(prev: seq<string>, id: string, times: nat)
    ensures Without(prev + Copies(id, times), id) == Without(prev, id)
    ensures multiset(prev + Copies(id, times))[id] == multiset(prev)[id] + times
  {
    WithoutAppend(prev, Copies(id, times), id);
    WithoutCopies(id, times);
    CopiesCount(id, times);
  }

  /** `times` unchecked clicks on the same id append this. */
  function Copies(id: string, times: nat): seq<string>
  {
    if times == 0 then [] else Copies(id, times - 1) + [id]
  }

  lemma {:induction false} WithoutCopies(id: string, times: nat)
    ensures Without(Copies(id, times), id) == []
  {
    if times > 0 {
      WithoutCopies(id, times - 1);
      WithoutAppend(Copies(id, times - 1), [id], id);
      assert Without([id], id) == [] by {
        assert [id][1..] == [];
      }
    }
  }

  lemma {:induction false} CopiesCount(id: string, times: nat)
    ensures multiset(Copies(id, times))[id] == times
  {
    if times > 0 {
      CopiesCount(id, times - 1);
    }
  }

  /** `quiz_submission_is_submitted === 1`. */
  predicate QuizDone(a: Activity)
  {
    a.quizSubmitted == 1
  }

  predicate DueDateExceeded(a: Activity)
  {
    a.dueDateExceed
  }

  /** `!lateAssignments.includes(a) || !submittedAssignments.includes(a)`, together with
      `!hiddenAssignments.includes(a.id.toString())`. */
  function BaseGuard(lateAssignments: seq<Activity>, submittedAssignments: seq<Activity>, hiddenAssignments: seq<string>): Activity -> bool
  {
    (a: Activity) => (a !in lateAssignments || a !in submittedAssignments) && NatToString(a.id) !in hiddenAssignments
  }

  /** The `assignments` of a class card, literally: the due-dated activities, then the
      membership tests on the late and the quiz-done sub-lists and on the hidden ids. */
  function BaseList(activities: seq<Activity>, hiddenAssignments: seq<string>): seq<Activity>
  {
    var assignmentsToSubmit := Filter(HasDueDate, activities);
    var submittedAssignments := Filter(QuizDone, activities);
    var lateAssignments := Filter(DueDateExceeded, assignmentsToSubmit);
    Filter(BaseGuard(lateAssignments, submittedAssignments, hiddenAssignments), assignmentsToSubmit)
  }

  /** A card keeps an activity that has a due date, is not both past due and quiz-done, and
      whose id, written in decimal, is not a hidden id. */
  predicate InBase(hiddenAssignments: seq<string>, a: Activity)
  {
    HasDueDate(a) && !(a.dueDateExceed && a.quizSubmitted == 1) && NatToString(a.id) !in hiddenAssignments
  }

  function InBaseBy(hiddenAssignments: seq<string>): Activity -> bool
  {
    (a: Activity) => InBase(hiddenAssignments, a)
  }

  function NotFinishedNorHidden(hiddenAssignments: seq<string>): Activity -> bool
  {
    (a: Activity) => !(a.dueDateExceed && a.quizSubmitted == 1) && NatToString(a.id) !in hiddenAssignments
  }

  /** The base list is the order-preserving subsequence of the activities satisfying `InBase`. */
  lemma BaseListExact(activities: seq<Activity>, hiddenAssignments: seq<string>)
    ensures BaseList(activities, hiddenAssignments) == Filter(InBaseBy(hiddenAssignments), activities)
  {
    var assignmentsToSubmit := Filter(HasDueDate, activities);
    var submittedAssignments := Filter(QuizDone, activities);
    var lateAssignments := Filter(DueDateExceeded, assignmentsToSubmit);
    var guard := BaseGuard(lateAssignments, submittedAssignments, hiddenAssignments);
    forall a | a in assignmentsToSubmit ensures guard(a) == NotFinishedNorHidden(hiddenAssignments)(a) {
      FilterMember(DueDateExceeded, assignmentsToSubmit, a);
      FilterMember(QuizDone, activities, a);
    }
    FilterCongruent(guard, NotFinishedNorHidden(hiddenAssignments), assignmentsToSubmit);
    FilterFilter(HasDueDate, NotFinishedNorHidden(hiddenAssignments), InBaseBy(hiddenAssignments), activities);
  }

  /** One entry of the `filters` array: a flag and the test it switches on. */
  datatype Condition = Condition(condition: bool, test: Activity -> bool)

  function KindIs(kind: string): Activity -> bool
  {
    (a: Activity) => a.kind == kind
  }

  function GroupTypeIs(groupType: string): Activity -> bool
  {
    (a: Activity) => a.groupType == groupType
  }

  /** `!task.quiz_submission_is_submitted` and its opposite, the truthiness test. */
  function QuizFlagIs(truthy: bool): Activity -> bool
  {
    (a: Activity) => (a.quizSubmitted != 0) == truthy
  }

  /** The six conditions, in their order in the source. */
  function Conditions(obj: FilterObject): seq<Condition>
  {
    [ Condition(Checked(obj, "assessmentType", "isAssignment"), KindIs("ASM")),
      Condition(Checked(obj, "assessmentType", "isQuiz"), KindIs("QUZ")),
      Condition(Checked(obj, "type", "isGRP"), GroupTypeIs("STU")),
      Condition(Checked(obj, "type", "isIND"), GroupTypeIs("IND")),
      Condition(Checked(obj, "submit", "isNotSubmit"), QuizFlagIs(false)),
      Condition(Checked(obj, "submit", "isSubmit"), QuizFlagIs(true)) ]
  }

  /** The activity satisfies the predicate of every condition that is switched on. */
  function PassesAll(filters: seq<Condition>): Activity -> bool
  {
    (a: Activity) => forall i :: 0 <= i < |filters| && filters[i].condition ==> filters[i].test(a)
  }

  lemma PassesAllSnoc(filters: seq<Condition>, c: Condition, a: Activity)
    ensures PassesAll(filters + [c])(a) == (PassesAll(filters)(a) && (c.condition ==> c.test(a)))
  {
    var all := filters + [c];
    if PassesAll(filters)(a) && (c.condition ==> c.test(a)) {
      forall i | 0 <= i < |all| && all[i].condition ensures all[i].test(a) {
        if i < |filters| {
          assert all[i] == filters[i];
        }
      }
    }
    if PassesAll(all)(a) {
      forall i | 0 <= i < |filters| && filters[i].condition ensures filters[i].test(a) {
        assert all[i] == filters[i];
      }
      assert all[|filters|] == c;
    }
  }

  /** `filters.forEach(...)`: each switched-on condition narrows `filteredTasks` by its predicate. */
  method FilterTasks(assignments: seq<Activity>, filters: seq<Condition>) returns (filteredTasks: seq<Activity>)
    ensures filteredTasks == Filter(PassesAll(filters), assignments)
  {
    filteredTasks := assignments;
    FilterAll(PassesAll(filters[..0]), assignments);
    for i := 0 to |filters|
      invariant filteredTasks == Filter(PassesAll(filters[..i]), assignments)
    {
      assert filters[..i + 1] == filters[..i] + [filters[i]];
      forall a | a in assignments
        ensures PassesAll(filters[..i + 1])(a) == (PassesAll(filters[..i])(a) && (filters[i].condition ==> filters[i].test(a)))
      {
        PassesAllSnoc(filters[..i], filters[i], a);
      }
      if filters[i].condition {
        FilterFilter(PassesAll(filters[..i]), filters[i].test, PassesAll(filters[..i + 1]), assignments);
        filteredTasks := Filter(filters[i].test, filteredTasks);
      } else {
        FilterCongruent(PassesAll(filters[..i]), PassesAll(filters[..i + 1]), assignments);
      }
    }
    assert filters[..|filters|] == filters;
  }

  /** The combined test of the six conditions, flag by flag. */
  lemma ConditionsMeaning(obj: FilterObject, a: Activity)
    ensures PassesAll(Conditions(obj))(a) <==>
      (Checked(obj, "assessmentType", "isAssignment") ==> a.kind == "ASM")
      && (Checked(obj, "assessmentType", "isQuiz") ==> a.kind == "QUZ")
      && (Checked(obj, "type", "isGRP") ==> a.groupType == "STU")
      && (Checked(obj, "type", "isIND") ==> a.groupType == "IND")
      && (Checked(obj, "submit", "isNotSubmit") ==> a.quizSubmitted == 0)
      && (Checked(obj, "submit", "isSubmit") ==> a.quizSubmitted != 0)
  {
    var cs := Conditions(obj);
    if PassesAll(cs)(a) {
      assert cs[0].condition ==> cs[0].test(a);
      assert cs[1].condition ==> cs[1].test(a);
      assert cs[2].condition ==> cs[2].test(a);
      assert cs[3].condition ==> cs[3].test(a);
      assert cs[4].condition ==> cs[4].test(a);
      assert cs[5].condition ==> cs[5].test(a);
    } else {
      var i :| 0 <= i < |cs| && cs[i].condition && !cs[i].test(a);
      assert i == 0 || i == 1 || i == 2 || i == 3 || i == 4 || i == 5;
    }
  }

  /** With no condition switched on, the loop leaves the list as it is. */
  lemma NoConditionKeepsAll(filters: seq<Condition>, assignments: seq<Activity>)
    requires forall i :: 0 <= i < |filters| ==> !filters[i].condition
    ensures Filter(PassesAll(filters), assignments) == assignments
  {
    FilterAll(PassesAll(filters), assignments);
  }

  /** The filter object the dialog starts with: every flag off. */
  function DefaultFilter(): FilterObject
  {
    map[ "submit" := map["isSubmit" := false, "isNotSubmit" := false],
         "type" := map["isIND" := false, "isGRP" := false],
         "assessmentType" := map["isAssignment" := false, "isQuiz" := false] ]
  }

  /** The two flag names of each section. */
  function SectionKeys(section: string): set<string>
  {
    if section == "submit" then {"isSubmit", "isNotSubmit"}
    else if section == "type" then {"isIND", "isGRP"}
    else if section == "assessmentType" then {"isAssignment", "isQuiz"}
    else {}
  }

  /** A section's Clear link: both of its flags set to false, every other section kept. */
  function ClearSection(obj: FilterObject, section: string): FilterObject
  {
    obj[section := map k | k in SectionKeys(section) :: false]
  }

  /** The default object and a cleared section switch no condition on; cleared elsewhere,
      a condition keeps its flag. */
  lemma ClearedConditionsOff(obj: FilterObject, section: string)
    ensures forall i :: 0 <= i < |Conditions(DefaultFilter())| ==> !Conditions(DefaultFilter())[i].condition
    ensures forall k :: !Checked(ClearSection(obj, section), section, k)
    ensures forall s, k :: s != section ==> Checked(ClearSection(obj, section), s, k) == Checked(obj, s, k)
  {
    var cs := Conditions(DefaultFilter());
    forall i | 0 <= i < |cs| ensures !cs[i].condition {
      assert i == 0 || i == 1 || i == 2 || i == 3 || i == 4 || i == 5;
    }
  }

  /** Choosing a radio in the `submit` section never switches both status conditions on. */
  lemma RadioNeverAsksBothStatuses(obj: FilterObject, itemKey: string, checked: bool)
    requires "submit" in obj
    ensures !(Checked(OnChange(obj, "submit", itemKey, checked), "submit", "isSubmit")
              && Checked(OnChange(obj, "submit", itemKey, checked), "submit", "isNotSubmit"))
  {
    OnChangeEffect(obj, "submit", itemKey, checked);
  }

  /** `(a) => hiddenAssignments.includes(a.id.toString())` and its negation. */
  function IdHidden(hiddenAssignments: seq<string>, hidden: bool): Activity -> bool
  {
    (a: Activity) => (NatToString(a.id) in hiddenAssignments) == hidden
  }

  /** `hiddenAssignmentsCount`. */
  function HiddenAssignmentsCount(activities: seq<Activity>, hiddenAssignments: seq<string>): nat
  {
    |Filter(IdHidden(hiddenAssignments, true), Filter(HasDueDate, activities))|
  }

  /** The count and the due-dated activities left visible add up to all due-dated activities. */
  lemma HiddenAssignmentsCountSplits(activities: seq<Activity>, hiddenAssignments: seq<string>)
    ensures HiddenAssignmentsCount(activities, hiddenAssignments)
            + |Filter(IdHidden(hiddenAssignments, false), Filter(HasDueDate, activities))| == |Filter(HasDueDate, activities)|
  {
    FilterSplit(IdHidden(hiddenAssignments, true), IdHidden(hiddenAssignments, false), Filter(HasDueDate, activities));
  }

  /** The count is zero exactly when no due-dated activity has a hidden id. */
  lemma HiddenAssignmentsCountZero(activities: seq<Activity>, hiddenAssignments: seq<string>)
    ensures HiddenAssignmentsCount(activities, hiddenAssignments) == 0 <==>
      forall a :: a in activities && a.dueDate.Some? ==> NatToString(a.id) !in hiddenAssignments
  {
    var dated := Filter(HasDueDate, activities);
    var hidden := Filter(IdHidden(hiddenAssignments, true), dated);
    if hidden != [] {
      var x := hidden[0];
      assert x in hidden;
      assert x in dated && NatToString(x.id) in hiddenAssignments;
      assert x in activities && x.dueDate.Some?;
    } else {
      forall a | a in activities && a.dueDate.Some? ensures NatToString(a.id) !in hiddenAssignments {
        FilterMember(HasDueDate, activities, a);
        FilterMember(IdHidden(hiddenAssignments, true), dated, a);
      }
    }
  }

  /** What a class card of the dialog lists: `None` for a hidden class (the card is not
      rendered); otherwise the filtered tasks and the hidden count. An unfetched class
      reads as having no activities. */
  datatype Card = Card(tasks: seq<Activity>, hiddenCount: nat)

  function ClassCard(hiddenClasses: seq<string>, hiddenAssignments: seq<string>, obj: FilterObject,
                     classInfo: LegacyClass, response: Option<seq<Activity>>): Option<Card>
  {
    if classInfo.id in hiddenClasses then None
    else
      var activities := if response.Some? then response.value else [];
      Some(Card(Filter(PassesAll(Conditions(obj)), BaseList(activities, hiddenAssignments)),
                HiddenAssignmentsCount(activities, hiddenAssignments)))
  }

  /** A card is rendered exactly for a class whose id is not hidden, and it lists exactly
      the fetched activities that are in the base list and pass every switched-on condition. */
  lemma ClassCardLists(hiddenClasses: seq<string>, hiddenAssignments: seq<string>, obj: FilterObject,
                       classInfo: LegacyClass, response: Option<seq<Activity>>, a: Activity)
    ensures ClassCard(hiddenClasses, hiddenAssignments, obj, classInfo, response).Some? <==> classInfo.id !in hiddenClasses
    ensures ClassCard(hiddenClasses, hiddenAssignments, obj, classInfo, response).Some? ==>
      (a in ClassCard(hiddenClasses, hiddenAssignments, obj, classInfo, response).value.tasks <==>
        response.Some? && a in response.value && InBase(hiddenAssignments, a) && PassesAll(Conditions(obj))(a))
  {
    if classInfo.id !in hiddenClasses {
      var activities := if response.Some? then response.value else [];
      BaseListExact(activities, hiddenAssignments);
    }
  }

  /** `due.diff(currentTime, unit)`: the difference in whole units, truncated toward zero. */
  function TruncDiv(x: int, unit: nat): int
    requires unit > 0
  {
    if x >= 0 then x / unit else -((-x) / unit)
  }

  /** JavaScript's `%`: the remainder takes the sign of the dividend. */
  function JsRem(x: int, d: nat): int
    requires d > 0
  {
    x - d * TruncDiv(x, d)
  }

  const SecondMs := 1000
  const MinuteMs := 60000
  const HourMs := 3600000
  const DayMs := 86400000

  /** The label `formatDueDate` renders; an omitted remainder is `None`. */
  datatype DueLabel =
    | NoDueDate
    | Passed
    | MinutesLeft(minutes: int)
    | HoursLeft(hours: int, extraMinutes: Option<int>)
    | DaysLeft(days: int, extraHours: Option<int>)

  /** `formatDueDate(dueDate)` at `currentTime`. */
  function FormatDueDate(dueDate: Option<int>, currentTime: int): DueLabel
  {
    if dueDate.None? then NoDueDate
    else
      var d := dueDate.value - currentTime;
      var diffDays := TruncDiv(d, DayMs);
      var diffHours := TruncDiv(d, HourMs);
      var diffMinutes := TruncDiv(d, MinuteMs);
      var diffSeconds := TruncDiv(d, SecondMs);
      if diffSeconds < 0 then Passed
      else if diffHours < 1 then MinutesLeft(diffMinutes)
      else if diffHours < 24 then
        var remainingMinutes := JsRem(diffMinutes, 60);
        HoursLeft(diffHours, if remainingMinutes > 0 then Some(remainingMinutes) else None)
      else
        var remainingHours := JsRem(diffHours, 24);
        DaysLeft(diffDays, if remainingHours > 0 then Some(remainingHours) else None)
  }

  /** The empty label exactly when there is no due date; otherwise the bucket is decided by
      the time left `d`: passed once a whole second is gone,
      minutes below an hour (zero for the first sub-second overrun), hours below a day, days
      beyond. */
  lemma FormatDueDateBuckets(due: int, currentTime: int)
    ensures FormatDueDate(None, currentTime) == NoDueDate && !FormatDueDate(Some(due), currentTime).NoDueDate?
    ensures var d := due - currentTime; var r := FormatDueDate(Some(due), currentTime);
      && (r.Passed? <==> d <= -SecondMs)
      && (r.MinutesLeft? <==> -SecondMs < d < HourMs)
      && (r.HoursLeft? <==> HourMs <= d < DayMs)
      && (r.DaysLeft? <==> DayMs <= d)
      && (r.MinutesLeft? ==> r.minutes == if d < 0 then 0 else d / MinuteMs)
  {
  }

  /** In the hours bucket the whole hours are 1 to 23 and, with the shown minutes (1 to 59,
      omitted when 0), give the whole minutes left. */
  lemma HoursLabelAddsUp(due: int, currentTime: int)
    requires FormatDueDate(Some(due), currentTime).HoursLeft?
    ensures var d := due - currentTime; var r := FormatDueDate(Some(due), currentTime);
      && 1 <= r.hours <= 23
      && r.hours == d / HourMs
      && (r.extraMinutes.Some? ==> 1 <= r.extraMinutes.value <= 59)
      && r.hours * 60 + (if r.extraMinutes.Some? then r.extraMinutes.value else 0) == d / MinuteMs
  {
    var d := due - currentTime;
    assert (d / MinuteMs) / 60 == d / HourMs;
  }

  /** In the days bucket the whole days are at least 1 and, with the shown hours (1 to 23,
      omitted when 0), give the whole hours left. */
  lemma DaysLabelAddsUp(due: int, currentTime: int)
    requires FormatDueDate(Some(due), currentTime).DaysLeft?
    ensures var d := due - currentTime; var r := FormatDueDate(Some(due), currentTime);
      && 1 <= r.days
      && r.days == d / DayMs
      && (r.extraHours.Some? ==> 1 <= r.extraHours.value <= 23)
      && r.days * 24 + (if r.extraHours.Some? then r.extraHours.value else 0) == d / HourMs
  {
    var d := due - currentTime;
    assert (d / HourMs) / 24 == d / DayMs;
  }

  const ClassListUrl := "https://app.leb2.org/class"
  const ClassPathPrefix := "https://app.leb2.org/class/"
  const ModalUrl := "https://app.leb2.org/class?openModal=true"

  /** The characters `.` does not match in a JavaScript regular expression. */
  predicate LineTerminator(c: char)
  {
    c == '\n' || c == '\r' || c == '\U{2028}' || c == '\U{2029}'
  }

  /** `/^https:\/\/app\.leb2\.org\/class\/.+/`: the prefix, then at least one character
      other than a line terminator. */
  predicate MatchesClassPath(url: string)
  {
    |url| > |ClassPathPrefix| && StartsWith(url, ClassPathPrefix) && !LineTerminator(url[|ClassPathPrefix|])
  }

  datatype ModalAction = Redirect(target: string) | OpenInPlace

  /** `handleOpenModal` at `currentUrl`. */
  function HandleOpenModal(currentUrl: string): ModalAction
  {
    if currentUrl != ClassListUrl && MatchesClassPath(currentUrl) then Redirect(ModalUrl) else OpenInPlace
  }

  /** The dialog redirects exactly from a class sub-page (the test against the class list URL
      never decides anything, since that URL is shorter than any match), and the redirect
      target opens the dialog in place, so redirects never chain. */
  lemma HandleOpenModalRedirectsOnce(currentUrl: string)
    ensures HandleOpenModal(currentUrl).Redirect? <==> MatchesClassPath(currentUrl)
    ensures HandleOpenModal(ClassListUrl) == OpenInPlace
    ensures HandleOpenModal(ModalUrl) == OpenInPlace
  {
    assert ModalUrl[..|ClassPathPrefix|] != ClassPathPrefix by {
      assert ModalUrl[|ClassPathPrefix| - 1] == '?';
      assert ClassPathPrefix[|ClassPathPrefix| - 1] == '/';
    }
  }
}
