/** lib/utils.ts: the submission-status classifier, the due-date filter applied to
    every fetched activity list, and the persisted hidden-class and
    hidden-assignment id lists. */
module Utils {
  import opened Types
  import opened Seqs

  /** The five statuses `getSubmissionStatus` returns. */
  datatype Status = SubmittedLate | QuizNotSubmitted | Submitted | NotSubmitted | InProgress

  /** Truthiness of `activity_submission_id` (`null` and `0` are falsy). */
  predicate HasSubmission(a: Activity)
  {
    a.submissionId.Some? && a.submissionId.value != 0
  }

  /** `getSubmissionStatus`: first matching rule wins. The three statuses with a submission
      are exactly those of activities with a truthy submission id; among them lateness wins,
      then a quiz flag of exactly `0`; without a submission only `due_date_exceed` decides. */
  function SubmissionStatus(a: Activity): (r: Status)
    ensures r in {SubmittedLate, QuizNotSubmitted, Submitted} <==> HasSubmission(a)
    ensures HasSubmission(a) ==> (r == SubmittedLate <==> a.isLate)
    ensures HasSubmission(a) && !a.isLate ==> (r == QuizNotSubmitted <==> a.quizSubmitted == 0)
    ensures !HasSubmission(a) ==> (r == NotSubmitted <==> a.dueDateExceed)
  {
    if HasSubmission(a) then
      if a.isLate then SubmittedLate
      else if a.quizSubmitted == 0 then QuizNotSubmitted
      else Submitted
    else
      if a.dueDateExceed then NotSubmitted else InProgress
  }

  /** The "submitted" side of the classifier (`submitted` or `submitted_late`). */
  predicate IsSubmitted(a: Activity)
  {
    SubmissionStatus(a) == Submitted || SubmissionStatus(a) == SubmittedLate
  }

  /** A late submission is `submitted_late` whatever the quiz flag says. */
  lemma LateWins(a: Activity, q: int)
    requires HasSubmission(a) && a.isLate
    ensures SubmissionStatus(a) == SubmittedLate
    ensures SubmissionStatus(a.(quizSubmitted := q)) == SubmittedLate
  {
  }

  /** Without a submission only `due_date_exceed` matters. */
  lemma NoSubmissionDependsOnlyOnExceed(a: Activity, b: Activity)
    requires !HasSubmission(a) && !HasSubmission(b) && a.dueDateExceed == b.dueDateExceed
    ensures SubmissionStatus(a) == SubmissionStatus(b)
    ensures SubmissionStatus(a) == (if a.dueDateExceed then NotSubmitted else InProgress)
  {
  }

  /** The two "submitted" statuses are exactly those of activities with a truthy submission
      id that are late or have a non-zero quiz flag. */
  lemma SubmittedMeans(a: Activity)
    ensures IsSubmitted(a) <==> HasSubmission(a) && (a.isLate || a.quizSubmitted != 0)
  {
  }

  /** `data.activities.filter((activity) => activity.due_date !== null)`. */
  function DueDated(activities: seq<Activity>): (r: seq<Activity>)
  {
    Filter(HasDueDate, activities)
  }

  /** The due-date filter keeps exactly the dated activities, each as often as it occurs, in order. */
  lemma DueDatedKeepsExactly(activities: seq<Activity>, more: seq<Activity>, a: Activity)
    ensures a in DueDated(activities) <==> a in activities && a.dueDate.Some?
    ensures multiset(DueDated(activities))[a] == if a.dueDate.Some? then multiset(activities)[a] else 0
    ensures DueDated(activities + more) == DueDated(activities) + DueDated(more)
  {
    FilterCount(HasDueDate, activities, a);
    FilterAppend(HasDueDate, activities, more);
  }

  /** The two persisted lists `local:hiddenClasses` and `local:hiddenAssignments`
      (an unset key reads as the fallback `[]`). */
  class HiddenStore {
    var hiddenClasses: seq<nat>
    var hiddenAssignments: seq<nat>

    constructor ()
      ensures hiddenClasses == [] && hiddenAssignments == []
    {
      hiddenClasses := [];
      hiddenAssignments := [];
    }

    /** `hideClass`: append the id unless it is already there. */
    method HideClass(classId: nat)
      modifies this
      ensures hiddenClasses == AddIfAbsent(old(hiddenClasses), classId)
      ensures classId in hiddenClasses
      ensures NoDup(old(hiddenClasses)) ==> NoDup(hiddenClasses)
      ensures hiddenAssignments == old(hiddenAssignments)
    {
      var hidden := hiddenClasses;
      if classId !in hidden {
        hiddenClasses := hidden + [classId];
      }
      AddIfAbsentNoDup(hidden, classId);
    }

    /** `hideAssignment`: append the id unless it is already there. */
    method HideAssignment(assignmentId: nat)
      modifies this
      ensures hiddenAssignments == AddIfAbsent(old(hiddenAssignments), assignmentId)
      ensures assignmentId in hiddenAssignments
      ensures NoDup(old(hiddenAssignments)) ==> NoDup(hiddenAssignments)
      ensures hiddenClasses == old(hiddenClasses)
    {
      var hidden := hiddenAssignments;
      if assignmentId !in hidden {
        hiddenAssignments := hidden + [assignmentId];
      }
      AddIfAbsentNoDup(hidden, assignmentId);
    }

    /** `isClassHidden`. */
    method IsClassHidden(classId: nat) returns (hidden: bool)
      ensures hidden <==> classId in hiddenClasses
    {
      hidden := classId in hiddenClasses;
    }

    /** `isAssignmentHidden`. */
    method IsAssignmentHidden(assignmentId: nat) returns (hidden: bool)
      ensures hidden <==> assignmentId in hiddenAssignments
    {
      hidden := assignmentId in hiddenAssignments;
    }

    /** `unhideClass`: drop every occurrence, keep the others in order. */
    method UnhideClass(classId: nat)
      modifies this
      ensures hiddenClasses == Without(old(hiddenClasses), classId)
      ensures classId !in hiddenClasses
      ensures multiset(hiddenClasses) == multiset(old(hiddenClasses))[classId := 0]
      ensures hiddenAssignments == old(hiddenAssignments)
    {
      hiddenClasses := Without(hiddenClasses, classId);
      WithoutCount(old(hiddenClasses), classId);
    }

    /** `unhideAssignment`: drop every occurrence, keep the others in order. */
    method UnhideAssignment(assignmentId: nat)
      modifies this
      ensures hiddenAssignments == Without(old(hiddenAssignments), assignmentId)
      ensures assignmentId !in hiddenAssignments
      ensures multiset(hiddenAssignments) == multiset(old(hiddenAssignments))[assignmentId := 0]
      ensures hiddenClasses == old(hiddenClasses)
    {
      hiddenAssignments := Without(hiddenAssignments, assignmentId);
      WithoutCount(old(hiddenAssignments), assignmentId);
    }

    /** `clearAllHiddenItems`. */
    method ClearAllHiddenItems()
      modifies this
      ensures hiddenClasses == [] && hiddenAssignments == []
    {
      hiddenClasses := [];
      hiddenAssignments := [];
    }
  }

  /** Hiding a class and then unhiding it: it reads as hidden in between and not after, and
      the list ends as if the class had only been unhidden. */
  method HideThenUnhideClass(store: HiddenStore, classId: nat) returns (hiddenBetween: bool, hiddenAfter: bool)
    modifies store
    ensures hiddenBetween && !hiddenAfter
    ensures store.hiddenClasses == Without(old(store.hiddenClasses), classId)
    ensures store.hiddenAssignments == old(store.hiddenAssignments)
  {
    store.HideClass(classId);
    hiddenBetween := store.IsClassHidden(classId);
    store.UnhideClass(classId);
    hiddenAfter := store.IsClassHidden(classId);
    WithoutAddIfAbsent(old(store.hiddenClasses), classId);
  }

  /** The same round trip for an assignment. */
  method HideThenUnhideAssignment(store: HiddenStore, assignmentId: nat) returns (hiddenBetween: bool, hiddenAfter: bool)
    modifies store
    ensures hiddenBetween && !hiddenAfter
    ensures store.hiddenAssignments == Without(old(store.hiddenAssignments), assignmentId)
    ensures store.hiddenClasses == old(store.hiddenClasses)
  {
    store.HideAssignment(assignmentId);
    hiddenBetween := store.IsAssignmentHidden(assignmentId);
    store.UnhideAssignment(assignmentId);
    hiddenAfter := store.IsAssignmentHidden(assignmentId);
    WithoutAddIfAbsent(old(store.hiddenAssignments), assignmentId);
  }

  /** Hiding twice is hiding once. */
  method HideClassTwice(store: HiddenStore, classId: nat)
    modifies store
    ensures store.hiddenClasses == AddIfAbsent(old(store.hiddenClasses), classId)
    ensures store.hiddenAssignments == old(store.hiddenAssignments)
  {
    store.HideClass(classId);
    store.HideClass(classId);
  }

  /** Unhiding twice is unhiding once. */
  method UnhideClassTwice(store: HiddenStore, classId: nat)
    modifies store
    ensures store.hiddenClasses == Without(old(store.hiddenClasses), classId)
    ensures store.hiddenAssignments == old(store.hiddenAssignments)
  {
    store.UnhideClass(classId);
    store.UnhideClass(classId);
    WithoutIdempotent(old(store.hiddenClasses), classId);
  }
}
