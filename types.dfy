/** The records the extension reads from the LEB2 site: an activity (assignment or
    quiz) as returned by the assessment-activities endpoint, and a class card. */
module Types {

  datatype Option<T> = None | Some(value: T)

  /** The fields of an activity that the extension's logic reads. Dates are
      millisecond timestamps; a due date may be absent (`null`). */
  datatype Activity = Activity(
    id: nat,
    classId: nat,
    kind: string,              // `type`: "ASM" (assignment) or "QUZ" (quiz)
    groupType: string,         // `group_type`: "IND" (individual) or "STU" (group)
    title: string,
    startDate: int,            // `start_date`
    dueDate: Option<int>,      // `due_date`
    submissionId: Option<int>, // `activity_submission_id`
    isLate: bool,              // `activity_submission_is_late`
    dueDateExceed: bool,       // `due_date_exceed`
    quizSubmitted: int         // `quiz_submission_is_submitted`
  )

  /** A class as scraped from the class cards of the page. */
  datatype ClassInfo = ClassInfo(id: nat, title: string, description: string)

  /** `new Date(d).getTime()`: a missing date converts to the epoch. */
  function DateValue(d: Option<int>): int
  {
    match d
    case Some(t) => t
    case None => 0
  }

  predicate HasDueDate(a: Activity)
  {
    a.dueDate.Some?
  }

  /** The present values, in order: `filter(Boolean)` over a list of nullable results. */
  function Somes<T>(os: seq<Option<T>>): (r: seq<T>)
    ensures |r| <= |os|
  {
    if os == [] then [] else (if os[0].Some? then [os[0].value] else []) + Somes(os[1..])
  }

  /** A value is kept exactly when it is present at some position. */
  lemma {:induction false} SomesMembers<T>(os: seq<Option<T>>, e: T)
    ensures e in Somes(os) <==> exists i :: 0 <= i < |os| && os[i] == Some(e)
  {
    if os != [] {
      SomesMembers(os[1..], e);
      if e in Somes(os[1..]) {
        var i :| 0 <= i < |os[1..]| && os[1..][i] == Some(e);
        assert os[i + 1] == Some(e);
      }
      if exists i :: 0 <= i < |os| && os[i] == Some(e) {
        var i :| 0 <= i < |os| && os[i] == Some(e);
        if i > 0 {
          assert os[1..][i - 1] == Some(e);
        }
      }
    }
  }

  /** When every result is present, nothing is dropped and positions are kept. */
  lemma {:induction false} SomesAllPresent<T>(os: seq<Option<T>>)
    requires forall i :: 0 <= i < |os| ==> os[i].Some?
    ensures |Somes(os)| == |os|
    ensures forall i :: 0 <= i < |os| ==> Somes(os)[i] == os[i].value
  {
    if os != [] {
      SomesAllPresent(os[1..]);
    }
  }

  /** Dropping absent results distributes over concatenation. */
  lemma {:induction false} SomesAppend<T>(a: seq<Option<T>>, b: seq<Option<T>>)
    ensures Somes(a + b) == Somes(a) + Somes(b)
  {
    if a == [] {
      assert a + b == b;
    } else {
      var head := if a[0].Some? then [a[0].value] else [];
      assert (a + b)[0] == a[0];
      assert (a + b)[1..] == a[1..] + b;
      assert Somes(a + b) == head + Somes(a[1..] + b);
      SomesAppend(a[1..], b);
    }
  }

  /** The activities of the defined lists, class after class (`undefined` lists contribute nothing). */
  function Defined(allAssignments: seq<Option<seq<Activity>>>): seq<Activity>
  {
    if allAssignments == [] then []
    else
      (match allAssignments[0] case None => [] case Some(list) => list)
      + Defined(allAssignments[1..])
  }

  lemma {:induction false} DefinedAppend(a: seq<Option<seq<Activity>>>, b: seq<Option<seq<Activity>>>)
    ensures Defined(a + b) == Defined(a) + Defined(b)
  {
    if a == [] {
      assert a + b == b;
    } else {
      assert (a + b)[1..] == a[1..] + b;
      DefinedAppend(a[1..], b);
    }
  }

  /** Nothing is dropped only when nothing was absent. */
  lemma {:induction false} SomesEmpty<T>(os: seq<Option<T>>)
    ensures Somes(os) == [] <==> forall i :: 0 <= i < |os| ==> os[i].None?
  {
    if os != [] {
      SomesEmpty(os[1..]);
      if forall i :: 0 <= i < |os[1..]| ==> os[1..][i].None? {
        if os[0].None? {
          forall i | 0 <= i < |os| ensures os[i].None? {
            if i > 0 {
              assert os[i] == os[1..][i - 1];
            }
          }
        }
      } else {
        var i :| 0 <= i < |os[1..]| && os[1..][i].Some?;
        assert os[i + 1].Some?;
      }
    }
  }
}
