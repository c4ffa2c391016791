/** components/hidden-items-manager.tsx: the menu of hidden items. Stored hidden ids are
    resolved back to the class and assignment records they name; ids that no longer match
    anything are dropped, and with nothing left the tips are shown instead. */
module HiddenItems {
  import opened Types
  import opened Seqs

  function ClassHasId(id: nat): ClassInfo -> bool
  {
    (c: ClassInfo) => c.id == id
  }

  function ActivityHasId(id: nat): Activity -> bool
  {
    (a: Activity) => a.id == id
  }

  /** `allClassInfo.find((c) => c.id === classId)`. */
  function FindClass(allClassInfo: seq<ClassInfo>, classId: nat): Option<ClassInfo>
  {
    var i := FindIndex(ClassHasId(classId), allClassInfo);
    if i < 0 then None else Some(allClassInfo[i])
  }

  /** `allClassInfo.findLast((c) => c.id === classId)`. */
  function FindLastClass(allClassInfo: seq<ClassInfo>, classId: nat): Option<ClassInfo>
  {
    var i := FindLastIndex(ClassHasId(classId), allClassInfo);
    if i < 0 then None else Some(allClassInfo[i])
  }

  /** `assignments.find((a) => a.id === assignmentId)`. */
  function FindActivity(assignments: seq<Activity>, assignmentId: nat): Option<Activity>
  {
    var i := FindIndex(ActivityHasId(assignmentId), assignments);
    if i < 0 then None else Some(assignments[i])
  }

  /** `find` answers the first class with the id, and `undefined` only when there is none;
      `findLast` answers the last one. */
  lemma FindClassFirstAndLast(allClassInfo: seq<ClassInfo>, classId: nat)
    ensures FindClass(allClassInfo, classId).None? <==> forall c :: c in allClassInfo ==> c.id != classId
    ensures FindLastClass(allClassInfo, classId).None? <==> forall c :: c in allClassInfo ==> c.id != classId
    ensures FindClass(allClassInfo, classId).Some? ==>
      exists i :: 0 <= i < |allClassInfo| && allClassInfo[i] == FindClass(allClassInfo, classId).value
        && allClassInfo[i].id == classId && forall j :: 0 <= j < i ==> allClassInfo[j].id != classId
    ensures FindLastClass(allClassInfo, classId).Some? ==>
      exists i :: 0 <= i < |allClassInfo| && allClassInfo[i] == FindLastClass(allClassInfo, classId).value
        && allClassInfo[i].id == classId && forall j :: i < j < |allClassInfo| ==> allClassInfo[j].id != classId
  {
    var first := FindIndex(ClassHasId(classId), allClassInfo);
    var last := FindLastIndex(ClassHasId(classId), allClassInfo);
    if first < 0 {
      forall c | c in allClassInfo ensures c.id != classId {
        var j :| 0 <= j < |allClassInfo| && allClassInfo[j] == c;
        assert !ClassHasId(classId)(allClassInfo[j]);
      }
    }
    if last < 0 {
      forall c | c in allClassInfo ensures c.id != classId {
        var j :| 0 <= j < |allClassInfo| && allClassInfo[j] == c;
        assert !ClassHasId(classId)(allClassInfo[j]);
      }
    }
    if first >= 0 {
      assert ClassHasId(classId)(allClassInfo[first]);
      forall j | 0 <= j < first ensures allClassInfo[j].id != classId {
        assert !ClassHasId(classId)(allClassInfo[j]);
      }
    }
    if last >= 0 {
      assert ClassHasId(classId)(allClassInfo[last]);
      forall j | last < j < |allClassInfo| ensures allClassInfo[j].id != classId {
        assert !ClassHasId(classId)(allClassInfo[j]);
      }
    }
  }

  /** `hiddenClasses.map(find)`, before the `undefined`s are dropped. */
  function ResolveClasses(hiddenClasses: seq<nat>, allClassInfo: seq<ClassInfo>): (r: seq<Option<ClassInfo>>)
    ensures |r| == |hiddenClasses|
    ensures forall i :: 0 <= i < |hiddenClasses| ==>
      (r[i].None? <==> forall c :: c in allClassInfo ==> c.id != hiddenClasses[i])
    ensures forall i :: 0 <= i < |hiddenClasses| && r[i].Some? ==>
      exists j :: 0 <= j < |allClassInfo| && allClassInfo[j] == r[i].value
        && allClassInfo[j].id == hiddenClasses[i] && forall k :: 0 <= k < j ==> allClassInfo[k].id != hiddenClasses[i]
  {
    FindEachClass(hiddenClasses, allClassInfo);
    seq(|hiddenClasses|, (i: int) requires 0 <= i < |hiddenClasses| => FindClass(allClassInfo, hiddenClasses[i]))
  }

  lemma FindEachClass(hiddenClasses: seq<nat>, allClassInfo: seq<ClassInfo>)
    ensures forall i :: 0 <= i < |hiddenClasses| ==>
      (FindClass(allClassInfo, hiddenClasses[i]).None? <==> forall c :: c in allClassInfo ==> c.id != hiddenClasses[i])
    ensures forall i :: 0 <= i < |hiddenClasses| && FindClass(allClassInfo, hiddenClasses[i]).Some? ==>
      exists j :: 0 <= j < |allClassInfo| && allClassInfo[j] == FindClass(allClassInfo, hiddenClasses[i]).value
        && allClassInfo[j].id == hiddenClasses[i] && forall k :: 0 <= k < j ==> allClassInfo[k].id != hiddenClasses[i]
  {
    forall i | 0 <= i < |hiddenClasses| {
      FindClassFirstAndLast(allClassInfo, hiddenClasses[i]);
    }
  }

  /** `hiddenClassItems`. */
  function HiddenClassItems(hiddenClasses: seq<nat>, allClassInfo: seq<ClassInfo>): seq<ClassInfo>
  {
    Somes(ResolveClasses(hiddenClasses, allClassInfo))
  }

  /** The resolved classes follow the order of the stored ids, one for each id that still
      names a class (the first class with that id), and never more than there are ids. */
  lemma HiddenClassItemsFollowIds(a: seq<nat>, b: seq<nat>, allClassInfo: seq<ClassInfo>)
    ensures HiddenClassItems(a + b, allClassInfo) == HiddenClassItems(a, allClassInfo) + HiddenClassItems(b, allClassInfo)
    ensures |HiddenClassItems(a, allClassInfo)| <= |a|
    ensures HiddenClassItems([], allClassInfo) == []
  {
    assert ResolveClasses(a + b, allClassInfo) == ResolveClasses(a, allClassInfo) + ResolveClasses(b, allClassInfo);
    SomesAppend(ResolveClasses(a, allClassInfo), ResolveClasses(b, allClassInfo));
  }

  /** A single id contributes its first matching class, or nothing. */
  lemma HiddenClassItemsOfOne(classId: nat, allClassInfo: seq<ClassInfo>)
    ensures HiddenClassItems([classId], allClassInfo) ==
      if FindClass(allClassInfo, classId).Some? then [FindClass(allClassInfo, classId).value] else []
  {
    assert ResolveClasses([classId], allClassInfo) == [FindClass(allClassInfo, classId)];
    assert ResolveClasses([classId], allClassInfo)[1..] == [];
  }

  /** The first activity with the id across the defined class lists, in class order. */
  function FirstInLists(allAssignments: seq<Option<seq<Activity>>>, assignmentId: nat): Option<Activity>
  {
    FindActivity(Defined(allAssignments), assignmentId)
  }

  lemma FindActivityAppend(a: seq<Activity>, b: seq<Activity>, assignmentId: nat)
    ensures FindActivity(a + b, assignmentId) ==
      if FindActivity(a, assignmentId).Some? then FindActivity(a, assignmentId) else FindActivity(b, assignmentId)
  {
    FindIndexAppend(ActivityHasId(assignmentId), a, b);
    var i := FindIndex(ActivityHasId(assignmentId), a);
    var k := FindIndex(ActivityHasId(assignmentId), b);
    if i >= 0 {
      assert (a + b)[i] == a[i];
    } else if k >= 0 {
      assert (a + b)[|a| + k] == b[k];
    }
  }

  /** The `map` callback over `hiddenAssignments`: scan the class lists in order, skip the
      `undefined` ones, and return the first match of the first list that has one. */
  method FindHiddenAssignment(allAssignments: seq<Option<seq<Activity>>>, assignmentId: nat) returns (result: Option<Activity>)
    ensures result == FirstInLists(allAssignments, assignmentId)
  {
    for k := 0 to |allAssignments|
      invariant FirstInLists(allAssignments[..k], assignmentId).None?
    {
      var assignments := allAssignments[k];
      assert allAssignments[..k + 1] == allAssignments[..k] + [assignments];
      DefinedAppend(allAssignments[..k], [assignments]);
      assert Defined([assignments]) == (match assignments case None => [] case Some(list) => list);
      FindActivityAppend(Defined(allAssignments[..k]), Defined([assignments]), assignmentId);
      if assignments.Some? {
        var found := FindActivity(assignments.value, assignmentId);
        if found.Some? {
          assert allAssignments == allAssignments[..k + 1] + allAssignments[k + 1..];
          DefinedAppend(allAssignments[..k + 1], allAssignments[k + 1..]);
          FindActivityAppend(Defined(allAssignments[..k + 1]), Defined(allAssignments[k + 1..]), assignmentId);
          return found;
        }
      }
    }
    assert allAssignments[..|allAssignments|] == allAssignments;
    return None;
  }

  /** The scan answers an activity with the id that occurs in a defined list, and answers
      nothing only when no defined list holds the id. */
  lemma FirstInListsMatches(allAssignments: seq<Option<seq<Activity>>>, assignmentId: nat)
    ensures FirstInLists(allAssignments, assignmentId).Some? ==>
      FirstInLists(allAssignments, assignmentId).value.id == assignmentId
      && FirstInLists(allAssignments, assignmentId).value in Defined(allAssignments)
    ensures FirstInLists(allAssignments, assignmentId).Some? ==>
      exists j :: 0 <= j < |Defined(allAssignments)| && Defined(allAssignments)[j] == FirstInLists(allAssignments, assignmentId).value
        && forall k :: 0 <= k < j ==> Defined(allAssignments)[k].id != assignmentId
    ensures FirstInLists(allAssignments, assignmentId).None? <==>
      forall a :: a in Defined(allAssignments) ==> a.id != assignmentId
  {
    var all := Defined(allAssignments);
    var i := FindIndex(ActivityHasId(assignmentId), all);
    if i < 0 {
      forall a | a in all ensures a.id != assignmentId {
        var j :| 0 <= j < |all| && all[j] == a;
        assert !ActivityHasId(assignmentId)(all[j]);
      }
    } else {
      assert ActivityHasId(assignmentId)(all[i]);
      forall k | 0 <= k < i ensures all[k].id != assignmentId {
        assert !ActivityHasId(assignmentId)(all[k]);
      }
    }
  }

  /** `hiddenAssignments.map(callback)`, before the `undefined`s are dropped. */
  function ResolveAssignments(hiddenAssignments: seq<nat>, allAssignments: seq<Option<seq<Activity>>>): (r: seq<Option<Activity>>)
    ensures |r| == |hiddenAssignments|
    ensures forall i :: 0 <= i < |hiddenAssignments| ==>
      (r[i].None? <==> forall a :: a in Defined(allAssignments) ==> a.id != hiddenAssignments[i])
    ensures forall i :: 0 <= i < |hiddenAssignments| && r[i].Some? ==>
      r[i].value.id == hiddenAssignments[i]
      && (exists j :: 0 <= j < |Defined(allAssignments)| && Defined(allAssignments)[j] == r[i].value
            && forall k :: 0 <= k < j ==> Defined(allAssignments)[k].id != hiddenAssignments[i])
  {
    FindEachAssignment(hiddenAssignments, allAssignments);
    seq(|hiddenAssignments|, (i: int) requires 0 <= i < |hiddenAssignments| => FirstInLists(allAssignments, hiddenAssignments[i]))
  }

  lemma FindEachAssignment(hiddenAssignments: seq<nat>, allAssignments: seq<Option<seq<Activity>>>)
    ensures forall i :: 0 <= i < |hiddenAssignments| ==>
      (FirstInLists(allAssignments, hiddenAssignments[i]).None? <==>
       forall a :: a in Defined(allAssignments) ==> a.id != hiddenAssignments[i])
    ensures forall i :: 0 <= i < |hiddenAssignments| && FirstInLists(allAssignments, hiddenAssignments[i]).Some? ==>
      FirstInLists(allAssignments, hiddenAssignments[i]).value.id == hiddenAssignments[i]
      && (exists j :: 0 <= j < |Defined(allAssignments)| && Defined(allAssignments)[j] == FirstInLists(allAssignments, hiddenAssignments[i]).value
            && forall k :: 0 <= k < j ==> Defined(allAssignments)[k].id != hiddenAssignments[i])
  {
    forall i | 0 <= i < |hiddenAssignments| {
      FirstInListsMatches(allAssignments, hiddenAssignments[i]);
    }
  }

  /** `hiddenAssignmentItems`. */
  function HiddenAssignmentItems(hiddenAssignments: seq<nat>, allAssignments: seq<Option<seq<Activity>>>): seq<Activity>
  {
    Somes(ResolveAssignments(hiddenAssignments, allAssignments))
  }

  /** Every resolved assignment is a fetched activity whose id is a stored hidden id, and
      there are never more of them than stored ids. */
  lemma HiddenAssignmentItemsAreHidden(hiddenAssignments: seq<nat>, allAssignments: seq<Option<seq<Activity>>>, a: Activity)
    ensures |HiddenAssignmentItems(hiddenAssignments, allAssignments)| <= |hiddenAssignments|
    ensures a in HiddenAssignmentItems(hiddenAssignments, allAssignments) ==>
      a.id in hiddenAssignments && a in Defined(allAssignments)
  {
    var os := ResolveAssignments(hiddenAssignments, allAssignments);
    SomesMembers(os, a);
    if a in Somes(os) {
      var i :| 0 <= i < |os| && os[i] == Some(a);
      FirstInListsMatches(allAssignments, hiddenAssignments[i]);
    }
  }

  /** `totalHidden`. */
  function TotalHidden(hiddenClasses: seq<nat>, hiddenAssignments: seq<nat>,
                       allClassInfo: seq<ClassInfo>, allAssignments: seq<Option<seq<Activity>>>): nat
  {
    |HiddenClassItems(hiddenClasses, allClassInfo)| + |HiddenAssignmentItems(hiddenAssignments, allAssignments)|
  }

  /** Only the tips are shown exactly when no stored class id names a class and no stored
      assignment id names a fetched activity. */
  lemma TipsExactlyWhenNothingResolves(hiddenClasses: seq<nat>, hiddenAssignments: seq<nat>,
                                       allClassInfo: seq<ClassInfo>, allAssignments: seq<Option<seq<Activity>>>)
    ensures TotalHidden(hiddenClasses, hiddenAssignments, allClassInfo, allAssignments) == 0 <==>
      (forall i :: 0 <= i < |hiddenClasses| ==> FindClass(allClassInfo, hiddenClasses[i]).None?)
      && (forall i :: 0 <= i < |hiddenAssignments| ==> FirstInLists(allAssignments, hiddenAssignments[i]).None?)
  {
    var cs := ResolveClasses(hiddenClasses, allClassInfo);
    var rs := ResolveAssignments(hiddenAssignments, allAssignments);
    SomesEmpty(cs);
    SomesEmpty(rs);
  }

  /** The class badge of a hidden assignment: the title of the last class whose id is the
      assignment's class id, if any. */
  function BadgeTitle(allClassInfo: seq<ClassInfo>, assignment: Activity): Option<string>
  {
    var c := FindLastClass(allClassInfo, assignment.classId);
    if c.Some? then Some(c.value.title) else None
  }

  /** The badge is the last matching class's title, and is absent only when no class has the id. */
  lemma BadgeTitleIsLastMatch(allClassInfo: seq<ClassInfo>, assignment: Activity)
    ensures BadgeTitle(allClassInfo, assignment).None? <==> forall c :: c in allClassInfo ==> c.id != assignment.classId
    ensures BadgeTitle(allClassInfo, assignment).Some? ==>
      exists i :: 0 <= i < |allClassInfo| && allClassInfo[i].title == BadgeTitle(allClassInfo, assignment).value
        && allClassInfo[i].id == assignment.classId
        && forall j :: i < j < |allClassInfo| ==> allClassInfo[j].id != assignment.classId
  {
    FindClassFirstAndLast(allClassInfo, assignment.classId);
  }
}
