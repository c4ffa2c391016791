/** components/assignment-filters.tsx: the six checkbox filters of the list view, grouped in
    three categories, with an update rule that never lets a category become all-unchecked. */
module Filters {
  import opened Types
  import opened Seqs

  datatype Category = SubmissionStatusCategory | AssignmentTypeCategory | GroupTypeCategory

  /** `FilterState`: two flags per category. */
  datatype FilterState = FilterState(
    submitted: bool, notSubmitted: bool,   // submissionStatus
    assignment: bool, quiz: bool,          // assignmentType
    individual: bool, group: bool)         // groupType

  /** The state the list view starts from: everything shown. */
  const AllShown := FilterState(true, true, true, true, true, true)

  /** `VALID_KEYS`. */
  function ValidKeys(c: Category): (r: seq<string>)
    ensures |r| == 2 && r[0] != r[1]
  {
    match c
    case SubmissionStatusCategory => ["submitted", "notSubmitted"]
    case AssignmentTypeCategory => ["assignment", "quiz"]
    case GroupTypeCategory => ["individual", "group"]
  }

  /** `filters[category][key]`; a key the category does not have reads as `undefined`, which is falsy. */
  function Get(f: FilterState, c: Category, key: string): bool
  {
    match c
    case SubmissionStatusCategory =>
      if key == "submitted" then f.submitted else if key == "notSubmitted" then f.notSubmitted else false
    case AssignmentTypeCategory =>
      if key == "assignment" then f.assignment else if key == "quiz" then f.quiz else false
    case GroupTypeCategory =>
      if key == "individual" then f.individual else if key == "group" then f.group else false
  }

  /** `{ ...filters, [category]: { ...filters[category], [key]: value } }` for a valid key. */
  function Set(f: FilterState, c: Category, key: string, value: bool): (r: FilterState)
    requires key in ValidKeys(c)
    ensures Get(r, c, key) == value
    ensures forall c', k' :: k' in ValidKeys(c') && !(c' == c && k' == key) ==> Get(r, c', k') == Get(f, c', k')
  {
    match c
    case SubmissionStatusCategory => if key == "submitted" then f.(submitted := value) else f.(notSubmitted := value)
    case AssignmentTypeCategory => if key == "assignment" then f.(assignment := value) else f.(quiz := value)
    case GroupTypeCategory => if key == "individual" then f.(individual := value) else f.(group := value)
  }

  /** `updateFilter`: the state passed to `onFiltersChange`, or `None` when the update bails
      out because it would uncheck the last checked key of the category. */
  function UpdateFilter(f: FilterState, c: Category, key: string, value: bool): (r: Option<FilterState>)
    requires key in ValidKeys(c)
    ensures r.None? <==> !value && forall k :: k in ValidKeys(c) && k != key ==> !Get(f, c, k)
    ensures r.Some? ==> Get(r.value, c, key) == value
    ensures r.Some? ==> forall c', k' :: k' in ValidKeys(c') && !(c' == c && k' == key) ==> Get(r.value, c', k') == Get(f, c', k')
  {
    var otherKeys := Filter((k: string) => k != key, ValidKeys(c));
    if !value && forall k :: k in otherKeys ==> !Get(f, c, k) then None
    else Some(Set(f, c, key, value))
  }

  /** Every category has at least one checked key. */
  predicate NoCategoryEmpty(f: FilterState)
  {
    forall c :: Get(f, c, ValidKeys(c)[0]) || Get(f, c, ValidKeys(c)[1])
  }

  /** An accepted update never leaves a category with nothing checked. */
  lemma UpdateKeepsCategoriesNonEmpty(f: FilterState, c: Category, key: string, value: bool)
    requires key in ValidKeys(c) && NoCategoryEmpty(f)
    ensures UpdateFilter(f, c, key, value).Some? ==> NoCategoryEmpty(UpdateFilter(f, c, key, value).value)
  {
    var r := UpdateFilter(f, c, key, value);
    if r.Some? {
      forall c' ensures Get(r.value, c', ValidKeys(c')[0]) || Get(r.value, c', ValidKeys(c')[1]) {
        if c' != c {
          assert Get(r.value, c', ValidKeys(c')[0]) == Get(f, c', ValidKeys(c')[0]);
          assert Get(r.value, c', ValidKeys(c')[1]) == Get(f, c', ValidKeys(c')[1]);
        } else if !value {
          var other := if ValidKeys(c)[0] == key then ValidKeys(c)[1] else ValidKeys(c)[0];
          assert other in ValidKeys(c) && other != key;
          assert Get(r.value, c, other);
        }
      }
    }
  }

  /** `activeFilterCount`: how many of the six flags are unchecked. */
  function ActiveFilterCount(f: FilterState): (r: nat)
    ensures r <= 6
  {
    |Filter((v: bool) => !v, [f.submitted, f.notSubmitted, f.assignment, f.quiz, f.individual, f.group])|
  }

  function Unchecked(b: bool): nat { if b then 0 else 1 }

  /** The number of unchecked flags in a list, counted one by one. */
  function UncheckedCount(values: seq<bool>): nat
  {
    if values == [] then 0 else Unchecked(values[0]) + UncheckedCount(values[1..])
  }

  lemma {:induction false} FilterUncheckedLength(values: seq<bool>)
    ensures |Filter((v: bool) => !v, values)| == UncheckedCount(values)
  {
    if values != [] {
      FilterUncheckedLength(values[1..]);
    }
  }

  /** The badge counts each unchecked flag once, and is absent (zero) exactly when all six
      flags are checked. */
  lemma ActiveFilterCountIsUncheckedFlags(f: FilterState)
    ensures ActiveFilterCount(f) == Unchecked(f.submitted) + Unchecked(f.notSubmitted) + Unchecked(f.assignment)
                                    + Unchecked(f.quiz) + Unchecked(f.individual) + Unchecked(f.group)
    ensures ActiveFilterCount(f) == 0 <==> f == AllShown
  {
    var values := [f.submitted, f.notSubmitted, f.assignment, f.quiz, f.individual, f.group];
    FilterUncheckedLength(values);
    assert UncheckedCount([f.group]) == Unchecked(f.group) by {
      assert [f.group][1..] == [];
    }
    assert UncheckedCount([f.individual, f.group]) == Unchecked(f.individual) + Unchecked(f.group) by {
      assert [f.individual, f.group][1..] == [f.group];
    }
    assert UncheckedCount([f.quiz, f.individual, f.group]) == Unchecked(f.quiz) + UncheckedCount([f.individual, f.group]) by {
      assert [f.quiz, f.individual, f.group][1..] == [f.individual, f.group];
    }
    assert UncheckedCount([f.assignment, f.quiz, f.individual, f.group])
           == Unchecked(f.assignment) + UncheckedCount([f.quiz, f.individual, f.group]) by {
      assert [f.assignment, f.quiz, f.individual, f.group][1..] == [f.quiz, f.individual, f.group];
    }
    assert UncheckedCount(values[1..]) == Unchecked(f.notSubmitted) + UncheckedCount([f.assignment, f.quiz, f.individual, f.group]) by {
      assert values[1..][1..] == [f.assignment, f.quiz, f.individual, f.group];
    }
  }

  /** `isOnlyChecked`: the key is checked and every other key of its category is not. */
  function IsOnlyChecked(f: FilterState, c: Category, key: string): bool
  {
    Get(f, c, key) && forall k :: k in Filter((k: string) => k != key, ValidKeys(c)) ==> !Get(f, c, k)
  }

  /** `isOnlyChecked` holds exactly when the key is checked and the other is not, and then
      unchecking the key is refused. */
  lemma OnlyCheckedRefusesUncheck(f: FilterState, c: Category, key: string)
    requires key in ValidKeys(c)
    ensures IsOnlyChecked(f, c, key) <==> Get(f, c, key) && forall k :: k in ValidKeys(c) && k != key ==> !Get(f, c, k)
    ensures IsOnlyChecked(f, c, key) ==> UpdateFilter(f, c, key, false).None?
  {
  }
}
