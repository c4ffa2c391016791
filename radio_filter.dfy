/** entrypoints/content/components/AssignmentFilter.tsx: one radio button of the older
    assignment filter dropdown. The filter object maps each section name to its flags;
    choosing a radio rewrites its whole section so that only the chosen key can be set. */
module RadioFilter {

  /** One section of `TAssignmentFilter`: flag name to flag. */
  type Section = map<string, bool>

  /** `TAssignmentFilter`: section name to section. */
  type FilterObject = map<string, Section>

  /** `props.obj[props.section][props.itemKey]`; a key the section does not have reads as
      `undefined`, which leaves the radio unchecked. */
  function Checked(obj: FilterObject, section: string, itemKey: string): bool
  {
    section in obj && itemKey in obj[section] && obj[section][itemKey]
  }

  /** The `reduce` over `Object.keys(section)`: every key of the section, set to `checked`
      when it is the chosen key and to `false` otherwise. */
  function UpdatedSection(sec: Section, itemKey: string, checked: bool): Section
  {
    map k | k in sec :: k == itemKey && checked
  }

  /** The `onChange` handler: the object passed to `setObj`. */
  function OnChange(obj: FilterObject, section: string, itemKey: string, checked: bool): FilterObject
    requires section in obj
  {
    obj[section := UpdatedSection(obj[section], itemKey, checked)]
  }

  /** After a change the section has the same keys; the chosen key, when the section has
      it, holds `checked`; every other key is off; no other section changes; and no two keys
      of the section are on. */
  lemma OnChangeEffect(obj: FilterObject, section: string, itemKey: string, checked: bool)
    requires section in obj
    ensures OnChange(obj, section, itemKey, checked).Keys == obj.Keys
    ensures OnChange(obj, section, itemKey, checked)[section].Keys == obj[section].Keys
    ensures Checked(OnChange(obj, section, itemKey, checked), section, itemKey) <==> itemKey in obj[section] && checked
    ensures forall k :: k in obj[section] && k != itemKey ==> !OnChange(obj, section, itemKey, checked)[section][k]
    ensures forall s :: s in obj && s != section ==> OnChange(obj, section, itemKey, checked)[s] == obj[s]
    ensures forall k1, k2 ::
      (Checked(OnChange(obj, section, itemKey, checked), section, k1) && Checked(OnChange(obj, section, itemKey, checked), section, k2))
      ==> k1 == k2
  {
  }

  /** Choosing the same radio twice gives the object that choosing it once gave. */
  lemma OnChangeIdempotent(obj: FilterObject, section: string, itemKey: string, checked: bool)
    requires section in obj
    ensures OnChange(OnChange(obj, section, itemKey, checked), section, itemKey, checked) == OnChange(obj, section, itemKey, checked)
  {
    var once := OnChange(obj, section, itemKey, checked);
    assert UpdatedSection(once[section], itemKey, checked) == once[section];
  }
}
