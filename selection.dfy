/**
 * The selection state transitions: the radio choice inside one group
 * (`handleRadioChange`), the per-object checkbox (`handleCheckboxChange`),
 * the select-all/none header checkbox and the filter that picks the groups
 * to fix.
 */
module Selection {

  import opened Wrappers
  import opened Translations
  import opened Groups

  /** Rows are matched by `(id, locale, property)`. */
  predicate SameGroup(a: Group, b: Group) {
    a.id == b.id && a.locale == b.locale && a.property == b.property
  }

  /** `item.translations.map(...)`: the candidates whose key is `key` select `value`, all others `null`. */
  function Reselect(cands: seq<Candidate>, key: string, value: string): seq<Candidate> {
    seq(|cands|, i requires 0 <= i < |cands| =>
      cands[i].(selectedValue := if cands[i].key == key then Some(value) else None))
  }

  /**
   * The new `duplicates` after a radio change: every row with the item's
   * `(id, locale, property)` becomes the item with the reselected candidates;
   * all other rows stay as they are. The row keeps the identity of the row it
   * replaces.
   */
  function RadioChange(dups: seq<Group>, item: Group, key: string, value: string): seq<Group> {
    var updated := Reselect(item.translations, key, value);
    seq(|dups|, i requires 0 <= i < |dups| =>
      if SameGroup(dups[i], item) then item.(translations := updated, ref := dups[i].ref) else dups[i])
  }

  /**
   * A radio change touches only the rows of its group. In such a row the
   * candidates are the item's, in the same order and with the same keys and
   * values, and a candidate is selected (with `value`) exactly when its key is
   * `key`.
   */
  lemma RadioChangeEffect(dups: seq<Group>, item: Group, key: string, value: string)
    ensures |RadioChange(dups, item, key, value)| == |dups|
    ensures forall i :: 0 <= i < |dups| && !SameGroup(dups[i], item) ==>
      RadioChange(dups, item, key, value)[i] == dups[i]
    ensures forall i :: 0 <= i < |dups| && SameGroup(dups[i], item) ==>
      var g := RadioChange(dups, item, key, value)[i];
      && g.ref == dups[i].ref
      && g.(translations := item.translations, ref := item.ref) == item
      && |g.translations| == |item.translations|
      && forall j :: 0 <= j < |g.translations| ==>
           && g.translations[j].key == item.translations[j].key
           && g.translations[j].value == item.translations[j].value
           && (g.translations[j].selectedValue.Some? <==> item.translations[j].key == key)
           && (g.translations[j].selectedValue.Some? ==> g.translations[j].selectedValue.value == value)
  {
  }

  /** Choosing again overrides the earlier choice entirely. */
  lemma ReselectOverrides(cands: seq<Candidate>, k1: string, v1: string, k2: string, v2: string)
    ensures Reselect(Reselect(cands, k1, v1), k2, v2) == Reselect(cands, k2, v2)
  {
  }

  /** Every candidate key is `${locale}-${property}-${value}` of its group. */
  predicate KeyedByValue(g: Group) {
    forall c :: c in g.translations ==> c.key == CandidateKey(g.locale, g.property, c.value)
  }

  /**
   * A radio click on candidate `t` of a correctly keyed group selects exactly
   * the candidates whose value equals `t`'s, each with its own value (so its
   * radio shows as checked); all others become unselected. Two candidates with
   * equal values share a key, so both are selected.
   */
  lemma RadioSelectsValue(item: Group, t: Candidate)
    requires KeyedByValue(item) && t in item.translations
    ensures forall c :: c in Reselect(item.translations, t.key, t.value) ==>
      c.selectedValue == (if c.value == t.value then Some(c.value) else None)
  {
    var r := Reselect(item.translations, t.key, t.value);
    forall c | c in r
      ensures c.selectedValue == (if c.value == t.value then Some(c.value) else None)
    {
      var j :| 0 <= j < |r| && r[j] == c;
      var orig := item.translations[j];
      assert orig in item.translations;
      CandidateKeyValue(item.locale, item.property, orig.value, t.value);
    }
  }

  /** `selectedDuplicates.filter(duplicateId => duplicateId !== id)`. */
  function RemoveAll(s: seq<Id>, id: Id): seq<Id> {
    if s == [] then []
    else
      var p := RemoveAll(s[..|s| - 1], id);
      if s[|s| - 1] == id then p else p + [s[|s| - 1]]
  }

  /**
   * Removing an id deletes every occurrence of it and keeps every other id as
   * often as it occurred.
   */
  lemma {:induction false} RemoveAllCounts(s: seq<Id>, id: Id)
    ensures multiset(RemoveAll(s, id))[id] == 0
    ensures forall x :: x != id ==> multiset(RemoveAll(s, id))[x] == multiset(s)[x]
  {
    if s != [] {
      var n := |s| - 1;
      RemoveAllCounts(s[..n], id);
      assert s == s[..n] + [s[n]];
    }
  }

  /** Removing an id that does not occur changes nothing. */
  lemma {:induction false} RemoveAllAbsent(s: seq<Id>, id: Id)
    requires id !in s
    ensures RemoveAll(s, id) == s
  {
    if s != [] {
      var n := |s| - 1;
      assert s == s[..n] + [s[n]];
      RemoveAllAbsent(s[..n], id);
    }
  }

  /** The new `selectedDuplicates` after a checkbox toggle. */
  function Toggle(s: seq<Id>, id: Id): seq<Id> {
    if id in s then RemoveAll(s, id) else s + [id]
  }

  /**
   * A toggle flips membership of `id`: a present id is removed everywhere, an
   * absent id is added once; every other id occurs as often as before.
   */
  lemma ToggleEffect(s: seq<Id>, id: Id)
    ensures multiset(Toggle(s, id))[id] == if id in s then 0 else 1
    ensures forall x :: x != id ==> multiset(Toggle(s, id))[x] == multiset(s)[x]
  {
    RemoveAllCounts(s, id);
  }

  /** Toggling an absent id twice restores the list. */
  lemma ToggleTwice(s: seq<Id>, id: Id)
    requires id !in s
    ensures Toggle(Toggle(s, id), id) == s
  {
    var s' := s + [id];
    assert s'[..|s|] == s;
    RemoveAllAbsent(s, id);
  }

  /** `duplicates.map(dup => dup.id)`: one entry per group. */
  function Ids(dups: seq<Group>): seq<Id> {
    seq(|dups|, i requires 0 <= i < |dups| => dups[i].id)
  }

  /** The header checkbox: everything, or nothing. */
  function SelectAll(dups: seq<Group>, isChecked: bool): seq<Id> {
    if isChecked then Ids(dups) else []
  }

  /** `isAllSelected`, the header checkbox's displayed state. */
  predicate AllSelected(dups: seq<Group>, selected: seq<Id>) {
    |dups| > 0 && |selected| == |dups|
  }

  /** The header shows checked after select-all on a non-empty table, and never after select-none. */
  lemma SelectAllShown(dups: seq<Group>, isChecked: bool)
    ensures AllSelected(dups, SelectAll(dups, isChecked)) <==> isChecked && |dups| > 0
  {
  }

  /** `duplicates.filter(item => selectedDuplicates.includes(item.id))`. */
  function SelectedItems(dups: seq<Group>, selected: seq<Id>): seq<Group> {
    if dups == [] then []
    else
      var p := SelectedItems(dups[..|dups| - 1], selected);
      var g := dups[|dups| - 1];
      if g.id in selected then p + [g] else p
  }

  /** The groups to fix are exactly the rows whose object is checked. */
  lemma {:induction false} SelectedItemsMembership(dups: seq<Group>, selected: seq<Id>)
    ensures forall g :: g in SelectedItems(dups, selected) <==> g in dups && g.id in selected
  {
    if dups != [] {
      var n := |dups| - 1;
      SelectedItemsMembership(dups[..n], selected);
      assert dups == dups[..n] + [dups[n]];
    }
  }

  /** After select-all every row is fixed, in table order; after select-none none is. */
  lemma {:induction false} SelectAllEffect(dups: seq<Group>)
    ensures SelectedItems(dups, SelectAll(dups, true)) == dups
    ensures SelectedItems(dups, SelectAll(dups, false)) == []
  {
    SelectedPrefix(dups, |dups|);
    assert dups[..|dups|] == dups;
    SelectedItemsNone(dups);
  }

  lemma {:induction false} SelectedPrefix(dups: seq<Group>, n: nat)
    requires n <= |dups|
    ensures SelectedItems(dups[..n], Ids(dups)) == dups[..n]
  {
    if n > 0 {
      SelectedPrefix(dups, n - 1);
      assert dups[..n][..n - 1] == dups[..n - 1];
      assert Ids(dups)[n - 1] == dups[n - 1].id;
    }
  }

  lemma {:induction false} SelectedItemsNone(dups: seq<Group>)
    ensures SelectedItems(dups, []) == []
  {
    if dups != [] {
      SelectedItemsNone(dups[..|dups| - 1]);
    }
  }
}
