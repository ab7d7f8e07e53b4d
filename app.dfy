/**
 * The page's global state, `duplicates` and `selectedDuplicates`, and the
 * handlers that replace it: the initial load, the radio and checkbox
 * handlers, the header checkbox, and the "Fix Selected" button.
 */
module App {

  import opened Translations
  import opened Groups
  import opened Selection
  import opened Reconciliation
  import opened Batch

  /**
   * No two rows are the same JavaScript object. `ref` stands for object
   * identity, which `success.includes(duplicate)` compares.
   */
  predicate DistinctRefs(dups: seq<Group>) {
    forall i, j :: 0 <= i < j < |dups| ==> dups[i].ref != dups[j].ref
  }

  /** A freshly built table has one object per row. */
  lemma LoadGroupsDistinct(types: seq<FetchedType>)
    ensures DistinctRefs(LoadGroups(types))
  {
    LoadGroupsRefs(types);
  }

  /** A radio change replaces rows in place, so it keeps one object per row. */
  lemma RadioChangeDistinct(dups: seq<Group>, item: Group, key: string, value: string)
    requires DistinctRefs(dups)
    ensures DistinctRefs(RadioChange(dups, item, key, value))
  {
    RadioChangeEffect(dups, item, key, value);
  }

  /**
   * A radio change made from a row of the table keeps every row's own key among
   * its duplicate keys: the rows it rewrites take the clicked row's fields.
   */
  lemma RadioKeepsOwnKeys(dups: seq<Group>, item: Group, key: string, value: string)
    requires OwnKeysCovered(dups) && item in dups
    ensures OwnKeysCovered(RadioChange(dups, item, key, value))
  {
    var r := RadioChange(dups, item, key, value);
    forall i | 0 <= i < |r| ensures GroupKey(r[i]) in r[i].duplicateKeys {
      if SameGroup(dups[i], item) {
        var j :| 0 <= j < |dups| && dups[j] == item;
        assert GroupKey(r[i]) == GroupKey(dups[j]) && r[i].duplicateKeys == dups[j].duplicateKeys;
      }
    }
  }

  /** Rows drawn from a table whose rows cover their own keys cover theirs too. */
  lemma OwnKeysFrom(dups: seq<Group>, rows: seq<Group>)
    requires OwnKeysCovered(dups)
    requires forall g :: g in rows ==> g in dups
    ensures OwnKeysCovered(rows)
  {
    forall i | 0 <= i < |rows| ensures GroupKey(rows[i]) in rows[i].duplicateKeys {
      assert rows[i] in dups;
    }
  }

  /** Dropping the succeeded rows keeps one object per row. */
  lemma {:induction false} WithoutDistinct(dups: seq<Group>, done: seq<Group>)
    requires DistinctRefs(dups)
    ensures DistinctRefs(Without(dups, done))
    ensures forall g :: g in Without(dups, done) ==> exists i :: 0 <= i < |dups| && dups[i] == g
  {
    if dups != [] {
      var n := |dups| - 1;
      assert DistinctRefs(dups[..n]);
      WithoutDistinct(dups[..n], done);
      var p := Without(dups[..n], done);
      forall g | g in p ensures exists i :: 0 <= i < |dups| && dups[i] == g {
        var i :| 0 <= i < n && dups[..n][i] == g;
        assert dups[i] == g;
      }
      forall g | g in p ensures g.ref != dups[n].ref {
        var i :| 0 <= i < n && dups[..n][i] == g;
        assert dups[i] == g;
      }
    }
  }

  class DedupState {
    /** The rows of the table: one group per (object, locale, property) with repeats. */
    var duplicates: seq<Group>
    /** The ids of the checked objects, with repeats as the handlers leave them. */
    var selectedDuplicates: seq<Id>

    /** One object per row, and every row's own key is among its duplicate keys. */
    ghost predicate Valid()
      reads this
    {
      DistinctRefs(duplicates) && OwnKeysCovered(duplicates)
    }

    /** `let duplicates = []; let selectedDuplicates = [];` */
    constructor()
      ensures Valid()
      ensures duplicates == [] && selectedDuplicates == []
    {
      duplicates := [];
      selectedDuplicates := [];
    }

    /** `loadData`, given what the schema and object fetches returned. */
    method LoadData(types: seq<FetchedType>)
      modifies this
      ensures Valid()
      ensures duplicates == LoadGroups(types)
      ensures selectedDuplicates == old(selectedDuplicates)
      ensures forall g :: g in duplicates ==> Seeded(g)
    {
      var dupeList := BuildDupeList(types);
      LoadGroupsDistinct(types);
      LoadGroupsRefs(types);
      duplicates := dupeList;
    }

    /**
     * `handleRadioChange`: choose value `value` (row key `key`) for `item`'s
     * group. The listener passes the row it was rendered for, so `item` is a
     * row of the current table.
     */
    method HandleRadioChange(item: Group, key: string, value: string)
      requires Valid()
      requires item in duplicates
      modifies this
      ensures Valid()
      ensures duplicates == RadioChange(old(duplicates), item, key, value)
      ensures selectedDuplicates == old(selectedDuplicates)
    {
      RadioChangeDistinct(duplicates, item, key, value);
      RadioKeepsOwnKeys(duplicates, item, key, value);
      duplicates := RadioChange(duplicates, item, key, value);
    }

    /** `handleCheckboxChange`: uncheck an object if it is checked, otherwise check it. */
    method HandleCheckboxChange(id: Id)
      requires Valid()
      modifies this
      ensures Valid()
      ensures selectedDuplicates == Toggle(old(selectedDuplicates), id)
      ensures duplicates == old(duplicates)
    {
      if id in selectedDuplicates {
        selectedDuplicates := RemoveAll(selectedDuplicates, id);
      } else {
        selectedDuplicates := selectedDuplicates + [id];
      }
    }

    /** The header checkbox's change listener. */
    method HandleSelectAll(isChecked: bool)
      requires Valid()
      modifies this
      ensures Valid()
      ensures selectedDuplicates == SelectAll(old(duplicates), isChecked)
      ensures duplicates == old(duplicates)
    {
      selectedDuplicates := if isChecked then Ids(duplicates) else [];
    }

    /**
     * `fixSelectedTranslations(selectedItems)`: the batch, then the rows that
     * succeeded are removed. The selection is left as it was.
     */
    method FixSelectedTranslations(selectedItems: seq<Group>, latest: map<Id, seq<Translation>>, putOk: set<Id>)
      returns (success: seq<Group>, failures: seq<Group>, writes: seq<Write>)
      requires Valid()
      modifies this
      ensures Valid()
      ensures Outcome(success, failures, writes) == RunSpec(selectedItems, latest, putOk)
      ensures duplicates == Without(old(duplicates), success)
      ensures selectedDuplicates == old(selectedDuplicates)
    {
      success, failures, writes := RunBatch(selectedItems, latest, putOk);
      WithoutDistinct(duplicates, success);
      OwnKeysFrom(duplicates, Without(duplicates, success));
      duplicates := Without(duplicates, success);
    }

    /** The "Fix Selected" button: fix the rows of the checked objects. */
    method FixClicked(latest: map<Id, seq<Translation>>, putOk: set<Id>)
      returns (success: seq<Group>, failures: seq<Group>, writes: seq<Write>)
      requires Valid()
      modifies this
      ensures Valid()
      ensures Outcome(success, failures, writes) ==
        RunSpec(SelectedItems(old(duplicates), old(selectedDuplicates)), latest, putOk)
      ensures OwnKeysCovered(SelectedItems(old(duplicates), old(selectedDuplicates)))
      ensures forall w :: w in writes ==>
        Reconcile(w.translations, ItemsOf(SelectedItems(old(duplicates), old(selectedDuplicates)), w.id)) == w.translations
      ensures duplicates == Without(old(duplicates), success)
      ensures forall g :: g in duplicates <==>
        g in old(duplicates) && !(g.id in old(selectedDuplicates) && Succeeds(g.id, latest, putOk))
      ensures selectedDuplicates == old(selectedDuplicates)
    {
      var items := SelectedItems(duplicates, selectedDuplicates);
      SelectedItemsMembership(duplicates, selectedDuplicates);
      OwnKeysFrom(duplicates, items);
      BatchWritesStable(items, latest, putOk);
      FixRetention(duplicates, selectedDuplicates, latest, putOk);
      success, failures, writes := FixSelectedTranslations(items, latest, putOk);
    }
  }
}
