/**
 * The batch of `fixSelectedTranslations`: the selected items are grouped by
 * object id; each object is fetched fresh, reconciled and written back as a
 * whole; an object whose fetch or write fails has all its items recorded as
 * failures and the loop goes on with the next object.
 */
module Batch {

  import opened Translations
  import opened Collections
  import opened Groups
  import opened Selection
  import opened Reconciliation

  /** One PUT to `/api/${type}/${id}` with the updated translation list. */
  datatype Write = Write(objectType: string, id: Id, translations: seq<Translation>)

  /** What one batch produces: `success`, `failures`, and the writes it attempted, in order. */
  datatype Outcome = Outcome(success: seq<Group>, failures: seq<Group>, writes: seq<Write>)

  /** `groupedByObject[id]`: the selected items of one object, in selection order. */
  function ItemsOf(items: seq<Group>, id: Id): seq<Group> {
    if items == [] then []
    else
      var p := ItemsOf(items[..|items| - 1], id);
      var g := items[|items| - 1];
      if g.id == id then p + [g] else p
  }

  /** `items[0].type`, the schema endpoint of an object's items. */
  function TypeOf(its: seq<Group>): string {
    if its == [] then "" else its[0].objectType
  }

  /**
   * Whether object `id` comes through: its fresh copy was fetched (`latest`
   * has it) and its write-back succeeded (`putOk` has it). Any other outcome
   * is the `catch` branch.
   */
  predicate Succeeds(id: Id, latest: map<Id, seq<Translation>>, putOk: set<Id>) {
    id in latest && id in putOk
  }

  /** The loop over the objects `ids`, one object at a time. */
  function BatchOver(items: seq<Group>, ids: seq<Id>, latest: map<Id, seq<Translation>>, putOk: set<Id>): Outcome {
    if ids == [] then Outcome([], [], [])
    else
      var o := BatchOver(items, ids[..|ids| - 1], latest, putOk);
      var id := ids[|ids| - 1];
      var its := ItemsOf(items, id);
      var writes := if id in latest then o.writes + [Write(TypeOf(its), id, Reconcile(latest[id], its))] else o.writes;
      if Succeeds(id, latest, putOk) then Outcome(o.success + its, o.failures, writes)
      else Outcome(o.success, o.failures + its, writes)
  }

  /** The objects in `Object.entries(groupedByObject)` order (first selection order). */
  function ObjectOrder(items: seq<Group>): seq<Id> {
    FirstSeen(Ids(items))
  }

  function RunSpec(items: seq<Group>, latest: map<Id, seq<Translation>>, putOk: set<Id>): Outcome {
    BatchOver(items, ObjectOrder(items), latest, putOk)
  }

  /** `duplicates.filter(duplicate => !success.includes(duplicate))`. */
  function Without(dups: seq<Group>, done: seq<Group>): seq<Group> {
    if dups == [] then []
    else
      var p := Without(dups[..|dups| - 1], done);
      var d := dups[|dups| - 1];
      if d in done then p else p + [d]
  }

  lemma {:induction false} ItemsOfMembership(items: seq<Group>, id: Id)
    ensures forall g :: g in ItemsOf(items, id) <==> g in items && g.id == id
  {
    if items != [] {
      var n := |items| - 1;
      ItemsOfMembership(items[..n], id);
      assert items == items[..n] + [items[n]];
    }
  }

  lemma {:induction false} WithoutMembership(dups: seq<Group>, done: seq<Group>)
    ensures forall g :: g in Without(dups, done) <==> g in dups && g !in done
  {
    if dups != [] {
      var n := |dups| - 1;
      WithoutMembership(dups[..n], done);
      assert dups == dups[..n] + [dups[n]];
    }
  }

  lemma {:induction false} BatchOverMembership(items: seq<Group>, ids: seq<Id>, latest: map<Id, seq<Translation>>, putOk: set<Id>)
    ensures forall g :: g in BatchOver(items, ids, latest, putOk).success <==>
      g in items && g.id in ids && Succeeds(g.id, latest, putOk)
    ensures forall g :: g in BatchOver(items, ids, latest, putOk).failures <==>
      g in items && g.id in ids && !Succeeds(g.id, latest, putOk)
  {
    if ids != [] {
      var n := |ids| - 1;
      BatchOverMembership(items, ids[..n], latest, putOk);
      ItemsOfMembership(items, ids[n]);
      assert ids == ids[..n] + [ids[n]];
    }
  }

  lemma IdsMembership(items: seq<Group>, g: Group)
    requires g in items
    ensures g.id in Ids(items)
  {
    var i :| 0 <= i < |items| && items[i] == g;
    assert Ids(items)[i] == g.id;
  }

  /**
   * Each object goes through as a whole: a selected item is in `success`
   * exactly when its object succeeded, and in `failures` exactly when it did
   * not, wherever the object stands in the batch (a failure does not stop the
   * objects after it); nothing else is in either list.
   */
  lemma BatchPartition(items: seq<Group>, latest: map<Id, seq<Translation>>, putOk: set<Id>)
    ensures forall g :: g in RunSpec(items, latest, putOk).success <==> g in items && Succeeds(g.id, latest, putOk)
    ensures forall g :: g in RunSpec(items, latest, putOk).failures <==> g in items && !Succeeds(g.id, latest, putOk)
  {
    BatchOverMembership(items, ObjectOrder(items), latest, putOk);
    FirstSeenMembers(Ids(items));
    forall g | g in items ensures g.id in ObjectOrder(items) {
      IdsMembership(items, g);
    }
  }

  /** Adding one more object to the set of ids adds exactly its items. */
  lemma {:induction false} SelectedItemsSnoc(items: seq<Group>, ids: seq<Id>, id: Id)
    requires id !in ids
    ensures multiset(SelectedItems(items, ids + [id])) == multiset(SelectedItems(items, ids)) + multiset(ItemsOf(items, id))
  {
    if items != [] {
      var n := |items| - 1;
      SelectedItemsSnoc(items[..n], ids, id);
    }
  }

  lemma {:induction false} SelectedItemsAll(items: seq<Group>, ids: seq<Id>)
    requires forall g :: g in items ==> g.id in ids
    ensures SelectedItems(items, ids) == items
  {
    if items != [] {
      var n := |items| - 1;
      assert items == items[..n] + [items[n]];
      assert items[n] in items;
      SelectedItemsAll(items[..n], ids);
    }
  }

  lemma {:induction false} BatchOverMultiset(items: seq<Group>, ids: seq<Id>, latest: map<Id, seq<Translation>>, putOk: set<Id>)
    requires Distinct(ids)
    ensures multiset(BatchOver(items, ids, latest, putOk).success) + multiset(BatchOver(items, ids, latest, putOk).failures)
      == multiset(SelectedItems(items, ids))
  {
    if ids != [] {
      var n := |ids| - 1;
      assert ids == ids[..n] + [ids[n]];
      assert Distinct(ids[..n]);
      assert ids[n] !in ids[..n] by {
        forall i | 0 <= i < n ensures ids[..n][i] != ids[n] {
          assert ids[i] != ids[n];
        }
      }
      BatchOverMultiset(items, ids[..n], latest, putOk);
      SelectedItemsSnoc(items, ids[..n], ids[n]);
      var o := BatchOver(items, ids[..n], latest, putOk);
      var r := BatchOver(items, ids, latest, putOk);
      var its := ItemsOf(items, ids[n]);
      assert multiset(r.success) + multiset(r.failures) == multiset(o.success) + multiset(o.failures) + multiset(its);
    } else {
      SelectedItemsNone(items);
    }
  }

  /** `success ++ failures` is a permutation of the selected items. */
  lemma BatchPermutation(items: seq<Group>, latest: map<Id, seq<Translation>>, putOk: set<Id>)
    ensures multiset(RunSpec(items, latest, putOk).success + RunSpec(items, latest, putOk).failures) == multiset(items)
  {
    FirstSeenMembers(Ids(items));
    BatchOverMultiset(items, ObjectOrder(items), latest, putOk);
    forall g | g in items ensures g.id in ObjectOrder(items) {
      IdsMembership(items, g);
    }
    SelectedItemsAll(items, ObjectOrder(items));
  }

  /** No two writes go to the same object. */
  predicate OnePerObject(writes: seq<Write>) {
    forall i, j :: 0 <= i < j < |writes| ==> writes[i].id != writes[j].id
  }

  lemma {:induction false} BatchOverWrites(items: seq<Group>, ids: seq<Id>, latest: map<Id, seq<Translation>>, putOk: set<Id>)
    ensures forall w :: w in BatchOver(items, ids, latest, putOk).writes ==>
      && w.id in ids && w.id in latest
      && w.objectType == TypeOf(ItemsOf(items, w.id))
      && w.translations == Reconcile(latest[w.id], ItemsOf(items, w.id))
    ensures forall id :: id in ids && id in latest ==>
      exists w :: w in BatchOver(items, ids, latest, putOk).writes && w.id == id
  {
    if ids != [] {
      var n := |ids| - 1;
      BatchOverWrites(items, ids[..n], latest, putOk);
      assert ids == ids[..n] + [ids[n]];
      var o := BatchOver(items, ids[..n], latest, putOk);
      var r := BatchOver(items, ids, latest, putOk);
      forall id | id in ids && id in latest
        ensures exists w :: w in r.writes && w.id == id
      {
        if id in ids[..n] {
          var w :| w in o.writes && w.id == id;
          assert w in r.writes;
        } else {
          assert r.writes[|r.writes| - 1].id == id;
        }
      }
    }
  }

  /** Over distinct objects, each object is written at most once. */
  lemma {:induction false} BatchOverOnePerObject(items: seq<Group>, ids: seq<Id>, latest: map<Id, seq<Translation>>, putOk: set<Id>)
    requires Distinct(ids)
    ensures OnePerObject(BatchOver(items, ids, latest, putOk).writes)
  {
    if ids != [] {
      var n := |ids| - 1;
      var pre := ids[..n];
      assert Distinct(pre);
      assert ids[n] !in pre by {
        forall i | 0 <= i < n ensures pre[i] != ids[n] {
          assert pre[i] == ids[i];
        }
      }
      BatchOverOnePerObject(items, pre, latest, putOk);
      BatchOverWrites(items, pre, latest, putOk);
      var o := BatchOver(items, pre, latest, putOk).writes;
      var r := BatchOver(items, ids, latest, putOk).writes;
      forall i, j | 0 <= i < j < |r| ensures r[i].id != r[j].id {
        if j >= |o| {
          assert r[i] in o;
          assert r[j].id == ids[n];
        } else {
          assert r[i] == o[i] && r[j] == o[j];
        }
      }
    }
  }

  /**
   * Every selected object whose fresh copy was fetched is written back exactly
   * once per batch, whatever happened to the objects before it; nothing else
   * is written. Each write goes to the endpoint of the object's items and
   * carries the reconciliation of the fresh list with that object's selected
   * items.
   */
  lemma BatchWrites(items: seq<Group>, latest: map<Id, seq<Translation>>, putOk: set<Id>)
    ensures forall w :: w in RunSpec(items, latest, putOk).writes ==>
      && w.id in Ids(items) && w.id in latest
      && w.objectType == TypeOf(ItemsOf(items, w.id))
      && w.translations == Reconcile(latest[w.id], ItemsOf(items, w.id))
    ensures forall g :: g in items && g.id in latest ==>
      exists w :: w in RunSpec(items, latest, putOk).writes && w.id == g.id
    ensures OnePerObject(RunSpec(items, latest, putOk).writes)
  {
    BatchOverWrites(items, ObjectOrder(items), latest, putOk);
    FirstSeenMembers(Ids(items));
    BatchOverOnePerObject(items, ObjectOrder(items), latest, putOk);
    forall g | g in items ensures g.id in ObjectOrder(items) {
      IdsMembership(items, g);
    }
  }

  /**
   * When every item covers its own key, each written list is a fixed point of
   * the reconciliation: fixing the same items again against what was written
   * would write the same list.
   */
  lemma BatchWritesStable(items: seq<Group>, latest: map<Id, seq<Translation>>, putOk: set<Id>)
    requires OwnKeysCovered(items)
    ensures forall w :: w in RunSpec(items, latest, putOk).writes ==>
      Reconcile(w.translations, ItemsOf(items, w.id)) == w.translations
  {
    BatchWrites(items, latest, putOk);
    forall w | w in RunSpec(items, latest, putOk).writes
      ensures Reconcile(w.translations, ItemsOf(items, w.id)) == w.translations
    {
      var its := ItemsOf(items, w.id);
      ItemsOfMembership(items, w.id);
      assert OwnKeysCovered(its) by {
        forall i | 0 <= i < |its| ensures GroupKey(its[i]) in its[i].duplicateKeys {
          assert its[i] in items;
        }
      }
      ReconcileIdempotent(latest[w.id], its);
    }
  }

  /**
   * After a batch over the checked rows, the table keeps exactly the rows that
   * were not both checked and successfully written: failed items stay for a
   * retry, unchecked rows stay untouched, succeeded items are gone.
   */
  lemma FixRetention(dups: seq<Group>, selected: seq<Id>, latest: map<Id, seq<Translation>>, putOk: set<Id>)
    ensures forall g :: g in Without(dups, RunSpec(SelectedItems(dups, selected), latest, putOk).success) <==>
      g in dups && !(g.id in selected && Succeeds(g.id, latest, putOk))
  {
    var items := SelectedItems(dups, selected);
    SelectedItemsMembership(dups, selected);
    BatchPartition(items, latest, putOk);
    WithoutMembership(dups, RunSpec(items, latest, putOk).success);
  }

  /**
   * The loop of `fixSelectedTranslations` over `Object.entries(groupedByObject)`;
   * the fetched lists and the write outcomes are inputs.
   */
  method RunBatch(selectedItems: seq<Group>, latest: map<Id, seq<Translation>>, putOk: set<Id>)
    returns (success: seq<Group>, failures: seq<Group>, writes: seq<Write>)
    ensures Outcome(success, failures, writes) == RunSpec(selectedItems, latest, putOk)
  {
    var order := ObjectOrder(selectedItems);
    success, failures, writes := [], [], [];
    var k := 0;
    while k < |order|
      invariant 0 <= k <= |order|
      invariant Outcome(success, failures, writes) == BatchOver(selectedItems, order[..k], latest, putOk)
    {
      assert order[..k + 1][..k] == order[..k];
      var id := order[k];
      var items := ItemsOf(selectedItems, id);
      if id in latest {
        var updated := UpdatedTranslations(latest[id], items);
        writes := writes + [Write(TypeOf(items), id, updated)];
        if id in putOk {
          success := success + items;
        } else {
          failures := failures + items;
        }
      } else {
        failures := failures + items;
      }
      k := k + 1;
    }
    assert order[..k] == order;
  }
}
