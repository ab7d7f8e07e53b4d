/**
 * The replacement translation list written back for one object (the body of
 * the per-object step of `fixSelectedTranslations`): every freshly fetched entry whose
 * key is a duplicate key of any selected item is dropped, then one entry per
 * candidate with a selected value is appended.
 */
module Reconciliation {

  import opened Wrappers
  import opened Translations
  import opened Groups
  import opened Selection

  /** `items.some(item => item.duplicateKeys.has(k))`. */
  predicate Covered(items: seq<Group>, k: string) {
    exists i :: 0 <= i < |items| && k in items[i].duplicateKeys
  }

  /** `original.translations.filter(t => !items.some(...))`. */
  function Retained(latest: seq<Translation>, items: seq<Group>): seq<Translation> {
    if latest == [] then []
    else
      var p := Retained(latest[..|latest| - 1], items);
      var t := latest[|latest| - 1];
      if Covered(items, KeyOf(t)) then p else p + [t]
  }

  /** The entries one item pushes for the candidates `cands`, in candidate order. */
  function CandidateWinners(item: Group, cands: seq<Candidate>): seq<Translation> {
    if cands == [] then []
    else
      var p := CandidateWinners(item, cands[..|cands| - 1]);
      var c := cands[|cands| - 1];
      if c.selectedValue.Some? then p + [Translation(item.locale, item.property, c.selectedValue.value)] else p
  }

  function ItemWinners(item: Group): seq<Translation> {
    CandidateWinners(item, item.translations)
  }

  /** All pushed entries, in item order and then candidate order. */
  function Winners(items: seq<Group>): seq<Translation> {
    if items == [] then []
    else Winners(items[..|items| - 1]) + ItemWinners(items[|items| - 1])
  }

  /** The `updatedTranslations` sent back for one object. */
  function Reconcile(latest: seq<Translation>, items: seq<Group>): seq<Translation> {
    Retained(latest, items) + Winners(items)
  }

  /** Each item's own key is among its duplicate keys (as `Seeded` groups are built). */
  predicate OwnKeysCovered(items: seq<Group>) {
    forall i :: 0 <= i < |items| ==> GroupKey(items[i]) in items[i].duplicateKeys
  }

  /** The retained entries are exactly the latest entries with an uncovered key. */
  lemma {:induction false} RetainedMembership(latest: seq<Translation>, items: seq<Group>)
    ensures forall t :: t in Retained(latest, items) <==> t in latest && !Covered(items, KeyOf(t))
  {
    if latest != [] {
      var n := |latest| - 1;
      RetainedMembership(latest[..n], items);
      assert latest == latest[..n] + [latest[n]];
    }
  }

  /**
   * Filtering works entry by entry: it distributes over concatenation, so
   * retained entries keep their relative order and stay unchanged.
   */
  lemma {:induction false} RetainedAppend(a: seq<Translation>, b: seq<Translation>, items: seq<Group>)
    ensures Retained(a + b, items) == Retained(a, items) + Retained(b, items)
  {
    if b == [] {
      assert a + b == a;
    } else {
      var n := |b| - 1;
      assert (a + b)[..|a + b| - 1] == a + b[..n];
      assert (a + b)[|a + b| - 1] == b[n];
      assert b[..n] + [b[n]] == b;
      RetainedAppend(a, b[..n], items);
    }
  }

  /** Entries with an uncovered key all survive, in their original order. */
  lemma {:induction false} RetainedUntouched(latest: seq<Translation>, items: seq<Group>)
    requires forall t :: t in latest ==> !Covered(items, KeyOf(t))
    ensures Retained(latest, items) == latest
  {
    if latest != [] {
      var n := |latest| - 1;
      assert latest == latest[..n] + [latest[n]];
      RetainedUntouched(latest[..n], items);
    }
  }

  /** Entries whose keys are all covered are all dropped. */
  lemma {:induction false} RetainedAllCovered(latest: seq<Translation>, items: seq<Group>)
    requires forall t :: t in latest ==> Covered(items, KeyOf(t))
    ensures Retained(latest, items) == []
  {
    if latest != [] {
      var n := |latest| - 1;
      assert latest[n] in latest;
      assert forall t :: t in latest[..n] ==> t in latest;
      RetainedAllCovered(latest[..n], items);
    }
  }

  /** Filtering twice is filtering once. */
  lemma {:induction false} RetainedIdempotent(latest: seq<Translation>, items: seq<Group>)
    ensures Retained(Retained(latest, items), items) == Retained(latest, items)
  {
    RetainedMembership(latest, items);
    RetainedUntouched(Retained(latest, items), items);
  }

  /**
   * The entries one item pushes are exactly `{item.locale, item.property, v}`
   * for the selected values `v` of its candidates: one per selected candidate.
   */
  lemma {:induction false} CandidateWinnersShape(item: Group, cands: seq<Candidate>)
    ensures |CandidateWinners(item, cands)| == |SelectedOf(cands)|
    ensures forall j :: 0 <= j < |CandidateWinners(item, cands)| ==>
      CandidateWinners(item, cands)[j] == Translation(item.locale, item.property, SelectedOf(cands)[j])
  {
    if cands != [] {
      CandidateWinnersShape(item, cands[..|cands| - 1]);
    }
  }

  /** The selected values of the candidates, in candidate order. */
  function SelectedOf(cands: seq<Candidate>): seq<string> {
    if cands == [] then []
    else
      var p := SelectedOf(cands[..|cands| - 1]);
      var c := cands[|cands| - 1];
      if c.selectedValue.Some? then p + [c.selectedValue.value] else p
  }

  /** A group with no selected candidate contributes nothing. */
  lemma {:induction false} NoSelectionNoWinner(item: Group, cands: seq<Candidate>)
    requires forall c :: c in cands ==> c.selectedValue == None
    ensures CandidateWinners(item, cands) == []
  {
    if cands != [] {
      var n := |cands| - 1;
      assert cands[n] in cands;
      NoSelectionNoWinner(item, cands[..n]);
    }
  }

  /** A group as it is built contributes exactly its first value. */
  lemma SeededWinner(item: Group)
    requires Seeded(item)
    ensures ItemWinners(item) == [Translation(item.locale, item.property, item.translations[0].value)]
  {
    var cs := item.translations;
    CandidateWinnersShape(item, cs);
    SeededSelected(cs, |cs|);
    assert cs[..|cs|] == cs;
  }

  lemma {:induction false} SeededSelected(cs: seq<Candidate>, n: nat)
    requires 1 <= n <= |cs|
    requires cs[0].selectedValue == Some(cs[0].value)
    requires forall j :: 1 <= j < |cs| ==> cs[j].selectedValue == None
    ensures SelectedOf(cs[..n]) == [cs[0].value]
  {
    if n > 1 {
      SeededSelected(cs, n - 1);
      assert cs[..n][..n - 1] == cs[..n - 1];
    }
  }

  /** How many candidates carry key `k`. */
  function KeyCount(cands: seq<Candidate>, k: string): nat {
    if cands == [] then 0
    else KeyCount(cands[..|cands| - 1], k) + if cands[|cands| - 1].key == k then 1 else 0
  }

  /**
   * After a radio choice `(k, v)` an item writes `{locale, property, v}` once
   * per candidate whose key is `k`: since equal values share a key, a value
   * that occurs twice in a group is written back twice.
   */
  lemma {:induction false} ChosenWinners(item: Group, cands: seq<Candidate>, k: string, v: string)
    ensures |CandidateWinners(item, Reselect(cands, k, v))| == KeyCount(cands, k)
    ensures forall w :: w in CandidateWinners(item, Reselect(cands, k, v)) ==>
      w == Translation(item.locale, item.property, v)
  {
    if cands != [] {
      var n := |cands| - 1;
      assert Reselect(cands, k, v)[..n] == Reselect(cands[..n], k, v);
      ChosenWinners(item, cands[..n], k, v);
    }
  }

  /** The pushed entries follow item order: those of earlier items come first. */
  lemma {:induction false} WinnersAppend(a: seq<Group>, b: seq<Group>)
    ensures Winners(a + b) == Winners(a) + Winners(b)
  {
    if b == [] {
      assert a + b == a;
    } else {
      var n := |b| - 1;
      assert (a + b)[..|a + b| - 1] == a + b[..n];
      WinnersAppend(a, b[..n]);
    }
  }

  /** Every entry pushed for the items has a key that some item covers. */
  lemma {:induction false} WinnersCovered(items: seq<Group>)
    requires OwnKeysCovered(items)
    ensures forall w :: w in Winners(items) ==> Covered(items, KeyOf(w))
  {
    if items != [] {
      var n := |items| - 1;
      var pre := items[..n];
      assert OwnKeysCovered(pre) by {
        forall i | 0 <= i < |pre| ensures GroupKey(pre[i]) in pre[i].duplicateKeys {
          assert pre[i] == items[i];
        }
      }
      WinnersCovered(pre);
      CandidateWinnersShape(items[n], items[n].translations);
      forall w | w in Winners(items) ensures Covered(items, KeyOf(w)) {
        if w in Winners(pre) {
          var i :| 0 <= i < |pre| && KeyOf(w) in pre[i].duplicateKeys;
          assert items[i] == pre[i];
        } else {
          assert w in ItemWinners(items[n]);
          assert KeyOf(w) == GroupKey(items[n]);
        }
      }
    }
  }

  /**
   * Reconciliation is idempotent: running filter-then-append again on its own
   * output with the same items yields the same list.
   */
  lemma ReconcileIdempotent(latest: seq<Translation>, items: seq<Group>)
    requires OwnKeysCovered(items)
    ensures Reconcile(Reconcile(latest, items), items) == Reconcile(latest, items)
  {
    var w := Winners(items);
    RetainedAppend(Retained(latest, items), w, items);
    RetainedIdempotent(latest, items);
    WinnersCovered(items);
    RetainedAllCovered(w, items);
  }

  /**
   * The per-object step of `fixSelectedTranslations`: filter the freshly fetched list,
   * then push one entry per selected candidate of every item.
   */
  method UpdatedTranslations(latest: seq<Translation>, items: seq<Group>) returns (updated: seq<Translation>)
    ensures updated == Reconcile(latest, items)
  {
    updated := Retained(latest, items);
    var i := 0;
    while i < |items|
      invariant 0 <= i <= |items|
      invariant updated == Retained(latest, items) + Winners(items[..i])
    {
      var item := items[i];
      assert items[..i + 1][..i] == items[..i];
      var j := 0;
      while j < |item.translations|
        invariant 0 <= j <= |item.translations|
        invariant updated == Retained(latest, items) + Winners(items[..i]) + CandidateWinners(item, item.translations[..j])
      {
        var trans := item.translations[j];
        assert item.translations[..j + 1][..j] == item.translations[..j];
        if trans.selectedValue != None {
          updated := updated + [Translation(item.locale, item.property, trans.selectedValue.value)];
        }
        j := j + 1;
      }
      assert item.translations[..j] == item.translations;
      i := i + 1;
    }
    assert items[..i] == items;
  }
}
