/**
 * Duplicate detection over one object's translations
 * (`checkForDuplicateTranslations`): entries are grouped by their
 * `${locale}-${property}` key in a `Map`, and every group with more than one
 * member is reported as `{locale, property, values}`, in the order in which
 * its key was first seen.
 */
module Detection {

  import opened Translations
  import opened Collections

  /** One report `{locale, property, values}` of the detector. */
  datatype Duplicate = Duplicate(locale: string, property: string, values: seq<string>)

  function DupKey(d: Duplicate): string {
    Key(d.locale, d.property)
  }

  /** The keys of the entries, one per entry, in input order. */
  function KeysOf(ts: seq<Translation>): seq<string> {
    seq(|ts|, i requires 0 <= i < |ts| => KeyOf(ts[i]))
  }

  /** The entries whose key is `k`, in input order: what the `Map` holds under `k`. */
  function MembersWith(ts: seq<Translation>, k: string): seq<Translation> {
    if ts == [] then []
    else
      var p := MembersWith(ts[..|ts| - 1], k);
      var t := ts[|ts| - 1];
      if KeyOf(t) == k then p + [t] else p
  }

  /** The members of `k` are exactly the entries whose key is `k`. */
  lemma {:induction false} MembersWithMembership(ts: seq<Translation>, k: string)
    ensures forall t :: t in MembersWith(ts, k) <==> t in ts && KeyOf(t) == k
  {
    if ts != [] {
      var n := |ts| - 1;
      MembersWithMembership(ts[..n], k);
      assert ts == ts[..n] + [ts[n]];
    }
  }

  function ValuesOf(ms: seq<Translation>): seq<string> {
    seq(|ms|, i requires 0 <= i < |ms| => ms[i].value)
  }

  /** The report for key `k`: locale and property of its first member, and all values. */
  function ReportFor(ts: seq<Translation>, k: string): (d: Duplicate)
    requires |MembersWith(ts, k)| > 0
    ensures DupKey(d) == k
  {
    var ms := MembersWith(ts, k);
    MembersWithMembership(ts, k);
    assert ms[0] in ms;
    Duplicate(ms[0].locale, ms[0].property, ValuesOf(ms))
  }

  /** The reports for the keys of `order` that have more than one member, in `order`'s order. */
  function DetectOver(ts: seq<Translation>, order: seq<string>): seq<Duplicate> {
    if order == [] then []
    else
      var p := DetectOver(ts, order[..|order| - 1]);
      var k := order[|order| - 1];
      if |MembersWith(ts, k)| > 1 then p + [ReportFor(ts, k)] else p
  }

  lemma {:induction false} DetectOverSound(ts: seq<Translation>, order: seq<string>)
    ensures forall d :: d in DetectOver(ts, order) ==>
      DupKey(d) in order && |MembersWith(ts, DupKey(d))| >= 2 && d == ReportFor(ts, DupKey(d))
  {
    if order != [] {
      var n := |order| - 1;
      DetectOverSound(ts, order[..n]);
      assert order == order[..n] + [order[n]];
    }
  }

  lemma {:induction false} DetectOverComplete(ts: seq<Translation>, order: seq<string>, k: string)
    requires k in order && |MembersWith(ts, k)| >= 2
    ensures exists d :: d in DetectOver(ts, order) && DupKey(d) == k
  {
    var n := |order| - 1;
    if order[n] == k {
      assert ReportFor(ts, k) in DetectOver(ts, order);
    } else {
      assert order == order[..n] + [order[n]];
      DetectOverComplete(ts, order[..n], k);
      var d :| d in DetectOver(ts, order[..n]) && DupKey(d) == k;
      assert d in DetectOver(ts, order);
    }
  }

  /** The result of `checkForDuplicateTranslations`. */
  function Detect(ts: seq<Translation>): seq<Duplicate> {
    DetectOver(ts, FirstSeen(KeysOf(ts)))
  }

  /** No two entries share a key. */
  predicate NoRepeatedKey(ts: seq<Translation>) {
    forall i, j :: 0 <= i < j < |ts| ==> KeyOf(ts[i]) != KeyOf(ts[j])
  }

  lemma MembersWithNonEmpty(ts: seq<Translation>, k: string)
    requires |MembersWith(ts, k)| > 0
    ensures k in KeysOf(ts)
  {
    var t := MembersWith(ts, k)[0];
    MembersWithMembership(ts, k);
    assert t in ts;
    var i :| 0 <= i < |ts| && ts[i] == t;
    assert KeysOf(ts)[i] == k;
  }

  /** Two entries with key `k` make `k` a duplicate. */
  lemma {:induction false} MembersWithTwo(ts: seq<Translation>, i: nat, j: nat)
    requires i < j < |ts| && KeyOf(ts[i]) == KeyOf(ts[j])
    ensures |MembersWith(ts, KeyOf(ts[i]))| >= 2
  {
    var n := |ts| - 1;
    var pre := ts[..n];
    if j == n {
      assert pre[i] == ts[i];
      MembersWithMembership(pre, KeyOf(ts[i]));
      assert ts[i] in MembersWith(pre, KeyOf(ts[i]));
    } else {
      assert pre[i] == ts[i] && pre[j] == ts[j];
      MembersWithTwo(pre, i, j);
    }
  }

  /** Without repeated keys every key has at most one member. */
  lemma {:induction false} MembersWithAtMostOne(ts: seq<Translation>, k: string)
    requires NoRepeatedKey(ts)
    ensures |MembersWith(ts, k)| <= 1
  {
    if ts != [] {
      var n := |ts| - 1;
      var pre := ts[..n];
      assert NoRepeatedKey(pre) by {
        forall i, j | 0 <= i < j < |pre| ensures KeyOf(pre[i]) != KeyOf(pre[j]) {
          assert pre[i] == ts[i] && pre[j] == ts[j];
        }
      }
      MembersWithAtMostOne(pre, k);
      if KeyOf(ts[n]) == k {
        forall i | 0 <= i < n ensures KeysOf(pre)[i] != k {
          assert pre[i] == ts[i];
        }
        MembersWithAbsent(pre, k);
      }
    }
  }

  /**
   * Every report is a real duplicate: it has at least two values, which are
   * the values of all entries with its key, in input order, and its locale and
   * property are those of the first such entry.
   */
  lemma DetectSound(ts: seq<Translation>)
    ensures forall d :: d in Detect(ts) ==>
      |d.values| >= 2 && |MembersWith(ts, DupKey(d))| >= 2 &&
      d.values == ValuesOf(MembersWith(ts, DupKey(d))) &&
      d.locale == MembersWith(ts, DupKey(d))[0].locale &&
      d.property == MembersWith(ts, DupKey(d))[0].property
  {
    DetectOverSound(ts, FirstSeen(KeysOf(ts)));
  }

  /** A key is reported exactly when at least two entries carry it. */
  lemma DetectComplete(ts: seq<Translation>, k: string)
    ensures (exists d :: d in Detect(ts) && DupKey(d) == k) <==> |MembersWith(ts, k)| >= 2
  {
    DetectOverSound(ts, FirstSeen(KeysOf(ts)));
    if |MembersWith(ts, k)| >= 2 {
      MembersWithNonEmpty(ts, k);
      FirstSeenMembers(KeysOf(ts));
      DetectOverComplete(ts, FirstSeen(KeysOf(ts)), k);
    }
  }

  /** Reports come in the order in which their keys were first seen; hence one report per key. */
  lemma DetectOrder(ts: seq<Translation>)
    ensures forall i, j :: 0 <= i < j < |Detect(ts)| ==>
      Precedes(KeysOf(ts), DupKey(Detect(ts)[i]), DupKey(Detect(ts)[j]))
  {
    var order := FirstSeen(KeysOf(ts));
    FirstSeenMembers(KeysOf(ts));
    FirstSeenOrder(KeysOf(ts));
    DetectOverOrder(ts, order);
    var r := Detect(ts);
    forall i, j | 0 <= i < j < |r|
      ensures Precedes(KeysOf(ts), DupKey(r[i]), DupKey(r[j]))
    {
      assert Precedes(order, DupKey(r[i]), DupKey(r[j]));
      var a, b := FirstIndex(order, DupKey(r[i])), FirstIndex(order, DupKey(r[j]));
      assert order[a] == DupKey(r[i]) && order[b] == DupKey(r[j]);
    }
  }

  /** Key `a` comes before key `b` in `order`. */
  predicate Precedes(order: seq<string>, a: string, b: string) {
    a in order && b in order && FirstIndex(order, a) < FirstIndex(order, b)
  }

  /** The keys of the reports `r` all occur in `order`, and in `order`'s order. */
  predicate InOrderOf(order: seq<string>, r: seq<Duplicate>) {
    forall i, j :: 0 <= i < j < |r| ==> Precedes(order, DupKey(r[i]), DupKey(r[j]))
  }

  /** Precedence within a prefix of `order` carries over to `order`. */
  lemma PrecedesWiden(order: seq<string>, n: nat, a: string, b: string)
    requires n <= |order| && Precedes(order[..n], a, b)
    ensures Precedes(order, a, b)
  {
    FirstIndexPrefix(order, n, a);
    FirstIndexPrefix(order, n, b);
  }

  /** Keys ordered within a prefix of `order` are ordered the same way in `order`. */
  lemma InOrderWiden(order: seq<string>, n: nat, r: seq<Duplicate>)
    requires n <= |order| && InOrderOf(order[..n], r)
    ensures InOrderOf(order, r)
  {
    forall i, j | 0 <= i < j < |r| ensures Precedes(order, DupKey(r[i]), DupKey(r[j])) {
      PrecedesWiden(order, n, DupKey(r[i]), DupKey(r[j]));
    }
  }

  /** A report for the key at position `n` may follow reports for keys before `n`. */
  lemma InOrderAppend(order: seq<string>, n: nat, r: seq<Duplicate>, d: Duplicate)
    requires n < |order| && Distinct(order) && InOrderOf(order, r) && DupKey(d) == order[n]
    requires forall e :: e in r ==> DupKey(e) in order[..n]
    ensures InOrderOf(order, r + [d])
  {
    assert FirstIndex(order, order[n]) == n;
    var r' := r + [d];
    forall i, j | 0 <= i < j < |r'|
      ensures Precedes(order, DupKey(r'[i]), DupKey(r'[j]))
    {
      assert r'[i] == r[i] && r[i] in r;
      if j < |r| {
        assert r'[j] == r[j];
      } else {
        var a := DupKey(r[i]);
        FirstIndexPrefix(order, n, a);
      }
    }
  }

  lemma {:induction false} DetectOverOrder(ts: seq<Translation>, order: seq<string>)
    requires Distinct(order)
    ensures InOrderOf(order, DetectOver(ts, order))
  {
    if order != [] {
      var n := |order| - 1;
      var pre := order[..n];
      var k := order[n];
      assert Distinct(pre);
      DetectOverOrder(ts, pre);
      var p := DetectOver(ts, pre);
      InOrderWiden(order, n, p);
      if |MembersWith(ts, k)| > 1 {
        DetectOverSound(ts, pre);
        InOrderAppend(order, n, p, ReportFor(ts, k));
      }
    }
  }

  /** Nothing is reported exactly when no two entries share a key. */
  lemma DetectEmptyIff(ts: seq<Translation>)
    ensures Detect(ts) == [] <==> NoRepeatedKey(ts)
  {
    if NoRepeatedKey(ts) {
      if Detect(ts) != [] {
        var d := Detect(ts)[0];
        DetectSound(ts);
        MembersWithAtMostOne(ts, DupKey(d));
      }
    } else {
      var i, j :| 0 <= i < j < |ts| && KeyOf(ts[i]) == KeyOf(ts[j]);
      MembersWithTwo(ts, i, j);
      DetectComplete(ts, KeyOf(ts[i]));
    }
  }

  lemma MembersWithAbsent(ts: seq<Translation>, k: string)
    requires k !in KeysOf(ts)
    ensures MembersWith(ts, k) == []
  {
    if |MembersWith(ts, k)| > 0 {
      MembersWithNonEmpty(ts, k);
    }
  }

  lemma MembersWithSnoc(ts: seq<Translation>, t: Translation, k: string)
    ensures MembersWith(ts + [t], k) == MembersWith(ts, k) + (if KeyOf(t) == k then [t] else [])
  {
    assert (ts + [t])[..|ts|] == ts;
  }

  lemma DetectOverSnoc(ts: seq<Translation>, order: seq<string>, k: string)
    ensures DetectOver(ts, order + [k]) ==
      DetectOver(ts, order) + if |MembersWith(ts, k)| > 1 then [ReportFor(ts, k)] else []
  {
    assert (order + [k])[..|order|] == order;
  }

  lemma FirstSeenSnoc(ts: seq<Translation>, t: Translation)
    ensures FirstSeen(KeysOf(ts + [t])) ==
      if KeyOf(t) in FirstSeen(KeysOf(ts)) then FirstSeen(KeysOf(ts)) else FirstSeen(KeysOf(ts)) + [KeyOf(t)]
  {
    assert KeysOf(ts + [t])[..|ts|] == KeysOf(ts);
  }

  /** What `seen` holds after the entries `ts`: one bucket per key of `order`. */
  ghost predicate Collected(ts: seq<Translation>, seen: map<string, seq<Translation>>, order: seq<string>) {
    && order == FirstSeen(KeysOf(ts))
    && (forall k :: k in seen <==> k in order)
    && (forall k :: k in seen ==> seen[k] == MembersWith(ts, k))
  }

  /** A step of the first loop on an entry whose key is already in `seen` keeps `Collected`. */
  lemma CollectExisting(ts: seq<Translation>, i: nat, seen: map<string, seq<Translation>>, order: seq<string>)
    requires i < |ts| && Collected(ts[..i], seen, order) && KeyOf(ts[i]) in seen
    ensures Collected(ts[..i + 1], seen[KeyOf(ts[i]) := seen[KeyOf(ts[i])] + [ts[i]]], order)
  {
    var pre, t := ts[..i], ts[i];
    var key := KeyOf(t);
    var seen' := seen[key := seen[key] + [t]];
    PrefixSnoc(ts, i);
    assert order == FirstSeen(KeysOf(pre + [t])) by {
      assert key in order;
      FirstSeenSnoc(pre, t);
    }
    assert seen'.Keys == seen.Keys;
    assert forall k :: k in seen' ==> seen'[k] == MembersWith(pre + [t], k) by {
      forall k | k in seen' ensures seen'[k] == MembersWith(pre + [t], k) {
        MembersWithSnoc(pre, t, k);
        if k == key {
          assert seen'[k] == seen[k] + [t];
        } else {
          assert seen'[k] == seen[k];
        }
      }
    }
  }

  /** A step of the first loop on an entry with a new key keeps `Collected`. */
  lemma CollectNew(ts: seq<Translation>, i: nat, seen: map<string, seq<Translation>>, order: seq<string>)
    requires i < |ts| && Collected(ts[..i], seen, order) && KeyOf(ts[i]) !in seen
    ensures Collected(ts[..i + 1], seen[KeyOf(ts[i]) := [ts[i]]], order + [KeyOf(ts[i])])
  {
    var pre, t := ts[..i], ts[i];
    var seen' := seen[KeyOf(t) := [t]];
    PrefixSnoc(ts, i);
    assert order + [KeyOf(t)] == FirstSeen(KeysOf(pre + [t])) by {
      FirstSeenSnoc(pre, t);
    }
    assert forall k :: k in seen' ==> seen'[k] == MembersWith(pre + [t], k) by {
      forall k | k in seen' ensures seen'[k] == MembersWith(pre + [t], k) {
        MembersWithSnoc(pre, t, k);
        if k == KeyOf(t) {
          FirstSeenMembers(KeysOf(pre));
          MembersWithAbsent(pre, k);
        }
      }
    }
  }

  /**
   * The first loop of `checkForDuplicateTranslations`: fill the `seen` map,
   * whose insertion order is returned as `order`.
   */
  method CollectByKey(translations: seq<Translation>) returns (seen: map<string, seq<Translation>>, order: seq<string>)
    ensures Collected(translations, seen, order)
  {
    seen, order := map[], [];
    var i := 0;
    while i < |translations|
      invariant 0 <= i <= |translations|
      invariant Collected(translations[..i], seen, order)
    {
      var t := translations[i];
      var key := Key(t.locale, t.property);
      if key in seen {
        CollectExisting(translations, i, seen, order);
        seen := seen[key := seen[key] + [t]];
      } else {
        CollectNew(translations, i, seen, order);
        seen := seen[key := [t]];
        order := order + [key];
      }
      i := i + 1;
    }
    assert translations[..i] == translations;
  }

  /**
   * `checkForDuplicateTranslations`: after `CollectByKey`, push one report
   * per key with more than one member, in the map's insertion order.
   */
  method CheckForDuplicateTranslations(translations: seq<Translation>) returns (duplicates: seq<Duplicate>)
    ensures duplicates == Detect(translations)
  {
    var seen, order := CollectByKey(translations);
    duplicates := [];
    var j := 0;
    while j < |order|
      invariant 0 <= j <= |order|
      invariant duplicates == DetectOver(translations, order[..j])
    {
      assert order[..j + 1] == order[..j] + [order[j]];
      DetectOverSnoc(translations, order[..j], order[j]);
      var group := seen[order[j]];
      if |group| > 1 {
        duplicates := duplicates + [Duplicate(group[0].locale, group[0].property, ValuesOf(group))];
      }
      j := j + 1;
    }
    assert order[..j] == order;
  }
}
