/** Sequence helpers shared by the duplicate detector and the batch grouping. */
module Collections {

  /** No element occurs twice. */
  predicate Distinct<K(==, !new)>(s: seq<K>) {
    forall i, j :: 0 <= i < j < |s| ==> s[i] != s[j]
  }

  /** The index of the first occurrence of `x` in `ks`. */
  function FirstIndex<K(==, !new)>(ks: seq<K>, x: K): (i: nat)
    requires x in ks
    ensures i < |ks| && ks[i] == x
    ensures forall j :: 0 <= j < i ==> ks[j] != x
  {
    if ks[0] == x then 0 else 1 + FirstIndex(ks[1..], x)
  }

  /** The first occurrence of `x` does not move when elements are appended after it. */
  lemma FirstIndexPrefix<K(!new)>(ks: seq<K>, n: nat, x: K)
    requires n <= |ks| && x in ks[..n]
    ensures x in ks && FirstIndex(ks, x) == FirstIndex(ks[..n], x)
  {
    var a, b := FirstIndex(ks, x), FirstIndex(ks[..n], x);
    assert ks[b] == x;
    assert a <= b;
    assert ks[..n][a] == x;
  }

  /**
   * The distinct elements of `ks` in the order of their first occurrence:
   * the iteration order of a JavaScript `Map` whose keys are set from `ks`
   * one by one.
   */
  function FirstSeen<K(==, !new)>(ks: seq<K>): seq<K> {
    if ks == [] then []
    else
      var p := FirstSeen(ks[..|ks| - 1]);
      var x := ks[|ks| - 1];
      if x in p then p else p + [x]
  }

  /** `FirstSeen` holds every element of `ks`, and nothing else, exactly once. */
  lemma {:induction false} FirstSeenMembers<K(!new)>(ks: seq<K>)
    ensures forall x :: x in FirstSeen(ks) <==> x in ks
    ensures Distinct(FirstSeen(ks))
  {
    if ks != [] {
      var n := |ks| - 1;
      FirstSeenMembers(ks[..n]);
      assert ks == ks[..n] + [ks[n]];
    }
  }

  /** Keys come out of `FirstSeen` in the order in which they first occur. */
  lemma {:induction false} FirstSeenOrder<K(!new)>(ks: seq<K>)
    ensures forall x :: x in FirstSeen(ks) ==> x in ks
    ensures forall i, j :: 0 <= i < j < |FirstSeen(ks)| ==>
      FirstIndex(ks, FirstSeen(ks)[i]) < FirstIndex(ks, FirstSeen(ks)[j])
  {
    FirstSeenMembers(ks);
    if ks != [] {
      var n := |ks| - 1;
      var pre := ks[..n];
      var x := ks[n];
      FirstSeenOrder(pre);
      FirstSeenMembers(pre);
      var p := FirstSeen(pre);
      var r := FirstSeen(ks);
      assert r == if x in p then p else p + [x];
      forall i, j | 0 <= i < j < |r|
        ensures FirstIndex(ks, r[i]) < FirstIndex(ks, r[j])
      {
        assert r[i] == p[i] && p[i] in pre;
        FirstIndexPrefix(ks, n, p[i]);
        if j < |p| {
          assert r[j] == p[j] && p[j] in pre;
          FirstIndexPrefix(ks, n, p[j]);
          assert FirstIndex(pre, p[i]) < FirstIndex(pre, p[j]);
        } else {
          assert r[j] == x && x !in pre;
          assert FirstIndex(ks, x) == n;
        }
      }
    }
  }

  /** A prefix one longer is the prefix plus the next element. */
  lemma PrefixSnoc<K>(s: seq<K>, i: nat)
    requires i < |s|
    ensures s[..i + 1] == s[..i] + [s[i]]
  {
  }

  /** The prefix of length `i` of a prefix of length `i + 1`. */
  lemma PrefixInit<K>(s: seq<K>, i: nat)
    requires i < |s|
    ensures s[..i + 1][..i] == s[..i] && s[..i + 1][i] == s[i]
  {
  }
}
