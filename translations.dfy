/**
 * A translation entry of a DHIS2 metadata object and the string keys the
 * deduplicator builds from it by concatenation with `-`.
 */
module Translations {

  /** An object id (a DHIS2 uid). */
  type Id = string

  /** `{locale, property, value}`: one localized value of one property. */
  datatype Translation = Translation(locale: string, property: string, value: string)

  /** The duplicate key `${locale}-${property}` used for grouping and for filtering. */
  function Key(locale: string, property: string): string {
    locale + "-" + property
  }

  function KeyOf(t: Translation): string {
    Key(t.locale, t.property)
  }

  /** The candidate key `${locale}-${property}-${value}` that names a radio choice. */
  function CandidateKey(locale: string, property: string, value: string): string {
    Key(locale, property) + "-" + value
  }

  predicate DashFree(s: string) {
    '-' !in s
  }

  /** Two keys built from dash-free locales are equal exactly when locale and property are. */
  lemma KeyInjective(l1: string, p1: string, l2: string, p2: string)
    requires DashFree(l1) && DashFree(l2)
    ensures Key(l1, p1) == Key(l2, p2) <==> l1 == l2 && p1 == p2
  {
    if Key(l1, p1) == Key(l2, p2) {
      var s := Key(l1, p1);
      assert s[|l1|] == '-';
      assert s[|l2|] == '-';
      assert forall i :: 0 <= i < |l1| ==> s[i] == l1[i];
      assert forall i :: 0 <= i < |l2| ==> s[i] == l2[i];
      assert |l1| == |l2|;
      assert l1 == s[..|l1|] == l2;
      assert p1 == s[|l1| + 1..] == p2;
    }
  }

  /** With a dash inside a locale, two different (locale, property) pairs share one key. */
  lemma KeyCollision()
    ensures Key("en-US", "name") == Key("en", "US-name")
    ensures ("en-US", "name") != ("en", "US-name")
  {
  }

  /** Within one (locale, property), candidate keys are equal exactly when the values are. */
  lemma CandidateKeyValue(locale: string, property: string, v1: string, v2: string)
    ensures CandidateKey(locale, property, v1) == CandidateKey(locale, property, v2) <==> v1 == v2
  {
    var pre := Key(locale, property) + "-";
    if CandidateKey(locale, property, v1) == CandidateKey(locale, property, v2) {
      assert v1 == CandidateKey(locale, property, v1)[|pre|..];
      assert v2 == CandidateKey(locale, property, v2)[|pre|..];
    }
  }
}
