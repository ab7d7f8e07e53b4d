/**
 * Group construction (the inner loops of `loadData`): for every object with
 * duplicates, one group record per detected duplicate, whose candidates are
 * the entries with that locale and property, the first one pre-selected.
 */
module Groups {

  import opened Wrappers
  import opened Translations
  import opened Detection
  import opened Collections

  /** One radio choice `{key, value, selectedValue}` of a group. */
  datatype Candidate = Candidate(key: string, value: string, selectedValue: Option<string>)

  /**
   * One row of the duplicates table
   * `{type, id, name, locale, property, translations, originalTranslations, duplicateKeys}`.
   * `ref` stands for the identity of the JavaScript object: it is unique
   * among the records built by one load.
   */
  datatype Group = Group(
    objectType: string,
    id: Id,
    name: string,
    locale: string,
    property: string,
    translations: seq<Candidate>,
    originalTranslations: seq<Translation>,
    duplicateKeys: set<string>,
    ref: nat)

  /** A fetched object `{id, name, translations}`. */
  datatype DataObject = DataObject(id: Id, name: string, translations: seq<Translation>)

  /** The objects fetched for one translatable schema, under its plural name. */
  datatype FetchedType = FetchedType(plural: string, objects: seq<DataObject>)

  function GroupKey(g: Group): string {
    Key(g.locale, g.property)
  }

  /** The entries with exactly this locale and property (field equality, not key equality). */
  function SameFields(ts: seq<Translation>, locale: string, property: string): seq<Translation> {
    if ts == [] then []
    else
      var p := SameFields(ts[..|ts| - 1], locale, property);
      var t := ts[|ts| - 1];
      if t.locale == locale && t.property == property then p + [t] else p
  }

  /** The candidates of a group: keyed `${locale}-${property}-${value}`, the first one selected. */
  function Seed(relevant: seq<Translation>): seq<Candidate> {
    seq(|relevant|, i requires 0 <= i < |relevant| =>
      Candidate(CandidateKey(relevant[i].locale, relevant[i].property, relevant[i].value),
                relevant[i].value,
                if i == 0 then Some(relevant[i].value) else None))
  }

  /** The set `duplicateKeys` shared by all groups of one object. */
  function DuplicateKeySet(dups: seq<Duplicate>): set<string> {
    set d | d in dups :: DupKey(d)
  }

  function MakeGroup(plural: string, obj: DataObject, dup: Duplicate, keys: set<string>, ref: nat): Group {
    Group(plural, obj.id, obj.name, dup.locale, dup.property,
          Seed(SameFields(obj.translations, dup.locale, dup.property)),
          obj.translations, keys, ref)
  }

  /** The groups built for one object, numbered from `next`. */
  function ObjectGroups(plural: string, obj: DataObject, next: nat): seq<Group> {
    var dups := Detect(obj.translations);
    var keys := DuplicateKeySet(dups);
    seq(|dups|, i requires 0 <= i < |dups| => MakeGroup(plural, obj, dups[i], keys, next + i))
  }

  /** The groups built for a list of objects of one schema, numbered from `next`. */
  function TypeGroups(plural: string, objs: seq<DataObject>, next: nat): seq<Group> {
    if objs == [] then []
    else
      var p := TypeGroups(plural, objs[..|objs| - 1], next);
      p + ObjectGroups(plural, objs[|objs| - 1], next + |p|)
  }

  /** The whole `dupeList` built by `loadData`. */
  function LoadGroups(types: seq<FetchedType>): seq<Group> {
    if types == [] then []
    else
      var p := LoadGroups(types[..|types| - 1]);
      var t := types[|types| - 1];
      p + TypeGroups(t.plural, t.objects, |p|)
  }

  /**
   * A group as it is built: the first candidate selects its own value, every
   * other candidate is unselected, every candidate's key is
   * `${locale}-${property}-${value}` of the group, and the group's own key is
   * among its `duplicateKeys`.
   */
  predicate Seeded(g: Group) {
    && |g.translations| >= 1
    && g.translations[0].selectedValue == Some(g.translations[0].value)
    && (forall j :: 1 <= j < |g.translations| ==> g.translations[j].selectedValue == None)
    && (forall c :: c in g.translations ==> c.key == CandidateKey(g.locale, g.property, c.value))
    && GroupKey(g) in g.duplicateKeys
  }

  function CandidateValues(cs: seq<Candidate>): seq<string> {
    seq(|cs|, i requires 0 <= i < |cs| => cs[i].value)
  }

  predicate DashFreeLocales(ts: seq<Translation>) {
    forall t :: t in ts ==> DashFree(t.locale)
  }

  lemma {:induction false} SameFieldsMembership(ts: seq<Translation>, locale: string, property: string)
    ensures forall t :: t in SameFields(ts, locale, property) <==>
      t in ts && t.locale == locale && t.property == property
  {
    if ts != [] {
      var n := |ts| - 1;
      SameFieldsMembership(ts[..n], locale, property);
      assert ts == ts[..n] + [ts[n]];
    }
  }

  /** With dash-free locales, filtering by fields and filtering by key agree. */
  lemma {:induction false} SameFieldsIsMembers(ts: seq<Translation>, locale: string, property: string)
    requires DashFreeLocales(ts) && DashFree(locale)
    ensures SameFields(ts, locale, property) == MembersWith(ts, Key(locale, property))
  {
    if ts != [] {
      var n := |ts| - 1;
      assert ts == ts[..n] + [ts[n]];
      assert DashFreeLocales(ts[..n]);
      SameFieldsIsMembers(ts[..n], locale, property);
      KeyInjective(ts[n].locale, ts[n].property, locale, property);
    }
  }

  /** A group built for a detected duplicate is `Seeded`. */
  lemma GroupSeeded(plural: string, obj: DataObject, d: Duplicate, keys: set<string>, ref: nat)
    requires d in Detect(obj.translations) && DupKey(d) in keys
    ensures Seeded(MakeGroup(plural, obj, d, keys, ref))
  {
    var ts := obj.translations;
    DetectSound(ts);
    var ms := MembersWith(ts, DupKey(d));
    MembersWithMembership(ts, DupKey(d));
    assert ms[0] in ms;
    SameFieldsMembership(ts, d.locale, d.property);
    var rel := SameFields(ts, d.locale, d.property);
    assert ms[0] in rel;
    var g := MakeGroup(plural, obj, d, keys, ref);
    forall c | c in g.translations
      ensures c.key == CandidateKey(g.locale, g.property, c.value)
    {
      var j :| 0 <= j < |rel| && g.translations[j] == c;
      assert rel[j] in rel;
    }
  }

  /** The shared `duplicateKeys` set is exactly the set of the object's group keys. */
  lemma ObjectKeys(plural: string, obj: DataObject, next: nat)
    ensures DuplicateKeySet(Detect(obj.translations)) == set h | h in ObjectGroups(plural, obj, next) :: GroupKey(h)
  {
    var dups := Detect(obj.translations);
    var r := ObjectGroups(plural, obj, next);
    forall k | k in DuplicateKeySet(dups) ensures k in set h | h in r :: GroupKey(h) {
      var e :| e in dups && DupKey(e) == k;
      var m :| 0 <= m < |dups| && dups[m] == e;
      assert r[m] in r && GroupKey(r[m]) == k;
    }
    forall h | h in r ensures GroupKey(h) in DuplicateKeySet(dups) {
      var m :| 0 <= m < |r| && r[m] == h;
      assert dups[m] in dups;
    }
  }

  /**
   * What one object contributes: one group per detected duplicate, in
   * detection order and numbered consecutively from `next`, carrying the
   * object's type, id, name and full translation list; each group is
   * `Seeded`; and all of them share one `duplicateKeys` set, which is exactly
   * the set of their own keys.
   */
  lemma ObjectGroupsShape(plural: string, obj: DataObject, next: nat)
    ensures |ObjectGroups(plural, obj, next)| == |Detect(obj.translations)|
    ensures forall i :: 0 <= i < |ObjectGroups(plural, obj, next)| ==>
      var g := ObjectGroups(plural, obj, next)[i];
      && g.ref == next + i
      && g.objectType == plural && g.id == obj.id && g.name == obj.name
      && g.locale == Detect(obj.translations)[i].locale
      && g.property == Detect(obj.translations)[i].property
      && g.originalTranslations == obj.translations
      && Seeded(g)
      && g.duplicateKeys == set h | h in ObjectGroups(plural, obj, next) :: GroupKey(h)
  {
    var dups := Detect(obj.translations);
    var keys := DuplicateKeySet(dups);
    var r := ObjectGroups(plural, obj, next);
    ObjectKeys(plural, obj, next);
    ObjectGroupsSeeded(plural, obj, next);
  }

  /** Every record is `Seeded`, and the records are numbered consecutively from `next`. */
  predicate SeededFrom(gs: seq<Group>, next: nat) {
    forall i :: 0 <= i < |gs| ==> gs[i].ref == next + i && Seeded(gs[i])
  }

  lemma SeededConcat(p: seq<Group>, q: seq<Group>, next: nat)
    requires SeededFrom(p, next) && SeededFrom(q, next + |p|)
    ensures SeededFrom(p + q, next)
  {
    forall i | 0 <= i < |p + q| ensures (p + q)[i].ref == next + i && Seeded((p + q)[i]) {
      if i >= |p| {
        assert (p + q)[i] == q[i - |p|];
      }
    }
  }

  /** The groups of one object are `Seeded` and numbered consecutively from `next`. */
  lemma ObjectGroupsSeeded(plural: string, obj: DataObject, next: nat)
    ensures SeededFrom(ObjectGroups(plural, obj, next), next)
  {
    var dups := Detect(obj.translations);
    var keys := DuplicateKeySet(dups);
    var r := ObjectGroups(plural, obj, next);
    forall i | 0 <= i < |r| ensures Seeded(r[i]) {
      assert dups[i] in dups;
      GroupSeeded(plural, obj, dups[i], keys, next + i);
    }
  }

  /**
   * For an object whose locales contain no `-`, every group has at least two
   * candidates, namely the detected values in input order.
   */
  lemma ObjectGroupsValues(plural: string, obj: DataObject, next: nat)
    requires DashFreeLocales(obj.translations)
    ensures forall i :: 0 <= i < |ObjectGroups(plural, obj, next)| ==>
      CandidateValues(ObjectGroups(plural, obj, next)[i].translations) == Detect(obj.translations)[i].values &&
      |ObjectGroups(plural, obj, next)[i].translations| >= 2
  {
    var dups := Detect(obj.translations);
    var r := ObjectGroups(plural, obj, next);
    forall i | 0 <= i < |r|
      ensures CandidateValues(r[i].translations) == dups[i].values
      ensures |r[i].translations| >= 2
    {
      assert dups[i] in dups;
      GroupValues(obj, dups[i]);
    }
  }

  /** With dash-free locales, the candidates of a detected duplicate carry exactly its values. */
  lemma GroupValues(obj: DataObject, d: Duplicate)
    requires DashFreeLocales(obj.translations) && d in Detect(obj.translations)
    ensures CandidateValues(Seed(SameFields(obj.translations, d.locale, d.property))) == d.values
    ensures |Seed(SameFields(obj.translations, d.locale, d.property))| >= 2
  {
    var ts := obj.translations;
    DetectSound(ts);
    var ms := MembersWith(ts, DupKey(d));
    MembersWithMembership(ts, DupKey(d));
    assert ms[0] in ms;
    SameFieldsIsMembers(ts, d.locale, d.property);
    SeedValues(ms);
  }

  lemma SeedValues(relevant: seq<Translation>)
    ensures |Seed(relevant)| == |relevant|
    ensures CandidateValues(Seed(relevant)) == ValuesOf(relevant)
  {
  }

  lemma TypeGroupsStep(plural: string, objs: seq<DataObject>, j: nat, next: nat, groups: seq<Group>, more: seq<Group>)
    requires j < |objs|
    requires groups == TypeGroups(plural, objs[..j], next)
    requires more == ObjectGroups(plural, objs[j], next + |groups|)
    ensures groups + more == TypeGroups(plural, objs[..j + 1], next)
  {
    PrefixInit(objs, j);
  }

  lemma LoadGroupsSnoc(types: seq<FetchedType>, t: FetchedType)
    ensures LoadGroups(types + [t]) == LoadGroups(types) + TypeGroups(t.plural, t.objects, |LoadGroups(types)|)
  {
    assert (types + [t])[..|types|] == types;
  }

  /** The records of one schema are numbered consecutively from `next`. */
  lemma {:induction false} TypeGroupsRefs(plural: string, objs: seq<DataObject>, next: nat)
    ensures SeededFrom(TypeGroups(plural, objs, next), next)
  {
    if objs != [] {
      var n := |objs| - 1;
      TypeGroupsRefs(plural, objs[..n], next);
      var p := TypeGroups(plural, objs[..n], next);
      ObjectGroupsSeeded(plural, objs[n], next + |p|);
      SeededConcat(p, ObjectGroups(plural, objs[n], next + |p|), next);
    }
  }

  /**
   * Every record of the whole load is `Seeded`, and its `ref` is its position
   * in `dupeList`, so no two records share an identity.
   */
  lemma LoadGroupsRefs(types: seq<FetchedType>)
    ensures forall i :: 0 <= i < |LoadGroups(types)| ==>
      LoadGroups(types)[i].ref == i && Seeded(LoadGroups(types)[i])
  {
    LoadGroupsSeeded(types);
  }

  lemma {:induction false} LoadGroupsSeeded(types: seq<FetchedType>)
    ensures SeededFrom(LoadGroups(types), 0)
  {
    if types != [] {
      var n := |types| - 1;
      LoadGroupsSeeded(types[..n]);
      var p := LoadGroups(types[..n]);
      TypeGroupsRefs(types[n].plural, types[n].objects, |p|);
      SeededConcat(p, TypeGroups(types[n].plural, types[n].objects, |p|), 0);
    }
  }

  /**
   * One pass of the inner loop of `loadData` over one object: detect, build
   * the shared key set, then push one record per duplicate.
   */
  method BuildObjectGroups(plural: string, obj: DataObject, next: nat) returns (groups: seq<Group>)
    ensures groups == ObjectGroups(plural, obj, next)
  {
    var duplicated := CheckForDuplicateTranslations(obj.translations);
    groups := [];
    if |duplicated| > 0 {
      var keys := DuplicateKeySet(duplicated);
      var i := 0;
      while i < |duplicated|
        invariant 0 <= i <= |duplicated|
        invariant |groups| == i
        invariant forall m :: 0 <= m < i ==> groups[m] == MakeGroup(plural, obj, duplicated[m], keys, next + m)
      {
        var dup := duplicated[i];
        var relevant := SameFields(obj.translations, dup.locale, dup.property);
        groups := groups + [Group(plural, obj.id, obj.name, dup.locale, dup.property,
                                  Seed(relevant), obj.translations, keys, next + i)];
        i := i + 1;
      }
    }
    assert |groups| == |ObjectGroups(plural, obj, next)|;
  }

  /** The loop of `loadData` over the objects of one schema. */
  method BuildTypeGroups(plural: string, objs: seq<DataObject>, next: nat) returns (groups: seq<Group>)
    ensures groups == TypeGroups(plural, objs, next)
  {
    groups := [];
    var j := 0;
    while j < |objs|
      invariant 0 <= j <= |objs|
      invariant groups == TypeGroups(plural, objs[..j], next)
    {
      var more := BuildObjectGroups(plural, objs[j], next + |groups|);
      TypeGroupsStep(plural, objs, j, next, groups, more);
      groups := groups + more;
      j := j + 1;
    }
    assert objs[..j] == objs;
  }

  /** The outer loop of `loadData` over the translatable schemas, building `dupeList`. */
  method BuildDupeList(types: seq<FetchedType>) returns (dupeList: seq<Group>)
    ensures dupeList == LoadGroups(types)
  {
    dupeList := [];
    var i := 0;
    while i < |types|
      invariant 0 <= i <= |types|
      invariant dupeList == LoadGroups(types[..i])
    {
      assert types[..i + 1] == types[..i] + [types[i]];
      LoadGroupsSnoc(types[..i], types[i]);
      var groups := BuildTypeGroups(types[i].plural, types[i].objects, |dupeList|);
      dupeList := dupeList + groups;
      i := i + 1;
    }
    assert types[..i] == types;
  }
}
