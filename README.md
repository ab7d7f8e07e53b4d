# Duplicate translation fixer — a Dafny model of its engine

The application loads every translatable object of a DHIS2 instance. It
finds entries in each object's translation list that collide on the same
`locale-property` key. It shows one table row ("group") per collision, with
one radio button per colliding value and one checkbox per object. On "Fix
Selected" it writes each checked object back with the colliding entries
replaced by the chosen values. This project models that engine in `src/app.js`
and proves what it guarantees.

Modules, in dependency order:

- `Wrappers` — `Option`.
- `Collections` — `Distinct`, `FirstIndex` and `FirstSeen`. `FirstSeen` is
  the key order of a JavaScript `Map`, in insertion order.
- `Translations` — the `Translation` record and the string keys
  `Key(locale, property)` = `locale-property` and
  `CandidateKey(locale, property, value)` = `locale-property-value`, both
  written out as concatenation with `-`.
- `Detection` — `checkForDuplicateTranslations`. It has a specification
  function `Detect` and the two-loop method `CheckForDuplicateTranslations`,
  which is proved equal to it.
- `Groups` — the group records and the nested loops of `loadData` that
  build `dupeList` (`BuildObjectGroups`, `BuildTypeGroups`, `BuildDupeList`).
  Each loop has its own specification function.
- `Selection` — `handleRadioChange`, `handleCheckboxChange`, the
  select-all/none header checkbox and the "Fix Selected" filter, all as
  functions on the state.
- `Reconciliation` — the replacement list for one object: the filter of the
  fresh list plus the pushed winners. It has a specification function
  `Reconcile` and the loop method `UpdatedTranslations`.
- `Batch` — the loop of `fixSelectedTranslations` over objects, with
  success/failure bookkeeping (`RunBatch`, specified by `RunSpec`), and the
  post-batch filter `Without`.
- `App` — the class `DedupState`. Its fields are the two globals
  `duplicates` and `selectedDuplicates`. Its methods are the handlers that
  reassign them.

JavaScript object identity matters in one place: `success.includes(duplicate)`
compares rows by identity. A `Group` therefore carries a `ref: nat`, which is
the row's position in the list `loadData` builds. `DedupState.Valid()` says
that no two rows share a `ref`, and that every row's own `locale-property`
key is among its `duplicateKeys` (as `loadData` builds the rows). Every
handler keeps that invariant, so equality of `Group` values coincides with
identity of rows, and the rows a fix sends to the reconciliation meet the
precondition of `Reconciliation.ReconcileIdempotent`. The radio handler
requires its `item` to be a row of the table: its listener is attached to
a rendered row, and every state change re-renders the table.

I/O is modelled by inputs:

- `loadData` receives the fetched types and objects as a
  `seq<FetchedType>`.
- A batch receives `latest: map<Id, seq<Translation>>`, the fresh
  translation list of each object whose GET succeeded. An id is absent when
  its GET failed.
- It also receives `putOk: set<Id>`, the objects whose PUT succeeded.
- Any failed step leads to the `catch` branch, which is the failure outcome.
- The PUTs a batch attempts are returned as `Write` records.

Behaviour of the code that a reader might not expect (the model follows the code):

- Radio choices select by candidate key. Equal values produce equal keys, so
  a group that repeats a value gets both copies selected, and both are
  written back (`Reconciliation.ChosenWinners`). The "at most one selected
  candidate per group" property therefore holds only for groups whose
  values are pairwise different (`Selection.RadioSelectsValue`).
- A radio key that matches no candidate is not rejected. It unselects every
  candidate of the group, so the group then writes nothing back.
- Groups appear in first-seen key order, which is fixed by the `Map`
  iteration in `checkForDuplicateTranslations` (`Detection.DetectOrder`).
- Detection groups by the string `locale-property`, but candidate
  collection (`src/app.js:278`) compares the two fields. They are
  guaranteed to agree when locales contain no `-`
  (`Translations.KeyInjective`, `Groups.SameFieldsIsMembers`); they can
  differ only when two different pairs share one key. `Translations.KeyCollision` exhibits two
  different pairs with one key.
- `selectedDuplicates` holds object ids. Select-all stores one id per group,
  so an object with several groups appears several times. Checking every box
  by hand stores one id per object.

## Model

| member | source | states |
|---|---|---|
| Collections.FirstSeenMembers | src/app.js:38-50 | the `Map` key order holds exactly the keys of the input, each once |
| Collections.FirstSeenOrder | src/app.js:50 | the keys come out in the order of their first occurrence |
| Translations.KeyInjective | src/app.js:42 | when both locales are free of `-`, two `locale-property` keys are equal if and only if locale and property are equal |
| Translations.KeyCollision | src/app.js:42 | without that condition two different (locale, property) pairs share a key |
| Translations.CandidateKeyValue | src/app.js:280 | two candidates of one group have the same key if and only if they have the same value |
| Detection.CollectByKey | src/app.js:38-48 | the first loop leaves one bucket per key, keys in first-seen order, each bucket holding that key's entries in input order |
| Detection.CheckForDuplicateTranslations | src/app.js:37-61 | the method returns exactly `Detect(translations)` |
| Detection.MembersWithMembership | src/app.js:43-47 | a key's bucket holds exactly the entries with that key |
| Detection.DetectSound | src/app.js:50-57 | every report has at least two values; they are the values of its key's entries in input order; its locale and property come from the first such entry |
| Detection.DetectComplete | src/app.js:41-58 | a key is reported if and only if at least two entries carry it |
| Detection.DetectOrder | src/app.js:50-57 | reports follow the first occurrence of their keys, so no key is reported twice |
| Detection.DetectEmptyIff | src/app.js:41-58 | the result is empty if and only if no key occurs twice |
| Groups.SameFieldsIsMembers | src/app.js:278 | with dash-free locales, the field-equality filter picks exactly the detection bucket of the key |
| Groups.SeedValues | src/app.js:279-283 | one candidate per relevant entry, with that entry's value, in order |
| Groups.ObjectGroupsShape | src/app.js:274-293 | one group per detected duplicate, in detection order; each carries the object's type, id, name and original list; candidate 0 is preselected and the others are null; each candidate key is `locale-property-value`; all groups of the object share the set of all their keys |
| Groups.ObjectGroupsValues | src/app.js:277-283 | with dash-free locales, a group's candidate values are exactly the detected values, at least two |
| Groups.LoadGroupsRefs | src/app.js:271-299 | every row of `dupeList` is seeded as above, and its `ref` is its position |
| Groups.BuildObjectGroups | src/app.js:274-295 | the per-object loop pushes exactly `ObjectGroups` |
| Groups.BuildTypeGroups | src/app.js:273-296 | the per-type loop pushes exactly `TypeGroups` |
| Groups.BuildDupeList | src/app.js:268-299 | the whole load loop builds exactly `LoadGroups` |
| Selection.RadioChangeEffect | src/app.js:119-127 | rows of other groups are unchanged; a matching row becomes the item, its candidates keep key and value, and a candidate is selected, with the chosen value, exactly when its key is the chosen key |
| Selection.ReselectOverrides | src/app.js:120-122 | a second radio choice wholly replaces the first |
| Selection.RadioSelectsValue | src/app.js:120-122 | in a correctly keyed group, clicking a candidate selects exactly the candidates with its value, each with its own value |
| Selection.RemoveAllCounts | src/app.js:135 | the filter removes every occurrence of the id and keeps every other id as often as before |
| Selection.RemoveAllAbsent | src/app.js:135 | removing an id that does not occur changes nothing |
| Selection.ToggleEffect | src/app.js:133-138 | a present id is removed everywhere; an absent id is added once; other ids are unaffected |
| Selection.ToggleTwice | src/app.js:133-138 | checking and then unchecking an unchecked object restores the list |
| Selection.SelectAllEffect | src/app.js:216 | after select-all every row is picked for fixing, in table order; after select-none no row is |
| Selection.SelectAllShown | src/app.js:212 | the header shows as checked after select-all on a non-empty table, and never after select-none |
| Selection.SelectedItemsMembership | src/app.js:250 | the rows to fix are exactly the rows whose object id is checked |
| Reconciliation.RetainedMembership | src/app.js:78-80 | the retained entries are exactly the fresh entries whose key is in no item's duplicate keys |
| Reconciliation.RetainedAppend | src/app.js:78-80 | the filter keeps the original order |
| Reconciliation.RetainedUntouched | src/app.js:78-80 | a fresh list with no covered key is kept whole |
| Reconciliation.RetainedIdempotent | src/app.js:78-80 | filtering twice equals filtering once |
| Reconciliation.CandidateWinnersShape | src/app.js:83-91 | an item pushes one `{item.locale, item.property, selectedValue}` per candidate with a non-null selection, in candidate order |
| Reconciliation.WinnersAppend | src/app.js:82-92 | the pushed entries come in item order |
| Reconciliation.NoSelectionNoWinner | src/app.js:84-90 | a group with no selection pushes nothing |
| Reconciliation.SeededWinner | src/app.js:82-92 | a group as loaded pushes exactly its first value |
| Reconciliation.ChosenWinners | src/app.js:82-92 | after choosing key `k` with value `v`, an item pushes `{locale, property, v}` once per candidate whose key is `k` |
| Reconciliation.WinnersCovered | src/app.js:79-89 | every pushed entry has a key that some item covers |
| Reconciliation.ReconcileIdempotent | src/app.js:78-92 | running filter-then-append again on its own output with the same items returns the same list |
| Reconciliation.UpdatedTranslations | src/app.js:78-92 | the filter and push loops build exactly `Reconcile(latest, items)` |
| Batch.ItemsOfMembership | src/app.js:69-73 | an object's bucket holds exactly the selected items with its id |
| Batch.WithoutMembership | src/app.js:113 | the post-batch filter keeps exactly the rows not in `success` |
| Batch.BatchPartition | src/app.js:75-103 | an item lands in `success` exactly when its object's fetch and write both succeed, and in `failures` exactly when either fails, wherever the object stands in the batch |
| Batch.BatchPermutation | src/app.js:69-103 | `success ++ failures` is a permutation of the selected items |
| Batch.BatchWrites | src/app.js:75-96 | every selected object whose GET succeeded is written back exactly once, to the endpoint of `items[0].type`, with the reconciliation of its fresh list and its selected items, whatever happened to earlier objects; no other object is written |
| Batch.BatchWritesStable | src/app.js:69-96 | when the items cover their own keys, each written list is a fixed point of the reconciliation with the same items |
| Batch.FixRetention | src/app.js:98-113 | after a batch the table keeps exactly the rows that were not both checked and successfully written |
| Batch.RunBatch | src/app.js:65-103 | the loop over objects produces exactly `RunSpec`: its successes, its failures and its writes |
| App.LoadGroupsDistinct | src/app.js:284-301 | a freshly loaded table has one object per row |
| App.RadioChangeDistinct | src/app.js:123-127 | a radio change keeps one object per row |
| App.RadioKeepsOwnKeys | src/app.js:123-127 | a radio change made from a row of the table keeps every row's own key among its duplicate keys |
| App.WithoutDistinct | src/app.js:113 | dropping succeeded rows keeps one object per row and adds no row |
| App.DedupState.constructor | src/app.js:13-14 | both globals start empty |
| App.DedupState.LoadData | src/app.js:268-302 | `duplicates` becomes `LoadGroups(types)`; every row is seeded; the selection is untouched |
| App.DedupState.HandleRadioChange | src/app.js:119-129 | for an `item` that is a row of the table, `duplicates` becomes `RadioChange` of the old rows and keeps the row invariant; the selection is untouched |
| App.DedupState.HandleCheckboxChange | src/app.js:133-140 | `selectedDuplicates` becomes `Toggle` of the old list; the rows are untouched |
| App.DedupState.HandleSelectAll | src/app.js:214-218 | `selectedDuplicates` becomes every row's id, or nothing; the rows are untouched |
| App.DedupState.FixSelectedTranslations | src/app.js:65-115 | the outcome is `RunSpec` of the items; `duplicates` loses exactly the succeeded rows; the selection is untouched |
| App.DedupState.FixClicked | src/app.js:250 | the checked rows are fixed; they cover their own keys, so each written list is stable under a second fix; `duplicates` becomes the old rows without the succeeded ones, in their old order, so a row remains if and only if it was there and was not both checked and written successfully |

## Left out

- Network I/O is not modelled:
  - `d2Get`, `d2PutJson`, `fetchTranslatableObjectTypes` and `fetchObjectData` (`src/app.js:18-33`, `src/app.js:77`, `src/app.js:96`) become inputs, as described above.
  - Only the `translations` field of the fetched `:owner` object is modelled. A `Write` carries the type, the id and the new translation list.
  - `fetchObjectData`'s fallback to an empty list on error amounts to a type with no objects in the input.
- Rendering is not modelled: `createTableRow`, `renderTable` and `renderPreloader`. They only draw the state.
- Toasts and console logging are not modelled. They have no effect on the state.
- The success and failure counts that the toasts display are not modelled.
- The progress percentage (`src/app.js:297`) is left out. It is a floating-point value that is only displayed.
- `async`/`await` is not modelled: each handler runs as one atomic step, so a click during a pending batch is not represented.
- The `DOMContentLoaded` hook, the `window` exports and `loadLegacyHeaderBarIfNeeded` are bootstrapping and foreign code, and are not modelled.
- `Batch.ObjectOrder`: `Object.entries` is modelled as first-selection order. JavaScript lists integer-like keys first, in numeric order. DHIS2 identifiers start with a letter, so they are never integer-like.
- App.DedupState.HandleRadioChange: `{ ...item, ... }` creates a new object. The model lets the new row take over the `ref` of the row it replaces, so an old reference to the replaced row is not modelled as distinct from the new row.
- Groups.ObjectGroupsValues: the group size of at least two, and the agreement between the field filter and the key bucket, are proved only for locales without `-`. For other locales the code can group entries by key that the field filter then splits.
- Strings are Dafny `seq<char>`. JavaScript's UTF-16 details do not affect the string comparisons and concatenations used here.
