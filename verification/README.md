# Achievement cake: the cake store, flag placement and list editing in Dafny

The application is a virtual "achievement cake". The user plants labelled
flags ("picks") on a 3D cake, keeps several named cakes, picks a colour theme
for each, and exports or imports a cake as JSON. This project models the parts
of it that carry logic:

- **The local cake store** (`storage.dfy`, module `Storage`, with cross-operation
  lemmas in `storage_props.dfy`, module `StoreProperties`). The browser's
  key-value storage is a `map<string, Value>`. The index of cakes lives under
  `ac_cakes_index_v1` and the last-active pointer under `ac_active_cake_v1`.
  Each cake's pick list lives under `ac_cake_<id>_v1`. Every operation is a pure
  transition from one store to the next: create, set-active, get-active, rename,
  retheme, touch, delete and duplicate. The fresh cake id and the current time
  are parameters.
- **Flag placement** (`placement.dfy`, module `Placement`). This is bounded
  rejection sampling on an annulus with a minimum distance between flags and
  an unchecked fall-back draw. The random source is a draw function
  `nat -> Candidate`. Trigonometry is an abstract projection `(angle, radius) -> Point`.
  The loop method is proved equal to a recursive reference definition.
- **Pick-list editing, export name and import rule** (`app.dfy`, module
  `AppActions`). Add, edit and delete are pure list operations. The export
  file name collapses white-space runs to `_` and appends `.cake.json`. An
  import takes `parsed.picks ?? parsed`.
- **Themes** (`themes.dfy`, module `Themes`). This is the theme table's ids and
  the lookup with its fall-back to the default theme `chocolate`.
- Shared helpers:
  - `lists.dfy` holds `Option`, the first-match `find` and the order-preserving `filter`.
  - `text.dfy` holds ECMAScript `trim` and `replace(/\s+/g, '_')`.
  - `types.dfy` holds the `Pick`, `CakeMeta` and `CakesIndex` records.

Stored values are typed documents (`IndexDoc`, `PicksDoc`, `Raw`). A key that
holds anything other than the document its reader expects reads the way a
failed `JSON.parse` does: as no index, or as an empty pick list. An absent key
or an empty string reads the same way.

`deleteCake` writes the pointer only when the new active id is non-empty
(src/storage.ts:119) and never clears it. So after the last cake is deleted,
the index's active id is null but `getActiveCakeId` still reports the deleted
id. The model keeps this behaviour as written. `StoreProperties.DeleteLastCakeLeavesStalePointer` and
`StoreProperties.CreateDeleteResurrects` prove this.

## Model

| member | source | states |
|---|---|---|
| Lists.FindIndex | src/storage.ts:85 | `find` returns the first element satisfying the predicate: every earlier element fails it, and no result means no element satisfies it |
| Lists.FilterConcat | src/storage.ts:114 | filtering distributes over concatenation, so the kept elements stay in their relative order |
| Lists.FilterIdentity | src/App.tsx:232 | a filter leaves the list unchanged exactly when every element passes |
| Lists.FilterHeadIsFirstKept | src/storage.ts:115 | the filtered list is non-empty iff some element passes, and its head is the first element that passes |
| Text.Trim | src/App.tsx:217-218 | the trimmed text starts and ends with a non-white-space character, and it is empty exactly when the input is all white space |
| Text.TrimIsSlice | src/App.tsx:217 | trim removes exactly a white-space prefix and a white-space suffix: the result is a slice `s[a..b]` with only white space outside it |
| Text.TrimIdempotent | src/App.tsx:226 | trimming an already trimmed label changes nothing |
| Text.CollapseWhitespace | src/App.tsx:334 | the result of `replace(/\s+/g, '_')` contains no white space and is no longer than the input |
| Text.CollapseRun | src/App.tsx:334 | a maximal white-space run followed by a non-white-space character becomes exactly one `_` |
| Text.CollapseIdentity | src/App.tsx:334 | the replacement leaves a name unchanged exactly when it has no white space |
| Text.CollapseIdempotent | src/App.tsx:334 | applying the replacement twice gives the same name as applying it once |
| Text.CollapseKeepsOtherChars | src/App.tsx:334 | every character other than white space and `_` survives the replacement, in order, and no other such character appears |
| Text.CollapseCopies | src/App.tsx:334 | a character that is not white space, `_` included, is copied through unchanged. With `CollapseRun` this fixes the replacement on every input |
| Themes.FindTheme | src/themes.ts:122 | a lookup hit is a table entry carrying the requested id, and a miss happens exactly when no entry has that id |
| Themes.DefaultTheme | src/themes.ts:121 | the non-null assertion is justified: the default id `chocolate` has an entry in the table |
| Themes.GetThemeById | src/themes.ts:120-123 | the result is always a table entry. A missing or empty id gives the default theme, a known id gives its own theme, and an unknown id falls back to the default |
| Themes.TableWellFormed | src/themes.ts:30-92 | the ids `vanilla`, `chocolate`, `red-velvet` are pairwise distinct and include the default id |
| Themes.GetThemeByOwnId | src/themes.ts:122 | looking up any table entry by its own id returns that very entry |
| Placement.Place | src/App.tsx:152-196 | the placed flag has the given id and text and height 0.6. Its position is one of the 61 draws, and it keeps `MIN_DIST` from every flag whenever some checked draw does |
| Placement.ChosenAttempt | src/App.tsx:169-195 | the attempt used is the first of the 60 attempts whose candidate clears every existing flag. If none clears, it is the fall-back draw 60 |
| Placement.CheckClear | src/App.tsx:177-187 | the inner scan reports success iff the candidate is at least `MIN_DIST` from every existing flag's projection |
| Placement.PlaceNewPick | src/App.tsx:152-196 | see the paragraph after this table |
| Placement.AttemptIsChosen | src/App.tsx:169-195 | an attempt that follows only rejected attempts, and clears or is the fall-back, is `ChosenAttempt`. So the loop of `PlaceNewPick` and the reference `Place` choose the same candidate |
| Placement.SampledRadiusInAnnulus | src/App.tsx:156-167 | for `u` in [0,1), a non-negative `r` with `r*r = u*(R²−r₀²)+r₀²` satisfies `0.15 <= r < 1.85` |
| Placement.PlacedInAnnulus | src/App.tsx:162-195 | if every draw lies in the annulus, the placed flag does too, whichever attempt was used |
| Storage.CakeKey | src/storage.ts:3-5 | a per-cake key never equals the index key or the pointer key |
| Storage.CakeKeyInjective | src/storage.ts:5 | distinct cake ids give distinct per-cake keys |
| Storage.LoadIndex | src/storage.ts:24-33 | an index is returned iff the index key holds an index document; absent or unreadable data gives null |
| Storage.SaveIndex | src/storage.ts:35-37 | after saving, loading returns the saved index and no other key changes |
| Storage.LoadCakePicks | src/storage.ts:39-48 | a stored pick list loads as itself; a missing key, an empty string or an unreadable value loads as the empty list |
| Storage.SaveCakePicks | src/storage.ts:50-52 | saving writes the cake's key and touches no other key |
| Storage.PicksRoundTrip | src/storage.ts:39-52 | save-then-load returns the saved list. It leaves other cakes' lists and the index unchanged |
| Storage.ReadPointer | src/storage.ts:78-79 | the pointer yields an id only when the pointer key holds a non-empty string |
| Storage.GetActiveCakeId | src/storage.ts:75-80 | see the paragraph after this table |
| Storage.CreateNewCake | src/storage.ts:54-65 | see the paragraph after this table |
| Storage.SetActiveCake | src/storage.ts:67-73 | with no index the store is unchanged. Otherwise only the index's active id and the pointer change, both to `id` |
| Storage.FindCake | src/storage.ts:85 | the located cake is the first with the id, and none is found exactly when the id is not among the index's ids |
| Storage.UpdateMeta | src/storage.ts:82-109 | with no index or no matching cake the store is unchanged. Otherwise only the first matching cake is replaced, and length, order, the other cakes and the active id are kept |
| Storage.UpdateCakeMetaName | src/storage.ts:82-90 | rename is a no-op when the index or the cake is missing. Otherwise it changes only the matching cake's name and `updatedAt` |
| Storage.UpdateCakeTheme | src/storage.ts:92-100 | retheme is a no-op when the index or the cake is missing. Otherwise it changes only the matching cake's theme and `updatedAt` |
| Storage.TouchCakeUpdated | src/storage.ts:102-109 | touch is a no-op when the index or the cake is missing. Otherwise it changes only the matching cake's `updatedAt` |
| Storage.Remaining | src/storage.ts:114 | no remaining cake has the deleted id, and every cake with another id remains |
| Storage.ActiveAfterDelete | src/storage.ts:115 | deleting a cake that is not active keeps the active id; deleting the active cake moves it to the first cake with another id, or to null when there is none |
| Storage.FirstRemainingIsFirstOther | src/storage.ts:115 | the first remaining cake is the first cake of the old index whose id differs from the deleted one |
| Storage.DeleteCake | src/storage.ts:111-121 | see the paragraph after this table |
| Storage.DuplicateCake | src/storage.ts:123-131 | see the paragraph after this table |
| StoreProperties.CreatePreservesInvariant | src/storage.ts:54-65 | creating under an id not yet in the index keeps ids unique, the active id valid, and a pick-list key for every cake |
| StoreProperties.SetActivePreservesInvariant | src/storage.ts:67-73 | activating a cake of the index keeps the store invariant |
| StoreProperties.MetaUpdatesPreserveInvariant | src/storage.ts:82-109 | rename, retheme and touch keep the invariant and every cake's id |
| StoreProperties.DeletePreservesInvariant | src/storage.ts:111-121 | deleting keeps the invariant: the reassigned active id names a remaining cake, and the remaining cakes keep their pick-list keys |
| StoreProperties.DeleteKeepsActiveValid | src/storage.ts:114-115 | in an index with unique ids and a valid active id, the active id after a delete is null or names a remaining cake |
| StoreProperties.RemainingUnique | src/storage.ts:114 | filtering a list with unique ids leaves unique ids |
| StoreProperties.DuplicatePreservesInvariant | src/storage.ts:123-131 | duplicating under an id not yet in the index keeps the store invariant |
| StoreProperties.CreateThenActive | src/storage.ts:54-80 | after creation, `getActiveCakeId`, the index's active id and the stored picks all refer to the new cake |
| StoreProperties.SetActiveThenActive | src/storage.ts:67-80 | after activating a non-empty id in an existing index, `getActiveCakeId` reports it |
| StoreProperties.SetActiveWithoutIndex | src/storage.ts:67-80 | without an index, activating writes nothing, so `getActiveCakeId` still reports the old pointer |
| StoreProperties.DeleteDropsPicks | src/storage.ts:111-121 | after deletion the deleted cake's picks load as empty |
| StoreProperties.DeleteActiveOfTwo | src/storage.ts:111-121 | deleting active A from `[A, B]` yields `[B]` with B active, and `getActiveCakeId` reports B |
| StoreProperties.DeleteLastCakeLeavesStalePointer | src/storage.ts:75-121 | deleting the only, active cake empties the index and nulls its active id, yet `getActiveCakeId` still returns the deleted id |
| StoreProperties.CreateDeleteResurrects | src/storage.ts:54-121 | from an empty store, create-then-delete leaves no cakes while `getActiveCakeId` still names the deleted cake |
| StoreProperties.DuplicateIndependent | src/storage.ts:123-131 | overwriting a duplicate's picks leaves the source cake's stored picks as they were |
| AppActions.AddPick | src/App.tsx:216-221 | a blank draft changes nothing. Otherwise exactly one pick is appended, after the unchanged old list, labelled with the trimmed draft, at height 0.6, placed by the placement rule |
| AppActions.EditPick | src/App.tsx:223-229 | see the paragraph after this table |
| AppActions.DeletePick | src/App.tsx:231-234 | no pick with the id remains, and every pick with another id remains |
| AppActions.DeleteAbsentIsIdentity | src/App.tsx:231-234 | deleting an id no pick carries leaves the list unchanged |
| AppActions.DeleteUndoesAppend | src/App.tsx:231-234 | deleting the id of a pick appended under a fresh id removes exactly that pick and keeps the rest in order |
| AppActions.DeleteUndoesAdd | src/App.tsx:216-234 | deleting a just-added pick with a fresh id restores the original list |
| AppActions.EditThenFilter | src/App.tsx:223-234 | a list that differs from another only in the picks with `id`, and keeps every pick's id, filters to the same list once `id` is removed |
| AppActions.DeleteAfterEdit | src/App.tsx:223-234 | editing a pick and then deleting it is the same as deleting it |
| AppActions.EditIdempotent | src/App.tsx:223-229 | repeating the same edit changes nothing further |
| AppActions.ExportedName | src/App.tsx:329 | the export name is the active cake's name when the cake is found and its name is non-empty; in every other case it is `"cake"` |
| AppActions.ExportFileName | src/App.tsx:325-337 | see the paragraph after this table |
| AppActions.ExportFileNameShape | src/App.tsx:329-334 | the export file name has no white space, and its stem keeps the name's other characters in order |
| AppActions.ImportedPicks | src/App.tsx:346-348 | see the paragraph after this table |
| AppActions.ImportAcceptsBothShapes | src/App.tsx:330-348 | an exported `{name, picks}` document and a bare pick array import to the same pick list |

Some contracts are too long for a table cell:

- `Placement.PlaceNewPick`:
  - it uses at most 61 draws and always returns a pick;
  - the pick has the given id and text and height 0.6;
  - its position is the last draw used, and every earlier draw was rejected;
  - if it returns within 60 draws, that draw clears `MIN_DIST`.
  These facts determine `used`; `Placement.AttemptIsChosen` turns them into
  `used - 1 == ChosenAttempt(...)`.
- `Storage.GetActiveCakeId`: it returns the index's active id when that is
  set and non-empty. Otherwise it returns the pointer when that is non-empty,
  and otherwise null.
- `Storage.CreateNewCake`:
  - the prior cakes are kept in order and exactly the new meta is appended, so
    with no prior index the result is `[meta]`;
  - the active id becomes the new id;
  - the new cake's picks and the pointer are written;
  - no other key changes.
- `Storage.DeleteCake`:
  - with no index nothing changes and null is returned;
  - otherwise the cakes become `Remaining`;
  - if the deleted cake was active, the new active id is the first remaining
    cake's id, or null when none remain; otherwise the active id is unchanged;
  - the cake's key is removed;
  - the pointer is written only when the new active id is non-empty.
- `Storage.DuplicateCake`:
  - it returns null and leaves the store unchanged when the index or the
    source is missing;
  - otherwise a new cake with id `newId` and both timestamps `now` is appended
    after the existing cakes and becomes the active cake, in the index and in
    the pointer;
  - it is named `newName`, or `"Copy of "` followed by the source's name;
  - it gets the source's theme, or the default theme;
  - its picks are the source's stored picks;
  - the source's own key is unchanged;
  - no key other than the index, the pointer and the new cake's key changes.
- `AppActions.EditPick`:
  - nothing changes when no pick has the id, when the prompt is cancelled, or
    when the trimmed answer is empty;
  - otherwise only the text of matching picks changes, to the trimmed answer;
  - ids, angles, radii, heights and order are kept.
- `AppActions.ExportFileName`:
  - there is no file name without a non-empty active id;
  - otherwise the name ends in `.cake.json`;
  - its stem is the export name with each white-space run collapsed to one `_`.
- `AppActions.ImportedPicks`:
  - the import is refused when the file does not parse or parses to `null`;
  - a non-null `picks` field is taken when present;
  - otherwise the whole parsed value is taken.

## Left out

- Rendering and UI state:
  - All rendering is left out: the scene, the cake, the flags and the canvas
    text wrapping that depends on `ctx.measureText`. It is presentation code on
    foreign libraries.
  - The modal, toast and how-to components and the Electron window bootstrap
    are left out. They are presentation and host set-up only.
  - The 60-character limit on a flag label is an attribute of the input widget
    (`maxLength`), not a check in `addPick`, so it is not modelled.
- App flow:
  - The React state and effects are left out: first-run creation of a default
    "My <year> Wins" cake, autosave, and the new, select, rename, duplicate and
    delete handlers. They only sequence the store operations modelled here with
    UI state.
  - In the import flow, the name (`parsed.name || "Imported <date>"`), the
    create-or-overwrite confirmation and the write of the unvalidated imported
    JSON into the store are left out. The imported value is not a typed pick
    list, and the dialog is I/O.
- Environment:
  - `Math.random`, `crypto.randomUUID` and `Date.now` become parameters: a draw
    function, an id and a timestamp.
  - `createNewCake` reads the clock twice. The model uses one instant for both
    timestamps.
  - `Math.cos`, `Math.sin`, `Math.hypot`, `Math.sqrt` and IEEE floating point
    are not modelled. The model uses exact reals, an abstract projection and a
    comparison of squared distances.
  - Candidate angles are not constrained to [0, 2π), because π is irrational.
  - `FileReader`, `Blob` downloads, `window.prompt`, `confirm` and `alert` are
    I/O. A prompt answer is an optional string, and a refused import is a
    missing result.
- Serialisation:
  - JSON serialisation of stored values is not modelled. A raw string at the
    index key that would parse into some other shape is treated as unreadable.
  - A document value at the pointer key reads as no pointer. The source would
    return its serialised text.
  - Theme colours and gradients are presentation data, so only each theme's id
    and label are modelled.
- Storage.CreateNewCake: the default arguments of `createNewCake` (no initial
  picks, the default theme) are not modelled; every caller in the model passes
  both explicitly.
- Placement.PlaceNewPick: the distance guarantee is stated over exact reals.
  With floating point, a candidate at almost exactly `MIN_DIST` may be judged
  differently.
