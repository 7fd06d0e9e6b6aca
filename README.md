# Notes store model

A Dafny model of the notes store of a React Native notes app. The store is a single
record:

- the notes;
- a tag index;
- the search query;
- the active filter (`all`, `pinned`, `favorites`);
- the settings (view mode, sort option, default colour, haptics, theme);
- a loading flag;
- a multi-selection (a selection mode and the selected note ids).

The store's actions replace fields of that record. Two computed views derive ordered note
lists from it.

Files:

- `types.dfy` (module `NoteTypes`): the note, draft, patch and settings records, and the
  closed set of eleven note colours with their string keys.
- `sequences.dfy` (module `Sequences`): the array and string operations the store is written
  with. These are `filter`, de-duplication through a `Set`, `includes`, white space and
  `trim`, plus the subsequence relation used to state "order is kept".
- `stable_sort.dfy` (module `StableSort`): a stable insertion sort, with these properties
  proved:
  - it returns a sorted permutation;
  - it is stable;
  - it is unique: any sorted, stable permutation equals it.

  Uniqueness is why it can stand for `Array.prototype.sort`, which is stable.
- `note_actions.dfy` (module `NoteActions`): what each action does to the notes, the tag
  index, the selection and the settings, as functions on values, with the lemmas about them.
- `note_views.dfy` (module `NoteViews`): `sortNotes`, `getFilteredNotes` and
  `getNotesByTag`.
- `notes_store.dfy` (module `NotesStore`): class `Store`, with the record's fields and one
  method per action.
  - Each method states the whole new state in terms of the old one.
  - Each method that changes the notes or the index requires and keeps the class invariant
    `Valid()`: every tag any note carries is in the index, and the index lists no tag twice.
    The second half holds because `AddNote` uses the corrected tag merge described under
    "Findings". The selection actions and the setters state that the notes and the index are
    unchanged, so `Valid()` carries over through them.
  - Exactness (the index lists exactly the tags in use) is established by the actions that
    rebuild the index and preserved by `AddNote`, `UpdateNote` without tags, the toggles and
    the bulk actions. `AddTag` alone may break it, by entering an unused tag.

Inputs the store takes from its environment become parameters:

- The clock is `now`.
- The generated id of a new note is `id`. It is required to be fresh.
- `localeCompare` is `collate`. `collate(a, b)` means `a.localeCompare(b) <= 0`, and it is
  required to be total and transitive.
- `toLowerCase` is `lower`.
- What storage returned is the argument of `LoadNotes`.

Apart from the one defect listed under "Findings", whose corrected form the store uses,
the model follows the code where the store's documented behaviour differs from it:

- A failed load keeps the current notes and settings. The code's `catch` (store/notesStore.ts:344-347) only resets the loading flag; it does not fall back to empty data.
- `addTag` may enter a tag that no note carries (store/notesStore.ts:261-266). The class invariant is therefore "the index misses nothing", not "the index is exactly the tags in use". The actions that rebuild the index (`deleteNote`, `deleteSelectedNotes`, `updateNote` with tags, `loadNotes`) are proved to make it exact.
- With an id no note has, `deleteNote` and an `updateNote` whose patch carries tags still rebuild the index (store/notesStore.ts:223-226, 239-240). The rebuild drops tags `addTag` entered and no note carries, and lists the rest in first-use order. Neither action is a no-op there, and `DeleteNote` and `UpdateNote` state the rebuilt index.
- The default settings carry no theme (store/notesStore.ts:64-69), so `AppSettings.theme` is optional.

## Model

| member | source | states |
|---|---|---|
| NoteTypes.ColorKey | constants/theme.ts:295-309 | definition of the eleven colour keys; the `color` sort compares them (`NoteViews.SortNotesByColor`) |
| Sequences.Distinct | store/notesStore.ts:224-225 | `Array.from(new Set(s))` has no repeats and the same members as `s` |
| Sequences.DistinctSubseq | store/notesStore.ts:224-225 | de-duplication only deletes elements and never reorders what it keeps |
| Sequences.DistinctFirstOrder | store/notesStore.ts:224-225 | the de-duplicated list lists its elements in the order of their first occurrence in the input |
| Sequences.Filter | store/notesStore.ts:115-117 | `filter`: no longer than the input; an element is kept exactly when it occurs and satisfies the predicate; further properties in `FilterSubseq`, `FilterPartition`, `FilterNoDup` |
| Sequences.Includes | store/notesStore.ts:374-376 | definition of `includes`; used in `NoteViews.Search` |
| Sequences.Trim | store/notesStore.ts:370 | definition of `trim`; properties in `TrimEmptyIffBlank` |
| Sequences.FilterSubseq | store/notesStore.ts:115-117 | filtering keeps the relative order of what it keeps |
| Sequences.FilterPartition | store/notesStore.ts:415-416 | splitting by a predicate and its negation loses and duplicates nothing |
| Sequences.FilterNoDup | store/notesStore.ts:280 | filtering a list without repeats gives a list without repeats |
| Sequences.TrimEmptyIffBlank | store/notesStore.ts:370 | the trimmed query is empty exactly when the query is all white space |
| StableSort.Sort | store/notesStore.ts:431 | the sort returns a permutation of its input |
| StableSort.SortSorted | store/notesStore.ts:431 | under a total preorder the sort's result is ordered |
| StableSort.SortStable | store/notesStore.ts:431 | elements the comparator calls equal keep their input order |
| StableSort.SortUnique | store/notesStore.ts:431 | every sorted, stable permutation is this sort's result |
| StableSort.SortAllEqual | store/notesStore.ts:426-427 | a comparator that calls everything equal leaves the input as it is |
| NoteActions.Ids | store/notesStore.ts:105 | definition of `notes.map(note => note.id)`; properties in `AddNoteFreshIds`, `FindNote` |
| NoteActions.AllTags | store/notesStore.ts:239 | definition of `notes.flatMap(note => note.tags)`; properties in `AllTagsUsed` |
| NoteActions.TagIndex | store/notesStore.ts:239-240 | the rebuilt index lists exactly the tags in use, once each |
| NoteActions.AllTagsUsed | store/notesStore.ts:239 | a tag is in the flattened tag list exactly when some note carries it |
| NoteActions.NewNote | store/notesStore.ts:190-195 | definition of the new note: the draft's fields, the fresh id, `createdAt = updatedAt = now`; properties in `AddNoteFreshIds`, `AddThenDelete`, `AddNoteExact` |
| NoteActions.MergeTagsAsWritten | store/notesStore.ts:202-203 | the index update as written: the old index is a prefix of the new one, which holds exactly the old and the draft tags; repeats in `MergeTagsAsWrittenRepeats` |
| NoteActions.AddNoteAsWrittenCovers | store/notesStore.ts:197-205 | the merge as written also keeps every tag of every note in the index |
| NoteActions.MergeTagsAsWrittenRepeats | store/notesStore.ts:202-203 | the merge as written enters a draft tag twice when the draft repeats it |
| NoteActions.MergeTags | store/notesStore.ts:202-203 | the old index is a prefix of the new one; the new one holds exactly the old and the draft tags; no repeats are introduced |
| NoteActions.MergeTagsAgrees | store/notesStore.ts:202-203 | on a draft without repeated tags the merge as written and the de-duplicating merge agree |
| NoteActions.AddNoteCovers | store/notesStore.ts:197-205 | after adding a note the index still contains every tag of every note |
| NoteActions.AddNoteExact | store/notesStore.ts:197-205 | an index that listed exactly the tags in use, once each, still does after adding a note with the corrected merge `MergeTags`: nothing missing, no orphan |
| NoteActions.AddNoteStamps | store/notesStore.ts:190-198 | the new note has `createdAt = updatedAt`, so if every note had `createdAt <= updatedAt` and the clock has not gone back, both still hold |
| NoteActions.AddNoteFreshIds | store/notesStore.ts:190-198 | a fresh id keeps the note ids distinct |
| NoteActions.AddThenDelete | store/notesStore.ts:189-244 | deleting the note just added under a fresh id restores the notes |
| NoteActions.Patched | store/notesStore.ts:216 | definition of `{ ...note, ...updates, updatedAt }`; properties in `PatchedIdempotent`, `PatchedEmpty` |
| NoteActions.UpdateWhere | store/notesStore.ts:214-218 | definition of the `map` in `updateNote`; properties in `UpdateMissing`, `UpdateWithoutTagsCovers` |
| NoteActions.PatchedIdempotent | store/notesStore.ts:214-217 | applying the same patch twice equals applying it once at the later time |
| NoteActions.PatchedEmpty | store/notesStore.ts:216 | an empty patch changes only `updatedAt` |
| NoteActions.UpdateMissing | store/notesStore.ts:214-218 | an update aimed at an unknown id leaves the notes unchanged |
| NoteActions.UpdateWithoutTagsCovers | store/notesStore.ts:222-226 | an update without tags keeps the old index complete |
| NoteActions.UpdateWithoutTagsExact | store/notesStore.ts:214-226 | an update without tags keeps an exact index exact |
| NoteActions.UpdateStamps | store/notesStore.ts:214-218 | an update that leaves `createdAt` alone, stamped by a clock that has not gone back, keeps `createdAt <= updatedAt` on every note |
| NoteActions.UpdateStampsClockBack | store/notesStore.ts:214-218 | a clock that went back breaks `createdAt <= updatedAt`: a note created at 5 and updated at 4 |
| NoteActions.FindNote | store/notesStore.ts:249 | `find` succeeds exactly when the id is present, and returns the first note with it |
| NoteActions.FindNoteUnique | store/notesStore.ts:249 | with distinct ids, `find` returns the note at that id's position |
| NoteActions.TogglePinPatch | store/notesStore.ts:248-249 | definition of the patch `togglePin` sends; properties in `TogglePinTwice` |
| NoteActions.ToggleFavoritePatch | store/notesStore.ts:255-256 | definition of the patch `toggleFavorite` sends; properties in `ToggleFavoriteTwice` |
| NoteActions.TogglePinTwice | store/notesStore.ts:247-251 | with distinct ids, toggling the pin flag twice restores it and touches no other note |
| NoteActions.ToggleFavoriteTwice | store/notesStore.ts:254-258 | with distinct ids, toggling the favourite flag twice restores it and touches no other note |
| NoteActions.RemoveNote | store/notesStore.ts:235 | no note with the id remains; every other note stays, as often as before and in order |
| NoteActions.RemoveSelected | store/notesStore.ts:115-117 | no selected note remains; every other note stays, as often as before and in order |
| NoteActions.DeleteSelectedIgnoresMissing | store/notesStore.ts:115-117 | selected ids that no note has make no difference |
| NoteActions.Edited | store/notesStore.ts:130-134 | definition of one note's bulk edit; properties in `EditSelectedEffect` |
| NoteActions.EditSelected | store/notesStore.ts:128-186 | definition of the `map` every bulk action performs; properties in `EditSelectedEffect`, `EditSelectedIdempotent`, `EditSelectedCovers` |
| NoteActions.EditSelectedEffect | store/notesStore.ts:128-186 | a bulk action sets its field and `updatedAt` on exactly the selected notes; every other field of a selected note is kept; unselected notes are untouched |
| NoteActions.EditSelectedIdempotent | store/notesStore.ts:128-186 | running a bulk action twice equals running it once at the later time |
| NoteActions.EditSelectedCovers | store/notesStore.ts:128-186 | a bulk action keeps the index complete |
| NoteActions.EditSelectedExact | store/notesStore.ts:128-186 | a bulk action keeps an exact index exact |
| NoteActions.EditSelectedStamps | store/notesStore.ts:128-186 | a bulk action stamped by a clock that has not gone back keeps `createdAt <= updatedAt` on every note |
| NoteActions.ToggleId | store/notesStore.ts:94-98 | definition of the selection toggle; properties in `ToggleIdMembership`, `ToggleIdTwice` |
| NoteActions.ToggleIdMembership | store/notesStore.ts:92-101 | toggling a selection flips that id's membership and keeps every other id's |
| NoteActions.ToggleIdTwice | store/notesStore.ts:92-101 | toggling twice restores membership, and restores the list when the id was absent |
| NoteActions.WithTag | store/notesStore.ts:261-266 | after `addTag` the tag is in the index and no repeat is introduced |
| NoteActions.WithoutTag | store/notesStore.ts:272-275 | definition of the tag removal from every note; properties in `WithoutTagEffect` |
| NoteActions.WithoutTagEffect | store/notesStore.ts:269-283 | after `removeTag` no note carries the tag; other tags are kept; the filtered index stays complete |
| NoteActions.MergeSettings | store/notesStore.ts:320 | definition of `{ ...state.settings, ...newSettings }`; properties in `MergeSettingsIdempotent` |
| NoteActions.MergeSettingsIdempotent | store/notesStore.ts:320 | merging the same settings patch twice equals merging it once |
| NoteViews.NoteOrder | store/notesStore.ts:418-429 | definition of `sortFn` as "may come before"; properties in `NoteOrderTotal` |
| NoteViews.NoteOrderTotal | store/notesStore.ts:418-429 | each sort option's comparator is total and transitive when the collation is |
| NoteViews.PinnedThenTotal | store/notesStore.ts:414-431 | "pinned first, then the option" is total and transitive |
| NoteViews.SortNotes | store/notesStore.ts:411-432 | the result is a permutation; pinned notes come first; each group is ordered by the option |
| NoteViews.SortNotesIsStableSort | store/notesStore.ts:411-432 | `sortNotes` equals one stable sort by "pinned first, then the option" |
| NoteViews.SortNotesStable | store/notesStore.ts:411-432 | notes the order ranks equal keep their input order |
| NoteViews.SortNotesCustom | store/notesStore.ts:426-427 | with `custom` each group keeps its input order |
| NoteViews.SortNotesByDate | store/notesStore.ts:420-421 | with `date`, `updatedAt` never increases within a group |
| NoteViews.SortNotesByTitle | store/notesStore.ts:422-423 | with `title`, titles are in collation order within a group |
| NoteViews.SortNotesByColor | store/notesStore.ts:424-425 | with `color`, colour keys are in collation order within a group |
| NoteViews.PassesFilter | store/notesStore.ts:363-367 | definition of the active filter's test; properties in `ApplyFilter` |
| NoteViews.MatchesQuery | store/notesStore.ts:373-376 | definition of the search test; properties in `Search` |
| NoteViews.ApplyFilter | store/notesStore.ts:362-367 | `pinned` keeps exactly the pinned notes, `favorites` exactly the favourites, `all` everything |
| NoteViews.Search | store/notesStore.ts:369-378 | a blank query keeps everything; otherwise exactly the notes whose lower-cased title, content or some tag contains the lower-cased query |
| NoteViews.FilteredNotes | store/notesStore.ts:357-382 | each admitted note appears as often as in the store and nothing else appears; pinned come first; groups are sorted |
| NoteViews.FilteredAllBlank | store/notesStore.ts:357-382 | with filter `all` and a blank query the view is a permutation of all notes |
| NoteViews.NotesByTag | store/notesStore.ts:385-389 | exactly the notes carrying the tag, each as often as stored, pinned first, groups sorted |
| NotesStore.Store.constructor | store/notesStore.ts:71-82 | the initial state: no notes, no tags, empty query, filter `all`, default settings, no selection |
| NotesStore.Store.ToggleSelectionMode | store/notesStore.ts:85-90 | the mode flips; leaving the mode empties the selection; entering it keeps the selection |
| NotesStore.Store.ToggleNoteSelection | store/notesStore.ts:92-101 | the id's membership flips; every other id's membership is kept |
| NotesStore.Store.SelectAllNotes | store/notesStore.ts:103-107 | the selection becomes the ids of all notes, in order |
| NotesStore.Store.ClearSelection | store/notesStore.ts:109-111 | the selection is emptied and the mode turned off |
| NotesStore.Store.DeleteSelectedNotes | store/notesStore.ts:113-126 | the selected notes go; the index is rebuilt exactly; the selection ends |
| NotesStore.Store.EditSelection | store/notesStore.ts:128-186 | the shared body of the bulk actions: the notes are `EditSelected` of the old ones (ids kept, the field set on exactly the selected notes, the rest untouched); the index is unchanged and stays exact if it was; with a clock that has not gone back, `createdAt <= updatedAt` is kept on every note; the selection ends |
| NotesStore.Store.PinSelectedNotes | store/notesStore.ts:128-138 | every selected note is pinned; the index is unchanged; the selection ends |
| NotesStore.Store.UnpinSelectedNotes | store/notesStore.ts:140-150 | every selected note is unpinned; the index is unchanged; the selection ends |
| NotesStore.Store.FavoriteSelectedNotes | store/notesStore.ts:152-162 | every selected note becomes a favourite; the index is unchanged; the selection ends |
| NotesStore.Store.UnfavoriteSelectedNotes | store/notesStore.ts:164-174 | every selected note stops being a favourite; the index is unchanged; the selection ends |
| NotesStore.Store.ChangeSelectedNotesColor | store/notesStore.ts:176-186 | every selected note gets the colour; the index is unchanged; the selection ends |
| NotesStore.Store.AddNote | store/notesStore.ts:189-209 | one note (fresh id, `createdAt = updatedAt = now`) is prepended before the old notes; the old index is a prefix of the new one, which holds every draft tag; an exact index stays exact; with a clock that has not gone back, `createdAt <= updatedAt` is kept on every note; the id is returned |
| NotesStore.Store.UpdateNote | store/notesStore.ts:212-230 | only notes with the id change, merged with the patch and stamped `now`; an unknown id leaves the notes unchanged; a patch with tags rebuilds the index exactly, any other patch keeps it, so an exact index stays exact; with a clock that has not gone back, `createdAt <= updatedAt` is kept on every note when the patch leaves `createdAt` alone |
| NotesStore.Store.DeleteNote | store/notesStore.ts:233-244 | the notes with the id go and the rest keep their order; the index is rebuilt exactly |
| NotesStore.Store.TogglePin | store/notesStore.ts:247-251 | the notes with the id get the negation of the first such note's pin flag; an unknown id changes nothing; the index is kept and stays exact if it was; with a clock that has not gone back, `createdAt <= updatedAt` is kept on every note |
| NotesStore.Store.ToggleFavorite | store/notesStore.ts:254-258 | the notes with the id get the negation of the first such note's favourite flag; an unknown id changes nothing; the index is kept and stays exact if it was; with a clock that has not gone back, `createdAt <= updatedAt` is kept on every note |
| NotesStore.Store.AddTag | store/notesStore.ts:261-266 | the tag is in the index; no other tag changes membership |
| NotesStore.Store.RemoveTag | store/notesStore.ts:269-283 | the tag leaves every note and the index; every other tag stays |
| NotesStore.Store.AddTagToNote | store/notesStore.ts:286-295 | an unknown note, or one that has the tag, changes nothing; otherwise the notes with the id get the tag appended and the index is rebuilt, holding the tag |
| NotesStore.Store.RemoveTagFromNote | store/notesStore.ts:298-305 | an unknown note changes nothing; otherwise the notes with the id lose the tag and the index is rebuilt |
| NotesStore.Store.SetSearchQuery | store/notesStore.ts:308-310 | only the query changes |
| NotesStore.Store.SetActiveFilter | store/notesStore.ts:313-315 | only the filter changes |
| NotesStore.Store.UpdateSettings | store/notesStore.ts:318-324 | the fields the patch carries override the settings; nothing else changes |
| NotesStore.Store.LoadNotes | store/notesStore.ts:327-348 | on success the stored notes (or none) and settings (or the defaults) are installed and the index is rebuilt exactly; on failure only the loading flag is reset |
| NotesStore.Store.ClearAllNotes | store/notesStore.ts:351-354 | notes and index become empty; the selection and the settings are kept |
| NotesStore.Store.GetFilteredNotes | store/notesStore.ts:357-382 | the view of the current query, filter and sort option, with the properties of `FilteredNotes` |
| NotesStore.Store.GetNotesByTag | store/notesStore.ts:385-389 | the notes carrying the tag, sorted by the current sort option |

## Left out

- Persistence is not modelled. This covers `saveToStorage`, `saveSettings`, `AsyncStorage.removeItem` in `clearAllNotes` and the reads in `loadNotes`. These are fire-and-forget or awaited I/O. `LoadNotes` receives what the reads and `JSON.parse` produced, or `None` when they threw.
- NotesStore.Store.LoadNotes: stored JSON of the wrong shape (for example `"null"` or partial settings) is not modelled. `Stored` holds well-formed notes and settings.
- NotesStore.Store.LoadNotes: the loading flag is true only between the two assignments in the method. The asynchronous interval in which other actions could run is not modelled.
- NotesStore.Store.AddNote: the store uses the corrected tag merge `MergeTags`, not the code's `[...state.tags, ...newTags]` (`MergeTagsAsWritten`, see "Findings"). The model therefore does not reach the index with a repeated tag that the code builds from a draft repeating a tag. `Valid()`'s "no tag twice" holds only because of this correction; the "index misses nothing" half holds for the code as written too (`AddNoteAsWrittenCovers`).
- NotesStore.Store.AddNote: the id comes from `Date.now()` and `Math.random()`. That generator is not modelled. The method takes the id as a parameter and requires that no note already has it.
- NotesStore.Store.AddNote: a single `now` stands for the separate `Date.now()` calls for `createdAt` and `updatedAt`, which the runtime may read a millisecond apart.
- `createdAt <= updatedAt` is not a class invariant. The clock `now` is a free parameter and a patch may carry `createdAt`, and the source enforces neither. The store's note-changing methods promise it only when `now` is no earlier than every note's `updatedAt` and the patch leaves `createdAt` alone (`AddNoteStamps`, `UpdateStamps`, `EditSelectedStamps`). `UpdateStampsClockBack` shows it failing when the clock goes back.
- NotesStore.Store.PinSelectedNotes and the other bulk actions stamp every edited note with one `now`. The source calls `Date.now()` once per note.
- `localeCompare` and `toLowerCase` are not modelled. They are the parameters `collate` (a total preorder) and `lower` (any function).
- The JavaScript engine's sort algorithm is not modelled. It is replaced by the stable insertion sort `StableSort.Sort`. `SortUnique` shows that every stable sort with the same comparator gives the same result.
- The comparator `b.updatedAt - a.updatedAt` works on JavaScript numbers. Timestamps are integers here, so NaN and floating-point rounding are not modelled.
- NotesStore.Store.ChangeSelectedNotesColor takes a colour of the closed enumeration. The source casts any string to a colour key; a string outside the eleven keys is not modelled.
- A draft or patch carrying properties beyond the note's own fields is not modelled. Neither is a patch's `updatedAt`, which the source always overwrites, so `NotePatch` has no such field.
- The zustand `create`/`set`/`get` machinery is not modelled. Class `Store` with its fields replaces it, and `get()` chains become method calls.
- The screens, components, animations, haptics and theme hooks are not part of this model.

## Findings

| source | as written | input that shows it | evidently intended | confidence | as-written member | corrected member |
|---|---|---|---|---|---|---|
| store/notesStore.ts:202-203 | `addNote` appends every draft tag missing from the index, including repeats within the draft. The editor passes the `#tags` extracted from the content without de-duplicating them (app/note/[id].tsx:90-91). | An empty index and a draft with tags `["#milk", "#milk"]`, i.e. content `"#milk #milk"`: the index becomes `["#milk", "#milk"]`. | Each new tag enters the index once, as every other action's rebuilt index (`new Set`) guarantees. | not executed | NoteActions.MergeTagsAsWrittenRepeats | NoteActions.MergeTags |
