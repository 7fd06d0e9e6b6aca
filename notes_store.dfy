/** The notes store: one object holding the notes, the tag index, the search and filter
    state, the settings, the loading flag and the multi-selection, with one method per
    action. Each action replaces some fields and leaves the others alone. The current time
    and a freshly generated id are parameters; persistence is not modelled. */
module NotesStore {
  import opened NoteTypes
  import opened Sequences
  import opened StableSort
  import opened NoteActions
  import opened NoteViews

  /** What reading the two storage keys produced: `None` for a key that is absent
      or holds the empty string. */
  datatype Stored = Stored(notesData: Option<seq<Note>>, settingsData: Option<AppSettings>)

  class Store {
    var notes: seq<Note>
    var tags: seq<string>
    var searchQuery: string
    var activeFilter: FilterType
    var settings: AppSettings
    var isLoading: bool
    var selectionMode: bool
    var selectedNoteIds: seq<string>

    /** The tag index lists every tag some note carries, and lists it once. */
    ghost predicate Valid()
      reads this
    {
      Covers(tags, notes) && NoDup(tags)
    }

    /** The initial state. */
    constructor()
      ensures notes == [] && tags == [] && searchQuery == "" && activeFilter == All
      ensures settings == DefaultSettings && !isLoading
      ensures !selectionMode && selectedNoteIds == []
      ensures Valid()
    {
      notes := [];
      tags := [];
      searchQuery := "";
      activeFilter := All;
      settings := DefaultSettings;
      isLoading := false;
      selectionMode := false;
      selectedNoteIds := [];
    }

    // ---------------------------------------------------------------- selection

    /** Entering selection mode keeps the selection; leaving it empties the selection. */
    method ToggleSelectionMode()
      modifies this
      ensures selectionMode == !old(selectionMode)
      ensures selectedNoteIds == if old(selectionMode) then [] else old(selectedNoteIds)
      ensures notes == old(notes) && tags == old(tags) && settings == old(settings)
      ensures searchQuery == old(searchQuery) && activeFilter == old(activeFilter) && isLoading == old(isLoading)
    {
      if selectionMode {
        selectedNoteIds := [];
      }
      selectionMode := !selectionMode;
    }

    /** Selects the id when it is not selected, deselects it when it is. */
    method ToggleNoteSelection(id: string)
      modifies this
      ensures selectedNoteIds == ToggleId(old(selectedNoteIds), id)
      ensures forall x :: x in selectedNoteIds <==> if x == id then id !in old(selectedNoteIds) else x in old(selectedNoteIds)
      ensures notes == old(notes) && tags == old(tags) && settings == old(settings) && selectionMode == old(selectionMode)
      ensures searchQuery == old(searchQuery) && activeFilter == old(activeFilter) && isLoading == old(isLoading)
    {
      forall x ensures x in ToggleId(selectedNoteIds, id) <==> if x == id then id !in selectedNoteIds else x in selectedNoteIds {
        ToggleIdMembership(selectedNoteIds, id, x);
      }
      selectedNoteIds := ToggleId(selectedNoteIds, id);
    }

    /** Selects every note, in note order. */
    method SelectAllNotes()
      modifies this
      ensures selectedNoteIds == Ids(notes)
      ensures forall i :: 0 <= i < |notes| ==> notes[i].id in selectedNoteIds
      ensures notes == old(notes) && tags == old(tags) && settings == old(settings) && selectionMode == old(selectionMode)
      ensures searchQuery == old(searchQuery) && activeFilter == old(activeFilter) && isLoading == old(isLoading)
    {
      selectedNoteIds := Ids(notes);
      assert forall i :: 0 <= i < |notes| ==> selectedNoteIds[i] == notes[i].id;
    }

    /** Empties the selection and leaves selection mode. */
    method ClearSelection()
      modifies this
      ensures selectedNoteIds == [] && !selectionMode
      ensures notes == old(notes) && tags == old(tags) && settings == old(settings)
      ensures searchQuery == old(searchQuery) && activeFilter == old(activeFilter) && isLoading == old(isLoading)
    {
      selectedNoteIds := [];
      selectionMode := false;
    }

    /** Deletes every selected note, rebuilds the tag index from the notes that remain and
        ends the selection. */
    method DeleteSelectedNotes()
      requires Valid()
      modifies this
      ensures Valid()
      ensures notes == RemoveSelected(old(notes), old(selectedNoteIds))
      ensures tags == TagIndex(notes)
      ensures selectedNoteIds == [] && !selectionMode
      ensures settings == old(settings) && searchQuery == old(searchQuery)
      ensures activeFilter == old(activeFilter) && isLoading == old(isLoading)
    {
      var remaining := RemoveSelected(notes, selectedNoteIds);
      var index := TagIndex(remaining);
      ExactCovers(index, remaining);
      notes, tags := remaining, index;
      selectedNoteIds := [];
      selectionMode := false;
    }

    /** The shared body of the bulk actions: apply the edit to every selected note,
        stamping it with `now`, and end the selection. */
    method EditSelection(e: BulkEdit, now: int)
      requires Valid()
      modifies this
      ensures Valid()
      ensures old(ExactIndex(tags, notes)) ==> ExactIndex(tags, notes)
      ensures old(StampsOrdered(notes) && ClockNotBefore(notes, now)) ==> StampsOrdered(notes) && ClockNotBefore(notes, now)
      ensures notes == EditSelected(old(notes), old(selectedNoteIds), e, now)
      ensures |notes| == |old(notes)| && Ids(notes) == Ids(old(notes))
      ensures forall i :: 0 <= i < |notes| && old(notes)[i].id in old(selectedNoteIds) ==> HasEdit(notes[i], e) && notes[i].updatedAt == now
      ensures forall i :: 0 <= i < |notes| && old(notes)[i].id !in old(selectedNoteIds) ==> notes[i] == old(notes)[i]
      ensures tags == old(tags) && selectedNoteIds == [] && !selectionMode
      ensures settings == old(settings) && searchQuery == old(searchQuery)
      ensures activeFilter == old(activeFilter) && isLoading == old(isLoading)
    {
      EditSelectedEffect(notes, selectedNoteIds, e, now);
      EditSelectedCovers(tags, notes, selectedNoteIds, e, now);
      if ExactIndex(tags, notes) {
        EditSelectedExact(tags, notes, selectedNoteIds, e, now);
      }
      if StampsOrdered(notes) && ClockNotBefore(notes, now) {
        EditSelectedStamps(notes, selectedNoteIds, e, now);
      }
      notes := EditSelected(notes, selectedNoteIds, e, now);
      selectedNoteIds := [];
      selectionMode := false;
    }

    /** Pins every selected note. */
    method PinSelectedNotes(now: int)
      requires Valid()
      modifies this
      ensures Valid()
      ensures notes == EditSelected(old(notes), old(selectedNoteIds), SetPinned(true), now)
      ensures forall i :: 0 <= i < |notes| && old(notes)[i].id in old(selectedNoteIds) ==> notes[i].isPinned
      ensures tags == old(tags) && selectedNoteIds == [] && !selectionMode
      ensures settings == old(settings) && searchQuery == old(searchQuery)
      ensures activeFilter == old(activeFilter) && isLoading == old(isLoading)
    {
      EditSelection(SetPinned(true), now);
    }

    /** Unpins every selected note. */
    method UnpinSelectedNotes(now: int)
      requires Valid()
      modifies this
      ensures Valid()
      ensures notes == EditSelected(old(notes), old(selectedNoteIds), SetPinned(false), now)
      ensures forall i :: 0 <= i < |notes| && old(notes)[i].id in old(selectedNoteIds) ==> !notes[i].isPinned
      ensures tags == old(tags) && selectedNoteIds == [] && !selectionMode
      ensures settings == old(settings) && searchQuery == old(searchQuery)
      ensures activeFilter == old(activeFilter) && isLoading == old(isLoading)
    {
      EditSelection(SetPinned(false), now);
    }

    /** Marks every selected note as a favourite. */
    method FavoriteSelectedNotes(now: int)
      requires Valid()
      modifies this
      ensures Valid()
      ensures notes == EditSelected(old(notes), old(selectedNoteIds), SetFavorite(true), now)
      ensures forall i :: 0 <= i < |notes| && old(notes)[i].id in old(selectedNoteIds) ==> notes[i].isFavorite
      ensures tags == old(tags) && selectedNoteIds == [] && !selectionMode
      ensures settings == old(settings) && searchQuery == old(searchQuery)
      ensures activeFilter == old(activeFilter) && isLoading == old(isLoading)
    {
      EditSelection(SetFavorite(true), now);
    }

    /** Clears the favourite mark of every selected note. */
    method UnfavoriteSelectedNotes(now: int)
      requires Valid()
      modifies this
      ensures Valid()
      ensures notes == EditSelected(old(notes), old(selectedNoteIds), SetFavorite(false), now)
      ensures forall i :: 0 <= i < |notes| && old(notes)[i].id in old(selectedNoteIds) ==> !notes[i].isFavorite
      ensures tags == old(tags) && selectedNoteIds == [] && !selectionMode
      ensures settings == old(settings) && searchQuery == old(searchQuery)
      ensures activeFilter == old(activeFilter) && isLoading == old(isLoading)
    {
      EditSelection(SetFavorite(false), now);
    }

    /** Gives every selected note the colour. */
    method ChangeSelectedNotesColor(color: NoteColor, now: int)
      requires Valid()
      modifies this
      ensures Valid()
      ensures notes == EditSelected(old(notes), old(selectedNoteIds), SetColor(color), now)
      ensures forall i :: 0 <= i < |notes| && old(notes)[i].id in old(selectedNoteIds) ==> notes[i].color == color
      ensures tags == old(tags) && selectedNoteIds == [] && !selectionMode
      ensures settings == old(settings) && searchQuery == old(searchQuery)
      ensures activeFilter == old(activeFilter) && isLoading == old(isLoading)
    {
      EditSelection(SetColor(color), now);
    }

    // ---------------------------------------------------------------- notes

    /** Puts a new note, built from the draft, the id and the time, in front of the others
        and adds its tags the index lacks. Returns the id. The id is fresh: no note has it. */
    method AddNote(draft: NoteDraft, id: string, now: int) returns (newId: string)
      requires Valid()
      requires id !in Ids(notes)
      modifies this
      ensures Valid()
      ensures old(ExactIndex(tags, notes)) ==> ExactIndex(tags, notes)
      ensures old(StampsOrdered(notes) && ClockNotBefore(notes, now)) ==> StampsOrdered(notes) && ClockNotBefore(notes, now)
      ensures newId == id
      ensures notes == [NewNote(draft, id, now)] + old(notes)
      ensures notes[0].id == id && notes[0].createdAt == now && notes[0].updatedAt == now
      ensures notes[0].tags == draft.tags && notes[1..] == old(notes)
      ensures tags == MergeTags(old(tags), draft.tags)
      ensures |old(tags)| <= |tags| && tags[..|old(tags)|] == old(tags)
      ensures forall t :: t in tags <==> t in old(tags) || t in draft.tags
      ensures selectedNoteIds == old(selectedNoteIds) && selectionMode == old(selectionMode)
      ensures settings == old(settings) && searchQuery == old(searchQuery)
      ensures activeFilter == old(activeFilter) && isLoading == old(isLoading)
    {
      AddNoteCovers(tags, notes, draft, id, now);
      if ExactIndex(tags, notes) {
        AddNoteExact(tags, notes, draft, id, now);
      }
      if StampsOrdered(notes) && ClockNotBefore(notes, now) {
        AddNoteStamps(notes, draft, id, now);
      }
      notes := [NewNote(draft, id, now)] + notes;
      tags := MergeTags(tags, draft.tags);
      newId := id;
    }

    /** Applies the patch to every note with the id, stamping it with `now`; a patch that
        carries tags makes the index be rebuilt from the notes. */
    method UpdateNote(id: string, patch: NotePatch, now: int)
      requires Valid()
      modifies this
      ensures Valid()
      ensures notes == UpdateWhere(old(notes), id, patch, now)
      ensures id !in Ids(old(notes)) ==> notes == old(notes)
      ensures |notes| == |old(notes)|
      ensures forall i :: 0 <= i < |notes| ==>
                notes[i] == if old(notes)[i].id == id then Patched(old(notes)[i], patch, now) else old(notes)[i]
      ensures tags == if patch.tags.Some? then TagIndex(notes) else old(tags)
      ensures patch.tags.Some? ==> ExactIndex(tags, notes)
      ensures old(ExactIndex(tags, notes)) ==> ExactIndex(tags, notes)
      ensures patch.createdAt.None? ==> old(StampsOrdered(notes) && ClockNotBefore(notes, now)) ==> StampsOrdered(notes) && ClockNotBefore(notes, now)
      ensures selectedNoteIds == old(selectedNoteIds) && selectionMode == old(selectionMode)
      ensures settings == old(settings) && searchQuery == old(searchQuery)
      ensures activeFilter == old(activeFilter) && isLoading == old(isLoading)
    {
      if patch.tags.None? {
        UpdateWithoutTagsCovers(tags, notes, id, patch, now);
        if ExactIndex(tags, notes) {
          UpdateWithoutTagsExact(tags, notes, id, patch, now);
        }
      }
      if id !in Ids(notes) {
        UpdateMissing(notes, id, patch, now);
      }
      if patch.createdAt.None? && StampsOrdered(notes) && ClockNotBefore(notes, now) {
        UpdateStamps(notes, id, patch, now);
      }
      notes := UpdateWhere(notes, id, patch, now);
      if patch.tags.Some? {
        tags := TagIndex(notes);
      }
    }

    /** Deletes every note with the id and rebuilds the tag index from the rest. */
    method DeleteNote(id: string)
      requires Valid()
      modifies this
      ensures Valid()
      ensures notes == RemoveNote(old(notes), id)
      ensures tags == TagIndex(notes)
      ensures selectedNoteIds == old(selectedNoteIds) && selectionMode == old(selectionMode)
      ensures settings == old(settings) && searchQuery == old(searchQuery)
      ensures activeFilter == old(activeFilter) && isLoading == old(isLoading)
    {
      var remaining := RemoveNote(notes, id);
      var index := TagIndex(remaining);
      ExactCovers(index, remaining);
      notes, tags := remaining, index;
    }

    /** Flips the pin flag of the notes with the id; the flag the first such note had
        decides the new value. */
    method TogglePin(id: string, now: int)
      requires Valid()
      modifies this
      ensures Valid()
      ensures notes == UpdateWhere(old(notes), id, TogglePinPatch(old(notes), id), now)
      ensures old(ExactIndex(tags, notes)) ==> ExactIndex(tags, notes)
      ensures old(StampsOrdered(notes) && ClockNotBefore(notes, now)) ==> StampsOrdered(notes) && ClockNotBefore(notes, now)
      ensures var found := FindNote(old(notes), id);
              found.Some? ==> forall i :: 0 <= i < |notes| && old(notes)[i].id == id ==> notes[i].isPinned == !found.value.isPinned
      ensures id !in Ids(old(notes)) ==> notes == old(notes)
      ensures tags == old(tags)
      ensures selectedNoteIds == old(selectedNoteIds) && selectionMode == old(selectionMode)
      ensures settings == old(settings) && searchQuery == old(searchQuery)
      ensures activeFilter == old(activeFilter) && isLoading == old(isLoading)
    {
      UpdateNote(id, TogglePinPatch(notes, id), now);
    }

    /** Flips the favourite flag of the notes with the id. */
    method ToggleFavorite(id: string, now: int)
      requires Valid()
      modifies this
      ensures Valid()
      ensures notes == UpdateWhere(old(notes), id, ToggleFavoritePatch(old(notes), id), now)
      ensures old(ExactIndex(tags, notes)) ==> ExactIndex(tags, notes)
      ensures old(StampsOrdered(notes) && ClockNotBefore(notes, now)) ==> StampsOrdered(notes) && ClockNotBefore(notes, now)
      ensures var found := FindNote(old(notes), id);
              found.Some? ==> forall i :: 0 <= i < |notes| && old(notes)[i].id == id ==> notes[i].isFavorite == !found.value.isFavorite
      ensures id !in Ids(old(notes)) ==> notes == old(notes)
      ensures tags == old(tags)
      ensures selectedNoteIds == old(selectedNoteIds) && selectionMode == old(selectionMode)
      ensures settings == old(settings) && searchQuery == old(searchQuery)
      ensures activeFilter == old(activeFilter) && isLoading == old(isLoading)
    {
      UpdateNote(id, ToggleFavoritePatch(notes, id), now);
    }

    // ---------------------------------------------------------------- tags

    /** Appends the tag to the index unless it is already there. */
    method AddTag(tag: string)
      requires Valid()
      modifies this
      ensures Valid()
      ensures tags == WithTag(old(tags), tag)
      ensures tag in tags && forall t :: t != tag ==> (t in tags <==> t in old(tags))
      ensures notes == old(notes)
      ensures selectedNoteIds == old(selectedNoteIds) && selectionMode == old(selectionMode)
      ensures settings == old(settings) && searchQuery == old(searchQuery)
      ensures activeFilter == old(activeFilter) && isLoading == old(isLoading)
    {
      tags := WithTag(tags, tag);
    }

    /** Removes the tag from every note and from the index. */
    method RemoveTag(tag: string)
      requires Valid()
      modifies this
      ensures Valid()
      ensures notes == WithoutTag(old(notes), tag)
      ensures tags == Filter(old(tags), IsNot(tag))
      ensures tag !in tags && !TagUsed(notes, tag)
      ensures |notes| == |old(notes)|
      ensures forall i, t :: 0 <= i < |notes| && t != tag ==> (t in notes[i].tags <==> t in old(notes)[i].tags)
      ensures selectedNoteIds == old(selectedNoteIds) && selectionMode == old(selectionMode)
      ensures settings == old(settings) && searchQuery == old(searchQuery)
      ensures activeFilter == old(activeFilter) && isLoading == old(isLoading)
    {
      WithoutTagEffect(tags, notes, tag);
      FilterNoDup(tags, IsNot(tag));
      notes := WithoutTag(notes, tag);
      tags := Filter(tags, IsNot(tag));
    }

    /** Gives the tag to the notes with the id, unless no note has the id or the first
        such note already carries the tag. */
    method AddTagToNote(noteId: string, tag: string, now: int)
      requires Valid()
      modifies this
      ensures Valid()
      ensures var found := FindNote(old(notes), noteId);
              if found.None? || tag in found.value.tags then
                notes == old(notes) && tags == old(tags)
              else
                notes == UpdateWhere(old(notes), noteId, EmptyPatch.(tags := Some(found.value.tags + [tag])), now) &&
                (forall i :: 0 <= i < |notes| && old(notes)[i].id == noteId ==> notes[i].tags == found.value.tags + [tag]) &&
                tags == TagIndex(notes) && tag in tags
      ensures selectedNoteIds == old(selectedNoteIds) && selectionMode == old(selectionMode)
      ensures settings == old(settings) && searchQuery == old(searchQuery)
      ensures activeFilter == old(activeFilter) && isLoading == old(isLoading)
    {
      var found := FindNote(notes, noteId);
      if found.None? || tag in found.value.tags {
        return;
      }
      var k :| 0 <= k < |notes| && notes[k] == found.value && found.value.id == noteId && noteId !in Ids(notes[..k]);
      UpdateNote(noteId, EmptyPatch.(tags := Some(found.value.tags + [tag])), now);
      assert tag in notes[k].tags;
      AddTag(tag);
    }

    /** Takes the tag off the notes with the id, unless no note has the id; the index is
        rebuilt even when the note did not carry the tag. */
    method RemoveTagFromNote(noteId: string, tag: string, now: int)
      requires Valid()
      modifies this
      ensures Valid()
      ensures var found := FindNote(old(notes), noteId);
              if found.None? then
                notes == old(notes) && tags == old(tags)
              else
                notes == UpdateWhere(old(notes), noteId, EmptyPatch.(tags := Some(Filter(found.value.tags, IsNot(tag)))), now) &&
                (forall i :: 0 <= i < |notes| && old(notes)[i].id == noteId ==> tag !in notes[i].tags) &&
                tags == TagIndex(notes)
      ensures selectedNoteIds == old(selectedNoteIds) && selectionMode == old(selectionMode)
      ensures settings == old(settings) && searchQuery == old(searchQuery)
      ensures activeFilter == old(activeFilter) && isLoading == old(isLoading)
    {
      var found := FindNote(notes, noteId);
      if found.None? {
        return;
      }
      UpdateNote(noteId, EmptyPatch.(tags := Some(Filter(found.value.tags, IsNot(tag)))), now);
    }

    // ---------------------------------------------------------------- search, filter, settings

    method SetSearchQuery(query: string)
      modifies this
      ensures searchQuery == query
      ensures notes == old(notes) && tags == old(tags) && settings == old(settings)
      ensures selectedNoteIds == old(selectedNoteIds) && selectionMode == old(selectionMode)
      ensures activeFilter == old(activeFilter) && isLoading == old(isLoading)
    {
      searchQuery := query;
    }

    method SetActiveFilter(filter: FilterType)
      modifies this
      ensures activeFilter == filter
      ensures notes == old(notes) && tags == old(tags) && settings == old(settings)
      ensures selectedNoteIds == old(selectedNoteIds) && selectionMode == old(selectionMode)
      ensures searchQuery == old(searchQuery) && isLoading == old(isLoading)
    {
      activeFilter := filter;
    }

    /** Overrides the settings fields the patch carries. */
    method UpdateSettings(patch: SettingsPatch)
      modifies this
      ensures settings == MergeSettings(old(settings), patch)
      ensures patch.sortOption.Some? ==> settings.sortOption == patch.sortOption.value
      ensures patch.sortOption.None? ==> settings.sortOption == old(settings).sortOption
      ensures notes == old(notes) && tags == old(tags)
      ensures selectedNoteIds == old(selectedNoteIds) && selectionMode == old(selectionMode)
      ensures searchQuery == old(searchQuery) && activeFilter == old(activeFilter) && isLoading == old(isLoading)
    {
      settings := MergeSettings(settings, patch);
    }

    // ---------------------------------------------------------------- data management

    /** Installs what storage held: the stored notes (none when absent), the stored
        settings (the defaults when absent) and the index rebuilt from the notes. When
        reading or parsing fails (`read == None`) only the loading flag is reset. */
    method LoadNotes(read: Option<Stored>)
      requires Valid()
      modifies this
      ensures Valid()
      ensures !isLoading
      ensures read.None? ==> notes == old(notes) && tags == old(tags) && settings == old(settings)
      ensures read.Some? ==>
                && notes == (if read.value.notesData.Some? then read.value.notesData.value else [])
                && settings == (if read.value.settingsData.Some? then read.value.settingsData.value else DefaultSettings)
                && tags == TagIndex(notes) && ExactIndex(tags, notes)
      ensures selectedNoteIds == old(selectedNoteIds) && selectionMode == old(selectionMode)
      ensures searchQuery == old(searchQuery) && activeFilter == old(activeFilter)
    {
      isLoading := true;
      if read.Some? {
        notes := if read.value.notesData.Some? then read.value.notesData.value else [];
        settings := if read.value.settingsData.Some? then read.value.settingsData.value else DefaultSettings;
        tags := TagIndex(notes);
      }
      isLoading := false;
    }

    /** Drops every note and the whole index; the selection is left as it is. */
    method ClearAllNotes()
      requires Valid()
      modifies this
      ensures Valid()
      ensures notes == [] && tags == []
      ensures selectedNoteIds == old(selectedNoteIds) && selectionMode == old(selectionMode)
      ensures settings == old(settings) && searchQuery == old(searchQuery)
      ensures activeFilter == old(activeFilter) && isLoading == old(isLoading)
    {
      notes := [];
      tags := [];
    }

    // ---------------------------------------------------------------- computed views

    /** The notes the active filter and the search query admit, sorted by the settings'
        sort option with pinned notes first. */
    function GetFilteredNotes(collate: (string, string) -> bool, lower: string -> string): (r: seq<Note>)
      reads this
      requires TotalPreorder(collate)
      ensures forall n :: multiset(r)[n] == if Shown(n, searchQuery, activeFilter, lower) then multiset(notes)[n] else 0
      ensures PinnedFirst(r) && GroupsSorted(r, NoteOrder(settings.sortOption, collate))
    {
      FilteredNotes(notes, searchQuery, activeFilter, settings.sortOption, collate, lower)
    }

    /** The notes carrying the tag, sorted like the filtered view. */
    function GetNotesByTag(tag: string, collate: (string, string) -> bool): (r: seq<Note>)
      reads this
      requires TotalPreorder(collate)
      ensures forall n :: multiset(r)[n] == if tag in n.tags then multiset(notes)[n] else 0
      ensures PinnedFirst(r) && GroupsSorted(r, NoteOrder(settings.sortOption, collate))
    {
      NotesByTag(notes, tag, settings.sortOption, collate)
    }
  }
}
