/** The value-level effect of each store action on the notes, the tag index, the
    selection and the settings. The store's methods assign these results to its fields. */
module NoteActions {
  import opened NoteTypes
  import opened Sequences

  // ---------------------------------------------------------------- ids and tags

  /** `notes.map(n => n.id)` */
  function Ids(notes: seq<Note>): seq<string> {
    seq(|notes|, i requires 0 <= i < |notes| => notes[i].id)
  }

  /** `notes.flatMap(n => n.tags)` */
  function AllTags(notes: seq<Note>): seq<string> {
    if notes == [] then [] else notes[0].tags + AllTags(notes[1..])
  }

  /** Some note carries tag `t`. */
  ghost predicate TagUsed(notes: seq<Note>, t: string) {
    exists i :: 0 <= i < |notes| && t in notes[i].tags
  }

  /** Every tag of every note is in `index`: the index misses nothing. */
  ghost predicate Covers(index: seq<string>, notes: seq<Note>) {
    forall i, t :: 0 <= i < |notes| && t in notes[i].tags ==> t in index
  }

  /** `index` lists exactly the tags in use, each once: no orphan, nothing missing. */
  ghost predicate ExactIndex(index: seq<string>, notes: seq<Note>) {
    NoDup(index) && forall t :: t in index <==> TagUsed(notes, t)
  }

  lemma {:induction false} AllTagsUsed(notes: seq<Note>, t: string)
    ensures t in AllTags(notes) <==> TagUsed(notes, t)
  {
    if notes != [] {
      AllTagsUsed(notes[1..], t);
      if TagUsed(notes[1..], t) {
        var i :| 0 <= i < |notes| - 1 && t in notes[1..][i].tags;
        assert t in notes[i + 1].tags;
      }
      if TagUsed(notes, t) && t !in notes[0].tags {
        var i :| 0 <= i < |notes| && t in notes[i].tags;
        assert t in notes[1..][i - 1].tags;
      }
    }
  }

  lemma AllTagsUsedEverywhere(notes: seq<Note>)
    ensures forall t :: t in AllTags(notes) <==> TagUsed(notes, t)
  {
    forall t
      ensures t in AllTags(notes) <==> TagUsed(notes, t)
    {
      AllTagsUsed(notes, t);
    }
  }

  /** The tag index rebuilt from scratch: `Array.from(new Set(notes.flatMap(n => n.tags)))`. */
  function TagIndex(notes: seq<Note>): (r: seq<string>)
    ensures ExactIndex(r, notes)
  {
    AllTagsUsedEverywhere(notes);
    Distinct(AllTags(notes))
  }

  /** An exact index also covers. */
  lemma ExactCovers(index: seq<string>, notes: seq<Note>)
    requires ExactIndex(index, notes)
    ensures Covers(index, notes)
  {
  }

  // ---------------------------------------------------------------- addNote

  /** The note `addNote` creates from a draft, a fresh id and the current time. */
  function NewNote(draft: NoteDraft, id: string, now: int): Note {
    Note(id, draft.title, draft.content, draft.color, draft.tags, draft.isPinned, draft.isFavorite, now, now)
  }

  /** Every note was last updated no earlier than it was created. */
  ghost predicate StampsOrdered(notes: seq<Note>) {
    forall i :: 0 <= i < |notes| ==> notes[i].createdAt <= notes[i].updatedAt
  }

  /** `now` is no earlier than any note's last update: the clock has not gone back. */
  ghost predicate ClockNotBefore(notes: seq<Note>, now: int) {
    forall i :: 0 <= i < |notes| ==> notes[i].updatedAt <= now
  }

  /** A new note is created and updated at the same instant, so prepending it keeps
      every note's stamps ordered, and a clock that has not gone back stays so. */
  lemma AddNoteStamps(notes: seq<Note>, draft: NoteDraft, id: string, now: int)
    requires StampsOrdered(notes) && ClockNotBefore(notes, now)
    ensures StampsOrdered([NewNote(draft, id, now)] + notes)
    ensures ClockNotBefore([NewNote(draft, id, now)] + notes, now)
  {
  }

  function Absent(index: seq<string>): string -> bool {
    t => t !in index
  }

  /** The index update of `addNote` as written: the draft tags not yet in the index are
      appended, repeats within the draft included. */
  function MergeTagsAsWritten(index: seq<string>, added: seq<string>): (r: seq<string>)
    ensures |index| <= |r| && r[..|index|] == index
    ensures forall t :: t in r <==> t in index || t in added
  {
    var newTags := Filter(added, Absent(index));
    if |newTags| > 0 then index + newTags else index
  }

  /** A draft whose content mentions `#milk` twice puts `#milk` into an empty index twice. */
  lemma MergeTagsAsWrittenRepeats()
    ensures MergeTagsAsWritten([], ["#milk", "#milk"]) == ["#milk", "#milk"]
    ensures !NoDup(MergeTagsAsWritten([], ["#milk", "#milk"]))
  {
  }

  /** The index update of `addNote` as intended: each draft tag missing from the index
      is appended once, in draft order. */
  function MergeTags(index: seq<string>, added: seq<string>): (r: seq<string>)
    ensures |index| <= |r| && r[..|index|] == index
    ensures forall t :: t in r <==> t in index || t in added
    ensures NoDup(index) ==> NoDup(r)
    decreases |added|
  {
    if added == [] then index
    else MergeTags(if added[0] in index then index else index + [added[0]], added[1..])
  }

  /** On a draft without repeated tags the intended merge and the merge as written agree. */
  lemma MergeTagsAgrees(index: seq<string>, added: seq<string>)
    requires NoDup(added)
    ensures MergeTags(index, added) == MergeTagsAsWritten(index, added)
  {
    MergeTagsAppendsAbsent(index, added);
  }

  lemma {:induction false} MergeTagsAppendsAbsent(index: seq<string>, added: seq<string>)
    requires NoDup(added)
    ensures MergeTags(index, added) == index + Filter(added, Absent(index))
    decreases |added|
  {
    if added != [] {
      var t, rest := added[0], added[1..];
      var next := if t in index then index else index + [t];
      NoDupTail(added);
      MergeTagsAppendsAbsent(next, rest);
      FilterExt(rest, Absent(next), Absent(index));
      var fr := Filter(rest, Absent(index));
      var head := if t in index then [] else [t];
      assert Filter(added, Absent(index)) == head + fr;
      calc {
        MergeTags(index, added);
        MergeTags(next, rest);
        next + fr;
        { assert next == index + head; }
        (index + head) + fr;
        { ConcatAssoc(index, head, fr); }
        index + (head + fr);
      }
    }
  }

  lemma ConcatAssoc<T>(a: seq<T>, b: seq<T>, c: seq<T>)
    ensures (a + b) + c == a + (b + c)
  {
  }

  lemma NoDupIndex<T>(s: seq<T>, a: nat, b: nat)
    requires NoDup(s) && a < |s| && b < |s| && s[a] == s[b]
    ensures a == b
  {
  }

  lemma NoDupTail(s: seq<string>)
    requires s != [] && NoDup(s)
    ensures NoDup(s[1..]) && s[0] !in s[1..]
  {
  }

  /** After `addNote` the index still covers every note, the new one included. */
  lemma AddNoteCovers(index: seq<string>, notes: seq<Note>, draft: NoteDraft, id: string, now: int)
    requires Covers(index, notes)
    ensures Covers(MergeTags(index, draft.tags), [NewNote(draft, id, now)] + notes)
  {
  }

  /** `addNote` enters only tags the new note carries, so an index that listed exactly the
      tags in use still does: nothing missing and no orphan. */
  lemma AddNoteExact(index: seq<string>, notes: seq<Note>, draft: NoteDraft, id: string, now: int)
    requires ExactIndex(index, notes)
    ensures ExactIndex(MergeTags(index, draft.tags), [NewNote(draft, id, now)] + notes)
  {
    var ns := [NewNote(draft, id, now)] + notes;
    forall t ensures TagUsed(ns, t) <==> t in index || t in draft.tags {
      if TagUsed(notes, t) {
        var i :| 0 <= i < |notes| && t in notes[i].tags;
        assert t in ns[i + 1].tags;
      }
      if t in draft.tags {
        assert t in ns[0].tags;
      }
      if TagUsed(ns, t) && t !in draft.tags {
        var i :| 0 <= i < |ns| && t in ns[i].tags;
        assert t in notes[i - 1].tags;
      }
    }
  }

  /** The merge as written also keeps the index covering the notes; only its freedom
      from repeats is lost. */
  lemma AddNoteAsWrittenCovers(index: seq<string>, notes: seq<Note>, draft: NoteDraft, id: string, now: int)
    requires Covers(index, notes)
    ensures Covers(MergeTagsAsWritten(index, draft.tags), [NewNote(draft, id, now)] + notes)
  {
  }

  /** A fresh id keeps the ids distinct. */
  lemma AddNoteFreshIds(notes: seq<Note>, draft: NoteDraft, id: string, now: int)
    requires NoDup(Ids(notes)) && id !in Ids(notes)
    ensures NoDup(Ids([NewNote(draft, id, now)] + notes))
  {
    var ns := [NewNote(draft, id, now)] + notes;
    assert Ids(ns) == [id] + Ids(notes);
  }

  /** Deleting the note just added under a fresh id gives back the notes as they were. */
  lemma AddThenDelete(notes: seq<Note>, draft: NoteDraft, id: string, now: int)
    requires id !in Ids(notes)
    ensures RemoveNote([NewNote(draft, id, now)] + notes, id) == notes
  {
    var ns := [NewNote(draft, id, now)] + notes;
    forall i | 0 <= i < |notes| ensures IdIsNot(id)(notes[i]) {
      assert Ids(notes)[i] == notes[i].id;
    }
    FilterAll(notes, IdIsNot(id));
    assert ns[1..] == notes;
  }

  // ---------------------------------------------------------------- updateNote

  /** `{ ...n, ...p, updatedAt: now }` */
  function Patched(n: Note, p: NotePatch, now: int): Note {
    Note(
      if p.id.Some? then p.id.value else n.id,
      if p.title.Some? then p.title.value else n.title,
      if p.content.Some? then p.content.value else n.content,
      if p.color.Some? then p.color.value else n.color,
      if p.tags.Some? then p.tags.value else n.tags,
      if p.isPinned.Some? then p.isPinned.value else n.isPinned,
      if p.isFavorite.Some? then p.isFavorite.value else n.isFavorite,
      if p.createdAt.Some? then p.createdAt.value else n.createdAt,
      now)
  }

  /** Applying the same patch again only moves `updatedAt`. */
  lemma PatchedIdempotent(n: Note, p: NotePatch, t1: int, t2: int)
    ensures Patched(Patched(n, p, t1), p, t2) == Patched(n, p, t2)
  {
  }

  /** The empty patch changes nothing but `updatedAt`. */
  lemma PatchedEmpty(n: Note, now: int)
    ensures Patched(n, EmptyPatch, now) == n.(updatedAt := now)
  {
  }

  /** `notes.map(n => n.id === id ? { ...n, ...p, updatedAt: now } : n)` */
  function UpdateWhere(notes: seq<Note>, id: string, p: NotePatch, now: int): seq<Note> {
    seq(|notes|, i requires 0 <= i < |notes| =>
      if notes[i].id == id then Patched(notes[i], p, now) else notes[i])
  }

  /** An update aimed at an id no note has leaves the notes as they are. */
  lemma UpdateMissing(notes: seq<Note>, id: string, p: NotePatch, now: int)
    requires id !in Ids(notes)
    ensures UpdateWhere(notes, id, p, now) == notes
  {
    forall i | 0 <= i < |notes| ensures notes[i].id != id {
      assert Ids(notes)[i] == notes[i].id;
    }
  }

  /** A patch without tags leaves every note's tags alone, so an index that covered
      the notes still covers them and need not be rebuilt. */
  lemma UpdateWithoutTagsCovers(index: seq<string>, notes: seq<Note>, id: string, p: NotePatch, now: int)
    requires p.tags.None?
    requires Covers(index, notes)
    ensures Covers(index, UpdateWhere(notes, id, p, now))
  {
  }

  /** A patch without tags leaves every note's tags alone, so an index that listed exactly
      the tags in use still does. */
  lemma UpdateWithoutTagsExact(index: seq<string>, notes: seq<Note>, id: string, p: NotePatch, now: int)
    requires p.tags.None?
    requires ExactIndex(index, notes)
    ensures ExactIndex(index, UpdateWhere(notes, id, p, now))
  {
    var r := UpdateWhere(notes, id, p, now);
    forall t ensures TagUsed(r, t) <==> TagUsed(notes, t) {
      if TagUsed(r, t) {
        var i :| 0 <= i < |r| && t in r[i].tags;
        assert t in notes[i].tags;
      }
      if TagUsed(notes, t) {
        var i :| 0 <= i < |notes| && t in notes[i].tags;
        assert t in r[i].tags;
      }
    }
  }

  /** Stamping a patched note with a clock that has not gone back keeps every note's
      stamps ordered, as long as the patch leaves `createdAt` alone. */
  lemma UpdateStamps(notes: seq<Note>, id: string, p: NotePatch, now: int)
    requires p.createdAt.None?
    requires StampsOrdered(notes) && ClockNotBefore(notes, now)
    ensures StampsOrdered(UpdateWhere(notes, id, p, now))
    ensures ClockNotBefore(UpdateWhere(notes, id, p, now), now)
  {
  }

  /** With a clock that went back, an update can stamp a note before its creation. */
  lemma UpdateStampsClockBack()
    ensures var n := Note("a", "", "", Default, [], false, false, 5, 5);
            StampsOrdered([n]) && !StampsOrdered(UpdateWhere([n], "a", EmptyPatch, 4))
  {
    var n := Note("a", "", "", Default, [], false, false, 5, 5);
    assert UpdateWhere([n], "a", EmptyPatch, 4)[0].updatedAt == 4;
  }

  // ---------------------------------------------------------------- notes.find

  /** `notes.find(n => n.id === id)`: the first note with that id. */
  function FindNote(notes: seq<Note>, id: string): (r: Option<Note>)
    ensures r.Some? <==> id in Ids(notes)
    ensures r.Some? ==> exists i :: 0 <= i < |notes| && notes[i] == r.value && r.value.id == id && id !in Ids(notes[..i])
  {
    if notes == [] then None
    else if notes[0].id == id then
      assert Ids(notes)[0] == id;
      assert notes[..0] == [];
      Some(notes[0])
    else
      var r := FindNote(notes[1..], id);
      assert Ids(notes) == [notes[0].id] + Ids(notes[1..]);
      if r.Some? then
        var i :| 0 <= i < |notes[1..]| && notes[1..][i] == r.value && r.value.id == id && id !in Ids(notes[1..][..i]);
        assert notes[..i + 1] == [notes[0]] + notes[1..][..i];
        assert Ids(notes[..i + 1]) == [notes[0].id] + Ids(notes[1..][..i]);
        assert notes[i + 1] == r.value;
        r
      else r
  }

  /** With distinct ids, the note found is the one at the id's position. */
  lemma FindNoteUnique(notes: seq<Note>, i: nat)
    requires i < |notes|
    requires NoDup(Ids(notes))
    ensures FindNote(notes, notes[i].id) == Some(notes[i])
  {
    var id := notes[i].id;
    assert Ids(notes)[i] == id;
    var r := FindNote(notes, id);
    var k :| 0 <= k < |notes| && notes[k] == r.value && r.value.id == id && id !in Ids(notes[..k]);
    assert Ids(notes)[k] == id;
    NoDupIndex(Ids(notes), k, i);
  }

  /** The patch `togglePin` gives `updateNote`: `isPinned` becomes the negation of the
      found note's flag, and `true` when there is no such note (`!undefined`). */
  function TogglePinPatch(notes: seq<Note>, id: string): NotePatch {
    var found := FindNote(notes, id);
    EmptyPatch.(isPinned := Some(!(found.Some? && found.value.isPinned)))
  }

  /** The patch `toggleFavorite` gives `updateNote`. */
  function ToggleFavoritePatch(notes: seq<Note>, id: string): NotePatch {
    var found := FindNote(notes, id);
    EmptyPatch.(isFavorite := Some(!(found.Some? && found.value.isFavorite)))
  }

  /** With distinct ids, pinning-toggling a note twice restores its flag, and every other
      note is untouched. */
  lemma TogglePinTwice(notes: seq<Note>, id: string, t1: int, t2: int)
    requires NoDup(Ids(notes))
    ensures var once := UpdateWhere(notes, id, TogglePinPatch(notes, id), t1);
            var twice := UpdateWhere(once, id, TogglePinPatch(once, id), t2);
            |twice| == |notes| &&
            forall i :: 0 <= i < |notes| ==>
              twice[i].isPinned == notes[i].isPinned &&
              (notes[i].id != id ==> twice[i] == notes[i])
  {
    var once := UpdateWhere(notes, id, TogglePinPatch(notes, id), t1);
    var twice := UpdateWhere(once, id, TogglePinPatch(once, id), t2);
    assert Ids(once) == Ids(notes);
    forall i | 0 <= i < |notes| && notes[i].id == id
      ensures twice[i].isPinned == notes[i].isPinned
    {
      FindNoteUnique(notes, i);
      FindNoteUnique(once, i);
    }
  }

  /** With distinct ids, favourite-toggling a note twice restores its flag. */
  lemma ToggleFavoriteTwice(notes: seq<Note>, id: string, t1: int, t2: int)
    requires NoDup(Ids(notes))
    ensures var once := UpdateWhere(notes, id, ToggleFavoritePatch(notes, id), t1);
            var twice := UpdateWhere(once, id, ToggleFavoritePatch(once, id), t2);
            |twice| == |notes| &&
            forall i :: 0 <= i < |notes| ==>
              twice[i].isFavorite == notes[i].isFavorite &&
              (notes[i].id != id ==> twice[i] == notes[i])
  {
    var once := UpdateWhere(notes, id, ToggleFavoritePatch(notes, id), t1);
    var twice := UpdateWhere(once, id, ToggleFavoritePatch(once, id), t2);
    assert Ids(once) == Ids(notes);
    forall i | 0 <= i < |notes| && notes[i].id == id
      ensures twice[i].isFavorite == notes[i].isFavorite
    {
      FindNoteUnique(notes, i);
      FindNoteUnique(once, i);
    }
  }

  // ---------------------------------------------------------------- deletion

  function IdIsNot(id: string): Note -> bool {
    (n: Note) => n.id != id
  }

  function IdNotIn(ids: seq<string>): Note -> bool {
    (n: Note) => n.id !in ids
  }

  /** `deleteNote`'s effect on the notes: exactly the notes with that id go, every other
      note stays as often as before and in its order. */
  function RemoveNote(notes: seq<Note>, id: string): (r: seq<Note>)
    ensures id !in Ids(r)
    ensures Subseq(r, notes)
    ensures forall n :: multiset(r)[n] == if n.id == id then 0 else multiset(notes)[n]
  {
    var r := Filter(notes, IdIsNot(id));
    FilterSubseq(notes, IdIsNot(id));
    forall n: Note
      ensures multiset(r)[n] == if n.id == id then 0 else multiset(notes)[n]
    {
      FilterMultiset(notes, IdIsNot(id), n);
    }
    forall i | 0 <= i < |r| ensures Ids(r)[i] != id {
      assert IdIsNot(id)(r[i]);
    }
    r
  }

  /** `deleteSelectedNotes`' effect on the notes: exactly the notes whose id is selected
      go, the rest keep their order and multiplicity. */
  function RemoveSelected(notes: seq<Note>, selected: seq<string>): (r: seq<Note>)
    ensures forall i :: 0 <= i < |r| ==> r[i].id !in selected
    ensures Subseq(r, notes)
    ensures forall n :: multiset(r)[n] == if n.id in selected then 0 else multiset(notes)[n]
  {
    var r := Filter(notes, IdNotIn(selected));
    FilterSubseq(notes, IdNotIn(selected));
    forall n: Note
      ensures multiset(r)[n] == if n.id in selected then 0 else multiset(notes)[n]
    {
      FilterMultiset(notes, IdNotIn(selected), n);
    }
    r
  }

  /** Selected ids that no note has make no difference to `deleteSelectedNotes`. */
  lemma DeleteSelectedIgnoresMissing(notes: seq<Note>, selected: seq<string>)
    ensures RemoveSelected(notes, selected)
         == RemoveSelected(notes, Filter(selected, (x: string) => x in Ids(notes)))
  {
    var present := Filter(selected, (x: string) => x in Ids(notes));
    forall i | 0 <= i < |notes|
      ensures IdNotIn(selected)(notes[i]) == IdNotIn(present)(notes[i])
    {
      assert Ids(notes)[i] == notes[i].id;
    }
    FilterExt(notes, IdNotIn(selected), IdNotIn(present));
  }

  // ---------------------------------------------------------------- bulk edits

  /** The field a bulk action sets on every selected note. */
  datatype BulkEdit = SetPinned(pinned: bool) | SetFavorite(favorite: bool) | SetColor(color: NoteColor)

  /** `{ ...n, <field>: <value>, updatedAt: now }` */
  function Edited(n: Note, e: BulkEdit, now: int): Note {
    match e
    case SetPinned(b) => n.(isPinned := b, updatedAt := now)
    case SetFavorite(b) => n.(isFavorite := b, updatedAt := now)
    case SetColor(c) => n.(color := c, updatedAt := now)
  }

  /** The note carries the value the edit sets. */
  predicate HasEdit(n: Note, e: BulkEdit) {
    match e
    case SetPinned(b) => n.isPinned == b
    case SetFavorite(b) => n.isFavorite == b
    case SetColor(c) => n.color == c
  }

  /** `m` agrees with `n` on every field except the one the edit sets and `updatedAt`. */
  predicate KeepsOtherFields(n: Note, m: Note, e: BulkEdit) {
    m.id == n.id && m.title == n.title && m.content == n.content && m.tags == n.tags
    && m.createdAt == n.createdAt
    && (e.SetPinned? || m.isPinned == n.isPinned)
    && (e.SetFavorite? || m.isFavorite == n.isFavorite)
    && (e.SetColor? || m.color == n.color)
  }

  /** `notes.map(n => selected.includes(n.id) ? Edited(n) : n)` */
  function EditSelected(notes: seq<Note>, selected: seq<string>, e: BulkEdit, now: int): seq<Note> {
    seq(|notes|, i requires 0 <= i < |notes| =>
      if notes[i].id in selected then Edited(notes[i], e, now) else notes[i])
  }

  /** A bulk edit sets its field on exactly the selected notes; every selected note keeps
      its other fields, and no other note changes. */
  lemma EditSelectedEffect(notes: seq<Note>, selected: seq<string>, e: BulkEdit, now: int)
    ensures var r := EditSelected(notes, selected, e, now);
            |r| == |notes| && Ids(r) == Ids(notes) &&
            forall i :: 0 <= i < |notes| ==>
              KeepsOtherFields(notes[i], r[i], e) &&
              (notes[i].id in selected ==> HasEdit(r[i], e) && r[i].updatedAt == now) &&
              (notes[i].id !in selected ==> r[i] == notes[i])
  {
  }

  /** A bulk edit leaves every note's tags alone, so an exact index stays exact. */
  lemma EditSelectedExact(index: seq<string>, notes: seq<Note>, selected: seq<string>, e: BulkEdit, now: int)
    requires ExactIndex(index, notes)
    ensures ExactIndex(index, EditSelected(notes, selected, e, now))
  {
    var r := EditSelected(notes, selected, e, now);
    forall t ensures TagUsed(r, t) <==> TagUsed(notes, t) {
      if TagUsed(r, t) {
        var i :| 0 <= i < |r| && t in r[i].tags;
        assert t in notes[i].tags;
      }
      if TagUsed(notes, t) {
        var i :| 0 <= i < |notes| && t in notes[i].tags;
        assert t in r[i].tags;
      }
    }
  }

  /** A bulk edit stamped by a clock that has not gone back keeps every note's stamps ordered. */
  lemma EditSelectedStamps(notes: seq<Note>, selected: seq<string>, e: BulkEdit, now: int)
    requires StampsOrdered(notes) && ClockNotBefore(notes, now)
    ensures StampsOrdered(EditSelected(notes, selected, e, now))
    ensures ClockNotBefore(EditSelected(notes, selected, e, now), now)
  {
  }

  /** Running a bulk edit twice gives what running it once at the later time gives. */
  lemma EditSelectedIdempotent(notes: seq<Note>, selected: seq<string>, e: BulkEdit, t1: int, t2: int)
    ensures EditSelected(EditSelected(notes, selected, e, t1), selected, e, t2)
         == EditSelected(notes, selected, e, t2)
  {
  }

  /** A bulk edit leaves every note's tags alone, so the index still covers the notes. */
  lemma EditSelectedCovers(index: seq<string>, notes: seq<Note>, selected: seq<string>, e: BulkEdit, now: int)
    requires Covers(index, notes)
    ensures Covers(index, EditSelected(notes, selected, e, now))
  {
  }

  // ---------------------------------------------------------------- selection

  function IsNot(x: string): string -> bool {
    y => y != x
  }

  /** `toggleNoteSelection`: drop the id when selected, else append it. */
  function ToggleId(selected: seq<string>, id: string): seq<string> {
    if id in selected then Filter(selected, IsNot(id)) else selected + [id]
  }

  /** Toggling flips the id's membership and keeps every other id's. */
  lemma ToggleIdMembership(selected: seq<string>, id: string, x: string)
    ensures x in ToggleId(selected, id) <==> if x == id then id !in selected else x in selected
  {
  }

  /** Toggling twice restores every id's membership, and restores the selection itself
      when the id was not selected. */
  lemma ToggleIdTwice(selected: seq<string>, id: string)
    ensures forall x :: x in ToggleId(ToggleId(selected, id), id) <==> x in selected
    ensures id !in selected ==> ToggleId(ToggleId(selected, id), id) == selected
  {
    if id !in selected {
      FilterConcat(selected, [id], IsNot(id));
      FilterAll(selected, IsNot(id));
      assert Filter([id], IsNot(id)) == [];
    }
  }

  // ---------------------------------------------------------------- tags

  /** `addTag`: append the tag unless the index already lists it. */
  function WithTag(index: seq<string>, tag: string): (r: seq<string>)
    ensures tag in r
    ensures NoDup(index) ==> NoDup(r)
  {
    if tag in index then index else index + [tag]
  }

  /** `removeTag`'s effect on the notes: the tag is filtered out of every note. */
  function WithoutTag(notes: seq<Note>, tag: string): seq<Note> {
    seq(|notes|, i requires 0 <= i < |notes| => notes[i].(tags := Filter(notes[i].tags, IsNot(tag))))
  }

  /** After `removeTag` no note carries the tag, every other tag of every note stays, and
      the filtered index still covers the notes. */
  lemma WithoutTagEffect(index: seq<string>, notes: seq<Note>, tag: string)
    requires Covers(index, notes)
    ensures var r := WithoutTag(notes, tag);
            !TagUsed(r, tag) &&
            (forall i, t :: 0 <= i < |notes| && t != tag ==> (t in r[i].tags <==> t in notes[i].tags)) &&
            Covers(Filter(index, IsNot(tag)), r)
  {
  }

  // ---------------------------------------------------------------- settings

  /** `{ ...s, ...p }` */
  function MergeSettings(s: AppSettings, p: SettingsPatch): AppSettings {
    AppSettings(
      if p.viewMode.Some? then p.viewMode.value else s.viewMode,
      if p.sortOption.Some? then p.sortOption.value else s.sortOption,
      if p.defaultNoteColor.Some? then p.defaultNoteColor.value else s.defaultNoteColor,
      if p.hapticsEnabled.Some? then p.hapticsEnabled.value else s.hapticsEnabled,
      if p.theme.Some? then p.theme else s.theme)
  }

  /** Merging the same settings patch twice is merging it once. */
  lemma MergeSettingsIdempotent(s: AppSettings, p: SettingsPatch)
    ensures MergeSettings(MergeSettings(s, p), p) == MergeSettings(s, p)
  {
  }
}
