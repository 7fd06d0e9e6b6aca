/** The computed views of the store: `sortNotes`, `getFilteredNotes` and `getNotesByTag`.
    String collation (`localeCompare`) is a parameter `collate`, where `collate(a, b)`
    holds when `a.localeCompare(b) <= 0`; lower-casing (`toLowerCase`) is a parameter `lower`. */
module NoteViews {
  import opened NoteTypes
  import opened Sequences
  import opened StableSort

  // ---------------------------------------------------------------- sortNotes

  /** The comparator of `sortNotes` for a sort option, as an order on notes: `date` puts
      later `updatedAt` first, `title` and `color` collate the title or the colour key,
      and any other option compares everything equal. */
  function NoteOrder(opt: SortOption, collate: (string, string) -> bool): (Note, Note) -> bool {
    match opt
    case ByDate => (a: Note, b: Note) => a.updatedAt >= b.updatedAt
    case ByTitle => (a: Note, b: Note) => collate(a.title, b.title)
    case ByColor => (a: Note, b: Note) => collate(ColorKey(a.color), ColorKey(b.color))
    case Custom => (a: Note, b: Note) => true
  }

  /** Each sort option orders notes consistently when the collation does. */
  lemma NoteOrderTotal(opt: SortOption, collate: (string, string) -> bool)
    requires TotalPreorder(collate)
    ensures TotalPreorder(NoteOrder(opt, collate))
  {
    match opt {
      case ByDate =>
      case ByTitle => KeyOrderTotal(collate, (n: Note) => n.title);
      case ByColor => KeyOrderTotal(collate, (n: Note) => ColorKey(n.color));
      case Custom =>
    }
  }

  /** Comparing notes by a string key is total and transitive when the collation is. */
  lemma KeyOrderTotal(collate: (string, string) -> bool, key: Note -> string)
    requires TotalPreorder(collate)
    ensures TotalPreorder((a: Note, b: Note) => collate(key(a), key(b)))
  {
  }

  function IsPinnedNote(n: Note): bool { n.isPinned }
  function IsUnpinnedNote(n: Note): bool { !n.isPinned }

  /** No unpinned note comes before a pinned one. */
  ghost predicate PinnedFirst(r: seq<Note>) {
    forall i, j :: 0 <= i < j < |r| && r[j].isPinned ==> r[i].isPinned
  }

  /** Within the pinned and within the unpinned notes, every note may precede every later one. */
  ghost predicate GroupsSorted(r: seq<Note>, le: (Note, Note) -> bool) {
    forall i, j :: 0 <= i < j < |r| && r[i].isPinned == r[j].isPinned ==> le(r[i], r[j])
  }

  /** `sortNotes`: the pinned notes sorted, then the unpinned notes sorted. */
  function SortNotes(notes: seq<Note>, opt: SortOption, collate: (string, string) -> bool): (r: seq<Note>)
    requires TotalPreorder(collate)
    ensures multiset(r) == multiset(notes)
    ensures PinnedFirst(r)
    ensures GroupsSorted(r, NoteOrder(opt, collate))
  {
    var le := NoteOrder(opt, collate);
    var pinned, unpinned := Filter(notes, IsPinnedNote), Filter(notes, IsUnpinnedNote);
    NoteOrderTotal(opt, collate);
    SortSorted(pinned, le);
    SortSorted(unpinned, le);
    SortKeeps(pinned, le, IsPinnedNote);
    SortKeeps(unpinned, le, IsUnpinnedNote);
    GroupsJoin(Sort(pinned, le), Sort(unpinned, le), le);
    FilterPartition(notes, IsPinnedNote, IsUnpinnedNote);
    Sort(pinned, le) + Sort(unpinned, le)
  }

  /** Sorted pinned notes followed by sorted unpinned notes put pinned first and keep
      each group sorted. */
  lemma GroupsJoin(sp: seq<Note>, su: seq<Note>, le: (Note, Note) -> bool)
    requires Sorted(sp, le) && Sorted(su, le)
    requires forall i :: 0 <= i < |sp| ==> IsPinnedNote(sp[i])
    requires forall i :: 0 <= i < |su| ==> IsUnpinnedNote(su[i])
    ensures PinnedFirst(sp + su) && GroupsSorted(sp + su, le)
  {
  }

  /** The order `sortNotes` sorts by as one order: pinned before unpinned, then `le`. */
  function PinnedThen(le: (Note, Note) -> bool): (Note, Note) -> bool {
    (a: Note, b: Note) => (a.isPinned && !b.isPinned) || (a.isPinned == b.isPinned && le(a, b))
  }

  lemma PinnedThenTotal(le: (Note, Note) -> bool)
    requires TotalPreorder(le)
    ensures TotalPreorder(PinnedThen(le))
  {
  }

  /** `sortNotes` is one stable sort by "pinned first, then the sort option". */
  lemma SortNotesIsStableSort(notes: seq<Note>, opt: SortOption, collate: (string, string) -> bool)
    requires TotalPreorder(collate)
    ensures SortNotes(notes, opt, collate) == Sort(notes, PinnedThen(NoteOrder(opt, collate)))
  {
    var le := NoteOrder(opt, collate);
    var g := PinnedThen(le);
    var r := SortNotes(notes, opt, collate);
    NoteOrderTotal(opt, collate);
    PinnedThenTotal(le);
    forall i, j | 0 <= i < j < |r| ensures g(r[i], r[j]) {
      if r[i].isPinned == r[j].isPinned {
        assert le(r[i], r[j]);
      }
    }
    forall k ensures SameRank(r, g, k) == SameRank(notes, g, k) {
      SortNotesRank(notes, le, k);
    }
    SortUnique(notes, r, g);
  }

  lemma SortNotesRank(notes: seq<Note>, le: (Note, Note) -> bool, k: Note)
    requires TotalPreorder(le)
    ensures SameRank(Sort(Filter(notes, IsPinnedNote), le) + Sort(Filter(notes, IsUnpinnedNote), le), PinnedThen(le), k)
         == SameRank(notes, PinnedThen(le), k)
  {
    var g := PinnedThen(le);
    var pinned, unpinned := Filter(notes, IsPinnedNote), Filter(notes, IsUnpinnedNote);
    var sp, su := Sort(pinned, le), Sort(unpinned, le);
    SameRankConcat(sp, su, g, k);
    SortKeeps(pinned, le, IsPinnedNote);
    SortKeeps(unpinned, le, IsUnpinnedNote);
    if k.isPinned {
      GroupRank(pinned, le, k);
      OtherGroupRank(su, le, k);
      SameRankFilter(notes, IsPinnedNote, g, k);
      assert SameRank(sp, g, k) + [] == SameRank(sp, g, k);
    } else {
      GroupRank(unpinned, le, k);
      OtherGroupRank(sp, le, k);
      SameRankFilter(notes, IsUnpinnedNote, g, k);
      assert [] + SameRank(su, g, k) == SameRank(su, g, k);
    }
  }

  /** Within one group, sorting by `le` keeps the rank classes of "pinned first, then `le`". */
  lemma GroupRank(group: seq<Note>, le: (Note, Note) -> bool, k: Note)
    requires TotalPreorder(le)
    requires forall i :: 0 <= i < |group| ==> group[i].isPinned == k.isPinned
    ensures SameRank(Sort(group, le), PinnedThen(le), k) == SameRank(group, PinnedThen(le), k)
  {
    var g := PinnedThen(le);
    SortKeeps(group, le, (n: Note) => n.isPinned == k.isPinned);
    SameRankAgree(Sort(group, le), g, le, k);
    SortStable(group, le, k);
    SameRankAgree(group, g, le, k);
  }

  /** No note of the other group ranks equal to `k`. */
  lemma OtherGroupRank(group: seq<Note>, le: (Note, Note) -> bool, k: Note)
    requires forall i :: 0 <= i < |group| ==> group[i].isPinned != k.isPinned
    ensures SameRank(group, PinnedThen(le), k) == []
  {
    SameRankNone(group, PinnedThen(le), k);
  }

  /** Notes the order ranks equal keep their input order: `sortNotes` is stable. */
  lemma SortNotesStable(notes: seq<Note>, opt: SortOption, collate: (string, string) -> bool, k: Note)
    requires TotalPreorder(collate)
    ensures var g := PinnedThen(NoteOrder(opt, collate));
            SameRank(SortNotes(notes, opt, collate), g, k) == SameRank(notes, g, k)
  {
    var g := PinnedThen(NoteOrder(opt, collate));
    SortNotesIsStableSort(notes, opt, collate);
    NoteOrderTotal(opt, collate);
    PinnedThenTotal(NoteOrder(opt, collate));
    SortStable(notes, g, k);
  }

  /** With the `custom` option the notes keep their order within each group. */
  lemma SortNotesCustom(notes: seq<Note>, collate: (string, string) -> bool)
    requires TotalPreorder(collate)
    ensures SortNotes(notes, Custom, collate) == Filter(notes, IsPinnedNote) + Filter(notes, IsUnpinnedNote)
  {
    SortAllEqual(Filter(notes, IsPinnedNote), NoteOrder(Custom, collate));
    SortAllEqual(Filter(notes, IsUnpinnedNote), NoteOrder(Custom, collate));
  }

  /** With the `date` option each group runs from the latest `updatedAt` to the earliest. */
  lemma SortNotesByDate(notes: seq<Note>, collate: (string, string) -> bool)
    requires TotalPreorder(collate)
    ensures var r := SortNotes(notes, ByDate, collate);
            forall i, j :: 0 <= i < j < |r| && r[i].isPinned == r[j].isPinned ==> r[i].updatedAt >= r[j].updatedAt
  {
  }

  /** With the `title` option each group runs in collation order of the titles. */
  lemma SortNotesByTitle(notes: seq<Note>, collate: (string, string) -> bool)
    requires TotalPreorder(collate)
    ensures var r := SortNotes(notes, ByTitle, collate);
            forall i, j :: 0 <= i < j < |r| && r[i].isPinned == r[j].isPinned ==> collate(r[i].title, r[j].title)
  {
  }

  /** With the `color` option each group runs in collation order of the colour keys. */
  lemma SortNotesByColor(notes: seq<Note>, collate: (string, string) -> bool)
    requires TotalPreorder(collate)
    ensures var r := SortNotes(notes, ByColor, collate);
            forall i, j :: 0 <= i < j < |r| && r[i].isPinned == r[j].isPinned ==>
              collate(ColorKey(r[i].color), ColorKey(r[j].color))
  {
  }

  // ---------------------------------------------------------------- getFilteredNotes

  function IsFavoriteNote(n: Note): bool { n.isFavorite }

  /** The note passes the active filter. */
  predicate PassesFilter(n: Note, f: FilterType) {
    match f
    case All => true
    case Pinned => n.isPinned
    case Favorites => n.isFavorite
  }

  /** Step one of `getFilteredNotes`: keep the notes the active filter admits. */
  function ApplyFilter(notes: seq<Note>, f: FilterType): (r: seq<Note>)
    ensures forall n :: multiset(r)[n] == if PassesFilter(n, f) then multiset(notes)[n] else 0
  {
    match f
    case All => notes
    case Pinned =>
      FilterCounts(notes, IsPinnedNote);
      Filter(notes, IsPinnedNote)
    case Favorites =>
      FilterCounts(notes, IsFavoriteNote);
      Filter(notes, IsFavoriteNote)
  }

  lemma FilterCounts(notes: seq<Note>, p: Note -> bool)
    ensures forall n :: multiset(Filter(notes, p))[n] == if p(n) then multiset(notes)[n] else 0
  {
    forall n ensures multiset(Filter(notes, p))[n] == if p(n) then multiset(notes)[n] else 0 {
      FilterMultiset(notes, p, n);
    }
  }

  /** The search test: the lower-cased query `q` occurs in the lower-cased title, content
      or one of the tags. */
  predicate MatchesQuery(n: Note, q: string, lower: string -> string) {
    || Includes(lower(n.title), q)
    || Includes(lower(n.content), q)
    || exists i :: 0 <= i < |n.tags| && Includes(lower(n.tags[i]), q)
  }

  function Matcher(q: string, lower: string -> string): Note -> bool {
    (n: Note) => MatchesQuery(n, q, lower)
  }

  /** The note survives both steps of `getFilteredNotes`: a blank query (nothing but
      white space) searches nothing, any other query must match once lower-cased. */
  predicate Shown(n: Note, query: string, f: FilterType, lower: string -> string) {
    PassesFilter(n, f) && (IsBlank(query) || MatchesQuery(n, lower(query), lower))
  }

  /** Step two of `getFilteredNotes`: when the trimmed query is not empty, keep the notes
      that match the lower-cased (untrimmed) query. */
  function Search(notes: seq<Note>, query: string, lower: string -> string): (r: seq<Note>)
    ensures forall n :: multiset(r)[n]
              == if IsBlank(query) || MatchesQuery(n, lower(query), lower) then multiset(notes)[n] else 0
  {
    TrimEmptyIffBlank(query);
    if Trim(query) != "" then
      FilterCounts(notes, Matcher(lower(query), lower));
      Filter(notes, Matcher(lower(query), lower))
    else notes
  }

  /** `getFilteredNotes`: the notes the filter and the search admit, each as often as in
      `notes`, pinned first and each group ordered by the sort option. */
  function FilteredNotes(notes: seq<Note>, query: string, f: FilterType, opt: SortOption,
                         collate: (string, string) -> bool, lower: string -> string): (r: seq<Note>)
    requires TotalPreorder(collate)
    ensures forall n :: multiset(r)[n] == if Shown(n, query, f, lower) then multiset(notes)[n] else 0
    ensures forall i :: 0 <= i < |r| ==> Shown(r[i], query, f, lower)
    ensures PinnedFirst(r) && GroupsSorted(r, NoteOrder(opt, collate))
  {
    var r := SortNotes(Search(ApplyFilter(notes, f), query, lower), opt, collate);
    assert forall i :: 0 <= i < |r| ==> multiset(r)[r[i]] > 0;
    r
  }

  /** With filter `all` and a blank query every note is shown: the view is `sortNotes` of
      all the notes, a permutation of them. */
  lemma FilteredAllBlank(notes: seq<Note>, query: string, opt: SortOption,
                         collate: (string, string) -> bool, lower: string -> string)
    requires TotalPreorder(collate)
    requires IsBlank(query)
    ensures FilteredNotes(notes, query, All, opt, collate, lower) == SortNotes(notes, opt, collate)
    ensures multiset(FilteredNotes(notes, query, All, opt, collate, lower)) == multiset(notes)
  {
    TrimEmptyIffBlank(query);
  }

  // ---------------------------------------------------------------- getNotesByTag

  function HasTag(tag: string): Note -> bool {
    (n: Note) => tag in n.tags
  }

  /** `getNotesByTag`: exactly the notes carrying the tag, each as often as in `notes`,
      ordered by `sortNotes`. */
  function NotesByTag(notes: seq<Note>, tag: string, opt: SortOption, collate: (string, string) -> bool): (r: seq<Note>)
    requires TotalPreorder(collate)
    ensures forall n :: multiset(r)[n] == if tag in n.tags then multiset(notes)[n] else 0
    ensures forall i :: 0 <= i < |r| ==> tag in r[i].tags
    ensures PinnedFirst(r) && GroupsSorted(r, NoteOrder(opt, collate))
  {
    var r := SortNotes(Filter(notes, HasTag(tag)), opt, collate);
    FilterCounts(notes, HasTag(tag));
    SortKeeps(Filter(notes, HasTag(tag)), PinnedThen(NoteOrder(opt, collate)), HasTag(tag));
    r
  }
}
