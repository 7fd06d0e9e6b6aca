/** The note and settings records the store works on, and the closed set of note colours. */
module NoteTypes {

  datatype Option<T> = None | Some(value: T)

  /** The note colour keys, in the order the theme lists them. */
  datatype NoteColor = Default | Red | Orange | Yellow | Green | Teal | Blue | Indigo | Purple | Pink | Gray

  /** The string key of a colour; sorting by colour compares these keys. */
  function ColorKey(c: NoteColor): string
  {
    match c
    case Default => "default"
    case Red => "red"
    case Orange => "orange"
    case Yellow => "yellow"
    case Green => "green"
    case Teal => "teal"
    case Blue => "blue"
    case Indigo => "indigo"
    case Purple => "purple"
    case Pink => "pink"
    case Gray => "gray"
  }

  /** A note; timestamps are milliseconds since the epoch. */
  datatype Note = Note(
    id: string,
    title: string,
    content: string,
    color: NoteColor,
    tags: seq<string>,
    isPinned: bool,
    isFavorite: bool,
    createdAt: int,
    updatedAt: int)

  /** What a caller supplies to create a note: a note without id and timestamps. */
  datatype NoteDraft = NoteDraft(
    title: string,
    content: string,
    color: NoteColor,
    tags: seq<string>,
    isPinned: bool,
    isFavorite: bool)

  /** A partial note: every present field replaces the note's own. */
  datatype NotePatch = NotePatch(
    id: Option<string>,
    title: Option<string>,
    content: Option<string>,
    color: Option<NoteColor>,
    tags: Option<seq<string>>,
    isPinned: Option<bool>,
    isFavorite: Option<bool>,
    createdAt: Option<int>)

  /** The patch that changes nothing. */
  const EmptyPatch := NotePatch(None, None, None, None, None, None, None, None)

  datatype SortOption = ByDate | ByTitle | ByColor | Custom
  datatype ViewMode = Grid | List
  datatype FilterType = All | Pinned | Favorites
  datatype ThemeMode = Light | Dark | Auto

  datatype AppSettings = AppSettings(
    viewMode: ViewMode,
    sortOption: SortOption,
    defaultNoteColor: NoteColor,
    hapticsEnabled: bool,
    theme: Option<ThemeMode>)

  /** The settings a fresh store starts with; they carry no theme. */
  const DefaultSettings := AppSettings(Grid, ByDate, Default, true, None)

  /** A partial settings record, merged field by field. */
  datatype SettingsPatch = SettingsPatch(
    viewMode: Option<ViewMode>,
    sortOption: Option<SortOption>,
    defaultNoteColor: Option<NoteColor>,
    hapticsEnabled: Option<bool>,
    theme: Option<ThemeMode>)
}
