/** The settings screen (`Settings.jsx`): six sections of option grids
    walked with the arrow keys, the cursor re-synced to the stored choice
    whenever the section or a preference changes, Enter storing the choice,
    and the two store-clearing actions. */
module Settings {
  import opened Common
  import opened Media
  import opened Constants
  import Playback
  import Watchlist

  datatype Section = Audio | Subtitle | SubtitleSize | SubtitleStyle | PreviewVideo | Actions

  const ACTION_OPTIONS: seq<Choice> := [Choice("clearCache", "Clear Cache"), Choice("clearWatchlist", "Clear Watchlist")]

  /** The store key of the schema version the query cache checks. */
  const SCHEMA_KEY := "apollo_schema_version"

  /** The grid of a section. */
  function Options(s: Section): (r: seq<Choice>)
    ensures |r| >= 2
    ensures NoDuplicates(Codes(r))
  {
    LanguageCodesDistinct();
    SubtitleCodesDistinct();
    OptionCodesDistinct();
    match s
    case Audio => LANGUAGES
    case Subtitle => SUBTITLE_LANGUAGES
    case SubtitleSize => SUBTITLE_SIZES
    case SubtitleStyle => SUBTITLE_STYLES
    case PreviewVideo => PREVIEW_VIDEO_OPTIONS
    case Actions => ACTION_OPTIONS
  }

  /** The store key and the default of a preference section. */
  function PrefKey(s: Section): string
    requires s != Actions
  {
    match s
    case Audio => "language"
    case Subtitle => "subtitleLanguage"
    case SubtitleSize => "subtitleSize"
    case SubtitleStyle => "subtitleStyle"
    case PreviewVideo => "previewVideo"
  }

  function Default(s: Section): string
    requires s != Actions
  {
    match s
    case Audio => "deu"
    case Subtitle => "none"
    case SubtitleSize => "medium"
    case SubtitleStyle => "green"
    case PreviewVideo => "on"
  }

  /** The stored choice of a preference section. */
  function StoredChoice(st: Store, s: Section): string
    requires s != Actions
  {
    Pref(st, PrefKey(s), Default(s))
  }

  /** The five preferences, the values the re-sync effect depends on. */
  function Prefs(st: Store): seq<string> {
    [StoredChoice(st, Audio), StoredChoice(st, Subtitle), StoredChoice(st, SubtitleSize),
     StoredChoice(st, SubtitleStyle), StoredChoice(st, PreviewVideo)]
  }

  /** Down's order of sections; the last one has no successor. */
  function Next(s: Section): Section {
    match s
    case Audio => Subtitle
    case Subtitle => SubtitleSize
    case SubtitleSize => SubtitleStyle
    case SubtitleStyle => PreviewVideo
    case PreviewVideo => Actions
    case Actions => Actions
  }

  function Rank(s: Section): nat {
    match s
    case Audio => 0
    case Subtitle => 1
    case SubtitleSize => 2
    case SubtitleStyle => 3
    case PreviewVideo => 4
    case Actions => 5
  }

  /** Up's order, the reverse of Down's. */
  function Prev(s: Section): (r: Section)
    ensures s != Audio ==> Next(r) == s && Rank(r) + 1 == Rank(s)
    ensures s == Audio ==> r == Audio
  {
    match s
    case Audio => Audio
    case Subtitle => Audio
    case SubtitleSize => Subtitle
    case SubtitleStyle => SubtitleSize
    case PreviewVideo => SubtitleStyle
    case Actions => PreviewVideo
  }

  lemma NextPrev(s: Section)
    ensures s != Actions ==> Prev(Next(s)) == s && Rank(Next(s)) == Rank(s) + 1
    ensures s == Actions ==> Next(s) == s
  {
  }

  /** The first cell of the last row of a grid of `n` cells in `columns`
      columns. */
  function LastRow(n: int, columns: int): (r: int)
    requires n >= 1 && columns >= 1
    ensures 0 <= r <= n - 1 < r + columns
    ensures r % columns == 0
  {
    var q := (n - 1) / columns;
    var rem := (n - 1) % columns;
    assert n - 1 == q * columns + rem;
    assert q >= 0 by {
      if q < 0 {
        MulAtMost(q, columns);
      }
    }
    DivModUnique(q * columns, columns, q, 0);
    q * columns
  }

  /** The cursor: a section and a cell of its grid. */
  datatype Cursor = Cursor(section: Section, index: int)

  predicate Valid(c: Cursor) {
    0 <= c.index < |Options(c.section)|
  }

  /** The re-sync effect: the stored choice's cell when the grid has it,
      else the cursor stays; the actions grid starts at its first cell. */
  function Resync(c: Cursor, st: Store): (r: Cursor)
    ensures r.section == c.section
    ensures c.section == Actions ==> r.index == 0
    ensures c.section != Actions && StoredChoice(st, c.section) in Codes(Options(c.section)) ==>
      0 <= r.index < |Options(c.section)| && Options(c.section)[r.index].code == StoredChoice(st, c.section)
    ensures c.section != Actions && StoredChoice(st, c.section) !in Codes(Options(c.section)) ==> r == c
    ensures Valid(c) ==> Valid(r)
  {
    if c.section == Actions then Cursor(Actions, 0)
    else
      var k := IndexOf(Codes(Options(c.section)), StoredChoice(st, c.section));
      if k != -1 then Cursor(c.section, k) else c
  }

  datatype SettingsEffect = Close | FocusSidebar | Reload | WatchlistClearedAlert

  datatype SettingsStep = SettingsStep(cursor: Cursor, store: Store, effects: seq<SettingsEffect>)

  predicate IsBackKey(e: KeyEvent) {
    e.key == "Escape" || e.key == "Backspace" || e.code == 461
  }

  /** `clearCache`: drop the schema version and every saved position. */
  function ClearCache(st: Store): (r: Store)
    ensures forall k :: k in r <==> k in st && k != SCHEMA_KEY && !StartsWith(k, Playback.POSITION_PREFIX)
    ensures forall k :: k in r ==> r[k] == st[k]
  {
    map k | k in st && k != SCHEMA_KEY && !StartsWith(k, Playback.POSITION_PREFIX) :: st[k]
  }

  /** `clearWatchlist`: drop the watchlist key and nothing else. */
  function ClearWatchlist(st: Store): (r: Store)
    ensures forall k :: k in r <==> k in st && k != WATCHLIST_KEY
    ensures forall k :: k in r ==> r[k] == st[k]
  {
    st - {WATCHLIST_KEY}
  }

  /** `handleAction`. */
  function Action(code: string, st: Store): (r: (Store, seq<SettingsEffect>))
    ensures code == "clearCache" ==> r == (ClearCache(st), [Reload])
    ensures code == "clearWatchlist" ==> r == (ClearWatchlist(st), [WatchlistClearedAlert])
    ensures code != "clearCache" && code != "clearWatchlist" ==> r == (st, [])
  {
    if code == "clearCache" then (ClearCache(st), [Reload])
    else if code == "clearWatchlist" then (ClearWatchlist(st), [WatchlistClearedAlert])
    else (st, [])
  }

  /** Down: one row down within the grid, else the first cell of the next
      section; nothing below the actions. */
  function Down(c: Cursor, columns: int): (r: Cursor)
    requires Valid(c) && columns >= 1
    ensures Valid(r)
    ensures c.index + columns < |Options(c.section)| ==> r == Cursor(c.section, c.index + columns)
    ensures c.index + columns >= |Options(c.section)| && c.section != Actions ==> r == Cursor(Next(c.section), 0)
    ensures c.index + columns >= |Options(c.section)| && c.section == Actions ==> r == c
  {
    if c.index + columns < |Options(c.section)| then Cursor(c.section, c.index + columns)
    else if c.section == Actions then c
    else Cursor(Next(c.section), 0)
  }

  /** Up: one row up within the grid, else the previous section, entering
      the two language grids on their last row and the others on the first
      cell; nothing above the audio grid. */
  function Up(c: Cursor, columns: int): (r: Cursor)
    requires Valid(c) && columns >= 1
    ensures Valid(r)
    ensures c.index - columns >= 0 ==> r == Cursor(c.section, c.index - columns)
    ensures c.index - columns < 0 && c.section == Audio ==> r == c
    ensures c.index - columns < 0 && c.section != Audio ==> r.section == Prev(c.section)
    ensures c.index - columns < 0 && (c.section == Subtitle || c.section == SubtitleSize) ==>
      r.index % columns == 0 && r.index <= |Options(r.section)| - 1 < r.index + columns
    ensures c.index - columns < 0 && c.section != Audio && c.section != Subtitle && c.section != SubtitleSize ==>
      r.index == 0
  {
    if c.index - columns >= 0 then Cursor(c.section, c.index - columns)
    else match c.section
      case Audio => c
      case Subtitle => Cursor(Audio, LastRow(|LANGUAGES|, columns))
      case SubtitleSize => Cursor(Subtitle, LastRow(|SUBTITLE_LANGUAGES|, columns))
      case SubtitleStyle => Cursor(SubtitleSize, 0)
      case PreviewVideo => Cursor(SubtitleStyle, 0)
      case Actions => Cursor(PreviewVideo, 0)
  }

  /** The key handler alone, before the re-sync effect. `columns` is the
      measured column count of the grid on screen (at least one). */
  function HandleKey(c: Cursor, st: Store, e: KeyEvent, columns: int, sidebarFocused: bool): (r: SettingsStep)
    requires Valid(c) && columns >= 1
    ensures Valid(r.cursor)
    ensures sidebarFocused ==> r == SettingsStep(c, st, [])
    ensures !sidebarFocused && IsBackKey(e) ==> r == SettingsStep(c, st, [Close])
    ensures r.store != st ==> !sidebarFocused && e.key == "Enter" && r.cursor == c
  {
    if sidebarFocused then SettingsStep(c, st, [])
    else if IsBackKey(e) then SettingsStep(c, st, [Close])
    else
      var opts := Options(c.section);
      if e.key == "ArrowRight" then SettingsStep(Cursor(c.section, JsRem(c.index + 1, |opts|)), st, [])
      else if e.key == "ArrowLeft" then
        if JsRem(c.index, columns) == 0 then SettingsStep(c, st, [FocusSidebar])
        else SettingsStep(Cursor(c.section, c.index - 1), st, [])
      else if e.key == "ArrowDown" then SettingsStep(Down(c, columns), st, [])
      else if e.key == "ArrowUp" then SettingsStep(Up(c, columns), st, [])
      else if e.key == "Enter" then
        if c.section == Actions then
          var (st', fx) := Action(opts[c.index].code, st);
          SettingsStep(c, st', fx)
        else SettingsStep(c, st[PrefKey(c.section) := Text(opts[c.index].code)], [])
      else SettingsStep(c, st, [])
  }

  /** A key followed by the re-sync effect, which runs only when the
      section or one of the five preferences changed. */
  function Step(c: Cursor, st: Store, e: KeyEvent, columns: int, sidebarFocused: bool): (r: SettingsStep)
    requires Valid(c) && columns >= 1
    ensures Valid(r.cursor)
    ensures var k := HandleKey(c, st, e, columns, sidebarFocused);
      r.store == k.store && r.effects == k.effects && r.cursor.section == k.cursor.section
  {
    var k := HandleKey(c, st, e, columns, sidebarFocused);
    if k.cursor.section != c.section || Prefs(k.store) != Prefs(st) then
      SettingsStep(Resync(k.cursor, k.store), k.store, k.effects)
    else k
  }

  /** Enter in a preference grid stores the code under the cursor, and the
      re-sync that follows leaves the cursor on that cell. */
  lemma EnterStoresChoice(c: Cursor, st: Store, code: int, columns: int)
    requires Valid(c) && columns >= 1 && c.section != Actions
    requires !IsBackKey(KeyEvent("Enter", code))
    ensures var r := Step(c, st, KeyEvent("Enter", code), columns, false);
      StoredChoice(r.store, c.section) == Options(c.section)[c.index].code && r.cursor == c
  {
    var opts := Options(c.section);
    var k := HandleKey(c, st, KeyEvent("Enter", code), columns, false);
    assert k.store == st[PrefKey(c.section) := Text(opts[c.index].code)];
    assert Codes(opts)[c.index] == opts[c.index].code;
    IndexOfDistinct(Codes(opts), c.index);
  }

  /** Moving within one grid keeps the section, so no re-sync pulls the
      cursor back to the stored choice. */
  lemma RightStaysOnCell(c: Cursor, st: Store, code: int, columns: int)
    requires Valid(c) && columns >= 1 && code != 461
    ensures Step(c, st, KeyEvent("ArrowRight", code), columns, false).cursor ==
      Cursor(c.section, CycleNext(c.index, |Options(c.section)|))
  {
  }

  /** Left hands focus to the sidebar exactly from the first column of a
      row, and otherwise moves one cell left within the row. */
  lemma LeftStaysInRow(c: Cursor, st: Store, code: int, columns: int)
    requires Valid(c) && columns >= 1 && code != 461
    ensures var r := Step(c, st, KeyEvent("ArrowLeft", code), columns, false);
      r.store == st &&
      (r.effects == [FocusSidebar] <==> c.index % columns == 0) &&
      (c.index % columns == 0 ==> r.cursor == c) &&
      (c.index % columns != 0 ==>
        r.effects == [] && r.cursor == Cursor(c.section, c.index - 1) &&
        (c.index - 1) / columns == c.index / columns)
  {
    var k := HandleKey(c, st, KeyEvent("ArrowLeft", code), columns, false);
    assert k.store == st && k.cursor.section == c.section;
    if c.index % columns != 0 {
      assert k.cursor == Cursor(c.section, c.index - 1);
      DivModUnique(c.index - 1, columns, c.index / columns, c.index % columns - 1);
    }
  }

  /** Entering a section by Down lands on the stored choice when its grid
      holds it. */
  lemma DownIntoStoredChoice(c: Cursor, st: Store, code: int, columns: int)
    requires Valid(c) && columns >= 1 && code != 461
    requires c.index + columns >= |Options(c.section)| && c.section != Actions && Next(c.section) != Actions
    requires StoredChoice(st, Next(c.section)) in Codes(Options(Next(c.section)))
    ensures var r := Step(c, st, KeyEvent("ArrowDown", code), columns, false);
      r.cursor.section == Next(c.section) && Valid(r.cursor) && Options(r.cursor.section)[r.cursor.index].code == StoredChoice(st, Next(c.section))
  {
  }

  /** After clearing the cache no saved position is left, so the player
      restores none. */
  lemma ClearCacheForgetsPositions(st: Store, guid: string)
    ensures Playback.StorageKey(guid) !in ClearCache(st)
    ensures Playback.SavedAt(ClearCache(st), guid) == 0.0
  {
  }

  /** Clearing the cache keeps the watchlist and the preferences. */
  lemma ClearCacheKeepsLists(st: Store)
    ensures Watchlist.GetWatchlist(ClearCache(st)) == Watchlist.GetWatchlist(st)
    ensures Prefs(ClearCache(st)) == Prefs(st)
  {
    assert !StartsWith(WATCHLIST_KEY, Playback.POSITION_PREFIX);
    assert !StartsWith("language", Playback.POSITION_PREFIX);
    assert !StartsWith("subtitleLanguage", Playback.POSITION_PREFIX);
    assert !StartsWith("subtitleSize", Playback.POSITION_PREFIX);
    assert !StartsWith("subtitleStyle", Playback.POSITION_PREFIX);
    assert !StartsWith("previewVideo", Playback.POSITION_PREFIX);
  }

  lemma ClearCacheIdempotent(st: Store)
    ensures ClearCache(ClearCache(st)) == ClearCache(st)
  {
  }

  /** Clearing the watchlist empties it for every event and keeps the
      saved positions. */
  lemma ClearWatchlistEmpties(st: Store, guid: string)
    ensures Watchlist.GetWatchlist(ClearWatchlist(st)) == []
    ensures !Watchlist.InWatchlist(ClearWatchlist(st), guid)
    ensures Playback.SavedAt(ClearWatchlist(st), guid) == Playback.SavedAt(st, guid)
  {
    assert Playback.StorageKey(guid) != WATCHLIST_KEY by {
      assert Playback.StorageKey(guid)[0] == 'p';
    }
  }
}
