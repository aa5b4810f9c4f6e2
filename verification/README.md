# cccbib TV client — a Dafny model of its navigation and data rules

cccbib is a television client for media.ccc.de: a React application driven entirely by a
TV remote. This project models the logic behind that remote control and the pure data rules
around it, as immutable datatypes and pure transition functions `(state, key) -> (state, effects)`:

- the fullscreen player's keyboard state machine: back/stop precedence, the selector modals,
  the cyclic button ring, keyword classification of the focused control and the seek clamp;
- the player controls' visibility, where the 4-second timer becomes an explicit expiry event;
- each view's cursor and the focus hand-off to the sidebar: list, sidebar, the main view's
  focus owner, the four-column conference grid, the sectioned settings grid and search;
- the home screen's sliding window of conference rows, with its per-row carousel positions;
- the `conferencesRecent` cache merge, in both its `index.jsx` and `index.js` forms;
- video selection by priority and `formatSeconds`;
- audio and subtitle option derivation, the control list and its labels;
- playback-position saving and watchlist auto-removal; watchlist add/remove/toggle;
- image preloading;
- the popular and conference-list sorting;
- the constant tables;
- SRT-to-WebVTT conversion: the `WEBVTT` header, one `cue-N` block per cue with
  '.'-separated milliseconds, and the overlap repair, which keeps every cue ending after it
  starts.

Modelling conventions:

- `localStorage` is a `map<string, Value>` (`Media.Store`).
- The current time, the timers, the carousel library's answers (`Home.Carousel`) and the
  measured grid column count are parameters.
- A requested fetch is an emitted effect.
- An empty string stands for a missing (falsy) JavaScript value.
- JavaScript's truncating `%` is `Common.JsRem`.
- A cursor computed modulo zero is `Common.Num.NaN`.

Where the code and the project's design description disagree, the model follows the code:

- The controls' timer hides them whether or not the video is playing.
- No list view windows its rows; every row is rendered.
- The home screen shifts its row window whenever it holds at least two rows. It has no
  capacity-six eviction.
- Nothing stops a second `fetchMore` for the same offset while one is in flight
  (`Home.RepeatedFetch`).
- `Home.jsx` takes no props in this revision.
- `Main.jsx` mounts only `Sidebar` and `Home`. No file of this revision renders `Search`,
  `Settings`, `PopularView`, `EventsListView`, `WatchlistView` or `ConferenceView`. These views
  are modelled as standalone components, and their parent's callbacks become effects.

## Model

| member | source | states |
|---|---|---|
| Common.JsRem | src/hooks/useListNavigation.js:22-29 | JavaScript's `%`: equals Euclidean `%` on non-negative operands, is never positive for a negative dividend, and is smaller in size than the divisor |
| Common.CycleNext | src/hooks/useListNavigation.js:22-25 | `(i+1) % n` on an index in range stays in range: the next index, or 0 after the last |
| Common.CyclePrev | src/hooks/useListNavigation.js:26-29 | `(i-1+n) % n` stays in range: the previous index, or n-1 before the first |
| Common.DistinctOrder | src/components/Player/index.js:102-106 | `[...new Set(xs)]` keeps the order of first occurrence and starts with `xs[0]` |
| Common.DistinctFromOrder | src/components/Player/index.js:102-106 | deduplicating after the seen values keeps the order of first occurrence |
| Common.IndexOrZero | src/components/Player/index.js:140-153 | `indexOf(x)` falling back to 0: always a valid index of a non-empty list, and pointing at `x` when `x` is listed |
| Media.Pref | src/components/Settings.jsx:13-32 | a stored preference reads as its stored text, or as the default when the key is absent |
| Constants.InCodes | src/constants.js:51-105 | a code appears in an option table's code column exactly when some option of the table carries it |
| Constants.NameTable | src/constants.js:70-72 | the code-to-name table of an option list has exactly the list's codes as keys |
| Constants.NameTableLookup | src/constants.js:70-72 | with distinct codes, every listed code maps to its own name |
| Constants.LanguageNamesCover | src/constants.js:70-72 | `LANGUAGE_NAMES` maps every `LANGUAGES` code to its name, and has no other keys |
| Constants.LanguageCodesDistinct | src/constants.js:51-67 | the 15 language codes are pairwise distinct |
| Constants.OnlyFirstIsAuto | src/constants.js:51-67 | only the first language entry is `auto` |
| Constants.FilterLanguages | src/constants.js:81-84 | filtering out `auto` leaves every language after the first, in order |
| Constants.SubtitleLanguagesShape | src/constants.js:81-84 | `SUBTITLE_LANGUAGES` is `none` followed by the languages without `auto`, order kept |
| Constants.SubtitleTail | src/constants.js:81-84 | after `none`, the subtitle languages are exactly the non-auto languages |
| Constants.LangCodeMapCovers | src/constants.js:74-78 | `LANG_CODE_MAP` has an entry for every non-auto language code |
| Constants.SubtitleCodesDistinct | src/constants.js:81-84 | subtitle option codes are pairwise distinct |
| Constants.OptionCodesDistinct | src/constants.js:87-105 | the size, style and preview option codes are each pairwise distinct, so index lookups by code are unambiguous |
| Decimal.Show | src/helpers/helpers.js:64 | decimal rendering of a natural: a non-empty digit string, one digit exactly below 10 |
| Decimal.ValueShow | src/helpers/helpers.js:64 | reading back a rendered number gives the number (round trip) |
| Decimal.PadStart | src/helpers/helpers.js:64 | `padStart` with zeros: the original string is the suffix and only zeros are added, up to the width |
| Decimal.Padded | src/helpers/subtitleConverter.js:19-26 | a zero-padded number is all digits, reads back as the number, and has exactly the width when the number fits |
| Decimal.PaddedValue | src/helpers/subtitleConverter.js:8-26 | re-padding a digit field's value to its own width gives the field back |
| Decimal.SameValueSame | src/helpers/subtitleConverter.js:8-26 | two digit strings of the same width and value are equal |
| Decimal.ValueBound | src/helpers/subtitleConverter.js:8-12 | a digit string of width w reads as less than 10^w |
| VideoSelect.Priority | src/helpers/helpers.js:29-43 | a candidate scores 1..6, even exactly for webm, at least 5 exactly for an exact single-track match, and at least 3 exactly when the preferred language is among its tracks |
| VideoSelect.BestIndex | src/helpers/helpers.js:16-58 | the scan returns -1 exactly when no video is a candidate, otherwise the first candidate of strictly highest priority |
| VideoSelect.BestUnique | src/helpers/helpers.js:45-58 | the winner of the selection is unique |
| VideoSelect.FirstOfType | src/helpers/helpers.js:3-10 | the first video with the given mime type and a url, or -1 when none has one |
| VideoSelect.GetVideo | src/helpers/helpers.js:2-63 | `auto` takes the first webm, else the first mp4, with found=true; otherwise no recording exactly when no candidate exists, and the best candidate with found iff its priority is at least 3 and its own language |
| VideoSelect.ExactMatchFound | src/helpers/helpers.js:29-58 | when some candidate's language equals a single-track preference, the winner is an exact single-track match |
| VideoSelect.FormatSecondsParts | src/helpers/helpers.js:64 | `formatSeconds` gives three colon-separated fields: hours, minutes and seconds, each padded to two digits |
| VideoSelect.FormatSecondsShape | src/helpers/helpers.js:64 | minutes and seconds are two-digit fields below 60 |
| VideoSelect.FormatSecondsReadsBack | src/helpers/helpers.js:64 | parsing the clock string gives back the seconds |
| VideoSelect.FormatSecondsInjective | src/helpers/helpers.js:64 | different durations render differently |
| SrtVtt.ParseFormat | src/helpers/subtitleConverter.js:8-26 | for 0 <= x < 100 h, formatting gives a well-formed, normalised `HH:MM:SS,mmm` stamp that parses back to x |
| SrtVtt.FormatParse | src/helpers/subtitleConverter.js:8-26 | a well-formed stamp with minutes and seconds below 60 formats back to itself after parsing |
| SrtVtt.FieldsArithmetic | src/helpers/subtitleConverter.js:8-12 | the millisecond count determines each field uniquely |
| SrtVtt.TrimAndDropBlankKeeps | src/helpers/subtitleConverter.js:67-77 | a cue's cleaned lines are exactly the non-empty trimmed input lines |
| SrtVtt.TrimAndDropBlankClean | src/helpers/subtitleConverter.js:67-77 | already clean lines pass unchanged |
| SrtVtt.CleanLines | src/helpers/subtitleConverter.js:67-77 | cleaning yields lines that are non-empty, trimmed and free of newlines |
| SrtVtt.CleanTextEmpty | src/helpers/subtitleConverter.js:67-77 | cleaned text is empty exactly when no line survives |
| SrtVtt.CleanTextLines | src/helpers/subtitleConverter.js:67-77 | splitting the cleaned text gives the cleaned lines |
| SrtVtt.CleanTextIdempotent | src/helpers/subtitleConverter.js:67-77 | cleaning cleaned text changes nothing |
| SrtVtt.CollectCues | src/helpers/subtitleConverter.js:55-85 | cues keep their stamps, every kept cue has text, and none are added |
| SrtVtt.CollectCuesKeeps | src/helpers/subtitleConverter.js:55-85 | the kept cues are the cleaned cues whose text survives cleaning, in input order |
| SrtVtt.AdjustEndOverlap | src/helpers/subtitleConverter.js:89-103 | an overlapping cue's end becomes max(next start - 100, own start + 100) ms |
| SrtVtt.AdjustEndValue | src/helpers/subtitleConverter.js:89-103 | the adjusted end is well formed and equals that maximum |
| SrtVtt.AdjustEndBounds | src/helpers/subtitleConverter.js:89-103 | the adjusted end is at least 100 ms after the start, and before the next start exactly when the two starts are more than 100 ms apart |
| SrtVtt.AdjustEndKeeps | src/helpers/subtitleConverter.js:89-103 | a cue that does not overlap the next keeps its end |
| SrtVtt.FixOverlaps | src/helpers/subtitleConverter.js:89-103 | the left-to-right pass keeps count, numbers, starts and texts, and sets each end by the rule from its neighbour |
| SrtVtt.RepairedCueTiming | src/helpers/subtitleConverter.js:89-103 | a repaired cue that ended after its start still does, and no longer runs past a next cue that starts more than 100 ms later |
| SrtVtt.RepairedTimings | src/helpers/subtitleConverter.js:89-103 | over a whole file of cues ending after they start, every repaired cue ends after it starts and spaced cues do not overlap |
| SrtVtt.CollectedFrom | src/helpers/subtitleConverter.js:55-85 | every collected cue carries the stamps of some match |
| SrtVtt.ConvertedTimings | src/helpers/subtitleConverter.js:55-103 | for matches that each end after they start, every output cue ends after it starts, and cues more than 100 ms apart do not overlap |
| SrtVtt.CapturedText | src/helpers/subtitleConverter.js:48 | as written, the pattern captures one line: the first with text |
| SrtVtt.CapturedIsOneLine | src/helpers/subtitleConverter.js:48 | as written, every converted cue has at most one text line |
| SrtVtt.MultiLineCueTruncated | src/helpers/subtitleConverter.js:48 | as written, `Hello` / `World` converts to `Hello`; cleaning the whole block keeps both lines |
| SrtVtt.VttStampOfStamp | src/helpers/subtitleConverter.js:106-121 | a WebVTT stamp is the SRT stamp with the millisecond comma replaced by a dot |
| SrtVtt.Blocks | src/helpers/subtitleConverter.js:106-121 | one output block per cue, in order |
| SrtVtt.BlockShape | src/helpers/subtitleConverter.js:106-121 | a block is `cue-N`, `start --> end` with dotted stamps, then the text, on three lines |
| SrtVtt.SerializeShape | src/helpers/subtitleConverter.js:37 | the output starts with the `WEBVTT` header and ends in a newline; the empty and one-cue outputs are exact |
| SrtVtt.ConvertSrtToVtt | src/helpers/subtitleConverter.js:55-121 | the conversion is clean, then repair overlaps, then serialise |
| SrtVtt.SubtitleText | src/helpers/subtitleConverter.js:143-148 | text already starting with `WEBVTT` after trimming passes unchanged; any result starts with `WEBVTT` after trimming |
| ControlsVisibility.Initial | src/components/Player/useControlsVisibility.js:4-12 | controls start visible, with no focus area and index 0 |
| ControlsVisibility.Show | src/components/Player/useControlsVisibility.js:14-31 | showing makes the controls visible, records the activity time and leaves one fresh timer that captures the selector flags |
| ControlsVisibility.Expire | src/components/Player/useControlsVisibility.js:25-30 | expiry hides only when no captured selector flag is set and no area is focused; it otherwise changes nothing |
| ControlsVisibility.Hide | src/components/Player/useControlsVisibility.js:33-47 | hiding clears visibility, the focus area and index, and cancels the timer |
| ControlsVisibility.Mount | src/components/Player/useControlsVisibility.js:49-54 | mounting shows the controls once, with a timer pending |
| ControlsVisibility.ShowThenExpire | src/components/Player/useControlsVisibility.js:14-31 | after showing, expiry hides exactly when neither selector was open and no area is focused |
| ControlsVisibility.HideThenExpire | src/components/Player/useControlsVisibility.js:33-47 | an expiry after hiding finds no timer and changes nothing |
| ControlsVisibility.ShowTwice | src/components/Player/useControlsVisibility.js:14-31 | showing twice at the same moment is showing once |
| ControlsVisibility.HideTwice | src/components/Player/useControlsVisibility.js:33-47 | hiding is idempotent |
| PlayerKeyboard.FindButtonByContent | src/components/Player/usePlayerKeyboard.js:15-25 | the first button whose lowercased text and label mention a keyword, or -1 exactly when none does |
| PlayerKeyboard.FirstGroup | src/components/Player/usePlayerKeyboard.js:138-177 | the first keyword group in priority order that the button matches, or -1 |
| PlayerKeyboard.ClassifyFirstGroup | src/components/Player/usePlayerKeyboard.js:138-177 | the action of a button is that of the first matching group: watchlist, subtitle, language, rewind, forward, play/pause, mute |
| PlayerKeyboard.Activation | src/components/Player/usePlayerKeyboard.js:138-177 | a focused button acts exactly when it exists, is enabled and is classified |
| PlayerKeyboard.Seek | src/components/Player/usePlayerKeyboard.js:99-105 | seeking moves the time by the delta clamped to [0, duration]; the duration and mute flag are untouched; no video means no change |
| PlayerKeyboard.FocusByKeywords | src/components/Player/usePlayerKeyboard.js:35-46 | focuses the first button matching the keywords, else 0, in the button area; only the controls change |
| PlayerKeyboard.RingStart | src/components/Player/usePlayerKeyboard.js:115-136 | the ring starts at the marked button when one is marked, otherwise at play/pause or 0 |
| PlayerKeyboard.Navigate | src/components/Player/usePlayerKeyboard.js:115-136 | with buttons the focus moves one step around the ring; with none nothing changes |
| PlayerKeyboard.RingStep | src/components/Player/usePlayerKeyboard.js:115-136 | `(cur + dir + n) % n` is the cyclic successor or predecessor |
| PlayerKeyboard.ToggleMuted | src/components/Player/usePlayerKeyboard.js:107-113 | muting flips the video's flag and mirrors it in the player state |
| PlayerKeyboard.PressLanguage | src/components/Player/index.js:156-164 | opens the language selector on the current language's index; a started video of a known event first emits the language-switch write at its current time, nothing otherwise |
| PlayerKeyboard.AfterLanguagePress | src/components/Player/index.js:156-164 | after the button a started video's current time is the saved position, the language-switch time and the start time; otherwise the tracker is unchanged |
| PlayerKeyboard.PressSubtitle | src/components/Player/index.js:166-170 | opens the subtitle selector on the current subtitle's index |
| PlayerKeyboard.Activate | src/components/Player/usePlayerKeyboard.js:138-177 | an unclassified, disabled or missing button does nothing, and activation never closes the player |
| PlayerKeyboard.StopCloses | src/components/Player/usePlayerKeyboard.js:186-192 | a stop key with no selector open closes the player and nothing else |
| PlayerKeyboard.BackHidesOrCloses | src/components/Player/usePlayerKeyboard.js:194-210 | a back key does exactly one of hiding the controls or closing; it closes exactly when the controls are neither focused nor recently active |
| PlayerKeyboard.SelectorNeverCloses | src/components/Player/usePlayerKeyboard.js:308-376 | while a selector is open no key closes the player |
| PlayerKeyboard.LanguageSelectorCycles | src/components/Player/usePlayerKeyboard.js:308-340 | Up and Down move the language selector cyclically without committing |
| PlayerKeyboard.LanguageSelectorEnter | src/components/Player/usePlayerKeyboard.js:308-340 | Enter commits the highlighted language and closes the selector |
| PlayerKeyboard.LanguageSelectorBack | src/components/Player/usePlayerKeyboard.js:308-340 | back closes the language selector without committing |
| PlayerKeyboard.SubtitleSelectorCycles | src/components/Player/usePlayerKeyboard.js:342-376 | Up and Down move the subtitle selector cyclically without committing |
| PlayerKeyboard.SubtitleSelectorEnter | src/components/Player/usePlayerKeyboard.js:342-376 | Enter commits the highlighted subtitle and closes the selector |
| PlayerKeyboard.SubtitleSelectorBack | src/components/Player/usePlayerKeyboard.js:342-376 | back closes the subtitle selector without committing |
| PlayerKeyboard.ArrowsSeekOrWalk | src/components/Player/usePlayerKeyboard.js:274-285 | Left/Right seek by 10 s outside the button area and walk the ring inside it, after showing the controls |
| PlayerKeyboard.RightThenLeft | src/components/Player/usePlayerKeyboard.js:115-136 | Right then Left returns focus to the marked button |
| PlayerKeyboard.DownFocusesProgressBar | src/components/Player/usePlayerKeyboard.js:238-251 | Down focuses the progress bar and unmarks the buttons |
| PlayerKeyboard.UpFocusesPlayPause | src/components/Player/usePlayerKeyboard.js:253-263 | Up focuses the button area on the play/pause button |
| PlayerKeyboard.EnterOutsideControls | src/components/Player/usePlayerKeyboard.js:265-272 | Enter outside the button area only shows the controls |
| PlayerKeyboard.PauseAndPlay | src/components/Player/usePlayerKeyboard.js:216-230 | the pause key stops playback and shows the controls; the play key starts playback and hides them |
| PlayerKeyboard.SelectorIndicesInRange | src/components/Player/usePlayerKeyboard.js:308-376 | the selector indices stay inside their option lists over any key |
| PlayerKeyboard.FocusInRange | src/components/Player/usePlayerKeyboard.js:115-177 | the focused and marked button indices stay inside the button list over any key |
| PlayerControls.AvailableLanguages | src/components/Player/index.js:102-106 | the offered audio languages are duplicate-free and listed in the order the url-bearing webm recordings first name them, multi-track tags split at '-' |
| PlayerControls.AvailableLanguagesMembers | src/components/Player/index.js:102-108 | a language is offered exactly when some webm video with a url lists it among its '-'-separated tracks |
| PlayerControls.FirstOfferedLanguage | src/components/Player/index.js:102-106 | the first offered language is the first track of the first url-bearing webm recording with a language |
| PlayerControls.InitialLanguage | src/components/Player/index.js:124-133 | the preferred language when available, else the first available, else unchanged |
| PlayerControls.ChosenLanguageIsFound | src/components/Player/index.js:112-133 | the initial language is found by the video selection, and the chosen video carries it |
| PlayerControls.SelectorShowsChoice | src/components/Player/index.js:140-153 | the language selector opens on the chosen language |
| PlayerControls.LanguageLabel | src/components/Player/index.js:215-225 | `Auto (...)` for auto, `Multi-Audio (name)` for a multi-track recording, else the name |
| PlayerControls.AutoLabelNamesEveryTrack | src/components/Player/index.js:215-225 | the auto label names each track of the recording |
| PlayerControls.GridLanguageLabel | src/components/Player/index.js:215-225 | a listed language on a single-track recording is labelled with its table name |
| PlayerControls.SubtitleLabel | src/components/Player/index.js:259 | `Subtitles Off` exactly for `none`, else `Subtitles (name)` |
| PlayerControls.ControlList | src/components/Player/index.js:228-266 | five fixed controls with their labels, then language exactly when there are several languages, then subtitles exactly when there are subtitles, last |
| PlayerControls.VideoUrl | src/components/Player/index.js:268-272 | no url without a recording; the url itself at time 0; a `#t=` suffix for a positive start |
| PlayerControls.VideoUrlReadsBack | src/components/Player/index.js:272 | the `#t=` suffix reads back as the floor of the start time |
| PlayerControls.TrackConfig | src/components/Player/index.js:273-280 | a track exists exactly when a subtitle source is active and a language is chosen, named by the language |
| PlayerControls.GridTrack | src/components/Player/index.js:273-280 | a listed language's track uses its two-letter code and table name |
| PlayerControls.GridTrackConfig | src/components/Player/index.js:273-280 | the same for every subtitle option but `none` |
| PlayerControls.TwoLetterCodes | src/constants.js:74-78 | every mapped code has two letters |
| Subtitles.AllSubtitles | src/components/Player/useSubtitleManagement.js:30-33 | event subtitles followed by lecture subtitles |
| Subtitles.AvailableSubtitles | src/components/Player/useSubtitleManagement.js:35-37 | the duplicate-free languages of subtitles that have a url and a language, and only those |
| Subtitles.SubtitleOptions | src/components/Player/useSubtitleManagement.js:39-40 | `none` followed by the available languages |
| Subtitles.InitialSubtitle | src/components/Player/useSubtitleManagement.js:43-53 | `none` stays `none`; with subtitles the preferred one when listed, else `none`; without subtitles unchanged |
| Subtitles.InitialIsAnOption | src/components/Player/useSubtitleManagement.js:43-53 | the initial choice is an option and the selector opens on it |
| Subtitles.FirstServing | src/components/Player/useSubtitleManagement.js:60-64 | the first subtitle with the language and a url, or -1 exactly when none has both |
| Subtitles.Source | src/components/Player/useSubtitleManagement.js:60-64 | `none` selects nothing; otherwise the first serving subtitle |
| Subtitles.OptionHasSource | src/components/Player/useSubtitleManagement.js:35-64 | every offered language has a source of that language |
| Subtitles.ProxyOfCdn | src/components/Player/useSubtitleManagement.js:66 | the proxy url swaps the CDN host for `/subtitles` |
| Subtitles.StaticOfCdnMedia | src/components/Player/useSubtitleManagement.js:71-73 | the fallback maps a CDN media url onto the static media prefix |
| Watchlist.GetWatchlist | src/hooks/useWatchlist.js:96-104 | the stored list, or empty when the key is absent |
| Watchlist.Add | src/hooks/useWatchlist.js:42-64 | a listed guid changes nothing; otherwise the item is appended and the store changes; afterwards the guid is listed |
| Watchlist.Remove | src/hooks/useWatchlist.js:66-86 | no list means no change; it changes exactly when the guid was listed, by filtering it out; afterwards it is not listed |
| Watchlist.Toggle | src/hooks/useWatchlist.js:88-94 | removes when listed, adds otherwise, so the listing flips |
| Watchlist.AddKeepsUnique | src/hooks/useWatchlist.js:42-64 | adding keeps guids unique |
| Watchlist.RemoveKeepsUnique | src/hooks/useWatchlist.js:66-86 | removing keeps guids unique |
| Watchlist.RemoveFilters | src/hooks/useWatchlist.js:66-86 | after a removal, written or not, the stored list is the old one without the guid's entries |
| Watchlist.AddThenRemove | src/hooks/useWatchlist.js:42-86 | removing what was just added restores the list |
| Watchlist.OnlyTheWatchlistKey | src/hooks/useWatchlist.js:42-86 | add and remove touch no other store key |
| Playback.StorageKey | src/components/Player/usePlaybackPosition.js:3 | the key is the fixed prefix followed by the guid |
| Playback.StorageKeyInjective | src/components/Player/usePlaybackPosition.js:3 | different guids get different keys |
| Playback.RestoredStart | src/components/Player/usePlaybackPosition.js:12-19 | a saved position replaces the start only with a recording, a guid, start 0, no language switch, and a positive value |
| Playback.AutoRemove | src/components/Player/usePlaybackPosition.js:23-36 | within 300 s of the end a listed video is removed from the watchlist; nothing changes otherwise |
| Playback.AutoRemoveUnlists | src/components/Player/usePlaybackPosition.js:23-36 | after auto-removal the video is not listed |
| Playback.SavePosition | src/components/Player/usePlaybackPosition.js:38-66 | with a playing clock the position is stored exactly when more than 300 s remain, as the current time, and every other key, the watchlist included, is as the auto-removal leaves it; without one nothing changes |
| Playback.SaveTouchesOwnKeys | src/components/Player/usePlaybackPosition.js:38-66 | saving touches only the video's own key and the watchlist |
| Playback.TimeUpdate | src/components/Player/usePlaybackPosition.js:70-98 | a pending language switch is cleared and the start time reset to 0; the watchlist check runs only after 30 s since the last one, with the auto-removal rule, and the store is untouched otherwise |
| Playback.SwitchThenRestore | src/components/Player/usePlaybackPosition.js:70-76 | no restore happens during a language switch; after the next time update a saved position is restored exactly as on a fresh load |
| Playback.SwitchLanguage | src/components/Player/index.js:158-162 | the language switch saves the given time as the position and makes it the switch time and the start time, leaving the other keys alone |
| Playback.SwitchKeepsPlace | src/components/Player/usePlaybackPosition.js:12-19 | after a switch at a positive time the new recording starts there, and still does after the next time update hands restoring back to the store |
| Playback.AtMostOncePerInterval | src/components/Player/usePlaybackPosition.js:70-98 | within 30 s of a check, further time updates change nothing |
| ListNavigation.ListKey | src/hooks/useListNavigation.js:13-45 | idle when disabled, sidebar-focused or empty; close keys close, Down/Up wrap, Left hands to the sidebar, Enter selects the current index |
| ListNavigation.ListKeyInRange | src/hooks/useListNavigation.js:22-29 | the index stays in range |
| ListNavigation.ArrowsCycle | src/hooks/useListNavigation.js:22-29 | Down and Up are the cyclic successor and predecessor |
| ListNavigation.DownThenUp | src/hooks/useListNavigation.js:22-29 | Down and Up undo each other |
| ListNavigation.RemoteBackCloses | src/hooks/useListNavigation.js:17-21 | the remote's back code 461 closes the list |
| Sidebar.MenuShape | src/components/Sidebar.jsx:11-18 | six distinct menu ids with `events` at its fixed place |
| Sidebar.SyncIndex | src/components/Sidebar.jsx:21-30 | the cursor follows the selected id; an id outside the menu maps to `events` |
| Sidebar.SidebarKey | src/components/Sidebar.jsx:43-63 | idle when unfocused; Down/Up wrap over six; Right re-selects the current view, Enter the item under the cursor |
| Sidebar.SelectedIsSyncIndex | src/components/Sidebar.jsx:69 | an entry is marked selected exactly when it is the synced cursor position |
| Sidebar.EnterKeepsCursor | src/components/Sidebar.jsx:52-61 | after Enter the cursor re-syncs to where it already was |
| MainView.Initial | src/views/Main.jsx:8-10 | sidebar unfocused, `recent` shown, not fullscreen |
| MainView.Select | src/views/Main.jsx:18-21 | a new view is selected and the sidebar cursor follows it |
| MainView.SidebarSelect | src/views/Main.jsx:18-21 | the sidebar's choice sets the view and releases focus |
| MainView.FocusSidebar | src/views/Main.jsx:37 | the content hands focus to the sidebar without changing the view |
| MainView.ContentSelect | src/views/Main.jsx:38 | the content changes the view without touching focus |
| MainView.MainKey | src/views/Main.jsx:14-25 | the sidebar reacts only when mounted (not fullscreen) and focused; consistency is kept |
| MainView.FocusThenRight | src/views/Main.jsx:14-37 | handing focus to the sidebar and pressing Right returns to the same view |
| MainView.EnterOpensEntry | src/views/Main.jsx:14-25 | Enter on the sidebar opens the entry under the cursor and releases focus |
| MainView.UnfocusedSidebarStaysIdle | src/views/Main.jsx:14-25 | with an unfocused sidebar no key sequence changes the view |
| Settings.Options | src/components/Settings.jsx:120-135 | every section's grid has at least two cells with distinct codes |
| Settings.Prev | src/components/Settings.jsx:170-194 | Up's section order is the inverse of Down's |
| Settings.LastRow | src/components/Settings.jsx:170-194 | `floor((n-1)/cols)*cols` is the first cell of the last row |
| Settings.Resync | src/components/Settings.jsx:80-109 | the cursor moves to the stored choice when the grid holds it; `actions` resets to 0; otherwise unchanged |
| Settings.ClearCache | src/components/Settings.jsx:40-56 | removes the schema version and every saved position, and keeps every other key and value |
| Settings.ClearWatchlist | src/components/Settings.jsx:40-56 | removes exactly the watchlist key |
| Settings.Action | src/components/Settings.jsx:40-56 | `clearCache` clears and reloads, `clearWatchlist` clears and alerts, other codes do nothing |
| Settings.Down | src/components/Settings.jsx:147-169 | one row down when it exists, else the next section's first cell, and nothing from `actions` |
| Settings.Up | src/components/Settings.jsx:170-194 | one row up when it exists, else the previous section: its last row for audio and subtitle, its first cell otherwise; nothing from `audio` |
| Settings.HandleKey | src/components/Settings.jsx:111-211 | idle while the sidebar is focused; back keys close; only Enter writes the store |
| Settings.Step | src/components/Settings.jsx:80-211 | the re-sync after a key keeps the key's store, effects and section |
| Settings.EnterStoresChoice | src/components/Settings.jsx:195-209 | Enter stores the code under the cursor and the re-sync keeps the cursor there |
| Settings.RightStaysOnCell | src/components/Settings.jsx:137-139 | Right wraps within the grid and no re-sync pulls it back |
| Settings.LeftStaysInRow | src/components/Settings.jsx:140-146 | Left hands focus to the sidebar exactly from a row's first column, else moves one cell within the row |
| Settings.DownIntoStoredChoice | src/components/Settings.jsx:80-169 | entering a section by Down lands on its stored choice |
| Settings.ClearCacheForgetsPositions | src/components/Settings.jsx:40-48 | after clearing the cache no position is saved |
| Settings.ClearCacheKeepsLists | src/components/Settings.jsx:40-48 | clearing the cache keeps the watchlist and the preferences |
| Settings.ClearCacheIdempotent | src/components/Settings.jsx:40-48 | clearing twice is clearing once |
| Settings.ClearWatchlistEmpties | src/components/Settings.jsx:49-56 | clearing the watchlist empties it and keeps saved positions |
| ConferenceView.ConfKey | src/components/ConferenceView.jsx:48-78 | idle without lectures, with the player open or the sidebar focused; Enter opens the fullscreen player; the sidebar gets focus only from a first column |
| ConferenceView.ClosePlayer | src/components/ConferenceView.jsx:110-113 | closing clears both flags and keeps the cursor |
| ConferenceView.ConfKeyValid | src/components/ConferenceView.jsx:61-78 | the cursor stays on a lecture and the player opens only over one |
| ConferenceView.RightWraps | src/components/ConferenceView.jsx:61-63 | Right is the cyclic successor over the lectures |
| ConferenceView.LeftStaysInRow | src/components/ConferenceView.jsx:64-71 | Left hands focus to the sidebar exactly from a first column, else moves one cell within the row |
| ConferenceView.DownThenUp | src/components/ConferenceView.jsx:72-78 | Down then Up returns to the same cell when a full row lies below |
| ConferenceView.DownClamps | src/components/ConferenceView.jsx:72-74 | Down from the last row goes to the last lecture |
| ConferenceView.UpClamps | src/components/ConferenceView.jsx:75-78 | Up from the first row goes to the first lecture, otherwise one row up |
| ConferenceView.OpenThenClose | src/components/ConferenceView.jsx:58-60 | opening and closing the player returns to the grid unchanged |
| ConferenceView.AdjustShowsCell | src/components/ConferenceView.jsx:25-45 | a cell that fits is fully in view below the header after the adjustment |
| ConferenceView.AdjustSettles | src/components/ConferenceView.jsx:25-45 | adjusting again does not move the container |
| ConferenceView.VisibleCellStays | src/components/ConferenceView.jsx:25-45 | a visible cell leaves the scroll position alone |
| ConferenceView.RawKey | src/components/ConferenceView.jsx:48-60 | the handler as written: idle without data, with the player open or the sidebar focused; Enter sets both player flags |
| ConferenceView.EmptyConferenceEnterSticks | src/components/ConferenceView.jsx:48-60 | as written, Enter on an empty conference sets the fullscreen flags, renders no player and ignores every later key |
| ConferenceView.EmptyConferenceRightIsNaN | src/components/ConferenceView.jsx:61-63 | as written, Right on an empty conference turns the cursor into NaN |
| ConferenceView.RawAgreesWhenNonEmpty | src/components/ConferenceView.jsx:48-78 | on a non-empty conference the handler as written and the guarded one agree |
| Search.SearchKey | src/components/Search.jsx:137-173 | idle while the sidebar is focused; Escape and 461 close; only Enter on a focused result selects it; Left hands to the sidebar only at caret 0 or outside the input; results are never changed |
| Search.BackspaceDoesNotClose | src/components/Search.jsx:140-142 | Backspace never closes search |
| Search.UpDoesNotWrap | src/components/Search.jsx:150-161 | Up stops at the first result and refocuses the input there |
| Search.DownThenUp | src/components/Search.jsx:143-161 | Down moves into the results and Up comes back |
| Search.EnterNeedsResultFocus | src/components/Search.jsx:162-164 | Enter selects exactly when a result, not the input, has focus |
| Search.QueryChanged | src/components/Search.jsx:43-48 | a blank query clears the results and the cursor; any other starts a request |
| Search.RequestStarted | src/components/Search.jsx:53-54 | a request sets loading and clears the error |
| Search.AudioLanguage | src/components/Search.jsx:97 | the original language, or `eng` |
| Search.ToVideos | src/components/Search.jsx:91-99 | one video per kept recording, with its url, type and the event's language |
| Search.ToSubtitles | src/components/Search.jsx:100-106 | one subtitle per kept recording, with its own language or `eng` |
| Search.Transform | src/components/Search.jsx:80-108 | duration is length else duration; persons default to empty; the videos are exactly the video recordings in their order, each in the event's language; the subtitles are the text/VTT recordings in their order; every subtitle has a language |
| Search.TrackLanguage | src/components/Search.jsx:106 | a subtitle's language is its recording's, or `eng` |
| Search.TransformSubtitles | src/components/Search.jsx:101-107 | a track is a subtitle of the result exactly when some text or VTT recording has its url, type and language (own or `eng`) |
| Search.SearchResultLanguages | src/components/Search.jsx:91-99 | a search result offers an audio language exactly when it has a webm recording and its language lists it |
| Search.ErrorMessage | src/components/Search.jsx:69-77 | aborts set no message; HTTP and format failures, network failures and other errors map to their messages, never empty |
| Search.RequestEnded | src/components/Search.jsx:78-126 | an answer replaces the results and resets the cursor; a failure sets the message and keeps the results; an abort changes nothing |
| Search.HttpMessageNamesStatus | src/components/Search.jsx:69-71 | the HTTP failure message ends with the status code in parentheses, readable back |
| Home.Position | src/components/Home.jsx:68 | the position of a row, falling back to 0: a missing or NaN position reads as 0 |
| Home.Initial | src/components/Home.jsx:18 | the position map is {0..5 -> 0}, the window empty, the player closed |
| Home.JsSlice | src/components/Home.jsx:24-35 | `Array.prototype.slice` with its clamping |
| Home.DataArrived | src/components/Home.jsx:24-35 | at the top the window is the whole list, otherwise at most six rows from the current one, and loading ends; the window stays a slice of the list |
| Home.FetchFailed | src/helpers/helpers.js:101-104 | a failed fetch only clears the loading flag |
| Home.ArrowRight | src/helpers/helpers.js:66-76 | only the active row's entry changes: the carousel's snap when it can scroll, NaN with no slide in view |
| Home.RightCycles | src/helpers/helpers.js:66-76 | a carousel that cannot scroll wraps Right over the slides in view |
| Home.ArrowLeft | src/helpers/helpers.js:78-90 | only the active row's entry changes: the snap, or one less but never below 0 |
| Home.RightThenLeft | src/helpers/helpers.js:66-90 | Right then Left restores the position away from the wrap |
| Home.ArrowDown | src/helpers/helpers.js:91-112 | from two rows up the window drops its front row and advances; it asks for more exactly at three rows, from the end of the list, and sets loading |
| Home.ArrowUp | src/helpers/helpers.js:114-124 | above the top the previous row is put back in front; at the top nothing changes |
| Home.DownThenUp | src/helpers/helpers.js:91-124 | Down then Up restores the window |
| Home.UpThenDown | src/helpers/helpers.js:91-124 | Up then Down restores the window |
| Home.HomeKey | src/components/Home.jsx:41-61 | idle without data; back closes an open player, other keys are ignored then; Enter opens it; only the active row's position changes; a fetch is asked only by Down at three rows |
| Home.OpenThenBack | src/components/Home.jsx:41-61 | Enter then back returns to the same state |
| Home.RepeatedFetch | src/helpers/helpers.js:91-112 | Down, Up, Down asks twice for the same offset: nothing guards a fetch in flight |
| Home.FetchedPageKeepsWindow | src/components/Home.jsx:24-35 | a page merged at the end keeps the window a slice of the list |
| Home.Previewed | src/components/Home.jsx:64-68 | the previewed lecture is row 0's lecture at the active position, when there is one |
| Home.FirstRowMarksPreview | src/components/Home.jsx:81 | the first displayed row's position marks the previewed lecture |
| Home.NaNPositionReadsAsZero | src/components/Home.jsx:68 | a NaN position previews lecture 0 and Right then moves to 1 |
| RecentMerge.Ids | src/index.jsx:33 | the set of ids in the cached list |
| RecentMerge.NewNodes | src/index.jsx:33-34 | the incoming nodes kept are exactly those whose id is not cached, in order |
| RecentMerge.NewNodesAgree | src/index.js:25-29 | the id-list test of `index.js` keeps the same nodes as the id-set test |
| RecentMerge.Placed | src/index.jsx:31-38 | entries below the offset stay, new nodes sit contiguously from the offset, later entries stay |
| RecentMerge.Place | src/index.jsx:35-38 | the writing loop produces exactly that placement |
| RecentMerge.MergeWithIdSet | src/index.jsx:30-40 | the `index.jsx` merge is the placement of the uncached nodes |
| RecentMerge.MergeWithIdList | src/index.js:20-35 | the `index.js` merge gives the same result for every input |
| RecentMerge.PageAtEndAppends | src/index.jsx:30-40 | merging at the end of the list appends the new nodes |
| RecentMerge.KnownPageChangesNothing | src/index.jsx:30-40 | a page of cached ids leaves the list unchanged |
| RecentMerge.MergeKeepsLength | src/index.jsx:31-38 | the list never shrinks and its prefix below the offset is kept |
| RecentMerge.AppendKeepsIdsDistinct | src/index.jsx:30-40 | appending a duplicate-free page to a duplicate-free list keeps ids distinct |
| RecentMerge.RepeatWithinPageSurvives | src/index.jsx:33-34 | duplicates within one page are not removed: dedup is against the cache only |
| ImagePreload.NeighboursFrom | src/hooks/useImagePreload.js:13-23 | exactly the filled slots at distances d..k, ordered by distance, at most 2·(k−d+1) of them |
| ImagePreload.NeighboursOrdered | src/hooks/useImagePreload.js:13-23 | nearest first and, within one distance, the slot before ahead of the slot after; no index twice |
| ImagePreload.Neighbours | src/hooks/useImagePreload.js:13-23 | exactly the filled slots within k of the current one, never the current one, at most 2k |
| ImagePreload.Candidates | src/hooks/useImagePreload.js:13-23 | the neighbour URLs: all non-empty, all from the list, every neighbour's URL included |
| ImagePreload.Fresh | src/hooks/useImagePreload.js:25-31 | the non-empty URLs not loaded before, each once |
| ImagePreload.PreloadStep | src/hooks/useImagePreload.js:4-33 | an empty list does nothing; otherwise only unseen neighbour URLs load, each once, and all neighbours end up seen |
| ImagePreload.EmptyListHasNoCandidates | src/hooks/useImagePreload.js:8 | an empty list has no candidates anyway |
| ImagePreload.LoadedAtMostOnce | src/hooks/useImagePreload.js:25-31 | over any sequence of runs no URL is loaded twice, nor one loaded before |
| ImagePreload.PreloadBatch | src/hooks/useImagePreload.js:36-45 | every non-empty URL is loaded, duplicates included; all are loaded exactly when none is empty |
| Ranking.Insert | src/components/PopularView.jsx:33-39 | insertion adds exactly one element |
| Ranking.InsertSorted | src/components/PopularView.jsx:33-39 | insertion keeps a list sorted |
| Ranking.Sort | src/components/PopularView.jsx:33-39 | the sort is a permutation in descending lexicographic order |
| Ranking.SortIsStable | src/components/EventsListView.jsx:28-32 | elements with equal keys keep their input order |
| Ranking.CutRanksLower | src/components/PopularView.jsx:41 | nothing cut from a sorted list outranks what is kept |
| Popular.ConferenceDate | src/components/PopularView.jsx:22-31 | a conference's date is its last release, else its update time |
| Popular.Tags | src/components/PopularView.jsx:22-31 | each lecture tagged with its conference, in order |
| Popular.InFlatten | src/components/PopularView.jsx:22-31 | an item is listed exactly when it is a lecture of a conference, tagged with it |
| Popular.PopularVideos | src/components/PopularView.jsx:19-42 | empty without data; otherwise min(100, total) items drawn from the lectures, sorted by views then date |
| Popular.NothingBetterLeftOut | src/components/PopularView.jsx:33-41 | no lecture left out outranks one listed |
| Popular.FewVideosAllListed | src/components/PopularView.jsx:19-42 | with at most 100 lectures all are listed, and ties keep the conference order |
| Popular.Choose | src/components/PopularView.jsx:44-47 | choosing plays the item fullscreen |
| Popular.ClosePlayer | src/components/PopularView.jsx:79-82 | closing clears the item and fullscreen |
| EventsList.Released | src/components/EventsListView.jsx:28-32 | the sort date is the last release, else the update time, else 0 |
| EventsList.Initial | src/components/EventsListView.jsx:8-10 | loading, with no list and no error |
| EventsList.Loaded | src/components/EventsListView.jsx:26-40 | loading ends; success gives a newest-first permutation of the answer; failure keeps the list and sets the message |
| EventsList.ErrorIffFailed | src/components/EventsListView.jsx:35-40 | the request ends with an error exactly when it did not succeed |
| EventsList.MissingFieldIsEmpty | src/components/EventsListView.jsx:26 | a missing `conferences` field gives an empty list |
| EventsList.SameDateKeepsIndexOrder | src/components/EventsListView.jsx:28-32 | conferences of the same date keep the index's order |
| EventsList.Chosen | src/components/EventsListView.jsx:46-48 | selecting a listed conference passes its acronym |

## Left out

- Network I/O is outside the model: `fetch`, `AbortController`, Apollo's query transport and
  cache, GraphQL documents and JSON decoding. Their answers are `Outcome` values, and a
  requested page is an effect.
- Timers and the clock are parameters: `setTimeout`, `setInterval`, `requestAnimationFrame`
  and `Date.now`. Deferred focus and play calls are applied at once. The controls' timer is an
  explicit `Expire` event.
- DOM and library state are outside the model:
  - `scrollIntoView` and `.focused` class toggling;
  - `<track>` element creation and blob URLs;
  - `window.location.reload` and `alert`, which appear as the effects `Reload` and
    `WatchlistClearedAlert`;
  - the embla carousel API, whose answers are the `Home.Carousel` input.
- The SRT cue-splitting regular expression (`subtitleConverter.js:48`) is not modelled as a
  matcher. The conversion starts from the (number, start, end, text block) cues it is meant
  to find. As written, the regex captures only each cue's first text line. Its `m` flag
  lets `$` end the lazy text group at the first line end, so multi-line cues are
  truncated. `SrtVtt.CapturedText` models that capture and "## Findings" records it. The
  cleaning lemmas (`TrimAndDropBlankKeeps`, `CollectCuesKeeps`) describe the whole-block
  behaviour the pattern evidently intends. A cue block with no text line at all is outside
  `CapturedText`: there the lazy group runs into the next cue's number line.
- `Common.Trim` and `Common.Lower` handle ASCII whitespace and letters only. JavaScript's
  Unicode `trim` and `toLowerCase` are not modelled.
- Dates are integer timestamps. Invalid-date NaN comparisons in the sorts are not modelled.
- Floating-point time in the player is `real`. Rounding of the HTML media clock is not
  modelled. A `real` duration cannot be NaN. Before the metadata loads the source's
  `duration || 0` (usePlayerKeyboard.js:102) makes a seek go to 0; `PlayerKeyboard.Seek`
  does not model that case.
- RecentMerge.Placed: requires `offset <= |existing|`. Apollo passes 0 or the current length;
  a larger offset would leave a sparse JavaScript array, which has no counterpart here.
- Playback.TimeUpdate: the source clears the language-switch time and resets the start time
  one second after the update (usePlaybackPosition.js:71-76). The model applies the reset at
  the update itself, so the timers still pending from updates within that second are not
  modelled.
- Popular.Choose and Popular.ClosePlayer only set the two flags. The player they open is
  modelled separately.
- Rendering-only components are not part of this model: `ListView.jsx`, `WatchlistView.jsx`,
  `SelectorModal.jsx`, `Preview.jsx`/`.js`, `EventCarousel.jsx`/`.js`, `ItemCard.js`,
  `ErrorBoundary.jsx` and `OfflineBanner.jsx`. Their logic repeats rules modelled here, or is
  markup and `Math.random`.
- The legacy parallel files are not part of this model: `App.js`, `App.jsx`,
  `views/Main.js`, `views/Event.js` and `components/Player.js`. `getVideo` supersedes their
  one-line video lookup.
- Build configuration is not modelled, and neither is the `ResizeObserver` error suppression
  in `index.jsx`.
- The watchlist's change notification (a window event) is not modelled. Only the store
  contents are.

## Findings

| source | as written | input that shows it | evidently intended | confidence | as-written member | corrected member |
|---|---|---|---|---|---|---|
| src/components/ConferenceView.jsx:48-60 | the key handler guards on the data, the open player and the sidebar, but not on an empty lecture list, and Enter sets `playerIsOpen` and fullscreen | a conference whose `lectures.nodes` is empty: press Enter | ignore keys when there are no lectures. As written, the view renders "No videos found" with no player, so `onClose` can never clear the flags; fullscreen hides the sidebar and every later key is ignored. Right also computes `% 0`, giving NaN | medium, not executed | ConferenceView.EmptyConferenceEnterSticks | ConferenceView.ConfKey |
| src/helpers/subtitleConverter.js:48 | the text group `([\s\S]*?)` is lazy, and under the `m` flag its `$` alternative matches at every line end | a cue `1`, `00:00:01,000 --> 00:00:02,000`, `Hello`, `World` | the text runs to the next cue header, so the cue reads `Hello` and `World`; as written it reads `Hello` and `World` is skipped | high, not executed | SrtVtt.MultiLineCueTruncated | SrtVtt.CollectCuesKeeps |
