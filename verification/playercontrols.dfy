/** What the player component derives from the event and its state
    (`Player/index.js`): the audio languages on offer, the language chosen
    when the event loads, the button labels, the list of on-screen controls,
    the address handed to the video element and the subtitle track. */
module PlayerControls {
  import opened Common
  import opened Media
  import opened Constants
  import Decimal
  import VideoSelect

  const AUTO := "auto"

  /** A recording that contributes audio languages: webm, with a url and a
      language tag. */
  predicate IsAudioSource(v: Video) {
    v.mimeType == VideoSelect.WEBM && v.url != "" && v.language != ""
  }

  function TracksOf(v: Video): seq<string> {
    VideoSelect.Tracks(v)
  }

  /** The distinct language tags of the webm recordings, multi-track tags
      split at '-', in order of first occurrence. */
  function AvailableLanguages(videos: seq<Video>): (r: seq<string>)
    ensures NoDuplicates(r)
    ensures InFirstOccurrenceOrder(r, Concat(Map(Filter(videos, IsAudioSource), TracksOf)))
  {
    var tracks := Concat(Map(Filter(videos, IsAudioSource), TracksOf));
    DistinctOrder(tracks);
    Distinct(tracks)
  }

  /** A language is offered exactly when some webm recording with a url
      carries it, alone or as one track of several. */
  lemma AvailableLanguagesMembers(videos: seq<Video>, l: string)
    ensures l in AvailableLanguages(videos) <==>
      exists i :: 0 <= i < |videos| && IsAudioSource(videos[i]) && l in VideoSelect.Tracks(videos[i])
  {
    var sources := Filter(videos, IsAudioSource);
    var tracks := Map(sources, TracksOf);
    InConcat(tracks, l);
    if l in AvailableLanguages(videos) {
      var k :| 0 <= k < |tracks| && l in tracks[k];
      assert sources[k] in sources;
      var i :| 0 <= i < |videos| && videos[i] == sources[k];
      assert IsAudioSource(videos[i]) && l in VideoSelect.Tracks(videos[i]);
    }
    if exists i :: 0 <= i < |videos| && IsAudioSource(videos[i]) && l in VideoSelect.Tracks(videos[i]) {
      var i :| 0 <= i < |videos| && IsAudioSource(videos[i]) && l in VideoSelect.Tracks(videos[i]);
      assert videos[i] in sources;
      var k :| 0 <= k < |sources| && sources[k] == videos[i];
      assert l in tracks[k];
    }
  }

  /** The first offered language is the first track of the first webm
      recording with a url and a language, and it is what the player picks
      when the preference is not on offer. */
  lemma FirstOfferedLanguage(videos: seq<Video>, i: int, preferred: string, current: string)
    requires 0 <= i < |videos| && IsAudioSource(videos[i])
    requires forall j :: 0 <= j < i ==> !IsAudioSource(videos[j])
    ensures |AvailableLanguages(videos)| > 0
    ensures AvailableLanguages(videos)[0] == VideoSelect.Tracks(videos[i])[0]
    ensures preferred !in AvailableLanguages(videos) ==>
      InitialLanguage(AvailableLanguages(videos), preferred, current) == VideoSelect.Tracks(videos[i])[0]
  {
    var before := videos[..i];
    var from := videos[i..];
    assert videos == before + from;
    FilterAppend(before, from, IsAudioSource);
    FilterNone(before, IsAudioSource);
    var sources := Filter(videos, IsAudioSource);
    assert sources == Filter(from, IsAudioSource);
    assert sources[0] == videos[i];
    var lists := Map(sources, TracksOf);
    assert lists[0] == VideoSelect.Tracks(videos[i]);
    var tracks := Concat(lists);
    assert tracks == lists[0] + Concat(lists[1..]);
    assert tracks[0] == VideoSelect.Tracks(videos[i])[0];
    DistinctOrder(tracks);
  }

  function HasMultipleLanguages(available: seq<string>): bool {
    |available| > 1
  }

  /** The language set when the event or the offer changes: the preference
      if offered, else the first offered language; with nothing offered the
      current language stays. */
  function InitialLanguage(available: seq<string>, preferred: string, current: string): (r: string)
    ensures |available| > 0 ==> r in available
    ensures preferred in available ==> r == preferred
    ensures |available| > 0 && preferred !in available ==> r == available[0]
    ensures |available| == 0 ==> r == current
  {
    if |available| > 0 then
      if preferred in available then preferred else available[0]
    else current
  }

  /** Once a language is chosen from the offer, the recording chooser finds
      it: the best recording for it carries that language as a track. */
  lemma ChosenLanguageIsFound(videos: seq<Video>, preferred: string, current: string, w: int)
    requires var l := InitialLanguage(AvailableLanguages(videos), preferred, current);
      l != AUTO && (|AvailableLanguages(videos)| > 0 || l in AvailableLanguages(videos))
    requires VideoSelect.IsBest(videos, InitialLanguage(AvailableLanguages(videos), preferred, current), w)
    ensures var l := InitialLanguage(AvailableLanguages(videos), preferred, current);
      VideoSelect.Priority(videos[w], l) >= MULTI_MP4 && l in VideoSelect.Tracks(videos[w])
  {
    var l := InitialLanguage(AvailableLanguages(videos), preferred, current);
    AvailableLanguagesMembers(videos, l);
    var i :| 0 <= i < |videos| && IsAudioSource(videos[i]) && l in VideoSelect.Tracks(videos[i]);
    assert VideoSelect.IsCandidate(videos[i]);
    assert VideoSelect.Priority(videos[i], l) >= MULTI_MP4;
  }

  /** Opening the language selector highlights the chosen language. */
  lemma SelectorShowsChoice(available: seq<string>, preferred: string, current: string)
    requires |available| > 0
    ensures var l := InitialLanguage(available, preferred, current);
      IndexOrZero(available, l) < |available| && available[IndexOrZero(available, l)] == l
  {
  }

  /** The readable name of a code, each track of a multi-track tag named on
      its own. */
  function NamedTracks(recordingLanguage: string): string {
    Join(Map(Split(recordingLanguage, '-'), NameOr), "-")
  }

  /** The language button's label. `recordingLanguage` is the language tag
      of the recording playing ("" when it has none). */
  function LanguageLabel(language: string, recordingLanguage: string): (r: string)
    ensures language == AUTO && recordingLanguage != "" ==>
      StartsWith(r, "Auto (") && r[|r| - 1] == ')'
    ensures (language != AUTO || recordingLanguage == "") && '-' in recordingLanguage ==>
      StartsWith(r, "Multi-Audio (") && r[|r| - 1] == ')' && r[13..|r| - 1] == NameOr(language)
    ensures (language != AUTO || recordingLanguage == "") && '-' !in recordingLanguage ==> r == NameOr(language)
  {
    if language == AUTO && recordingLanguage != "" then
      if '-' in recordingLanguage then "Auto (" + NamedTracks(recordingLanguage) + ")"
      else "Auto (" + NameOr(recordingLanguage) + ")"
    else if '-' in recordingLanguage then "Multi-Audio (" + NameOr(language) + ")"
    else NameOr(language)
  }

  /** The two "Auto" forms agree: a single-track tag is the one-track case
      of naming every track. */
  lemma AutoLabelNamesEveryTrack(recordingLanguage: string)
    requires recordingLanguage != ""
    ensures LanguageLabel(AUTO, recordingLanguage) == "Auto (" + NamedTracks(recordingLanguage) + ")"
  {
    if '-' !in recordingLanguage {
      SplitNoSep(recordingLanguage, '-');
      assert Map([recordingLanguage], NameOr) == [NameOr(recordingLanguage)];
    }
  }

  /** A language of the audio grid other than "auto", played from a
      single-track recording, is labelled with its display name. */
  lemma GridLanguageLabel(i: int, recordingLanguage: string)
    requires 1 <= i < |LANGUAGES| && '-' !in recordingLanguage
    ensures LanguageLabel(LANGUAGES[i].code, recordingLanguage) == LANGUAGES[i].name
  {
    LanguageNamesCover();
    OnlyFirstIsAuto();
  }

  /** The subtitle button's label. */
  function SubtitleLabel(subtitleLanguage: string): (r: string)
    ensures subtitleLanguage == "none" <==> r == "Subtitles Off"
    ensures subtitleLanguage != "none" ==>
      StartsWith(r, "Subtitles (") && r[|r| - 1] == ')' && r[11..|r| - 1] == NameOr(subtitleLanguage)
  {
    if subtitleLanguage == "none" then "Subtitles Off"
    else
      var r := "Subtitles (" + NameOr(subtitleLanguage) + ")";
      assert r[10] == '(' && "Subtitles Off"[10] == 'O';
      r
  }

  /** Where a custom control sends its press. */
  datatype Handler = MutePress | WatchlistPress | LanguagePress | SubtitlePress

  datatype ControlAction = SkipBack | PlayPause | SkipForward | Custom(handler: Handler)

  datatype Control = Control(action: ControlAction, text: string)

  /** `customButtons`: the three transport controls, mute and watchlist,
      then the language button when several languages are offered and the
      subtitle button when subtitles exist. */
  function ControlList(isMuted: bool, isInWatchlist: bool, hasMultipleLanguages: bool, hasSubtitles: bool,
                       languageLabel: string, subtitleLanguage: string): (r: seq<Control>)
    ensures |r| == 5 + (if hasMultipleLanguages then 1 else 0) + (if hasSubtitles then 1 else 0)
    ensures r[0].action == SkipBack && r[1].action == PlayPause && r[2].action == SkipForward
    ensures r[3] == Control(Custom(MutePress), if isMuted then "Unmute" else "Mute")
    ensures r[4] == Control(Custom(WatchlistPress), if isInWatchlist then "In Watchlist" else "Add to Watchlist")
    ensures forall i :: 0 <= i < |r| ==> (r[i].action == Custom(LanguagePress) <==> hasMultipleLanguages && i == 5)
    ensures forall i :: 0 <= i < |r| ==> (r[i].action == Custom(SubtitlePress) <==> hasSubtitles && i == |r| - 1)
    ensures hasMultipleLanguages ==> r[5].text == languageLabel
    ensures hasSubtitles ==> r[|r| - 1].text == SubtitleLabel(subtitleLanguage)
  {
    var mute := Control(Custom(MutePress), if isMuted then "Unmute" else "Mute");
    var watchlist := Control(Custom(WatchlistPress), if isInWatchlist then "In Watchlist" else "Add to Watchlist");
    var language := Control(Custom(LanguagePress), languageLabel);
    var subtitle := Control(Custom(SubtitlePress), SubtitleLabel(subtitleLanguage));
    var back, play, forward := Control(SkipBack, ""), Control(PlayPause, ""), Control(SkipForward, "");
    if hasMultipleLanguages && hasSubtitles then [back, play, forward, mute, watchlist, language, subtitle]
    else if hasMultipleLanguages then [back, play, forward, mute, watchlist, language]
    else if hasSubtitles then [back, play, forward, mute, watchlist, subtitle]
    else [back, play, forward, mute, watchlist]
  }

  /** The address given to the video element: none without a recording
      (the component renders "404"), else the recording's url with a
      `#t=<whole seconds>` fragment when the start time is positive. */
  function VideoUrl(recording: Option<Video>, startTime: real): (r: Option<string>)
    ensures r.None? <==> recording.None?
    ensures recording.Some? && startTime <= 0.0 ==> r.value == recording.value.url
    ensures recording.Some? && startTime > 0.0 ==> |r.value| > |recording.value.url| + 3
  {
    match recording
    case None => None
    case Some(v) =>
      if startTime > 0.0 then Some(v.url + "#t=" + Decimal.Show(startTime.Floor)) else Some(v.url)
  }

  /** The fragment reads back as the whole seconds of the start time, after
      the recording's own url. */
  lemma VideoUrlReadsBack(v: Video, startTime: real)
    requires startTime > 0.0
    ensures var u := VideoUrl(Some(v), startTime).value;
      var n := |v.url|;
      u[..n] == v.url && u[n..n + 3] == "#t=" && Decimal.AllDigits(u[n + 3..]) &&
      Decimal.Value(u[n + 3..]) as real <= startTime < Decimal.Value(u[n + 3..]) as real + 1.0
  {
    var n := |v.url|;
    var digits := Decimal.Show(startTime.Floor);
    var u := v.url + "#t=" + digits;
    assert u[n + 3..] == digits;
    Decimal.ValueShow(startTime.Floor);
  }

  /** The subtitle track handed to the player. */
  datatype Track = Track(src: string, srcLang: string, name: string)

  /** `LANG_CODE_MAP[code] || code`. */
  function TwoLetter(code: string): string {
    if code in LANG_CODE_MAP && LANG_CODE_MAP[code] != "" then LANG_CODE_MAP[code] else code
  }

  /** `subtitleConfig`: a track only when a subtitle is loaded and the
      choice is not "none". `activeSubtitle` is "" when nothing is loaded. */
  function TrackConfig(subtitleLanguage: string, activeSubtitle: string): (r: Option<Track>)
    ensures r.Some? <==> activeSubtitle != "" && subtitleLanguage != "none"
    ensures r.Some? ==> r.value.src == activeSubtitle && r.value.name == NameOr(subtitleLanguage)
  {
    if activeSubtitle != "" && subtitleLanguage != "none" then
      Some(Track(activeSubtitle, TwoLetter(subtitleLanguage), NameOr(subtitleLanguage)))
    else None
  }

  /** Every language of the subtitle grid other than "none" is declared to
      the player by its two-letter code and labelled with its grid name. */
  lemma GridTrackConfig(i: int, activeSubtitle: string)
    requires 1 <= i < |SUBTITLE_LANGUAGES| && activeSubtitle != ""
    ensures var t := TrackConfig(SUBTITLE_LANGUAGES[i].code, activeSubtitle);
      t.Some? && t.value.srcLang == LANG_CODE_MAP[SUBTITLE_LANGUAGES[i].code] &&
      |t.value.srcLang| == 2 && t.value.name == SUBTITLE_LANGUAGES[i].name
  {
    SubtitleTail();
    assert SUBTITLE_LANGUAGES[i] == LANGUAGES[i];
    GridTrack(i, activeSubtitle);
  }

  lemma GridTrack(i: int, activeSubtitle: string)
    requires 1 <= i < |LANGUAGES| && activeSubtitle != ""
    ensures var code := LANGUAGES[i].code;
      code in LANG_CODE_MAP &&
      TrackConfig(code, activeSubtitle) == Some(Track(activeSubtitle, LANG_CODE_MAP[code], LANGUAGES[i].name)) &&
      |LANG_CODE_MAP[code]| == 2
  {
    var code := LANGUAGES[i].code;
    LangCodeMapCovers();
    OnlyFirstIsAuto();
    assert code in LANG_CODE_MAP;
    TwoLetterCodes(code);
    GridName(i);
  }

  /** A grid language's code names it. */
  lemma GridName(i: int)
    requires 0 <= i < |LANGUAGES|
    ensures NameOr(LANGUAGES[i].code) == LANGUAGES[i].name
  {
    LanguageNamesCover();
    NamedLanguages(i);
  }

  lemma NamedLanguages(i: int)
    requires 0 <= i < |LANGUAGES|
    ensures LANGUAGES[i].name != ""
  {
  }

  lemma TwoLetterCodes(code: string)
    requires code in LANG_CODE_MAP
    ensures |LANG_CODE_MAP[code]| == 2
  {
  }
}
