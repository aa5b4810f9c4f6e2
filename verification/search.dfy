/** The search screen (`Search.jsx`): the result cursor and the input's
    focus under the remote's keys, the reaction to a settled query, the
    mapping of the search API's answer onto the lecture record, and the
    message shown for each kind of failure. */
module Search {
  import opened Common
  import opened Media
  import Decimal
  import PlayerControls
  import VideoSelect

  /** The screen's state: the results, the cursor and whether the text
      input holds the focus. */
  datatype SearchState = SearchState(results: seq<Event>, index: int, inputFocused: bool, loading: bool, error: Option<string>)

  datatype SearchEffect = NoEffect | Close | FocusSidebar | SelectEvent(event: Event)

  datatype SearchStep = SearchStep(state: SearchState, effect: SearchEffect)

  predicate Valid(s: SearchState) {
    |s.results| == 0 || 0 <= s.index < |s.results|
  }

  /** One keydown. `caret` is the input's selection start (0 when absent). */
  function SearchKey(s: SearchState, e: KeyEvent, caret: int, sidebarFocused: bool): (r: SearchStep)
    requires Valid(s)
    ensures Valid(r.state)
    ensures sidebarFocused ==> r == SearchStep(s, NoEffect)
    ensures !sidebarFocused && (e.key == "Escape" || e.code == 461) ==> r == SearchStep(s, Close)
    ensures r.effect.SelectEvent? ==> e.key == "Enter" && |s.results| > 0 && !s.inputFocused && r.effect.event == s.results[s.index]
    ensures r.effect == FocusSidebar ==> e.key == "ArrowLeft" && (caret == 0 || !s.inputFocused) && !r.state.inputFocused
    ensures r.state.results == s.results
  {
    var n := |s.results|;
    if sidebarFocused then SearchStep(s, NoEffect)
    else if e.key == "Escape" || e.code == 461 then SearchStep(s, Close)
    else if e.key == "ArrowDown" then
      if n > 0 then SearchStep(s.(inputFocused := false, index := JsRem(s.index + 1, n)), NoEffect)
      else SearchStep(s, NoEffect)
    else if e.key == "ArrowUp" then
      if n > 0 then
        if s.index == 0 then SearchStep(s.(inputFocused := true, index := 0), NoEffect)
        else SearchStep(s.(index := JsRem(s.index - 1 + n, n)), NoEffect)
      else SearchStep(s, NoEffect)
    else if e.key == "Enter" && n > 0 && !s.inputFocused then SearchStep(s, SelectEvent(s.results[s.index]))
    else if e.key == "ArrowLeft" then
      if caret == 0 || !s.inputFocused then SearchStep(s.(inputFocused := false), FocusSidebar)
      else SearchStep(s, NoEffect)
    else SearchStep(s, NoEffect)
  }

  /** Backspace edits the query and does not close the screen. */
  lemma BackspaceDoesNotClose(s: SearchState, caret: int)
    requires Valid(s)
    ensures SearchKey(s, KeyEvent("Backspace", 8), caret, false).effect != Close
  {
  }

  /** Up does not wrap: from the first result it returns to the input and
      otherwise moves one result up. */
  lemma UpDoesNotWrap(s: SearchState, code: int, caret: int)
    requires Valid(s) && |s.results| > 0 && code != 461
    ensures var r := SearchKey(s, KeyEvent("ArrowUp", code), caret, false).state;
      (s.index == 0 ==> r.index == 0 && r.inputFocused) &&
      (s.index > 0 ==> r.index == s.index - 1 && r.inputFocused == s.inputFocused)
  {
  }

  /** Down leaves the input and moves to the next result, cyclically; Up
      from there comes back, unless Down wrapped to the top. */
  lemma DownThenUp(s: SearchState, code: int, caret: int)
    requires Valid(s) && |s.results| > 0 && code != 461 && s.index + 1 < |s.results|
    ensures var down := SearchKey(s, KeyEvent("ArrowDown", code), caret, false).state;
      !down.inputFocused && down.index == s.index + 1 &&
      SearchKey(down, KeyEvent("ArrowUp", code), caret, false).state.index == s.index
  {
    var down := s.(inputFocused := false, index := s.index + 1);
    assert SearchKey(s, KeyEvent("ArrowDown", code), caret, false).state == down;
    UpDoesNotWrap(down, code, caret);
  }

  /** Enter opens the result under the cursor only once the input has been
      left; with the input focused it types into the query. */
  lemma EnterNeedsResultFocus(s: SearchState, code: int, caret: int)
    requires Valid(s) && |s.results| > 0 && code != 461
    ensures var r := SearchKey(s, KeyEvent("Enter", code), caret, false);
      (r.effect.SelectEvent? <==> !s.inputFocused) && r.state == s
  {
  }

  /** The reaction to a new settled query: a blank one clears the results
      and the cursor without asking the server; any other starts a request
      (`None` here means a request is made). */
  function QueryChanged(s: SearchState, query: string): (r: Option<SearchState>)
    ensures Trim(query) == [] ==> r == Some(s.(results := [], index := 0))
    ensures Trim(query) != [] ==> r.None?
  {
    if Trim(query) == [] then Some(s.(results := [], index := 0)) else None
  }

  /** The state while the request runs. */
  function RequestStarted(s: SearchState): (r: SearchState)
    ensures r.loading && r.error.None? && r.results == s.results && r.index == s.index
  {
    s.(loading := true, error := None)
  }

  /** One recording of the search API. */
  datatype Recording = Recording(url: string, mimeType: string, language: string)

  /** One event of the search API; a missing `length` is 0 and missing
      `persons` is `None`. */
  datatype ApiEvent = ApiEvent(
    guid: string,
    title: string,
    length: int,
    duration: int,
    viewCount: int,
    persons: Option<seq<string>>,
    conferenceTitle: string,
    thumbUrl: string,
    originalLanguage: string,
    recordings: seq<Recording>)

  const DEFAULT_LANGUAGE := "eng"

  predicate IsVideo(r: Recording) {
    r.mimeType != "" && Contains(r.mimeType, "video")
  }

  predicate IsSubtitle(r: Recording) {
    r.mimeType != "" && (Contains(r.mimeType, "text") || Contains(r.mimeType, "vtt"))
  }

  /** Every video takes the event's original language, "eng" if it has
      none. */
  function AudioLanguage(a: ApiEvent): (l: string)
    ensures l != ""
    ensures a.originalLanguage != "" ==> l == a.originalLanguage
  {
    if a.originalLanguage != "" then a.originalLanguage else DEFAULT_LANGUAGE
  }

  /** A subtitle track takes its recording's language, "eng" if it has
      none. */
  function TrackLanguage(r: Recording): (l: string)
    ensures l != ""
    ensures r.language != "" ==> l == r.language
  {
    if r.language != "" then r.language else DEFAULT_LANGUAGE
  }

  function ToVideos(rs: seq<Recording>, language: string): (r: seq<Video>)
    ensures |r| == |rs|
    ensures forall i :: 0 <= i < |rs| ==> r[i] == Video(rs[i].url, rs[i].mimeType, language)
  {
    seq(|rs|, i requires 0 <= i < |rs| => Video(rs[i].url, rs[i].mimeType, language))
  }

  function ToSubtitles(rs: seq<Recording>): (r: seq<SubtitleTrack>)
    ensures |r| == |rs|
    ensures forall i :: 0 <= i < |rs| ==>
      r[i] == SubtitleTrack(rs[i].url, rs[i].mimeType, TrackLanguage(rs[i]))
  {
    seq(|rs|, i requires 0 <= i < |rs| =>
      SubtitleTrack(rs[i].url, rs[i].mimeType, TrackLanguage(rs[i])))
  }

  /** The API event as a lecture record: duration from `length` if set,
      persons defaulting to none, the video recordings with the event's
      language and the text recordings as subtitles. */
  function Transform(a: ApiEvent): (e: Event)
    ensures e.guid == a.guid && e.title == a.title && e.viewCount == a.viewCount
    ensures e.duration == (if a.length != 0 then a.length else a.duration)
    ensures a.persons.None? ==> e.persons == []
    ensures a.persons.Some? ==> e.persons == a.persons.value
    ensures forall v :: v in e.videos <==>
      exists r :: r in a.recordings && IsVideo(r) && v == Video(r.url, r.mimeType, AudioLanguage(a))
    ensures forall t :: t in e.subtitles ==> t.language != ""
    ensures e.videos == ToVideos(Filter(a.recordings, IsVideo), AudioLanguage(a))
    ensures e.subtitles == ToSubtitles(Filter(a.recordings, IsSubtitle))
  {
    var videos := Filter(a.recordings, IsVideo);
    var subs := Filter(a.recordings, IsSubtitle);
    var vs := ToVideos(videos, AudioLanguage(a));
    assert forall v :: v in vs <==> exists r :: r in a.recordings && IsVideo(r) && v == Video(r.url, r.mimeType, AudioLanguage(a)) by {
      forall v | v in vs
        ensures exists r :: r in a.recordings && IsVideo(r) && v == Video(r.url, r.mimeType, AudioLanguage(a))
      {
        var i :| 0 <= i < |vs| && vs[i] == v;
        assert videos[i] in videos;
      }
      forall v | exists r :: r in a.recordings && IsVideo(r) && v == Video(r.url, r.mimeType, AudioLanguage(a))
        ensures v in vs
      {
        var r :| r in a.recordings && IsVideo(r) && v == Video(r.url, r.mimeType, AudioLanguage(a));
        assert r in videos;
        var i :| 0 <= i < |videos| && videos[i] == r;
        assert vs[i] == v;
      }
    }
    Event(a.guid, a.title, if a.length != 0 then a.length else a.duration, a.viewCount,
      if a.persons.Some? then a.persons.value else [], a.conferenceTitle, a.thumbUrl, vs, ToSubtitles(subs))
  }

  /** The subtitles of a search result are exactly its text and VTT
      recordings, each in its own language or, lacking one, in English. */
  lemma TransformSubtitles(a: ApiEvent)
    ensures forall t :: t in Transform(a).subtitles <==>
      exists r :: r in a.recordings && IsSubtitle(r) && t == SubtitleTrack(r.url, r.mimeType, TrackLanguage(r))
  {
    var subs := Filter(a.recordings, IsSubtitle);
    var ts := Transform(a).subtitles;
    forall t | t in ts
      ensures exists r :: r in a.recordings && IsSubtitle(r) && t == SubtitleTrack(r.url, r.mimeType, TrackLanguage(r))
    {
      var i :| 0 <= i < |ts| && ts[i] == t;
      assert subs[i] in subs;
    }
    forall t | exists r :: r in a.recordings && IsSubtitle(r) && t == SubtitleTrack(r.url, r.mimeType, TrackLanguage(r))
      ensures t in ts
    {
      var r :| r in a.recordings && IsSubtitle(r) && t == SubtitleTrack(r.url, r.mimeType, TrackLanguage(r));
      assert r in subs;
      var i :| 0 <= i < |subs| && subs[i] == r;
      assert ts[i] == t;
    }
  }

  /** A search result offers exactly the tracks of the event's language as
      audio languages, and those only when it has a webm recording with a
      url. */
  lemma SearchResultLanguages(a: ApiEvent, l: string)
    ensures l in PlayerControls.AvailableLanguages(Transform(a).videos) <==>
      HasWebm(a) && l in Split(AudioLanguage(a), '-')
  {
    if l in PlayerControls.AvailableLanguages(Transform(a).videos) {
      OfferedLanguage(a, l);
    }
    if HasWebm(a) && l in Split(AudioLanguage(a), '-') {
      LanguageOffered(a, l);
    }
  }

  lemma OfferedLanguage(a: ApiEvent, l: string)
    requires l in PlayerControls.AvailableLanguages(Transform(a).videos)
    ensures HasWebm(a) && l in Split(AudioLanguage(a), '-')
  {
    var e := Transform(a);
    PlayerControls.AvailableLanguagesMembers(e.videos, l);
    var i :| 0 <= i < |e.videos| && PlayerControls.IsAudioSource(e.videos[i]) && l in VideoSelect.Tracks(e.videos[i]);
    OfferedFromWebm(a, e.videos[i]);
  }

  lemma LanguageOffered(a: ApiEvent, l: string)
    requires HasWebm(a) && l in Split(AudioLanguage(a), '-')
    ensures l in PlayerControls.AvailableLanguages(Transform(a).videos)
  {
    var e := Transform(a);
    var r :| r in a.recordings && IsVideo(r) && r.mimeType == VideoSelect.WEBM && r.url != "";
    var v := Video(r.url, r.mimeType, AudioLanguage(a));
    WebmOffered(a, r);
    var i :| 0 <= i < |e.videos| && e.videos[i] == v;
    assert PlayerControls.IsAudioSource(e.videos[i]) && l in VideoSelect.Tracks(e.videos[i]);
    PlayerControls.AvailableLanguagesMembers(e.videos, l);
  }

  /** A webm video recording with a url. */
  predicate HasWebm(a: ApiEvent) {
    exists r :: r in a.recordings && IsVideo(r) && r.mimeType == VideoSelect.WEBM && r.url != ""
  }

  lemma WebmOffered(a: ApiEvent, r: Recording)
    requires r in a.recordings && IsVideo(r)
    ensures Video(r.url, r.mimeType, AudioLanguage(a)) in Transform(a).videos
  {
  }

  lemma OfferedFromWebm(a: ApiEvent, v: Video)
    requires v in Transform(a).videos && PlayerControls.IsAudioSource(v)
    ensures HasWebm(a) && v.language == AudioLanguage(a)
  {
    var r :| r in a.recordings && IsVideo(r) && v == Video(r.url, r.mimeType, AudioLanguage(a));
    assert r.mimeType == VideoSelect.WEBM && r.url != "";
  }

  /** How a request ended. `Failed` carries the error's name and message. */
  datatype Outcome =
    | Answered(events: seq<ApiEvent>)
    | HttpError(statusText: string, status: nat)
    | NoEvents
    | Failed(name: string, message: string)

  const NETWORK_MESSAGE := "Network error. Please check your internet connection or try again later."
  const FALLBACK_MESSAGE := "An error occurred while searching"
  const FORMAT_MESSAGE := "Invalid API response format"

  /** The message of a failed request; `None` for an aborted one. */
  function ErrorMessage(o: Outcome): (r: Option<string>)
    requires !o.Answered?
    ensures o.Failed? && o.name == "AbortError" <==> r.None?
    ensures o.HttpError? ==> r == Some("Search failed: " + o.statusText + " (" + Decimal.Show(o.status) + ")")
    ensures o.NoEvents? ==> r == Some(FORMAT_MESSAGE)
    ensures o.Failed? && o.name == "TypeError" && Contains(o.message, "Failed to fetch") ==> r == Some(NETWORK_MESSAGE)
    ensures o.Failed? && o.name != "AbortError" && !(o.name == "TypeError" && Contains(o.message, "Failed to fetch")) ==>
      r == Some(if o.message != "" then o.message else FALLBACK_MESSAGE)
    ensures r.Some? ==> r.value != ""
  {
    match o
    case HttpError(text, status) => Some("Search failed: " + text + " (" + Decimal.Show(status) + ")")
    case NoEvents => Some(FORMAT_MESSAGE)
    case Failed(name, message) =>
      if name == "AbortError" then None
      else if name == "TypeError" && Contains(message, "Failed to fetch") then Some(NETWORK_MESSAGE)
      else if message != "" then Some(message)
      else Some(FALLBACK_MESSAGE)
  }

  /** The end of a request: results and cursor reset on an answer, the
      message set on a failure, and loading cleared unless the request was
      aborted (a newer query took over). */
  function RequestEnded(s: SearchState, o: Outcome): (r: SearchState)
    ensures o.Answered? ==> r.results == Map(o.events, Transform) && r.index == 0 && !r.loading
    ensures !o.Answered? && ErrorMessage(o).Some? ==> r.error == ErrorMessage(o) && !r.loading && r.results == s.results
    ensures !o.Answered? && ErrorMessage(o).None? ==> r == s
    ensures Valid(s) ==> Valid(r)
  {
    if o.Answered? then s.(results := Map(o.events, Transform), index := 0, loading := false)
    else
      match ErrorMessage(o)
      case None => s
      case Some(m) => s.(error := Some(m), loading := false)
  }

  /** The status code in an HTTP failure message reads back. */
  lemma HttpMessageNamesStatus(text: string, status: nat)
    ensures var m := ErrorMessage(HttpError(text, status)).value;
      var start := |"Search failed: " + text + " ("|;
      m[|m| - 1] == ')' && Decimal.AllDigits(m[start..|m| - 1]) && Decimal.Value(m[start..|m| - 1]) == status
  {
    var m := ErrorMessage(HttpError(text, status)).value;
    var start := |"Search failed: " + text + " ("|;
    assert m[start..|m| - 1] == Decimal.Show(status);
    Decimal.ValueShow(status);
  }
}
