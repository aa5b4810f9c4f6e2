/** The player's remote-control handler (`usePlayerKeyboard`): stop and
    back take precedence, an open selector captures the arrows, Enter and
    back, and otherwise the keys drive playback, seeking and a ring of
    on-screen controls. Delayed focus moves (`setTimeout`,
    `requestAnimationFrame`) are applied within the same step. */
module PlayerKeyboard {
  import opened Common
  import opened ControlsVisibility
  import Playback

  /** An on-screen control as the handler sees it in the document. */
  datatype Button = Button(text: string, ariaLabel: string, disabled: bool)

  const LANGUAGE_KEYWORDS: seq<string> := [
    "german", "english", "french", "spanish", "italian", "portuguese",
    "russian", "japanese", "chinese", "arabic", "polish", "dutch",
    "czech", "finnish", "swiss", "multi-audio", "auto ("]
  const SUBTITLE_KEYWORDS: seq<string> := ["subtitle", "subtitles"]
  const PLAY_PAUSE_KEYWORDS: seq<string> := ["play", "pause"]
  const REWIND_KEYWORDS: seq<string> := ["back", "rewind", "backward"]
  const FORWARD_KEYWORDS: seq<string> := ["forward", "skip"]
  const MUTE_KEYWORDS: seq<string> := ["mute", "volume", "unmute"]
  const WATCHLIST_KEYWORDS: seq<string> := ["watchlist"]

  /** The lower-cased text and aria label, joined by a space. */
  function Combined(b: Button): string {
    Lower(b.text) + " " + Lower(b.ariaLabel)
  }

  predicate Mentions(s: string, keywords: seq<string>) {
    exists k :: 0 <= k < |keywords| && Contains(s, keywords[k])
  }

  predicate Matches(b: Button, keywords: seq<string>) {
    Mentions(Combined(b), keywords)
  }

  /** `findButtonByContent`: the first control mentioning a keyword, or -1. */
  function FindButtonByContent(buttons: seq<Button>, keywords: seq<string>): (r: int)
    ensures -1 <= r < |buttons|
    ensures r == -1 <==> forall i :: 0 <= i < |buttons| ==> !Matches(buttons[i], keywords)
    ensures r >= 0 ==> Matches(buttons[r], keywords)
    ensures r >= 0 ==> forall i :: 0 <= i < r ==> !Matches(buttons[i], keywords)
    decreases |buttons|
  {
    if buttons == [] then -1
    else if Matches(buttons[0], keywords) then 0
    else
      var tail := buttons[1..];
      var k := FindButtonByContent(tail, keywords);
      var r := if k == -1 then -1 else k + 1;
      assert forall i :: 0 <= i < |buttons| && (r == -1 || i < r) ==> !Matches(buttons[i], keywords) by {
        forall i | 1 <= i < |buttons| && (r == -1 || i < r) ensures !Matches(buttons[i], keywords) {
          assert buttons[i] == tail[i - 1];
        }
      }
      assert r >= 0 ==> buttons[r] == tail[k];
      r
  }

  /** What activating a control does, by the first keyword group it
      mentions. */
  datatype Action = ToggleWatchlist | OpenSubtitles | OpenLanguages | Rewind | Forward | PlayPause | ToggleMute

  function Classify(b: Button): Option<Action> {
    if Matches(b, WATCHLIST_KEYWORDS) then Some(ToggleWatchlist)
    else if Matches(b, SUBTITLE_KEYWORDS) then Some(OpenSubtitles)
    else if Matches(b, LANGUAGE_KEYWORDS) then Some(OpenLanguages)
    else if Matches(b, REWIND_KEYWORDS) then Some(Rewind)
    else if Matches(b, FORWARD_KEYWORDS) then Some(Forward)
    else if Matches(b, PLAY_PAUSE_KEYWORDS) then Some(PlayPause)
    else if Matches(b, MUTE_KEYWORDS) then Some(ToggleMute)
    else None
  }

  /** The keyword groups in the order they are tried. */
  datatype Group = Group(keywords: seq<string>, action: Action)

  const GROUPS: seq<Group> := [
    Group(WATCHLIST_KEYWORDS, ToggleWatchlist), Group(SUBTITLE_KEYWORDS, OpenSubtitles),
    Group(LANGUAGE_KEYWORDS, OpenLanguages), Group(REWIND_KEYWORDS, Rewind),
    Group(FORWARD_KEYWORDS, Forward), Group(PLAY_PAUSE_KEYWORDS, PlayPause),
    Group(MUTE_KEYWORDS, ToggleMute)]

  /** The position of the first group in `groups` that `b` mentions, or -1. */
  function FirstGroup(groups: seq<Group>, b: Button): (r: int)
    ensures -1 <= r < |groups|
    ensures r == -1 <==> forall g :: 0 <= g < |groups| ==> !Matches(b, groups[g].keywords)
    ensures r >= 0 ==> Matches(b, groups[r].keywords)
    ensures r >= 0 ==> forall g :: 0 <= g < r ==> !Matches(b, groups[g].keywords)
    decreases |groups|
  {
    if groups == [] then -1
    else if Matches(b, groups[0].keywords) then 0
    else
      var k := FirstGroup(groups[1..], b);
      assert forall g :: 1 <= g < |groups| ==> groups[g] == groups[1..][g - 1];
      if k == -1 then -1 else k + 1
  }

  /** The chain of tests is the first-match rule over the ordered groups:
      watchlist, subtitle, language, rewind, forward, play/pause, mute. */
  lemma ClassifyFirstGroup(b: Button)
    ensures var k := FirstGroup(GROUPS, b);
      Classify(b) == if k >= 0 then Some(GROUPS[k].action) else None
  {
    assert GROUPS[0] == Group(WATCHLIST_KEYWORDS, ToggleWatchlist);
    assert GROUPS[1] == Group(SUBTITLE_KEYWORDS, OpenSubtitles);
    assert GROUPS[2] == Group(LANGUAGE_KEYWORDS, OpenLanguages);
    assert GROUPS[3] == Group(REWIND_KEYWORDS, Rewind);
    assert GROUPS[4] == Group(FORWARD_KEYWORDS, Forward);
    assert GROUPS[5] == Group(PLAY_PAUSE_KEYWORDS, PlayPause);
    assert GROUPS[6] == Group(MUTE_KEYWORDS, ToggleMute);
  }

  /** `activateFocusedButton`'s decision: nothing for a missing, disabled or
      unrecognised control. */
  function Activation(buttons: seq<Button>, index: int): (r: Option<Action>)
    ensures r.Some? <==> 0 <= index < |buttons| && !buttons[index].disabled && Classify(buttons[index]).Some?
    ensures r.Some? ==> r == Classify(buttons[index])
  {
    if 0 <= index < |buttons| && !buttons[index].disabled then Classify(buttons[index]) else None
  }

  /** The video element the handler seeks and mutes. */
  datatype VideoElement = VideoElement(currentTime: real, duration: real, muted: bool)

  /** `seekVideo`: move by `delta` seconds, clamped to the recording. */
  function Seek(v: Option<VideoElement>, delta: real): (r: Option<VideoElement>)
    ensures r.None? <==> v.None?
    ensures v.Some? ==> r.value.duration == v.value.duration && r.value.muted == v.value.muted
    ensures v.Some? && v.value.duration >= 0.0 ==> 0.0 <= r.value.currentTime <= v.value.duration
    ensures v.Some? && 0.0 <= v.value.currentTime + delta <= v.value.duration ==>
      r.value.currentTime == v.value.currentTime + delta
    ensures v.Some? && v.value.currentTime + delta < 0.0 ==> r.value.currentTime == 0.0
    ensures v.Some? && v.value.duration >= 0.0 && v.value.currentTime + delta > v.value.duration ==>
      r.value.currentTime == v.value.duration
  {
    match v
    case None => None
    case Some(e) =>
      var target := e.currentTime + delta;
      var upper := if e.duration < target then e.duration else target;
      Some(e.(currentTime := if upper < 0.0 then 0.0 else upper))
  }

  /** The player state the handler reads and writes. */
  datatype Player = Player(
    controls: Controls,
    languageOpen: bool,
    subtitleOpen: bool,
    languageIndex: int,
    subtitleIndex: int,
    language: string,
    subtitleLanguage: string,
    playing: bool,
    isMuted: bool,
    video: Option<VideoElement>)

  /** What the handler sees of its surroundings: the controls in the
      document, the selector options, the current time and the event. */
  datatype Env = Env(
    buttons: seq<Button>,
    languages: seq<string>,
    subtitleOptions: seq<string>,
    hasMultipleLanguages: bool,
    hasSubtitles: bool,
    now: int,
    guid: string)

  /** Calls out of the player: `onClose`, the watchlist toggle, and the
      writes of the language button, which save `seconds` as the position
      and make it the language-switch time and the start time
      (`Playback.SwitchLanguage`). */
  datatype Effect = CloseRequested | WatchlistToggled | PositionSaved(seconds: real)

  datatype Step = Step(player: Player, effects: seq<Effect>)

  predicate IsBackKey(e: KeyEvent) {
    e.key == "Escape" || e.key == "Backspace" || e.code == 461
  }

  predicate IsStopKey(e: KeyEvent) {
    e.code == 413 || e.code == 178
  }

  predicate IsPlayKey(e: KeyEvent) {
    e.code == 415
  }

  predicate IsPauseKey(e: KeyEvent) {
    e.code == 19
  }

  predicate IsPlayPauseKey(e: KeyEvent) {
    e.key == " " || e.key == "Spacebar" || e.key == "MediaPlayPause" || e.code == 179
  }

  predicate SelectorOpen(p: Player) {
    p.languageOpen || p.subtitleOpen
  }

  /** `focusButtonByKeywords` followed by moving the focus area to the
      controls: the first control mentioning a keyword, else the first one. */
  function FocusByKeywords(p: Player, buttons: seq<Button>, keywords: seq<string>): (r: Player)
    ensures r.controls.area == Buttons
    ensures var k := FindButtonByContent(buttons, keywords);
      r.controls.focusedIndex == (if k >= 0 then k else 0)
    ensures |buttons| > 0 ==> r.controls.marked == Some(r.controls.focusedIndex) && r.controls.focusedIndex < |buttons|
    ensures |buttons| == 0 ==> r.controls.marked.None?
    ensures r.controls.visible == p.controls.visible && r.controls.timer == p.controls.timer
    ensures r.(controls := p.controls) == p
  {
    var found := FindButtonByContent(buttons, keywords);
    var target := if found >= 0 then found else 0;
    p.(controls := p.controls.(
      focusedIndex := target,
      marked := if target < |buttons| then Some(target) else None,
      area := Buttons))
  }

  /** Where the ring walk starts: the highlighted control, else the
      play/pause control, else the first. */
  function RingStart(buttons: seq<Button>, marked: Option<int>): (cur: int)
    requires |buttons| > 0
    ensures 0 <= cur < |buttons|
    ensures marked.Some? && 0 <= marked.value < |buttons| ==> cur == marked.value
    ensures !(marked.Some? && 0 <= marked.value < |buttons|) ==>
      var k := FindButtonByContent(buttons, PLAY_PAUSE_KEYWORDS);
      cur == if k >= 0 then k else 0
  {
    if marked.Some? && 0 <= marked.value < |buttons| then marked.value
    else
      var k := FindButtonByContent(buttons, PLAY_PAUSE_KEYWORDS);
      if k >= 0 then k else 0
  }

  /** `navigateButtons`: one step around the ring of controls. */
  function Navigate(p: Player, buttons: seq<Button>, direction: int): (r: Player)
    requires direction == 1 || direction == -1
    ensures |buttons| == 0 ==> r == p
    ensures |buttons| > 0 ==>
      var cur := RingStart(buttons, p.controls.marked);
      var next := if direction == 1 then CycleNext(cur, |buttons|) else CyclePrev(cur, |buttons|);
      r == p.(controls := p.controls.(focusedIndex := next, marked := Some(next)))
  {
    if |buttons| == 0 then p
    else
      var n := |buttons|;
      var cur := RingStart(buttons, p.controls.marked);
      var next := JsRem(cur + direction + n, n);
      RingStep(cur, n, direction);
      p.(controls := p.controls.(focusedIndex := next, marked := Some(next)))
  }

  /** `(cur + direction + n) % n` is one step forward or back. */
  lemma RingStep(cur: int, n: int, direction: int)
    requires 0 <= cur < n && (direction == 1 || direction == -1)
    ensures JsRem(cur + direction + n, n) == if direction == 1 then CycleNext(cur, n) else CyclePrev(cur, n)
  {
    if direction == 1 {
      if cur + 1 < n {
        DivModUnique(cur + 1 + n, n, 1, cur + 1);
        DivModUnique(cur + 1, n, 0, cur + 1);
      } else {
        DivModUnique(cur + 1 + n, n, 2, 0);
        DivModUnique(cur + 1, n, 1, 0);
      }
    }
  }

  function ToggleMuted(p: Player): (r: Player)
    ensures p.video.None? ==> r == p
    ensures p.video.Some? ==> r.video.Some? && r.video.value.muted == !p.video.value.muted && r.isMuted == r.video.value.muted
  {
    match p.video
    case None => p
    case Some(v) => p.(video := Some(v.(muted := !v.muted)), isMuted := !v.muted)
  }

  /** `handleLanguagePress`: keeps the position of a started recording and
      opens the language selector on the current language. */
  function PressLanguage(p: Player, env: Env): (r: Step)
    ensures r.player.languageOpen
    ensures r.player.languageIndex == IndexOrZero(env.languages, p.language)
    ensures r.player.(languageOpen := p.languageOpen, languageIndex := p.languageIndex) == p
    ensures r.effects == if p.video.Some? && p.video.value.currentTime != 0.0 && env.guid != ""
      then [PositionSaved(p.video.value.currentTime)] else []
  {
    var saved := if p.video.Some? && p.video.value.currentTime != 0.0 && env.guid != ""
      then [PositionSaved(p.video.value.currentTime)] else [];
    Step(p.(languageOpen := true, languageIndex := IndexOrZero(env.languages, p.language)), saved)
  }

  /** The position tracker after the language button: a started recording
      of a known event is saved at its current time and marked as
      switching there; otherwise the tracker is left alone. */
  function AfterLanguagePress(p: Player, env: Env, t: Playback.Tracker): (r: Playback.Tracker)
    ensures p.video.Some? && p.video.value.currentTime != 0.0 && env.guid != "" ==>
      var now := p.video.value.currentTime;
      Playback.SavedAt(r.store, env.guid) == now && r.languageSwitchTime == Some(now) && r.startTime == now
    ensures !(p.video.Some? && p.video.value.currentTime != 0.0 && env.guid != "") ==> r == t
  {
    var effects := PressLanguage(p, env).effects;
    if |effects| == 1 && effects[0].PositionSaved? then Playback.SwitchLanguage(t, env.guid, effects[0].seconds) else t
  }

  /** `handleSubtitlePress`: opens the subtitle selector on the current
      choice. */
  function PressSubtitle(p: Player, env: Env): (r: Player)
    ensures r.subtitleOpen
    ensures r.subtitleIndex == IndexOrZero(env.subtitleOptions, p.subtitleLanguage)
    ensures r.(subtitleOpen := p.subtitleOpen, subtitleIndex := p.subtitleIndex) == p
  {
    p.(subtitleOpen := true, subtitleIndex := IndexOrZero(env.subtitleOptions, p.subtitleLanguage))
  }

  /** `activateFocusedButton`. */
  function Activate(p: Player, env: Env): (r: Step)
    ensures Activation(env.buttons, p.controls.focusedIndex).None? ==> r == Step(p, [])
    ensures CloseRequested !in r.effects
  {
    match Activation(env.buttons, p.controls.focusedIndex)
    case None => Step(p, [])
    case Some(ToggleWatchlist) => Step(p, [WatchlistToggled])
    case Some(OpenSubtitles) => Step(PressSubtitle(p, env), [])
    case Some(OpenLanguages) => PressLanguage(p, env)
    case Some(Rewind) => Step(p.(video := Seek(p.video, -10.0)), [])
    case Some(Forward) => Step(p.(video := Seek(p.video, 10.0)), [])
    case Some(PlayPause) => Step(p.(playing := !p.playing), [])
    case Some(ToggleMute) => Step(ToggleMuted(p), [])
  }

  /** The element at `i`, or "" (JavaScript's `undefined`) out of range. */
  function At(xs: seq<string>, i: int): string {
    if 0 <= i < |xs| then xs[i] else ""
  }

  /** `(i + 1) % n` and `(i - 1 + n) % n` on a selector. A selector only
      opens from a control shown for at least two options
      (`PlayerControls.ControlList`), so `n == 0` does not arise; there
      JavaScript would compute NaN, and the `n == 0` branch only keeps the
      function total. */
  function SelectorDown(i: int, n: int): int {
    if n == 0 then i else JsRem(i + 1, n)
  }

  function SelectorUp(i: int, n: int): int {
    if n == 0 then i else JsRem(i - 1 + n, n)
  }

  /** The keys the open language selector handles; `None` lets the key
      through to the subtitle selector's checks. */
  function LanguageSelectorKey(p: Player, env: Env, e: KeyEvent): Option<Player> {
    if e.key == "ArrowDown" then Some(p.(languageIndex := SelectorDown(p.languageIndex, |env.languages|)))
    else if e.key == "ArrowUp" then Some(p.(languageIndex := SelectorUp(p.languageIndex, |env.languages|)))
    else if e.key == "Enter" then
      Some(FocusByKeywords(p.(language := At(env.languages, p.languageIndex), languageOpen := false), env.buttons, LANGUAGE_KEYWORDS))
    else if IsBackKey(e) then
      Some(FocusByKeywords(p.(languageOpen := false), env.buttons, LANGUAGE_KEYWORDS))
    else None
  }

  function SubtitleSelectorKey(p: Player, env: Env, e: KeyEvent): Option<Player> {
    if e.key == "ArrowDown" then Some(p.(subtitleIndex := SelectorDown(p.subtitleIndex, |env.subtitleOptions|)))
    else if e.key == "ArrowUp" then Some(p.(subtitleIndex := SelectorUp(p.subtitleIndex, |env.subtitleOptions|)))
    else if e.key == "Enter" then
      Some(FocusByKeywords(p.(subtitleLanguage := At(env.subtitleOptions, p.subtitleIndex), subtitleOpen := false), env.buttons, SUBTITLE_KEYWORDS))
    else if IsBackKey(e) then
      Some(FocusByKeywords(p.(subtitleOpen := false), env.buttons, SUBTITLE_KEYWORDS))
    else None
  }

  /** Keys while a selector is open. */
  function SelectorKeys(p: Player, env: Env, e: KeyEvent): (r: Player) {
    var handled := if p.languageOpen then LanguageSelectorKey(p, env, e) else None;
    if handled.Some? then handled.value
    else if p.subtitleOpen then SubtitleSelectorKey(p, env, e).GetOr(p)
    else p
  }

  /** The branch of the free-key chain a key takes, checked in the order
      of the source's `if` chain. */
  datatype Command =
    | PauseCmd | PlayCmd | TogglePlayCmd | DownCmd | UpCmd | PressCmd
    | LeftCmd | RightCmd | MuteCmd | SubtitleCmd | LanguageCmd | NoCmd

  function CommandOf(e: KeyEvent, env: Env, area: FocusArea): Command {
    if IsPauseKey(e) then PauseCmd
    else if IsPlayKey(e) then PlayCmd
    else if IsPlayPauseKey(e) then TogglePlayCmd
    else if e.key == "ArrowDown" then DownCmd
    else if e.key == "ArrowUp" then UpCmd
    else if e.key == "Enter" && area == Buttons then PressCmd
    else if e.key == "ArrowLeft" then LeftCmd
    else if e.key == "ArrowRight" then RightCmd
    else if e.code == 113 then MuteCmd
    else if (e.code == 799 || e.code == 460) && env.hasSubtitles then SubtitleCmd
    else if (e.code == 403 || e.code == 457) && env.hasMultipleLanguages then LanguageCmd
    else NoCmd
  }

  /** Keys with no selector open, after `showControls` has run. The branches
      that call `showControls` again would only re-arm the same timer. */
  function FreeKeys(p: Player, env: Env, e: KeyEvent): (r: Step) {
    match CommandOf(e, env, p.controls.area)
    case PauseCmd => Step(FocusByKeywords(p.(playing := false), env.buttons, PLAY_PAUSE_KEYWORDS), [])
    case PlayCmd => Step(p.(controls := Hide(p.controls), playing := true), [])
    case TogglePlayCmd => Step(p.(playing := !p.playing), [])
    case DownCmd => Step(p.(controls := p.controls.(area := ProgressBar, marked := None)), [])
    case UpCmd => Step(FocusByKeywords(p, env.buttons, PLAY_PAUSE_KEYWORDS), [])
    case PressCmd => Activate(p, env)
    case LeftCmd =>
      if p.controls.area != Buttons then Step(p.(video := Seek(p.video, -10.0)), [])
      else Step(Navigate(p, env.buttons, -1), [])
    case RightCmd =>
      if p.controls.area != Buttons then Step(p.(video := Seek(p.video, 10.0)), [])
      else Step(Navigate(p, env.buttons, 1), [])
    case MuteCmd => Step(ToggleMuted(p), [])
    case SubtitleCmd => Step(PressSubtitle(p, env), [])
    case LanguageCmd => PressLanguage(p, env)
    case NoCmd => Step(p, [])
  }

  /** Back hides the controls while the user is navigating them or has just
      been active with them visible; otherwise it leaves the player. */
  predicate BackHides(c: Controls, now: int) {
    c.area != NoArea || (c.visible && now - c.lastActivity < HIDE_DELAY)
  }

  /** `handleKeyDown`. */
  function HandleKey(p: Player, env: Env, e: KeyEvent): (r: Step) {
    if IsStopKey(e) && !SelectorOpen(p) then Step(p, [CloseRequested])
    else if IsBackKey(e) && !SelectorOpen(p) then
      if BackHides(p.controls, env.now) then Step(p.(controls := Hide(p.controls)), [])
      else Step(p, [CloseRequested])
    else
      var shown := if !IsBackKey(e) && !IsStopKey(e) && !IsPlayKey(e)
        then p.(controls := Show(p.controls, env.now, p.languageOpen, p.subtitleOpen))
        else p;
      if !SelectorOpen(p) then FreeKeys(shown, env, e)
      else Step(SelectorKeys(shown, env, e), [])
  }

  // ---- Properties of the handler ----

  /** With no selector open a stop key leaves the player and changes nothing. */
  lemma StopCloses(p: Player, env: Env, e: KeyEvent)
    requires IsStopKey(e) && !SelectorOpen(p)
    ensures HandleKey(p, env, e) == Step(p, [CloseRequested])
  {
  }

  /** With no selector open a back key does exactly one of two things: it
      hides the controls, or it leaves the player. */
  lemma BackHidesOrCloses(p: Player, env: Env, e: KeyEvent)
    requires IsBackKey(e) && !IsStopKey(e) && !SelectorOpen(p)
    ensures var r := HandleKey(p, env, e);
      (r.effects == [CloseRequested] && r.player == p) ||
      (r.effects == [] && r.player == p.(controls := Hide(p.controls)))
    ensures CloseRequested in HandleKey(p, env, e).effects <==> !BackHides(p.controls, env.now)
  {
  }

  /** While a selector is open no key leaves the player or produces any
      other call out of it. */
  lemma SelectorNeverCloses(p: Player, env: Env, e: KeyEvent)
    requires SelectorOpen(p)
    ensures HandleKey(p, env, e).effects == []
  {
  }

  /** In the language selector Down and Up move the highlight cyclically and
      keep the selector open. */
  lemma LanguageSelectorCycles(p: Player, env: Env, e: KeyEvent)
    requires p.languageOpen && 0 <= p.languageIndex < |env.languages|
    requires e.key == "ArrowDown" || e.key == "ArrowUp"
    requires !IsStopKey(e) && !IsPlayKey(e) && e.code != 461
    ensures var r := HandleKey(p, env, e).player;
      r.languageOpen && r.language == p.language &&
      r.languageIndex == if e.key == "ArrowDown" then CycleNext(p.languageIndex, |env.languages|)
        else CyclePrev(p.languageIndex, |env.languages|)
  {
  }

  /** Enter in the language selector commits the highlighted language,
      closes the selector and puts the focus on the language control. */
  lemma LanguageSelectorEnter(p: Player, env: Env, e: KeyEvent)
    requires p.languageOpen && 0 <= p.languageIndex < |env.languages|
    requires e.key == "Enter" && !IsStopKey(e) && !IsPlayKey(e) && e.code != 461
    ensures var r := HandleKey(p, env, e).player;
      !r.languageOpen && r.language == env.languages[p.languageIndex] && r.controls.area == Buttons
  {
    var shown := p.(controls := Show(p.controls, env.now, p.languageOpen, p.subtitleOpen));
    assert HandleKey(p, env, e).player == SelectorKeys(shown, env, e);
    var chosen := shown.(language := At(env.languages, p.languageIndex), languageOpen := false);
    assert LanguageSelectorKey(shown, env, e) == Some(FocusByKeywords(chosen, env.buttons, LANGUAGE_KEYWORDS));
  }

  /** Back in the language selector closes it and keeps the language. */
  lemma LanguageSelectorBack(p: Player, env: Env, e: KeyEvent)
    requires p.languageOpen && IsBackKey(e)
    requires e.key != "ArrowDown" && e.key != "ArrowUp" && e.key != "Enter"
    ensures var r := HandleKey(p, env, e).player;
      !r.languageOpen && r.language == p.language && r.controls.area == Buttons
  {
  }

  lemma SubtitleSelectorCycles(p: Player, env: Env, e: KeyEvent)
    requires !p.languageOpen && p.subtitleOpen && 0 <= p.subtitleIndex < |env.subtitleOptions|
    requires e.key == "ArrowDown" || e.key == "ArrowUp"
    requires !IsStopKey(e) && !IsPlayKey(e) && e.code != 461
    ensures var r := HandleKey(p, env, e).player;
      r.subtitleOpen && r.subtitleLanguage == p.subtitleLanguage &&
      r.subtitleIndex == if e.key == "ArrowDown" then CycleNext(p.subtitleIndex, |env.subtitleOptions|)
        else CyclePrev(p.subtitleIndex, |env.subtitleOptions|)
  {
  }

  lemma SubtitleSelectorEnter(p: Player, env: Env, e: KeyEvent)
    requires !p.languageOpen && p.subtitleOpen && 0 <= p.subtitleIndex < |env.subtitleOptions|
    requires e.key == "Enter" && !IsStopKey(e) && !IsPlayKey(e) && e.code != 461
    ensures var r := HandleKey(p, env, e).player;
      !r.subtitleOpen && r.subtitleLanguage == env.subtitleOptions[p.subtitleIndex] && r.controls.area == Buttons
  {
  }

  lemma SubtitleSelectorBack(p: Player, env: Env, e: KeyEvent)
    requires !p.languageOpen && p.subtitleOpen && IsBackKey(e)
    requires e.key != "ArrowDown" && e.key != "ArrowUp" && e.key != "Enter"
    ensures var r := HandleKey(p, env, e).player;
      !r.subtitleOpen && r.subtitleLanguage == p.subtitleLanguage && r.controls.area == Buttons
  {
  }

  /** A key event that is none of the special codes. */
  predicate PlainKey(e: KeyEvent) {
    !IsBackKey(e) && !IsStopKey(e) && !IsPlayKey(e) && !IsPauseKey(e) && !IsPlayPauseKey(e)
  }

  /** Left and Right seek by ten seconds unless the controls have the
      focus, in which case they walk the ring. */
  lemma ArrowsSeekOrWalk(p: Player, env: Env, e: KeyEvent)
    requires !SelectorOpen(p) && PlainKey(e)
    requires e.key == "ArrowLeft" || e.key == "ArrowRight"
    ensures var r := HandleKey(p, env, e);
      var shown := p.(controls := Show(p.controls, env.now, false, false));
      r.effects == [] &&
      (p.controls.area != Buttons ==>
        r.player == shown.(video := Seek(p.video, if e.key == "ArrowLeft" then -10.0 else 10.0))) &&
      (p.controls.area == Buttons ==>
        r.player == Navigate(shown, env.buttons, if e.key == "ArrowRight" then 1 else -1))
  {
  }

  /** Right then Left on the ring comes back to the same control. */
  lemma RightThenLeft(p: Player, env: Env, right: KeyEvent, left: KeyEvent)
    requires !SelectorOpen(p) && p.controls.area == Buttons && |env.buttons| > 0
    requires p.controls.marked.Some? && 0 <= p.controls.marked.value < |env.buttons|
    requires PlainKey(right) && right.key == "ArrowRight" && PlainKey(left) && left.key == "ArrowLeft"
    ensures var q := HandleKey(HandleKey(p, env, right).player, env, left).player;
      q.controls.focusedIndex == p.controls.marked.value && q.controls.marked == p.controls.marked
  {
    var n := |env.buttons|;
    var i := p.controls.marked.value;
    var q1 := HandleKey(p, env, right).player;
    assert q1.controls.marked == Some(CycleNext(i, n));
    CycleInverse(i, n);
  }

  /** Down moves the focus to the progress bar; Up to the play/pause
      control. */
  lemma DownFocusesProgressBar(p: Player, env: Env, e: KeyEvent)
    requires !SelectorOpen(p) && PlainKey(e) && e.key == "ArrowDown"
    ensures var r := HandleKey(p, env, e).player;
      r.controls.area == ProgressBar && r.controls.marked.None? && r.controls.visible
  {
  }

  lemma UpFocusesPlayPause(p: Player, env: Env, e: KeyEvent)
    requires !SelectorOpen(p) && PlainKey(e) && e.key == "ArrowUp"
    ensures var r := HandleKey(p, env, e).player;
      var k := FindButtonByContent(env.buttons, PLAY_PAUSE_KEYWORDS);
      r.controls.area == Buttons && r.controls.visible &&
      r.controls.focusedIndex == (if k >= 0 then k else 0)
  {
  }

  /** Enter does nothing but show the controls unless they have the focus. */
  lemma EnterOutsideControls(p: Player, env: Env, e: KeyEvent)
    requires !SelectorOpen(p) && PlainKey(e) && e.key == "Enter" && p.controls.area != Buttons
    requires e.code != 113 && e.code != 799 && e.code != 460 && e.code != 403 && e.code != 457
    ensures HandleKey(p, env, e) == Step(p.(controls := Show(p.controls, env.now, false, false)), [])
  {
  }

  /** The pause key stops playback and shows the controls; the play key
      hides them and resumes. */
  lemma PauseAndPlay(p: Player, env: Env, e: KeyEvent)
    requires !SelectorOpen(p) && !IsBackKey(e) && !IsStopKey(e)
    ensures IsPauseKey(e) ==> var r := HandleKey(p, env, e).player;
      !r.playing && r.controls.visible && r.controls.timer.Some?
    ensures IsPlayKey(e) ==> var r := HandleKey(p, env, e).player;
      r.playing && !r.controls.visible && r.controls.timer.None?
  {
  }

  /** A selector's highlight stays within its options. */
  predicate IndicesInRange(p: Player, env: Env) {
    0 <= p.languageIndex < |env.languages| && 0 <= p.subtitleIndex < |env.subtitleOptions|
  }

  lemma ActivateKeepsIndices(p: Player, env: Env)
    requires IndicesInRange(p, env)
    ensures IndicesInRange(Activate(p, env).player, env)
  {
  }

  lemma FreeKeysKeepIndices(p: Player, env: Env, e: KeyEvent)
    requires IndicesInRange(p, env)
    ensures IndicesInRange(FreeKeys(p, env, e).player, env)
  {
    if CommandOf(e, env, p.controls.area) == PressCmd {
      ActivateKeepsIndices(p, env);
    }
  }

  lemma SelectorKeysKeepIndices(p: Player, env: Env, e: KeyEvent)
    requires IndicesInRange(p, env)
    ensures IndicesInRange(SelectorKeys(p, env, e), env)
  {
  }

  lemma SelectorIndicesInRange(p: Player, env: Env, e: KeyEvent)
    requires IndicesInRange(p, env)
    ensures IndicesInRange(HandleKey(p, env, e).player, env)
  {
    var shown := if !IsBackKey(e) && !IsStopKey(e) && !IsPlayKey(e)
      then p.(controls := Show(p.controls, env.now, p.languageOpen, p.subtitleOpen))
      else p;
    FreeKeysKeepIndices(shown, env, e);
    SelectorKeysKeepIndices(shown, env, e);
  }

  /** The focused control stays within the ring once it is. */
  predicate FocusWithin(p: Player, env: Env) {
    0 <= p.controls.focusedIndex < |env.buttons|
  }

  lemma ActivateKeepsFocus(p: Player, env: Env)
    requires FocusWithin(p, env)
    ensures FocusWithin(Activate(p, env).player, env)
  {
  }

  lemma FreeKeysKeepFocus(p: Player, env: Env, e: KeyEvent)
    requires FocusWithin(p, env)
    ensures FocusWithin(FreeKeys(p, env, e).player, env)
  {
    if CommandOf(e, env, p.controls.area) == PressCmd {
      ActivateKeepsFocus(p, env);
    }
  }

  lemma SelectorKeysKeepFocus(p: Player, env: Env, e: KeyEvent)
    requires FocusWithin(p, env)
    ensures FocusWithin(SelectorKeys(p, env, e), env)
  {
  }

  lemma FocusInRange(p: Player, env: Env, e: KeyEvent)
    requires FocusWithin(p, env)
    ensures FocusWithin(HandleKey(p, env, e).player, env)
  {
    var shown := if !IsBackKey(e) && !IsStopKey(e) && !IsPlayKey(e)
      then p.(controls := Show(p.controls, env.now, p.languageOpen, p.subtitleOpen))
      else p;
    FreeKeysKeepFocus(shown, env, e);
    SelectorKeysKeepFocus(shown, env, e);
  }
}
