/** Visibility of the player's on-screen controls (`useControlsVisibility`):
    a visible flag, the focus area, the focused control, the control that
    carries the "focused" highlight, the time of the last activity and the
    single pending hide timer. The timer's expiry is an explicit event. */
module ControlsVisibility {
  import opened Common

  datatype FocusArea = NoArea | Buttons | ProgressBar

  /** The pending hide timer, with the selector flags its closure captured
      when `showControls` armed it. */
  datatype Timer = Timer(languageSelector: bool, subtitleSelector: bool)

  /** `marked` is the control whose element holds the "focused" class; the
      source keeps it in the document, apart from `focusedIndex`. */
  datatype Controls = Controls(
    visible: bool,
    area: FocusArea,
    focusedIndex: int,
    marked: Option<int>,
    lastActivity: int,
    timer: Option<Timer>)

  const HIDE_DELAY := 4000

  /** The hook's state before mounting: visible, nothing focused. */
  function Initial(now: int): (c: Controls)
    ensures c.visible && c.area == NoArea && c.focusedIndex == 0
    ensures c.timer.None? && c.lastActivity == now
  {
    Controls(true, NoArea, 0, None, now, None)
  }

  /** `showControls`: visible, activity recorded, any pending timer replaced
      by a fresh one that remembers the selector flags of this call. */
  function Show(c: Controls, now: int, languageSelector: bool, subtitleSelector: bool): (r: Controls)
    ensures r.visible && r.lastActivity == now
    ensures r.timer == Some(Timer(languageSelector, subtitleSelector))
    ensures r.area == c.area && r.focusedIndex == c.focusedIndex && r.marked == c.marked
  {
    c.(visible := true, lastActivity := now, timer := Some(Timer(languageSelector, subtitleSelector)))
  }

  /** `hideControls`: invisible, focus area and index reset, every highlight
      removed and the pending timer cancelled. */
  function Hide(c: Controls): (r: Controls)
    ensures !r.visible && r.area == NoArea && r.focusedIndex == 0
    ensures r.marked.None? && r.timer.None?
    ensures r.lastActivity == c.lastActivity
  {
    c.(visible := false, area := NoArea, focusedIndex := 0, marked := None, timer := None)
  }

  /** The timer hides the controls only if neither selector was open when
      it was armed and nothing is focused when it fires. */
  predicate ExpiryHides(t: Timer, area: FocusArea) {
    !t.languageSelector && !t.subtitleSelector && area == NoArea
  }

  /** The pending timer fires; without one nothing happens. */
  function Expire(c: Controls): (r: Controls)
    ensures r.timer.None?
    ensures r.visible == (c.visible && !(c.timer.Some? && ExpiryHides(c.timer.value, c.area)))
    ensures r.area == c.area && r.focusedIndex == c.focusedIndex && r.marked == c.marked
    ensures r.lastActivity == c.lastActivity
  {
    match c.timer
    case None => c
    case Some(t) => if ExpiryHides(t, c.area) then c.(visible := false, timer := None) else c.(timer := None)
  }

  /** Mounting runs `showControls` once. */
  function Mount(now: int, languageSelector: bool, subtitleSelector: bool): (c: Controls)
    ensures c.visible && c.area == NoArea && c.focusedIndex == 0 && c.lastActivity == now
    ensures c.timer == Some(Timer(languageSelector, subtitleSelector))
  {
    Show(Initial(now), now, languageSelector, subtitleSelector)
  }

  /** A timer armed by `showControls` hides the controls exactly when no
      selector was open at that moment and no area is focused. */
  lemma ShowThenExpire(c: Controls, now: int, lang: bool, sub: bool)
    ensures !Expire(Show(c, now, lang, sub)).visible <==> !lang && !sub && c.area == NoArea
  {
  }

  /** After `hideControls` no timer is pending, so an expiry changes nothing. */
  lemma HideThenExpire(c: Controls)
    ensures Expire(Hide(c)) == Hide(c)
  {
  }

  /** A second `showControls` at the same moment only re-arms the timer. */
  lemma ShowTwice(c: Controls, now: int, lang: bool, sub: bool)
    ensures Show(Show(c, now, lang, sub), now, lang, sub) == Show(c, now, lang, sub)
  {
  }

  lemma HideTwice(c: Controls)
    ensures Hide(Hide(c)) == Hide(c)
  {
  }
}
