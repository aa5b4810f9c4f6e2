/** One conference's lectures as a four-column grid (`ConferenceView.jsx`):
    the grid cursor, opening and closing the fullscreen player, and the
    scroll adjustment that keeps the selected cell in view. */
module ConferenceView {
  import opened Common

  const EVENTS_PER_ROW := 4

  /** Height of the sticky header the scroll adjustment leaves free. */
  const HEADER_OFFSET := 70

  /** Margin kept below a cell scrolled up from below. */
  const BOTTOM_MARGIN := 20

  /** The view's own flags and the parent's fullscreen flag. */
  datatype ConfState = ConfState(activeEvent: int, playerOpen: bool, fullscreen: bool)

  datatype ConfEffect = NoEffect | FocusSidebar

  datatype ConfStep = ConfStep(state: ConfState, effect: ConfEffect)

  /** The keys are handled only with a non-empty lecture list, a closed
      player and an unfocused sidebar. */
  predicate Handles(s: ConfState, total: nat, hasData: bool, sidebarFocused: bool) {
    hasData && total > 0 && !s.playerOpen && !sidebarFocused
  }

  /** One keydown. `hasData` is false until the query has answered with a
      conference that has a lecture list of `total` entries. */
  function ConfKey(s: ConfState, total: nat, e: KeyEvent, hasData: bool, sidebarFocused: bool): (r: ConfStep)
    ensures !Handles(s, total, hasData, sidebarFocused) ==> r == ConfStep(s, NoEffect)
    ensures Handles(s, total, hasData, sidebarFocused) && e.key == "Enter" ==>
      r == ConfStep(s.(playerOpen := true, fullscreen := true), NoEffect)
    ensures r.effect == FocusSidebar ==> r.state == s && e.key == "ArrowLeft" && s.activeEvent % EVENTS_PER_ROW == 0
    ensures r.state.playerOpen ==> total > 0 || s.playerOpen
  {
    if !Handles(s, total, hasData, sidebarFocused) then ConfStep(s, NoEffect)
    else
      var i := s.activeEvent;
      if e.key == "Enter" then ConfStep(s.(playerOpen := true, fullscreen := true), NoEffect)
      else if e.key == "ArrowRight" then ConfStep(s.(activeEvent := JsRem(i + 1, total)), NoEffect)
      else if e.key == "ArrowLeft" then
        if JsRem(i, EVENTS_PER_ROW) == 0 then ConfStep(s, FocusSidebar)
        else ConfStep(s.(activeEvent := i - 1), NoEffect)
      else if e.key == "ArrowDown" then
        ConfStep(s.(activeEvent := if i + EVENTS_PER_ROW < total - 1 then i + EVENTS_PER_ROW else total - 1), NoEffect)
      else if e.key == "ArrowUp" then
        ConfStep(s.(activeEvent := if i - EVENTS_PER_ROW > 0 then i - EVENTS_PER_ROW else 0), NoEffect)
      else ConfStep(s, NoEffect)
  }

  /** The player's `onClose`: both flags cleared. */
  function ClosePlayer(s: ConfState): (r: ConfState)
    ensures !r.playerOpen && !r.fullscreen && r.activeEvent == s.activeEvent
  {
    s.(playerOpen := false, fullscreen := false)
  }

  /** The cursor stays on a lecture, and the player is open only over a
      lecture. */
  predicate Valid(s: ConfState, total: nat) {
    (total > 0 ==> 0 <= s.activeEvent < total) && (s.playerOpen ==> total > 0)
  }

  lemma ConfKeyValid(s: ConfState, total: nat, e: KeyEvent, hasData: bool, sidebarFocused: bool)
    requires Valid(s, total)
    ensures Valid(ConfKey(s, total, e, hasData, sidebarFocused).state, total)
  {
  }

  /** Down then Up comes back to the same column when there is a full row
      below. */
  lemma DownThenUp(s: ConfState, total: nat, code: int)
    requires Valid(s, total) && total > 0 && !s.playerOpen
    requires s.activeEvent + EVENTS_PER_ROW < total - 1
    ensures var down := ConfKey(s, total, KeyEvent("ArrowDown", code), true, false).state;
      ConfKey(down, total, KeyEvent("ArrowUp", code), true, false).state == s
  {
  }

  /** Down never leaves the grid: from the last row it goes to the last
      lecture. */
  lemma DownClamps(s: ConfState, total: nat, code: int)
    requires Valid(s, total) && total > 0 && !s.playerOpen
    requires s.activeEvent + EVENTS_PER_ROW >= total - 1
    ensures ConfKey(s, total, KeyEvent("ArrowDown", code), true, false).state.activeEvent == total - 1
  {
  }

  /** Up never leaves the grid either: from the first row it goes to the
      first lecture. */
  lemma UpClamps(s: ConfState, total: nat, code: int)
    requires Valid(s, total) && total > 0 && !s.playerOpen
    ensures var r := ConfKey(s, total, KeyEvent("ArrowUp", code), true, false).state.activeEvent;
      (s.activeEvent < EVENTS_PER_ROW ==> r == 0) &&
      (s.activeEvent >= EVENTS_PER_ROW ==> r == s.activeEvent - EVENTS_PER_ROW)
  {
  }

  /** Right walks the lectures in order and wraps from the last to the
      first. */
  lemma RightWraps(s: ConfState, total: nat, code: int)
    requires Valid(s, total) && total > 0 && !s.playerOpen
    ensures ConfKey(s, total, KeyEvent("ArrowRight", code), true, false) ==
      ConfStep(s.(activeEvent := CycleNext(s.activeEvent, total)), NoEffect)
  {
  }

  /** Left hands focus to the sidebar exactly from the first column, and
      otherwise moves one cell left within the same row. */
  lemma LeftStaysInRow(s: ConfState, total: nat, code: int)
    requires Valid(s, total) && total > 0 && !s.playerOpen
    ensures var r := ConfKey(s, total, KeyEvent("ArrowLeft", code), true, false);
      (r.effect == FocusSidebar <==> s.activeEvent % EVENTS_PER_ROW == 0) &&
      (r.effect == NoEffect ==>
        r.state.activeEvent == s.activeEvent - 1 &&
        r.state.activeEvent / EVENTS_PER_ROW == s.activeEvent / EVENTS_PER_ROW)
  {
  }

  /** Opening the player and closing it again returns to the grid on the
      same lecture. */
  lemma OpenThenClose(s: ConfState, total: nat, code: int)
    requires Valid(s, total) && total > 0 && !s.playerOpen && !s.fullscreen
    ensures ClosePlayer(ConfKey(s, total, KeyEvent("Enter", code), true, false).state) == s
  {
  }

  /** The scroll position after the selected cell changed: scroll up to
      the cell's top less the header, or down to its bottom plus a margin,
      or stay. */
  function AdjustScroll(offsetTop: int, height: int, scrollTop: int, clientHeight: int): int {
    var itemTop := offsetTop - HEADER_OFFSET;
    var itemBottom := offsetTop + height;
    if itemTop < scrollTop then itemTop
    else if itemBottom > scrollTop + clientHeight then itemBottom - clientHeight + BOTTOM_MARGIN
    else scrollTop
  }

  /** A cell that fits the container with the header and margin is fully
      visible after the adjustment, below the header. */
  lemma AdjustShowsCell(offsetTop: int, height: nat, scrollTop: int, clientHeight: int)
    requires height + HEADER_OFFSET + BOTTOM_MARGIN <= clientHeight
    ensures var r := AdjustScroll(offsetTop, height, scrollTop, clientHeight);
      r <= offsetTop - HEADER_OFFSET && offsetTop + height <= r + clientHeight
  {
  }

  /** The adjustment is settled: applied again it changes nothing. */
  lemma AdjustSettles(offsetTop: int, height: nat, scrollTop: int, clientHeight: int)
    requires height + HEADER_OFFSET + BOTTOM_MARGIN <= clientHeight
    ensures var r := AdjustScroll(offsetTop, height, scrollTop, clientHeight);
      AdjustScroll(offsetTop, height, r, clientHeight) == r
  {
  }

  /** A cell already in view does not move the container. */
  lemma VisibleCellStays(offsetTop: int, height: int, scrollTop: int, clientHeight: int)
    requires scrollTop <= offsetTop - HEADER_OFFSET && offsetTop + height <= scrollTop + clientHeight
    ensures AdjustScroll(offsetTop, height, scrollTop, clientHeight) == scrollTop
  {
  }

  // The handler as written guards only on the data, the player and the
  // sidebar, not on an empty lecture list. With no lectures the view shows
  // its "no videos" message instead of the grid or the player, and a cursor
  // computed modulo zero is NaN, carried by `Num`.

  datatype RawState = RawState(activeEvent: Num, playerOpen: bool, fullscreen: bool)

  /** What the view renders. */
  datatype Screen = NoVideos | PlayerScreen | Grid

  function Render(s: RawState, total: nat): Screen {
    if total == 0 then NoVideos else if s.playerOpen then PlayerScreen else Grid
  }

  function RemNum(a: Num, b: int): Num {
    if a.NaN? || b == 0 then NaN else Int(JsRem(a.value, b))
  }

  /** The handler as the source writes it, on the view's flags and cursor
      (the sidebar hand-off, which changes neither, is left to `ConfKey`). */
  function RawKey(s: RawState, total: nat, e: KeyEvent, hasData: bool, sidebarFocused: bool): (r: RawState)
    ensures !hasData || s.playerOpen || sidebarFocused ==> r == s
    ensures hasData && !s.playerOpen && !sidebarFocused && e.key == "Enter" ==> r.playerOpen && r.fullscreen
  {
    if !hasData || s.playerOpen || sidebarFocused then s
    else
      var i := s.activeEvent;
      if e.key == "Enter" then s.(playerOpen := true, fullscreen := true)
      else if e.key == "ArrowRight" then s.(activeEvent := RemNum(if i.NaN? then NaN else Int(i.value + 1), total))
      else if e.key == "ArrowLeft" then
        if i.Int? && JsRem(i.value, EVENTS_PER_ROW) == 0 then s
        else s.(activeEvent := if i.NaN? then NaN else Int(i.value - 1))
      else if e.key == "ArrowDown" then
        s.(activeEvent := if i.NaN? then NaN else Int(if i.value + EVENTS_PER_ROW < total - 1 then i.value + EVENTS_PER_ROW else total - 1))
      else if e.key == "ArrowUp" then
        s.(activeEvent := if i.NaN? then NaN else Int(if i.value - EVENTS_PER_ROW > 0 then i.value - EVENTS_PER_ROW else 0))
      else s
  }

  function RawRun(s: RawState, total: nat, keys: seq<KeyEvent>): RawState
    decreases |keys|
  {
    if keys == [] then s else RawRun(RawKey(s, total, keys[0], true, false), total, keys[1..])
  }

  /** With no lectures, Enter sets the player and fullscreen flags although
      no player is rendered, so its `onClose` can never run; every later key
      is ignored and the view stays fullscreen on its "no videos" message. */
  lemma {:induction false} EmptyConferenceEnterSticks(s: RawState, code: int, keys: seq<KeyEvent>)
    requires !s.playerOpen
    ensures var stuck := RawKey(s, 0, KeyEvent("Enter", code), true, false);
      stuck.playerOpen && stuck.fullscreen && Render(stuck, 0) == NoVideos &&
      RawRun(stuck, 0, keys) == stuck
    decreases |keys|
  {
    var stuck := RawKey(s, 0, KeyEvent("Enter", code), true, false);
    if keys != [] {
      assert RawKey(stuck, 0, keys[0], true, false) == stuck;
      EmptyConferenceEnterSticks(s, code, keys[1..]);
    }
  }

  /** With no lectures, Right turns the cursor into NaN. */
  lemma EmptyConferenceRightIsNaN(s: RawState, code: int)
    requires !s.playerOpen
    ensures RawKey(s, 0, KeyEvent("ArrowRight", code), true, false).activeEvent == NaN
  {
  }

  /** On a non-empty list the handler as written and the guarded one agree. */
  lemma RawAgreesWhenNonEmpty(s: ConfState, total: nat, e: KeyEvent)
    requires total > 0 && Valid(s, total)
    ensures var raw := RawKey(RawState(Int(s.activeEvent), s.playerOpen, s.fullscreen), total, e, true, false);
      var fixed := ConfKey(s, total, e, true, false).state;
      raw == RawState(Int(fixed.activeEvent), fixed.playerOpen, fixed.fullscreen)
  {
  }
}
