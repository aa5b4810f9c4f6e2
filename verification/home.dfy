/** The home screen (`Home.jsx` with the arrow handlers of `helpers.js`): a
    vertical window of conference rows over the recent-conferences list, a
    horizontal position per row, and a player over the previewed lecture.
    The carousel library's answers after a scroll are taken as inputs. */
module Home {
  import opened Common
  import opened Media
  import PlayerKeyboard
  import RecentMerge

  /** Rows kept when the window is rebuilt away from the top. */
  const WINDOW_ROWS := 6

  /** `activeSlice` is the list index of the window's first row,
      `dataSlice` the window, and `activeEvents` the horizontal position of
      each list row (a JavaScript object, so entries may be missing). */
  datatype HomeState = HomeState(
    playerOpen: bool,
    activeSlice: int,
    dataSlice: seq<Conference>,
    isLoading: bool,
    activeEvents: map<int, Num>)

  datatype HomeEffect = NoEffect | FetchMore(offset: nat)

  datatype HomeStep = HomeStep(state: HomeState, effect: HomeEffect)

  /** `activeEvents[k] || 0`: a missing entry and NaN both read as 0. */
  function Position(m: map<int, Num>, k: int): (r: int)
    ensures k !in m || m[k].NaN? ==> r == 0
    ensures k in m && m[k].Int? ==> r == m[k].value
  {
    if k in m && m[k].Int? then m[k].value else 0
  }

  /** Before any data: player closed, empty window at the top, rows 0 to 5
      at position 0. */
  function Initial(): (s: HomeState)
    ensures !s.playerOpen && s.activeSlice == 0 && s.dataSlice == [] && !s.isLoading
    ensures forall k :: k in s.activeEvents <==> 0 <= k < 6
    ensures forall k :: 0 <= k < 6 ==> s.activeEvents[k] == Int(0)
  {
    var zeros := map[0 := Int(0), 1 := Int(0), 2 := Int(0), 3 := Int(0), 4 := Int(0), 5 := Int(0)];
    HomeState(false, 0, [], false, zeros)
  }

  /** The window is the slice of the list that starts at `activeSlice`. */
  predicate Valid(s: HomeState, recent: seq<Conference>) {
    0 <= s.activeSlice && s.activeSlice + |s.dataSlice| <= |recent| &&
    s.dataSlice == recent[s.activeSlice..s.activeSlice + |s.dataSlice|]
  }

  /** JavaScript's `xs.slice(from, to)` for `0 <= from`: both ends clamped to
      the length. */
  function JsSlice<T>(xs: seq<T>, from: nat, to: nat): (r: seq<T>)
    ensures from <= |xs| && to <= |xs| && from <= to ==> r == xs[from..to]
    ensures from >= |xs| || to <= from ==> r == []
    ensures |r| <= |xs|
  {
    var a := if from < |xs| then from else |xs|;
    var b := if to < |xs| then to else |xs|;
    if a < b then xs[a..b] else []
  }

  /** The data effect: the list arrived or grew. At the top the window
      becomes the whole list; otherwise the six rows from `activeSlice`.
      The loading row disappears. */
  function DataArrived(s: HomeState, recent: seq<Conference>): (r: HomeState)
    requires 0 <= s.activeSlice
    ensures !r.isLoading && r.playerOpen == s.playerOpen && r.activeSlice == s.activeSlice
    ensures r.activeEvents == s.activeEvents
    ensures s.activeSlice == 0 ==> r.dataSlice == recent
    ensures s.activeSlice > 0 ==> |r.dataSlice| <= WINDOW_ROWS
    ensures s.activeSlice <= |recent| ==> Valid(r, recent)
  {
    var window := if s.activeSlice == 0 then recent else JsSlice(recent, s.activeSlice, s.activeSlice + WINDOW_ROWS);
    s.(dataSlice := window, isLoading := false)
  }

  /** A failed `fetchMore` clears the loading row and nothing else. */
  function FetchFailed(s: HomeState): (r: HomeState)
    ensures !r.isLoading && r.(isLoading := s.isLoading) == s
  {
    s.(isLoading := false)
  }

  /** The carousel of the window's first row after it was asked to scroll:
      whether it can still scroll that way, its selected snap, and how many
      slides are in view. */
  datatype Carousel = Carousel(canScroll: bool, snap: int, slidesInView: nat)

  /** Right on row `slice`: the snap while the carousel scrolls, else the
      next position modulo the slides in view (NaN when none are). */
  function ArrowRight(m: map<int, Num>, slice: int, c: Carousel): (r: map<int, Num>)
    ensures r.Keys == m.Keys + {slice}
    ensures forall k :: k in m && k != slice ==> r[k] == m[k]
    ensures c.canScroll ==> r[slice] == Int(c.snap)
    ensures !c.canScroll && c.slidesInView == 0 ==> r[slice] == NaN
  {
    if c.canScroll then m[slice := Int(c.snap)]
    else if c.slidesInView == 0 then m[slice := NaN]
    else m[slice := Int(JsRem(Position(m, slice) + 1, c.slidesInView))]
  }

  /** Where the carousel cannot scroll, Right steps cyclically through the
      slides in view. */
  lemma RightCycles(m: map<int, Num>, slice: int, c: Carousel)
    requires !c.canScroll && 0 <= Position(m, slice) < c.slidesInView
    ensures ArrowRight(m, slice, c)[slice] == Int(CycleNext(Position(m, slice), c.slidesInView))
    ensures Position(ArrowRight(m, slice, c), slice) == CycleNext(Position(m, slice), c.slidesInView)
  {
  }

  /** Left on row `slice`: the snap while the carousel scrolls, else one
      position back unless already at 0. */
  function ArrowLeft(m: map<int, Num>, slice: int, c: Carousel): (r: map<int, Num>)
    ensures c.canScroll ==> r.Keys == m.Keys + {slice} && r[slice] == Int(c.snap)
    ensures !c.canScroll && Position(m, slice) == 0 ==> r == m
    ensures !c.canScroll && Position(m, slice) != 0 ==> slice in r && r[slice] == Int(Position(m, slice) - 1)
    ensures forall k :: k != slice ==> (k in r <==> k in m)
    ensures forall k :: k in m && k != slice ==> r[k] == m[k]
    ensures !c.canScroll && 0 <= Position(m, slice) ==> 0 <= Position(r, slice)
  {
    if c.canScroll then m[slice := Int(c.snap)]
    else if Position(m, slice) != 0 then m[slice := Int(Position(m, slice) - 1)]
    else m
  }

  /** Where the carousel stopped scrolling, Left undoes a Right that did not
      wrap. */
  lemma RightThenLeft(m: map<int, Num>, slice: int, c: Carousel)
    requires !c.canScroll && 0 <= Position(m, slice) && Position(m, slice) + 1 < c.slidesInView
    ensures Position(ArrowLeft(ArrowRight(m, slice, c), slice, c), slice) == Position(m, slice)
  {
  }

  /** Down: with at least two rows the window drops its first row and
      moves down one list row; when it had exactly three the next page is
      requested at the end of the list and the loading row shows. */
  function ArrowDown(s: HomeState, recent: seq<Conference>): (r: HomeStep)
    requires Valid(s, recent)
    ensures Valid(r.state, recent)
    ensures |s.dataSlice| < 2 ==> r == HomeStep(s, NoEffect)
    ensures |s.dataSlice| >= 2 ==> r.state.activeSlice == s.activeSlice + 1 && r.state.dataSlice == s.dataSlice[1..]
    ensures r.effect.FetchMore? <==> |s.dataSlice| == 3
    ensures r.effect.FetchMore? ==> r.effect.offset == |recent| && r.state.isLoading
    ensures r.state.activeEvents == s.activeEvents && r.state.playerOpen == s.playerOpen
  {
    if |s.dataSlice| >= 2 then
      var shifted := s.(dataSlice := s.dataSlice[1..], activeSlice := s.activeSlice + 1);
      if |s.dataSlice| == 3 then HomeStep(shifted.(isLoading := true), FetchMore(|recent|))
      else HomeStep(shifted, NoEffect)
    else HomeStep(s, NoEffect)
  }

  /** Up: below the top, the list row before the window is put back in
      front of it. */
  function ArrowUp(s: HomeState, recent: seq<Conference>): (r: HomeState)
    requires Valid(s, recent)
    ensures Valid(r, recent)
    ensures s.activeSlice == 0 ==> r == s
    ensures s.activeSlice > 0 ==> r.activeSlice == s.activeSlice - 1 && r.dataSlice == [recent[s.activeSlice - 1]] + s.dataSlice
    ensures r.activeEvents == s.activeEvents && r.isLoading == s.isLoading && r.playerOpen == s.playerOpen
  {
    if s.activeSlice - 1 >= 0 then
      s.(dataSlice := [recent[s.activeSlice - 1]] + s.dataSlice, activeSlice := s.activeSlice - 1)
    else s
  }

  /** Down then Up restores the window. */
  lemma DownThenUp(s: HomeState, recent: seq<Conference>)
    requires Valid(s, recent) && |s.dataSlice| >= 2
    ensures var down := ArrowDown(s, recent).state;
      var up := ArrowUp(down, recent);
      up.activeSlice == s.activeSlice && up.dataSlice == s.dataSlice
  {
    var down := ArrowDown(s, recent).state;
    assert recent[s.activeSlice] == s.dataSlice[0];
    assert [s.dataSlice[0]] + s.dataSlice[1..] == s.dataSlice;
  }

  /** Up then Down restores the window when Up moved it. */
  lemma UpThenDown(s: HomeState, recent: seq<Conference>)
    requires Valid(s, recent) && s.activeSlice > 0 && |s.dataSlice| >= 1
    ensures var back := ArrowDown(ArrowUp(s, recent), recent).state;
      back.activeSlice == s.activeSlice && back.dataSlice == s.dataSlice
  {
    var up := ArrowUp(s, recent);
    assert up.dataSlice[1..] == s.dataSlice;
  }

  /** One keydown. `recent` is the query's list, `None` before it answered;
      `c` is the carousel's answer if the key scrolls it. */
  function HomeKey(s: HomeState, recent: Option<seq<Conference>>, e: KeyEvent, c: Carousel): (r: HomeStep)
    requires recent.Some? ==> Valid(s, recent.value)
    ensures recent.None? ==> r == HomeStep(s, NoEffect)
    ensures recent.Some? ==> Valid(r.state, recent.value)
    ensures s.playerOpen && PlayerKeyboard.IsBackKey(e) && recent.Some? ==> r == HomeStep(s.(playerOpen := false), NoEffect)
    ensures s.playerOpen && !PlayerKeyboard.IsBackKey(e) ==> r == HomeStep(s, NoEffect)
    ensures !s.playerOpen && e.key == "Enter" && recent.Some? ==> r == HomeStep(s.(playerOpen := true), NoEffect)
    ensures r.state.activeEvents != s.activeEvents ==> !s.playerOpen && (e.key == "ArrowRight" || e.key == "ArrowLeft")
    ensures forall k :: k != s.activeSlice ==> (k in r.state.activeEvents <==> k in s.activeEvents)
    ensures forall k :: k in s.activeEvents && k != s.activeSlice ==> r.state.activeEvents[k] == s.activeEvents[k]
    ensures r.effect.FetchMore? ==> e.key == "ArrowDown" && |s.dataSlice| == 3 && r.effect.offset == |recent.value|
  {
    if recent.None? then HomeStep(s, NoEffect)
    else if PlayerKeyboard.IsBackKey(e) && s.playerOpen then HomeStep(s.(playerOpen := false), NoEffect)
    else if e.key == "Enter" && !s.playerOpen then HomeStep(s.(playerOpen := true), NoEffect)
    else if e.key == "ArrowRight" && !s.playerOpen then
      HomeStep(s.(activeEvents := ArrowRight(s.activeEvents, s.activeSlice, c)), NoEffect)
    else if e.key == "ArrowLeft" && !s.playerOpen then
      HomeStep(s.(activeEvents := ArrowLeft(s.activeEvents, s.activeSlice, c)), NoEffect)
    else if e.key == "ArrowDown" && !s.playerOpen then ArrowDown(s, recent.value)
    else if e.key == "ArrowUp" && !s.playerOpen then HomeStep(ArrowUp(s, recent.value), NoEffect)
    else HomeStep(s, NoEffect)
  }

  /** Enter opens the player and a back key closes it again, leaving the
      screen as it was. */
  lemma OpenThenBack(s: HomeState, recent: seq<Conference>, enter: KeyEvent, back: KeyEvent, c: Carousel)
    requires Valid(s, recent) && !s.playerOpen
    requires enter.key == "Enter" && PlayerKeyboard.IsBackKey(back)
    ensures var shown := HomeKey(s, Some(recent), enter, c).state;
      shown.playerOpen && HomeKey(shown, Some(recent), back, c).state == s
  {
  }

  /** There is no guard against a page already in flight: Down from a
      three-row window requests the next page, and Up then Down before the
      page arrives requests the same offset again. */
  lemma RepeatedFetch(s: HomeState, recent: seq<Conference>, code: int, c: Carousel)
    requires Valid(s, recent) && !s.playerOpen && |s.dataSlice| == 3
    ensures var down := HomeKey(s, Some(recent), KeyEvent("ArrowDown", code), c);
      var up := HomeKey(down.state, Some(recent), KeyEvent("ArrowUp", code), c);
      var again := HomeKey(up.state, Some(recent), KeyEvent("ArrowDown", code), c);
      down.effect == FetchMore(|recent|) && again.effect == FetchMore(|recent|)
  {
    var down := HomeKey(s, Some(recent), KeyEvent("ArrowDown", code), c);
    UpThenDown(down.state, recent);
    DownThenUp(s, recent);
  }

  /** The page a Down requested, once merged at the end of the list, keeps
      the window a slice of the list. */
  lemma FetchedPageKeepsWindow(s: HomeState, recent: seq<Conference>, incoming: seq<Conference>)
    requires Valid(s, recent)
    ensures Valid(DataArrived(s, RecentMerge.Merge(recent, incoming, |recent|)), RecentMerge.Merge(recent, incoming, |recent|))
  {
    RecentMerge.MergeKeepsLength(recent, incoming, |recent|);
  }

  /** The lecture previewed, and played when the player opens: the first
      row's lecture at that row's position, if both exist. */
  function Previewed(s: HomeState): (r: Option<Event>)
    ensures r.Some? <==> |s.dataSlice| > 0 && 0 <= Position(s.activeEvents, s.activeSlice) < |s.dataSlice[0].lectures|
    ensures r.Some? ==> r.value in s.dataSlice[0].lectures
  {
    var p := Position(s.activeEvents, s.activeSlice);
    if |s.dataSlice| > 0 && 0 <= p < |s.dataSlice[0].lectures| then Some(s.dataSlice[0].lectures[p]) else None
  }

  /** The position handed to window row `ci`'s carousel, unset when the
      map has no entry. */
  function RowPosition(s: HomeState, ci: int): Option<Num> {
    var k := ci + s.activeSlice;
    if k in s.activeEvents then Some(s.activeEvents[k]) else None
  }

  /** The first row's carousel marks the lecture the preview shows. */
  lemma FirstRowMarksPreview(s: HomeState)
    requires Previewed(s).Some?
    requires RowPosition(s, 0).Some? && RowPosition(s, 0).value.Int?
    ensures s.dataSlice[0].lectures[RowPosition(s, 0).value.value] == Previewed(s).value
  {
  }

  /** A row whose position became NaN previews its first lecture, and the
      next Right where the carousel cannot scroll moves it to the second. */
  lemma NaNPositionReadsAsZero(s: HomeState, c: Carousel)
    requires s.activeSlice in s.activeEvents && s.activeEvents[s.activeSlice] == NaN
    requires !c.canScroll && c.slidesInView > 1
    ensures Position(s.activeEvents, s.activeSlice) == 0
    ensures ArrowRight(s.activeEvents, s.activeSlice, c)[s.activeSlice] == Int(1)
  {
  }
}
