/** Resume positions (`usePlaybackPosition`): the per-event store key, when
    a saved position is restored, when it is saved or dropped, and the
    automatic removal of a nearly finished event from the watchlist. */
module Playback {
  import opened Common
  import opened Media
  import Watchlist

  const POSITION_PREFIX := "playback_position_"

  /** Positions are kept while more than five minutes remain. */
  const REMAINING_LIMIT: real := 300.0

  /** The watchlist check on time updates runs at most every 30 s. */
  const CHECK_INTERVAL := 30000

  /** `getStorageKey`. */
  function StorageKey(guid: string): (k: string)
    ensures StartsWith(k, POSITION_PREFIX)
    ensures k[|POSITION_PREFIX|..] == guid
  {
    POSITION_PREFIX + guid
  }

  /** Different events never share a key. */
  lemma StorageKeyInjective(a: string, b: string)
    requires StorageKey(a) == StorageKey(b)
    ensures a == b
  {
    assert a == StorageKey(a)[|POSITION_PREFIX|..];
  }

  /** The video element's clock. */
  datatype Clock = Clock(currentTime: real, duration: real)

  /** The position restored on load: a saved position above zero replaces a
      zero start time, but only for a loaded recording of a known event and
      not right after a language switch. */
  function RestoredStart(st: Store, hasRecording: bool, guid: string, startTime: real, languageSwitchTime: Option<real>): (r: real)
    ensures r != startTime ==> MayRestore(hasRecording, guid, startTime, languageSwitchTime) && SavedAt(st, guid) == r && r > 0.0
    ensures MayRestore(hasRecording, guid, startTime, languageSwitchTime) && SavedAt(st, guid) > 0.0 ==> r == SavedAt(st, guid)
  {
    var switching := languageSwitchTime.Some? && languageSwitchTime.value != 0.0;
    if hasRecording && guid != "" && startTime == 0.0 && !switching then
      var key := StorageKey(guid);
      if key in st && st[key].Number? && st[key].number > 0.0 then st[key].number else startTime
    else startTime
  }

  /** A recording of a known event, not yet positioned, and no language
      switch in progress (a switch time of 0 counts as none). */
  predicate MayRestore(hasRecording: bool, guid: string, startTime: real, languageSwitchTime: Option<real>) {
    hasRecording && guid != "" && startTime == 0.0 && (languageSwitchTime.None? || languageSwitchTime.value == 0.0)
  }

  /** The saved position of an event; 0 when none is stored. */
  function SavedAt(st: Store, guid: string): real {
    var key := StorageKey(guid);
    if key in st && st[key].Number? then st[key].number else 0.0
  }

  /** `checkAndRemoveFromWatchlist`: with at most five minutes left a listed
      event leaves the watchlist; the list is written only if it shrank. */
  function AutoRemove(st: Store, guid: string, clock: Clock, isInWatchlist: bool): (r: Store)
    ensures !(clock.duration - clock.currentTime <= REMAINING_LIMIT && isInWatchlist) ==> r == st
    ensures clock.duration - clock.currentTime <= REMAINING_LIMIT && isInWatchlist ==>
      r == Watchlist.Remove(st, guid).store
  {
    if clock.duration - clock.currentTime <= REMAINING_LIMIT && isInWatchlist then
      if Watchlist.Stored(st) then
        var list := st[WATCHLIST_KEY].items;
        var kept := Filter(list, Watchlist.Keeps(guid));
        if |kept| < |list| then st[WATCHLIST_KEY := Items(kept)] else st
      else st
    else st
  }

  /** The periodic save and the save on unmount: only a started video of a
      known event is looked at; the position is kept while more than five
      minutes remain and dropped otherwise. */
  function SavePosition(st: Store, guid: string, clock: Option<Clock>, isInWatchlist: bool): (r: Store)
    ensures clock.None? || clock.value.currentTime == 0.0 || guid == "" ==> r == st
    ensures clock.Some? && clock.value.currentTime != 0.0 && guid != "" ==>
      var c := clock.value;
      (c.duration - c.currentTime > REMAINING_LIMIT <==> StorageKey(guid) in r) &&
      (c.duration - c.currentTime > REMAINING_LIMIT ==> r[StorageKey(guid)] == Number(c.currentTime))
    ensures clock.Some? && clock.value.currentTime != 0.0 && guid != "" ==>
      r - {StorageKey(guid)} == AutoRemove(st, guid, clock.value, isInWatchlist) - {StorageKey(guid)}
  {
    if clock.Some? && clock.value.currentTime != 0.0 && guid != "" then
      var c := clock.value;
      var afterCheck := AutoRemove(st, guid, c, isInWatchlist);
      var key := StorageKey(guid);
      if c.duration - c.currentTime > REMAINING_LIMIT then afterCheck[key := Number(c.currentTime)]
      else afterCheck - {key}
    else st
  }

  /** Saving touches only the event's own key and the watchlist. */
  lemma SaveTouchesOwnKeys(st: Store, guid: string, clock: Option<Clock>, isInWatchlist: bool, k: string)
    requires k in st && k != StorageKey(guid) && k != WATCHLIST_KEY
    ensures k in SavePosition(st, guid, clock, isInWatchlist)
    ensures SavePosition(st, guid, clock, isInWatchlist)[k] == st[k]
  {
  }

  /** The state `handleTimeUpdate` reads and writes: the throttle's last
      check, the store, and the hook's language-switch time and start
      time. */
  datatype Tracker = Tracker(lastCheck: int, store: Store, languageSwitchTime: Option<real>, startTime: real)

  /** `handleTimeUpdate`: a pending language switch is cleared and the start
      time reset to 0 (the source defers this by one second); then, at most
      once per interval, a playing video with a known duration that is
      nearly finished leaves the watchlist. */
  function TimeUpdate(t: Tracker, now: int, guid: string, clock: Option<Clock>, isInWatchlist: bool): (r: Tracker)
    ensures r.languageSwitchTime.None?
    ensures t.languageSwitchTime.Some? ==> r.startTime == 0.0
    ensures t.languageSwitchTime.None? ==> r.startTime == t.startTime
    ensures now - t.lastCheck <= CHECK_INTERVAL ==> r.lastCheck == t.lastCheck && r.store == t.store
    ensures now - t.lastCheck > CHECK_INTERVAL ==> r.lastCheck == now
    ensures now - t.lastCheck > CHECK_INTERVAL && clock.Some? && clock.value.currentTime != 0.0 && clock.value.duration != 0.0 ==>
      r.store == AutoRemove(t.store, guid, clock.value, isInWatchlist)
    ensures !(clock.Some? && clock.value.currentTime != 0.0 && clock.value.duration != 0.0) ==> r.store == t.store
  {
    var reset := if t.languageSwitchTime.Some? then t.(languageSwitchTime := None, startTime := 0.0) else t;
    if now - t.lastCheck > CHECK_INTERVAL then
      var store := if clock.Some? && clock.value.currentTime != 0.0 && clock.value.duration != 0.0
        then AutoRemove(t.store, guid, clock.value, isInWatchlist) else t.store;
      reset.(lastCheck := now, store := store)
    else reset
  }

  /** Two updates within one interval check the watchlist at most once: the
      second leaves everything as the first left it. */
  lemma AtMostOncePerInterval(t: Tracker, now1: int, now2: int, guid: string, c1: Option<Clock>, c2: Option<Clock>, w1: bool, w2: bool)
    requires now1 - t.lastCheck > CHECK_INTERVAL && now1 <= now2 <= now1 + CHECK_INTERVAL
    ensures var first := TimeUpdate(t, now1, guid, c1, w1);
      TimeUpdate(first, now2, guid, c2, w2) == first
  {
  }

  /** A time update after a language switch makes restoring possible again:
      the saved position of a loaded recording of a known event is restored
      exactly as on a fresh load. */
  lemma SwitchThenRestore(t: Tracker, now: int, guid: string, clock: Option<Clock>, isInWatchlist: bool, st: Store, hasRecording: bool)
    requires t.languageSwitchTime.Some? && t.languageSwitchTime.value != 0.0
    ensures !MayRestore(hasRecording, guid, t.startTime, t.languageSwitchTime)
    ensures var r := TimeUpdate(t, now, guid, clock, isInWatchlist);
      MayRestore(hasRecording, guid, r.startTime, r.languageSwitchTime) <==> hasRecording && guid != ""
    ensures var r := TimeUpdate(t, now, guid, clock, isInWatchlist);
      RestoredStart(st, hasRecording, guid, r.startTime, r.languageSwitchTime) ==
      RestoredStart(st, hasRecording, guid, 0.0, None)
  {
  }

  /** The writes of the player's language button (`handleLanguagePress`):
      the current time is saved as the event's position and becomes both
      the language-switch time and the start time. */
  function SwitchLanguage(t: Tracker, guid: string, seconds: real): (r: Tracker)
    ensures SavedAt(r.store, guid) == seconds
    ensures r.languageSwitchTime == Some(seconds) && r.startTime == seconds
    ensures r.lastCheck == t.lastCheck
    ensures forall k :: k in t.store && k != StorageKey(guid) ==> k in r.store && r.store[k] == t.store[k]
  {
    t.(store := t.store[StorageKey(guid) := Number(seconds)], languageSwitchTime := Some(seconds), startTime := seconds)
  }

  /** While the switch is pending the new recording starts where the old
      one stopped, and the next time update hands restoring back to the
      saved position, which is that same time. */
  lemma SwitchKeepsPlace(t: Tracker, guid: string, seconds: real, now: int, clock: Option<Clock>, isInWatchlist: bool, hasRecording: bool)
    requires seconds > 0.0 && guid != "" && hasRecording
    ensures var s := SwitchLanguage(t, guid, seconds);
      RestoredStart(s.store, hasRecording, guid, s.startTime, s.languageSwitchTime) == seconds
    ensures var u := TimeUpdate(SwitchLanguage(t, guid, seconds), now, guid, clock, isInWatchlist);
      RestoredStart(u.store, hasRecording, guid, u.startTime, u.languageSwitchTime) == seconds
  {
  }

  /** After the automatic removal the event is no longer listed. */
  lemma AutoRemoveUnlists(st: Store, guid: string, clock: Clock)
    requires clock.duration - clock.currentTime <= REMAINING_LIMIT
    ensures !Watchlist.InWatchlist(AutoRemove(st, guid, clock, true), guid)
  {
  }
}
