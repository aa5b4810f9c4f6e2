/** The watchlist (`useWatchlist`): a sequence of event snapshots kept
    under one store key, at most one entry per guid when built by `Add`.
    The list is written exactly when an outcome reports a change. */
module Watchlist {
  import opened Common
  import opened Media

  /** The new store and the hook's boolean answer. */
  datatype Outcome = Outcome(store: Store, changed: bool)

  /** A list is stored under the key (a truthy stored text). */
  predicate Stored(st: Store) {
    WATCHLIST_KEY in st && st[WATCHLIST_KEY].Items?
  }

  /** `getWatchlist`: the stored list, or the empty list. */
  function GetWatchlist(st: Store): (r: seq<WatchItem>)
    ensures !Stored(st) ==> r == []
    ensures Stored(st) ==> r == st[WATCHLIST_KEY].items
  {
    if Stored(st) then st[WATCHLIST_KEY].items else []
  }

  predicate Listed(list: seq<WatchItem>, guid: string) {
    exists i :: 0 <= i < |list| && list[i].event.guid == guid
  }

  /** The watch state the hook derives from the store for one event. */
  predicate InWatchlist(st: Store, guid: string) {
    Stored(st) && Listed(st[WATCHLIST_KEY].items, guid)
  }

  predicate UniqueGuids(list: seq<WatchItem>) {
    forall i, j :: 0 <= i < j < |list| ==> list[i].event.guid != list[j].event.guid
  }

  /** The filter that drops every entry of one guid. */
  function Keeps(guid: string): WatchItem -> bool {
    (item: WatchItem) => item.event.guid != guid
  }

  /** `addToWatchlist`: a known guid changes nothing; otherwise the snapshot
      is appended with the time it was added. */
  function Add(st: Store, e: Event, now: int): (r: Outcome)
    ensures Listed(GetWatchlist(st), e.guid) ==> r == Outcome(st, false)
    ensures !Listed(GetWatchlist(st), e.guid) ==>
      r.changed && r.store == st[WATCHLIST_KEY := Items(GetWatchlist(st) + [WatchItem(e, now)])]
    ensures InWatchlist(r.store, e.guid)
  {
    var list := GetWatchlist(st);
    if Listed(list, e.guid) then Outcome(st, false)
    else
      var added := list + [WatchItem(e, now)];
      assert added[|list|].event.guid == e.guid;
      Outcome(st[WATCHLIST_KEY := Items(added)], true)
  }

  /** `removeFromWatchlist`: without a stored list nothing happens;
      otherwise every entry of the guid is dropped, the others keep their
      order, and the list is written only if it shrank. */
  function Remove(st: Store, guid: string): (r: Outcome)
    ensures !Stored(st) ==> r == Outcome(st, false)
    ensures r.changed <==> Listed(GetWatchlist(st), guid)
    ensures r.changed ==> r.store == st[WATCHLIST_KEY := Items(Filter(GetWatchlist(st), Keeps(guid)))]
    ensures !r.changed ==> r.store == st
    ensures !InWatchlist(r.store, guid)
  {
    if !Stored(st) then Outcome(st, false)
    else
      var list := st[WATCHLIST_KEY].items;
      var kept := Filter(list, Keeps(guid));
      FilterShrinks(list, Keeps(guid));
      NoneListedAfter(list, guid);
      if |kept| < |list| then Outcome(st[WATCHLIST_KEY := Items(kept)], true)
      else Outcome(st, false)
  }

  lemma NoneListedAfter(list: seq<WatchItem>, guid: string)
    ensures !Listed(Filter(list, Keeps(guid)), guid)
    ensures Listed(list, guid) <==> !(forall i :: 0 <= i < |list| ==> Keeps(guid)(list[i]))
  {
    var kept := Filter(list, Keeps(guid));
    forall i | 0 <= i < |kept|
      ensures kept[i].event.guid != guid
    {
      assert kept[i] in kept;
    }
  }

  /** `toggleWatchlist`: remove when the event is listed, add otherwise. */
  function Toggle(st: Store, isInWatchlist: bool, e: Event, now: int): (r: Outcome)
    ensures isInWatchlist ==> r == Remove(st, e.guid)
    ensures !isInWatchlist ==> r == Add(st, e, now)
    ensures InWatchlist(r.store, e.guid) <==> !isInWatchlist
  {
    if isInWatchlist then Remove(st, e.guid) else Add(st, e, now)
  }

  /** Adding keeps the guids of a list unique. */
  lemma AddKeepsUnique(st: Store, e: Event, now: int)
    requires UniqueGuids(GetWatchlist(st))
    ensures UniqueGuids(GetWatchlist(Add(st, e, now).store))
  {
    var list := GetWatchlist(st);
    if !Listed(list, e.guid) {
      var added := list + [WatchItem(e, now)];
      assert GetWatchlist(Add(st, e, now).store) == added;
      forall i, j | 0 <= i < j < |added|
        ensures added[i].event.guid != added[j].event.guid
      {
        if j == |list| {
          assert added[i] == list[i];
        }
      }
    }
  }

  /** Removing keeps them unique too. */
  lemma RemoveKeepsUnique(st: Store, guid: string)
    requires UniqueGuids(GetWatchlist(st))
    ensures UniqueGuids(GetWatchlist(Remove(st, guid).store))
  {
    var list := GetWatchlist(st);
    if Listed(list, guid) {
      FilterUnique(list, Keeps(guid));
    }
  }

  lemma {:induction false} FilterUnique(list: seq<WatchItem>, p: WatchItem -> bool)
    requires UniqueGuids(list)
    ensures UniqueGuids(Filter(list, p))
  {
    if list != [] {
      FilterUnique(list[1..], p);
      if p(list[0]) {
        var rest := Filter(list[1..], p);
        forall k | 0 <= k < |rest|
          ensures rest[k].event.guid != list[0].event.guid
        {
          assert rest[k] in list[1..];
          var j :| 0 <= j < |list[1..]| && list[1..][j] == rest[k];
          assert list[j + 1] == rest[k];
        }
        assert Filter(list, p) == [list[0]] + rest;
      }
    }
  }

  /** After a removal the stored list is the old one without the guid's
      entries, whether or not anything was written. */
  lemma RemoveFilters(st: Store, guid: string)
    ensures GetWatchlist(Remove(st, guid).store) == Filter(GetWatchlist(st), Keeps(guid))
  {
    var list := GetWatchlist(st);
    if !Listed(list, guid) {
      forall x | x in list ensures Keeps(guid)(x) {
        var i :| 0 <= i < |list| && list[i] == x;
      }
      FilterAll(list, Keeps(guid));
    }
  }

  /** Adding an unlisted event and removing it again gives back the list. */
  lemma AddThenRemove(st: Store, e: Event, now: int)
    requires !Listed(GetWatchlist(st), e.guid)
    ensures GetWatchlist(Remove(Add(st, e, now).store, e.guid).store) == GetWatchlist(st)
  {
    var list := GetWatchlist(st);
    var item := WatchItem(e, now);
    var st1 := Add(st, e, now).store;
    assert GetWatchlist(st1) == list + [item];
    RemoveFilters(st1, e.guid);
    FilterAppend(list, [item], Keeps(e.guid));
    RemoveFilters(st, e.guid);
    assert Remove(st, e.guid).store == st;
    assert Filter([item], Keeps(e.guid)) == [];
  }

  /** Every other key of the store is left alone by both edits. */
  lemma OnlyTheWatchlistKey(st: Store, e: Event, now: int, guid: string, k: string)
    requires k != WATCHLIST_KEY && k in st
    ensures k in Add(st, e, now).store && Add(st, e, now).store[k] == st[k]
    ensures k in Remove(st, guid).store && Remove(st, guid).store[k] == st[k]
  {
  }
}
