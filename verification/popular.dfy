/** The popular-videos list (`PopularView.jsx`): every lecture of the
    cached recent conferences, tagged with its conference, ordered by view
    count and then by conference date, both descending, and cut to the
    first hundred; selecting one opens it in a fullscreen player. */
module Popular {
  import opened Common
  import opened Media
  import opened Ranking

  const MAX_VIDEOS := 100

  /** A lecture with its conference's title and date
      (`eventLastReleasedAt || updatedAt`, possibly missing). */
  datatype PopularItem = PopularItem(event: Event, conferenceTitle: string, conferenceDate: Option<int>)

  function ConferenceDate(c: Conference): (r: Option<int>)
    ensures c.eventLastReleasedAt.Some? ==> r == c.eventLastReleasedAt
    ensures c.eventLastReleasedAt.None? ==> r == c.updatedAt
  {
    if c.eventLastReleasedAt.Some? then c.eventLastReleasedAt else c.updatedAt
  }

  /** The sort key: view count, then the date with a missing one as 0. */
  function RankOf(it: PopularItem): Rank {
    Rank(it.event.viewCount, it.conferenceDate.GetOr(0))
  }

  function Tag(c: Conference, e: Event): PopularItem {
    PopularItem(e, c.title, ConferenceDate(c))
  }

  /** One conference's lectures, tagged, in order. */
  function Tags(c: Conference): (r: seq<PopularItem>)
    ensures |r| == |c.lectures|
    ensures forall j :: 0 <= j < |r| ==> r[j] == Tag(c, c.lectures[j])
  {
    Map(c.lectures, (e: Event) => Tag(c, e))
  }

  /** All lectures of all conferences, conference by conference. */
  function Flatten(confs: seq<Conference>): seq<PopularItem> {
    Concat(Map(confs, Tags))
  }

  /** An item is listed exactly when it is a lecture of some conference,
      tagged with that conference. */
  lemma InFlatten(confs: seq<Conference>, it: PopularItem)
    ensures it in Flatten(confs) <==>
      exists i :: 0 <= i < |confs| && it.event in confs[i].lectures && it == Tag(confs[i], it.event)
  {
    var tagged := Map(confs, Tags);
    InConcat(tagged, it);
    if it in Flatten(confs) {
      var i :| 0 <= i < |tagged| && it in tagged[i];
      var j :| 0 <= j < |tagged[i]| && tagged[i][j] == it;
      assert it == Tag(confs[i], confs[i].lectures[j]);
    }
    if exists i :: 0 <= i < |confs| && it.event in confs[i].lectures && it == Tag(confs[i], it.event) {
      var i :| 0 <= i < |confs| && it.event in confs[i].lectures && it == Tag(confs[i], it.event);
      var j :| 0 <= j < |confs[i].lectures| && confs[i].lectures[j] == it.event;
      assert tagged[i][j] == it;
    }
  }

  function Min(a: int, b: int): int {
    if a < b then a else b
  }

  /** The `videos` memo: nothing without data; otherwise the first hundred
      of the sorted list. */
  function PopularVideos(data: Option<seq<Conference>>): (r: seq<PopularItem>)
    ensures data.None? ==> r == []
    ensures data.Some? ==> |r| == Min(MAX_VIDEOS, |Flatten(data.value)|)
    ensures data.Some? ==> multiset(r) <= multiset(Flatten(data.value))
    ensures Descending(r, RankOf)
  {
    if data.None? then []
    else
      var sorted := Sort(Flatten(data.value), RankOf);
      var n := Min(MAX_VIDEOS, |sorted|);
      assert multiset(sorted) == multiset(sorted[..n]) + multiset(sorted[n..]) by {
        assert sorted == sorted[..n] + sorted[n..];
      }
      sorted[..n]
  }

  /** No lecture left off the list outranks one on it. */
  lemma NothingBetterLeftOut(confs: seq<Conference>, x: PopularItem)
    requires x in Flatten(confs) && x !in PopularVideos(Some(confs))
    ensures forall i :: 0 <= i < |PopularVideos(Some(confs))| ==>
      !Outranks(RankOf(x), RankOf(PopularVideos(Some(confs))[i]))
  {
    var sorted := Sort(Flatten(confs), RankOf);
    var n := Min(MAX_VIDEOS, |sorted|);
    assert x in multiset(sorted);
    CutRanksLower(sorted, RankOf, n, x);
  }

  /** With at most a hundred lectures all of them are listed, and lectures
      with the same view count and date keep the order of the conference
      list. */
  lemma FewVideosAllListed(confs: seq<Conference>, k: Rank)
    requires |Flatten(confs)| <= MAX_VIDEOS
    ensures multiset(PopularVideos(Some(confs))) == multiset(Flatten(confs))
    ensures WithRank(PopularVideos(Some(confs)), RankOf, k) == WithRank(Flatten(confs), RankOf, k)
  {
    var sorted := Sort(Flatten(confs), RankOf);
    assert |sorted| == |multiset(sorted)| == |Flatten(confs)|;
    assert Min(MAX_VIDEOS, |sorted|) == |sorted|;
    assert sorted[..|sorted|] == sorted;
    assert PopularVideos(Some(confs)) == sorted;
    SortIsStable(Flatten(confs), RankOf, k);
  }

  /** The view's own state: the lecture playing, and the parent's
      fullscreen flag. */
  datatype PopularState = PopularState(selected: Option<PopularItem>, fullscreen: bool)

  /** Selecting an item plays it fullscreen. */
  function Choose(s: PopularState, it: PopularItem): (r: PopularState)
    ensures r.selected == Some(it) && r.fullscreen
  {
    PopularState(Some(it), true)
  }

  /** The player's `onClose` clears both. */
  function ClosePlayer(s: PopularState): (r: PopularState)
    ensures r.selected.None? && !r.fullscreen
  {
    PopularState(None, false)
  }
}
