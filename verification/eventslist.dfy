/** The conference list (`EventsListView.jsx`): the public conference
    index, newest release first, with its loading and error states;
    selecting a conference hands its acronym to the parent. */
module EventsList {
  import opened Common
  import opened Ranking

  /** One entry of the index; dates are integer timestamps. */
  datatype ApiConference = ApiConference(
    acronym: string,
    title: string,
    eventLastReleasedAt: Option<int>,
    updatedAt: Option<int>)

  /** `event_last_released_at || updated_at || 0`. */
  function Released(c: ApiConference): (r: int)
    ensures c.eventLastReleasedAt.Some? ==> r == c.eventLastReleasedAt.value
    ensures c.eventLastReleasedAt.None? && c.updatedAt.Some? ==> r == c.updatedAt.value
    ensures c.eventLastReleasedAt.None? && c.updatedAt.None? ==> r == 0
  {
    if c.eventLastReleasedAt.Some? then c.eventLastReleasedAt.value
    else if c.updatedAt.Some? then c.updatedAt.value
    else 0
  }

  function RankOf(c: ApiConference): Rank {
    Rank(Released(c), 0)
  }

  /** The HTTP answer: its status flag and text, and the `conferences`
      field of the decoded body, if present. */
  datatype Response = Response(ok: bool, statusText: string, conferences: Option<seq<ApiConference>>)

  /** The request answered, or failed with a message (network failure or
      an undecodable body). */
  datatype Outcome = Received(response: Response) | Failed(message: string)

  datatype EventsState = EventsState(conferences: seq<ApiConference>, loading: bool, error: Option<string>)

  const FETCH_FAILED := "Failed to fetch conferences: "

  /** Loading, no list, no error. */
  function Initial(): (s: EventsState)
    ensures s.loading && s.conferences == [] && s.error.None?
  {
    EventsState([], true, None)
  }

  /** The end of the request: the list sorted newest first on success,
      otherwise the error message; loading ends either way. */
  function Loaded(s: EventsState, o: Outcome): (r: EventsState)
    ensures !r.loading
    ensures o.Received? && o.response.ok ==> r.error == s.error
    ensures o.Received? && o.response.ok ==>
      multiset(r.conferences) == multiset(o.response.conferences.GetOr([])) &&
      Descending(r.conferences, RankOf)
    ensures !(o.Received? && o.response.ok) ==> r.conferences == s.conferences
    ensures o.Received? && !o.response.ok ==> r.error == Some(FETCH_FAILED + o.response.statusText)
    ensures o.Failed? ==> r.error == Some(o.message)
  {
    match o
    case Received(resp) =>
      if !resp.ok then s.(error := Some(FETCH_FAILED + resp.statusText), loading := false)
      else s.(conferences := Sort(resp.conferences.GetOr([]), RankOf), loading := false)
    case Failed(message) => s.(error := Some(message), loading := false)
  }

  /** The one request the view makes, from its initial state, ends with an
      error exactly when it did not succeed. */
  lemma ErrorIffFailed(o: Outcome)
    ensures Loaded(Initial(), o).error.None? <==> o.Received? && o.response.ok
  {
  }

  /** A missing `conferences` field gives an empty list. */
  lemma MissingFieldIsEmpty(s: EventsState, statusText: string)
    ensures Loaded(s, Received(Response(true, statusText, None))).conferences == []
  {
    var r := Loaded(s, Received(Response(true, statusText, None))).conferences;
    assert multiset(r) == multiset{};
  }

  /** Conferences released at the same time stay in the order of the
      index. */
  lemma SameDateKeepsIndexOrder(s: EventsState, resp: Response, k: Rank)
    requires resp.ok
    ensures WithRank(Loaded(s, Received(resp)).conferences, RankOf, k) == WithRank(resp.conferences.GetOr([]), RankOf, k)
  {
    SortIsStable(resp.conferences.GetOr([]), RankOf, k);
  }

  /** The list's `onSelect`: the parent is asked to open the conference's
      page by its acronym. */
  function Chosen(s: EventsState, index: int): (r: Option<string>)
    ensures r.Some? <==> 0 <= index < |s.conferences|
    ensures r.Some? ==> exists c :: c in s.conferences && c.acronym == r.value
  {
    if 0 <= index < |s.conferences| then Some(s.conferences[index].acronym) else None
  }
}
