/** The records the views exchange: recordings, subtitle files, lectures
    (events) and conferences, plus the browser's key-value store. Absent
    string fields are the empty string, which JavaScript treats as falsy;
    absent dates are `None`. */
module Media {
  import opened Common

  datatype Video = Video(url: string, mimeType: string, language: string)

  datatype SubtitleTrack = SubtitleTrack(url: string, mimeType: string, language: string)

  /** One lecture. `viewCount` 0 also stands for a missing count, which the
      views read as 0. */
  datatype Event = Event(
    guid: string,
    title: string,
    duration: int,
    viewCount: int,
    persons: seq<string>,
    conferenceTitle: string,
    thumbUrl: string,
    videos: seq<Video>,
    subtitles: seq<SubtitleTrack>)

  /** One conference row of the recent-conferences query; dates are integer
      timestamps. */
  datatype Conference = Conference(
    id: string,
    title: string,
    lectures: seq<Event>,
    eventLastReleasedAt: Option<int>,
    updatedAt: Option<int>)

  /** A watchlist entry: the event snapshot and the time it was added. */
  datatype WatchItem = WatchItem(event: Event, addedAt: int)

  /** A stored value after JSON decoding. */
  datatype Value = Text(text: string) | Number(number: real) | Items(items: seq<WatchItem>)

  /** `localStorage`, keyed by string. */
  type Store = map<string, Value>

  const WATCHLIST_KEY := "watchlist"

  /** `useLocalStorage({key, defaultValue})`: the stored text, else the default. */
  function Pref(st: Store, key: string, default: string): (r: string)
    ensures key !in st ==> r == default
    ensures key in st && st[key].Text? ==> r == st[key].text
  {
    if key in st && st[key].Text? then st[key].text else default
  }
}
