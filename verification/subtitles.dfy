/** Subtitle choice for the player (`useSubtitleManagement`): the tracks on
    offer, the selector's options, the initial choice, the track that is
    loaded and the two addresses it is fetched from. */
module Subtitles {
  import opened Common
  import opened Media

  const NONE := "none"
  const CDN := "https://cdn.media.ccc.de"
  const CDN_ROOT := "https://cdn.media.ccc.de/"
  const PROXY := "/subtitles"
  const STATIC_MEDIA := "https://static.media.ccc.de/media/"
  const STATIC_DOUBLE := "https://static.media.ccc.de/media/media/"

  /** The event's own tracks followed by those the lecture query returned. */
  function AllSubtitles(eventSubtitles: seq<SubtitleTrack>, lectureSubtitles: seq<SubtitleTrack>): (r: seq<SubtitleTrack>)
    ensures |r| == |eventSubtitles| + |lectureSubtitles|
    ensures r[..|eventSubtitles|] == eventSubtitles && r[|eventSubtitles|..] == lectureSubtitles
  {
    eventSubtitles + lectureSubtitles
  }

  predicate Usable(s: SubtitleTrack) {
    s.url != "" && s.language != ""
  }

  function LanguageOf(s: SubtitleTrack): string {
    s.language
  }

  /** The distinct languages of the usable tracks, each once. */
  function AvailableSubtitles(all: seq<SubtitleTrack>): (r: seq<string>)
    ensures NoDuplicates(r)
    ensures forall l :: l in r <==> exists i :: 0 <= i < |all| && Usable(all[i]) && all[i].language == l
    ensures "" !in r
  {
    var usable := Filter(all, Usable);
    var langs := Map(usable, LanguageOf);
    assert forall l :: l in langs <==> exists i :: 0 <= i < |all| && Usable(all[i]) && all[i].language == l by {
      forall l | l in langs
        ensures exists i :: 0 <= i < |all| && Usable(all[i]) && all[i].language == l
      {
        var k :| 0 <= k < |langs| && langs[k] == l;
        assert usable[k] in usable;
      }
      forall l | exists i :: 0 <= i < |all| && Usable(all[i]) && all[i].language == l
        ensures l in langs
      {
        var i :| 0 <= i < |all| && Usable(all[i]) && all[i].language == l;
        assert all[i] in usable;
        var k :| 0 <= k < |usable| && usable[k] == all[i];
        assert langs[k] == l;
      }
    }
    Distinct(langs)
  }

  /** The selector's options: "none" and then every available language. */
  function SubtitleOptions(available: seq<string>): (r: seq<string>)
    ensures |r| == |available| + 1 && r[0] == NONE && r[1..] == available
  {
    [NONE] + available
  }

  function HasSubtitles(available: seq<string>): bool {
    |available| > 0
  }

  /** The choice made when the event, the offer or the preference changes:
      "none" if preferred; otherwise the preference if offered and "none" if
      not; with nothing on offer the choice stays. */
  function InitialSubtitle(preferred: string, available: seq<string>, current: string): (r: string)
    ensures preferred == NONE ==> r == NONE
    ensures preferred != NONE && |available| > 0 ==> (r == preferred <==> preferred in available)
    ensures preferred != NONE && |available| > 0 && preferred !in available ==> r == NONE
    ensures preferred != NONE && |available| == 0 ==> r == current
  {
    if preferred == NONE then NONE
    else if |available| > 0 then
      if preferred in available then preferred else NONE
    else current
  }

  /** Whenever there is something on offer the choice is one of the
      selector's options, so opening the selector highlights it. */
  lemma InitialIsAnOption(preferred: string, available: seq<string>, current: string)
    requires |available| > 0 || preferred == NONE
    ensures InitialSubtitle(preferred, available, current) in SubtitleOptions(available)
    ensures var opts := SubtitleOptions(available);
      opts[IndexOrZero(opts, InitialSubtitle(preferred, available, current))] == InitialSubtitle(preferred, available, current)
  {
  }

  /** A track of `language` with a url. */
  predicate Serves(s: SubtitleTrack, language: string) {
    s.language == language && s.url != ""
  }

  /** The track loaded for a choice: none for "none", else the first track
      of that language that has a url. */
  function Source(all: seq<SubtitleTrack>, language: string): (r: Option<SubtitleTrack>)
    ensures language == NONE ==> r.None?
    ensures language != NONE ==> var k := FirstServing(all, language);
      r == if k >= 0 then Some(all[k]) else None
  {
    if language == NONE then None
    else
      var k := FirstServing(all, language);
      if k >= 0 then Some(all[k]) else None
  }

  /** The position of the first track serving `language`, or -1. */
  function FirstServing(all: seq<SubtitleTrack>, language: string): (r: int)
    ensures -1 <= r < |all|
    ensures r == -1 <==> forall i :: 0 <= i < |all| ==> !Serves(all[i], language)
    ensures r >= 0 ==> Serves(all[r], language)
    ensures r >= 0 ==> forall i :: 0 <= i < r ==> !Serves(all[i], language)
    decreases |all|
  {
    if all == [] then -1
    else if Serves(all[0], language) then 0
    else
      var k := FirstServing(all[1..], language);
      assert forall i :: 1 <= i < |all| ==> all[i] == all[1..][i - 1];
      if k == -1 then -1 else k + 1
  }

  /** Any choice taken from the options other than "none" finds a track. */
  lemma OptionHasSource(all: seq<SubtitleTrack>, language: string)
    requires language in AvailableSubtitles(all) && language != NONE
    ensures Source(all, language).Some?
    ensures Source(all, language).value.language == language
  {
    var i :| 0 <= i < |all| && Usable(all[i]) && all[i].language == language;
    assert Serves(all[i], language);
  }

  /** The address of the same-origin proxy: the first occurrence of the cdn
      host becomes "/subtitles". */
  function ProxyUrl(url: string): string {
    ReplaceFirst(url, CDN, PROXY)
  }

  /** The fallback address on the static host, with a doubled "media/"
      collapsed. */
  function StaticUrl(url: string): string {
    ReplaceFirst(ReplaceFirst(url, CDN_ROOT, STATIC_MEDIA), STATIC_DOUBLE, STATIC_MEDIA)
  }

  /** A cdn address is served through the proxy under the same path. */
  lemma ProxyOfCdn(path: string)
    ensures ProxyUrl(CDN + path) == PROXY + path
  {
    assert StartsWith(CDN + path, CDN) by {
      assert (CDN + path)[..|CDN|] == CDN;
    }
    ReplaceFirstAtStart(CDN + path, CDN, PROXY);
    assert (CDN + path)[|CDN|..] == path;
  }

  /** A cdn address under "media/" maps to the static media folder with a
      single "media/". */
  lemma StaticOfCdnMedia(path: string)
    ensures StaticUrl(CDN_ROOT + "media/" + path) == STATIC_MEDIA + path
  {
    var url := CDN_ROOT + "media/" + path;
    assert StartsWith(url, CDN_ROOT) by {
      assert url[..|CDN_ROOT|] == CDN_ROOT;
    }
    ReplaceFirstAtStart(url, CDN_ROOT, STATIC_MEDIA);
    assert url[|CDN_ROOT|..] == "media/" + path;
    var mid := STATIC_MEDIA + ("media/" + path);
    assert mid == STATIC_DOUBLE + path;
    assert StartsWith(mid, STATIC_DOUBLE) by {
      assert mid[..|STATIC_DOUBLE|] == STATIC_DOUBLE;
    }
    ReplaceFirstAtStart(mid, STATIC_DOUBLE, STATIC_MEDIA);
    assert mid[|STATIC_DOUBLE|..] == path;
  }
}
