/** Choice of the recording to play for a preferred audio language
    (`getVideo`) and the clock rendering of a duration (`formatSeconds`). */
module VideoSelect {
  import opened Common
  import opened Media
  import opened Constants
  import Decimal

  const WEBM := "video/webm"
  const MP4 := "video/mp4"

  /** The chooser's answer: the recording (or null), whether the preferred
      language was found, and the recording's language (null without one). */
  datatype Pick = Pick(recording: Option<Video>, found: bool, language: Option<string>)

  const NO_PICK := Pick(None, false, None)

  /** Only playable recordings with a url take part. */
  predicate IsCandidate(v: Video) {
    v.url != "" && (v.mimeType == WEBM || v.mimeType == MP4)
  }

  /** The language tags of a (possibly multi-track) recording. */
  function Tracks(v: Video): seq<string> {
    Split(v.language, '-')
  }

  /** The rank of a candidate: single-track match, then multi-track match,
      then any recording; webm before mp4 at each level. */
  function Priority(v: Video, pref: string): (p: int)
    requires IsCandidate(v)
    ensures ANY_MP4 <= p <= SINGLE_WEBM
    ensures p % 2 == 0 <==> v.mimeType == WEBM
    ensures p >= SINGLE_MP4 <==> v.language != "" && Tracks(v) == [pref]
    ensures p >= MULTI_MP4 <==> v.language != "" && pref in Tracks(v)
  {
    var webm := v.mimeType == WEBM;
    if v.language != "" then
      var langs := Tracks(v);
      var exact := |langs| == 1 && langs[0] == pref;
      var includes := pref in langs;
      if exact && webm then SINGLE_WEBM
      else if exact then SINGLE_MP4
      else if includes && webm then MULTI_WEBM
      else if includes then MULTI_MP4
      else if webm then ANY_WEBM
      else ANY_MP4
    else if webm then ANY_WEBM else ANY_MP4
  }

  /** `w` is the first candidate of highest priority. */
  predicate IsBest(videos: seq<Video>, pref: string, w: int) {
    0 <= w < |videos| && IsCandidate(videos[w]) &&
    (forall j :: 0 <= j < |videos| && IsCandidate(videos[j]) ==> Priority(videos[j], pref) <= Priority(videos[w], pref)) &&
    (forall j :: 0 <= j < w && IsCandidate(videos[j]) ==> Priority(videos[j], pref) < Priority(videos[w], pref))
  }

  predicate NoCandidate(videos: seq<Video>) {
    forall i :: 0 <= i < |videos| ==> !IsCandidate(videos[i])
  }

  /** The scan of the language-aware branch: keeps the first video of
      strictly higher priority and stops at a single-track webm match. */
  method BestIndex(videos: seq<Video>, pref: string) returns (w: int)
    ensures w == -1 <==> NoCandidate(videos)
    ensures w != -1 ==> IsBest(videos, pref, w)
  {
    w := -1;
    var best := 0;
    var k := 0;
    while k < |videos|
      invariant 0 <= k <= |videos|
      invariant w == -1 <==> best == 0
      invariant w == -1 ==> forall i :: 0 <= i < k ==> !IsCandidate(videos[i])
      invariant w != -1 ==> 0 <= w < k && IsCandidate(videos[w]) && best == Priority(videos[w], pref)
      invariant w != -1 ==> forall j :: 0 <= j < k && IsCandidate(videos[j]) ==> Priority(videos[j], pref) <= best
      invariant w != -1 ==> forall j :: 0 <= j < w && IsCandidate(videos[j]) ==> Priority(videos[j], pref) < best
    {
      var v := videos[k];
      if IsCandidate(v) {
        var p := Priority(v, pref);
        if p > best {
          w, best := k, p;
          if p == SINGLE_WEBM {
            break;
          }
        }
      }
      k := k + 1;
    }
  }

  /** The best candidate is unique. */
  lemma BestUnique(videos: seq<Video>, pref: string, a: int, b: int)
    requires IsBest(videos, pref, a) && IsBest(videos, pref, b)
    ensures a == b
  {
  }

  /** The first recording of the given type that has a url, or -1. */
  function FirstOfType(videos: seq<Video>, mime: string): (r: int)
    ensures -1 <= r < |videos|
    ensures r == -1 <==> forall i :: 0 <= i < |videos| ==> !(videos[i].mimeType == mime && videos[i].url != "")
    ensures r >= 0 ==> videos[r].mimeType == mime && videos[r].url != ""
    ensures r >= 0 ==> forall i :: 0 <= i < r ==> !(videos[i].mimeType == mime && videos[i].url != "")
  {
    if videos == [] then -1
    else if videos[0].mimeType == mime && videos[0].url != "" then 0
    else
      var r := FirstOfType(videos[1..], mime);
      if r == -1 then -1 else r + 1
  }

  /** `getVideo`: with "auto" the first webm, else the first mp4; otherwise
      the first candidate of highest priority. */
  method GetVideo(videos: seq<Video>, pref: string) returns (r: Pick)
    ensures pref == "auto" ==>
      var webm := FirstOfType(videos, WEBM);
      var mp4 := FirstOfType(videos, MP4);
      if webm >= 0 then r == Pick(Some(videos[webm]), true, Some(videos[webm].language))
      else if mp4 >= 0 then r == Pick(Some(videos[mp4]), true, Some(videos[mp4].language))
      else r == NO_PICK
    ensures pref != "auto" ==> (r.recording.None? <==> NoCandidate(videos))
    ensures pref != "auto" && NoCandidate(videos) ==> r == NO_PICK
    ensures pref != "auto" && r.recording.Some? ==>
      exists w :: IsBest(videos, pref, w) && r.recording == Some(videos[w]) &&
        r.found == (Priority(videos[w], pref) >= MULTI_MP4) && r.language == Some(videos[w].language)
  {
    if pref == "auto" {
      var webm := FirstOfType(videos, WEBM);
      var mp4 := FirstOfType(videos, MP4);
      if webm >= 0 {
        r := Pick(Some(videos[webm]), true, Some(videos[webm].language));
      } else if mp4 >= 0 {
        r := Pick(Some(videos[mp4]), true, Some(videos[mp4].language));
      } else {
        r := NO_PICK;
      }
    } else {
      var w := BestIndex(videos, pref);
      if w == -1 {
        r := NO_PICK;
      } else {
        var v := videos[w];
        r := Pick(Some(v), Priority(v, pref) >= MULTI_MP4, Some(v.language));
      }
    }
  }

  /** A single-track recording in the preferred language, if any, is
      always chosen over everything of another kind: the answer is then
      found. */
  lemma ExactMatchFound(videos: seq<Video>, pref: string, i: int, w: int)
    requires 0 <= i < |videos| && IsCandidate(videos[i]) && videos[i].language == pref && pref != ""
    requires '-' !in pref
    requires IsBest(videos, pref, w)
    ensures Priority(videos[w], pref) >= SINGLE_MP4
  {
    SplitNoSep(pref, '-');
    assert Priority(videos[i], pref) >= SINGLE_MP4;
  }

  /** `formatSeconds` for a whole, non-negative number of seconds: hours,
      minutes and seconds joined by ':', single-digit fields zero-padded. */
  function FormatSeconds(s: nat): string {
    Decimal.Padded(s / 3600, 2) + ":" + Decimal.Padded(s / 60 % 60, 2) + ":" + Decimal.Padded(s % 60, 2)
  }

  /** Reads an H:MM:SS clock back into seconds; `None` unless it has
      three digit fields. */
  function ReadClock(r: string): Option<int> {
    ClockOf(Split(r, ':'))
  }

  function ClockOf(parts: seq<string>): Option<int> {
    if |parts| == 3 && Decimal.AllDigits(parts[0]) && Decimal.AllDigits(parts[1]) && Decimal.AllDigits(parts[2])
    then Some(Seconds(Decimal.Value(parts[0]), Decimal.Value(parts[1]), Decimal.Value(parts[2])))
    else None
  }

  function Seconds(h: int, m: int, s: int): int {
    h * 3600 + m * 60 + s
  }

  /** The three fields of the rendering. */
  lemma FormatSecondsParts(s: nat)
    ensures Split(FormatSeconds(s), ':') ==
      [Decimal.Padded(s / 3600, 2), Decimal.Padded(s / 60 % 60, 2), Decimal.Padded(s % 60, 2)]
  {
    SplitThree(Decimal.Padded(s / 3600, 2), Decimal.Padded(s / 60 % 60, 2), Decimal.Padded(s % 60, 2));
  }

  /** The rendering reads back as the duration. */
  lemma FormatSecondsReadsBack(s: nat)
    ensures ReadClock(FormatSeconds(s)) == Some(s)
  {
    var h, m, sec := s / 3600, s / 60 % 60, s % 60;
    var a, b, c := Decimal.Padded(h, 2), Decimal.Padded(m, 2), Decimal.Padded(sec, 2);
    FormatSecondsParts(s);
    assert ReadClock(FormatSeconds(s)) == ClockOf([a, b, c]);
    ClockOfFields(a, b, c);
    assert Decimal.Value(a) == h && Decimal.Value(b) == m && Decimal.Value(c) == sec;
    SecondsOfFields(s);
  }

  lemma SecondsOfFields(s: nat)
    ensures Seconds(s / 3600, s / 60 % 60, s % 60) == s
  {
    ClockArithmetic(s);
  }

  /** Reading three digit fields. */
  lemma ClockOfFields(a: string, b: string, c: string)
    requires Decimal.AllDigits(a) && Decimal.AllDigits(b) && Decimal.AllDigits(c)
    ensures ClockOf([a, b, c]) == Some(Seconds(Decimal.Value(a), Decimal.Value(b), Decimal.Value(c)))
  {
    assert [a, b, c][0] == a && [a, b, c][1] == b && [a, b, c][2] == c;
  }

  /** Minutes and seconds are always two digits below 60; hours have at
      least two digits. */
  lemma FormatSecondsShape(s: nat)
    ensures var parts := Split(FormatSeconds(s), ':');
      |parts| == 3 && |parts[0]| >= 2 && |parts[1]| == 2 && |parts[2]| == 2 &&
      Decimal.AllDigits(parts[1]) && Decimal.AllDigits(parts[2]) &&
      Decimal.Value(parts[1]) < 60 && Decimal.Value(parts[2]) < 60
  {
    FormatSecondsParts(s);
    TwoDigitField(s / 60 % 60);
    TwoDigitField(s % 60);
  }

  lemma SplitThree(h: string, m: string, sec: string)
    requires Decimal.AllDigits(h) && Decimal.AllDigits(m) && Decimal.AllDigits(sec)
    ensures Split(h + ":" + m + ":" + sec, ':') == [h, m, sec]
  {
    NoColon(h);
    NoColon(m);
    NoColon(sec);
    SplitJoin([h, m, sec], ':');
    JoinThree(h, m, sec);
  }

  lemma TwoDigitField(n: nat)
    requires n < 60
    ensures |Decimal.Padded(n, 2)| == 2
  {
    assert Decimal.Pow10(2) == 100;
  }

  lemma NoColon(d: string)
    requires Decimal.AllDigits(d)
    ensures ':' !in d
  {
    forall i | 0 <= i < |d|
      ensures d[i] != ':'
    {
      assert Decimal.IsDigit(d[i]);
    }
  }

  lemma JoinThree(a: string, b: string, c: string)
    ensures Join([a, b, c], [':']) == a + ":" + b + ":" + c
  {
    assert [a, b, c][1..] == [b, c];
    assert [b, c][1..] == [c];
    assert Join([b, c], [':']) == b + ":" + c;
    assert Join([a, b, c], [':']) == a + ":" + (b + ":" + c);
  }

  lemma ClockArithmetic(s: nat)
    ensures (s / 3600) * 3600 + (s / 60 % 60) * 60 + s % 60 == s
  {
    var m := s / 60;
    assert s == m * 60 + s % 60;
    assert m == (m / 60) * 60 + m % 60;
    assert m / 60 == s / 3600;
  }

  /** The rendering is injective: it reads back to the duration. */
  lemma FormatSecondsInjective(s: nat, t: nat)
    requires FormatSeconds(s) == FormatSeconds(t)
    ensures s == t
  {
    FormatSecondsReadsBack(s);
    FormatSecondsReadsBack(t);
  }
}
