/** The fixed option tables shared by the settings grid and the player. */
module Constants {
  import opened Common

  /** An option of a settings grid: a stored code and its display name. */
  datatype Choice = Choice(code: string, name: string)

  const LANGUAGES: seq<Choice> := [
    Choice("auto", "Auto"),
    Choice("deu", "German"),
    Choice("eng", "English"),
    Choice("fin", "Finnish"),
    Choice("fra", "French"),
    Choice("spa", "Spanish"),
    Choice("ita", "Italian"),
    Choice("por", "Portuguese"),
    Choice("rus", "Russian"),
    Choice("pol", "Polish"),
    Choice("nld", "Dutch"),
    Choice("ces", "Czech"),
    Choice("jpn", "Japanese"),
    Choice("zho", "Chinese"),
    Choice("ara", "Arabic")
  ]

  /** Three-letter codes to the two-letter codes a subtitle track declares. */
  const LANG_CODE_MAP: map<string, string> := map[
    "eng" := "en", "deu" := "de", "fra" := "fr", "spa" := "es", "ita" := "it",
    "por" := "pt", "rus" := "ru", "jpn" := "ja", "zho" := "zh", "ara" := "ar",
    "pol" := "pl", "nld" := "nl", "ces" := "cs", "fin" := "fi"
  ]

  function IsNotAuto(c: Choice): bool {
    c.code != "auto"
  }

  /** The subtitle grid: "None" and then every language except "auto"
      (`SubtitleLanguagesShape` shows it is built that way). */
  const SUBTITLE_LANGUAGES: seq<Choice> := [
    Choice("none", "None"),
    Choice("deu", "German"),
    Choice("eng", "English"),
    Choice("fin", "Finnish"),
    Choice("fra", "French"),
    Choice("spa", "Spanish"),
    Choice("ita", "Italian"),
    Choice("por", "Portuguese"),
    Choice("rus", "Russian"),
    Choice("pol", "Polish"),
    Choice("nld", "Dutch"),
    Choice("ces", "Czech"),
    Choice("jpn", "Japanese"),
    Choice("zho", "Chinese"),
    Choice("ara", "Arabic")
  ]

  const SUBTITLE_SIZES: seq<Choice> := [
    Choice("small", "Small"), Choice("medium", "Medium"), Choice("large", "Large")
  ]

  const SUBTITLE_STYLES: seq<Choice> := [
    Choice("green", "CCC (Matrix)"), Choice("white", "White Text"), Choice("black", "Black Text")
  ]

  const PREVIEW_VIDEO_OPTIONS: seq<Choice> := [
    Choice("on", "On"), Choice("mute", "Mute"), Choice("off", "Off")
  ]

  /** Priority levels of the recording chooser. */
  const SINGLE_WEBM := 6
  const SINGLE_MP4 := 5
  const MULTI_WEBM := 4
  const MULTI_MP4 := 3
  const ANY_WEBM := 2
  const ANY_MP4 := 1

  /** The code column of an option table. */
  function Codes(cs: seq<Choice>): (r: seq<string>)
    ensures |r| == |cs| && forall i :: 0 <= i < |cs| ==> r[i] == cs[i].code
  {
    seq(|cs|, i requires 0 <= i < |cs| => cs[i].code)
  }

  /** A code is in the column exactly when some option of the table
      carries it. */
  lemma InCodes(cs: seq<Choice>, code: string)
    ensures code in Codes(cs) <==> exists c :: c in cs && c.code == code
  {
  }

  /** `Object.fromEntries(cs.map(c => [c.code, c.name]))`: later entries
      overwrite earlier ones with the same code. */
  function NameTable(cs: seq<Choice>): (m: map<string, string>)
    ensures m.Keys == set i | 0 <= i < |cs| :: cs[i].code
  {
    if cs == [] then map[]
    else NameTable(cs[..|cs| - 1])[cs[|cs| - 1].code := cs[|cs| - 1].name]
  }

  const LANGUAGE_NAMES: map<string, string> := NameTable(LANGUAGES)

  /** `LANGUAGE_NAMES[code] || code`. */
  function NameOr(code: string): string {
    if code in LANGUAGE_NAMES && LANGUAGE_NAMES[code] != "" then LANGUAGE_NAMES[code] else code
  }

  lemma {:induction false} NameTableLookup(cs: seq<Choice>, i: int)
    requires NoDuplicates(Codes(cs)) && 0 <= i < |cs|
    ensures NameTable(cs)[cs[i].code] == cs[i].name
    decreases |cs|
  {
    var n := |cs| - 1;
    if i < n {
      var init := cs[..n];
      assert Codes(init) == Codes(cs)[..n];
      assert Codes(cs)[i] != Codes(cs)[n];
      NameTableLookup(init, i);
    }
  }

  /** A cheap fingerprint of a code: its first and last characters. Codes
      with different fingerprints are different. */
  function Fingerprint(s: string): int {
    if |s| == 0 then 0 else (s[0] as int) * 100000 + s[|s| - 1] as int
  }

  lemma FingerprintsDistinct(xs: seq<string>)
    requires forall i, j :: 0 <= i < j < |xs| ==> Fingerprint(xs[i]) != Fingerprint(xs[j])
    ensures NoDuplicates(xs)
  {
  }

  /** The fingerprints of the audio grid's codes, in order. */
  const LANGUAGE_FINGERPRINTS: seq<int> := [
    9700111, 10000117, 10100103, 10200110, 10200097, 11500097, 10500097, 11200114,
    11400115, 11200108, 11000100, 9900115, 10600110, 12200111, 9700097]

  lemma LanguageFingerprints()
    ensures |LANGUAGES| == |LANGUAGE_FINGERPRINTS| == 15
    ensures forall i :: 0 <= i < 15 ==> Fingerprint(LANGUAGES[i].code) == LANGUAGE_FINGERPRINTS[i]
  {
  }

  lemma LanguageFingerprintsDistinct()
    ensures forall i, j :: 0 <= i < j < |LANGUAGE_FINGERPRINTS| ==> LANGUAGE_FINGERPRINTS[i] != LANGUAGE_FINGERPRINTS[j]
  {
  }

  lemma LanguageCodesDistinct()
    ensures NoDuplicates(Codes(LANGUAGES))
  {
    LanguageFingerprints();
    LanguageFingerprintsDistinct();
    var cs := Codes(LANGUAGES);
    assert forall i :: 0 <= i < |cs| ==> Fingerprint(cs[i]) == LANGUAGE_FINGERPRINTS[i];
    FingerprintsDistinct(cs);
  }

  /** Every language of the audio grid has its display name in the table. */
  lemma LanguageNamesCover()
    ensures forall i :: 0 <= i < |LANGUAGES| ==> LANGUAGE_NAMES[LANGUAGES[i].code] == LANGUAGES[i].name
    ensures LANGUAGE_NAMES.Keys == set i | 0 <= i < |LANGUAGES| :: LANGUAGES[i].code
  {
    LanguageCodesDistinct();
    forall i | 0 <= i < |LANGUAGES|
      ensures LANGUAGE_NAMES[LANGUAGES[i].code] == LANGUAGES[i].name
    {
      NameTableLookup(LANGUAGES, i);
    }
  }

  /** Only the first entry of the audio grid is "auto". */
  lemma OnlyFirstIsAuto()
    ensures !IsNotAuto(LANGUAGES[0])
    ensures forall k :: 1 <= k < |LANGUAGES| ==> IsNotAuto(LANGUAGES[k])
  {
    LanguageFingerprints();
    LanguageFingerprintsDistinct();
    assert Fingerprint(LANGUAGES[0].code) == LANGUAGE_FINGERPRINTS[0];
  }

  lemma FilterLanguages()
    ensures Filter(LANGUAGES, IsNotAuto) == LANGUAGES[1..]
  {
    OnlyFirstIsAuto();
    var rest := LANGUAGES[1..];
    assert forall x :: x in rest ==> IsNotAuto(x);
    FilterAll(rest, IsNotAuto);
    FilterSkipHead(LANGUAGES, IsNotAuto);
  }

  /** The subtitle grid is "None" followed by the audio grid without "auto",
      in the same order. */
  lemma SubtitleLanguagesShape()
    ensures SUBTITLE_LANGUAGES == [Choice("none", "None")] + Filter(LANGUAGES, IsNotAuto)
  {
    FilterLanguages();
    SubtitleTail();
    HeadTail(SUBTITLE_LANGUAGES, Filter(LANGUAGES, IsNotAuto));
  }

  lemma HeadTail<T>(s: seq<T>, t: seq<T>)
    requires |s| >= 1 && s[1..] == t
    ensures s == [s[0]] + t
  {
  }

  lemma SubtitleTail()
    ensures SUBTITLE_LANGUAGES[1..] == LANGUAGES[1..]
  {
  }

  /** Every language of the audio grid other than "auto" has a two-letter
      code for matching subtitle tracks. */
  lemma LangCodeMapCovers()
    ensures forall i :: 0 <= i < |LANGUAGES| && LANGUAGES[i].code != "auto" ==> LANGUAGES[i].code in LANG_CODE_MAP
  {
    forall i | 0 <= i < |LANGUAGES| && LANGUAGES[i].code != "auto"
      ensures LANGUAGES[i].code in LANG_CODE_MAP
    {
        if i == 1 { assert LANGUAGES[1].code == "deu"; }
        else if i == 2 { assert LANGUAGES[2].code == "eng"; }
        else if i == 3 { assert LANGUAGES[3].code == "fin"; }
        else if i == 4 { assert LANGUAGES[4].code == "fra"; }
        else if i == 5 { assert LANGUAGES[5].code == "spa"; }
        else if i == 6 { assert LANGUAGES[6].code == "ita"; }
        else if i == 7 { assert LANGUAGES[7].code == "por"; }
        else if i == 8 { assert LANGUAGES[8].code == "rus"; }
        else if i == 9 { assert LANGUAGES[9].code == "pol"; }
        else if i == 10 { assert LANGUAGES[10].code == "nld"; }
        else if i == 11 { assert LANGUAGES[11].code == "ces"; }
        else if i == 12 { assert LANGUAGES[12].code == "jpn"; }
        else if i == 13 { assert LANGUAGES[13].code == "zho"; }
        else if i == 14 { assert LANGUAGES[14].code == "ara"; }
    }
  }

  /** Codes within each option table are distinct, so a lookup by code in
      a grid finds exactly one cell. */
  const SUBTITLE_FINGERPRINTS: seq<int> := [
    11000101, 10000117, 10100103, 10200110, 10200097, 11500097, 10500097, 11200114,
    11400115, 11200108, 11000100, 9900115, 10600110, 12200111, 9700097]

  lemma SubtitleFingerprints()
    ensures |SUBTITLE_LANGUAGES| == |SUBTITLE_FINGERPRINTS| == 15
    ensures forall i :: 0 <= i < 15 ==> Fingerprint(SUBTITLE_LANGUAGES[i].code) == SUBTITLE_FINGERPRINTS[i]
  {
    LanguageFingerprints();
    SubtitleTail();
    forall i | 1 <= i < 15 ensures Fingerprint(SUBTITLE_LANGUAGES[i].code) == SUBTITLE_FINGERPRINTS[i] {
      assert SUBTITLE_LANGUAGES[i] == LANGUAGES[i];
      assert SUBTITLE_FINGERPRINTS[i] == LANGUAGE_FINGERPRINTS[i];
    }
  }

  lemma SubtitleFingerprintsDistinct()
    ensures forall i, j :: 0 <= i < j < |SUBTITLE_FINGERPRINTS| ==> SUBTITLE_FINGERPRINTS[i] != SUBTITLE_FINGERPRINTS[j]
  {
  }

  lemma SubtitleCodesDistinct()
    ensures NoDuplicates(Codes(SUBTITLE_LANGUAGES))
  {
    SubtitleFingerprints();
    SubtitleFingerprintsDistinct();
    var cs := Codes(SUBTITLE_LANGUAGES);
    assert forall i :: 0 <= i < |cs| ==> Fingerprint(cs[i]) == SUBTITLE_FINGERPRINTS[i];
    FingerprintsDistinct(cs);
  }

  lemma OptionCodesDistinct()
    ensures NoDuplicates(Codes(SUBTITLE_SIZES))
    ensures NoDuplicates(Codes(SUBTITLE_STYLES))
    ensures NoDuplicates(Codes(PREVIEW_VIDEO_OPTIONS))
  {
  }
}
