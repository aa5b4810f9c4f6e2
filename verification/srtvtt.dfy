/** SRT to WebVTT conversion of subtitle files: timestamp reading and
    writing, cue-text cleaning, the overlap repair pass and the output
    layout (the `WEBVTT` header, one `cue-N` block per cue, timing lines
    with '.'-separated milliseconds). The conversion starts from the cues
    the splitting pattern is meant to find, each with its sequence number,
    start and end stamps and its whole text block; `CapturedText` records
    that the pattern as written keeps only the first line of that block. */
module SrtVtt {
  import opened Common
  import Decimal

  /** An SRT timestamp `HH:MM:SS,mmm`, as the cue pattern captures it. */
  predicate WellFormedStamp(t: string) {
    |t| == 12 && t[2] == ':' && t[5] == ':' && t[8] == ',' &&
    Decimal.AllDigits(t[0..2]) && Decimal.AllDigits(t[3..5]) &&
    Decimal.AllDigits(t[6..8]) && Decimal.AllDigits(t[9..12])
  }

  /** Minutes and seconds below 60. */
  predicate Normal(t: string)
    requires WellFormedStamp(t)
  {
    Decimal.Value(t[3..5]) < 60 && Decimal.Value(t[6..8]) < 60
  }

  /** `parseTimestamp`: the stamp in milliseconds. On a well-formed stamp
      splitting at ',' and ':' yields exactly its four digit fields. */
  function ParseTimestamp(t: string): nat
    requires WellFormedStamp(t)
  {
    Decimal.Value(t[0..2]) * 3600000 + Decimal.Value(t[3..5]) * 60000 +
    Decimal.Value(t[6..8]) * 1000 + Decimal.Value(t[9..12])
  }

  function Stamp(h: string, m: string, s: string, ms: string): string {
    h + ":" + m + ":" + s + "," + ms
  }

  /** `formatTimestamp`: hours, minutes and seconds padded to two digits,
      milliseconds to three. */
  function FormatTimestamp(x: nat): string {
    Stamp(Decimal.Padded(x / 3600000, 2), Decimal.Padded(x % 3600000 / 60000, 2),
          Decimal.Padded(x % 60000 / 1000, 2), Decimal.Padded(x % 1000, 3))
  }

  /** The fields of a stamp built from fields of the right widths. */
  lemma StampFields(h: string, m: string, s: string, ms: string)
    requires |h| == 2 && |m| == 2 && |s| == 2 && |ms| == 3
    ensures var t := Stamp(h, m, s, ms);
      |t| == 12 && t[2] == ':' && t[5] == ':' && t[8] == ',' &&
      t[0..2] == h && t[3..5] == m && t[6..8] == s && t[9..12] == ms
  {
  }

  /** A well-formed stamp is rebuilt from its fields. */
  lemma StampOfFields(t: string)
    requires WellFormedStamp(t)
    ensures t == Stamp(t[0..2], t[3..5], t[6..8], t[9..12])
  {
  }

  lemma MillisArithmetic(x: nat)
    ensures (x / 3600000) * 3600000 + (x % 3600000 / 60000) * 60000 + (x % 60000 / 1000) * 1000 + x % 1000 == x
    ensures x % 3600000 / 60000 < 60 && x % 60000 / 1000 < 60
  {
    var r := x % 3600000;
    assert x == (x / 3600000) * 3600000 + r;
    assert r == (r / 60000) * 60000 + r % 60000;
    assert r % 60000 == x % 60000;
    var q := x % 60000;
    assert q == (q / 1000) * 1000 + q % 1000;
    assert q % 1000 == x % 1000;
  }

  lemma FieldsArithmetic(x: nat, h: nat, m: nat, s: nat, ms: nat)
    requires m < 60 && s < 60 && ms < 1000
    requires x == h * 3600000 + m * 60000 + s * 1000 + ms
    ensures x / 3600000 == h && x % 3600000 / 60000 == m && x % 60000 / 1000 == s && x % 1000 == ms
  {
    var sub := s * 1000 + ms;
    var low := m * 60000 + sub;
    DivModUnique(x, 3600000, h, low);
    DivModUnique(low, 60000, m, sub);
    DivModUnique(x, 60000, h * 60 + m, sub);
    DivModUnique(sub, 1000, s, ms);
    DivModUnique(x, 1000, h * 3600 + m * 60 + s, ms);
  }

  lemma PaddedWidth(n: nat, width: nat)
    requires 2 <= width <= 3 && n < Decimal.Pow10(width)
    ensures |Decimal.Padded(n, width)| == width
  {
  }

  /** Writing then reading a time below 100 hours gives the time back, and
      the text written is a well-formed stamp with minutes and seconds
      below 60. */
  lemma ParseFormat(x: nat)
    requires x < 360000000
    ensures WellFormedStamp(FormatTimestamp(x))
    ensures Normal(FormatTimestamp(x))
    ensures ParseTimestamp(FormatTimestamp(x)) == x
  {
    var hv, mv, sv, msv := x / 3600000, x % 3600000 / 60000, x % 60000 / 1000, x % 1000;
    MillisArithmetic(x);
    assert Decimal.Pow10(2) == 100 && Decimal.Pow10(3) == 1000;
    var h, m, s, ms := Decimal.Padded(hv, 2), Decimal.Padded(mv, 2), Decimal.Padded(sv, 2), Decimal.Padded(msv, 3);
    PaddedWidth(hv, 2);
    PaddedWidth(mv, 2);
    PaddedWidth(sv, 2);
    PaddedWidth(msv, 3);
    StampFields(h, m, s, ms);
  }

  /** Reading then writing a well-formed stamp with minutes and seconds
      below 60 gives the same text back. */
  lemma FormatParse(t: string)
    requires WellFormedStamp(t) && Normal(t)
    ensures FormatTimestamp(ParseTimestamp(t)) == t
  {
    var h, m, s, ms := t[0..2], t[3..5], t[6..8], t[9..12];
    var hv, mv, sv, msv := Decimal.Value(h), Decimal.Value(m), Decimal.Value(s), Decimal.Value(ms);
    Decimal.ValueBound(ms);
    assert Decimal.Pow10(3) == 1000;
    var x := ParseTimestamp(t);
    assert x == hv * 3600000 + mv * 60000 + sv * 1000 + msv;
    FieldsArithmetic(x, hv, mv, sv, msv);
    PaddedFields(h, m, s, ms);
    assert FormatTimestamp(x) == Stamp(h, m, s, ms);
    StampOfFields(t);
  }

  lemma PaddedFields(h: string, m: string, s: string, ms: string)
    requires |h| == 2 && |m| == 2 && |s| == 2 && |ms| == 3
    requires Decimal.AllDigits(h) && Decimal.AllDigits(m) && Decimal.AllDigits(s) && Decimal.AllDigits(ms)
    ensures Decimal.Padded(Decimal.Value(h), 2) == h && Decimal.Padded(Decimal.Value(m), 2) == m
    ensures Decimal.Padded(Decimal.Value(s), 2) == s && Decimal.Padded(Decimal.Value(ms), 3) == ms
  {
    Decimal.PaddedValue(h);
    Decimal.PaddedValue(m);
    Decimal.PaddedValue(s);
    Decimal.PaddedValue(ms);
  }

  /** A cue: its sequence number, start and end stamps and text. */
  datatype Cue = Cue(number: string, start: string, end: string, text: string)

  predicate Stamped(cues: seq<Cue>) {
    forall i :: 0 <= i < |cues| ==> WellFormedStamp(cues[i].start) && WellFormedStamp(cues[i].end)
  }

  /** A kept line: non-empty, already trimmed and a single line. */
  predicate CleanLine(l: string) {
    l != "" && !IsSpace(l[0]) && !IsSpace(l[|l| - 1]) && '\n' !in l
  }

  predicate AllClean(lines: seq<string>) {
    forall i :: 0 <= i < |lines| ==> CleanLine(lines[i])
  }

  predicate SingleLines(parts: seq<string>) {
    forall i :: 0 <= i < |parts| ==> '\n' !in parts[i]
  }

  /** `lines.map(line => line.trim()).filter(line => line.length > 0)`. */
  function TrimAndDropBlank(parts: seq<string>): (r: seq<string>)
    ensures |r| <= |parts|
    ensures SingleLines(parts) ==> AllClean(r)
  {
    if parts == [] then []
    else
      var t := Trim(parts[0]);
      var rest := TrimAndDropBlank(parts[1..]);
      SingleLinesTail(parts);
      TrimmedLine(parts[0]);
      if t == "" then rest else [t] + rest
  }

  lemma SingleLinesTail(parts: seq<string>)
    requires parts != []
    ensures SingleLines(parts) ==> SingleLines(parts[1..]) && '\n' !in parts[0]
  {
    if SingleLines(parts) {
      forall i | 0 <= i < |parts| - 1
        ensures '\n' !in parts[1..][i]
      {
        assert parts[1..][i] == parts[i + 1];
      }
    }
  }

  lemma TrimmedLine(p: string)
    ensures '\n' !in p && Trim(p) != "" ==> CleanLine(Trim(p))
  {
    TrimSubset(p);
  }

  /** A line is kept, trimmed, exactly when it is not blank. */
  lemma {:induction false} TrimAndDropBlankKeeps(parts: seq<string>, l: string)
    ensures l in TrimAndDropBlank(parts) <==> l != "" && exists i :: 0 <= i < |parts| && Trim(parts[i]) == l
    decreases |parts|
  {
    if parts != [] {
      TrimAndDropBlankKeeps(parts[1..], l);
      if l != "" && exists i :: 0 <= i < |parts| && Trim(parts[i]) == l {
        var i :| 0 <= i < |parts| && Trim(parts[i]) == l;
        if i > 0 {
          assert Trim(parts[1..][i - 1]) == l;
        }
      }
      if l != "" && exists i :: 0 <= i < |parts[1..]| && Trim(parts[1..][i]) == l {
        var i :| 0 <= i < |parts[1..]| && Trim(parts[1..][i]) == l;
        assert Trim(parts[i + 1]) == l;
      }
    }
  }

  /** Clean lines pass through unchanged. */
  lemma {:induction false} TrimAndDropBlankClean(lines: seq<string>)
    requires AllClean(lines)
    ensures TrimAndDropBlank(lines) == lines
    decreases |lines|
  {
    if lines != [] {
      assert AllClean(lines[1..]) by {
        forall i | 0 <= i < |lines| - 1 ensures CleanLine(lines[1..][i]) {
          assert lines[1..][i] == lines[i + 1];
        }
      }
      TrimAndDropBlankClean(lines[1..]);
      assert CleanLine(lines[0]);
      TrimmedIsFixed(lines[0]);
      assert TrimAndDropBlank(lines) == [lines[0]] + TrimAndDropBlank(lines[1..]);
      assert lines == [lines[0]] + lines[1..];
    }
  }

  /** The lines kept from a cue's text: trimmed, blank ones removed. */
  function CleanLines(text: string): (r: seq<string>)
    ensures AllClean(r)
  {
    TrimAndDropBlank(Split(Trim(text), '\n'))
  }

  function CleanText(text: string): string {
    Join(CleanLines(text), "\n")
  }

  lemma {:induction false} JoinEnds(parts: seq<string>, sep: string)
    requires |parts| >= 1 && forall i :: 0 <= i < |parts| ==> parts[i] != ""
    ensures var j := Join(parts, sep);
      |j| >= 1 && j[0] == parts[0][0] && j[|j| - 1] == parts[|parts| - 1][|parts[|parts| - 1]| - 1]
    decreases |parts|
  {
    if |parts| > 1 {
      JoinEnds(parts[1..], sep);
    }
  }

  /** Joining clean lines and splitting again gives the lines back. */
  lemma SplitCleanJoin(lines: seq<string>)
    requires lines != [] && AllClean(lines)
    ensures Split(Join(lines, "\n"), '\n') == lines
  {
    SplitJoin(lines, '\n');
  }

  /** A cleaned text splits back into exactly the kept lines. */
  lemma CleanTextLines(text: string)
    requires CleanLines(text) != []
    ensures Split(CleanText(text), '\n') == CleanLines(text)
  {
    SplitCleanJoin(CleanLines(text));
  }

  /** Clean lines joined have no space at either end. */
  lemma JoinCleanTrimmed(lines: seq<string>)
    requires lines != [] && AllClean(lines)
    ensures Trim(Join(lines, "\n")) == Join(lines, "\n") != ""
  {
    JoinEnds(lines, "\n");
    TrimmedIsFixed(Join(lines, "\n"));
  }

  /** A text is dropped exactly when it has no non-blank line. */
  lemma CleanTextEmpty(text: string)
    ensures CleanText(text) == "" <==> CleanLines(text) == []
  {
    if CleanLines(text) != [] {
      JoinCleanTrimmed(CleanLines(text));
    }
  }

  /** Cleaning clean lines keeps them all. */
  lemma CleanAgain(lines: seq<string>)
    requires lines != [] && AllClean(lines)
    ensures CleanLines(Join(lines, "\n")) == lines
  {
    JoinCleanTrimmed(lines);
    SplitCleanJoin(lines);
    TrimAndDropBlankClean(lines);
  }

  /** Cleaning a cleaned text changes nothing. */
  lemma CleanTextIdempotent(text: string)
    ensures CleanText(CleanText(text)) == CleanText(text)
  {
    var lines := CleanLines(text);
    if lines == [] {
      assert CleanText(text) == "";
      SplitNoSep("", '\n');
      assert TrimAndDropBlank([""]) == [];
    } else {
      CleanAgain(lines);
    }
  }

  /** The first line of a block that holds more than whitespace. */
  function FirstNonBlank(lines: seq<string>): (l: string)
    ensures l == "" || l in lines
  {
    if lines == [] then ""
    else if Trim(lines[0]) != "" then lines[0]
    else FirstNonBlank(lines[1..])
  }

  /** The text the cue pattern (`subtitleConverter.js:48`) as written
      captures from a cue's block, the lines between its timing line and the
      next cue header: the `\s*\n` after the timing line swallows the blank
      lines, and under the `m` flag `$` matches at every line end, so the
      lazy text group stops at the end of the first line with text. */
  function CapturedText(block: string): (t: string)
    ensures '\n' !in t
  {
    FirstNonBlank(Split(block, '\n'))
  }

  /** As written, every converted cue has at most one line of text. */
  lemma CapturedIsOneLine(block: string)
    ensures |CleanLines(CapturedText(block))| <= 1
  {
    var t := CapturedText(block);
    TrimSubset(t);
    SplitNoSep(Trim(t), '\n');
  }

  /** A two-line cue loses its second line as written, and keeps it when
      the whole block is cleaned. */
  lemma MultiLineCueTruncated()
    ensures CleanText(CapturedText("Hello\nWorld")) == "Hello"
    ensures CleanText("Hello\nWorld") == "Hello\nWorld"
  {
    var lines := ["Hello", "World"];
    assert AllClean(lines);
    assert Join(lines, "\n") == "Hello\nWorld";
    CleanAgain(lines);
    SplitCleanJoin(lines);
    JoinCleanTrimmed(["Hello"]);
    assert CapturedText("Hello\nWorld") == "Hello";
    CleanAgain(["Hello"]);
  }

  predicate HasText(c: Cue) {
    CleanText(c.text) != ""
  }

  function Cleaned(c: Cue): Cue {
    c.(text := CleanText(c.text))
  }

  /** The first pass: cues whose cleaned text is empty are skipped, the
      others keep their number and stamps with the cleaned text. */
  function CollectCues(raw: seq<Cue>): (r: seq<Cue>)
    ensures |r| <= |raw|
    ensures forall i :: 0 <= i < |r| ==> r[i].text != ""
    ensures Stamped(raw) ==> Stamped(r)
  {
    if raw == [] then []
    else
      StampedTail(raw);
      var rest := CollectCues(raw[1..]);
      if HasText(raw[0]) then
        StampedCons(Cleaned(raw[0]), rest);
        [Cleaned(raw[0])] + rest
      else rest
  }

  lemma StampedCons(c: Cue, rest: seq<Cue>)
    ensures WellFormedStamp(c.start) && WellFormedStamp(c.end) && Stamped(rest) ==> Stamped([c] + rest)
  {
    if WellFormedStamp(c.start) && WellFormedStamp(c.end) && Stamped(rest) {
      forall i | 0 <= i < |rest| + 1
        ensures WellFormedStamp(([c] + rest)[i].start) && WellFormedStamp(([c] + rest)[i].end)
      {
        if i > 0 {
          assert ([c] + rest)[i] == rest[i - 1];
        }
      }
    }
  }

  lemma StampedTail(raw: seq<Cue>)
    requires raw != []
    ensures Stamped(raw) ==> Stamped(raw[1..])
  {
    if Stamped(raw) {
      forall i | 0 <= i < |raw| - 1
        ensures WellFormedStamp(raw[1..][i].start) && WellFormedStamp(raw[1..][i].end)
      {
        assert raw[1..][i] == raw[i + 1];
      }
    }
  }

  /** The kept cues are exactly the cleaned forms of the matches with a
      non-blank text, in order. */
  lemma {:induction false} CollectCuesKeeps(raw: seq<Cue>)
    ensures CollectCues(raw) == Map(Filter(raw, HasText), Cleaned)
    decreases |raw|
  {
    if raw != [] {
      CollectCuesKeeps(raw[1..]);
      var c := raw[0];
      assert raw == [c] + raw[1..];
      FilterAppend([c], raw[1..], HasText);
      assert Filter([c], HasText) == if HasText(c) then [c] else [];
      MapAppend(Filter([c], HasText), Filter(raw[1..], HasText), Cleaned);
    }
  }

  lemma MapAppend(a: seq<Cue>, b: seq<Cue>, f: Cue -> Cue)
    ensures Map(a + b, f) == Map(a, f) + Map(b, f)
  {
  }

  function Max(a: int, b: int): (r: int)
    ensures r >= a && r >= b && (r == a || r == b)
  {
    if a >= b then a else b
  }

  /** One step of the overlap pass: when the current cue runs past the
      next cue's start, its end moves to 100 ms before that start, but
      never to less than 100 ms after its own start. */
  function AdjustEnd(current: Cue, next: Cue): string
    requires WellFormedStamp(current.start) && WellFormedStamp(current.end) && WellFormedStamp(next.start)
  {
    var currentEnd := ParseTimestamp(current.end);
    var nextStart := ParseTimestamp(next.start);
    if currentEnd > nextStart then FormatTimestamp(PulledBack(current, next)) else current.end
  }

  /** The end an overlapping cue is pulled back to, in milliseconds. */
  function PulledBack(current: Cue, next: Cue): (t: nat)
    requires WellFormedStamp(current.start) && WellFormedStamp(next.start)
    ensures t >= ParseTimestamp(current.start) + 100
  {
    Max(ParseTimestamp(next.start) - 100, ParseTimestamp(current.start) + 100)
  }

  /** The end the overlap pass gives cue `i`; the last cue is untouched. */
  function RepairedEnd(cues: seq<Cue>, i: int): string
    requires 0 <= i < |cues| && Stamped(cues)
  {
    if i + 1 < |cues| then AdjustEnd(cues[i], cues[i + 1]) else cues[i].end
  }

  /** Every cue with its end repaired, all at once. */
  function Repaired(cues: seq<Cue>): seq<Cue>
    requires Stamped(cues)
  {
    seq(|cues|, i requires 0 <= i < |cues| => RepairCue(cues, i))
  }

  function RepairCue(cues: seq<Cue>, i: int): Cue
    requires 0 <= i < |cues| && Stamped(cues)
  {
    cues[i].(end := RepairedEnd(cues, i))
  }

  /** The overlap pass: a left-to-right walk over the cues that rewrites
      each end in place. Each step reads only its own cue's end, which
      earlier steps have not touched, and the next cue's start, which no
      step touches. */
  method FixOverlaps(cues: seq<Cue>) returns (r: seq<Cue>)
    requires Stamped(cues)
    ensures |r| == |cues|
    ensures forall i :: 0 <= i < |r| ==>
      r[i].number == cues[i].number && r[i].start == cues[i].start &&
      r[i].text == cues[i].text && r[i].end == RepairedEnd(cues, i)
    ensures r == Repaired(cues)
  {
    r := cues;
    var i := 0;
    while i + 1 < |r|
      invariant |r| == |cues|
      invariant 0 <= i <= |cues| || |cues| == 0
      invariant forall j :: 0 <= j < |r| ==> r[j] == if j < i then RepairCue(cues, j) else cues[j]
    {
      assert r[i] == cues[i] && r[i + 1] == cues[i + 1];
      RepairStep(cues, i);
      r := r[i := r[i].(end := AdjustEnd(r[i], r[i + 1]))];
      i := i + 1;
    }
    assert forall j :: 0 <= j < |r| ==> r[j] == RepairCue(cues, j);
  }

  lemma RepairStep(cues: seq<Cue>, i: int)
    requires Stamped(cues) && 0 <= i && i + 1 < |cues|
    ensures cues[i].(end := AdjustEnd(cues[i], cues[i + 1])) == RepairCue(cues, i)
  {
  }

  /** A repaired end lies at least 100 ms after its own start, and the
      repair removes the overlap exactly when the next cue starts at least
      100 ms after this one. The bounds keep every time below 100 hours,
      where stamps read back exactly. */
  lemma AdjustEndBounds(current: Cue, next: Cue)
    requires WellFormedStamp(current.start) && WellFormedStamp(current.end) && WellFormedStamp(next.start)
    requires ParseTimestamp(current.end) > ParseTimestamp(next.start)
    requires ParseTimestamp(current.start) + 100 < 360000000 && ParseTimestamp(next.start) < 360000100
    ensures WellFormedStamp(AdjustEnd(current, next))
    ensures ParseTimestamp(AdjustEnd(current, next)) >= ParseTimestamp(current.start) + 100
    ensures ParseTimestamp(AdjustEnd(current, next)) < ParseTimestamp(next.start)
      <==> ParseTimestamp(current.start) + 100 < ParseTimestamp(next.start)
  {
    AdjustEndValue(current, next);
  }

  lemma AdjustEndValue(current: Cue, next: Cue)
    requires WellFormedStamp(current.start) && WellFormedStamp(current.end) && WellFormedStamp(next.start)
    requires ParseTimestamp(current.end) > ParseTimestamp(next.start)
    requires ParseTimestamp(current.start) + 100 < 360000000 && ParseTimestamp(next.start) < 360000100
    ensures WellFormedStamp(AdjustEnd(current, next))
    ensures ParseTimestamp(AdjustEnd(current, next)) == Max(ParseTimestamp(next.start) - 100, ParseTimestamp(current.start) + 100)
  {
    AdjustEndOverlap(current, next);
    ParseFormat(PulledBack(current, next));
  }

  lemma AdjustEndOverlap(current: Cue, next: Cue)
    requires WellFormedStamp(current.start) && WellFormedStamp(current.end) && WellFormedStamp(next.start)
    requires ParseTimestamp(current.end) > ParseTimestamp(next.start)
    ensures AdjustEnd(current, next) == FormatTimestamp(PulledBack(current, next))
  {
  }

  /** A cue that does not run past the next one keeps its end. */
  lemma AdjustEndKeeps(current: Cue, next: Cue)
    requires WellFormedStamp(current.start) && WellFormedStamp(current.end) && WellFormedStamp(next.start)
    requires ParseTimestamp(current.end) <= ParseTimestamp(next.start)
    ensures AdjustEnd(current, next) == current.end
  {
  }

  /** A cue whose end lies after its start. */
  predicate Ordered(c: Cue) {
    WellFormedStamp(c.start) && WellFormedStamp(c.end) && ParseTimestamp(c.start) < ParseTimestamp(c.end)
  }

  /** A cue that starts early enough for its repaired end to stay below
      100 hours, where stamps read back exactly. */
  predicate EarlyStart(c: Cue) {
    WellFormedStamp(c.start) && ParseTimestamp(c.start) + 100 < 360000000
  }

  /** The repair of one cue keeps its end after its start and, when the
      next cue starts more than 100 ms later, no later than that start. */
  lemma RepairedCueTiming(cues: seq<Cue>, i: int)
    requires Stamped(cues) && 0 <= i < |cues|
    requires forall k :: 0 <= k < |cues| ==> Ordered(cues[k]) && EarlyStart(cues[k])
    ensures Ordered(RepairCue(cues, i))
    ensures i + 1 < |cues| && ParseTimestamp(cues[i].start) + 100 < ParseTimestamp(cues[i + 1].start) ==>
      ParseTimestamp(RepairCue(cues, i).end) <= ParseTimestamp(cues[i + 1].start)
  {
    assert Ordered(cues[i]);
    if i + 1 < |cues| {
      assert EarlyStart(cues[i]) && EarlyStart(cues[i + 1]);
      if ParseTimestamp(cues[i].end) > ParseTimestamp(cues[i + 1].start) {
        AdjustEndBounds(cues[i], cues[i + 1]);
      } else {
        AdjustEndKeeps(cues[i], cues[i + 1]);
      }
    }
  }

  /** Over a whole file whose cues each end after they start: every
      repaired cue still ends after it starts, and a cue followed more than
      100 ms later by the next one no longer overlaps it. */
  lemma RepairedTimings(cues: seq<Cue>)
    requires Stamped(cues)
    requires forall k :: 0 <= k < |cues| ==> Ordered(cues[k]) && EarlyStart(cues[k])
    ensures |Repaired(cues)| == |cues|
    ensures forall i :: 0 <= i < |cues| ==> Ordered(Repaired(cues)[i])
    ensures forall i :: 0 <= i < |cues| - 1 && ParseTimestamp(cues[i].start) + 100 < ParseTimestamp(cues[i + 1].start) ==>
      Ordered(Repaired(cues)[i]) && ParseTimestamp(Repaired(cues)[i].end) <= ParseTimestamp(cues[i + 1].start)
  {
    forall i | 0 <= i < |cues|
      ensures Ordered(Repaired(cues)[i])
      ensures i + 1 < |cues| && ParseTimestamp(cues[i].start) + 100 < ParseTimestamp(cues[i + 1].start) ==>
        ParseTimestamp(Repaired(cues)[i].end) <= ParseTimestamp(cues[i + 1].start)
    {
      RepairedCueTiming(cues, i);
    }
  }

  /** The cleaning pass keeps each surviving cue's stamps, so timing
      conditions on every match hold for every collected cue. */
  lemma CollectedFrom(raw: seq<Cue>, i: int)
    requires 0 <= i < |CollectCues(raw)|
    ensures exists c :: c in raw && CollectCues(raw)[i].start == c.start && CollectCues(raw)[i].end == c.end
  {
    CollectCuesKeeps(raw);
    var kept := Filter(raw, HasText);
    assert CollectCues(raw)[i] == Cleaned(kept[i]);
    assert kept[i] in raw;
  }

  /** The conversion of matches that each end after they start, early
      enough: every output cue ends after it starts, and consecutive cues
      more than 100 ms apart do not overlap. */
  lemma ConvertedTimings(raw: seq<Cue>)
    requires Stamped(raw)
    requires forall c :: c in raw ==> Ordered(c) && EarlyStart(c)
    ensures var cues := CollectCues(raw);
      forall i :: 0 <= i < |cues| ==> Ordered(Repaired(cues)[i])
    ensures var cues := CollectCues(raw);
      forall i :: 0 <= i < |cues| - 1 && ParseTimestamp(cues[i].start) + 100 < ParseTimestamp(cues[i + 1].start) ==>
        Ordered(Repaired(cues)[i]) && ParseTimestamp(Repaired(cues)[i].end) <= ParseTimestamp(cues[i + 1].start)
  {
    var cues := CollectCues(raw);
    forall k | 0 <= k < |cues| ensures Ordered(cues[k]) && EarlyStart(cues[k]) {
      CollectedFrom(raw, k);
    }
    RepairedTimings(cues);
  }

  /** The WebVTT form of a stamp: the first ',' becomes '.'. */
  function VttStamp(t: string): string {
    ReplaceFirst(t, ",", ".")
  }

  /** On a well-formed stamp only the millisecond separator changes. */
  lemma VttStampOfStamp(t: string)
    requires WellFormedStamp(t)
    ensures VttStamp(t) == t[..8] + "." + t[9..]
    ensures |VttStamp(t)| == 12
  {
    assert ',' !in t[..8] by {
      forall k | 0 <= k < 8 ensures t[k] != ',' {
        if k < 2 {
          assert t[0..2][k] == t[k];
        } else if k == 2 || k == 5 {
        } else if k < 5 {
          assert t[3..5][k - 3] == t[k];
        } else {
          assert t[6..8][k - 6] == t[k];
        }
      }
    }
    assert t == t[..8] + t[8..];
    ReplaceFirstAfter(t[..8], t[8..], ",", ".");
  }

  function Block(c: Cue): string {
    "cue-" + c.number + "\n" + VttStamp(c.start) + " --> " + VttStamp(c.end) + "\n" + c.text
  }

  function Blocks(cues: seq<Cue>): (r: seq<string>)
    ensures |r| == |cues|
    ensures forall i :: 0 <= i < |cues| ==> r[i] == Block(cues[i])
  {
    seq(|cues|, i requires 0 <= i < |cues| => Block(cues[i]))
  }

  const HEADER := "WEBVTT\n\n"

  /** The third pass and the final assembly: the header, the cue blocks
      separated by a blank line, and a closing newline. */
  function Serialize(cues: seq<Cue>): string {
    HEADER + Join(Blocks(cues), "\n\n") + "\n"
  }

  /** Each block is the cue identifier line, the timing line with
      '.'-separated milliseconds, and the text. */
  lemma BlockShape(c: Cue)
    requires WellFormedStamp(c.start) && WellFormedStamp(c.end)
    ensures Block(c) == "cue-" + c.number + "\n" + c.start[..8] + "." + c.start[9..] + " --> " +
      c.end[..8] + "." + c.end[9..] + "\n" + c.text
  {
    VttStampOfStamp(c.start);
    VttStampOfStamp(c.end);
  }

  /** The output opens with the WebVTT signature line and a blank line and
      ends with a newline; a file with no cues is just that. */
  lemma SerializeShape(cues: seq<Cue>)
    ensures StartsWith(Serialize(cues), HEADER)
    ensures Serialize(cues)[|Serialize(cues)| - 1] == '\n'
    ensures cues == [] ==> Serialize(cues) == "WEBVTT\n\n\n"
    ensures |cues| == 1 ==> Serialize(cues) == HEADER + Block(cues[0]) + "\n"
  {
    var out := Serialize(cues);
    assert out == HEADER + (Join(Blocks(cues), "\n\n") + "\n");
  }

  /** `convertSrtToVtt` on the matches of the cue pattern. */
  method ConvertSrtToVtt(raw: seq<Cue>) returns (vtt: string)
    requires Stamped(raw)
    ensures vtt == Serialize(Repaired(CollectCues(raw)))
  {
    var cues := CollectCues(raw);
    var fixed := FixOverlaps(cues);
    vtt := Serialize(fixed);
  }

  /** `fetchAndConvertSubtitle` after the download: a text whose trimmed
      form already starts with the WebVTT signature is kept as it is;
      anything else is converted from the cue matches of its text. */
  method SubtitleText(text: string, matches: seq<Cue>) returns (vtt: string)
    requires Stamped(matches)
    ensures StartsWith(Trim(text), "WEBVTT") ==> vtt == text
    ensures StartsWith(Trim(vtt), "WEBVTT")
  {
    if StartsWith(Trim(text), "WEBVTT") {
      vtt := text;
    } else {
      vtt := ConvertSrtToVtt(matches);
      SignatureSurvivesTrim(vtt);
    }
  }

  lemma SignatureSurvivesTrim(s: string)
    requires StartsWith(s, HEADER)
    ensures StartsWith(Trim(s), "WEBVTT")
  {
    assert s[0] == 'W' && s[5] == 'T';
    assert TrimStart(s) == s;
    TrimEndKeeps(s, 5);
    var r := TrimEnd(s);
    assert r == s[..|r|];
    assert r[..6] == s[..6];
  }
}
