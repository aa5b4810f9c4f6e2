/** Small shared vocabulary: optional values, key events and the handful of
    JavaScript string and arithmetic primitives the application relies on. */
module Common {

  datatype Option<+T> = None | Some(value: T) {
    function GetOr(default: T): T {
      match this
      case Some(v) => v
      case None => default
    }
  }

  /** A JavaScript number that is an integer or NaN (what `% 0` yields). */
  datatype Num = Int(value: int) | NaN

  /** A keydown event as the browser delivers it: the logical key name and
      the legacy numeric key code (remote controls send device codes). */
  datatype KeyEvent = KeyEvent(key: string, code: int)

  /** JavaScript's `%`: the remainder takes the sign of the dividend. */
  function JsRem(a: int, b: int): (r: int)
    requires b != 0
    ensures a >= 0 ==> r == a % b
    ensures a < 0 ==> r <= 0
    ensures -(if b < 0 then -b else b) < r < (if b < 0 then -b else b)
  {
    if a >= 0 then a % b else -((-a) % b)
  }

  /** Cyclic successor and predecessor of a cursor over `n` entries, as the
      source writes them: `(i + 1) % n` and `(i - 1 + n) % n`. */
  function CycleNext(i: int, n: int): (r: int)
    requires 0 <= i < n
    ensures 0 <= r < n
    ensures i + 1 < n ==> r == i + 1
    ensures i + 1 == n ==> r == 0
  {
    JsRem(i + 1, n)
  }

  function CyclePrev(i: int, n: int): (r: int)
    requires 0 <= i < n
    ensures 0 <= r < n
    ensures i > 0 ==> r == i - 1
    ensures i == 0 ==> r == n - 1
  {
    JsRem(i - 1 + n, n)
  }

  lemma CycleInverse(i: int, n: int)
    requires 0 <= i < n
    ensures CyclePrev(CycleNext(i, n), n) == i
    ensures CycleNext(CyclePrev(i, n), n) == i
  {
  }

  predicate StartsWith(s: string, prefix: string) {
    |prefix| <= |s| && s[..|prefix|] == prefix
  }

  /** `s.includes(sub)`. */
  predicate Contains(s: string, sub: string)
    decreases |s|
  {
    StartsWith(s, sub) || (|s| > 0 && Contains(s[1..], sub))
  }

  lemma {:induction false} ContainsAt(s: string, sub: string, i: nat)
    requires i + |sub| <= |s| && s[i..i + |sub|] == sub
    ensures Contains(s, sub)
    decreases i
  {
    if i == 0 {
      assert StartsWith(s, sub);
    } else {
      assert s[1..][i - 1..i - 1 + |sub|] == s[i..i + |sub|];
      ContainsAt(s[1..], sub, i - 1);
    }
  }

  lemma {:induction false} ContainsWitness(s: string, sub: string) returns (i: nat)
    requires Contains(s, sub)
    ensures i + |sub| <= |s| && s[i..i + |sub|] == sub
    decreases |s|
  {
    if StartsWith(s, sub) {
      i := 0;
    } else {
      var j := ContainsWitness(s[1..], sub);
      assert s[1..][j..j + |sub|] == s[j + 1..j + 1 + |sub|];
      i := j + 1;
    }
  }

  lemma ContainsInLeft(a: string, b: string, sub: string)
    requires Contains(a, sub)
    ensures Contains(a + b, sub)
  {
    var i := ContainsWitness(a, sub);
    assert (a + b)[i..i + |sub|] == a[i..i + |sub|];
    ContainsAt(a + b, sub, i);
  }

  lemma ContainsInRight(a: string, b: string, sub: string)
    requires Contains(b, sub)
    ensures Contains(a + b, sub)
  {
    var i := ContainsWitness(b, sub);
    assert (a + b)[|a| + i..|a| + i + |sub|] == b[i..i + |sub|];
    ContainsAt(a + b, sub, |a| + i);
  }

  /** ASCII case folding, as `toLowerCase` does on the labels used here. */
  function LowerChar(c: char): char {
    if 'A' <= c <= 'Z' then (c as int + 32) as char else c
  }

  function Lower(s: string): (r: string)
    ensures |r| == |s|
    ensures forall i :: 0 <= i < |s| ==> r[i] == LowerChar(s[i])
  {
    if s == [] then [] else [LowerChar(s[0])] + Lower(s[1..])
  }

  /** `s.replace(pattern, replacement)` with a string pattern: only the first
      occurrence is replaced. */
  function ReplaceFirst(s: string, pat: string, rep: string): (r: string)
    requires |pat| > 0
    decreases |s|
  {
    if StartsWith(s, pat) then rep + s[|pat|..]
    else if s == [] then []
    else [s[0]] + ReplaceFirst(s[1..], pat, rep)
  }

  lemma ReplaceFirstAtStart(s: string, pat: string, rep: string)
    requires |pat| > 0 && StartsWith(s, pat)
    ensures ReplaceFirst(s, pat, rep) == rep + s[|pat|..]
  {
  }

  lemma {:induction false} ReplaceFirstAbsent(s: string, pat: string, rep: string)
    requires |pat| > 0 && !Contains(s, pat)
    ensures ReplaceFirst(s, pat, rep) == s
    decreases |s|
  {
    if s != [] {
      ReplaceFirstAbsent(s[1..], pat, rep);
    }
  }

  /** Replacing a one-character pattern skips a prefix that lacks it. */
  lemma {:induction false} ReplaceFirstAfter(a: string, b: string, pat: string, rep: string)
    requires |pat| == 1 && pat[0] !in a && StartsWith(b, pat)
    ensures ReplaceFirst(a + b, pat, rep) == a + rep + b[1..]
    decreases |a|
  {
    if a == [] {
      assert a + b == b;
    } else {
      var s := a + b;
      assert s[1..] == a[1..] + b;
      assert s[0] == a[0] && a[0] != pat[0];
      assert s[..1] != pat by {
        assert s[..1][0] == s[0];
      }
      ReplaceFirstAfter(a[1..], b, pat, rep);
      assert ReplaceFirst(s, pat, rep) == [s[0]] + ReplaceFirst(s[1..], pat, rep);
      assert [a[0]] + (a[1..] + rep + b[1..]) == a + rep + b[1..];
    }
  }

  /** `[...new Set(xs)]`: the distinct values in order of first occurrence. */
  function Distinct<T(==,!new)>(xs: seq<T>): (r: seq<T>)
    ensures forall x :: x in r <==> x in xs
    ensures NoDuplicates(r)
    ensures |r| <= |xs|
  {
    DistinctFrom(xs, [])
  }

  function DistinctFrom<T(==,!new)>(xs: seq<T>, seen: seq<T>): (r: seq<T>)
    requires NoDuplicates(seen)
    ensures forall x :: x in r <==> x in seen || x in xs
    ensures NoDuplicates(r)
    ensures |seen| <= |r| <= |seen| + |xs|
    ensures r[..|seen|] == seen
    decreases |xs|
  {
    if xs == [] then seen
    else if xs[0] in seen then DistinctFrom(xs[1..], seen)
    else DistinctFrom(xs[1..], seen + [xs[0]])
  }

  /** `r` lists its values in the order they first occur in `xs`. */
  predicate InFirstOccurrenceOrder<T(==)>(r: seq<T>, xs: seq<T>) {
    forall i, j :: 0 <= i < j < |r| ==> IndexOf(xs, r[i]) < IndexOf(xs, r[j])
  }

  /** Deduplicating keeps the order of first occurrence. */
  lemma {:induction false} DistinctFromOrder<T(!new)>(xs: seq<T>, seen: seq<T>)
    requires NoDuplicates(seen)
    ensures InFirstOccurrenceOrder(DistinctFrom(xs, seen), seen + xs)
    decreases |xs|
  {
    if xs == [] {
      assert seen + xs == seen;
      DistinctOwnOrder(seen);
    } else if xs[0] in seen {
      assert DistinctFrom(xs, seen) == DistinctFrom(xs[1..], seen);
      DistinctFromOrder(xs[1..], seen);
      SkipSeenHead(xs, seen, DistinctFrom(xs[1..], seen));
    } else {
      var seen' := seen + [xs[0]];
      DistinctAppend(seen, [xs[0]]);
      assert DistinctFrom(xs, seen) == DistinctFrom(xs[1..], seen');
      DistinctFromOrder(xs[1..], seen');
      FreshHead(xs, seen, DistinctFrom(xs[1..], seen'));
    }
  }

  /** Moving a new head into the seen values leaves the list whole. */
  lemma FreshHead<T>(xs: seq<T>, seen: seq<T>, r: seq<T>)
    requires xs != [] && InFirstOccurrenceOrder(r, (seen + [xs[0]]) + xs[1..])
    ensures InFirstOccurrenceOrder(r, seen + xs)
  {
    assert (seen + [xs[0]]) + xs[1..] == seen + xs;
  }

  /** A list without repeats is in its own first-occurrence order. */
  lemma DistinctOwnOrder<T>(xs: seq<T>)
    requires NoDuplicates(xs)
    ensures InFirstOccurrenceOrder(xs, xs)
  {
    forall i, j | 0 <= i < j < |xs| ensures IndexOf(xs, xs[i]) < IndexOf(xs, xs[j]) {
      IndexOfDistinct(xs, i);
      IndexOfDistinct(xs, j);
    }
  }

  /** A head already seen shifts the later positions by one and the seen
      ones not at all, which keeps any first-occurrence order. */
  lemma SkipSeenHead<T>(xs: seq<T>, seen: seq<T>, r: seq<T>)
    requires xs != [] && xs[0] in seen
    requires InFirstOccurrenceOrder(r, seen + xs[1..])
    requires forall x :: x in r ==> x in seen || x in xs[1..]
    ensures InFirstOccurrenceOrder(r, seen + xs)
  {
    forall i, j | 0 <= i < j < |r| ensures IndexOf(seen + xs, r[i]) < IndexOf(seen + xs, r[j]) {
      assert r[i] in r && r[j] in r;
      SeenHeadShift(xs, seen, r[i]);
      SeenHeadShift(xs, seen, r[j]);
    }
  }

  lemma SeenHeadShift<T>(xs: seq<T>, seen: seq<T>, x: T)
    requires xs != [] && xs[0] in seen
    requires x in seen || x in xs[1..]
    ensures IndexOf(seen + xs, x) == IndexOf(seen + xs[1..], x) + (if x in seen then 0 else 1)
    ensures x in seen <==> 0 <= IndexOf(seen + xs[1..], x) < |seen|
  {
    IndexOfAppend(seen, xs, x);
    IndexOfAppend(seen, xs[1..], x);
    if x !in seen {
      IndexOfTail(xs, x);
    }
  }

  /** The first element of a non-empty list is the first one kept. */
  lemma DistinctOrder<T(!new)>(xs: seq<T>)
    ensures InFirstOccurrenceOrder(Distinct(xs), xs)
    ensures xs != [] ==> |Distinct(xs)| > 0 && Distinct(xs)[0] == xs[0]
  {
    DistinctFromOrder(xs, []);
    assert [] + xs == xs;
    var r := Distinct(xs);
    if xs != [] {
      assert xs[0] in r;
      var k :| 0 <= k < |r| && r[k] == xs[0];
      assert r[0] in xs;
    }
  }

  predicate NoDuplicates<T(==)>(xs: seq<T>) {
    forall i, j :: 0 <= i < j < |xs| ==> xs[i] != xs[j]
  }

  /** Two duplicate-free lists with no element in common join into one. */
  lemma DistinctAppend<T>(a: seq<T>, b: seq<T>)
    requires NoDuplicates(a) && NoDuplicates(b)
    requires forall x :: x in a ==> x !in b
    ensures NoDuplicates(a + b)
  {
    var all := a + b;
    forall i, j | 0 <= i < j < |all| ensures all[i] != all[j] {
      if i < |a| <= j {
        assert all[i] in a && all[j] == b[j - |a|];
      } else if |a| <= i {
        assert all[i] == b[i - |a|] && all[j] == b[j - |a|];
      }
    }
  }

  /** `xs.indexOf(x)` / `findIndex`: the first position holding `x`, or -1. */
  function IndexOf<T(==)>(xs: seq<T>, x: T): (r: int)
    ensures -1 <= r < |xs|
    ensures r == -1 <==> x !in xs
    ensures r >= 0 ==> xs[r] == x && x !in xs[..r]
  {
    if xs == [] then -1
    else if xs[0] == x then 0
    else
      var k := IndexOf(xs[1..], x);
      assert k >= 0 ==> xs[1..][..k] == xs[1..k + 1];
      if k == -1 then -1 else k + 1
  }

  /** Where `x` first occurs in `a + b`. */
  lemma {:induction false} IndexOfAppend<T>(a: seq<T>, b: seq<T>, x: T)
    ensures IndexOf(a + b, x) == if x in a then IndexOf(a, x) else if x in b then |a| + IndexOf(b, x) else -1
  {
    if a == [] {
      assert a + b == b;
    } else {
      assert (a + b)[1..] == a[1..] + b;
      IndexOfAppend(a[1..], b, x);
    }
  }

  /** Past a different head, positions shift by one. */
  lemma IndexOfTail<T>(xs: seq<T>, x: T)
    requires xs != [] && xs[0] != x && x in xs
    ensures IndexOf(xs, x) == 1 + IndexOf(xs[1..], x)
  {
  }

  lemma IndexOfDistinct<T>(xs: seq<T>, i: int)
    requires NoDuplicates(xs) && 0 <= i < |xs|
    ensures IndexOf(xs, xs[i]) == i
  {
    var k := IndexOf(xs, xs[i]);
    assert k <= i;
  }

  /** `index >= 0 ? index : 0` around an `indexOf`. */
  function IndexOrZero<T(==)>(xs: seq<T>, x: T): (r: nat)
    ensures x in xs ==> r < |xs| && xs[r] == x
    ensures x !in xs ==> r == 0
  {
    var k := IndexOf(xs, x);
    if k >= 0 then k else 0
  }

  /** `s.split(sep)` on a single-character separator. */
  function Split(s: string, sep: char): (r: seq<string>)
    ensures |r| >= 1
    ensures forall i :: 0 <= i < |r| ==> sep !in r[i]
    decreases |s|
  {
    if s == [] then [[]]
    else
      var rest := Split(s[1..], sep);
      if s[0] == sep then [[]] + rest
      else [[s[0]] + rest[0]] + rest[1..]
  }

  /** `parts.join(sep)`. */
  function Join(parts: seq<string>, sep: string): string {
    if parts == [] then []
    else if |parts| == 1 then parts[0]
    else parts[0] + sep + Join(parts[1..], sep)
  }

  lemma {:induction false} SplitJoin(parts: seq<string>, sep: char)
    requires |parts| >= 1
    requires forall i :: 0 <= i < |parts| ==> sep !in parts[i]
    ensures Split(Join(parts, [sep]), sep) == parts
    decreases |parts|, |parts[0]|
  {
    if |parts| == 1 {
      SplitNoSep(parts[0], sep);
    } else if parts[0] == [] {
      assert Join(parts, [sep]) == [sep] + Join(parts[1..], [sep]);
      SplitJoin(parts[1..], sep);
      assert [[]] + parts[1..] == parts;
    } else {
      var s := Join(parts, [sep]);
      var tail := [parts[0][1..]] + parts[1..];
      assert tail[1..] == parts[1..];
      assert Join(tail, [sep]) == parts[0][1..] + [sep] + Join(parts[1..], [sep]);
      assert s == [parts[0][0]] + Join(tail, [sep]);
      assert s[1..] == Join(tail, [sep]);
      assert parts[0][0] in parts[0];
      SplitJoin(tail, sep);
      assert [parts[0][0]] + parts[0][1..] == parts[0];
      assert [[parts[0][0]] + parts[0][1..]] + parts[1..] == parts;
    }
  }

  lemma {:induction false} SplitNoSep(s: string, sep: char)
    requires sep !in s
    ensures Split(s, sep) == [s]
    decreases |s|
  {
    if s != [] {
      assert s[0] in s;
      assert forall c :: c in s[1..] ==> c in s;
      SplitNoSep(s[1..], sep);
      assert [s[0]] + s[1..] == s;
    }
  }

  /** The characters `String.prototype.trim` removes (the ASCII subset). */
  predicate IsSpace(c: char) {
    c == ' ' || c == '\t' || c == '\n' || c == '\r' || c == 11 as char || c == 12 as char
  }

  /** The number of spaces that open `s`. */
  function LeadingSpaces(s: string): (n: nat)
    ensures n <= |s|
    ensures forall i :: 0 <= i < n ==> IsSpace(s[i])
    ensures n < |s| ==> !IsSpace(s[n])
  {
    if s != [] && IsSpace(s[0]) then
      var n := 1 + LeadingSpaces(s[1..]);
      assert forall i :: 1 <= i < n ==> s[i] == s[1..][i - 1];
      n
    else 0
  }

  /** The number of spaces that close `s`. */
  function TrailingSpaces(s: string): (n: nat)
    ensures n <= |s|
    ensures forall i :: |s| - n <= i < |s| ==> IsSpace(s[i])
    ensures n < |s| ==> !IsSpace(s[|s| - n - 1])
  {
    if s != [] && IsSpace(s[|s| - 1]) then
      var n := 1 + TrailingSpaces(s[..|s| - 1]);
      assert forall i :: |s| - n <= i < |s| - 1 ==> s[i] == s[..|s| - 1][i];
      n
    else 0
  }

  function TrimStart(s: string): string {
    s[LeadingSpaces(s)..]
  }

  function TrimEnd(s: string): string {
    s[..|s| - TrailingSpaces(s)]
  }

  /** `s.trim()`. */
  function Trim(s: string): (r: string)
    ensures |r| <= |s|
    ensures r == [] || (!IsSpace(r[0]) && !IsSpace(r[|r| - 1]))
  {
    var t := TrimStart(s);
    var r := TrimEnd(t);
    assert r != [] ==> r[0] == t[0];
    r
  }

  /** Trimming only removes characters. */
  lemma TrimSubset(s: string)
    ensures forall c :: c in Trim(s) ==> c in s
  {
    var t := TrimStart(s);
    var r := TrimEnd(t);
    assert forall i :: 0 <= i < |r| ==> r[i] == s[LeadingSpaces(s) + i];
  }

  /** A non-space character survives trimming at the end, and so does
      everything before it. */
  lemma TrimEndKeeps(s: string, k: int)
    requires 0 <= k < |s| && !IsSpace(s[k])
    ensures |TrimEnd(s)| > k
  {
  }

  lemma TrimmedIsFixed(s: string)
    requires s == [] || (!IsSpace(s[0]) && !IsSpace(s[|s| - 1]))
    ensures Trim(s) == s
  {
  }

  lemma TrimIdempotent(s: string)
    ensures Trim(Trim(s)) == Trim(s)
  {
    TrimmedIsFixed(Trim(s));
  }

  /** The elements of `xs` satisfying `p`, in order (`xs.filter(p)`). */
  function Filter<T(!new)>(xs: seq<T>, p: T -> bool): (r: seq<T>)
    ensures |r| <= |xs|
    ensures forall x :: x in r <==> x in xs && p(x)
    ensures multiset(r) <= multiset(xs)
  {
    if xs == [] then []
    else if p(xs[0]) then
      assert xs == [xs[0]] + xs[1..];
      [xs[0]] + Filter(xs[1..], p)
    else
      assert xs == [xs[0]] + xs[1..];
      Filter(xs[1..], p)
  }

  lemma FilterSkipHead<T(!new)>(xs: seq<T>, p: T -> bool)
    requires xs != [] && !p(xs[0])
    ensures Filter(xs, p) == Filter(xs[1..], p)
  {
  }

  lemma {:induction false} FilterAll<T(!new)>(xs: seq<T>, p: T -> bool)
    requires forall x :: x in xs ==> p(x)
    ensures Filter(xs, p) == xs
  {
    if xs != [] {
      assert forall x :: x in xs[1..] ==> x in xs;
      FilterAll(xs[1..], p);
    }
  }

  lemma {:induction false} FilterNone<T(!new)>(xs: seq<T>, p: T -> bool)
    requires forall i :: 0 <= i < |xs| ==> !p(xs[i])
    ensures Filter(xs, p) == []
  {
    if xs != [] {
      assert forall i :: 0 <= i < |xs[1..]| ==> xs[1..][i] == xs[i + 1];
      FilterNone(xs[1..], p);
    }
  }

  /** Filtering keeps every element exactly when every element passes. */
  lemma {:induction false} FilterShrinks<T(!new)>(xs: seq<T>, p: T -> bool)
    ensures |Filter(xs, p)| == |xs| <==> forall i :: 0 <= i < |xs| ==> p(xs[i])
  {
    if xs != [] {
      FilterShrinks(xs[1..], p);
      if forall i :: 0 <= i < |xs[1..]| ==> p(xs[1..][i]) {
        assert forall i :: 1 <= i < |xs| ==> p(xs[i]) by {
          forall i | 1 <= i < |xs| ensures p(xs[i]) {
            assert xs[i] == xs[1..][i - 1];
          }
        }
      } else {
        var i :| 0 <= i < |xs[1..]| && !p(xs[1..][i]);
        assert !p(xs[i + 1]);
      }
    }
  }

  lemma {:induction false} FilterAppend<T(!new)>(a: seq<T>, b: seq<T>, p: T -> bool)
    ensures Filter(a + b, p) == Filter(a, p) + Filter(b, p)
  {
    if a != [] {
      assert (a + b)[1..] == a[1..] + b;
      FilterAppend(a[1..], b, p);
    } else {
      assert a + b == b;
    }
  }

  /** Two tests that agree on every element select the same elements. */
  lemma {:induction false} FilterCongruent<T(!new)>(xs: seq<T>, p: T -> bool, q: T -> bool)
    requires forall i :: 0 <= i < |xs| ==> p(xs[i]) == q(xs[i])
    ensures Filter(xs, p) == Filter(xs, q)
  {
    if xs != [] {
      assert forall i :: 0 <= i < |xs[1..]| ==> xs[1..][i] == xs[i + 1];
      FilterCongruent(xs[1..], p, q);
    }
  }

  function Map<T, U>(xs: seq<T>, f: T -> U): (r: seq<U>)
    ensures |r| == |xs|
    ensures forall i :: 0 <= i < |xs| ==> r[i] == f(xs[i])
  {
    if xs == [] then [] else [f(xs[0])] + Map(xs[1..], f)
  }

  /** `xss.flat()`. */
  function Concat<T>(xss: seq<seq<T>>): seq<T> {
    if xss == [] then [] else xss[0] + Concat(xss[1..])
  }

  lemma {:induction false} InConcat<T>(xss: seq<seq<T>>, x: T)
    ensures x in Concat(xss) <==> exists i :: 0 <= i < |xss| && x in xss[i]
  {
    if xss != [] {
      InConcat(xss[1..], x);
      if exists i :: 0 <= i < |xss[1..]| && x in xss[1..][i] {
        var i :| 0 <= i < |xss[1..]| && x in xss[1..][i];
        assert x in xss[i + 1];
      }
      if exists i :: 0 <= i < |xss| && x in xss[i] {
        var i :| 0 <= i < |xss| && x in xss[i];
        if i > 0 {
          assert x in xss[1..][i - 1];
        }
      }
    }
  }

  /** Euclidean division is determined by any quotient and in-range
      remainder. */
  lemma DivModUnique(x: int, d: int, q: int, r: int)
    requires d > 0 && 0 <= r < d && x == q * d + r
    ensures x / d == q && x % d == r
  {
    var q0, r0 := x / d, x % d;
    assert (q0 - q) * d == r - r0;
    MultipleInRange(q0 - q, d);
  }

  lemma MultipleInRange(k: int, d: int)
    requires d > 0 && -d < k * d < d
    ensures k == 0
  {
    if k > 0 {
      MulAtLeast(k, d);
    } else if k < 0 {
      MulAtMost(k, d);
    }
  }

  lemma {:induction false} MulAtLeast(k: int, d: int)
    requires k >= 1 && d > 0
    ensures k * d >= d
    decreases k
  {
    if k > 1 {
      MulAtLeast(k - 1, d);
      assert k * d == (k - 1) * d + d;
    }
  }

  lemma {:induction false} MulAtMost(k: int, d: int)
    requires k <= -1 && d > 0
    ensures k * d <= -d
    decreases -k
  {
    if k < -1 {
      MulAtMost(k + 1, d);
      assert k * d == (k + 1) * d - d;
    }
  }
}
