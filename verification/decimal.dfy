/** Decimal rendering of non-negative integers (`String(n)`, `padStart`) and
    the inverse reading of a digit string (`Number(s)` on digits only). */
module Decimal {

  predicate IsDigit(c: char) {
    '0' <= c <= '9'
  }

  predicate AllDigits(s: string) {
    forall i :: 0 <= i < |s| ==> IsDigit(s[i])
  }

  function DigitChar(d: nat): (c: char)
    requires d < 10
    ensures IsDigit(c) && c as int - '0' as int == d
  {
    (d + '0' as int) as char
  }

  /** `String(n)`: no leading zeros, "0" for zero. */
  function Show(n: nat): (s: string)
    ensures 1 <= |s|
    ensures AllDigits(s)
    ensures n < 10 ==> |s| == 1
    ensures n >= 10 ==> |s| >= 2
    decreases n
  {
    if n < 10 then [DigitChar(n)] else Show(n / 10) + [DigitChar(n % 10)]
  }

  /** The value of a digit string read left to right; "" reads as 0. */
  function Value(s: string): nat
    requires AllDigits(s)
    decreases |s|
  {
    if s == [] then 0
    else Value(s[..|s| - 1]) * 10 + (s[|s| - 1] as int - '0' as int)
  }

  lemma {:induction false} ValueShow(n: nat)
    ensures Value(Show(n)) == n
    decreases n
  {
    if n >= 10 {
      var s := Show(n);
      assert s[..|s| - 1] == Show(n / 10);
      ValueShow(n / 10);
    }
  }

  /** `s.padStart(width, '0')`. */
  function PadStart(s: string, width: nat): (r: string)
    ensures |r| == if |s| >= width then |s| else width
    ensures r[|r| - |s|..] == s
    ensures forall i :: 0 <= i < |r| - |s| ==> r[i] == '0'
    decreases width - |s|
  {
    if |s| >= width then s
    else
      var r := PadStart(['0'] + s, width);
      assert r[|r| - |s| - 1..] == ['0'] + s;
      assert r[|r| - |s|..] == r[|r| - |s| - 1..][1..];
      assert r[|r| - |s| - 1] == '0';
      r
  }

  lemma {:induction false} ValueLeadingZeros(z: string, s: string)
    requires forall i :: 0 <= i < |z| ==> z[i] == '0'
    requires AllDigits(s)
    ensures AllDigits(z + s)
    ensures Value(z + s) == Value(s)
    decreases |s|
  {
    if s == [] {
      assert z + s == z;
      ValueZeros(z);
    } else {
      assert (z + s)[..|z + s| - 1] == z + s[..|s| - 1];
      ValueLeadingZeros(z, s[..|s| - 1]);
    }
  }

  lemma {:induction false} ValueZeros(z: string)
    requires forall i :: 0 <= i < |z| ==> z[i] == '0'
    ensures AllDigits(z) && Value(z) == 0
    decreases |z|
  {
    if z != [] {
      ValueZeros(z[..|z| - 1]);
    }
  }

  /** Zero-padded rendering of a field, as `String(n).padStart(width, '0')`. */
  function Padded(n: nat, width: nat): (r: string)
    ensures AllDigits(r) && Value(r) == n
    ensures |r| >= width
    ensures width >= 1 && n < Pow10(width) ==> |r| == width
  {
    PadStartValue(n, width);
    ShowLength(n, width);
    PadStart(Show(n), width)
  }

  lemma PadStartValue(n: nat, width: nat)
    ensures AllDigits(PadStart(Show(n), width)) && Value(PadStart(Show(n), width)) == n
  {
    var s := Show(n);
    var r := PadStart(s, width);
    var z := r[..|r| - |s|];
    assert r == z + s;
    ValueShow(n);
    ValueLeadingZeros(z, s);
  }

  function Pow10(k: nat): (p: nat)
    ensures p >= 1
  {
    if k == 0 then 1 else 10 * Pow10(k - 1)
  }

  lemma {:induction false} ShowLength(n: nat, width: nat)
    ensures width >= 1 && n < Pow10(width) ==> |Show(n)| <= width
    decreases n
  {
    if n >= 10 && width > 1 && n < Pow10(width) {
      assert n / 10 < Pow10(width - 1);
      ShowLength(n / 10, width - 1);
    }
  }

  /** A two-digit field reads as its tens and units. */
  lemma TwoDigitValue(s: string)
    requires |s| == 2 && AllDigits(s)
    ensures Value(s) == (s[0] as int - '0' as int) * 10 + (s[1] as int - '0' as int)
  {
    assert s[..1][..0] == [];
    assert Value(s[..1]) == s[0] as int - '0' as int;
  }

  lemma {:induction false} ValueBound(s: string)
    requires AllDigits(s)
    ensures Value(s) < Pow10(|s|)
    decreases |s|
  {
    if s != [] {
      ValueBound(s[..|s| - 1]);
    }
  }

  /** A digit string of a known width is the padded rendering of its value. */
  lemma PaddedValue(s: string)
    requires AllDigits(s) && |s| >= 1
    ensures Padded(Value(s), |s|) == s
  {
    ValueBound(s);
    SameValueSame(Padded(Value(s), |s|), s);
  }

  /** Two digit strings of equal length with equal values are equal. */
  lemma {:induction false} SameValueSame(a: string, b: string)
    requires AllDigits(a) && AllDigits(b) && |a| == |b| && Value(a) == Value(b)
    ensures a == b
    decreases |a|
  {
    if a != [] {
      var da := a[|a| - 1] as int - '0' as int;
      var db := b[|b| - 1] as int - '0' as int;
      assert Value(a) % 10 == da && Value(b) % 10 == db;
      SameValueSame(a[..|a| - 1], b[..|b| - 1]);
      assert a == a[..|a| - 1] + [a[|a| - 1]];
      assert b == b[..|b| - 1] + [b[|b| - 1]];
    }
  }
}
