/**
 * The string operations of JavaScript that the todo application relies on:
 * `String(n)` of an integer, `padStart`, `Number(s)` on decimal text,
 * `trim`, and `split` on one separator character.
 */
module Strings {
  import opened Wrappers

  predicate IsDigit(c: char) { '0' <= c <= '9' }

  function DigitChar(d: nat): (c: char)
    requires d < 10
    ensures IsDigit(c)
  {
    ('0' as int + d) as char
  }

  function DigitValue(c: char): (d: nat)
    requires IsDigit(c)
    ensures d < 10
  {
    c as int - '0' as int
  }

  predicate AllDigits(s: string) {
    forall i :: 0 <= i < |s| ==> IsDigit(s[i])
  }

  function Pow10(k: nat): (p: nat)
    ensures p >= 1
  {
    if k == 0 then 1 else 10 * Pow10(k - 1)
  }

  /** The canonical decimal spelling of a natural number (no leading zeros). */
  function NatToDecimal(n: nat): (r: string)
    ensures 1 <= |r| && AllDigits(r)
    ensures |r| > 1 ==> r[0] != '0'
    decreases n
  {
    if n < 10 then [DigitChar(n)] else NatToDecimal(n / 10) + [DigitChar(n % 10)]
  }

  /** The value of a string of decimal digits, most significant first; "" is 0. */
  function DigitsValue(s: string): nat
    requires AllDigits(s)
  {
    if s == [] then 0 else 10 * DigitsValue(s[..|s| - 1]) + DigitValue(s[|s| - 1])
  }

  lemma {:induction false} DecimalRoundTrip(n: nat)
    ensures DigitsValue(NatToDecimal(n)) == n
    decreases n
  {
    if n >= 10 {
      var r := NatToDecimal(n);
      assert r[..|r| - 1] == NatToDecimal(n / 10);
      DecimalRoundTrip(n / 10);
    }
  }

  lemma {:induction false} DecimalLength(n: nat, k: nat)
    requires 1 <= k && n < Pow10(k)
    ensures |NatToDecimal(n)| <= k
    decreases k
  {
    if n >= 10 {
      assert k > 1;
      DecimalLength(n / 10, k - 1);
    }
  }

  lemma {:induction false} DecimalLengthAtLeast(n: nat, k: nat)
    requires 1 <= k && Pow10(k - 1) <= n
    ensures |NatToDecimal(n)| >= k
    decreases k
  {
    if k > 1 {
      assert n >= 10;
      DecimalLengthAtLeast(n / 10, k - 1);
    }
  }

  /** Numbers from 1000 to 9999 are written with exactly four digits. */
  lemma FourDigitDecimal(n: nat)
    requires 1000 <= n <= 9999
    ensures |NatToDecimal(n)| == 4
  {
    assert Pow10(3) == 1000 && Pow10(4) == 10000;
    DecimalLength(n, 4);
    DecimalLengthAtLeast(n, 4);
  }

  lemma {:induction false} LeadingZeroValue(s: string)
    requires AllDigits(s)
    ensures AllDigits(['0'] + s)
    ensures DigitsValue(['0'] + s) == DigitsValue(s)
    decreases |s|
  {
    var t := ['0'] + s;
    if s == [] {
      assert t[..0] == [];
    } else {
      var u := s[..|s| - 1];
      assert t[..|t| - 1] == ['0'] + u;
      LeadingZeroValue(u);
    }
  }

  /** Leading zeros do not change the value of a digit string. */
  lemma {:induction false} LeadingZerosValue(z: nat, s: string)
    requires AllDigits(s)
    ensures AllDigits(Zeros(z) + s)
    ensures DigitsValue(Zeros(z) + s) == DigitsValue(s)
    decreases z
  {
    if z > 0 {
      LeadingZerosValue(z - 1, s);
      var t := Zeros(z - 1) + s;
      assert Zeros(z) + s == ['0'] + t;
      LeadingZeroValue(t);
      assert DigitsValue(['0'] + t) == DigitsValue(t) == DigitsValue(s);
    } else {
      assert Zeros(z) + s == s;
    }
  }

  function Zeros(k: nat): (r: string)
    ensures |r| == k && forall i :: 0 <= i < k ==> r[i] == '0'
  {
    if k == 0 then [] else ['0'] + Zeros(k - 1)
  }

  /** `s.padStart(width, "0")`: zeros are added in front until the string is `width` long. */
  function PadZeros(s: string, width: nat): (r: string)
    ensures |s| >= width ==> r == s
    ensures |s| < width ==> r == Zeros(width - |s|) + s
  {
    if |s| >= width then s else Zeros(width - |s|) + s
  }

  /** The padded string is `width` long (or `s` when that is longer), ends with `s`, and holds only zeros before it. */
  lemma PadZerosShape(s: string, width: nat)
    ensures var r := PadZeros(s, width);
            && |r| == (if |s| >= width then |s| else width)
            && r[|r| - |s|..] == s
            && forall i :: 0 <= i < |r| - |s| ==> r[i] == '0'
  {
    var r := PadZeros(s, width);
    if |s| < width {
      assert r[|r| - |s|..] == s;
    }
  }

  /** `String(n).padStart(width, "0")` for a natural number `n`. */
  function PaddedDecimal(n: nat, width: nat): (r: string)
    ensures 1 <= width && n < Pow10(width) ==> |r| == width
    ensures AllDigits(r) && DigitsValue(r) == n
  {
    var d := NatToDecimal(n);
    PaddedDecimalFacts(n, width);
    PadZeros(d, width)
  }

  lemma PaddedDecimalFacts(n: nat, width: nat)
    ensures DigitsValue(NatToDecimal(n)) == n
    ensures 1 <= width && n < Pow10(width) ==> |NatToDecimal(n)| <= width
    ensures AllDigits(PadZeros(NatToDecimal(n), width))
    ensures DigitsValue(PadZeros(NatToDecimal(n), width)) == n
  {
    var d := NatToDecimal(n);
    DecimalRoundTrip(n);
    if 1 <= width && n < Pow10(width) {
      DecimalLength(n, width);
    }
    if |d| < width {
      LeadingZerosValue(width - |d|, d);
    }
  }

  /** `String(n).padStart(2, "0")`, used for months, days, hours and minutes. */
  function Pad2(n: nat): (r: string)
    ensures n < 100 ==> |r| == 2
    ensures AllDigits(r) && DigitsValue(r) == n
  {
    PaddedDecimal(n, 2)
  }

  /** `String(n)` of an integer: a minus sign in front of negative numbers. */
  function IntToString(n: int): (r: string)
    ensures n >= 0 ==> r == NatToDecimal(n)
    ensures n < 0 ==> r == "-" + NatToDecimal(-n)
  {
    if n >= 0 then NatToDecimal(n) else "-" + NatToDecimal(-n)
  }

  /** `String(n)` is a minus sign exactly for negative `n`, followed by digits that read back as `|n|`. */
  lemma IntToStringDigits(n: int)
    ensures var r := IntToString(n);
            && (n >= 0 ==> AllDigits(r) && DigitsValue(r) == n)
            && (n < 0 ==> |r| >= 2 && r[0] == '-' && AllDigits(r[1..]) && DigitsValue(r[1..]) == -n)
  {
    DecimalRoundTrip(if n >= 0 then n else -n);
    if n < 0 {
      var r := IntToString(n);
      assert r[1..] == NatToDecimal(-n);
    }
  }

  /**
   * The characters `String.prototype.trim` removes: the ECMAScript WhiteSpace
   * characters (including every Unicode space separator) and line terminators.
   */
  predicate IsJsWhitespace(c: char) {
    c == '\t' || c == '\n' || c == '\U{000B}' || c == '\U{000C}' || c == '\r' || c == ' '
    || c == '\U{00A0}' || c == '\U{1680}' || ('\U{2000}' <= c <= '\U{200A}')
    || c == '\U{2028}' || c == '\U{2029}' || c == '\U{202F}' || c == '\U{205F}'
    || c == '\U{3000}' || c == '\U{FEFF}'
  }

  predicate IsBlank(s: string) {
    forall i :: 0 <= i < |s| ==> IsJsWhitespace(s[i])
  }

  function TrimStart(s: string): string {
    if s == [] || !IsJsWhitespace(s[0]) then s else TrimStart(s[1..])
  }

  function TrimEnd(s: string): string {
    if s == [] || !IsJsWhitespace(s[|s| - 1]) then s else TrimEnd(s[..|s| - 1])
  }

  /** `s.trim()`. */
  function Trim(s: string): string {
    TrimEnd(TrimStart(s))
  }

  /** `TrimStart` removes a blank prefix and stops at the first other character. */
  lemma {:induction false} TrimStartFacts(s: string)
    ensures var r := TrimStart(s);
            && |r| <= |s| && r == s[|s| - |r|..]
            && (r == [] || !IsJsWhitespace(r[0]))
            && IsBlank(s[..|s| - |r|])
    decreases |s|
  {
    if s != [] && IsJsWhitespace(s[0]) {
      TrimStartFacts(s[1..]);
      var r := TrimStart(s[1..]);
      assert s[1..][..|s| - 1 - |r|] == s[1..|s| - |r|];
    }
  }

  /** `TrimEnd` removes a blank suffix and stops at the last other character. */
  lemma {:induction false} TrimEndFacts(s: string)
    ensures var r := TrimEnd(s);
            && |r| <= |s| && r == s[..|r|]
            && (r == [] || !IsJsWhitespace(r[|r| - 1]))
            && IsBlank(s[|r|..])
    decreases |s|
  {
    if s != [] && IsJsWhitespace(s[|s| - 1]) {
      var init := s[..|s| - 1];
      TrimEndFacts(init);
      var r := TrimEnd(init);
      assert s[|r|..] == init[|r|..] + [s[|s| - 1]];
    }
  }

  /** `!s.trim()` holds exactly when every character of `s` is whitespace. */
  lemma TrimEmptyIffBlank(s: string)
    ensures Trim(s) == "" <==> IsBlank(s)
  {
    var t := TrimStart(s);
    TrimStartFacts(s);
    TrimEndFacts(t);
    if Trim(s) == "" {
      assert IsBlank(t[0..]);
      assert t == [];
      assert s[..|s|] == s;
    } else {
      var r := Trim(s);
      assert r == t[..|r|];
      assert !IsJsWhitespace(t[0]);
      assert s[|s| - |t|] == t[0];
    }
  }

  /** `s.split(sep)` for a one-character separator: the pieces between separators, always at least one. */
  function Split(s: string, sep: char): (r: seq<string>)
    ensures |r| >= 1
  {
    if s == [] then [""]
    else
      var rest := Split(s[1..], sep);
      if s[0] == sep then [""] + rest else [[s[0]] + rest[0]] + rest[1..]
  }

  /** No character of `s` is `c`. */
  predicate Lacks(s: string, c: char) {
    forall i :: 0 <= i < |s| ==> s[i] != c
  }

  lemma {:induction false} SplitNoSeparator(a: string, b: string, sep: char)
    requires Lacks(a, sep)
    ensures Split(a + b, sep) == [a + Split(b, sep)[0]] + Split(b, sep)[1..]
    decreases |a|
  {
    var x := Split(b, sep);
    if a != [] {
      var c, tail := a[0], a[1..];
      assert a + b == [c] + (tail + b);
      SplitCons(c, tail + b, sep);
      SplitNoSeparator(tail, b, sep);
      assert [c] + (tail + x[0]) == a + x[0];
    } else {
      assert a + b == b;
      assert [] + x[0] == x[0];
      assert x == [x[0]] + x[1..];
    }
  }

  /** A character other than the separator joins the first piece of what follows it. */
  lemma SplitCons(c: char, s: string, sep: char)
    requires c != sep
    ensures Split([c] + s, sep) == [[c] + Split(s, sep)[0]] + Split(s, sep)[1..]
  {
    assert ([c] + s)[0] == c && ([c] + s)[1..] == s;
  }

  lemma SplitAfterPiece(a: string, rest: string, sep: char)
    requires Lacks(a, sep)
    ensures Split(a + [sep] + rest, sep) == [a] + Split(rest, sep)
  {
    var t := [sep] + rest;
    assert t[0] == sep && t[1..] == rest;
    assert Split(t, sep) == [""] + Split(rest, sep);
    SplitNoSeparator(a, t, sep);
    assert a + t == a + [sep] + rest;
    assert a + "" == a;
  }

  lemma SplitWhole(a: string, sep: char)
    requires Lacks(a, sep)
    ensures Split(a, sep) == [a]
  {
    SplitNoSeparator(a, "", sep);
    assert a + "" == a;
  }

  /** Splitting a string made of separator-free pieces gives the pieces back. */
  lemma SplitThree(a: string, b: string, c: string, sep: char)
    requires Lacks(a, sep) && Lacks(b, sep) && Lacks(c, sep)
    ensures Split(a + [sep] + b + [sep] + c, sep) == [a, b, c]
  {
    SplitWhole(c, sep);
    SplitAfterPiece(b, c, sep);
    SplitAfterPiece(a, b + [sep] + c, sep);
    assert a + [sep] + (b + [sep] + c) == a + [sep] + b + [sep] + c;
  }

  lemma SplitTwo(a: string, b: string, sep: char)
    requires Lacks(a, sep) && Lacks(b, sep)
    ensures Split(a + [sep] + b, sep) == [a, b]
  {
    SplitWhole(b, sep);
    SplitAfterPiece(a, b, sep);
  }

  /**
   * `Number(s)` restricted to what date and time inputs produce: surrounding
   * whitespace is ignored, the empty string is 0, a run of decimal digits is its
   * value, anything else is NaN (here None).
   */
  function JsNumber(s: string): (r: Option<int>)
    ensures AllDigits(s) ==> r == Some(DigitsValue(s))
  {
    NoWhitespaceTrim(s);
    var u := Trim(s);
    if u == "" then Some(0)
    else if AllDigits(u) then Some(DigitsValue(u))
    else None
  }

  /** `Number` of the empty or an all-whitespace string is 0. */
  lemma JsNumberOfBlank(s: string)
    requires IsBlank(s)
    ensures JsNumber(s) == Some(0)
  {
    TrimEmptyIffBlank(s);
  }

  lemma NoWhitespaceTrim(s: string)
    ensures AllDigits(s) ==> Trim(s) == s
  {
    if AllDigits(s) && s != [] {
      assert !IsJsWhitespace(s[0]);
      assert TrimStart(s) == s;
      assert !IsJsWhitespace(s[|s| - 1]);
    }
  }
}
