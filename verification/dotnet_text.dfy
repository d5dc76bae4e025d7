/**
 The .NET conversions the configuration relies on: bool.Parse, int.Parse
 (invariant culture, NumberStyles.Integer) and Int32.ToString. Strings are
 sequences of Unicode scalar values.
 */
module DotNetText {
  import opened Common

  /** Why a parse throws. */
  datatype ParseError = ArgumentNull | Format | Overflow

  /** Char.IsWhiteSpace: the Unicode space separators, line and paragraph separators, and controls 0x09-0x0D, 0x85. */
  predicate IsWhiteSpace(c: char)
  {
    || c == ' ' || ('\t' <= c <= '\r') || c == '\U{0085}' || c == '\U{00A0}' || c == '\U{1680}'
    || ('\U{2000}' <= c <= '\U{200A}') || c == '\U{2028}' || c == '\U{2029}' || c == '\U{202F}'
    || c == '\U{205F}' || c == '\U{3000}'
  }

  /** What bool.Parse trims from both ends: white space and NUL. */
  predicate IsBooleanPadding(c: char)
  {
    IsWhiteSpace(c) || c == '\0'
  }

  /** What number parsing accepts as white space: 0x09-0x0D and the space. */
  predicate IsNumberWhite(c: char)
  {
    c == ' ' || ('\t' <= c <= '\r')
  }

  predicate IsDigit(c: char)
  {
    '0' <= c <= '9'
  }

  /** The first index at or after `i` whose character does not satisfy `p`, or |s|. */
  function Skip(s: string, i: nat, p: char -> bool): (j: nat)
    requires i <= |s|
    decreases |s| - i
    ensures i <= j <= |s|
    ensures forall k :: i <= k < j ==> p(s[k])
    ensures j < |s| ==> !p(s[j])
  {
    if i == |s| || !p(s[i]) then i else Skip(s, i + 1, p)
  }

  /**
   The least index `k` in lo..j such that every character in s[k..j]
   satisfies `p`: where a right-to-left scan from `j` stops.
   */
  function SkipBack(s: string, j: nat, lo: nat, p: char -> bool): (k: nat)
    requires lo <= j <= |s|
    decreases j
    ensures lo <= k <= j
    ensures forall m :: k <= m < j ==> p(s[m])
    ensures lo < k ==> !p(s[k - 1])
  {
    if j == lo || !p(s[j - 1]) then j else SkipBack(s, j - 1, lo, p)
  }

  /** `s` without the characters satisfying `p` at either end (String.Trim with a predicate). */
  function Trim(s: string, p: char -> bool): (t: string)
    ensures exists i, j :: 0 <= i <= j <= |s| && t == s[i..j]
                           && (forall m :: 0 <= m < i ==> p(s[m]))
                           && (forall m :: j <= m < |s| ==> p(s[m]))
    ensures t != [] ==> !p(t[0]) && !p(t[|t| - 1])
  {
    var i := Skip(s, 0, p);
    var j := SkipBack(s, |s|, i, p);
    assert j > i ==> s[i..j][0] == s[i] && s[i..j][j - i - 1] == s[j - 1];
    s[i..j]
  }

  /** ASCII upper-casing; the only letters the comparisons below meet are ASCII. */
  function UpperAscii(c: char): char
  {
    if 'a' <= c <= 'z' then (c as int - 32) as char else c
  }

  /** String.Equals with StringComparison.OrdinalIgnoreCase, for ASCII letters. */
  predicate EqualsIgnoreCase(a: string, b: string)
  {
    |a| == |b| && forall k :: 0 <= k < |a| ==> UpperAscii(a[k]) == UpperAscii(b[k])
  }

  /**
   bool.Parse: null throws ArgumentNullException; otherwise "True" or "False"
   in any case, tried first as given and then trimmed of white space and NUL;
   anything else throws FormatException.
   */
  function ParseBoolean(value: Option<string>): (r: Result<bool, ParseError>)
    ensures value.None? <==> r == Failure(ArgumentNull)
    ensures value.Some? ==>
              && (r == Success(true) <==> EqualsIgnoreCase(Trim(value.value, IsBooleanPadding), "True"))
              && (r == Success(false) <==> EqualsIgnoreCase(Trim(value.value, IsBooleanPadding), "False"))
              && (r.Failure? ==> r.error == Format)
  {
    match value
    case None => Failure(ArgumentNull)
    case Some(v) =>
      if EqualsIgnoreCase(v, "True") then
        TrimNoop(v, IsBooleanPadding);
        Success(true)
      else if EqualsIgnoreCase(v, "False") then
        TrimNoop(v, IsBooleanPadding);
        Success(false)
      else
        var t := Trim(v, IsBooleanPadding);
        if EqualsIgnoreCase(t, "True") then Success(true)
        else if EqualsIgnoreCase(t, "False") then Success(false)
        else Failure(Format)
  }

  /** Trimming a string that starts and ends with kept characters changes nothing. */
  lemma TrimNoop(s: string, p: char -> bool)
    requires s != [] ==> !p(s[0]) && !p(s[|s| - 1])
    ensures Trim(s, p) == s
  {
  }

  /** The value of a run of decimal digits, most significant first. */
  function DigitsValue(ds: string): nat
    requires forall k :: 0 <= k < |ds| ==> IsDigit(ds[k])
    decreases |ds|
  {
    if ds == [] then 0
    else
      assert IsDigit(ds[|ds| - 1]);
      DigitsValue(ds[..|ds| - 1]) * 10 + (ds[|ds| - 1] as int - '0' as int)
  }

  /**
   The layout NumberStyles.Integer accepts, split at a <= b < c <= d:
   white space in s[..a], an optional sign in s[a..b], at least one digit in
   s[b..c], white space in s[c..d], and NULs in s[d..].
   */
  predicate Layout(s: string, a: int, b: int, c: int, d: int)
  {
    && 0 <= a <= b < c <= d <= |s|
    && (forall k :: 0 <= k < a ==> IsNumberWhite(s[k]))
    && (b == a || (b == a + 1 && (s[a] == '+' || s[a] == '-')))
    && (forall k :: b <= k < c ==> IsDigit(s[k]))
    && (forall k :: c <= k < d ==> IsNumberWhite(s[k]))
    && (forall k :: d <= k < |s| ==> s[k] == '\0')
  }

  /** The integer such a layout spells: the digits' value, negated after a minus sign. */
  function Denoted(s: string, a: int, b: int, c: int, d: int): int
    requires Layout(s, a, b, c, d)
  {
    if b == a + 1 && s[a] == '-' then -(DigitsValue(s[b..c]) as int) else DigitsValue(s[b..c])
  }

  predicate InInt32(v: int)
  {
    -0x8000_0000 <= v < 0x8000_0000
  }

  /**
   int.Parse: leading white space, an optional sign, at least one digit,
   trailing white space and then trailing NULs, nothing else (FormatException);
   a value outside the 32-bit range throws OverflowException.
   */
  function ParseInt32(s: string): (r: Result<int32, ParseError>)
    ensures r != Failure(ArgumentNull)
    ensures r.Success? ==> exists a, b, c, d :: Layout(s, a, b, c, d) && Denoted(s, a, b, c, d) == r.value
    ensures r == Failure(Overflow) ==> exists a, b, c, d :: Layout(s, a, b, c, d) && !InInt32(Denoted(s, a, b, c, d))
  {
    var a := Skip(s, 0, IsNumberWhite);
    var negative := a < |s| && s[a] == '-';
    var b := if a < |s| && (s[a] == '+' || s[a] == '-') then a + 1 else a;
    var c := Skip(s, b, IsDigit);
    var d := Skip(s, c, IsNumberWhite);
    var e := Skip(s, d, ch => ch == '\0');
    if c == b || e != |s| then Failure(Format)
    else
      AllDigits(s, b, c);
      assert Layout(s, a, b, c, d);
      var magnitude := DigitsValue(s[b..c]);
      var v: int := if negative then -(magnitude as int) else magnitude;
      assert v == Denoted(s, a, b, c, d);
      if v < -0x8000_0000 || 0x8000_0000 <= v then Failure(Overflow) else Success(v)
  }

  /** The slice of a run of digits is all digits. */
  lemma AllDigits(s: string, b: nat, c: nat)
    requires b <= c <= |s|
    requires forall k :: b <= k < c ==> IsDigit(s[k])
    ensures forall k :: 0 <= k < |s[b..c]| ==> IsDigit(s[b..c][k])
  {
  }

  /**
   The converse: any string in the accepted layout parses to the integer it
   spells, or throws OverflowException when that is outside the 32-bit range.
   So FormatException is thrown exactly for the strings with no such layout.
   */
  lemma ParseInt32Complete(s: string, a: int, b: int, c: int, d: int)
    requires Layout(s, a, b, c, d)
    ensures ParseInt32(s) == if InInt32(Denoted(s, a, b, c, d)) then Success(Denoted(s, a, b, c, d)) else Failure(Overflow)
  {
    assert !IsNumberWhite(s[a]) by {
      if b == a {
        assert IsDigit(s[a]);
      }
    }
    SkipStops(s, 0, IsNumberWhite, a);
    assert b == a <==> !(s[a] == '+' || s[a] == '-') by {
      if b == a {
        assert IsDigit(s[a]);
      }
    }
    assert c < |s| ==> !IsDigit(s[c]) by {
      if c < |s| && c < d {
        assert IsNumberWhite(s[c]);
      }
    }
    SkipStops(s, b, IsDigit, c);
    SkipStops(s, c, IsNumberWhite, d);
    SkipStops(s, d, ch => ch == '\0', |s|);
    assert (a < |s| && s[a] == '-') <==> (b == a + 1 && s[a] == '-');
  }

  /** Trim keeps exactly s[i..j] when that slice starts and ends with kept characters and only `p` surrounds it. */
  lemma TrimAt(s: string, p: char -> bool, i: nat, j: nat)
    requires i < j <= |s|
    requires !p(s[i]) && !p(s[j - 1])
    requires forall k :: 0 <= k < i ==> p(s[k])
    requires forall k :: j <= k < |s| ==> p(s[k])
    ensures Trim(s, p) == s[i..j]
  {
    SkipStops(s, 0, p, i);
    SkipBackStops(s, |s|, i, p, j);
  }

  /** A right-to-left scan that passes exactly the characters of s[k..j] stops at k. */
  lemma {:induction false} SkipBackStops(s: string, j: nat, lo: nat, p: char -> bool, k: nat)
    requires lo < k <= j <= |s|
    requires forall m :: k <= m < j ==> p(s[m])
    requires !p(s[k - 1])
    ensures SkipBack(s, j, lo, p) == k
    decreases j
  {
    if k < j {
      SkipBackStops(s, j - 1, lo, p, k);
    }
  }

  /** A scan that passes exactly the characters of s[i..j] stops at j. */
  lemma {:induction false} SkipStops(s: string, i: nat, p: char -> bool, j: nat)
    requires i <= j <= |s|
    requires forall k :: i <= k < j ==> p(s[k])
    requires j < |s| ==> !p(s[j])
    ensures Skip(s, i, p) == j
    decreases j - i
  {
    if i < j {
      SkipStops(s, i + 1, p, j);
    }
  }

  /** The character of a decimal digit. */
  function Digit(d: nat): (c: char)
    requires d < 10
    ensures IsDigit(c) && c as int - '0' as int == d
  {
    ('0' as int + d) as char
  }

  /** The shortest decimal digits of `n`. */
  function NatToDigits(n: nat): (ds: string)
    decreases n
    ensures |ds| > 0 && forall k :: 0 <= k < |ds| ==> IsDigit(ds[k])
    ensures ds[0] == '0' <==> n == 0
  {
    if n < 10 then [Digit(n)] else NatToDigits(n / 10) + [Digit(n % 10)]
  }

  /** Int32.ToString() in the invariant culture: a minus sign for negatives, then the digits. */
  function FormatInt32(v: int32): (s: string)
    ensures s != []
    ensures s[0] == '-' || IsDigit(s[0])
    ensures v < 0 <==> s[0] == '-'
    ensures forall k :: 1 <= k < |s| ==> IsDigit(s[k])
    ensures v < 0 ==> |s| > 1 && s[1] != '0'
    ensures v >= 0 ==> (s[0] == '0' <==> v == 0)
  {
    if v < 0 then "-" + NatToDigits(-(v as int)) else NatToDigits(v)
  }

  lemma {:induction false} DigitsRoundTrip(n: nat)
    decreases n
    ensures DigitsValue(NatToDigits(n)) == n
  {
    if n >= 10 {
      DigitsRoundTrip(n / 10);
      var ds := NatToDigits(n);
      assert ds[..|ds| - 1] == NatToDigits(n / 10);
    }
  }

  /** Every 32-bit integer reads back as itself. */
  lemma FormatParseRoundTrip(v: int32)
    ensures ParseInt32(FormatInt32(v)) == Success(v)
  {
    var s := FormatInt32(v);
    var b := if v < 0 then 1 else 0;
    var m: nat := if v < 0 then -(v as int) else v;
    assert s[b..|s|] == NatToDigits(m);
    DigitsRoundTrip(m);
    assert Layout(s, 0, b, |s|, |s|);
    ParseInt32Complete(s, 0, b, |s|, |s|);
  }

  /** "true" and "false", as the configuration writes booleans, read back as themselves. */
  lemma BooleanRoundTrip(b: bool)
    ensures ParseBoolean(Some(if b then "true" else "false")) == Success(b)
  {
    var s := if b then "true" else "false";
    TrimNoop(s, IsBooleanPadding);
  }

  /** Padding around "TRUE" is trimmed away, and only "true"/"false" in some case parse. */
  lemma ParseBooleanExamples()
    ensures ParseBoolean(Some(" TRUE\0")) == Success(true)
    ensures ParseBoolean(Some("yes")) == Failure(Format)
    ensures ParseBoolean(Some("")) == Failure(Format)
  {
    var padded := " TRUE\0";
    TrimAt(padded, IsBooleanPadding, 1, 5);
    assert padded[1..5] == "TRUE";
    TrimNoop("yes", IsBooleanPadding);
  }

  /** int.Parse accepts surrounding white space and a plus sign, and rejects what it must. */
  lemma ParseInt32Examples()
    ensures ParseInt32(" +42 ") == Success(42)
    ensures ParseInt32("4 2") == Failure(Format)
    ensures ParseInt32("-") == Failure(Format)
  {
    ParsesPaddedPlus();
    RejectsInnerSpace();
  }

  lemma ParsesPaddedPlus()
    ensures ParseInt32(" +42 ") == Success(42)
  {
    assert Skip(" +42 ", 0, IsNumberWhite) == 1;
    assert Skip(" +42 ", 2, IsDigit) == 4;
    assert Skip(" +42 ", 4, IsNumberWhite) == 5;
    assert " +42 "[2..4] == "42" && "42"[..1] == "4" && "4"[..0] == "";
  }

  lemma RejectsInnerSpace()
    ensures ParseInt32("4 2") == Failure(Format)
  {
    assert Skip("4 2", 0, IsDigit) == 1;
    assert Skip("4 2", 1, IsNumberWhite) == 2;
    assert Skip("4 2", 2, ch => ch == '\0') == 2;
  }

  /**
   A digit string beyond the 32-bit range throws OverflowException, not
   FormatException, and so does its negation beyond -2^31; -2^31 itself parses.
   */
  lemma ParseInt32Overflows(n: nat)
    requires n >= 0x8000_0000
    ensures ParseInt32(NatToDigits(n)) == Failure(Overflow)
    ensures n > 0x8000_0000 ==> ParseInt32("-" + NatToDigits(n)) == Failure(Overflow)
    ensures n == 0x8000_0000 ==> ParseInt32("-" + NatToDigits(n)) == Success(-0x8000_0000)
  {
    ParsesDigits(n);
    ParsesNegatedDigits(n);
  }

  /** The digits of n parse to n, or overflow beyond the 32-bit range. */
  lemma ParsesDigits(n: nat)
    ensures ParseInt32(NatToDigits(n)) == if n < 0x8000_0000 then Success(n) else Failure(Overflow)
  {
    var ds := NatToDigits(n);
    DigitsRoundTrip(n);
    assert ds[0..|ds|] == ds;
    assert Layout(ds, 0, 0, |ds|, |ds|);
    ParseInt32Complete(ds, 0, 0, |ds|, |ds|);
  }

  /** A minus sign before the digits of n parses to -n, or overflows below -2^31. */
  lemma ParsesNegatedDigits(n: nat)
    ensures ParseInt32("-" + NatToDigits(n)) == if n <= 0x8000_0000 then Success(-(n as int)) else Failure(Overflow)
  {
    var ds := NatToDigits(n);
    DigitsRoundTrip(n);
    var neg := "-" + ds;
    assert neg[1..|neg|] == ds;
    assert Layout(neg, 0, 1, |neg|, |neg|);
    ParseInt32Complete(neg, 0, 1, |neg|, |neg|);
  }
}
