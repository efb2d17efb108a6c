/**
 * Decimal rendering of integers as Python's format specification `0Nd` does
 * it (sign first, then zeros up to a total width of N, then the digits), and
 * the parse that reads such a rendering back.
 */
module Decimal {
  import opened Wrappers

  predicate IsDigit(c: char) {
    '0' <= c <= '9'
  }

  predicate AllDigits(s: string) {
    forall i :: 0 <= i < |s| ==> IsDigit(s[i])
  }

  function DigitChar(d: nat): (c: char)
    requires d < 10
    ensures IsDigit(c) && c as int - '0' as int == d
  {
    ('0' as int + d) as char
  }

  /** The shortest decimal numeral of `n`, as Python's `str` gives it. */
  function Digits(n: nat): (r: string)
    ensures 1 <= |r| && AllDigits(r)
    ensures |r| > 1 ==> r[0] != '0'
    decreases n
  {
    if n < 10 then [DigitChar(n)] else Digits(n / 10) + [DigitChar(n % 10)]
  }

  /** Number of digits of `n` for the three field widths a SubRip time uses. */
  lemma {:induction false} DigitsLength(n: nat)
    ensures n < 10 ==> |Digits(n)| == 1
    ensures n < 100 ==> |Digits(n)| <= 2
    ensures n < 1000 ==> |Digits(n)| <= 3
  {
    if n >= 10 {
      DigitsLength(n / 10);
    }
  }

  /** `k` zero digits. */
  function Zeros(k: nat): (z: string)
    ensures |z| == k && forall i :: 0 <= i < k ==> z[i] == '0'
  {
    seq(k, _ => '0')
  }

  /** `s` preceded by as many '0' as it takes to reach `width` characters. */
  function ZeroPad(s: string, width: nat): (r: string)
    ensures |r| == if |s| < width then width else |s|
  {
    Zeros(if |s| < width then width - |s| else 0) + s
  }

  /** Python's `format(n, '0' + str(width) + 'd')`: the width counts the sign. */
  function FormatInt(n: int, width: nat): string {
    if n >= 0 then ZeroPad(Digits(n), width)
    else "-" + ZeroPad(Digits(-n), if width == 0 then 0 else width - 1)
  }

  /** A rendered integer holds only digits and, for a negative value, a leading '-'. */
  lemma FormatIntChars(n: int, width: nat)
    ensures FormatInt(n, width) != []
    ensures forall i :: 0 <= i < |FormatInt(n, width)| ==> IsDigit(FormatInt(n, width)[i]) || FormatInt(n, width)[i] == '-'
  {
    var d := if n >= 0 then n else -n;
    var w := if n >= 0 || width == 0 then width else width - 1;
    PaddedRoundTrip(d, w);
  }

  /** The value of a string of decimal digits (leading zeros allowed). */
  function DigitsValue(s: string): nat
    requires AllDigits(s)
  {
    if s == [] then 0
    else DigitsValue(s[..|s| - 1]) * 10 + (s[|s| - 1] as int - '0' as int)
  }

  /** Leading zeros do not change the value of a numeral. */
  lemma {:induction false} ZerosPrefixValue(z: string, s: string)
    requires forall i :: 0 <= i < |z| ==> z[i] == '0'
    requires AllDigits(s)
    ensures AllDigits(z + s) && DigitsValue(z + s) == DigitsValue(s)
    decreases |s|
  {
    if s == [] {
      assert z + s == z;
      ZerosValue(z);
    } else {
      assert (z + s)[..|z + s| - 1] == z + s[..|s| - 1];
      ZerosPrefixValue(z, s[..|s| - 1]);
    }
  }

  lemma {:induction false} ZerosValue(z: string)
    requires forall i :: 0 <= i < |z| ==> z[i] == '0'
    ensures AllDigits(z) && DigitsValue(z) == 0
  {
    if z != [] {
      ZerosValue(z[..|z| - 1]);
    }
  }

  /** Reading back the numeral of `n` gives `n`. */
  lemma {:induction false} DigitsRoundTrip(n: nat)
    ensures DigitsValue(Digits(n)) == n
    decreases n
  {
    if n >= 10 {
      var d := Digits(n);
      assert d[..|d| - 1] == Digits(n / 10);
      DigitsRoundTrip(n / 10);
    }
  }

  /** Reading back a zero-padded numeral of `n` gives `n`, whatever the width. */
  lemma PaddedRoundTrip(n: nat, width: nat)
    ensures FormatInt(n, width) == ZeroPad(Digits(n), width)
    ensures AllDigits(ZeroPad(Digits(n), width))
    ensures DigitsValue(ZeroPad(Digits(n), width)) == n
  {
    var d := Digits(n);
    ZerosPrefixValue(Zeros(if |d| < width then width - |d| else 0), d);
    DigitsRoundTrip(n);
  }

  /** An optionally signed decimal numeral, as Python's `int` reads one. */
  function ParseInt(s: string): Option<int> {
    if |s| >= 2 && s[0] == '-' && AllDigits(s[1..]) then
      var v: int := DigitsValue(s[1..]); Some(-v)
    else if |s| >= 1 && AllDigits(s) then
      var v: int := DigitsValue(s); Some(v)
    else None
  }

  /** `FormatInt` is undone by `ParseInt`, for every integer and width. */
  lemma FormatIntRoundTrip(n: int, width: nat)
    ensures ParseInt(FormatInt(n, width)) == Some(n)
  {
    if n >= 0 {
      ParseNatural(n, width);
    } else {
      ParseNegative(n, width);
    }
  }

  lemma ParseNatural(n: nat, width: nat)
    ensures ParseInt(FormatInt(n, width)) == Some(n)
  {
    PaddedRoundTrip(n, width);
    ParseDigitString(FormatInt(n, width));
  }

  lemma ParseNegative(n: int, width: nat)
    requires n < 0
    ensures ParseInt(FormatInt(n, width)) == Some(n)
  {
    var w := if width == 0 then 0 else width - 1;
    var body := ZeroPad(Digits(-n), w);
    PaddedRoundTrip(-n, w);
    ParseSignedString(body);
    assert FormatInt(n, width) == "-" + body;
  }

  lemma ParseDigitString(r: string)
    requires AllDigits(r) && |r| >= 1
    ensures ParseInt(r) == Some(DigitsValue(r) as int)
  {
  }

  lemma ParseSignedString(body: string)
    requires AllDigits(body) && |body| >= 1
    ensures ParseInt("-" + body) == Some(-(DigitsValue(body) as int))
  {
    assert ("-" + body)[1..] == body;
  }

  /** How wide `FormatInt` renders a value that fits its field. */
  lemma FormatIntWidth(n: nat, width: nat)
    requires (width == 2 && n < 100) || (width == 3 && n < 1000)
    ensures |FormatInt(n, width)| == width && AllDigits(FormatInt(n, width))
  {
    DigitsLength(n);
  }
}
