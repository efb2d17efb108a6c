/**
 * `SubtitleBot.format_time`: an offset in seconds rendered as a SubRip
 * timestamp `HH:MM:SS,mmm`. The offset is an exact real number; each step
 * follows the Python expression it models (floor division `//`, floored
 * modulo `%` and the truncating `int()`).
 */
module SrtTime {
  import opened Wrappers
  import opened Decimal

  /** Python's `x // d` on floats with a positive divisor. */
  function FloorDiv(x: real, d: real): (q: int)
    requires d > 0.0
    ensures q as real * d <= x < (q + 1) as real * d
  {
    var q := (x / d).Floor;
    ScaleBounds(q as real, x / d, d, x);
    q
  }

  lemma ScaleBounds(a: real, y: real, d: real, x: real)
    requires d > 0.0 && a <= y < a + 1.0 && y == x / d
    ensures a * d <= x < (a + 1.0) * d
  {
    DivMul(x, d);
    assert y * d == x;
    MulLe(a, y, d);
    MulLt(y, a + 1.0, d);
  }

  lemma MulLe(a: real, b: real, d: real)
    requires d > 0.0 && a <= b
    ensures a * d <= b * d
  {
    MulSign(b - a, d);
    Distrib(b, a, d);
  }

  lemma MulLt(a: real, b: real, d: real)
    requires d > 0.0 && a < b
    ensures a * d < b * d
  {
    MulSign(b - a, d);
    Distrib(b, a, d);
  }

  lemma DivMul(x: real, d: real)
    requires d > 0.0
    ensures (x / d) * d == x
  {
  }

  lemma MulSign(e: real, d: real)
    requires d > 0.0
    ensures e >= 0.0 ==> e * d >= 0.0
    ensures e > 0.0 ==> e * d > 0.0
  {
  }

  lemma Distrib(a: real, b: real, d: real)
    ensures (a - b) * d == a * d - b * d
  {
  }

  /** Python's `x % d` with a positive divisor: never negative, below `d`. */
  function PyMod(x: real, d: real): (r: real)
    requires d > 0.0
    ensures 0.0 <= r < d
    ensures x == FloorDiv(x, d) as real * d + r
  {
    x - FloorDiv(x, d) as real * d
  }

  /** Python's `int(x)` on a float: truncation toward zero. */
  function Trunc(x: real): (n: int)
    ensures x >= 0.0 ==> n >= 0 && n as real <= x < n as real + 1.0
    ensures x < 0.0 ==> n <= 0 && n as real - 1.0 < x <= n as real
  {
    if x >= 0.0 then x.Floor else -((-x).Floor)
  }

  /** The four fields of a timestamp before they are formatted. */
  datatype Clock = Clock(hours: int, minutes: nat, secs: nat, millis: nat)

  function TotalMillis(c: Clock): int {
    c.hours * 3600000 + c.minutes * 60000 + c.secs * 1000 + c.millis
  }

  /**
   * The fields `h`, `m`, `s` and `ms` of `format_time`. Minutes and seconds
   * are in 0..59 and milliseconds in 0..999; hours are unbounded. Together
   * they are the offset truncated to a whole millisecond, never rounded up.
   */
  function Fields(seconds: real): (c: Clock)
    ensures c.minutes < 60 && c.secs < 60 && c.millis < 1000
    ensures c.hours == (seconds / 3600.0).Floor
    ensures seconds >= 0.0 ==> c.hours >= 0
    ensures TotalMillis(c) == (seconds * 1000.0).Floor
  {
    var h := Trunc(FloorDiv(seconds, 3600.0) as real);
    var m := Trunc(FloorDiv(PyMod(seconds, 3600.0), 60.0) as real);
    var s := Trunc(PyMod(seconds, 60.0));
    var ms := Trunc(PyMod(seconds, 1.0) * 1000.0);
    FieldsSum(seconds, h, m, s, ms);
    Clock(h, m, s, ms)
  }

  lemma FieldsSum(seconds: real, h: int, m: int, s: int, ms: int)
    requires h == FloorDiv(seconds, 3600.0)
    requires m == FloorDiv(PyMod(seconds, 3600.0), 60.0)
    requires s == Trunc(PyMod(seconds, 60.0))
    requires ms == Trunc(PyMod(seconds, 1.0) * 1000.0)
    ensures 0 <= m < 60 && 0 <= s < 60 && 0 <= ms < 1000
    ensures h * 3600000 + m * 60000 + s * 1000 + ms == (seconds * 1000.0).Floor
  {
    var r3600 := PyMod(seconds, 3600.0);
    var r60 := PyMod(seconds, 60.0);
    var r1 := PyMod(seconds, 1.0);
    MinutesBound(r3600, m);
    // seconds == 3600 h + 60 m + s + r1, with r1 in [0, 1)
    ModOfMod(seconds, h, r3600, r60);
    assert r3600 == m as real * 60.0 + r60;
    SecondsSplit(seconds, r60, s, r1, h * 60 + m);
    assert seconds == (h * 3600 + m * 60 + s) as real + r1;
    MillisFloor(seconds, h * 3600 + m * 60 + s, r1, ms);
  }

  lemma MinutesBound(r: real, m: int)
    requires 0.0 <= r < 3600.0
    requires m == FloorDiv(r, 60.0)
    ensures 0 <= m < 60
  {
  }

  /** The remainder by 60 of the remainder by 3600 is the remainder by 60. */
  lemma ModOfMod(x: real, h: int, r3600: real, r60: real)
    requires h == FloorDiv(x, 3600.0) && r3600 == PyMod(x, 3600.0)
    requires r60 == PyMod(x, 60.0)
    ensures r60 == PyMod(r3600, 60.0)
  {
    assert x == r3600 + (h * 60) as real * 60.0;
    PyModShift(r3600, h * 60, 60.0);
  }

  lemma SecondsSplit(x: real, r60: real, s: int, r1: real, k: int)
    requires r60 == PyMod(x, 60.0) && s == Trunc(r60) && r1 == PyMod(x, 1.0)
    requires x == k as real * 60.0 + r60
    ensures 0 <= s < 60
    ensures x == (k * 60 + s) as real + r1
  {
    assert r60 == s as real + PyMod(r60, 1.0) by {
      FloorDivUnique(r60, 1.0, s);
    }
    assert x == r60 + (k * 60) as real * 1.0;
    PyModShift(r60, k * 60, 1.0);
  }

  lemma MillisFloor(x: real, n: int, r1: real, ms: int)
    requires 0.0 <= r1 < 1.0 && x == n as real + r1
    requires ms == Trunc(r1 * 1000.0)
    ensures 0 <= ms < 1000
    ensures n * 1000 + ms == (x * 1000.0).Floor
  {
    assert x * 1000.0 == (n * 1000) as real + r1 * 1000.0;
    FloorShift(r1 * 1000.0, n * 1000);
  }

  /** Adding a whole multiple of the divisor does not change the remainder. */
  lemma PyModShift(x: real, k: int, d: real)
    requires d > 0.0
    ensures PyMod(x + k as real * d, d) == PyMod(x, d)
  {
    var q := FloorDiv(x, d);
    var y := x + k as real * d;
    assert (q + k) as real * d == q as real * d + k as real * d;
    assert (q + k + 1) as real * d == (q + 1) as real * d + k as real * d;
    FloorDivUnique(y, d, q + k);
  }

  lemma FloorDivUnique(x: real, d: real, q: int)
    requires d > 0.0
    requires q as real * d <= x < (q + 1) as real * d
    ensures FloorDiv(x, d) == q
  {
    var y := x / d;
    assert y * d == x;
    CancelFactor(q as real, y, d);
    CancelFactor(y, (q + 1) as real, d);
  }

  /** Dividing both sides of an inequality by a positive factor. */
  lemma CancelFactor(a: real, b: real, d: real)
    requires d > 0.0
    ensures a * d <= b * d ==> a <= b
    ensures a * d < b * d ==> a < b
  {
    assert (b - a) * d == b * d - a * d;
  }

  lemma FloorShift(x: real, n: int)
    ensures (n as real + x).Floor == n + x.Floor
  {
  }

  /** `format_time`: `f"{h:02d}:{m:02d}:{s:02d},{ms:03d}"`. */
  function FormatTime(seconds: real): (r: string)
    ensures TailShape(r)
    ensures forall i :: 0 <= i < |r| ==> IsTimeChar(r[i])
  {
    var c := Fields(seconds);
    FormatIntChars(c.hours, 2);
    FormatIntChars(c.minutes, 2);
    FormatIntChars(c.secs, 2);
    FormatIntChars(c.millis, 3);
    FormatIntWidth(c.minutes, 2);
    FormatIntWidth(c.secs, 2);
    FormatIntWidth(c.millis, 3);
    var r := Join(FormatInt(c.hours, 2), FormatInt(c.minutes, 2), FormatInt(c.secs, 2),
                  FormatInt(c.millis, 3));
    JoinParts(FormatInt(c.hours, 2), FormatInt(c.minutes, 2), FormatInt(c.secs, 2),
              FormatInt(c.millis, 3));
    r
  }

  /** The characters a timestamp is written with: no space and no line break. */
  predicate IsTimeChar(c: char) {
    IsDigit(c) || c == ':' || c == ',' || c == '-'
  }

  /** The four rendered fields with their separators. */
  function Join(hh: string, mm: string, ss: string, mmm: string): string {
    hh + ":" + mm + ":" + ss + "," + mmm
  }

  /** Where each field of a joined timestamp sits, counted from the end. */
  lemma JoinParts(hh: string, mm: string, ss: string, mmm: string)
    requires hh != [] && |mm| == 2 && |ss| == 2 && |mmm| == 3
    requires AllDigits(mm) && AllDigits(ss) && AllDigits(mmm)
    ensures var t, n := Join(hh, mm, ss, mmm), |Join(hh, mm, ss, mmm)|;
      n == |hh| + 10 && TailShape(t)
      && t[..n - 10] == hh && t[n - 9..n - 7] == mm && t[n - 6..n - 4] == ss && t[n - 3..] == mmm
  {
    var t := Join(hh, mm, ss, mmm);
    var n := |t|;
    assert t[..n - 10] == hh;
    assert t[n - 9..n - 7] == mm;
    assert t[n - 6..n - 4] == ss;
    assert t[n - 3..] == mmm;
  }

  /**
   * What every timestamp ends with, whatever the number of hour digits:
   * `:MM:SS,mmm`, where the letters stand for decimal digits.
   */
  predicate TailShape(t: string) {
    var n := |t|;
    n >= 11
    && t[n - 10] == ':' && t[n - 7] == ':' && t[n - 4] == ','
    && AllDigits(t[n - 9..n - 7]) && AllDigits(t[n - 6..n - 4]) && AllDigits(t[n - 3..])
  }

  /** Reads a timestamp back into its four fields. */
  function ParseTime(t: string): Option<Clock> {
    if !TailShape(t) then None
    else
      var n := |t|;
      ParseFields(t[..n - 10], t[n - 9..n - 7], t[n - 6..n - 4], t[n - 3..])
  }

  function ParseFields(hh: string, mm: string, ss: string, mmm: string): Option<Clock>
    requires AllDigits(mm) && AllDigits(ss) && AllDigits(mmm)
  {
    match ParseInt(hh)
    case None => None
    case Some(h) => Some(Clock(h, DigitsValue(mm), DigitsValue(ss), DigitsValue(mmm)))
  }

  /**
   * Round trip: reading the timestamp back gives exactly the hours, minutes,
   * seconds and milliseconds `format_time` computed, and so the offset in
   * whole milliseconds, truncated (floor of seconds * 1000), for every real
   * offset.
   */
  lemma TimeRoundTrip(seconds: real)
    ensures ParseTime(FormatTime(seconds)) == Some(Fields(seconds))
    ensures TotalMillis(ParseTime(FormatTime(seconds)).value) == (seconds * 1000.0).Floor
  {
    var c := Fields(seconds);
    ParseJoin(c);
  }

  /** Parsing the rendered fields of a clock gives the clock back. */
  lemma ParseJoin(c: Clock)
    requires c.minutes < 60 && c.secs < 60 && c.millis < 1000
    ensures var hh, mm, ss, mmm := FormatInt(c.hours, 2), FormatInt(c.minutes, 2),
                                   FormatInt(c.secs, 2), FormatInt(c.millis, 3);
      ParseTime(Join(hh, mm, ss, mmm)) == Some(c)
  {
    var hh, mm, ss, mmm := FormatInt(c.hours, 2), FormatInt(c.minutes, 2),
                           FormatInt(c.secs, 2), FormatInt(c.millis, 3);
    RenderedFields(c);
    ParseJoined(hh, mm, ss, mmm, c);
  }

  /** Any four fields of the rendered widths, joined, read back as `c`. */
  lemma ParseJoined(hh: string, mm: string, ss: string, mmm: string, c: Clock)
    requires hh != [] && ParseInt(hh) == Some(c.hours)
    requires |mm| == 2 && AllDigits(mm) && DigitsValue(mm) == c.minutes
    requires |ss| == 2 && AllDigits(ss) && DigitsValue(ss) == c.secs
    requires |mmm| == 3 && AllDigits(mmm) && DigitsValue(mmm) == c.millis
    ensures ParseTime(Join(hh, mm, ss, mmm)) == Some(c)
  {
    JoinParts(hh, mm, ss, mmm);
    ParseFieldsValue(hh, mm, ss, mmm, c);
  }

  /** Each rendered field has its width and reads back as the field's value. */
  lemma RenderedFields(c: Clock)
    requires c.minutes < 60 && c.secs < 60 && c.millis < 1000
    ensures FormatInt(c.hours, 2) != [] && ParseInt(FormatInt(c.hours, 2)) == Some(c.hours)
    ensures |FormatInt(c.minutes, 2)| == 2 && AllDigits(FormatInt(c.minutes, 2))
         && DigitsValue(FormatInt(c.minutes, 2)) == c.minutes
    ensures |FormatInt(c.secs, 2)| == 2 && AllDigits(FormatInt(c.secs, 2))
         && DigitsValue(FormatInt(c.secs, 2)) == c.secs
    ensures |FormatInt(c.millis, 3)| == 3 && AllDigits(FormatInt(c.millis, 3))
         && DigitsValue(FormatInt(c.millis, 3)) == c.millis
  {
    FormatIntRoundTrip(c.hours, 2);
    FormatIntChars(c.hours, 2);
    FormatIntWidth(c.minutes, 2);
    PaddedRoundTrip(c.minutes, 2);
    FormatIntWidth(c.secs, 2);
    PaddedRoundTrip(c.secs, 2);
    FormatIntWidth(c.millis, 3);
    PaddedRoundTrip(c.millis, 3);
  }

  lemma ParseFieldsValue(hh: string, mm: string, ss: string, mmm: string, c: Clock)
    requires AllDigits(mm) && AllDigits(ss) && AllDigits(mmm)
    requires ParseInt(hh) == Some(c.hours)
    requires DigitsValue(mm) == c.minutes && DigitsValue(ss) == c.secs
    requires DigitsValue(mmm) == c.millis
    ensures ParseFields(hh, mm, ss, mmm) == Some(c)
  {
  }

  /**
   * Below 100 hours a timestamp is exactly `DD:DD:DD,DDD`: twelve characters
   * with the separators at positions 2, 5 and 8 and digits everywhere else.
   */
  lemma FixedShape(seconds: real)
    requires 0.0 <= seconds < 360000.0
    ensures |FormatTime(seconds)| == 12
    ensures FormatTime(seconds)[2] == ':' && FormatTime(seconds)[5] == ':'
    ensures FormatTime(seconds)[8] == ','
    ensures forall i :: 0 <= i < 12 && i != 2 && i != 5 && i != 8 ==> IsDigit(FormatTime(seconds)[i])
  {
    var c := Fields(seconds);
    assert c.hours < 100;
    FormatIntWidth(c.hours, 2);
    FormatIntWidth(c.minutes, 2);
    FormatIntWidth(c.secs, 2);
    FormatIntWidth(c.millis, 3);
  }
}
