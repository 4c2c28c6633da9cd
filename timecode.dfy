/**
 * `format_time` (utils/subtitles_generator.py): seconds rendered as
 * `HH:MM:SS,mmm`, computed with Python's float floor division, modulo and
 * `int()` truncation, here over exact reals.
 */
module Timecode {
  import opened Wrappers
  import opened Numerals

  /** Python's `x // d` on floats, for a positive divisor. */
  function FloorDiv(x: real, d: real): int
    requires d > 0.0
  {
    (x / d).Floor
  }

  /** Python's `x % d` on floats, for a positive divisor: the remainder has the divisor's sign. */
  function FloorMod(x: real, d: real): (r: real)
    requires d > 0.0
    ensures 0.0 <= r < d
  {
    FloorDivBounds(x, d);
    x - d * FloorDiv(x, d) as real
  }

  lemma FloorDivBounds(x: real, d: real)
    requires d > 0.0
    ensures x - d < d * FloorDiv(x, d) as real <= x
  {
    var q := FloorDiv(x, d) as real;
    assert x / d - 1.0 < q <= x / d;
    MulMonotone(d, x / d - 1.0, q);
    MulMonotone(d, q, x / d);
  }

  lemma MulMonotone(d: real, a: real, b: real)
    requires d > 0.0 && a <= b
    ensures d * a <= d * b && (a < b ==> d * a < d * b)
  {
  }

  /** Python's `int(x)`: truncation toward zero. */
  function Trunc(x: real): int {
    if x >= 0.0 then x.Floor else -((-x).Floor)
  }

  /** The four integers `format_time` prints. */
  datatype Clock = Clock(hours: int, minutes: int, seconds: int, millis: int)

  function Components(s: real): Clock {
    Clock(FloorDiv(s, 3600.0),
          FloorDiv(FloorMod(s, 3600.0), 60.0),
          Trunc(FloorMod(s, 60.0)),
          Trunc((s - Trunc(s) as real) * 1000.0))
  }

  /** `format_time(seconds)`. */
  function FormatTime(s: real): string {
    var c := Components(s);
    ZeroPad(c.hours, 2) + ":" + ZeroPad(c.minutes, 2) + ":" + ZeroPad(c.seconds, 2) + "," + ZeroPad(c.millis, 3)
  }

  /** Reads `H...H:MM:SS,mmm` as a number of milliseconds. */
  function ParseTimestamp(t: string): Option<int> {
    if |t| < 12 || t[|t| - 10] != ':' || t[|t| - 7] != ':' || t[|t| - 4] != ',' then None
    else
      var n := |t|;
      match (ParseNat(t[..n - 10]), ParseNat(t[n - 9..n - 7]), ParseNat(t[n - 6..n - 4]), ParseNat(t[n - 3..]))
      case (Some(h), Some(m), Some(sec), Some(ms)) => Some(h * 3600000 + m * 60000 + sec * 1000 + ms)
      case _ => None
  }

  /** The number of whole milliseconds in `s`. */
  function Millis(s: real): int {
    (s * 1000.0).Floor
  }

  // ---------------------------------------------------------------------------------------------

  lemma FloorShift(x: real, n: int)
    ensures (x + n as real).Floor == x.Floor + n
  {
  }

  /** For a non-negative time, minutes and seconds lie in 0..59, milliseconds in 0..999, and
      the fields denote the time truncated (not rounded) to the millisecond. */
  lemma ComponentsOf(s: real)
    requires s >= 0.0
    ensures var c := Components(s);
      && c.hours >= 0 && 0 <= c.minutes < 60 && 0 <= c.seconds < 60 && 0 <= c.millis < 1000
      && c.hours * 3600000 + c.minutes * 60000 + c.seconds * 1000 + c.millis == Millis(s)
  {
    var c := Components(s);
    var f := s.Floor;
    var h := FloorDiv(s, 3600.0);
    var r := FloorMod(s, 3600.0);
    var m := FloorDiv(r, 60.0);
    assert c.hours == h && c.minutes == m;
    assert h >= 0;
    assert 0 <= m < 60;
    // s / 60 == 60 h + r / 60, so its floor is 60 h + m
    assert s / 60.0 == (60 * h) as real + r / 60.0;
    FloorShift(r / 60.0, 60 * h);
    assert FloorDiv(s, 60.0) == 60 * h + m;
    // the whole seconds within the minute
    var q := FloorMod(s, 60.0);
    assert q == s - (3600 * h + 60 * m) as real;
    FloorShift(s, -(3600 * h + 60 * m));
    assert c.seconds == f - 3600 * h - 60 * m;
    // the milliseconds
    assert Trunc(s) == f;
    assert 0.0 <= s - f as real < 1.0;
    assert (s - f as real) * 1000.0 == s * 1000.0 - (1000 * f) as real;
    FloorShift(s * 1000.0, -(1000 * f));
    assert c.millis == Millis(s) - 1000 * f;
    assert 0 <= c.millis < 1000;
  }

  /** Reading the formatted text back gives the time in whole milliseconds: the text denotes
      `s` truncated to the millisecond. */
  lemma ParseFormat(s: real)
    requires s >= 0.0
    ensures ParseTimestamp(FormatTime(s)) == Some(Millis(s))
  {
    var c := Components(s);
    ComponentsOf(s);
    var hh, mm, ss, ms := ZeroPad(c.hours, 2), ZeroPad(c.minutes, 2), ZeroPad(c.seconds, 2), ZeroPad(c.millis, 3);
    ZeroPadNat(c.hours, 2);
    ZeroPadNat(c.minutes, 2);
    ZeroPadNat(c.seconds, 2);
    ZeroPadNat(c.millis, 3);
    StampFields(hh, mm, ss, ms);
  }

  /** The fields of `hh:mm:ss,mmm` sit at fixed distances from the end, whatever the width of
      the hours. */
  lemma StampFields(hh: string, mm: string, ss: string, ms: string)
    requires |mm| == 2 && |ss| == 2 && |ms| == 3
    ensures var t := hh + ":" + mm + ":" + ss + "," + ms;
      var n := |t|;
      && n == |hh| + 10
      && t[..n - 10] == hh && t[n - 10] == ':' && t[n - 9..n - 7] == mm && t[n - 7] == ':'
      && t[n - 6..n - 4] == ss && t[n - 4] == ',' && t[n - 3..] == ms
  {
    var t := hh + ":" + mm + ":" + ss + "," + ms;
    var n := |t|;
    var front := hh + ":" + mm + ":";
    assert t == front + ss + "," + ms;
    assert |front| == n - 6;
    assert t[..n - 4] == front + ss;
    assert t[n - 6..n - 4] == (front + ss)[|front|..];
    assert (front + ss)[|front|..] == ss;
    assert t[..n - 7] == hh + ":" + mm;
    assert t[n - 9..n - 7] == (hh + ":" + mm)[|hh| + 1..];
  }

  /** Below 100 hours the text is exactly `HH:MM:SS,mmm`: twelve characters, digits around the
      fixed separators. */
  lemma FormatShape(s: real)
    requires 0.0 <= s < 360000.0
    ensures var t := FormatTime(s);
      && |t| == 12 && t[2] == ':' && t[5] == ':' && t[8] == ','
      && AllDigits(t[..2]) && AllDigits(t[3..5]) && AllDigits(t[6..8]) && AllDigits(t[9..])
  {
    var c := Components(s);
    ComponentsOf(s);
    var hh, mm, ss, ms := ZeroPad(c.hours, 2), ZeroPad(c.minutes, 2), ZeroPad(c.seconds, 2), ZeroPad(c.millis, 3);
    ZeroPadNat(c.hours, 2);
    ZeroPadNat(c.minutes, 2);
    ZeroPadNat(c.seconds, 2);
    ZeroPadNat(c.millis, 3);
    StampFields(hh, mm, ss, ms);
  }

  /** Zero seconds is written `00:00:00,000`. */
  lemma FormatZero()
    ensures FormatTime(0.0) == "00:00:00,000"
  {
    assert Components(0.0) == Clock(0, 0, 0, 0);
  }

  /** 3.2 seconds is written `00:00:03,200`. */
  lemma FormatFraction()
    ensures FormatTime(3.2) == "00:00:03,200"
  {
    assert Components(3.2) == Clock(0, 0, 3, 200);
    assert NatToString(200) == "200" by {
      assert NatToString(20) == "20";
    }
  }

  /** 8 seconds is written `00:00:08,000`. */
  lemma FormatWhole()
    ensures FormatTime(8.0) == "00:00:08,000"
  {
    assert Components(8.0) == Clock(0, 0, 8, 0);
  }
}
