/**
 * Decimal rendering of integers as Python's `str(n)` and `f"{n:0w}"` produce it,
 * and the digit parsing that inverts it.
 */
module Numerals {
  import opened Wrappers

  predicate IsDigit(c: char) {
    '0' <= c <= '9'
  }

  predicate AllDigits(s: string) {
    forall i :: 0 <= i < |s| ==> IsDigit(s[i])
  }

  function DigitChar(d: nat): (c: char)
    requires d < 10
    ensures IsDigit(c)
  {
    ('0' as int + d) as char
  }

  function DigitValue(c: char): (d: nat)
    requires IsDigit(c)
    ensures d < 10
  {
    c as int - '0' as int
  }

  function Pow10(k: nat): (p: nat)
    ensures p >= 1
  {
    if k == 0 then 1 else 10 * Pow10(k - 1)
  }

  /** Python's `str(n)` for a non-negative integer: no leading zeros. */
  function NatToString(n: nat): (s: string)
    ensures |s| >= 1
  {
    if n < 10 then [DigitChar(n)] else NatToString(n / 10) + [DigitChar(n % 10)]
  }

  /** Python's `str(n)` for any integer. */
  function IntToString(n: int): string {
    if n < 0 then "-" + NatToString(-n) else NatToString(n)
  }

  /** `k` copies of `'0'`. */
  function Zeros(k: nat): (z: string)
    ensures |z| == k
  {
    if k == 0 then "" else Zeros(k - 1) + "0"
  }

  /** `s` preceded by as many `'0'` as it takes to reach `width` characters. */
  function PadLeft(s: string, width: nat): (r: string)
    ensures |r| == if |s| >= width then |s| else width
  {
    if |s| >= width then s else Zeros(width - |s|) + s
  }

  /** Python's `f"{n:0{width}}"`: zero-filled to `width`, the sign counting towards the width. */
  function ZeroPad(n: int, width: nat): string {
    if n < 0 then "-" + PadLeft(NatToString(-n), if width > 0 then width - 1 else 0)
    else PadLeft(NatToString(n), width)
  }

  /** The value of a string of decimal digits (leading zeros allowed). */
  function DigitsValue(s: string): nat
    requires AllDigits(s)
  {
    if s == [] then 0 else 10 * DigitsValue(s[..|s| - 1]) + DigitValue(s[|s| - 1])
  }

  /** A non-negative decimal numeral, or `None` when `s` is empty or holds a non-digit. */
  function ParseNat(s: string): (r: Option<nat>)
    ensures r.Some? <==> s != [] && AllDigits(s)
  {
    if s != [] && AllDigits(s) then Some(DigitsValue(s)) else None
  }

  // ---------------------------------------------------------------------------------------------

  /** Reading back the decimal rendering of `n` gives `n`. */
  lemma {:induction false} NatToStringValue(n: nat)
    ensures AllDigits(NatToString(n)) && DigitsValue(NatToString(n)) == n
  {
    if n >= 10 {
      var s := NatToString(n);
      NatToStringValue(n / 10);
      assert s == NatToString(n / 10) + [DigitChar(n % 10)];
      assert s[..|s| - 1] == NatToString(n / 10);
    }
  }

  /** A number below `10^k` needs at most `k` digits. */
  lemma {:induction false} NatToStringLength(n: nat, k: nat)
    requires k >= 1 && n < Pow10(k)
    ensures |NatToString(n)| <= k
  {
    if n >= 10 {
      NatToStringLength(n / 10, k - 1);
    }
  }

  /** Leading zeros do not change the value. */
  lemma {:induction false} LeadingZerosValue(z: nat, s: string)
    requires AllDigits(s)
    ensures AllDigits(Zeros(z) + s)
    ensures DigitsValue(Zeros(z) + s) == DigitsValue(s)
  {
    var zs := Zeros(z);
    if s == [] {
      assert zs + s == zs;
      if z > 0 {
        LeadingZerosValue(z - 1, s);
        assert Zeros(z - 1) + s == zs[..z - 1];
      }
    } else {
      assert (zs + s)[..|zs + s| - 1] == zs + s[..|s| - 1];
      LeadingZerosValue(z, s[..|s| - 1]);
    }
  }

  /** The zero-filled rendering of a non-negative number is all digits, at least `width` long,
      exactly `width` long when the number fits, and denotes the number. */
  lemma ZeroPadNat(n: nat, width: nat)
    ensures AllDigits(ZeroPad(n, width)) && |ZeroPad(n, width)| >= width
    ensures DigitsValue(ZeroPad(n, width)) == n
    ensures width >= 1 && n < Pow10(width) ==> |ZeroPad(n, width)| == width
  {
    var s := NatToString(n);
    NatToStringValue(n);
    if |s| < width {
      LeadingZerosValue(width - |s|, s);
    }
    if width >= 1 && n < Pow10(width) {
      NatToStringLength(n, width);
    }
  }

  /** `ParseNat` inverts `str(n)`. */
  lemma ParseNatToString(n: nat)
    ensures ParseNat(NatToString(n)) == Some(n)
  {
    NatToStringValue(n);
  }

  /** `ParseNat` inverts the zero-filled rendering, whatever the width. */
  lemma ParseZeroPad(n: nat, width: nat)
    ensures ParseNat(ZeroPad(n, width)) == Some(n)
  {
    ZeroPadNat(n, width);
  }
}
