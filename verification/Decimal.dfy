/** Decimal rendering of integers, as Python's `str(int)` and `format(int, "0Nd")`
    produce it, together with the parser that inverts it. */
module Decimal {

  import opened Wrappers
  import opened Text

  predicate IsDigit(c: char) {
    '0' <= c <= '9'
  }

  predicate AllDigits(s: string) {
    forall i :: 0 <= i < |s| ==> IsDigit(s[i])
  }

  function DigitChar(d: nat): (c: char)
    requires d < 10
    ensures IsDigit(c)
  {
    ('0' as int + d) as char
  }

  function DigitValue(c: char): (d: nat)
    requires IsDigit(c)
    ensures d < 10 && DigitChar(d) == c
  {
    c as int - '0' as int
  }

  /** The shortest decimal numeral of `n` (no leading zero except for zero itself). */
  function NatToDecimal(n: nat): (r: string)
    ensures |r| >= 1 && AllDigits(r)
    ensures |r| > 1 ==> r[0] != '0'
    ensures n < 10 <==> |r| == 1
  {
    if n < 10 then [DigitChar(n)] else NatToDecimal(n / 10) + [DigitChar(n % 10)]
  }

  /** The value of a string of decimal digits; leading zeros are allowed. */
  function DecimalToNat(s: string): nat
    requires AllDigits(s)
  {
    if |s| == 0 then 0 else DecimalToNat(s[..|s| - 1]) * 10 + DigitValue(s[|s| - 1])
  }

  /** Parsing inverts rendering. */
  lemma {:induction false} DecimalRoundTrip(n: nat)
    ensures DecimalToNat(NatToDecimal(n)) == n
  {
    if n >= 10 {
      var r := NatToDecimal(n);
      assert r[..|r| - 1] == NatToDecimal(n / 10);
      DecimalRoundTrip(n / 10);
    }
  }

  /** Zero padding on the left does not change the value parsed. */
  lemma {:induction false} LeadingZeros(k: nat, s: string)
    requires AllDigits(s)
    ensures AllDigits(Repeat('0', k) + s)
    ensures DecimalToNat(Repeat('0', k) + s) == DecimalToNat(s)
    decreases |s|
  {
    var z := Repeat('0', k);
    if |s| == 0 {
      assert z + s == z;
      AllZeros(k);
    } else {
      assert (z + s)[..|z + s| - 1] == z + s[..|s| - 1];
      LeadingZeros(k, s[..|s| - 1]);
    }
  }

  lemma {:induction false} AllZeros(k: nat)
    ensures DecimalToNat(Repeat('0', k)) == 0
  {
    if k > 0 {
      assert Repeat('0', k)[..k - 1] == Repeat('0', k - 1);
      AllZeros(k - 1);
    }
  }

  /** Python's `str(i)`. */
  function IntToString(i: int): string {
    if i < 0 then "-" + NatToDecimal(-i) else NatToDecimal(i)
  }

  /** The sign `format` writes: `-` for a negative value, `+` when asked for. */
  function SignOf(v: int, plus: bool): string {
    if v < 0 then "-" else if plus then "+" else ""
  }

  /** The digits of `|v|`, zero-padded so that sign and digits fill `width`. */
  function Magnitude(v: int, width: nat, plus: bool): string {
    var digits := NatToDecimal(if v < 0 then -v else v);
    var used := |SignOf(v, plus)| + |digits|;
    Repeat('0', if used < width then width - used else 0) + digits
  }

  /** Python's `format(v, "0{width}d")` when `plus` is false and
      `format(v, "+0{width}d")` when it is true: an optional sign, then the
      magnitude zero-padded so that the whole field is at least `width` long. */
  function FormatInt(v: int, width: nat, plus: bool): string {
    SignOf(v, plus) + Magnitude(v, width, plus)
  }

  /** Reads back a signed decimal field produced by `FormatInt`. */
  function ParseInt(s: string): Option<int>
  {
    if |s| > 0 && s[0] == '-' && AllDigits(s[1..]) then Some(-(DecimalToNat(s[1..]) as int))
    else if |s| > 0 && s[0] == '+' && AllDigits(s[1..]) then Some(DecimalToNat(s[1..]))
    else if AllDigits(s) then Some(DecimalToNat(s))
    else None
  }

  /** The zero-padded magnitude is all digits and reads back as the magnitude. */
  lemma PaddedDigits(pad: nat, m: nat)
    ensures AllDigits(Repeat('0', pad) + NatToDecimal(m))
    ensures DecimalToNat(Repeat('0', pad) + NatToDecimal(m)) == m
  {
    LeadingZeros(pad, NatToDecimal(m));
    DecimalRoundTrip(m);
  }

  lemma MagnitudeDigits(v: int, width: nat, plus: bool)
    ensures AllDigits(Magnitude(v, width, plus))
    ensures DecimalToNat(Magnitude(v, width, plus)) == if v < 0 then -v else v
  {
    var digits := NatToDecimal(if v < 0 then -v else v);
    var used := |SignOf(v, plus)| + |digits|;
    PaddedDigits(if used < width then width - used else 0, if v < 0 then -v else v);
  }

  /** The rendered field parses back to the value. */
  lemma FormatIntRoundTrip(v: int, width: nat, plus: bool)
    ensures ParseInt(FormatInt(v, width, plus)) == Some(v)
  {
    var body := Magnitude(v, width, plus);
    MagnitudeDigits(v, width, plus);
    var f := FormatInt(v, width, plus);
    if v < 0 {
      ParseSigned('-', body, f);
    } else if plus {
      ParseSigned('+', body, f);
    } else {
      assert f == body;
      ParseUnsigned(body);
    }
  }

  /** The rendered field is at least `width` long, and exactly `width` long when the
      sign and the digits of the value fit; it starts with a sign when one is asked
      for, and is all digits otherwise for a non-negative value. */
  lemma FormatIntWidth(v: int, width: nat, plus: bool)
    ensures |FormatInt(v, width, plus)| >= width
    ensures |FormatInt(v, width, plus)| == width <==>
              (if v < 0 || plus then 1 else 0) + |NatToDecimal(if v < 0 then -v else v)| <= width
    ensures plus ==> FormatInt(v, width, plus)[0] in "+-"
    ensures !plus && v >= 0 ==> AllDigits(FormatInt(v, width, plus))
  {
  }

  lemma ParseUnsigned(body: string)
    requires AllDigits(body)
    ensures ParseInt(body) == Some(DecimalToNat(body) as int)
  {
    if |body| > 0 {
      assert body[0] != '-' && body[0] != '+';
    }
  }

  lemma ParseSigned(c: char, body: string, f: string)
    requires c == '-' || c == '+'
    requires AllDigits(body) && f == [c] + body
    ensures ParseInt(f) ==
              Some(if c == '-' then -(DecimalToNat(body) as int) else DecimalToNat(body) as int)
  {
    assert f[1..] == body;
  }

  function Pow10(k: nat): (r: nat)
    ensures r >= 1
  {
    if k == 0 then 1 else 10 * Pow10(k - 1)
  }

  /** A value below `10^k` has at most `k` digits. */
  lemma {:induction false} NatToDecimalLength(n: nat, k: nat)
    requires 1 <= k && n < Pow10(k)
    ensures |NatToDecimal(n)| <= k
  {
    assert Pow10(1) == 10;
    if n >= 10 {
      NatToDecimalLength(n / 10, k - 1);
    }
  }
}
