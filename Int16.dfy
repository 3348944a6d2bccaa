/**
 * Rust's `i16` and its `str::parse::<i16>()`: an optional '+' or '-',
 * then one or more ASCII decimal digits, accumulated with checked
 * arithmetic so that a value outside -32768..32767 is an error.
 */
module Int16 {
  import opened Sys

  newtype i16 = x: int | -0x8000 <= x < 0x8000

  predicate InRange(x: int) {
    -0x8000 <= x < 0x8000
  }

  predicate IsDigit(c: char) {
    '0' <= c <= '9'
  }

  predicate AllDigits(s: string) {
    forall i :: 0 <= i < |s| ==> IsDigit(s[i])
  }

  function Digit(c: char): (d: nat)
    requires IsDigit(c)
    ensures d < 10
  {
    (c as int) - ('0' as int)
  }

  function DigitChar(d: nat): (c: char)
    requires d < 10
    ensures IsDigit(c) && Digit(c) == d
  {
    ('0' as int + d) as char
  }

  /** The number the digits `ds` denote when appended, in base 10, to `acc`. */
  function ValueFrom(acc: nat, ds: string): nat
    requires AllDigits(ds)
    decreases |ds|
  {
    if |ds| == 0 then acc else ValueFrom(acc * 10 + Digit(ds[0]), ds[1..])
  }

  /** The number a string of decimal digits denotes. */
  function DecimalValue(ds: string): nat
    requires AllDigits(ds)
  {
    ValueFrom(0, ds)
  }

  lemma {:induction false} ValueFromGrows(acc: nat, ds: string)
    requires AllDigits(ds)
    ensures ValueFrom(acc, ds) >= acc
    decreases |ds|
  {
    if |ds| > 0 {
      ValueFromGrows(acc * 10 + Digit(ds[0]), ds[1..]);
    }
  }

  lemma {:induction false} ValueFromSnoc(acc: nat, ds: string, c: char)
    requires AllDigits(ds) && IsDigit(c)
    ensures AllDigits(ds + [c]) && ValueFrom(acc, ds + [c]) == ValueFrom(acc, ds) * 10 + Digit(c)
    decreases |ds|
  {
    if |ds| > 0 {
      assert (ds + [c])[1..] == ds[1..] + [c];
      ValueFromSnoc(acc * 10 + Digit(ds[0]), ds[1..], c);
    }
  }

  /**
   * The digit loop of `i16::from_str_radix` in base 10: each digit
   * multiplies the running value by 10 and adds (or, for a negative
   * number, subtracts) the digit, giving up as soon as a step leaves the
   * `i16` range. Giving up early is the same as a final range check.
   */
  function Accumulate(acc: int, ds: string, negative: bool): (r: Option<i16>)
    requires AllDigits(ds) && InRange(acc)
    requires if negative then acc <= 0 else acc >= 0
    ensures var v := if negative then -(ValueFrom(-acc, ds) as int) else ValueFrom(acc, ds);
            r == if InRange(v) then Some(v as i16) else None
    decreases |ds|
  {
    if |ds| == 0 then Some(acc as i16)
    else
      var next := if negative then acc * 10 - Digit(ds[0]) else acc * 10 + Digit(ds[0]);
      if !InRange(next) then
        ValueFromGrows(if negative then -next else next, ds[1..]);
        None
      else Accumulate(next, ds[1..], negative)
  }

  /** The digits after an optional leading sign. */
  function Unsigned(s: string): string {
    if |s| > 0 && (s[0] == '+' || s[0] == '-') then s[1..] else s
  }

  /** The shape `str::parse::<i16>` accepts: optional sign, then at least one digit. */
  predicate WellFormed(s: string) {
    |Unsigned(s)| > 0 && AllDigits(Unsigned(s))
  }

  /** The number a well-formed literal denotes. */
  function SignedValue(s: string): int
    requires WellFormed(s)
  {
    if s[0] == '-' then -(DecimalValue(Unsigned(s)) as int) else DecimalValue(Unsigned(s))
  }

  /** `str::parse::<i16>()`: an optional sign, then the digits, accumulated with overflow checks. */
  function ParseI16(s: string): Option<i16> {
    if |s| == 0 then None
    else if (s[0] == '+' || s[0] == '-') && |s| == 1 then None
    else
      var negative := s[0] == '-';
      var digits := Unsigned(s);
      if !AllDigits(digits) then None
      else Accumulate(0, digits, negative)
  }

  /**
   * `parse::<i16>` succeeds exactly on a well-formed literal whose value
   * fits in 16 bits, and then gives that value.
   */
  lemma ParseI16Meaning(s: string)
    ensures ParseI16(s).Some? <==> WellFormed(s) && InRange(SignedValue(s))
    ensures ParseI16(s).Some? ==> ParseI16(s).value as int == SignedValue(s)
  {
  }

  /** A text that starts with neither a sign nor a digit is not a number. */
  lemma ParseRejectsLeadingOther(s: string)
    requires |s| > 0 && !IsDigit(s[0]) && s[0] != '+' && s[0] != '-'
    ensures ParseI16(s) == None
  {
    assert Unsigned(s) == s && !AllDigits(s);
  }

  /** The shortest decimal digits of `n`. */
  function DigitsOf(n: nat): (r: string)
    ensures |r| > 0 && AllDigits(r) && DecimalValue(r) == n
  {
    if n < 10 then
      ValueFromSnoc(0, [], DigitChar(n));
      assert [] + [DigitChar(n)] == [DigitChar(n)];
      [DigitChar(n)]
    else
      var r := DigitsOf(n / 10) + [DigitChar(n % 10)];
      ValueFromSnoc(0, DigitsOf(n / 10), DigitChar(n % 10));
      r
  }

  /** `i16`'s `Display`: a '-' for negative numbers, then the digits of the magnitude. */
  function Decimal(v: i16): string {
    if v < 0 then "-" + DigitsOf(-(v as int)) else DigitsOf(v as int)
  }

  /** Every `i16` written in decimal parses back to itself. */
  lemma ParseDecimal(v: i16)
    ensures ParseI16(Decimal(v)) == Some(v)
  {
    var s := Decimal(v);
    ParseI16Meaning(s);
    if v < 0 {
      assert s[0] == '-' && Unsigned(s) == DigitsOf(-(v as int));
    } else {
      assert IsDigit(s[0]) && Unsigned(s) == s;
    }
  }
}
