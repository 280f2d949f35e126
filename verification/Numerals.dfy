/**
  Numbers as text: what Rust's integer parsers accept, and what its formatters print.
 */
module Numerals {
  import opened Division
  import opened Wrappers

  type Radix = r: nat | 2 <= r <= 36 witness 10

  function DigitValue(c: char): Option<nat> {
    if '0' <= c <= '9' then Some(c as int - '0' as int)
    else if 'a' <= c <= 'z' then Some(c as int - 'a' as int + 10)
    else if 'A' <= c <= 'Z' then Some(c as int - 'A' as int + 10)
    else None
  }

  predicate IsDigit(c: char, radix: Radix) {
    DigitValue(c).Some? && DigitValue(c).value < radix
  }

  predicate AllDigits(s: string, radix: Radix) {
    forall k :: 0 <= k < |s| ==> IsDigit(s[k], radix)
  }

  function ValueOf(s: string, radix: Radix): nat
    requires AllDigits(s, radix)
  {
    if s == "" then 0 else Shifted(ValueOf(s[..|s| - 1], radix), radix, DigitValue(s[|s| - 1]).value)
  }

  function Shifted(v: nat, radix: Radix, digit: nat): nat {
    v * radix + digit
  }

  /** `from_str_radix` and `parse` for an unsigned type whose largest value is `max`: an optional plus sign,
      at least one digit, no overflow. */
  function ParseUnsigned(s: string, radix: Radix, max: nat): Option<nat> {
    var digits := if s != "" && s[0] == '+' then s[1..] else s;
    if digits != "" && AllDigits(digits, radix) && ValueOf(digits, radix) <= max then Some(ValueOf(digits, radix)) else None
  }

  /** The same for a signed type with values from `min` to `max`. */
  function ParseSigned(s: string, radix: Radix, min: int, max: nat): Option<int> {
    if s != "" && s[0] == '-' then
      var digits := s[1..];
      if digits != "" && AllDigits(digits, radix) && 0 - ValueOf(digits, radix) >= min then Some(0 - ValueOf(digits, radix)) else None
    else
      match ParseUnsigned(s, radix, max)
      case Some(v) => Some(v)
      case None => None
  }

  function DigitChar(v: nat): char
    requires v < 36
  {
    if v < 10 then '0' + v as char else 'a' + (v - 10) as char
  }

  /** The digits of `n`, without leading zeros. */
  function Printed(n: nat, radix: Radix): (s: string)
    ensures s != ""
  {
    if n < radix then [DigitChar(n)] else Printed(Leading(n, radix), radix) + [DigitChar(Last(n, radix))]
  }

  function Leading(n: nat, radix: Radix): (q: nat)
    ensures n > 0 ==> q < n
  {
    QuotientIsSmaller(n, radix);
    n / radix
  }

  function Last(n: nat, radix: Radix): (d: nat)
    ensures d < radix
  {
    n % radix
  }

  lemma DigitCharReads(v: nat, radix: Radix)
    requires v < radix
    ensures IsDigit(DigitChar(v), radix) && DigitValue(DigitChar(v)) == Some(v)
  {
  }

  lemma PushDigit(s: string, c: char, radix: Radix)
    requires AllDigits(s, radix) && IsDigit(c, radix)
    ensures AllDigits(s + [c], radix)
    ensures ValueOf(s + [c], radix) == Shifted(ValueOf(s, radix), radix, DigitValue(c).value)
  {
    hide Shifted;
    assert (s + [c])[..|s|] == s;
  }

  lemma {:induction false} PrintedReads(n: nat, radix: Radix)
    ensures AllDigits(Printed(n, radix), radix)
    ensures ValueOf(Printed(n, radix), radix) == n
  {
    hide AllDigits, ValueOf, DigitValue, DigitChar, IsDigit, Shifted, Leading, Last;
    ShiftBack(n, radix);
    if n < radix {
      DigitCharReads(n, radix);
      PushEmpty(DigitChar(n), radix);
    } else {
      PrintedReads(Leading(n, radix), radix);
      DigitCharReads(Last(n, radix), radix);
      PushDigit(Printed(Leading(n, radix), radix), DigitChar(Last(n, radix)), radix);
    }
  }

  lemma ShiftBack(n: nat, radix: Radix)
    ensures Shifted(Leading(n, radix), radix, Last(n, radix)) == n
  {
    QuotientIsSmaller(n, radix);
  }

  lemma PushEmpty(c: char, radix: Radix)
    requires IsDigit(c, radix)
    ensures AllDigits([c], radix) && ValueOf([c], radix) == DigitValue(c).value
  {
    hide Shifted;
    ShiftNothing(radix, DigitValue(c).value);
    PushDigit("", c, radix);
    assert "" + [c] == [c];
  }

  lemma ShiftNothing(radix: Radix, digit: nat)
    ensures Shifted(0, radix, digit) == digit
  {
  }

  lemma ParsePrinted(n: nat, radix: Radix, max: nat)
    requires n <= max
    ensures ParseUnsigned(Printed(n, radix), radix, max) == Some(n)
  {
    PrintedReads(n, radix);
    assert IsDigit(Printed(n, radix)[0], radix);
  }
}
