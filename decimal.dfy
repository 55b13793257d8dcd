/** Decimal text for integers: `strconv.Itoa`/`fmt`'s `%d` and `%02d`,
    `strconv.Atoi`, and Go's 64-bit signed integer range. */
module Decimal {
  import opened Common

  const MaxInt64: int := 0x7FFF_FFFF_FFFF_FFFF
  const MinInt64: int := -0x8000_0000_0000_0000

  predicate IsDigit(c: char) {
    '0' <= c <= '9'
  }

  predicate AllDigits(s: string) {
    forall i :: 0 <= i < |s| ==> IsDigit(s[i])
  }

  function DigitChar(d: nat): (c: char)
    requires d < 10
    ensures IsDigit(c)
  {
    ('0' as int + d) as char
  }

  function DigitValue(c: char): nat
    requires IsDigit(c)
  {
    c as int - '0' as int
  }

  /** The number written by a string of decimal digits. */
  function DigitsValue(s: string): nat
    requires AllDigits(s)
  {
    if s == [] then 0 else DigitsValue(s[..|s| - 1]) * 10 + DigitValue(s[|s| - 1])
  }

  /** `%d` of a non-negative number: its shortest decimal digits. */
  function NatToString(n: nat): (s: string)
    ensures 1 <= |s| && AllDigits(s)
    ensures |s| > 1 ==> s[0] != '0'
  {
    if n < 10 then [DigitChar(n)] else NatToString(n / 10) + [DigitChar(n % 10)]
  }

  /** Reading back the digits of `n` gives `n`. */
  lemma {:induction false} NatToStringRoundTrip(n: nat)
    ensures DigitsValue(NatToString(n)) == n
  {
    if n >= 10 {
      var s := NatToString(n);
      assert s[..|s| - 1] == NatToString(n / 10);
      NatToStringRoundTrip(n / 10);
    }
  }

  /** `%02d` of a non-negative number: at least two digits, zero-padded. */
  function Pad2(n: nat): (s: string)
    ensures 2 <= |s| && AllDigits(s)
  {
    if n < 10 then "0" + NatToString(n) else NatToString(n)
  }

  /** A leading zero does not change the value of a digit string. */
  lemma {:induction false} LeadingZeroValue(s: string)
    requires AllDigits(s)
    ensures AllDigits("0" + s) && DigitsValue("0" + s) == DigitsValue(s)
  {
    if s != [] {
      var t := "0" + s;
      assert t[..|t| - 1] == "0" + s[..|s| - 1];
      LeadingZeroValue(s[..|s| - 1]);
    }
  }

  /** Reading back `%02d` of `n` gives `n`. */
  lemma Pad2RoundTrip(n: nat)
    ensures DigitsValue(Pad2(n)) == n
  {
    NatToStringRoundTrip(n);
    if n < 10 { LeadingZeroValue(NatToString(n)); }
  }

  /** `strconv.Atoi` on a 64-bit platform: an optional sign, then one or more
      decimal digits, whose value must fit in an int64; anything else is a
      syntax or range error (None). */
  function Atoi(s: string): (r: Option<int>)
    ensures r.Some? ==> MinInt64 <= r.value <= MaxInt64
    ensures r.Some? ==> s != [] && (IsDigit(s[0]) || s[0] == '+' || s[0] == '-')
  {
    if s == [] then None
    else
      var negative := s[0] == '-';
      var digits := if s[0] == '+' || s[0] == '-' then s[1..] else s;
      if digits == [] || !AllDigits(digits) then None
      else
        var magnitude: int := DigitsValue(digits);
        var v := if negative then -magnitude else magnitude;
        if MinInt64 <= v <= MaxInt64 then Some(v) else None
  }

  /** Atoi reads back what `%d` writes, within the int64 range. */
  lemma AtoiOfNatToString(n: nat)
    requires n <= MaxInt64
    ensures Atoi(NatToString(n)) == Some(n)
  {
    NatToStringRoundTrip(n);
  }

  /** Atoi reads back what `%02d` writes, within the int64 range. */
  lemma AtoiOfPad2(n: nat)
    requires n <= MaxInt64
    ensures Atoi(Pad2(n)) == Some(n)
  {
    Pad2RoundTrip(n);
  }

  /** Two's-complement wrap-around of an integer into the int64 range, as a
      Go multiplication of int64 values does on overflow. */
  function WrapInt64(x: int): (r: int)
    ensures MinInt64 <= r <= MaxInt64
    ensures (r - x) % 0x1_0000_0000_0000_0000 == 0
    ensures MinInt64 <= x <= MaxInt64 ==> r == x
  {
    (x - MinInt64) % 0x1_0000_0000_0000_0000 + MinInt64
  }
}
