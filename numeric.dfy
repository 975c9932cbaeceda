/**
 * Fixed-width machine integers and the textual rendering of unsigned and
 * signed integers in a radix (Rust's `Display` for integers in base 10,
 * `{:x}` for lower-case hexadecimal), together with the parsers that undo it.
 */
module Numeric {
  import opened Wrappers

  newtype uint8 = x: int | 0 <= x < 0x100
  newtype uint16 = x: int | 0 <= x < 0x1_0000
  newtype int32 = x: int | -0x8000_0000 <= x < 0x8000_0000

  /** The value of a digit character; 16 for a character that is no digit at all. */
  function DigitValue(c: char): nat
  {
    if '0' <= c <= '9' then c as int - '0' as int
    else if 'a' <= c <= 'f' then c as int - 'a' as int + 10
    else 16
  }

  /** The lower-case digit character for `d`. */
  function DigitChar(d: nat): (c: char)
    requires d < 16
    ensures DigitValue(c) == d
  {
    if d < 10 then ('0' as int + d) as char else ('a' as int + d - 10) as char
  }

  predicate AllDigits(s: string, base: nat)
  {
    forall i | 0 <= i < |s| :: DigitValue(s[i]) < base
  }

  /** The digits of `n` in `base`, most significant first, without leading zeros. */
  function FormatNat(n: nat, base: nat): (r: string)
    requires 2 <= base <= 16
    ensures |r| >= 1 && AllDigits(r, base)
    ensures r == "0" <==> n == 0
    ensures r[0] == '0' ==> r == "0"
    decreases n
  {
    if n < base then [DigitChar(n)]
    else
      QuotientBounds(n, base);
      FormatNat(n / base, base) + [DigitChar(n % base)]
  }

  lemma QuotientBounds(n: nat, base: nat)
    requires 2 <= base <= n
    ensures 1 <= n / base < n && n % base < base
    ensures n == (n / base) * base + n % base
  {
  }

  /** Rust's `Display` of an unsigned integer. */
  function Decimal(n: nat): string
  {
    FormatNat(n, 10)
  }

  /** The number a string of digits denotes, read most significant digit first. */
  function DigitsValue(s: string, base: nat): nat
    requires AllDigits(s, base)
  {
    if s == [] then 0
    else DigitsValue(s[..|s| - 1], base) * base + DigitValue(s[|s| - 1])
  }

  function ParseNat(s: string, base: nat): Option<nat>
  {
    if |s| > 0 && AllDigits(s, base) then Some(DigitsValue(s, base)) else None
  }

  lemma {:induction false} FormatNatRoundTrip(n: nat, base: nat)
    requires 2 <= base <= 16
    ensures ParseNat(FormatNat(n, base), base) == Some(n)
  {
    var r := FormatNat(n, base);
    if n >= base {
      var q := FormatNat(n / base, base);
      QuotientBounds(n, base);
      FormatNatRoundTrip(n / base, base);
      assert r[..|r| - 1] == q;
      assert DigitsValue(q, base) == n / base;
      assert DigitsValue(r, base) == n;
    } else {
      assert r == [DigitChar(n)] && r[..|r| - 1] == [];
      assert DigitsValue(r, base) == DigitValue(DigitChar(n));
    }
  }

  /** Rust's `Display` of a signed integer: a `-` only when negative, then the decimal digits. */
  function IntToText(n: int): (r: string)
  {
    if n < 0 then "-" + Decimal(-n) else Decimal(n)
  }

  function ParseInt(s: string): Option<int>
  {
    if |s| > 0 && s[0] == '-' then
      match ParseNat(s[1..], 10)
      case Some(v) => Some(-(v as int))
      case None => None
    else
      match ParseNat(s, 10)
      case Some(v) => Some(v)
      case None => None
  }

  lemma IntToTextRoundTrip(n: int)
    ensures ParseInt(IntToText(n)) == Some(n)
  {
    var r := IntToText(n);
    if n < 0 {
      FormatNatRoundTrip(-n, 10);
      assert r[1..] == Decimal(-n);
      assert ParseNat(r[1..], 10) == Some(-n);
    } else {
      FormatNatRoundTrip(n, 10);
      assert DigitValue(r[0]) < 10;
      assert ParseNat(r, 10) == Some(n);
    }
  }
}
