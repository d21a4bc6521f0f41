/**
 * Text rendering of numbers as the firmware produces it: decimal digits
 * (the `%ld` and `%d` conversions of `sprintf`), Arduino's `print(v, HEX)`
 * (upper-case hex without leading zeros), `printHex2` and the `%02X`
 * conversion. Each renderer has a parser beside it, and the lemmas prove
 * that parsing recovers the number, so the rendering loses nothing.
 */
module Text {
  import opened Wrappers

  // ---------------------------------------------------------------- decimal

  predicate IsDigit(c: char) { '0' <= c <= '9' }

  predicate IsDigits(s: string) { forall i :: 0 <= i < |s| ==> IsDigit(s[i]) }

  function DigitChar(d: nat): (c: char)
    requires d < 10
    ensures IsDigit(c)
  {
    ('0' as int + d) as char
  }

  function DigitValue(c: char): (d: nat)
    requires IsDigit(c)
    ensures d < 10
  {
    c as int - '0' as int
  }

  /** The decimal digits of n, most significant first, without leading zeros. */
  function Decimal(n: nat): (s: string)
    ensures |s| >= 1 && IsDigits(s)
    ensures (s[0] == '0') <==> n == 0
  {
    if n < 10 then [DigitChar(n)] else Decimal(n / 10) + [DigitChar(n % 10)]
  }

  /** The number a string of decimal digits denotes. */
  function ParseDecimal(s: string): nat
    requires IsDigits(s)
  {
    if |s| == 0 then 0 else 10 * ParseDecimal(s[..|s| - 1]) + DigitValue(s[|s| - 1])
  }

  /** Reading the digits back gives the number: the rendering is lossless. */
  lemma {:induction false} DecimalRoundTrip(n: nat)
    ensures ParseDecimal(Decimal(n)) == n
  {
    var s := Decimal(n);
    if n < 10 {
      assert s[..|s| - 1] == [];
    } else {
      assert s[..|s| - 1] == Decimal(n / 10);
      DecimalRoundTrip(n / 10);
    }
  }

  /** A number below 10^k has at most k digits. */
  lemma {:induction false} DecimalLength(n: nat, k: nat)
    requires 1 <= k && n < Pow10(k)
    ensures |Decimal(n)| <= k
  {
    if n >= 10 {
      assert n / 10 < Pow10(k - 1);
      DecimalLength(n / 10, k - 1);
    }
  }

  function Pow10(k: nat): (p: nat)
    ensures p >= 1
  {
    if k == 0 then 1 else 10 * Pow10(k - 1)
  }

  /** The `%ld` / `%d` rendering of a signed value: a minus sign, then the digits. */
  function SignedDecimal(x: int): (s: string)
    ensures |s| >= 1
    ensures (s[0] == '-') <==> x < 0
  {
    if x < 0 then "-" + Decimal(-x) else Decimal(x)
  }

  function ParseSigned(s: string): Option<int>
  {
    if |s| >= 2 && s[0] == '-' && IsDigits(s[1..]) then Some(0 - ParseDecimal(s[1..]) as int)
    else if |s| >= 1 && IsDigits(s) then Some(ParseDecimal(s))
    else None
  }

  lemma SignedRoundTrip(x: int)
    ensures ParseSigned(SignedDecimal(x)) == Some(x)
  {
    var s := SignedDecimal(x);
    if x < 0 {
      assert s[1..] == Decimal(-x);
      DecimalRoundTrip(-x);
    } else {
      DecimalRoundTrip(x);
    }
  }

  // -------------------------------------------------------------------- hex

  predicate IsUpperHex(c: char) { '0' <= c <= '9' || 'A' <= c <= 'F' }

  /** One upper-case hex digit, as Arduino's `Print` and `%X` write it. */
  function HexDigit(d: nat): (c: char)
    requires d < 16
    ensures IsUpperHex(c)
  {
    if d < 10 then ('0' as int + d) as char else ('A' as int + d - 10) as char
  }

  function HexValue(c: char): (d: nat)
    requires IsUpperHex(c)
    ensures d < 16
  {
    if c <= '9' then c as int - '0' as int else c as int - 'A' as int + 10
  }

  lemma HexValueOfDigit(d: nat)
    requires d < 16
    ensures HexValue(HexDigit(d)) == d
    ensures (HexDigit(d) == '0') <==> d == 0
  {
  }

  /** Arduino's `print(v, HEX)`: upper-case hex digits, no leading zeros. */
  function HexString(v: nat): (s: string)
    ensures |s| >= 1
  {
    if v < 16 then [HexDigit(v)] else HexString(v / 16) + [HexDigit(v % 16)]
  }

  /**
   * `printHex2(v)` at LoRaWANHandler.cpp:74-80: keep the low byte
   * (`v &= 0xff`, which on an unsigned value is `v % 256`), write a '0'
   * when it is below 16, then `print(v, HEX)`.
   */
  function PrintHex2(v: nat): string
  {
    var m := v % 256;
    (if m < 16 then "0" else "") + HexString(m)
  }

  /** Two hex digits read as one byte value. */
  function ParseHex2(s: string): Option<nat>
  {
    if |s| == 2 && IsUpperHex(s[0]) && IsUpperHex(s[1])
    then Some(16 * HexValue(s[0]) + HexValue(s[1]))
    else None
  }

  /**
   * `printHex2` always writes exactly two upper-case hex digits that read
   * back as the low byte of its argument, and the first digit is a '0'
   * exactly when that byte is below 16.
   */
  lemma PrintHex2Spec(v: nat)
    ensures |PrintHex2(v)| == 2
    ensures ParseHex2(PrintHex2(v)) == Some(v % 256)
    ensures (PrintHex2(v)[0] == '0') <==> v % 256 < 16
  {
    var m := v % 256;
    HexValueOfDigit(m % 16);
    HexValueOfDigit(m / 16);
    if m >= 16 {
      assert HexString(m / 16) == [HexDigit(m / 16)];
    }
  }

  /** The `%02X` conversion of one byte. */
  function Hex02(b: nat): (s: string)
    requires b < 256
    ensures |s| == 2
  {
    [HexDigit(b / 16), HexDigit(b % 16)]
  }

  /** `%02X` and `printHex2` render every byte the same way. */
  lemma Hex02IsPrintHex2(b: nat)
    requires b < 256
    ensures Hex02(b) == PrintHex2(b)
  {
    if b >= 16 {
      assert HexString(b / 16) == [HexDigit(b / 16)];
    } else {
      assert b / 16 == 0;
    }
  }

  lemma Hex02RoundTrip(b: nat)
    requires b < 256
    ensures ParseHex2(Hex02(b)) == Some(b)
  {
  }
}
