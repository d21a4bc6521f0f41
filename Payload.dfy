/**
 * The uplink payload both senders build with `sprintf` into their 64-byte
 * `mydata` buffer, in the configuration without a battery pin:
 * "Fcnt=" followed by the `%ld` rendering of the frame counter. The
 * counters are `unsigned long`, 32 bits wide on the ESP32, so increments
 * wrap modulo 2^32 and `%ld` shows the bits as a signed `long`.
 * The battery-pin configuration is modelled by its sample loop and by the
 * order of its fields.
 */
module Payload {
  import opened Wrappers
  import opened Text

  const TWO32: int := 0x1_0000_0000
  const TWO31: int := 0x8000_0000

  /** `unsigned long` on the ESP32. */
  type uint32 = x: int | 0 <= x < TWO32

  /** `uint8_t`. */
  type byte = x: int | 0 <= x < 256

  /** Size of the static `mydata` buffer. */
  const MyDataSize: nat := 64

  /** `NO_BAT_SAMPLES`: ADC reads averaged per battery measurement. */
  const NoBatSamples: nat := 64

  /** `x++` on an `unsigned long`. */
  function Inc32(x: uint32): (r: uint32)
    ensures r == (x + 1) % TWO32
  {
    if x == TWO32 - 1 then 0 else x + 1
  }

  /** The value `%ld` sees when handed the bits of an `unsigned long`. */
  function AsLong(x: uint32): (r: int)
    ensures -TWO31 <= r < TWO31
    ensures (r - x) % TWO32 == 0
  {
    if x < TWO31 then x else x - TWO32
  }

  /** `%ld` applied to an `unsigned long`. */
  function FormatLong(x: uint32): string
  {
    SignedDecimal(AsLong(x))
  }

  /** Below 2^31 `%ld` writes the plain decimal digits of the counter. */
  lemma FormatLongSmall(x: uint32)
    requires x < TWO31
    ensures FormatLong(x) == Decimal(x)
  {
  }

  /** `%ld` of a 32-bit value takes at most 11 characters ("-2147483648"). */
  lemma FormatLongLength(x: uint32)
    ensures 1 <= |FormatLong(x)| <= 11
  {
    var y := AsLong(x);
    assert Pow10(10) == 10_000_000_000;
    if y < 0 {
      DecimalLength(-y, 10);
    } else {
      DecimalLength(y, 10);
    }
  }

  /** The payload text: `sprintf(mydata, "Fcnt=%ld", counter)`. */
  function Fcnt(counter: uint32): string
  {
    "Fcnt=" + FormatLong(counter)
  }

  /** What a receiver decodes from a payload: the counter, or None if malformed. */
  function ParseFcnt(s: string): Option<uint32>
  {
    if |s| >= 5 && s[..5] == "Fcnt=" then
      match ParseSigned(s[5..])
      case Some(y) => if -TWO31 <= y < TWO31 then Some(y % TWO32) else None
      case None => None
    else None
  }

  /** The payload names the counter it was built from. */
  lemma {:induction false} FcntRoundTrip(counter: uint32)
    ensures ParseFcnt(Fcnt(counter)) == Some(counter)
  {
    var s := Fcnt(counter);
    assert s[..5] == "Fcnt=";
    assert s[5..] == SignedDecimal(AsLong(counter));
    SignedRoundTrip(AsLong(counter));
  }

  /** Two different counters never produce the same payload. */
  lemma FcntInjective(a: uint32, b: uint32)
    requires Fcnt(a) == Fcnt(b)
    ensures a == b
  {
    FcntRoundTrip(a);
    FcntRoundTrip(b);
  }

  /** The payload plus its terminating NUL fits in `mydata`. */
  lemma FcntFits(counter: uint32)
    ensures 6 <= |Fcnt(counter)| <= 16
    ensures |Fcnt(counter)| + 1 <= MyDataSize
  {
    FormatLongLength(counter);
  }

  // ------------------------------------------------------- bytes of a text

  predicate IsAscii(s: string) { forall i :: 0 <= i < |s| ==> 0 < s[i] as int < 128 }

  /** The bytes `sprintf` stores for an ASCII text (without the terminator). */
  function AsciiBytes(s: string): (r: seq<byte>)
    requires IsAscii(s)
    ensures |r| == |s| && 0 !in r
    ensures forall i :: 0 <= i < |s| ==> r[i] == s[i] as int
  {
    seq(|s|, i requires 0 <= i < |s| => s[i] as int)
  }

  /** Different ASCII texts give different bytes. */
  lemma AsciiBytesInjective(s: string, t: string)
    requires IsAscii(s) && IsAscii(t) && AsciiBytes(s) == AsciiBytes(t)
    ensures s == t
  {
  }

  /** The payload is plain ASCII without NUL characters. */
  lemma FcntIsAscii(counter: uint32)
    ensures IsAscii(Fcnt(counter))
  {
  }

  /** The payload bytes that are handed to the MAC. */
  function FcntBytes(counter: uint32): (r: seq<byte>)
    ensures 6 <= |r| && |r| + 1 <= MyDataSize && 0 !in r
  {
    FcntIsAscii(counter);
    FcntFits(counter);
    AsciiBytes(Fcnt(counter))
  }

  lemma FcntBytesInjective(a: uint32, b: uint32)
    requires FcntBytes(a) == FcntBytes(b)
    ensures a == b
  {
    FcntIsAscii(a);
    FcntIsAscii(b);
    AsciiBytesInjective(Fcnt(a), Fcnt(b));
    FcntInjective(a, b);
  }

  // ------------------------------------------------------------ C strings

  /** `strlen`: the index of the first NUL byte. */
  function Strlen(s: seq<byte>): (n: nat)
    requires 0 in s
    ensures n < |s| && s[n] == 0
    ensures forall i :: 0 <= i < n ==> s[i] != 0
  {
    if s[0] == 0 then 0 else 1 + Strlen(s[1..])
  }

  /** `strlen` of a buffer holding a text and its terminator is the text's length. */
  lemma {:induction false} StrlenOfText(text: seq<byte>, rest: seq<byte>)
    requires 0 !in text
    ensures 0 in text + [0] + rest
    ensures Strlen(text + [0] + rest) == |text|
  {
    var s := text + [0] + rest;
    assert s[|text|] == 0;
    if |text| > 0 {
      assert s[1..] == text[1..] + [0] + rest;
      StrlenOfText(text[1..], rest);
    }
  }

  /** `sprintf` into a buffer: the text, a NUL, and the old bytes after it. */
  method WriteCString(buf: array<byte>, text: seq<byte>)
    requires |text| < buf.Length
    modifies buf
    ensures buf[..] == text + [0] + old(buf[..])[|text| + 1..]
  {
    forall i | 0 <= i < |text| {
      buf[i] := text[i];
    }
    buf[|text|] := 0;
  }

  // ------------------------------------------------- battery-pin variant

  function Sum(s: seq<int>): int
  {
    if |s| == 0 then 0 else Sum(s[..|s| - 1]) + s[|s| - 1]
  }

  /**
   * The sample loop of the battery-pin configuration: exactly
   * `NO_BAT_SAMPLES` successive ADC reads are added up. `adc` holds the
   * values `analogRead` returns, in order; `used` is how many were read.
   */
  method SumBatterySamples(adc: seq<int>) returns (sum: int, used: nat)
    requires |adc| >= NoBatSamples
    ensures used == NoBatSamples
    ensures sum == Sum(adc[..used])
  {
    sum := 0;
    used := 0;
    while used < NoBatSamples
      invariant used <= NoBatSamples
      invariant sum == Sum(adc[..used])
    {
      assert adc[..used + 1][..used] == adc[..used];
      sum := sum + adc[used];
      used := used + 1;
    }
  }

  /**
   * With 12-bit readings the sum of 64 samples stays below 2^24, so the
   * `float` accumulator of the source adds them without rounding.
   */
  lemma {:induction false} SampleSumBound(s: seq<int>)
    requires forall i :: 0 <= i < |s| ==> 0 <= s[i] <= 4095
    ensures 0 <= Sum(s) <= 4095 * |s|
  {
    if |s| > 0 {
      SampleSumBound(s[..|s| - 1]);
    }
  }

  lemma SampleSumExact(s: seq<int>)
    requires |s| == NoBatSamples
    requires forall i :: 0 <= i < |s| ==> 0 <= s[i] <= 4095
    ensures 0 <= Sum(s) < 0x100_0000
  {
    SampleSumBound(s);
  }

  /** `%.02f` of a voltage given in hundredths of a volt. */
  function Centi(hundredths: nat): string
  {
    var frac := hundredths % 100;
    Decimal(hundredths / 100) + "." + [DigitChar(frac / 10), DigitChar(frac % 10)]
  }

  /**
   * The payload of the battery-pin configuration,
   * `sprintf(mydata, "Fcnt=%ld, bat=%.02fV", counter, bat)`, with the
   * voltage given as its rounding to hundredths.
   */
  function BatteryFcnt(counter: uint32, hundredths: nat): string
  {
    Fcnt(counter) + ", bat=" + Centi(hundredths) + "V"
  }

  /**
   * The fields come in a fixed order: the counter field first, then the
   * battery field, then the unit; and the battery field tells the voltage.
   */
  lemma BatteryFcntFields(counter: uint32, hundredths: nat)
    ensures var s := BatteryFcnt(counter, hundredths);
      var head := Fcnt(counter) + ", bat=";
      |head| < |s| && s[..|head|] == head && s[|s| - 1] == 'V' &&
      ParseFcnt(s[..|Fcnt(counter)|]) == Some(counter)
  {
    var s := BatteryFcnt(counter, hundredths);
    assert s[..|Fcnt(counter)|] == Fcnt(counter);
    FcntRoundTrip(counter);
  }

  /**
   * Up to 6.60 V, the most the 12-bit divider can report, the battery
   * payload and its terminator fit in `mydata`.
   */
  lemma BatteryFcntFits(counter: uint32, hundredths: nat)
    requires hundredths <= 660
    ensures |BatteryFcnt(counter, hundredths)| + 1 <= MyDataSize
  {
    FcntFits(counter);
    DecimalLength(hundredths / 100, 1);
  }
}
