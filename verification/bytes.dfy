/**
 Bytes as the C code handles them: `char`/`unsigned char` buffers, NUL-terminated
 strings, and the decimal conversions the firmware relies on (`atoi`/`strtol` over
 short digit runs, `%d`/`%0Nd` printing).
 */
module Bytes {

  newtype byte = b: int | 0 <= b < 256

  /** The contents of a NUL-terminated C string, without the terminator. */
  type CString = s: seq<byte> | forall i | 0 <= i < |s| :: s[i] != 0

  const LF: byte := 10
  const CR: byte := 13
  const SPACE: byte := 32
  const DASH: byte := 45
  const DOT: byte := 46
  const ZERO: byte := 48
  const NINE: byte := 57

  const CRLF: seq<byte> := [CR, LF]

  /** The bytes of an ASCII literal of the source. */
  function Ascii(s: string): (r: seq<byte>)
    ensures |r| == |s|
  {
    seq(|s|, i requires 0 <= i < |s| => ((s[i] as int) % 256) as byte)
  }

  predicate IsDigit(b: byte) {
    ZERO <= b <= NINE
  }

  predicate AllDigits(s: seq<byte>) {
    forall i | 0 <= i < |s| :: IsDigit(s[i])
  }

  function DigitValue(b: byte): (d: nat)
    requires IsDigit(b)
    ensures d < 10
  {
    (b - ZERO) as nat
  }

  function DigitByte(d: nat): (b: byte)
    requires d < 10
    ensures IsDigit(b) && DigitValue(b) == d
  {
    ZERO + d as byte
  }

  function Pow10(n: nat): (p: nat)
    ensures p >= 1
  {
    if n == 0 then 1 else 10 * Pow10(n - 1)
  }

  /** The value of a run of decimal digits, most significant digit first. */
  function DecimalValue(s: seq<byte>): (v: nat)
    requires AllDigits(s)
    ensures v < Pow10(|s|)
  {
    if |s| == 0 then 0 else 10 * DecimalValue(s[..|s| - 1]) + DigitValue(s[|s| - 1])
  }

  /** Length of the longest prefix of `s` made of digits. */
  function DigitPrefix(s: seq<byte>): (k: nat)
    ensures k <= |s|
    ensures AllDigits(s[..k])
    ensures k < |s| ==> !IsDigit(s[k])
  {
    if |s| == 0 || !IsDigit(s[0]) then 0
    else
      var k := 1 + DigitPrefix(s[1..]);
      assert s[..k] == [s[0]] + s[1..][..k - 1];
      k
  }

  /** What `atoi`/`strtol(.., 10)` return for a string that starts with a digit:
      the value of its leading digit run. */
  function LeadingDecimal(s: seq<byte>): (v: nat)
    ensures v < Pow10(|s|)
  {
    var k := DigitPrefix(s);
    PowMonotone(k, |s|);
    DecimalValue(s[..k])
  }

  lemma PowMonotone(a: nat, b: nat)
    requires a <= b
    ensures Pow10(a) <= Pow10(b)
    decreases b
  {
    if a < b {
      PowMonotone(a, b - 1);
    }
  }

  /** `%d` of a non-negative number: the shortest decimal numeral. */
  function DecimalString(n: nat): (s: seq<byte>)
    ensures 1 <= |s|
    ensures AllDigits(s)
    ensures DecimalValue(s) == n
    ensures |s| > 1 ==> s[0] != ZERO
    decreases n
  {
    if n < 10 then [DigitByte(n)]
    else
      var s := DecimalString(n / 10) + [DigitByte(n % 10)];
      assert s[..|s| - 1] == DecimalString(n / 10);
      s
  }

  function Zeros(n: nat): (z: seq<byte>)
    ensures |z| == n
    ensures forall i | 0 <= i < n :: z[i] == ZERO
  {
    if n == 0 then [] else [ZERO] + Zeros(n - 1)
  }

  /** `%0<width>d`: a minus sign for negative values, then the magnitude padded
      with zeros so that sign and digits together take at least `width` bytes. */
  function PadDecimal(n: int, width: nat): (s: seq<byte>)
    ensures |s| >= width
  {
    if n >= 0 then
      var d := DecimalString(n);
      (if |d| < width then Zeros(width - |d|) else []) + d
    else
      var d := DecimalString(-n);
      [DASH] + (if |d| + 1 < width then Zeros(width - 1 - |d|) else []) + d
  }

  /** Leading zeros do not change a numeral's value. */
  lemma {:induction false} DecimalValueZeros(z: nat, d: seq<byte>)
    requires AllDigits(d)
    ensures AllDigits(Zeros(z) + d)
    ensures DecimalValue(Zeros(z) + d) == DecimalValue(d)
    decreases |d|
  {
    var s := Zeros(z) + d;
    if |d| == 0 {
      assert s == Zeros(z);
      ZerosValue(z);
    } else {
      assert s[..|s| - 1] == Zeros(z) + d[..|d| - 1];
      DecimalValueZeros(z, d[..|d| - 1]);
    }
  }

  lemma {:induction false} ZerosValue(z: nat)
    ensures DecimalValue(Zeros(z)) == 0
    decreases z
  {
    if z > 0 {
      assert Zeros(z)[..z - 1] == Zeros(z - 1);
      ZerosValue(z - 1);
    }
  }

  /** A zero-padded non-negative field reads back as the number it prints. */
  lemma PadDecimalValue(n: nat, width: nat)
    ensures AllDigits(PadDecimal(n, width))
    ensures DecimalValue(PadDecimal(n, width)) == n
  {
    var d := DecimalString(n);
    var z: nat := if |d| < width then width - |d| else 0;
    assert PadDecimal(n, width) == Zeros(z) + d;
    DecimalValueZeros(z, d);
  }

  /** A number below 10^width prints as exactly `width` bytes under `%0<width>d`. */
  lemma PadDecimalLength(n: nat, width: nat)
    requires 1 <= width
    requires n < Pow10(width)
    ensures |PadDecimal(n, width)| == width
  {
    DecimalStringLength(n, width);
  }

  lemma {:induction false} DecimalStringLength(n: nat, width: nat)
    requires 1 <= width
    requires n < Pow10(width)
    ensures |DecimalString(n)| <= width
    decreases n
  {
    if n >= 10 {
      DecimalStringLength(n / 10, width - 1);
    }
  }
}
