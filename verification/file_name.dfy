/**
 The attachment's name when the remote file name is taken from the clock:
 `app_main` in main/main.c prints the local broken-down time as
 `%04d%02d%02d-%02d%02d%02d.jpg` into `remoteFileName`, a 64-byte array of the
 `SMTP_t` job record in main/cmd.h.
 */
module FileName {
  import opened Wrappers
  import opened Bytes
  import MailSession

  /** `.jpg` */
  const JPG: seq<byte> := [DOT, 106, 112, 103]

  /** The fields of `struct tm` that the name uses: years since 1900, months
      from 0, day of the month, hour, minute, second. */
  datatype Tm = Tm(year: int, mon: int, mday: int, hour: int, min: int, sec: int)

  /** The ranges `localtime_r` produces (a second of 60 is a leap second),
      with a year of at most four digits. */
  predicate Normal(t: Tm) {
    && 0 <= t.year + 1900 <= 9999
    && 0 <= t.mon <= 11
    && 1 <= t.mday <= 31
    && 0 <= t.hour <= 23
    && 0 <= t.min <= 59
    && 0 <= t.sec <= 60
  }

  /** The bytes the `sprintf` writes, without its terminating NUL. */
  function RemoteFileName(t: Tm): seq<byte> {
    var date := PadDecimal(t.year + 1900, 4) + PadDecimal(t.mon + 1, 2) + PadDecimal(t.mday, 2);
    var time := PadDecimal(t.hour, 2) + PadDecimal(t.min, 2) + PadDecimal(t.sec, 2);
    date + [DASH] + time + JPG
  }

  /** The number a run of digits of a name spells. */
  function Number(name: seq<byte>, i: nat, j: nat): Option<nat>
    requires i <= j <= |name|
  {
    if AllDigits(name[i..j]) then Some(DecimalValue(name[i..j])) else None
  }

  /** One `%0<width>d` field of a value that fits it: `width` digits that read
      back as the value. */
  lemma Field(n: int, width: nat)
    requires 1 <= width && 0 <= n < Pow10(width)
    ensures |PadDecimal(n, width)| == width
    ensures AllDigits(PadDecimal(n, width)) && DecimalValue(PadDecimal(n, width)) == n
  {
    PadDecimalLength(n, width);
    PadDecimalValue(n, width);
  }

  /** The three parts of a concatenation, by position. */
  lemma Parts<T>(a: seq<T>, b: seq<T>, c: seq<T>)
    ensures (a + b + c)[..|a|] == a
    ensures (a + b + c)[|a|..|a| + |b|] == b
    ensures (a + b + c)[|a| + |b|..] == c
  {
  }

  /** A slice of a slice. */
  lemma Within<T>(s: seq<T>, i: nat, j: nat, k: nat, l: nat)
    requires i <= j <= |s| && k <= l <= j - i
    ensures s[i..j][k..l] == s[i + k..i + l]
  {
    forall m | 0 <= m < l - k
      ensures s[i..j][k..l][m] == s[i + k..i + l][m]
    {
      assert s[i..j][k..l][m] == s[i..j][k + m];
    }
  }

  /** Where the fields of a name lie. */
  lemma NameSlices(date: seq<byte>, time: seq<byte>)
    requires |date| == 8 && |time| == 6
    ensures var name := date + [DASH] + time + JPG;
      && |name| == 19 && name[..8] == date && name[8] == DASH
      && name[9..15] == time && name[15..] == JPG
  {
    Parts(date + [DASH], time, JPG);
    assert (date + [DASH])[..8] == date;
  }

  /** Where the six fields of a name lie. */
  lemma LayoutSlices(y: seq<byte>, mo: seq<byte>, d: seq<byte>, h: seq<byte>, mi: seq<byte>, s: seq<byte>)
    requires |y| == 4 && |mo| == 2 && |d| == 2 && |h| == 2 && |mi| == 2 && |s| == 2
    ensures var name := (y + mo + d) + [DASH] + (h + mi + s) + JPG;
      && |name| == 19 && name[8] == DASH && name[15..] == JPG
      && name[..4] == y && name[4..6] == mo && name[6..8] == d
      && name[9..11] == h && name[11..13] == mi && name[13..15] == s
  {
    var date, time := y + mo + d, h + mi + s;
    var name := date + [DASH] + time + JPG;
    NameSlices(date, time);
    Parts(y, mo, d);
    Parts(h, mi, s);
    Within(name, 0, 8, 0, 4);
    Within(name, 0, 8, 4, 6);
    Within(name, 0, 8, 6, 8);
    Within(name, 9, 15, 0, 2);
    Within(name, 9, 15, 2, 4);
    Within(name, 9, 15, 4, 6);
  }

  /** For a time in the normal ranges the name is 19 bytes,
      `YYYYMMDD-hhmmss.jpg`, so it and its NUL fit in `remoteFileName`, and it
      reads back as the time it was printed from. */
  lemma NameRoundTrip(t: Tm)
    requires Normal(t)
    ensures var name := RemoteFileName(t);
      && |name| == 19 && |name| + 1 <= MailSession.NAME_CAPACITY
      && name[8] == DASH && name[15..] == JPG
      && Number(name, 0, 4) == Some(t.year + 1900)
      && Number(name, 4, 6) == Some(t.mon + 1)
      && Number(name, 6, 8) == Some(t.mday)
      && Number(name, 9, 11) == Some(t.hour)
      && Number(name, 11, 13) == Some(t.min)
      && Number(name, 13, 15) == Some(t.sec)
  {
    assert Pow10(2) == 100 && Pow10(4) == 10000;
    var y, mo, d := PadDecimal(t.year + 1900, 4), PadDecimal(t.mon + 1, 2), PadDecimal(t.mday, 2);
    var h, mi, s := PadDecimal(t.hour, 2), PadDecimal(t.min, 2), PadDecimal(t.sec, 2);
    Field(t.year + 1900, 4);
    Field(t.mon + 1, 2);
    Field(t.mday, 2);
    Field(t.hour, 2);
    Field(t.min, 2);
    Field(t.sec, 2);
    LayoutSlices(y, mo, d, h, mi, s);
  }

  /** The name holds no NUL before its end and fits `remoteFileName`, so it is
      what the mail task is handed and prints. */
  lemma NameIsRemoteName(t: Tm)
    requires Normal(t)
    ensures var name := RemoteFileName(t);
      && |name| < MailSession.NAME_CAPACITY
      && forall i | 0 <= i < |name| :: name[i] != 0
  {
    assert Pow10(2) == 100 && Pow10(4) == 10000;
    var y, mo, d := PadDecimal(t.year + 1900, 4), PadDecimal(t.mon + 1, 2), PadDecimal(t.mday, 2);
    var h, mi, s := PadDecimal(t.hour, 2), PadDecimal(t.min, 2), PadDecimal(t.sec, 2);
    Field(t.year + 1900, 4);
    Field(t.mon + 1, 2);
    Field(t.mday, 2);
    Field(t.hour, 2);
    Field(t.min, 2);
    Field(t.sec, 2);
    DigitsJoin(y, mo, d);
    DigitsJoin(h, mi, s);
    NoNul(y + mo + d, h + mi + s);
    assert RemoteFileName(t) == (y + mo + d) + [DASH] + (h + mi + s) + JPG;
  }

  lemma DigitsJoin(a: seq<byte>, b: seq<byte>, c: seq<byte>)
    requires AllDigits(a) && AllDigits(b) && AllDigits(c)
    ensures AllDigits(a + b + c)
  {
  }

  /** Digits, a dash and `.jpg` are none of them NUL. */
  lemma NoNul(date: seq<byte>, time: seq<byte>)
    requires AllDigits(date) && AllDigits(time)
    ensures var name := date + [DASH] + time + JPG;
      forall i | 0 <= i < |name| :: name[i] != 0
  {
  }

  /** Names printed from two different normal times differ, so one capture
      does not take another's name unless the clock reads the same second. */
  lemma NamesDistinct(t: Tm, u: Tm)
    requires Normal(t) && Normal(u) && t != u
    ensures RemoteFileName(t) != RemoteFileName(u)
  {
    NameRoundTrip(t);
    NameRoundTrip(u);
  }
}
