/** The win time: milliseconds since the start instant, split into whole
    seconds (`as_secs`) and the milliseconds past them (`subsec_millis`),
    and the message `You win!\nTime: {seconds}.{millis:03} seconds`. */
module WinClock {
  import opened MazeGrid

  datatype WinTime = WinTime(seconds: nat, millis: nat)

  /** `Instant::elapsed` between two readings of a millisecond clock; a
      start later than now gives zero, as `Instant` saturates. */
  function Elapsed(startMs: nat, nowMs: nat): (ms: nat)
    ensures startMs <= nowMs ==> startMs + ms == nowMs
    ensures nowMs < startMs ==> ms == 0
  {
    if nowMs >= startMs then nowMs - startMs else 0
  }

  /** `as_secs` and `subsec_millis` of a duration of `ms` milliseconds. */
  function Split(ms: nat): (t: WinTime)
    ensures t.millis < 1000 && t.seconds * 1000 + t.millis == ms
  {
    WinTime(ms / 1000, ms % 1000)
  }

  predicate IsDigit(c: char) {
    '0' <= c <= '9'
  }

  predicate AllDigits(s: string) {
    forall i :: 0 <= i < |s| ==> IsDigit(s[i])
  }

  function DigitChar(d: nat): (c: char)
    requires d < 10
    ensures IsDigit(c) && c as int - '0' as int == d
  {
    ('0' as int + d) as char
  }

  function DigitValue(c: char): (d: nat)
    requires IsDigit(c)
    ensures d < 10
  {
    c as int - '0' as int
  }

  /** A natural number in decimal, as `{}` prints it: no leading zeros. */
  function Decimal(n: nat): (s: string)
    ensures |s| >= 1 && AllDigits(s)
    ensures |s| > 1 ==> s[0] != '0'
    decreases n
  {
    if n < 10 then [DigitChar(n)] else Decimal(n / 10) + [DigitChar(n % 10)]
  }

  /** The value of a string of decimal digits. */
  function DigitsValue(s: string): nat
    requires AllDigits(s)
  {
    if |s| == 0 then 0
    else DigitsValue(s[..|s| - 1]) * 10 + DigitValue(s[|s| - 1])
  }

  /** `{:03}`: at least three digits, padded with leading zeros. */
  function Pad3(n: nat): (s: string)
    ensures AllDigits(s)
  {
    if n < 10 then "00" + Decimal(n)
    else if n < 100 then "0" + Decimal(n)
    else Decimal(n)
  }

  /** Reading back a decimal number gives the number. */
  lemma {:induction false} DecimalRoundTrip(n: nat)
    ensures DigitsValue(Decimal(n)) == n
    decreases n
  {
    if n >= 10 {
      DecimalRoundTrip(n / 10);
      var s := Decimal(n);
      assert s[..|s| - 1] == Decimal(n / 10);
    }
  }

  /** Numbers below 1000 take one, two or three digits. */
  lemma DecimalLength(n: nat)
    requires n < 1000
    ensures |Decimal(n)| == if n < 10 then 1 else if n < 100 then 2 else 3
  {
    if n >= 10 {
      DecimalLength(n / 10);
    }
  }

  /** A string of zeros is worth nothing. */
  lemma {:induction false} ZerosValue(z: string)
    requires forall i :: 0 <= i < |z| ==> z[i] == '0'
    ensures AllDigits(z) && DigitsValue(z) == 0
  {
    if |z| > 0 {
      ZerosValue(z[..|z| - 1]);
    }
  }

  /** Leading zeros do not change the value of a digit string. */
  lemma {:induction false} ZerosPrefix(z: string, s: string)
    requires forall i :: 0 <= i < |z| ==> z[i] == '0'
    requires AllDigits(s)
    ensures AllDigits(z + s) && DigitsValue(z + s) == DigitsValue(s)
  {
    ZerosValue(z);
    if |s| > 0 {
      ZerosPrefix(z, s[..|s| - 1]);
      assert (z + s)[..|z + s| - 1] == z + s[..|s| - 1];
    } else {
      assert z + s == z;
    }
  }

  /** The padded milliseconds are three digits that read back as the
      milliseconds. */
  lemma Pad3RoundTrip(n: nat)
    requires n < 1000
    ensures |Pad3(n)| == 3 && DigitsValue(Pad3(n)) == n
  {
    DecimalLength(n);
    DecimalRoundTrip(n);
    if n < 10 {
      ZerosPrefix("00", Decimal(n));
    } else if n < 100 {
      ZerosPrefix("0", Decimal(n));
    }
  }

  const Prefix: string := "You win!\nTime: "
  const Suffix: string := " seconds"

  /** The text of the win message. */
  function WinMessage(t: WinTime): string {
    Prefix + Decimal(t.seconds) + "." + Pad3(t.millis) + Suffix
  }

  /** Reading a win message back: the seconds before the point, the three
      digits after it. */
  function ReadWinMessage(msg: string): Option<WinTime> {
    if |msg| < |Prefix| + 5 + |Suffix| || msg[..|Prefix|] != Prefix || msg[|msg| - |Suffix|..] != Suffix then None
    else
      var mid := msg[|Prefix|..|msg| - |Suffix|];
      var secs, ms := mid[..|mid| - 4], mid[|mid| - 3..];
      if mid[|mid| - 4] == '.' && AllDigits(secs) && AllDigits(ms) then
        Some(WinTime(DigitsValue(secs), DigitsValue(ms)))
      else None
  }

  /** The message shows the time exactly: reading it back gives the time. */
  lemma WinMessageRoundTrip(t: WinTime)
    requires t.millis < 1000
    ensures ReadWinMessage(WinMessage(t)) == Some(t)
  {
    var secs, ms := Decimal(t.seconds), Pad3(t.millis);
    DecimalRoundTrip(t.seconds);
    Pad3RoundTrip(t.millis);
    var msg := WinMessage(t);
    assert msg == Prefix + (secs + "." + ms) + Suffix;
    assert msg[..|Prefix|] == Prefix;
    assert msg[|msg| - |Suffix|..] == Suffix;
    var mid := msg[|Prefix|..|msg| - |Suffix|];
    assert mid == secs + "." + ms;
    assert mid[..|mid| - 4] == secs;
    assert mid[|mid| - 3..] == ms;
  }

  /** Different times give different messages. */
  lemma WinMessageInjective(t: WinTime, u: WinTime)
    requires t.millis < 1000 && u.millis < 1000
    requires WinMessage(t) == WinMessage(u)
    ensures t == u
  {
    WinMessageRoundTrip(t);
    WinMessageRoundTrip(u);
  }
}
