/**
 * Times of day as the system stores them: "HH:MM" strings (24-hour clock).
 * The format is the one the settings endpoint checks with /^\d{2}:\d{2}$/;
 * splitting such a string at ':' and reading both halves as numbers gives
 * HourOf and MinuteOf.
 */
module Clock {
  predicate IsDigit(c: char) { '0' <= c <= '9' }

  function DigitValue(c: char): (d: nat)
    requires IsDigit(c)
    ensures d <= 9
  {
    c as int - '0' as int
  }

  function DigitChar(d: nat): (c: char)
    requires d <= 9
    ensures IsDigit(c) && DigitValue(c) == d
  {
    ('0' as int + d) as char
  }

  /** Two digits, a colon, two digits: the pattern /^\d{2}:\d{2}$/. */
  predicate IsHHMM(s: string)
  {
    |s| == 5 && IsDigit(s[0]) && IsDigit(s[1]) && s[2] == ':' && IsDigit(s[3]) && IsDigit(s[4])
  }

  function HourOf(s: string): (h: nat)
    requires IsHHMM(s)
    ensures h <= 99
  {
    10 * DigitValue(s[0]) + DigitValue(s[1])
  }

  function MinuteOf(s: string): (m: nat)
    requires IsHHMM(s)
    ensures m <= 99
  {
    10 * DigitValue(s[3]) + DigitValue(s[4])
  }

  /** Minutes since midnight, h * 60 + m; the pattern admits "99:99", which still gets a count. */
  function MinutesOf(s: string): nat
    requires IsHHMM(s)
  {
    HourOf(s) * 60 + MinuteOf(s)
  }

  /** A valid clock reading: hour below 24 and minute below 60. */
  predicate IsClockTime(s: string)
  {
    IsHHMM(s) && HourOf(s) < 24 && MinuteOf(s) < 60
  }

  /** The zero-padded "HH:MM" text of an hour and a minute (what `toTimeString().slice(0, 5)` yields). */
  function Hhmm(h: nat, m: nat): (s: string)
    requires h <= 99 && m <= 99
    ensures IsHHMM(s) && HourOf(s) == h && MinuteOf(s) == m
  {
    [DigitChar(h / 10), DigitChar(h % 10), ':', DigitChar(m / 10), DigitChar(m % 10)]
  }

  /** Reading a well-formed time and printing it back gives the same text. */
  lemma HhmmOfParts(s: string)
    requires IsHHMM(s)
    ensures Hhmm(HourOf(s), MinuteOf(s)) == s
  {
    var t := Hhmm(HourOf(s), MinuteOf(s));
    forall i | 0 <= i < 5
      ensures t[i] == s[i]
    {
      if i != 2 {
        assert DigitChar(DigitValue(s[i])) == s[i];
      }
    }
  }

  /** On valid clock readings the minute count determines the text. */
  lemma {:induction false} MinutesDetermineText(a: string, b: string)
    requires IsClockTime(a) && IsClockTime(b)
    requires MinutesOf(a) == MinutesOf(b)
    ensures a == b
  {
    assert HourOf(a) == HourOf(b);
    HhmmOfParts(a);
    HhmmOfParts(b);
  }
}
