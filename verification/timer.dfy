/**
 The focus timer's display: `formatTime` renders a number of seconds as
 zero-padded minutes and seconds, `MM:SS`. The timer counts down from 25
 minutes (1500 seconds) to 0.
 */
module Timer {
  import opened Text

  /** Length of one focus session in seconds. */
  const SessionSeconds := 25 * 60

  /** `String(n).padStart(2, '0')`. */
  function TwoDigits(n: nat): (r: string)
    ensures |r| >= 2 && AllDigits(r)
    ensures n < 100 ==> |r| == 2
  {
    DecimalLength(n);
    PadStart(DecimalString(n), 2, '0')
  }

  /** `formatTime(seconds)`: whole minutes, a colon, then the remaining seconds. */
  function FormatTime(seconds: nat): (r: string)
    ensures IsClock(r)
    ensures r[..|r| - 3] == TwoDigits(seconds / 60) && r[|r| - 2..] == TwoDigits(seconds % 60)
  {
    var minutes := TwoDigits(seconds / 60);
    var rest := TwoDigits(seconds % 60);
    ClockParts(minutes, rest);
    minutes + ":" + rest
  }

  /** Joining two digit fields of at least two digits with a colon gives clock text. */
  lemma ClockParts(minutes: string, rest: string)
    requires |minutes| >= 2 && AllDigits(minutes) && |rest| == 2 && AllDigits(rest)
    ensures var t := minutes + ":" + rest;
      IsClock(t) && t[..|t| - 3] == minutes && t[|t| - 2..] == rest
  {
    var t := minutes + ":" + rest;
    assert t[..|t| - 3] == minutes;
    assert t[|t| - 2..] == rest;
  }

  /** Text of the shape `M…M:SS`: at least two minute digits, a colon, two second digits. */
  predicate IsClock(t: string)
  {
    |t| >= 5 && t[|t| - 3] == ':' && AllDigits(t[..|t| - 3]) && AllDigits(t[|t| - 2..])
  }

  /** The number of seconds a clock text shows. */
  function ClockSeconds(t: string): nat
    requires IsClock(t)
  {
    DigitsValue(t[..|t| - 3]) * 60 + DigitsValue(t[|t| - 2..])
  }

  /** Reading back a zero-padded rendering gives the number. */
  lemma TwoDigitsValue(n: nat)
    ensures DigitsValue(TwoDigits(n)) == n
  {
    var s := DecimalString(n);
    DecimalRoundTrip(n);
    if |s| < 2 {
      LeadingZerosValue(2 - |s|, s);
    }
  }

  /**
   For every number of seconds the display is a clock text that reads back as
   that number, with the seconds field below 60.
   */
  lemma FormatTimeRoundTrip(seconds: nat)
    ensures IsClock(FormatTime(seconds))
    ensures ClockSeconds(FormatTime(seconds)) == seconds
    ensures DigitsValue(FormatTime(seconds)[|FormatTime(seconds)| - 2..]) < 60
  {
    var r := FormatTime(seconds);
    assert ClockSeconds(r) == seconds by {
      FormatTimeFields(seconds);
      assert (seconds / 60) * 60 + seconds % 60 == seconds;
    }
    assert DigitsValue(r[|r| - 2..]) < 60 by {
      FormatTimeFields(seconds);
    }
  }

  /** The minutes field reads back as the whole minutes, the seconds field as the remainder. */
  lemma FormatTimeFields(seconds: nat)
    ensures var r := FormatTime(seconds);
      DigitsValue(r[..|r| - 3]) == seconds / 60 && DigitsValue(r[|r| - 2..]) == seconds % 60
  {
    TwoDigitsValue(seconds / 60);
    TwoDigitsValue(seconds % 60);
  }

  /** Two different numbers of seconds never show the same text. */
  lemma FormatTimeInjective(a: nat, b: nat)
    requires FormatTime(a) == FormatTime(b)
    ensures a == b
  {
    FormatTimeRoundTrip(a);
    FormatTimeRoundTrip(b);
  }

  /**
   The display is exactly five characters `MM:SS` precisely when the minutes
   fit in two digits, that is below 6000 seconds.
   */
  lemma FormatTimeFiveChars(seconds: nat)
    ensures |FormatTime(seconds)| == 5 <==> seconds < 6000
    ensures seconds < 6000 ==>
      var r := FormatTime(seconds);
      && r[2] == ':' && AllDigits(r[..2]) && AllDigits(r[3..])
      && DigitsValue(r[..2]) * 60 + DigitsValue(r[3..]) == seconds
      && DigitsValue(r[3..]) < 60
  {
    var r := FormatTime(seconds);
    var minutes := seconds / 60;
    assert |r| == |TwoDigits(minutes)| + 3 by {
      assert |r[..|r| - 3]| == |r| - 3;
    }
    DecimalLength(minutes);
    assert minutes < 100 <==> seconds < 6000;
    if seconds < 6000 {
      FormatTimeRoundTrip(seconds);
      assert r[..|r| - 3] == r[..2];
      assert r[|r| - 2..] == r[3..];
    }
  }

  /** Every value the countdown shows, from 25:00 down to 00:00, is a five-character clock. */
  lemma CountdownDisplay(seconds: nat)
    requires seconds <= SessionSeconds
    ensures |FormatTime(seconds)| == 5 && ClockSeconds(FormatTime(seconds)) == seconds
  {
    FormatTimeFiveChars(seconds);
    FormatTimeRoundTrip(seconds);
  }

  /** A fresh session shows `25:00`. */
  lemma SessionStartDisplay()
    ensures FormatTime(SessionSeconds) == "25:00"
  {
    assert SessionSeconds / 60 == 25 && SessionSeconds % 60 == 0;
    assert DecimalString(25) == "25";
    assert TwoDigits(25) == "25";
    assert DecimalString(0) == "0";
    assert TwoDigits(0) == "00";
  }
}
