/** The 12-hour clock text shown for an event's start and end time
    (event.py, format_time). A MySQL TIME column arrives as a duration; the
    model takes its whole number of seconds, or None for NULL. */
module EventTime {
  import opened Common

  /** Python's `//` and `%` floor; Dafny's are Euclidean. For the positive
      divisors used here (3600, 60, 12) the two agree on every integer,
      negative durations included. */
  function Hours(total: int): int {
    total / 3600
  }

  function Minutes(total: int): int {
    (total % 3600) / 60
  }

  /** 'AM' exactly when the hour count is below 12; 'PM' for every larger
      count, including durations of a day or more. */
  function Period(total: int): string {
    if Hours(total) < 12 then "AM" else "PM"
  }

  /** The hour on a 12-hour dial: the hour count modulo 12, with 0 shown as 12. */
  function DisplayHours(total: int): int {
    if Hours(total) % 12 == 0 then 12 else Hours(total) % 12
  }

  /** Python's `{n:02d}` for 0 <= n < 100. */
  function Pad2(n: nat): (s: string)
    requires n < 100
    ensures |s| == 2 && IsDigits(s) && DigitsValue(s) == n
  {
    [DigitChar(n / 10), DigitChar(n % 10)]
  }

  /** format_time: 'TBD' for NULL, otherwise 'HH:MM AM' / 'HH:MM PM'. */
  function FormatTime(t: Option<int>): (r: string)
    ensures t.None? ==> r == "TBD"
    ensures t.Some? ==> |r| == 8 && r[2] == ':' && r[5] == ' ' && r[7] == 'M'
  {
    match t
    case None => "TBD"
    case Some(total) =>
      ClockRanges(total);
      Pad2(DisplayHours(total)) + ":" + Pad2(Minutes(total)) + " " + Period(total)
  }

  /** The hour and minute fields always fit their two-digit slots. */
  lemma ClockRanges(total: int)
    ensures 1 <= DisplayHours(total) <= 12
    ensures 0 <= Minutes(total) <= 59
  {
  }

  /** What a reader of the clock text sees. */
  datatype Clock = Clock(hour: nat, minute: nat, pm: bool)

  /** Reads a 'HH:MM AM' / 'HH:MM PM' text back; None for any other text. */
  function ParseClock(r: string): Option<Clock> {
    if |r| == 8 && IsDigits(r[0..2]) && r[2] == ':' && IsDigits(r[3..5]) && r[5] == ' '
       && (r[6..] == "AM" || r[6..] == "PM")
    then Some(Clock(DigitsValue(r[0..2]), DigitsValue(r[3..5]), r[6..] == "PM"))
    else None
  }

  /** The text of any duration reads back as its 12-hour hour, its minute and
      its period: format_time loses nothing but the hour's multiple of 12. */
  lemma FormatTimeReadsBack(total: int)
    ensures ParseClock(FormatTime(Some(total)))
            == Some(Clock(DisplayHours(total), Minutes(total), Hours(total) >= 12))
  {
    ClockRanges(total);
    var r := FormatTime(Some(total));
    var h := Pad2(DisplayHours(total));
    var m := Pad2(Minutes(total));
    assert r == h + ":" + m + " " + Period(total);
    assert r[0..2] == h;
    assert r[3..5] == m;
    assert r[6..] == Period(total);
  }

  /** Converts a 12-hour reading back to the hour of the day. */
  function To24(c: Clock): int {
    (c.hour % 12) + (if c.pm then 12 else 0)
  }

  /** For a time of day (0 <= total < 24h) the text determines the hour and
      minute exactly: reading it back and converting to 24 hours recovers them. */
  lemma FormatTimeWithinDay(total: int)
    requires 0 <= total < 86400
    ensures var c := ParseClock(FormatTime(Some(total)));
            c.Some? && To24(c.value) == total / 3600 && c.value.minute == (total % 3600) / 60
  {
    FormatTimeReadsBack(total);
  }
}
