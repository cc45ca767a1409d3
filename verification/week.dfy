/** The week shown by the calendar page (app.py, calendar): the Sunday to
    Saturday week that contains the requested day. Days are Python date
    ordinals (date.toordinal(): 0001-01-01 is day 1 and a Monday; 9999-12-31,
    date.max, is day 3652059). */
module Week {
  import opened Common

  const MinOrdinal: int := 1
  const MaxOrdinal: int := 3652059

  /** Python's date.weekday(): Monday is 0, Sunday is 6. */
  function Weekday(day: int): (w: int)
    ensures 0 <= w <= 6
  {
    (day + 6) % 7
  }

  /** Days back to the most recent Sunday (0 on a Sunday). */
  function DaysSinceSunday(day: int): (n: int)
    ensures 0 <= n <= 6
  {
    (Weekday(day) + 1) % 7
  }

  datatype WeekRange = WeekRange(start: int, end: int)

  /** start_of_week and end_of_week. Python's date arithmetic raises
      OverflowError when the result leaves 0001-01-01 .. 9999-12-31; the
      route does not catch it, so the request fails: the model gives None.
      The route's next step (app.py:97) passes three arguments to
      get_week_events, which takes two (event.py:46), so it fails after the
      week is computed as well; the model covers only the week itself. */
  function WeekBounds(day: int): (r: Option<WeekRange>)
    requires MinOrdinal <= day <= MaxOrdinal
    ensures r.Some? ==> Weekday(r.value.start) == 6 && r.value.end == r.value.start + 6
    ensures r.Some? ==> r.value.start <= day <= r.value.end
    ensures r.None? <==> day - DaysSinceSunday(day) < MinOrdinal || day - DaysSinceSunday(day) + 6 > MaxOrdinal
  {
    var start := day - DaysSinceSunday(day);
    if start < MinOrdinal then None
    else
      var end := start + 6;
      if end > MaxOrdinal then None else Some(WeekRange(start, end))
  }

  /** The start of the week is the only Sunday within the six days up to `day`. */
  lemma WeekStartIsTheSunday(day: int, sunday: int)
    requires Weekday(sunday) == 6 && sunday <= day <= sunday + 6
    ensures sunday == day - DaysSinceSunday(day)
  {
  }

  /** Only the partial first and last weeks of the date range fail. */
  lemma WeekBoundsFailOnlyAtTheEnds(day: int)
    requires MinOrdinal <= day <= MaxOrdinal
    ensures WeekBounds(day).None? <==> day <= 6 || day >= MaxOrdinal - 5
  {
  }
}
