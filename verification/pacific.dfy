/** US Pacific time without a time-zone database: daylight saving time runs
    from the second Sunday of March at 10:00 UTC to the first Sunday of
    November at 09:00 UTC, with offsets UTC-7 inside and UTC-8 outside.
    The offset is chosen from the current UTC clock, passed in as `now`.
    Instants are whole seconds counted from 0001-01-01 00:00:00. */
module Pacific {
  import opened Wrappers
  import opened Calendar
  import opened Streak

  /** A UTC date and time of day. */
  datatype DateTime = DateTime(date: Date, time: Time)

  predicate ValidDateTime(t: DateTime)
  {
    ValidDate(t.date) && ValidTime(t.time)
  }

  /** Seconds since 0001-01-01 00:00:00, the order of instants. */
  function Seconds(t: DateTime): int
    requires ValidDateTime(t)
  {
    (Ordinal(t.date) - 1) * 86400 + SecondOfDay(t.time)
  }

  /** `(6 - first.weekday()) % 7`: days from the first of the month to its
      first Sunday. */
  function DaysToSunday(year: int, month: int): (k: int)
    requires 1 <= year <= 9999 && 1 <= month <= 12
    ensures 0 <= k < 7
  {
    (6 - Weekday(Date(year, month, 1))) % 7
  }

  /** The first Sunday of a month falls on day 1 to 7, and is a Sunday. */
  lemma FirstSundayIsSunday(year: int, month: int)
    requires 1 <= year <= 9999 && 1 <= month <= 12
    ensures var d := Date(year, month, 1 + DaysToSunday(year, month));
      ValidDate(d) && 1 <= d.day <= 7 && Weekday(d) == 6 && DayNameOf(d) == Sun
  {
    var first := Date(year, month, 1);
    var k := DaysToSunday(year, month);
    WeekdayWithinMonth(first, k);
  }

  /** DST start: the first Sunday of March plus 7 days, at 10:00 UTC. */
  function DstStart(year: int): (t: DateTime)
    requires 1 <= year <= 9999
    ensures ValidDateTime(t)
    ensures t.date.year == year
    ensures t.date.month == 3 && 8 <= t.date.day <= 14 && t.time == Time(10, 0, 0)
  {
    DateTime(Date(year, 3, 1 + DaysToSunday(year, 3) + 7), Time(10, 0, 0))
  }

  /** DST end: the first Sunday of November, at 09:00 UTC. */
  function DstEnd(year: int): (t: DateTime)
    requires 1 <= year <= 9999
    ensures ValidDateTime(t)
    ensures t.date.year == year
    ensures t.date.month == 11 && 1 <= t.date.day <= 7 && t.time == Time(9, 0, 0)
  {
    DateTime(Date(year, 11, 1 + DaysToSunday(year, 11)), Time(9, 0, 0))
  }

  /** DST starts on the second Sunday of March. */
  lemma DstStartIsSecondSunday(year: int)
    requires 1 <= year <= 9999
    ensures Weekday(DstStart(year).date) == 6
  {
    var sunday := Date(year, 3, 1 + DaysToSunday(year, 3));
    FirstSundayIsSunday(year, 3);
    WeekdayWithinMonth(sunday, 7);
    assert DstStart(year).date == Date(year, 3, sunday.day + 7);
    assert Weekday(DstStart(year).date) == (6 + 7) % 7;
  }

  /** DST ends on the first Sunday of November. */
  lemma DstEndIsFirstSunday(year: int)
    requires 1 <= year <= 9999
    ensures Weekday(DstEnd(year).date) == 6
  {
    FirstSundayIsSunday(year, 11);
  }

  /** In every year DST starts before it ends. */
  lemma DstStartBeforeEnd(year: int)
    requires 1 <= year <= 9999
    ensures Seconds(DstStart(year)) < Seconds(DstEnd(year))
  {
    assert DaysBeforeMonth(year, 3) <= 60;
    assert DaysBeforeMonth(year, 11) >= 304;
  }

  /** The clock `now` lies in the daylight-saving period of its year. */
  predicate InDst(now: DateTime)
    requires ValidDateTime(now)
  {
    Seconds(DstStart(now.date.year)) <= Seconds(now) < Seconds(DstEnd(now.date.year))
  }

  /** `get_pst_timezone`: the offset in hours for the UTC clock `now`. */
  function OffsetHours(now: DateTime): (h: int)
    requires ValidDateTime(now)
    ensures h == -7 <==> InDst(now)
    ensures h == -7 || h == -8
  {
    var start := DstStart(now.date.year);
    var end := DstEnd(now.date.year);
    if Seconds(start) <= Seconds(now) && Seconds(now) < Seconds(end) then -7 else -8
  }

  /** `utc_to_pst` on a naive (UTC) value: the Pacific wall clock, in
      seconds, with the offset that holds at `now`. */
  function UtcToPacific(utc: int, now: DateTime): (wall: int)
    requires ValidDateTime(now)
    ensures InDst(now) ==> wall == utc - 7 * 3600
    ensures !InDst(now) ==> wall == utc - 8 * 3600
  {
    utc + OffsetHours(now) * 3600
  }

  /** `pst_to_utc` on a naive (Pacific) value: back to UTC with the offset
      that holds at `now`. */
  function PacificToUtc(wall: int, now: DateTime): (utc: int)
    requires ValidDateTime(now)
    ensures InDst(now) ==> utc == wall + 7 * 3600
    ensures !InDst(now) ==> utc == wall + 8 * 3600
  {
    wall - OffsetHours(now) * 3600
  }

  /** Under one clock every value is shifted by the same amount: the
      conversion never looks at the value it converts. */
  lemma OneClockOneShift(x: int, y: int, now: DateTime)
    requires ValidDateTime(now)
    ensures UtcToPacific(x, now) - x == UtcToPacific(y, now) - y
    ensures PacificToUtc(x, now) - x == PacificToUtc(y, now) - y
  {
  }

  /** Converting there and back with one clock is the identity, both ways. */
  lemma ConversionsRoundTrip(x: int, now: DateTime)
    requires ValidDateTime(now)
    ensures PacificToUtc(UtcToPacific(x, now), now) == x
    ensures UtcToPacific(PacificToUtc(x, now), now) == x
  {
  }

  /** The offset comes from the clock, not from the value converted: a
      summer instant converted while the clock is in winter gets UTC-8. */
  lemma ClockChoosesOffset(year: int)
    requires 1 <= year <= 9999
    ensures var winter := DateTime(Date(year, 1, 15), Time(12, 0, 0));
      var summer := DateTime(Date(year, 7, 15), Time(12, 0, 0));
      && OffsetHours(summer) == -7
      && UtcToPacific(Seconds(summer), winter) == Seconds(summer) - 8 * 3600
  {
    var winter := DateTime(Date(year, 1, 15), Time(12, 0, 0));
    var summer := DateTime(Date(year, 7, 15), Time(12, 0, 0));
    assert DaysBeforeMonth(year, 3) <= 60;
    assert DaysBeforeMonth(year, 7) >= 181;
    assert DaysBeforeMonth(year, 11) >= 304;
    assert Seconds(winter) < Seconds(DstStart(year));
  }

  /** `is_before_noon_pst`: the text parses as `HH:MM:SS` with an hour
      before 12; text that does not parse gives false. */
  function IsBeforeNoonPst(s: string): (r: bool)
    ensures r <==> ParseTime(s).Some? && ParseTime(s).value.hour < 12
  {
    match ParseTime(s)
    case None => false
    case Some(t) => t.hour < 12
  }

  /** On a formatted time the check is exactly "hour < 12", and it agrees
      with the before-noon rule of the task pages. */
  lemma BeforeNoonOfFormatted(t: Time)
    requires ValidTime(t)
    ensures IsBeforeNoonPst(FormatTime(t)) <==> t.hour < 12
    ensures IsBeforeNoonPst(FormatTime(t)) == MorningTime(FormatTime(t))
  {
    ParseFormattedTime(t);
  }
}
