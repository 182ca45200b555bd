/**
 Calendar weeks of the duty board. A date is a day number: day 0 is Sunday
 4 January 1970 and consecutive days have consecutive numbers, so the day of
 the week is the day number modulo 7, with 0 for Sunday as `Date.getDay`
 reports it. A week is named by its Sunday; weeks are counted from the fixed
 base week that starts on Sunday 7 January 2024.
 */
module Week {

  const DaysPerWeek := 7

  /** Sunday 7 January 2024, the first day of week 0. */
  const BaseWeekStart := 19726

  const MsPerDay := 24 * 60 * 60 * 1000

  const MsPerWeek := DaysPerWeek * MsPerDay

  /** The names the calendar gives the days, indexed by `getDay`. */
  const DayNames: seq<string> := ["Sunday", "Monday", "Tuesday", "Wednesday", "Thursday", "Friday", "Saturday"]

  /** `date.getDay()`: 0 for Sunday up to 6 for Saturday. */
  function DayOfWeek(day: int): (d: int)
    ensures 0 <= d < DaysPerWeek
  {
    day % DaysPerWeek
  }

  predicate IsSunday(day: int)
  {
    DayOfWeek(day) == 0
  }

  /** The name shown on a day's card. */
  function DayName(day: int): (name: string)
    ensures name in DayNames
    ensures name == "Sunday" <==> IsSunday(day)
  {
    DayNames[DayOfWeek(day)]
  }

  /** `getWeekStart`: the Sunday on or before the given day. */
  function WeekStart(day: int): (start: int)
    ensures IsSunday(start)
    ensures start <= day < start + DaysPerWeek
  {
    day - DayOfWeek(day)
  }

  /** A day belongs to exactly one week: any Sunday at most six days before it
      is its week start. */
  lemma WeekStartUnique(day: int, sunday: int)
    requires IsSunday(sunday) && sunday <= day < sunday + DaysPerWeek
    ensures WeekStart(day) == sunday
  {
    var s := WeekStart(day);
    assert (s - sunday) % DaysPerWeek == 0;
  }

  /** A week start is its own week start. */
  lemma WeekStartIdempotent(day: int)
    ensures WeekStart(WeekStart(day)) == WeekStart(day)
  {
    WeekStartUnique(WeekStart(day), WeekStart(day));
  }

  /** `Math.floor(a / b)` for a positive divisor. */
  function FloorDiv(a: int, b: int): (q: int)
    requires b > 0
    ensures b * q <= a < b * q + b
  {
    a / b
  }

  /** `getWeekOffset`: the millisecond distance from the base week, divided by
      the length of a week in milliseconds and rounded down, where every day
      is 24 hours long. This is what the code computes when no clock change
      lies between the two dates, and what it is meant to compute always
      (WeekOffsetAsWritten models the clock change). It counts whole weeks:
      the number of weeks from the base week start rounded down, negative
      before the base week. */
  function WeekOffset(weekStart: int): (k: int)
    ensures DaysPerWeek * k <= weekStart - BaseWeekStart < DaysPerWeek * k + DaysPerWeek
  {
    DaysInWholeWeeks(weekStart - BaseWeekStart);
    FloorDiv((weekStart - BaseWeekStart) * MsPerDay, MsPerWeek)
  }

  /** d days, measured in milliseconds and divided by a week of milliseconds
      rounding down, are d days divided by seven rounding down. */
  lemma DaysInWholeWeeks(d: int)
    ensures var k := FloorDiv(d * MsPerDay, MsPerWeek);
      DaysPerWeek * k <= d < DaysPerWeek * k + DaysPerWeek
  {
    var k := FloorDiv(d * MsPerDay, MsPerWeek);
    assert MsPerWeek * k == (DaysPerWeek * k) * MsPerDay;
    assert (DaysPerWeek * k) * MsPerDay <= d * MsPerDay < (DaysPerWeek * k + DaysPerWeek) * MsPerDay;
    if d < DaysPerWeek * k {
      MulStrictlyMonotonic(d, DaysPerWeek * k, MsPerDay);
    }
    if DaysPerWeek * k + DaysPerWeek <= d {
      MulMonotonic(DaysPerWeek * k + DaysPerWeek, d, MsPerDay);
    }
  }

  lemma MulStrictlyMonotonic(a: int, b: int, m: int)
    requires a < b && m > 0
    ensures a * m < b * m
  {
    assert b * m - a * m == (b - a) * m;
  }

  lemma MulMonotonic(a: int, b: int, m: int)
    requires a <= b && m > 0
    ensures a * m <= b * m
  {
    assert b * m - a * m == (b - a) * m;
  }

  /** Any whole number of weeks that brackets a day that way is its offset. */
  lemma WeekOffsetUnique(day: int, k: int)
    requires DaysPerWeek * k <= day - BaseWeekStart < DaysPerWeek * k + DaysPerWeek
    ensures WeekOffset(day) == k
  {
  }

  /** On a Sunday the offset is exact: that Sunday is the base week start plus
      that many weeks; and the sign of the offset tells whether the week is
      before the base week. */
  lemma WeekOffsetOfSunday(sunday: int)
    requires IsSunday(sunday)
    ensures DaysPerWeek * WeekOffset(sunday) == sunday - BaseWeekStart
    ensures WeekOffset(sunday) < 0 <==> sunday < BaseWeekStart
  {
    var k := WeekOffset(sunday);
    assert (sunday - BaseWeekStart - DaysPerWeek * k) % DaysPerWeek == 0;
  }

  /** Moving a day by n whole weeks moves its offset by exactly n. */
  lemma WeekOffsetShift(day: int, n: int)
    ensures WeekOffset(day + DaysPerWeek * n) == WeekOffset(day) + n
  {
    WeekOffsetUnique(day + DaysPerWeek * n, WeekOffset(day) + n);
  }

  const MsPerHour := 60 * 60 * 1000

  /** `getWeekOffset` as the browser computes it when the local midnight that
      starts the week is zoneOffset milliseconds ahead of UTC and the base
      week's local midnight is baseZoneOffset ahead: the difference of the two
      `getTime()` values is the whole days between them less the change of
      offset, and it is rounded down to whole weeks. */
  function WeekOffsetAsWritten(weekStart: int, zoneOffset: int, baseZoneOffset: int): (k: int)
    ensures var diffMs := (weekStart - BaseWeekStart) * MsPerDay - (zoneOffset - baseZoneOffset);
      MsPerWeek * k <= diffMs < MsPerWeek * k + MsPerWeek
  {
    FloorDiv((weekStart - BaseWeekStart) * MsPerDay - (zoneOffset - baseZoneOffset), MsPerWeek)
  }

  /** Where the clock is not changed between the base week and weekStart, the
      code's offset is the whole number of calendar weeks. */
  lemma AsWrittenWithoutClockChange(weekStart: int, zoneOffset: int)
    ensures WeekOffsetAsWritten(weekStart, zoneOffset, zoneOffset) == WeekOffset(weekStart)
  {
  }

  /** For a week starting on a Sunday: if the clocks have been put back since
      the base week (by less than a day), or not changed, the code counts the
      calendar weeks; if they have been put forward, it counts one week
      fewer. So the rotation lags a week all through summer time: a group is
      on duty twice when the clocks go forward and one is skipped when they
      go back. */
  lemma AsWrittenOnSunday(sunday: int, zoneOffset: int, baseZoneOffset: int)
    requires IsSunday(sunday)
    requires -MsPerDay < zoneOffset - baseZoneOffset < MsPerDay
    ensures zoneOffset <= baseZoneOffset ==>
      WeekOffsetAsWritten(sunday, zoneOffset, baseZoneOffset) == WeekOffset(sunday)
    ensures zoneOffset > baseZoneOffset ==>
      WeekOffsetAsWritten(sunday, zoneOffset, baseZoneOffset) == WeekOffset(sunday) - 1
  {
    WeekOffsetOfSunday(sunday);
    var w := WeekOffset(sunday);
    assert (sunday - BaseWeekStart) * MsPerDay == MsPerWeek * w;
  }

  /** In a zone five hours behind UTC in winter and four in summer, clocks go
      forward on Sunday 10 March 2024, week 9. The week of 17 March starts one
      hour less than ten weeks after the base week, so the code counts it as
      week 9 again and the same group is on duty two weeks running; counted in
      calendar days it is week 10. */
  lemma DaylightSavingRepeatsWeek()
    ensures WeekOffsetAsWritten(BaseWeekStart + 63, -5 * MsPerHour, -5 * MsPerHour) == 9
    ensures WeekOffsetAsWritten(BaseWeekStart + 70, -4 * MsPerHour, -5 * MsPerHour) == 9
    ensures WeekOffset(BaseWeekStart + 63) == 9 && WeekOffset(BaseWeekStart + 70) == 10
  {
    WeekOffsetUnique(BaseWeekStart + 63, 9);
    WeekOffsetUnique(BaseWeekStart + 70, 10);
    AsWrittenOnSunday(BaseWeekStart + 70, -4 * MsPerHour, -5 * MsPerHour);
  }

  /** The week of the base date has offset 0. */
  lemma BaseWeekIsWeekZero()
    ensures IsSunday(BaseWeekStart) && WeekOffset(BaseWeekStart) == 0
  {
    WeekOffsetUnique(BaseWeekStart, 0);
  }

  /** `renderCalendar`'s loop: the seven dates shown for the week starting on
      weekStart, one a day; when weekStart is a Sunday they are named Sunday
      to Saturday in order and all belong to that week. */
  method WeekDates(weekStart: int) returns (dates: seq<int>)
    ensures |dates| == DaysPerWeek
    ensures forall i :: 0 <= i < DaysPerWeek ==> dates[i] == weekStart + i
    ensures IsSunday(weekStart) ==> forall i :: 0 <= i < DaysPerWeek ==>
      DayName(dates[i]) == DayNames[i] && WeekStart(dates[i]) == weekStart
  {
    dates := [];
    for i := 0 to DaysPerWeek
      invariant |dates| == i
      invariant forall j :: 0 <= j < i ==> dates[j] == weekStart + j
      invariant IsSunday(weekStart) ==> forall j :: 0 <= j < i ==>
        DayName(dates[j]) == DayNames[j] && WeekStart(dates[j]) == weekStart
    {
      var date := weekStart + i;
      if IsSunday(weekStart) {
        WeekStartUnique(date, weekStart);
        assert DayOfWeek(date) == i;
      }
      dates := dates + [date];
    }
  }

}
