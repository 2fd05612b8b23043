/** `isMessageToday`: the local calendar date of a message's timestamp against the
    local calendar date of "now". Timestamps are seconds since 1970-01-01T00:00:00Z;
    the local zone is the host process's zone, taken as a fixed offset from UTC in
    seconds; dates are proleptic Gregorian, as JavaScript's `Date` computes them. */
module Calendar {

  const SecondsPerDay: int := 86400

  /** The fields `getFullYear()`, `getMonth()` (0 for January) and `getDate()`. */
  datatype LocalDate = LocalDate(year: int, month: int, day: int)

  predicate IsLeapYear(y: int) {
    y % 4 == 0 && (y % 100 != 0 || y % 400 == 0)
  }

  function DaysInYear(y: int): int {
    if IsLeapYear(y) then 366 else 365
  }

  function DaysInMonth(m: int, leap: bool): nat
    requires 0 <= m < 12
  {
    if m == 1 then (if leap then 29 else 28)
    else if m == 3 || m == 5 || m == 8 || m == 10 then 30
    else 31
  }

  /** Days in the months before month `m` of a year. */
  function DaysBeforeMonth(m: int, leap: bool): nat
    requires 0 <= m <= 12
  {
    if m == 0 then 0 else DaysBeforeMonth(m - 1, leap) + DaysInMonth(m - 1, leap)
  }

  lemma DaysBeforeMonthsOfYear(y: int)
    ensures DaysBeforeMonth(12, IsLeapYear(y)) == DaysInYear(y)
  {
    var leap := IsLeapYear(y);
    assert DaysBeforeMonth(1, leap) == 31;
    assert DaysBeforeMonth(2, leap) == (if leap then 60 else 59);
    assert DaysBeforeMonth(4, leap) == (if leap then 121 else 120);
    assert DaysBeforeMonth(6, leap) == (if leap then 182 else 181);
    assert DaysBeforeMonth(8, leap) == (if leap then 244 else 243);
    assert DaysBeforeMonth(10, leap) == (if leap then 305 else 304);
  }

  /** Days from 1 January 1970 to 1 January of year `y` (negative before 1970). */
  function DaysBeforeYear(y: int): int
    decreases if y < 1970 then 1970 - y else y - 1970
  {
    if y == 1970 then 0
    else if y > 1970 then DaysBeforeYear(y - 1) + DaysInYear(y - 1)
    else DaysBeforeYear(y + 1) - DaysInYear(y)
  }

  lemma DaysBeforeNextYear(y: int)
    ensures DaysBeforeYear(y + 1) == DaysBeforeYear(y) + DaysInYear(y)
  {
  }

  /** Year and 0-based day of the year of the day `z` days after 1 January of year `y`,
      found by walking a year at a time. */
  function YearWalk(y: int, z: int): (r: (int, int))
    ensures 0 <= r.1 < DaysInYear(r.0)
    ensures DaysBeforeYear(r.0) + r.1 == DaysBeforeYear(y) + z
    decreases if z < 0 then 1 else 0, if z < 0 then -z else z
  {
    if z < 0 then
      DaysBeforeNextYear(y - 1);
      YearWalk(y - 1, z + DaysInYear(y - 1))
    else if z < DaysInYear(y) then (y, z)
    else
      DaysBeforeNextYear(y);
      YearWalk(y + 1, z - DaysInYear(y))
  }

  /** Month and day of the month of the day `rem` days after the first of month `m`. */
  function MonthWalk(m: int, rem: int, leap: bool): (r: (int, int))
    requires 0 <= m < 12 && 0 <= rem
    requires DaysBeforeMonth(m, leap) + rem < DaysBeforeMonth(12, leap)
    ensures m <= r.0 < 12 && 1 <= r.1 <= DaysInMonth(r.0, leap)
    ensures DaysBeforeMonth(r.0, leap) + r.1 - 1 == DaysBeforeMonth(m, leap) + rem
    decreases 12 - m
  {
    if rem < DaysInMonth(m, leap) then (m, rem + 1)
    else MonthWalk(m + 1, rem - DaysInMonth(m, leap), leap)
  }

  predicate ValidDate(d: LocalDate) {
    0 <= d.month < 12 && 1 <= d.day <= DaysInMonth(d.month, IsLeapYear(d.year))
  }

  /** Days from 1970-01-01 to the valid date `d`. */
  function DayNumber(d: LocalDate): int
    requires ValidDate(d)
  {
    DaysBeforeYear(d.year) + DaysBeforeMonth(d.month, IsLeapYear(d.year)) + d.day - 1
  }

  /** The calendar date `z` days after 1970-01-01 (before it when `z` is negative). */
  function DateOfDay(z: int): (d: LocalDate)
    ensures ValidDate(d)
    ensures DayNumber(d) == z
  {
    var (y, doy) := YearWalk(1970, z);
    DaysBeforeMonthsOfYear(y);
    var (m, day) := MonthWalk(0, doy, IsLeapYear(y));
    LocalDate(y, m, day)
  }

  /** Years before `y2` end no later than `y2` begins. */
  lemma {:induction false} DaysBeforeYearGrows(y1: int, y2: int)
    requires y1 < y2
    ensures DaysBeforeYear(y1) + DaysInYear(y1) <= DaysBeforeYear(y2)
    decreases y2 - y1
  {
    DaysBeforeNextYear(y1);
    if y1 + 1 < y2 {
      DaysBeforeYearGrows(y1 + 1, y2);
    }
  }

  /** Months before `m2` end no later than `m2` begins. */
  lemma {:induction false} DaysBeforeMonthGrows(m1: int, m2: int, leap: bool)
    requires 0 <= m1 < m2 <= 12
    ensures DaysBeforeMonth(m1, leap) + DaysInMonth(m1, leap) <= DaysBeforeMonth(m2, leap)
    decreases m2 - m1
  {
    if m1 + 1 < m2 {
      DaysBeforeMonthGrows(m1 + 1, m2, leap);
    }
  }

  /** A valid date's day number falls within its year. */
  lemma DayNumberWithinYear(d: LocalDate)
    requires ValidDate(d)
    ensures DaysBeforeYear(d.year) <= DayNumber(d) < DaysBeforeYear(d.year) + DaysInYear(d.year)
  {
    var leap := IsLeapYear(d.year);
    DaysBeforeMonthsOfYear(d.year);
    DaysBeforeMonthGrows(d.month, 12, leap);
    assert DaysBeforeMonth(d.month, leap) + d.day <= DaysInYear(d.year);
  }

  /** Distinct valid dates have distinct day numbers. */
  lemma DayNumberInjective(a: LocalDate, b: LocalDate)
    requires ValidDate(a) && ValidDate(b)
    requires DayNumber(a) == DayNumber(b)
    ensures a == b
  {
    DayNumberWithinYear(a);
    DayNumberWithinYear(b);
    if a.year < b.year {
      DaysBeforeYearGrows(a.year, b.year);
      assert false;
    } else if b.year < a.year {
      DaysBeforeYearGrows(b.year, a.year);
      assert false;
    }
    var leap := IsLeapYear(a.year);
    if a.month < b.month {
      DaysBeforeMonthGrows(a.month, b.month, leap);
      assert false;
    } else if b.month < a.month {
      DaysBeforeMonthGrows(b.month, a.month, leap);
      assert false;
    }
  }

  /** Every valid date is the date of its own day number. */
  lemma DateOfDayNumber(d: LocalDate)
    requires ValidDate(d)
    ensures DateOfDay(DayNumber(d)) == d
  {
    DayNumberInjective(DateOfDay(DayNumber(d)), d);
  }

  /** The local day number of a timestamp: whole days since the local epoch, rounded down. */
  function LocalDayNumber(timestamp: int, utcOffset: int): int {
    (timestamp + utcOffset) / SecondsPerDay
  }

  function LocalDateOf(timestamp: int, utcOffset: int): LocalDate {
    DateOfDay(LocalDayNumber(timestamp, utcOffset))
  }

  /** `isMessageToday`: year, month and day of the message equal those of `now`,
      which is to say the two fall on the same local day. */
  function IsMessageToday(timestamp: int, now: int, utcOffset: int): (today: bool)
    ensures today <==> LocalDayNumber(timestamp, utcOffset) == LocalDayNumber(now, utcOffset)
  {
    var m := LocalDateOf(timestamp, utcOffset);
    var n := LocalDateOf(now, utcOffset);
    n.year == m.year && n.month == m.month && n.day == m.day
  }

  /** A message dated today is less than a day away from `now`. */
  lemma TodayIsWithinADay(timestamp: int, now: int, utcOffset: int)
    requires IsMessageToday(timestamp, now, utcOffset)
    ensures -SecondsPerDay < timestamp - now < SecondsPerDay
  {
  }

  /** Not a 24-hour window: at local midnight, the second before is yesterday. */
  lemma MidnightStartsANewDay(now: int, utcOffset: int)
    requires (now + utcOffset) % SecondsPerDay == 0
    ensures IsMessageToday(now, now, utcOffset)
    ensures !IsMessageToday(now - 1, now, utcOffset)
  {
  }

  lemma TodayIsAnEquivalence(a: int, b: int, c: int, utcOffset: int)
    ensures IsMessageToday(a, a, utcOffset)
    ensures IsMessageToday(a, b, utcOffset) ==> IsMessageToday(b, a, utcOffset)
    ensures IsMessageToday(a, b, utcOffset) && IsMessageToday(b, c, utcOffset)
        ==> IsMessageToday(a, c, utcOffset)
  {
  }

  /** The epoch, and the day before it. */
  lemma EpochDates()
    ensures DateOfDay(0) == LocalDate(1970, 0, 1)
    ensures DateOfDay(-1) == LocalDate(1969, 11, 31)
  {
    DateOfDayNumber(LocalDate(1970, 0, 1));
    DateOfDayNumber(LocalDate(1969, 11, 31));
  }
}
