/**
 Time values and their Gregorian fields, after section 21.4.1 of ECMA-262. Dafny's division by a positive
 number rounds down, as the floors of that section do.
 */
module Calendar {
  const MS_PER_SECOND := 1000
  const MS_PER_MINUTE := 60000
  const MS_PER_HOUR := 3600000
  const MS_PER_DAY := 86400000

  /** The largest time value a Date can hold. */
  const MAX_TIME := 8640000000000000

  type TimeValue = t: int | -MAX_TIME <= t <= MAX_TIME

  predicate IsLeap(y: int) {
    y % 4 == 0 && (y % 100 != 0 || y % 400 == 0)
  }

  function DaysInYear(y: int): int {
    if IsLeap(y) then 366 else 365
  }

  /** The day number of 1 January. */
  function DayFromYear(y: int): int {
    365 * (y - 1970) + (y - 1969) / 4 - (y - 1901) / 100 + (y - 1601) / 400
  }

  /** The number of days before month `m` (1 to 13) within a year. */
  function DaysBefore(m: int, leap: bool): int
    requires 1 <= m <= 13
  {
    var extra := if leap && m > 2 then 1 else 0;
    [0, 31, 59, 90, 120, 151, 181, 212, 243, 273, 304, 334, 365][m - 1] + extra
  }

  datatype Fields = Fields(year: int, month: int, day: int, hour: int, minute: int, second: int, ms: int)

  predicate Valid(f: Fields) {
    && 1 <= f.month <= 12
    && 1 <= f.day <= DaysBefore(f.month + 1, IsLeap(f.year)) - DaysBefore(f.month, IsLeap(f.year))
    && 0 <= f.hour < 24 && 0 <= f.minute < 60 && 0 <= f.second < 60 && 0 <= f.ms < 1000
  }

  function DayNumber(year: int, month: int, day: int): int
    requires 1 <= month <= 12
  {
    DayFromYear(year) + DaysBefore(month, IsLeap(year)) + day - 1
  }

  function ClockTime(f: Fields): int {
    f.hour * MS_PER_HOUR + f.minute * MS_PER_MINUTE + f.second * MS_PER_SECOND + f.ms
  }

  /** The time value of a date and time of day. */
  function TimeOf(f: Fields): int
    requires 1 <= f.month <= 12
  {
    DayNumber(f.year, f.month, f.day) * MS_PER_DAY + ClockTime(f)
  }

  lemma FourthYears(y: int)
    ensures (y - 1968) / 4 == (y - 1969) / 4 + if y % 4 == 0 then 1 else 0
  {
  }

  lemma Centuries(y: int)
    ensures (y - 1900) / 100 == (y - 1901) / 100 + if y % 100 == 0 then 1 else 0
  {
  }

  lemma Cycles(y: int)
    ensures (y - 1600) / 400 == (y - 1601) / 400 + if y % 400 == 0 then 1 else 0
  {
  }

  lemma LeapDivisors(y: int)
    ensures y % 400 == 0 ==> y % 100 == 0
    ensures y % 100 == 0 ==> y % 4 == 0
  {
  }

  lemma YearStep(y: int)
    ensures DayFromYear(y + 1) == DayFromYear(y) + DaysInYear(y)
  {
    FourthYears(y);
    Centuries(y);
    Cycles(y);
    LeapDivisors(y);
  }

  lemma {:induction false} YearsAscend(x: int, y: int)
    requires x <= y
    ensures DayFromYear(y) - DayFromYear(x) >= 365 * (y - x)
    decreases y - x
  {
    if x < y {
      YearsAscend(x, y - 1);
      YearStep(y - 1);
    }
  }

  /** The year that holds `day`, found by climbing from a year `y` that does not start later. */
  function YearFrom(day: int, y: int): (r: int)
    requires DayFromYear(y) <= day
    ensures DayFromYear(r) <= day < DayFromYear(r + 1)
    decreases day - DayFromYear(y)
  {
    YearStep(y);
    if day < DayFromYear(y + 1) then y else YearFrom(day, y + 1)
  }

  lemma EstimateIsEarly(day: int)
    ensures DayFromYear(1969 + (if day < 0 then day / 365 else 0)) <= day
  {
    if day < 0 {
      var y := 1969 + day / 365;
      YearsAscend(y, 1970);
    } else {
      YearStep(1969);
    }
  }

  /** The largest year whose 1 January is not after `day`. */
  function YearFromDay(day: int): (r: int)
    ensures DayFromYear(r) <= day < DayFromYear(r + 1)
  {
    EstimateIsEarly(day);
    YearFrom(day, 1969 + if day < 0 then day / 365 else 0)
  }

  function MonthFromDay(dayInYear: int, leap: bool): (m: int)
    requires 0 <= dayInYear < if leap then 366 else 365
    ensures 1 <= m <= 12 && DaysBefore(m, leap) <= dayInYear < DaysBefore(m + 1, leap)
  {
    if dayInYear < DaysBefore(2, leap) then 1
    else if dayInYear < DaysBefore(3, leap) then 2
    else if dayInYear < DaysBefore(4, leap) then 3
    else if dayInYear < DaysBefore(5, leap) then 4
    else if dayInYear < DaysBefore(6, leap) then 5
    else if dayInYear < DaysBefore(7, leap) then 6
    else if dayInYear < DaysBefore(8, leap) then 7
    else if dayInYear < DaysBefore(9, leap) then 8
    else if dayInYear < DaysBefore(10, leap) then 9
    else if dayInYear < DaysBefore(11, leap) then 10
    else if dayInYear < DaysBefore(12, leap) then 11
    else 12
  }

  lemma ClockSplit(clock: int)
    requires 0 <= clock < MS_PER_DAY
    ensures 0 <= clock / MS_PER_HOUR < 24
    ensures clock / MS_PER_HOUR * MS_PER_HOUR + clock / MS_PER_MINUTE % 60 * MS_PER_MINUTE
      + clock / MS_PER_SECOND % 60 * MS_PER_SECOND + clock % 1000 == clock
  {
    assert clock == clock / 1000 * 1000 + clock % 1000;
    var seconds := clock / 1000;
    assert seconds == seconds / 60 * 60 + seconds % 60;
    var minutes := seconds / 60;
    assert minutes == minutes / 60 * 60 + minutes % 60;
    assert minutes == clock / MS_PER_MINUTE && minutes / 60 == clock / MS_PER_HOUR;
  }

  lemma DayInYear(day: int, year: int)
    requires DayFromYear(year) <= day < DayFromYear(year + 1)
    ensures 0 <= day - DayFromYear(year) < if IsLeap(year) then 366 else 365
  {
    YearStep(year);
  }

  lemma DateSplit(day: int, year: int, month: int)
    requires DayFromYear(year) <= day < DayFromYear(year + 1) && 1 <= month <= 12
    requires DaysBefore(month, IsLeap(year)) <= day - DayFromYear(year) < DaysBefore(month + 1, IsLeap(year))
    ensures var d := day - DayFromYear(year) - DaysBefore(month, IsLeap(year)) + 1;
            DayNumber(year, month, d) == day
            && 1 <= d <= DaysBefore(month + 1, IsLeap(year)) - DaysBefore(month, IsLeap(year))
  {
  }

  lemma FieldsSplit(day: int, clock: int, year: int, month: int)
    requires DayFromYear(year) <= day < DayFromYear(year + 1) && 1 <= month <= 12
    requires DaysBefore(month, IsLeap(year)) <= day - DayFromYear(year) < DaysBefore(month + 1, IsLeap(year))
    requires 0 <= clock < MS_PER_DAY
    ensures var f := Fields(year, month, day - DayFromYear(year) - DaysBefore(month, IsLeap(year)) + 1,
                            clock / MS_PER_HOUR, clock / MS_PER_MINUTE % 60, clock / MS_PER_SECOND % 60, clock % 1000);
            Valid(f) && TimeOf(f) == day * MS_PER_DAY + clock
  {
    DateSplit(day, year, month);
    ClockSplit(clock);
  }

  /** The UTC fields of an instant, as `getUTCFullYear` and the like give them (months from 1). */
  function Civil(t: int): (f: Fields)
    ensures Valid(f) && TimeOf(f) == t
  {
    var day, clock := t / MS_PER_DAY, t % MS_PER_DAY;
    var year := YearFromDay(day);
    DayInYear(day, year);
    var leap := IsLeap(year);
    var dayInYear := day - DayFromYear(year);
    var month := MonthFromDay(dayInYear, leap);
    FieldsSplit(day, clock, year, month);
    Fields(year, month, dayInYear - DaysBefore(month, leap) + 1,
           clock / MS_PER_HOUR, clock / MS_PER_MINUTE % 60, clock / MS_PER_SECOND % 60, clock % 1000)
  }

  ghost predicate FieldsLess(f: Fields, g: Fields) {
    f.year < g.year || (f.year == g.year && (
    f.month < g.month || (f.month == g.month && (
    f.day < g.day || (f.day == g.day && (
    f.hour < g.hour || (f.hour == g.hour && (
    f.minute < g.minute || (f.minute == g.minute && (
    f.second < g.second || (f.second == g.second &&
    f.ms < g.ms)))))))))))
  }

  lemma ClockTimeInDay(f: Fields)
    requires Valid(f)
    ensures 0 <= ClockTime(f) < MS_PER_DAY
  {
  }

  lemma MonthsAscend(m: int, n: int, leap: bool)
    requires 1 <= m < n <= 13
    ensures DaysBefore(m + 1, leap) <= DaysBefore(n, leap)
  {
  }

  lemma DayNumberOrder(f: Fields, g: Fields)
    requires Valid(f) && Valid(g)
    requires f.year < g.year || (f.year == g.year && (f.month < g.month || (f.month == g.month && f.day < g.day)))
    ensures DayNumber(f.year, f.month, f.day) < DayNumber(g.year, g.month, g.day)
  {
    if f.year < g.year {
      YearStep(f.year);
      YearsAscend(f.year + 1, g.year);
      if f.month < 12 { MonthsAscend(f.month, 13, IsLeap(f.year)); }
    } else if f.month < g.month {
      MonthsAscend(f.month, g.month, IsLeap(f.year));
    }
  }

  /** Fields that come first, compared from the year down, belong to the earlier instant. */
  lemma FieldsOrder(f: Fields, g: Fields)
    requires Valid(f) && Valid(g)
    ensures FieldsLess(f, g) <==> TimeOf(f) < TimeOf(g)
  {
    ClockTimeInDay(f);
    ClockTimeInDay(g);
    if f.year == g.year && f.month == g.month && f.day == g.day {
      assert FieldsLess(f, g) <==> ClockTime(f) < ClockTime(g);
    } else if FieldsLess(f, g) {
      DayNumberOrder(f, g);
    } else {
      DayNumberOrder(g, f);
    }
  }

  /** The fields of an instant are the only valid ones with its time value. */
  lemma CivilOfTime(f: Fields)
    requires Valid(f)
    ensures Civil(TimeOf(f)) == f
  {
    FieldsOrder(f, Civil(TimeOf(f)));
    FieldsOrder(Civil(TimeOf(f)), f);
  }

  lemma CivilAt(f: Fields, t: int)
    requires Valid(f) && TimeOf(f) == t
    ensures Civil(t) == f
  {
    CivilOfTime(f);
  }

  // ----- the calendar, counted day by day

  /** The length of a month, from the rule and not from the table of days before it. */
  function MonthLength(month: int, leap: bool): int {
    if month == 4 || month == 6 || month == 9 || month == 11 then 30
    else if month == 2 then (if leap then 29 else 28)
    else 31
  }

  /** The table starts at 0 and grows by the lengths of the months. */
  lemma MonthLengths(month: int, leap: bool)
    requires 1 <= month <= 12
    ensures DaysBefore(1, leap) == 0
    ensures DaysBefore(month + 1, leap) - DaysBefore(month, leap) == MonthLength(month, leap)
  {
  }

  /** The same time of day on the next day. */
  function NextDay(f: Fields): Fields {
    if f.day < MonthLength(f.month, IsLeap(f.year)) then f.(day := f.day + 1)
    else if f.month < 12 then f.(month := f.month + 1, day := 1)
    else f.(year := f.year + 1, month := 1, day := 1)
  }

  lemma NextDayIsLater(f: Fields)
    requires Valid(f)
    ensures Valid(NextDay(f)) && TimeOf(NextDay(f)) == TimeOf(f) + MS_PER_DAY
  {
    MonthLengths(f.month, IsLeap(f.year));
    MonthLengths(NextDay(f).month, IsLeap(NextDay(f).year));
    YearStep(f.year);
    NextDayNumber(f);
  }

  lemma NextDayNumber(f: Fields)
    requires Valid(f)
    ensures var g := NextDay(f);
            1 <= g.month <= 12 && DayNumber(g.year, g.month, g.day) == DayNumber(f.year, f.month, f.day) + 1
  {
    MonthLengths(f.month, IsLeap(f.year));
    YearStep(f.year);
  }

  /** Every day is followed by the next one of the Gregorian calendar. */
  lemma DaysFollow(t: int)
    ensures Civil(t + MS_PER_DAY) == NextDay(Civil(t))
  {
    NextDayIsLater(Civil(t));
    CivilAt(NextDay(Civil(t)), t + MS_PER_DAY);
  }

  /** The next millisecond, with everything that it carries into. */
  function NextMs(f: Fields): Fields {
    if f.ms < 999 then f.(ms := f.ms + 1)
    else if f.second < 59 then f.(second := f.second + 1, ms := 0)
    else if f.minute < 59 then f.(minute := f.minute + 1, second := 0, ms := 0)
    else if f.hour < 23 then f.(hour := f.hour + 1, minute := 0, second := 0, ms := 0)
    else NextDay(f).(hour := 0, minute := 0, second := 0, ms := 0)
  }

  lemma SameDate(f: Fields, g: Fields)
    requires Valid(f) && f.year == g.year && f.month == g.month && f.day == g.day
    requires 0 <= g.hour < 24 && 0 <= g.minute < 60 && 0 <= g.second < 60 && 0 <= g.ms < 1000
    ensures Valid(g) && TimeOf(g) - TimeOf(f) == ClockTime(g) - ClockTime(f)
  {
  }

  lemma MidnightFollows(f: Fields)
    requires Valid(f) && f.hour == 23 && f.minute == f.second == 59 && f.ms == 999
    ensures Valid(NextMs(f)) && TimeOf(NextMs(f)) == TimeOf(f) + 1
  {
    NextDayIsLater(f);
    SameDate(NextDay(f), NextMs(f));
    assert ClockTime(NextDay(f)) == MS_PER_DAY - 1 && ClockTime(NextMs(f)) == 0;
  }

  lemma NextMsIsLater(f: Fields)
    requires Valid(f)
    ensures Valid(NextMs(f)) && TimeOf(NextMs(f)) == TimeOf(f) + 1
  {
    if f.hour == 23 && f.minute == f.second == 59 && f.ms == 999 {
      MidnightFollows(f);
    } else {
      SameDate(f, NextMs(f));
    }
  }

  /**
   Time values count milliseconds from the start of 1970. Together with `EpochIsStart` this fixes the fields of
   every instant, before and after 1970.
   */
  lemma MsFollow(t: int)
    ensures Civil(t + 1) == NextMs(Civil(t))
  {
    NextMsIsLater(Civil(t));
    CivilAt(NextMs(Civil(t)), t + 1);
  }

  lemma StartOf1970(f: Fields)
    requires f == Fields(1970, 1, 1, 0, 0, 0, 0)
    ensures Valid(f) && TimeOf(f) == 0
  {
  }

  lemma EpochIsStart(t: int)
    requires t == 0
    ensures Civil(t) == Fields(1970, 1, 1, 0, 0, 0, 0)
  {
    var f := Fields(1970, 1, 1, 0, 0, 0, 0);
    StartOf1970(f);
    CivilAt(f, t);
  }
}
