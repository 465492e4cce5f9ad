/**
 * Civil-date arithmetic behind client/src/lib/utils/date.ts.
 *
 * A JavaScript `Date` is an instant; read in the application's one local
 * clock it is a Gregorian calendar day plus a time of day.  `DateTime`
 * keeps exactly that (to the minute).  Days are counted by `DayNumber`,
 * the number of days since 1 January of year 0 in the proleptic Gregorian
 * calendar, which turns every rollover question into integer arithmetic.
 */
module Dates {
  import opened Arith

  /** A Gregorian calendar day. `month` is 0-based, as in JavaScript (0 = January). */
  datatype CivilDate = CivilDate(year: int, month: int, day: int)

  /** A `Date` read in local time: the calendar day and the minute of that day. */
  datatype DateTime = DateTime(date: CivilDate, minute: int)

  const MinutesPerDay: int := 1440

  predicate IsLeapYear(year: int) {
    year % 4 == 0 && (year % 100 != 0 || year % 400 == 0)
  }

  /** The Gregorian length of a month (the reference the JavaScript trick is checked against). */
  function MonthLength(year: int, month: int): int
    requires 0 <= month < 12
  {
    if month == 1 then (if IsLeapYear(year) then 29 else 28)
    else if month == 3 || month == 5 || month == 8 || month == 10 then 30
    else 31
  }

  predicate ValidDate(d: CivilDate) {
    0 <= d.month < 12 && 1 <= d.day <= MonthLength(d.year, d.month)
  }

  predicate ValidDateTime(t: DateTime) {
    ValidDate(t.date) && 0 <= t.minute < MinutesPerDay
  }

  /** A `Date` value as the application stores it: always a real day and time. */
  type Instant = t: DateTime | ValidDateTime(t) witness DateTime(CivilDate(1970, 0, 1), 0)

  function YearLength(year: int): int {
    if IsLeapYear(year) then 366 else 365
  }

  /** The number of leap years in [0, year); negative when year is. */
  function LeapYearsBefore(year: int): int {
    (year + 3) / 4 - (year + 99) / 100 + (year + 399) / 400
  }

  function DaysBeforeYear(year: int): int {
    365 * year + LeapYearsBefore(year)
  }

  /** Days of a common year that precede the first of each month. */
  const CommonDaysBeforeMonth: seq<int> := [0, 31, 59, 90, 120, 151, 181, 212, 243, 273, 304, 334]

  function DaysBeforeMonth(year: int, month: int): int
    requires 0 <= month < 12
  {
    CommonDaysBeforeMonth[month] + (if 2 <= month && IsLeapYear(year) then 1 else 0)
  }

  /** Days since 0000-01-01. */
  function DayNumber(d: CivilDate): int
    requires ValidDate(d)
  {
    DaysBeforeYear(d.year) + DaysBeforeMonth(d.year, d.month) + d.day - 1
  }

  /** `getTime()`, in minutes since 0000-01-01 00:00 local time. */
  function Timestamp(t: DateTime): int
    requires ValidDateTime(t)
  {
    DayNumber(t.date) * MinutesPerDay + t.minute
  }

  /** The whole days of a timestamp are the day number of its date. */
  lemma TimestampDays(t: DateTime)
    requires ValidDateTime(t)
    ensures Timestamp(t) / MinutesPerDay == DayNumber(t.date)
  {
    var q := DayNumber(t.date);
    assert Timestamp(t) == q * 1440 + t.minute;
  }

  lemma YearStep(year: int)
    ensures DaysBeforeYear(year + 1) == DaysBeforeYear(year) + YearLength(year)
  {
    CeilingStep(year, 4);
    CeilingStep(year, 100);
    CeilingStep(year, 400);
    DividesChain(year);
    var step := if IsLeapYear(year) then 1 else 0;
    assert LeapYearsBefore(year + 1) == LeapYearsBefore(year) + step;
    assert DaysBeforeYear(year + 1) == 365 * year + 365 + LeapYearsBefore(year + 1);
  }

  /** A multiple of 400 is a multiple of 100, and a multiple of 100 a multiple of 4. */
  lemma DividesChain(year: int)
    ensures year % 400 == 0 ==> year % 100 == 0
    ensures year % 100 == 0 ==> year % 4 == 0
  {
    if year % 400 == 0 {
      DivisionUnique(year, 400, year / 400, 0);
      DivisionUnique(year, 100, 4 * (year / 400), 0);
    }
    if year % 100 == 0 {
      DivisionUnique(year, 100, year / 100, 0);
      DivisionUnique(year, 4, 25 * (year / 100), 0);
    }
  }

  lemma MonthStep(year: int, month: int)
    requires 0 <= month < 11
    ensures DaysBeforeMonth(year, month + 1) == DaysBeforeMonth(year, month) + MonthLength(year, month)
  {
  }

  /** The day after `d`: the next day of the month, else the 1st of the next month or year. */
  function Succ(d: CivilDate): (r: CivilDate)
    requires ValidDate(d)
    ensures ValidDate(r) && DayNumber(r) == DayNumber(d) + 1
  {
    if d.day < MonthLength(d.year, d.month) then CivilDate(d.year, d.month, d.day + 1)
    else if d.month < 11 then MonthStep(d.year, d.month); CivilDate(d.year, d.month + 1, 1)
    else YearStep(d.year); CivilDate(d.year + 1, 0, 1)
  }

  /** The day before `d`: the previous day of the month, else the last of the previous month or year. */
  function Pred(d: CivilDate): (r: CivilDate)
    requires ValidDate(d)
    ensures ValidDate(r) && DayNumber(r) == DayNumber(d) - 1
  {
    if d.day > 1 then CivilDate(d.year, d.month, d.day - 1)
    else if d.month > 0 then
      MonthStep(d.year, d.month - 1); CivilDate(d.year, d.month - 1, MonthLength(d.year, d.month - 1))
    else YearStep(d.year - 1); CivilDate(d.year - 1, 11, 31)
  }

  /** `n` days after `d` (before it when `n` is negative), one day at a time. */
  function ShiftDays(d: CivilDate, n: int): (r: CivilDate)
    requires ValidDate(d)
    ensures ValidDate(r) && DayNumber(r) == DayNumber(d) + n
    decreases if n < 0 then -n else n
  {
    if n == 0 then d
    else if n > 0 then ShiftDays(Succ(d), n - 1)
    else ShiftDays(Pred(d), n + 1)
  }

  lemma {:induction false} DaysBeforeYearMonotone(a: int, b: int)
    requires a <= b
    ensures DaysBeforeYear(a) <= DaysBeforeYear(b)
    decreases b - a
  {
    if a < b {
      YearStep(a);
      DaysBeforeYearMonotone(a + 1, b);
    }
  }

  lemma DayNumberWithinYear(d: CivilDate)
    requires ValidDate(d)
    ensures DaysBeforeYear(d.year) <= DayNumber(d) < DaysBeforeYear(d.year) + YearLength(d.year)
  {
  }

  /** Distinct valid dates have distinct day numbers. */
  lemma DayNumberInjective(a: CivilDate, b: CivilDate)
    requires ValidDate(a) && ValidDate(b)
    ensures DayNumber(a) == DayNumber(b) <==> a == b
  {
    if DayNumber(a) == DayNumber(b) {
      DayNumberWithinYear(a);
      DayNumberWithinYear(b);
      if a.year < b.year {
        YearStep(a.year);
        DaysBeforeYearMonotone(a.year + 1, b.year);
      } else if b.year < a.year {
        YearStep(b.year);
        DaysBeforeYearMonotone(b.year + 1, a.year);
      }
      assert a.year == b.year;
    }
  }

  /** Valid date-times with the same timestamp are equal. */
  lemma TimestampInjective(a: DateTime, b: DateTime)
    requires ValidDateTime(a) && ValidDateTime(b)
    ensures Timestamp(a) == Timestamp(b) <==> a == b
  {
    if Timestamp(a) == Timestamp(b) {
      DayNumberInjective(a.date, b.date);
    }
  }

  // ---------------------------------------------------------------------
  // The operations of client/src/lib/utils/date.ts

  /**
   * The year `new Date(year, ...)` starts from: a year argument in 0..99 is read
   * as 1900..1999, before any month overflow is applied.
   */
  function FullYear(year: int): (y: int)
    ensures 0 <= year <= 99 ==> y == 1900 + year
    ensures (year < 0 || 99 < year) ==> y == year
  {
    if 0 <= year <= 99 then 1900 + year else year
  }

  /** The year a (year, month) pair lands in once the month is normalised into 0..11. */
  function NormalYear(year: int, month: int): int {
    FullYear(year) + month / 12
  }

  /** The month a (year, month) pair lands on: `month` modulo 12, never negative. */
  function NormalMonth(month: int): (m: int)
    ensures 0 <= m < 12
  {
    month % 12
  }

  /** `new Date(year, month, day)`: local midnight, with a two-digit year read as 19xx and month and day overflowing into neighbours. */
  function MakeDate(year: int, month: int, day: int): (t: DateTime)
    ensures ValidDateTime(t) && t.minute == 0
  {
    DateTime(ShiftDays(CivilDate(NormalYear(year, month), NormalMonth(month), 1), day - 1), 0)
  }

  /** A day that exists in the normalised month is taken as it is. */
  lemma MakeDateInMonth(year: int, month: int, day: int)
    requires 1 <= day <= MonthLength(NormalYear(year, month), NormalMonth(month))
    ensures MakeDate(year, month, day) == DateTime(CivilDate(NormalYear(year, month), NormalMonth(month), day), 0)
  {
    var d := CivilDate(NormalYear(year, month), NormalMonth(month), day);
    DayNumberInjective(MakeDate(year, month, day).date, d);
  }

  /** Day 0 of the month after (year, month) is the last day of (year, month). */
  lemma DayZeroOfNextMonth(year: int, month: int)
    ensures MakeDate(year, month + 1, 0).date
         == CivilDate(NormalYear(year, month), NormalMonth(month), MonthLength(NormalYear(year, month), NormalMonth(month)))
  {
    var last := CivilDate(NormalYear(year, month), NormalMonth(month), MonthLength(NormalYear(year, month), NormalMonth(month)));
    var next := CivilDate(NormalYear(year, month + 1), NormalMonth(month + 1), 1);
    assert Succ(last) == next;
    DayNumberInjective(MakeDate(year, month + 1, 0).date, last);
  }

  /** getDaysInMonth (date.ts:24-26): the day-of-month of "day 0 of the next month". */
  function GetDaysInMonth(year: int, month: int): (n: int)
    ensures n == MonthLength(NormalYear(year, month), NormalMonth(month))
  {
    DayZeroOfNextMonth(year, month);
    MakeDate(year, month + 1, 0).date.day
  }

  /**
   * For months 0..11 the trick yields the Gregorian lengths; February has 29 days
   * exactly in leap years, where a year in 0..99 counts as 1900..1999.
   */
  lemma DaysInMonthGregorian(year: int, month: int)
    requires 0 <= month < 12
    ensures month in {0, 2, 4, 6, 7, 9, 11} ==> GetDaysInMonth(year, month) == 31
    ensures month in {3, 5, 8, 10} ==> GetDaysInMonth(year, month) == 30
    ensures month == 1 && (year < 0 || 99 < year) ==>
              (GetDaysInMonth(year, month) == 29 <==> year % 4 == 0 && (year % 100 != 0 || year % 400 == 0))
    ensures month == 1 && 0 <= year <= 99 ==> (GetDaysInMonth(year, month) == 29 <==> year % 4 == 0 && year != 0)
    ensures 28 <= GetDaysInMonth(year, month) <= 31
  {
    DivisionSmall(month, 12);
    assert GetDaysInMonth(year, month) == MonthLength(FullYear(year), month);
    if 0 <= year <= 99 {
      var y := 1900 + year;
      DivisionUnique(y, 4, 475 + year / 4, year % 4);
      if year == 0 {
        DivisionUnique(y, 100, 19, 0);
        DivisionUnique(y, 400, 4, 300);
      } else {
        DivisionUnique(y, 100, 19, year);
      }
    }
  }

  /** Two-digit years: 29 February 1900 does not exist, so `getDaysInMonth(0, 1)` is 28, and 1 January 1950 was a Sunday. */
  lemma TwoDigitYears()
    ensures GetDaysInMonth(0, 1) == 28
    ensures GetDaysInMonth(1900, 1) == 28 && GetDaysInMonth(2000, 1) == 29
    ensures Weekday(GetFirstDayOfMonth(50, 0).date) == 0
  {
    DaysInMonthGregorian(0, 1);
    DaysInMonthGregorian(1900, 1);
    DaysInMonthGregorian(2000, 1);
  }

  /** getFirstDayOfMonth (date.ts:43-45): midnight of day 1 of the normalised month. */
  function GetFirstDayOfMonth(year: int, month: int): (t: DateTime)
    ensures t == DateTime(CivilDate(NormalYear(year, month), NormalMonth(month), 1), 0)
  {
    MakeDate(year, month, 1)
  }

  /** getLastDayOfMonth (date.ts:48-50): midnight of the day whose day-of-month is getDaysInMonth. */
  function GetLastDayOfMonth(year: int, month: int): (t: DateTime)
    ensures t.date.year == NormalYear(year, month) && t.date.month == NormalMonth(month)
    ensures t.date.day == GetDaysInMonth(year, month) && t.minute == 0
  {
    DayZeroOfNextMonth(year, month);
    MakeDate(year, month + 1, 0)
  }

  /** `t.setDate(dayOfMonth)`: same time of day, on the given day of t's month, overflowing as JavaScript does. */
  function SetDate(t: DateTime, dayOfMonth: int): (r: DateTime)
    requires ValidDateTime(t)
    ensures ValidDateTime(r) && r.minute == t.minute
  {
    DateTime(ShiftDays(t.date, dayOfMonth - t.date.day), t.minute)
  }

  /** A day that exists in t's month is taken literally; only other values roll over. */
  lemma SetDateInMonth(t: DateTime, dayOfMonth: int)
    requires ValidDateTime(t) && 1 <= dayOfMonth <= MonthLength(t.date.year, t.date.month)
    ensures SetDate(t, dayOfMonth).date == CivilDate(t.date.year, t.date.month, dayOfMonth)
  {
    DayNumberInjective(SetDate(t, dayOfMonth).date, CivilDate(t.date.year, t.date.month, dayOfMonth));
  }

  /** addDays (date.ts:29-33): the same time of day, `days` whole days later. */
  function AddDays(t: DateTime, days: int): (r: DateTime)
    requires ValidDateTime(t)
    ensures ValidDateTime(r) && r.minute == t.minute
    ensures Timestamp(r) == Timestamp(t) + days * MinutesPerDay
  {
    SetDate(t, t.date.day + days)
  }

  /** subtractDays (date.ts:36-40): the same time of day, `days` whole days earlier. */
  function SubtractDays(t: DateTime, days: int): (r: DateTime)
    requires ValidDateTime(t)
    ensures ValidDateTime(r) && r.minute == t.minute
    ensures Timestamp(r) == Timestamp(t) - days * MinutesPerDay
  {
    SetDate(t, t.date.day - days)
  }

  lemma AddDaysZero(t: DateTime)
    requires ValidDateTime(t)
    ensures AddDays(t, 0) == t
  {
    TimestampInjective(AddDays(t, 0), t);
  }

  /** Adding and subtracting the same number of days undo each other. */
  lemma AddSubtractRoundTrip(t: DateTime, days: int)
    requires ValidDateTime(t)
    ensures SubtractDays(AddDays(t, days), days) == t
    ensures AddDays(SubtractDays(t, days), days) == t
  {
    TimestampInjective(SubtractDays(AddDays(t, days), days), t);
    TimestampInjective(AddDays(SubtractDays(t, days), days), t);
  }

  /** Adding `a` then `b` days is adding `a + b` days. */
  lemma AddDaysAdditive(t: DateTime, a: int, b: int)
    requires ValidDateTime(t)
    ensures AddDays(AddDays(t, a), b) == AddDays(t, a + b)
  {
    TimestampInjective(AddDays(AddDays(t, a), b), AddDays(t, a + b));
  }

  /** One day later is the calendar successor, at the same time of day. */
  lemma AddOneDayIsSucc(t: DateTime)
    requires ValidDateTime(t)
    ensures AddDays(t, 1) == DateTime(Succ(t.date), t.minute)
  {
    TimestampInjective(AddDays(t, 1), DateTime(Succ(t.date), t.minute));
  }

  /** addDays rolls over the end of a year, and over February 28 only into February 29 of a leap year. */
  lemma AddDaysRollover(year: int, minute: int)
    requires 0 <= minute < MinutesPerDay
    ensures AddDays(DateTime(CivilDate(year, 11, 31), minute), 1) == DateTime(CivilDate(year + 1, 0, 1), minute)
    ensures AddDays(DateTime(CivilDate(year, 1, 28), minute), 1).date
         == (if IsLeapYear(year) then CivilDate(year, 1, 29) else CivilDate(year, 2, 1))
    ensures AddDays(DateTime(CivilDate(year, 0, 31), minute), 1).date == CivilDate(year, 1, 1)
  {
    AddOneDayIsSucc(DateTime(CivilDate(year, 11, 31), minute));
    AddOneDayIsSucc(DateTime(CivilDate(year, 1, 28), minute));
    AddOneDayIsSucc(DateTime(CivilDate(year, 0, 31), minute));
  }

  /** The weekday of a calendar day, 0 = Sunday; day 0 (0000-01-01) was a Saturday. */
  function Weekday(d: CivilDate): (w: int)
    requires ValidDate(d)
    ensures 0 <= w < 7
  {
    (DayNumber(d) + 6) % 7
  }

  /** getDayOfWeek (date.ts:19-21). */
  function GetDayOfWeek(t: DateTime): (w: int)
    requires ValidDateTime(t)
    ensures 0 <= w < 7
  {
    Weekday(t.date)
  }

  /** The weekday is a function of the instant alone: whole days since 0000-01-01 (a Saturday), modulo 7. */
  lemma DayOfWeekFromTimestamp(t: DateTime)
    requires ValidDateTime(t)
    ensures GetDayOfWeek(t) == (Timestamp(t) / MinutesPerDay + 6) % 7
  {
    TimestampDays(t);
  }

  /** The weekday moves on by one, modulo 7, with each added day. */
  lemma WeekdayAfterAddDays(t: DateTime, days: int)
    requires ValidDateTime(t)
    ensures GetDayOfWeek(AddDays(t, days)) == (GetDayOfWeek(t) + days) % 7
  {
    var r := AddDays(t, days);
    assert Timestamp(r) == (DayNumber(t.date) + days) * MinutesPerDay + t.minute;
    DivisionUnique(Timestamp(r), MinutesPerDay, DayNumber(t.date) + days, t.minute);
    TimestampDays(r);
    var n := DayNumber(t.date) + 6;
    assert DayNumber(r.date) + 6 == n + days;
    ModSum(n, days);
  }

  lemma ModSum(a: int, b: int)
    ensures (a + b) % 7 == (a % 7 + b) % 7
  {
    var q := a / 7;
    assert a == q * 7 + a % 7;
    assert a + b == q * 7 + (a % 7 + b);
  }

  lemma WeekdayAfterOneDay(t: DateTime)
    requires ValidDateTime(t)
    ensures GetDayOfWeek(AddDays(t, 1)) == (GetDayOfWeek(t) + 1) % 7
  {
    WeekdayAfterAddDays(t, 1);
  }

  /** Anchors: 1 January 1970 and 1 February 2024 were Thursdays. */
  lemma KnownWeekdays()
    ensures Weekday(CivilDate(1970, 0, 1)) == 4
    ensures Weekday(CivilDate(2024, 1, 1)) == 4
  {
  }

  /** isSameDay (date.ts:14-16): the calendar days agree, whatever the times of day. */
  predicate IsSameDay(a: DateTime, b: DateTime) {
    a.date == b.date
  }

  /** isToday (date.ts:53-55), with the current instant passed in. */
  predicate IsToday(t: DateTime, now: DateTime) {
    IsSameDay(t, now)
  }

  /** Any time of the current day is today; the same time a day later or earlier is not. */
  lemma TodayFacts(t: DateTime, now: DateTime)
    requires ValidDateTime(t) && ValidDateTime(now)
    ensures IsToday(DateTime(now.date, t.minute), now)
    ensures IsToday(t, now) ==> !IsToday(AddDays(t, 1), now) && !IsToday(SubtractDays(t, 1), now)
  {
    if IsToday(t, now) {
      TimestampDays(t);
      TimestampDays(AddDays(t, 1));
      TimestampDays(SubtractDays(t, 1));
    }
  }

  lemma SameDayIsEquivalence(a: DateTime, b: DateTime, c: DateTime)
    ensures IsSameDay(a, a)
    ensures IsSameDay(a, b) == IsSameDay(b, a)
    ensures IsSameDay(a, b) && IsSameDay(b, c) ==> IsSameDay(a, c)
  {
  }

  /** Same day exactly when year, month and day-of-month agree, and never across midnight. */
  lemma SameDayMeaning(a: DateTime, b: DateTime)
    requires ValidDateTime(a) && ValidDateTime(b)
    ensures IsSameDay(a, b) <==> a.date.year == b.date.year && a.date.month == b.date.month && a.date.day == b.date.day
    ensures IsSameDay(a, b) <==> Timestamp(a) / MinutesPerDay == Timestamp(b) / MinutesPerDay
  {
    DayNumberInjective(a.date, b.date);
    TimestampDays(a);
    TimestampDays(b);
  }

  /** 23:59 on one day and 00:01 on the next are two minutes apart but not the same day. */
  lemma AcrossMidnightNotSameDay(d: CivilDate)
    requires ValidDate(d)
    ensures Timestamp(DateTime(Succ(d), 1)) - Timestamp(DateTime(d, 1439)) == 2
    ensures !IsSameDay(DateTime(d, 1439), DateTime(Succ(d), 1))
  {
  }
}
