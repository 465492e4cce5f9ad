/**
 * Month grids, date ranges, weeks and time-slot labels of
 * client/src/lib/calendar.ts.  The source builds each array by pushing in a
 * loop; so do the methods here, and each is proved equal to (or
 * characterised by) a specification that the lemmas below reason about.
 */
module Calendar {
  import opened Options
  import opened Dates
  import opened Strings
  import opened Arith

  /** The fixed size of a month grid: six rows of seven days. */
  const GridCells: int := 42

  // ---------------------------------------------------------------------
  // Month grid

  /** `count` padding cells. */
  function Blanks(count: nat): (cells: seq<Option<DateTime>>)
    ensures |cells| == count && forall i :: 0 <= i < count ==> cells[i] == None
  {
    seq(count, _ => None)
  }

  /** The dates as occupied cells, in the same order. */
  function Occupied(dates: seq<DateTime>): (cells: seq<Option<DateTime>>)
    ensures |cells| == |dates| && forall i :: 0 <= i < |dates| ==> cells[i] == Some(dates[i])
  {
    seq(|dates|, i requires 0 <= i < |dates| => Some(dates[i]))
  }

  /** The dates held by the occupied cells, in order. */
  function Present(cells: seq<Option<DateTime>>): (dates: seq<DateTime>)
    ensures |dates| <= |cells|
  {
    if cells == [] then []
    else (if cells[0].Some? then [cells[0].value] else []) + Present(cells[1..])
  }

  lemma {:induction false} PresentConcat(a: seq<Option<DateTime>>, b: seq<Option<DateTime>>)
    ensures Present(a + b) == Present(a) + Present(b)
  {
    if a == [] {
      assert a + b == b;
    } else {
      var head := if a[0].Some? then [a[0].value] else [];
      assert (a + b)[0] == a[0];
      assert (a + b)[1..] == a[1..] + b;
      assert Present(a + b) == head + Present(a[1..] + b);
      PresentConcat(a[1..], b);
      assert Present(a) == head + Present(a[1..]);
      assert head + (Present(a[1..]) + Present(b)) == (head + Present(a[1..])) + Present(b);
    }
  }

  lemma {:induction false} PresentBlanks(count: nat)
    ensures Present(Blanks(count)) == []
  {
    if count > 0 {
      assert Blanks(count)[1..] == Blanks(count - 1);
      PresentBlanks(count - 1);
    }
  }

  lemma {:induction false} PresentOccupied(dates: seq<DateTime>)
    ensures Present(Occupied(dates)) == dates
  {
    if dates != [] {
      assert Occupied(dates)[1..] == Occupied(dates[1..]);
      PresentOccupied(dates[1..]);
    }
  }

  /** The days 1..n of the (normalised) month, at midnight, in order. */
  function MonthDateList(year: int, month: int): seq<DateTime>
  {
    seq(GetDaysInMonth(year, month), i => DateTime(CivilDate(NormalYear(year, month), NormalMonth(month), i + 1), 0))
  }

  /**
   * The month's dates are the valid dates `new Date(year, month, day)` for
   * day = 1..getDaysInMonth, each one day after the one before.
   */
  lemma MonthDateListFacts(year: int, month: int)
    ensures var dates := MonthDateList(year, month);
      && |dates| == GetDaysInMonth(year, month)
      && (forall i :: 0 <= i < |dates| ==> ValidDateTime(dates[i]) && dates[i] == MakeDate(year, month, i + 1))
      && (forall i :: 0 <= i < |dates| - 1 ==> dates[i + 1] == AddDays(dates[i], 1))
  {
    var dates := MonthDateList(year, month);
    forall i | 0 <= i < |dates|
      ensures ValidDateTime(dates[i]) && dates[i] == MakeDate(year, month, i + 1)
    {
      MakeDateInMonth(year, month, i + 1);
    }
    forall i | 0 <= i < |dates| - 1
      ensures dates[i + 1] == AddDays(dates[i], 1)
    {
      AddOneDayIsSucc(dates[i]);
    }
  }

  /** The number of padding cells before day 1: the weekday of the first of the month. */
  function LeadingBlanks(year: int, month: int): (k: int)
    ensures 0 <= k <= 6
  {
    GetDayOfWeek(GetFirstDayOfMonth(year, month))
  }

  /** The grid the three loops of generateCalendarDays build: padding, the days, padding up to 42. */
  function CalendarGrid(year: int, month: int): seq<Option<DateTime>>
  {
    var k := LeadingBlanks(year, month);
    var days := MonthDateList(year, month);
    var trailing := GridCells - k - |days|;
    Blanks(k) + Occupied(days) + Blanks(if trailing < 0 then 0 else trailing)
  }

  /**
   * generateCalendarDays (calendar.ts:4-31): exactly 42 cells; the first k are
   * padding, where k is the weekday of the 1st; then days 1..n in order; then
   * padding. The trailing padding is never negative and in fact at least 5.
   */
  lemma GridShape(year: int, month: int)
    ensures var g, k, n := CalendarGrid(year, month), LeadingBlanks(year, month), GetDaysInMonth(year, month);
      && |g| == GridCells
      && 0 <= k <= 6 && 28 <= n <= 31 && GridCells - (k + n) >= 5
      && (forall i :: 0 <= i < k ==> g[i] == None)
      && (forall i :: k <= i < k + n ==>
            g[i] == Some(DateTime(CivilDate(NormalYear(year, month), NormalMonth(month), i - k + 1), 0)))
      && (forall i :: k + n <= i < GridCells ==> g[i] == None)
  {
    GridBounds(year, month);
    var k, days := LeadingBlanks(year, month), MonthDateList(year, month);
    var n := |days|;
    var g := CalendarGrid(year, month);
    assert g == Blanks(k) + Occupied(days) + Blanks(GridCells - k - n);
    forall i | k <= i < k + n
      ensures g[i] == Some(DateTime(CivilDate(NormalYear(year, month), NormalMonth(month), i - k + 1), 0))
    {
      assert g[i] == Occupied(days)[i - k];
    }
    forall i | k + n <= i < GridCells
      ensures g[i] == None
    {
      assert g[i] == Blanks(GridCells - k - n)[i - k - n];
    }
  }

  /** At most six leading blanks and at most 31 days leave room for at least five trailing ones. */
  lemma GridBounds(year: int, month: int)
    ensures var k, n := LeadingBlanks(year, month), GetDaysInMonth(year, month);
      0 <= k <= 6 && 28 <= n <= 31 && GridCells - (k + n) >= 5 && |MonthDateList(year, month)| == n
  {
    assert 28 <= MonthLength(NormalYear(year, month), NormalMonth(month)) <= 31;
  }

  /** The occupied cells of the grid are exactly the month's dates, in order; so there are n of them. */
  lemma GridPresentIsMonthDates(year: int, month: int)
    ensures Present(CalendarGrid(year, month)) == MonthDateList(year, month)
    ensures |Present(CalendarGrid(year, month))| == GetDaysInMonth(year, month)
  {
    var k := LeadingBlanks(year, month);
    var days := MonthDateList(year, month);
    var trailing := GridCells - k - |days|;
    var t := if trailing < 0 then 0 else trailing;
    PresentConcat(Blanks(k) + Occupied(days), Blanks(t));
    PresentConcat(Blanks(k), Occupied(days));
    PresentBlanks(k);
    PresentBlanks(t);
    PresentOccupied(days);
  }

  /** Each occupied cell sits in the column of its weekday (column 0 = Sunday). */
  lemma GridColumnIsWeekday(year: int, month: int, i: int)
    requires 0 <= i < GridCells && CalendarGrid(year, month)[i].Some?
    ensures GetDayOfWeek(CalendarGrid(year, month)[i].value) == i % 7
  {
    GridShape(year, month);
    MonthDateListFacts(year, month);
    var k := LeadingBlanks(year, month);
    var first := GetFirstDayOfMonth(year, month);
    var cell := CalendarGrid(year, month)[i].value;
    assert cell == MonthDateList(year, month)[i - k];
    TimestampInjective(cell, AddDays(first, i - k));
    WeekdayAfterAddDays(first, i - k);
  }

  /** February 2024: 29 days, starting on a Thursday, in 42 cells. */
  lemma LeapFebruary2024Grid()
    ensures LeadingBlanks(2024, 1) == 4
    ensures |Present(CalendarGrid(2024, 1))| == 29
    ensures |CalendarGrid(2024, 1)| == 42
  {
    KnownWeekdays();
    assert GetFirstDayOfMonth(2024, 1) == DateTime(CivilDate(2024, 1, 1), 0);
    GridPresentIsMonthDates(2024, 1);
    assert GetDaysInMonth(2024, 1) == 29;
  }

  /** generateCalendarDays (calendar.ts:4-31). */
  method GenerateCalendarDays(year: int, month: int) returns (calendarDays: seq<Option<DateTime>>)
    ensures calendarDays == CalendarGrid(year, month)
  {
    var daysInMonth := GetDaysInMonth(year, month);
    var firstDayOfMonth := GetFirstDayOfMonth(year, month);
    var firstWeekday := GetDayOfWeek(firstDayOfMonth);
    ghost var days := MonthDateList(year, month);

    calendarDays := [];
    var i := 0;
    while i < firstWeekday
      invariant 0 <= i <= firstWeekday
      invariant calendarDays == Blanks(i)
    {
      calendarDays := calendarDays + [None];
      i := i + 1;
    }

    MonthDateListFacts(year, month);
    var day := 1;
    while day <= daysInMonth
      invariant 1 <= day <= daysInMonth + 1
      invariant calendarDays == Blanks(firstWeekday) + Occupied(days[..day - 1])
    {
      assert days[..day] == days[..day - 1] + [MakeDate(year, month, day)];
      calendarDays := calendarDays + [Some(MakeDate(year, month, day))];
      day := day + 1;
    }
    assert days[..day - 1] == days;

    var remainingDays := GridCells - |calendarDays|;
    i := 0;
    while i < remainingDays
      invariant 0 <= i <= if remainingDays < 0 then 0 else remainingDays
      invariant calendarDays == Blanks(firstWeekday) + Occupied(days) + Blanks(i)
    {
      calendarDays := calendarDays + [None];
      i := i + 1;
    }
  }

  /** getMonthDates (calendar.ts:35-44): days 1..n of the month, at midnight, in order. */
  method GetMonthDates(year: int, month: int) returns (dates: seq<DateTime>)
    ensures dates == MonthDateList(year, month)
  {
    var daysInMonth := GetDaysInMonth(year, month);
    ghost var all := MonthDateList(year, month);
    MonthDateListFacts(year, month);
    dates := [];
    var day := 1;
    while day <= daysInMonth
      invariant 1 <= day <= daysInMonth + 1
      invariant dates == all[..day - 1]
    {
      assert all[..day] == all[..day - 1] + [MakeDate(year, month, day)];
      dates := dates + [MakeDate(year, month, day)];
      day := day + 1;
    }
    assert all[..day - 1] == all;
  }

  // ---------------------------------------------------------------------
  // Ranges and weeks

  /**
   * getDateRange (calendar.ts:47-57): from `startDate`, one day at a time, every
   * date-time not after `endDate`; empty when `endDate` is before `startDate`.
   */
  method GetDateRange(startDate: DateTime, endDate: DateTime) returns (dates: seq<DateTime>)
    requires ValidDateTime(startDate) && ValidDateTime(endDate)
    ensures Timestamp(endDate) < Timestamp(startDate) <==> dates == []
    ensures forall i :: 0 <= i < |dates| ==>
              dates[i] == AddDays(startDate, i) && ValidDateTime(dates[i]) && Timestamp(dates[i]) <= Timestamp(endDate)
    ensures Timestamp(AddDays(startDate, |dates|)) > Timestamp(endDate)
  {
    dates := [];
    var currentDate := startDate;
    while Timestamp(currentDate) <= Timestamp(endDate)
      invariant ValidDateTime(currentDate)
      invariant currentDate == AddDays(startDate, |dates|)
      invariant forall i :: 0 <= i < |dates| ==>
                  dates[i] == AddDays(startDate, i) && ValidDateTime(dates[i]) && Timestamp(dates[i]) <= Timestamp(endDate)
      decreases Timestamp(endDate) - Timestamp(currentDate)
    {
      ghost var before := dates;
      dates := dates + [currentDate];
      forall i | 0 <= i < |dates|
        ensures dates[i] == AddDays(startDate, i) && ValidDateTime(dates[i]) && Timestamp(dates[i]) <= Timestamp(endDate)
      {
        if i < |before| {
          assert dates[i] == before[i];
        }
      }
      AddDaysAdditive(startDate, |before|, 1);
      currentDate := AddDays(currentDate, 1);
    }
    if dates == [] {
      AddDaysZero(startDate);
    }
  }

  /** Consecutive entries of a range are one day apart. */
  lemma RangeStepsByOneDay(startDate: DateTime, dates: seq<DateTime>, i: int)
    requires ValidDateTime(startDate)
    requires forall j :: 0 <= j < |dates| ==> ValidDateTime(dates[j]) && dates[j] == AddDays(startDate, j)
    requires 0 <= i < |dates| - 1
    ensures dates[i + 1] == AddDays(dates[i], 1)
  {
    AddDaysAdditive(startDate, i, 1);
  }

  /** The Sunday that starts the week of `date`: `date.setDate(date.getDate() - date.getDay())`. */
  function WeekStart(date: DateTime): DateTime
    requires ValidDateTime(date)
  {
    SetDate(date, date.date.day - GetDayOfWeek(date))
  }

  /** The week's start is a Sunday, at `date`'s time of day, `getDay()` days before `date`. */
  lemma WeekStartFacts(date: DateTime)
    requires ValidDateTime(date)
    ensures ValidDateTime(WeekStart(date)) && GetDayOfWeek(WeekStart(date)) == 0
    ensures WeekStart(date).minute == date.minute
    ensures WeekStart(date) == SubtractDays(date, GetDayOfWeek(date))
    ensures AddDays(WeekStart(date), GetDayOfWeek(date)) == date
  {
    var k := GetDayOfWeek(date);
    var w := WeekStart(date);
    assert w == AddDays(date, -k);
    assert w == SubtractDays(date, k);
    WeekdayAfterAddDays(date, -k);
    assert GetDayOfWeek(w) == (k + -k) % 7;
    AddSubtractRoundTrip(date, k);
    assert AddDays(w, k) == date;
  }

  /** The seven days from `start` on, at `start`'s time of day. */
  function WeekFrom(start: DateTime): seq<DateTime>
    requires ValidDateTime(start)
  {
    seq(7, i => AddDays(start, i))
  }

  lemma WeekFromAt(start: DateTime, i: int)
    requires ValidDateTime(start) && 0 <= i < 7
    ensures WeekFrom(start)[i] == SetDate(start, start.date.day + i)
  {
  }

  /**
   * getWeekDates (calendar.ts:60-76): the seven days from the week's Sunday
   * on (see WeekDatesFacts for what that means).
   */
  method GetWeekDates(date: DateTime) returns (weekDates: seq<DateTime>)
    requires ValidDateTime(date)
    ensures weekDates == WeekFrom(WeekStart(date))
  {
    var day := GetDayOfWeek(date);
    var diff := date.date.day - day;
    var weekStart := SetDate(date, diff);
    assert weekStart == WeekStart(date);
    ghost var week := WeekFrom(weekStart);

    weekDates := [];
    var i := 0;
    while i < 7
      invariant 0 <= i <= 7 && weekDates == week[..i]
    {
      var currentDate := SetDate(weekStart, weekStart.date.day + i);
      WeekFromAt(weekStart, i);
      assert week[..i + 1] == week[..i] + [currentDate];
      weekDates := weekDates + [currentDate];
      i := i + 1;
    }
    assert week[..7] == week;
  }

  /**
   * The week of `date` runs Sunday to Saturday: day i of it falls on weekday
   * i, keeps `date`'s time of day, and `date` itself is day `getDay()`.
   */
  lemma WeekDatesFacts(date: DateTime)
    requires ValidDateTime(date)
    ensures |WeekFrom(WeekStart(date))| == 7
    ensures forall i :: 0 <= i < 7 ==> ValidDateTime(WeekFrom(WeekStart(date))[i])
    ensures forall i :: 0 <= i < 7 ==> GetDayOfWeek(WeekFrom(WeekStart(date))[i]) == i
    ensures forall i :: 0 <= i < 7 ==> WeekFrom(WeekStart(date))[i].minute == date.minute
    ensures WeekFrom(WeekStart(date))[GetDayOfWeek(date)] == date
  {
    WeekStartFacts(date);
    WeekDaysWeekdays(WeekStart(date));
  }

  /** From a Sunday, the days 0 .. 6 after it fall on weekdays 0 .. 6. */
  lemma WeekDaysWeekdays(sunday: DateTime)
    requires ValidDateTime(sunday) && GetDayOfWeek(sunday) == 0
    ensures forall i :: 0 <= i < 7 ==> GetDayOfWeek(AddDays(sunday, i)) == i
  {
    forall i | 0 <= i < 7
      ensures GetDayOfWeek(AddDays(sunday, i)) == i
    {
      WeekdayAfterAddDays(sunday, i);
      DivisionSmall(i, 7);
    }
  }

  /** The week starts on its Sunday, and consecutive week days are one day apart. */
  lemma WeekIsConsecutive(date: DateTime, i: int)
    requires ValidDateTime(date) && 0 <= i < 6
    ensures WeekFrom(WeekStart(date))[0] == WeekStart(date)
    ensures WeekFrom(WeekStart(date))[i + 1] == AddDays(WeekFrom(WeekStart(date))[i], 1)
  {
    var w := WeekStart(date);
    assert WeekFrom(w)[0] == AddDays(w, 0);
    AddDaysZero(w);
    assert WeekFrom(w)[i] == AddDays(w, i) && WeekFrom(w)[i + 1] == AddDays(w, i + 1);
    AddDaysAdditive(w, i, 1);
  }

  // ---------------------------------------------------------------------
  // Time-slot labels

  /** JavaScript's `%`: the remainder takes the sign of the dividend. */
  function JsRemainder(a: int, b: int): int
    requires b > 0
  {
    if a >= 0 then a % b else -((-a) % b)
  }

  /** The hour on a 12-hour clock: 12 where `hour % 12` is 0, otherwise `hour % 12`. */
  function TwelveHour(hour: int): int
  {
    var r := JsRemainder(hour, 12);
    if r == 0 then 12 else r
  }

  /** For the hours of a day the 12-hour clock shows 1 .. 12, agreeing with the hour modulo 12. */
  lemma TwelveHourRange(hour: int)
    requires hour >= 0
    ensures 1 <= TwelveHour(hour) <= 12 && TwelveHour(hour) % 12 == hour % 12
  {
  }

  /** The minutes, zero-padded to two digits. */
  function MinuteText(minute: int): string
  {
    PadStart(IntToString(minute), 2, '0')
  }

  /** A minute of the hour is shown as exactly two digits that read back as that minute. */
  lemma MinuteTextDigits(minute: int)
    requires 0 <= minute < 60
    ensures var s := MinuteText(minute);
      |s| == 2 && IsDigit(s[0]) && IsDigit(s[1]) && DigitsValue(s) == minute
  {
    var s := MinuteText(minute);
    NatToStringRoundTrip(minute);
    PadStartFacts(IntToString(minute), 2, '0');
    if minute < 10 {
      assert s == "0" + NatToString(minute);
      assert s[..1] == "0";
    } else {
      assert s == NatToString(minute);
    }
  }

  function Meridiem(hour: int): string
  {
    if hour >= 12 then "PM" else "AM"
  }

  /** One label of getTimeSlots: `h:mm AM` / `h:mm PM`. */
  function SlotLabel(hour: int, minute: int): string {
    IntToString(TwelveHour(hour)) + ":" + MinuteText(minute) + " " + Meridiem(hour)
  }

  /** The minutes the inner loop visits: from `minute` on in steps of `minuteInterval`, while below 60. */
  function HourMinutes(minute: int, minuteInterval: int): seq<int>
    requires minuteInterval > 0
    decreases 60 - minute
  {
    if minute >= 60 then [] else [minute] + HourMinutes(minute + minuteInterval, minuteInterval)
  }

  /** A slot of the day: the hour and the minute its label shows. */
  datatype SlotTime = SlotTime(hour: int, minute: int)

  /** The slots of one hour at the given minutes. */
  function HourTimes(hour: int, minutes: seq<int>): (times: seq<SlotTime>)
    ensures |times| == |minutes|
    ensures forall i :: 0 <= i < |minutes| ==> times[i] == SlotTime(hour, minutes[i])
  {
    if minutes == [] then [] else [SlotTime(hour, minutes[0])] + HourTimes(hour, minutes[1..])
  }

  /** The slots of hours startHour .. endHour-1, hour by hour, each hour minute by minute. */
  function SlotTimes(startHour: int, endHour: int, minuteInterval: int): seq<SlotTime>
    requires minuteInterval > 0
    decreases endHour - startHour
  {
    if startHour >= endHour then []
    else HourTimes(startHour, HourMinutes(0, minuteInterval)) + SlotTimes(startHour + 1, endHour, minuteInterval)
  }

  /** The label of each slot, in order. */
  function Labels(times: seq<SlotTime>): seq<string>
  {
    seq(|times|, i requires 0 <= i < |times| => SlotLabel(times[i].hour, times[i].minute))
  }

  /** getTimeSlots (calendar.ts:79-93). */
  method GetTimeSlots(startHour: int := 8, endHour: int := 18, minuteInterval: int := 30) returns (slots: seq<string>)
    requires minuteInterval > 0
    ensures slots == Labels(SlotTimes(startHour, endHour, minuteInterval))
  {
    slots := [];
    ghost var times: seq<SlotTime> := [];
    ghost var total := SlotTimes(startHour, endHour, minuteInterval);
    var hour := startHour;
    while hour < endHour
      invariant slots == Labels(times)
      invariant times + SlotTimes(hour, endHour, minuteInterval) == total
      decreases endHour - hour
    {
      HourEntry(times, hour, endHour, minuteInterval, total);
      ghost var pending := SlotTimes(hour + 1, endHour, minuteInterval);
      var minute := 0;
      while minute < 60
        invariant slots == Labels(times)
        invariant times + (HourTimes(hour, HourMinutes(minute, minuteInterval)) + pending) == total
        decreases 60 - minute
      {
        var formattedHour := TwelveHour(hour);
        var period := Meridiem(hour);
        var formattedMinute := MinuteText(minute);
        var text := IntToString(formattedHour) + ":" + formattedMinute + " " + period;
        InnerStep(times, hour, minute, minuteInterval, pending, total);
        LabelStep(slots, times, SlotTime(hour, minute), text);
        slots := slots + [text];
        times := times + [SlotTime(hour, minute)];
        minute := minute + minuteInterval;
      }
      HourExit(times, hour, minute, minuteInterval, pending, total);
      hour := hour + 1;
    }
    assert times + SlotTimes(hour, endHour, minuteInterval) == times;
  }

  // The three steps of the loop invariant of GetTimeSlots: entering an hour, one minute, leaving the hour.

  lemma LabelStep(slots: seq<string>, times: seq<SlotTime>, t: SlotTime, text: string)
    requires slots == Labels(times) && text == SlotLabel(t.hour, t.minute)
    ensures slots + [text] == Labels(times + [t])
  {
  }

  lemma HourEntry(times: seq<SlotTime>, hour: int, endHour: int, minuteInterval: int, total: seq<SlotTime>)
    requires minuteInterval > 0 && hour < endHour
    requires times + SlotTimes(hour, endHour, minuteInterval) == total
    ensures times + (HourTimes(hour, HourMinutes(0, minuteInterval)) + SlotTimes(hour + 1, endHour, minuteInterval)) == total
  {
  }

  lemma InnerStep(times: seq<SlotTime>, hour: int, minute: int, minuteInterval: int, pending: seq<SlotTime>, total: seq<SlotTime>)
    requires minuteInterval > 0 && minute < 60
    requires times + (HourTimes(hour, HourMinutes(minute, minuteInterval)) + pending) == total
    ensures (times + [SlotTime(hour, minute)]) + (HourTimes(hour, HourMinutes(minute + minuteInterval, minuteInterval)) + pending) == total
  {
    HourTimesStep(hour, minute, minuteInterval);
    var later := HourTimes(hour, HourMinutes(minute + minuteInterval, minuteInterval));
    assert times + ([SlotTime(hour, minute)] + later + pending) == (times + [SlotTime(hour, minute)]) + (later + pending);
  }

  lemma HourExit(times: seq<SlotTime>, hour: int, minute: int, minuteInterval: int, pending: seq<SlotTime>, total: seq<SlotTime>)
    requires minuteInterval > 0 && minute >= 60
    requires times + (HourTimes(hour, HourMinutes(minute, minuteInterval)) + pending) == total
    ensures times + pending == total
  {
  }

  lemma HourTimesStep(hour: int, minute: int, minuteInterval: int)
    requires minuteInterval > 0 && minute < 60
    ensures HourTimes(hour, HourMinutes(minute, minuteInterval))
         == [SlotTime(hour, minute)] + HourTimes(hour, HourMinutes(minute + minuteInterval, minuteInterval))
  {
    var rest := HourMinutes(minute + minuteInterval, minuteInterval);
    var ms := HourMinutes(minute, minuteInterval);
    assert ms == [minute] + rest;
    assert ms[1..] == rest;
  }

  /** From `minute` on, an hour visits ⌈(60 - minute) / minuteInterval⌉ minutes, in increasing order. */
  lemma {:induction false} HourMinutesCount(minute: int, minuteInterval: int)
    requires minuteInterval > 0 && 0 <= minute
    ensures |HourMinutes(minute, minuteInterval)| == if minute >= 60 then 0 else (59 - minute) / minuteInterval + 1
    decreases 60 - minute
  {
    if minute < 60 {
      HourMinutesCount(minute + minuteInterval, minuteInterval);
      assert |HourMinutes(minute, minuteInterval)| == 1 + |HourMinutes(minute + minuteInterval, minuteInterval)|;
      if minute + minuteInterval >= 60 {
        DivisionSmall(59 - minute, minuteInterval);
      } else {
        DivisionStep(59 - minute, minuteInterval);
      }
    }
  }

  /** The minutes of an hour rise strictly and stay in minute..59. */
  lemma {:induction false} HourMinutesAscending(minute: int, minuteInterval: int)
    requires minuteInterval > 0
    ensures forall i :: 0 <= i < |HourMinutes(minute, minuteInterval)| ==>
      minute <= HourMinutes(minute, minuteInterval)[i] < 60
    ensures forall i, j :: 0 <= i < j < |HourMinutes(minute, minuteInterval)| ==>
      HourMinutes(minute, minuteInterval)[i] < HourMinutes(minute, minuteInterval)[j]
    decreases 60 - minute
  {
    if minute < 60 {
      var rest := HourMinutes(minute + minuteInterval, minuteInterval);
      HourMinutesAscending(minute + minuteInterval, minuteInterval);
      var ms := HourMinutes(minute, minuteInterval);
      assert ms == [minute] + rest;
      forall i | 0 <= i < |ms|
        ensures minute <= ms[i] < 60
      {
        if i > 0 {
          assert ms[i] == rest[i - 1];
          assert minute + minuteInterval <= rest[i - 1] < 60;
        }
      }
      forall i, j | 0 <= i < j < |ms|
        ensures ms[i] < ms[j]
      {
        assert ms[j] == rest[j - 1];
        assert minute + minuteInterval <= rest[j - 1];
        if i > 0 {
          assert ms[i] == rest[i - 1];
        }
      }
    }
  }

  /** getTimeSlots yields (endHour - startHour) · ⌈60 / minuteInterval⌉ labels. */
  lemma {:induction false} TimeSlotCount(startHour: int, endHour: int, minuteInterval: int)
    requires minuteInterval > 0
    ensures |SlotTimes(startHour, endHour, minuteInterval)|
         == (if startHour < endHour then endHour - startHour else 0) * (59 / minuteInterval + 1)
    decreases endHour - startHour
  {
    if startHour < endHour {
      HourMinutesCount(0, minuteInterval);
      TimeSlotCount(startHour + 1, endHour, minuteInterval);
      var per := 59 / minuteInterval + 1;
      assert (endHour - startHour) * per == per + (endHour - startHour - 1) * per;
    }
  }

  /** Slot k is hour `startHour + k / per` at that hour's `(k % per)`-th minute, `per` being the slots per hour. */
  lemma {:induction false} TimeSlotAt(startHour: int, endHour: int, minuteInterval: int, k: int)
    requires minuteInterval > 0 && 0 <= k < |SlotTimes(startHour, endHour, minuteInterval)|
    ensures 0 < |HourMinutes(0, minuteInterval)|
    ensures SlotTimes(startHour, endHour, minuteInterval)[k]
      == SlotTime(startHour + k / |HourMinutes(0, minuteInterval)|,
                  HourMinutes(0, minuteInterval)[k % |HourMinutes(0, minuteInterval)|])
    decreases endHour - startHour
  {
    var minutes := HourMinutes(0, minuteInterval);
    var per := |minutes|;
    var rest := SlotTimes(startHour + 1, endHour, minuteInterval);
    assert SlotTimes(startHour, endHour, minuteInterval) == HourTimes(startHour, minutes) + rest;
    if k < per {
      DivisionSmall(k, per);
    } else {
      TimeSlotAt(startHour + 1, endHour, minuteInterval, k - per);
      DivisionStep(k, per);
    }
  }

  /** Every slot lies in startHour .. endHour-1 and in minutes 0 .. 59. */
  lemma TimeSlotInRange(startHour: int, endHour: int, minuteInterval: int, j: int)
    requires minuteInterval > 0 && 0 <= j < |SlotTimes(startHour, endHour, minuteInterval)|
    ensures var t := SlotTimes(startHour, endHour, minuteInterval)[j];
      startHour <= t.hour < endHour && 0 <= t.minute < 60
  {
    TimeSlotAt(startHour, endHour, minuteInterval, j);
    TimeSlotCount(startHour, endHour, minuteInterval);
    HourMinutesCount(0, minuteInterval);
    var minutes := HourMinutes(0, minuteInterval);
    var per := |minutes|;
    assert startHour < endHour;
    QuotientBelow(j, per, endHour - startHour);
    HourMinutesAscending(0, minuteInterval);
    assert 0 <= minutes[j % per] < 60;
  }

  /** The slots run in time order: a later index is a strictly later time of day. */
  lemma TimeSlotsOrdered(startHour: int, endHour: int, minuteInterval: int, j: int, k: int)
    requires minuteInterval > 0 && 0 <= j < k < |SlotTimes(startHour, endHour, minuteInterval)|
    ensures var a, b := SlotTimes(startHour, endHour, minuteInterval)[j], SlotTimes(startHour, endHour, minuteInterval)[k];
      a.hour * 60 + a.minute < b.hour * 60 + b.minute
  {
    TimeSlotAt(startHour, endHour, minuteInterval, j);
    TimeSlotAt(startHour, endHour, minuteInterval, k);
    var minutes := HourMinutes(0, minuteInterval);
    var per := |minutes|;
    HourMinutesAscending(0, minuteInterval);
    assert 0 <= minutes[j % per] < 60 && 0 <= minutes[k % per] < 60;
    QuotientMonotone(j, k, per);
    if j / per == k / per {
      QuotientSameRemainder(j, k, per);
      assert minutes[j % per] < minutes[k % per];
    }
  }

  /** The default call's times: 20 slots, on the hour and the half hour, from 8:00 through 17:30. */
  lemma DefaultSlotTimes()
    ensures |SlotTimes(8, 18, 30)| == 20
    ensures SlotTimes(8, 18, 30)[0] == SlotTime(8, 0)
    ensures SlotTimes(8, 18, 30)[7] == SlotTime(11, 30)
    ensures SlotTimes(8, 18, 30)[8] == SlotTime(12, 0)
    ensures SlotTimes(8, 18, 30)[10] == SlotTime(13, 0)
    ensures SlotTimes(8, 18, 30)[19] == SlotTime(17, 30)
  {
    TimeSlotCount(8, 18, 30);
    assert HourMinutes(0, 30) == [0, 30];
    TimeSlotAt(8, 18, 30, 0);
    TimeSlotAt(8, 18, 30, 7);
    TimeSlotAt(8, 18, 30, 8);
    TimeSlotAt(8, 18, 30, 10);
    TimeSlotAt(8, 18, 30, 19);
  }

  /** The minute texts of the default labels. */
  lemma DefaultMinuteTexts()
    ensures MinuteText(0) == "00" && MinuteText(30) == "30"
  {
    OneDigitText(0, '0');
    OneDigitText(3, '3');
    TwoDigitText(30, "3", '0');
    assert MinuteText(0) == Repeat('0', 1) + "0";
  }

  /** The hour texts of the default labels. */
  lemma DefaultHourTexts()
    ensures IntToString(1) == "1" && IntToString(5) == "5" && IntToString(8) == "8"
    ensures IntToString(11) == "11" && IntToString(12) == "12"
  {
    OneDigitText(1, '1');
    OneDigitText(2, '2');
    OneDigitText(5, '5');
    OneDigitText(8, '8');
    TwoDigitText(11, "1", '1');
    TwoDigitText(12, "1", '2');
  }

  /** The five labels the default call is pinned to. */
  lemma DefaultLabels()
    ensures SlotLabel(8, 0) == "8:00 AM" && SlotLabel(11, 30) == "11:30 AM"
    ensures SlotLabel(12, 0) == "12:00 PM" && SlotLabel(13, 0) == "1:00 PM" && SlotLabel(17, 30) == "5:30 PM"
  {
    DefaultMinuteTexts();
    DefaultHourTexts();
    assert TwelveHour(8) == 8 && TwelveHour(11) == 11 && TwelveHour(12) == 12;
    assert TwelveHour(13) == 1 && TwelveHour(17) == 5;
    SlotLabelText(8, 0, 8, "8", "AM", "00", "8:00 AM");
    SlotLabelText(11, 30, 11, "11", "AM", "30", "11:30 AM");
    SlotLabelText(12, 0, 12, "12", "PM", "00", "12:00 PM");
    SlotLabelText(13, 0, 1, "1", "PM", "00", "1:00 PM");
    SlotLabelText(17, 30, 5, "5", "PM", "30", "5:30 PM");
  }

  /** A label spelled out from its parts. */
  lemma SlotLabelText(hour: int, minute: int, h: int, shown: string, period: string, mm: string, text: string)
    requires TwelveHour(hour) == h && IntToString(h) == shown && Meridiem(hour) == period && MinuteText(minute) == mm
    requires shown + ":" + mm + " " + period == text
    ensures SlotLabel(hour, minute) == text
  {
  }

  lemma OneDigitText(d: int, c: char)
    requires 0 <= d < 10 && "0123456789"[d] == c
    ensures NatToString(d) == [c] && IntToString(d) == [c]
  {
  }

  lemma TwoDigitText(n: int, high: string, low: char)
    requires 10 <= n < 100 && NatToString(n / 10) == high && "0123456789"[n % 10] == low
    ensures NatToString(n) == high + [low] && IntToString(n) == high + [low]
  {
  }

  /** The default call: 20 labels, from 8:00 AM through 12:00 PM at noon to 5:30 PM. */
  lemma DefaultTimeSlots()
    ensures |Labels(SlotTimes(8, 18, 30))| == 20
    ensures Labels(SlotTimes(8, 18, 30))[0] == "8:00 AM"
    ensures Labels(SlotTimes(8, 18, 30))[7] == "11:30 AM"
    ensures Labels(SlotTimes(8, 18, 30))[8] == "12:00 PM"
    ensures Labels(SlotTimes(8, 18, 30))[10] == "1:00 PM"
    ensures Labels(SlotTimes(8, 18, 30))[19] == "5:30 PM"
  {
    DefaultSlotTimes();
    DefaultLabels();
  }

}
