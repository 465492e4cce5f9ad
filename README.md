# Scheduling core of a medical calendar application, in Dafny

This project models the small calendar and scheduling core of a single-practitioner
medical scheduling web application and proves properties of it:

- **Civil-date arithmetic** (`client/src/lib/utils/date.ts`): days in a month by the
  "day 0 of the next month" trick, first and last day of a month, adding and
  subtracting days with month and year rollover, the weekday, and same-day comparison.
  A JavaScript `Date` becomes `Dates.DateTime`: a proleptic Gregorian civil date
  (year, 0-based month, day) plus the minute of the day, in one fixed local clock.
  `DayNumber` counts days from 0000-01-01 and `Timestamp` counts minutes. The
  normalising `new Date(y, m, d)` and `setDate` are written out by shifting whole
  days from a valid date. As in JavaScript, `new Date` reads a year argument in
  0..99 as 1900..1999 before it applies month overflow; `setDate` does not.
- **Month grid and ranges** (`client/src/lib/calendar.ts`): the 42-cell month grid,
  the dates of a month, an inclusive date range, the Sunday-started week and the
  12-hour time-slot labels. Each of these is a loop that builds an array. Each is
  modelled as a Dafny method with loop invariants and proved equal to a
  specification function. Lemmas about those functions state the shape of the result.
- **The in-memory store** (`server/storage.ts`, class `MemStorage`): three
  insertion-ordered maps and three id counters. The model is a Dafny class whose
  fields the create, update and delete methods reassign. Its invariant says that
  every record sits under its own id and that every event and note id is below its
  counter. The read queries (`filter` / `sort` / `slice` / `find` pipelines) are
  functions on sequences. A JavaScript `Map` is `KeyedMaps.KeyedMap`, a dictionary
  that also remembers key insertion order. The records of `shared/schema.ts` are the
  datatypes of `Schema`.
- **The month view** (`client/src/components/Calendar/CalendarView.tsx`): month
  navigation and date selection, as a class holding the current month, year and
  selected date, plus the per-cell event filter and what a cell shows.
- **The day view** (`client/src/components/Calendar/DailySchedule.tsx`): the eleven
  hour rows, the events listed per row, the card style per event type, and the
  participant count.

Shared building blocks are `Seqs` (`filter`, `find`, `slice`), `Sorting` (the stable
sort behind `Array.prototype.sort` with a key comparator), `Strings` (decimal text,
`padStart`, `split`, `join`) and `Arith` (division facts).

Three facts about the code that the model keeps as written:

- `getDateRange` with an end before its start returns an empty list: the loop
  never runs.
- A 31-day month that starts on a Saturday leaves 5 trailing blank cells
  (6 + 31 = 37 of 42). `Calendar.GridShape` proves that at least 5 trailing cells
  are always blank.
- Seeding leaves the counters at 1 for users, 9 for events and 2 for notes. The
  demo user already holds id 1, so the first new user also gets id 1.

## Model

| member | source | states |
|---|---|---|
| Dates.GetDaysInMonth | client/src/lib/utils/date.ts:24-26 | the value of `new Date(y, m + 1, 0).getDate()` is the Gregorian length of the month that (y, m) normalises to |
| Dates.DayZeroOfNextMonth | client/src/lib/utils/date.ts:25 | day 0 of the next month is the last day of the normalised month itself |
| Dates.DaysInMonthGregorian | client/src/lib/utils/date.ts:24-26 | for months 0..11: 31 days for Jan, Mar, May, Jul, Aug, Oct, Dec; 30 days for Apr, Jun, Sep, Nov; February has 29 days iff the year is divisible by 4 and either not by 100 or by 400, else 28; a year in 0..99 counts as 1900..1999, so there February has 29 days iff the year is a non-zero multiple of 4 |
| Dates.TwoDigitYears | client/src/lib/utils/date.ts:24-26 | `getDaysInMonth(0, 1)` is 28 (February 1900), February 1900 has 28 days and February 2000 has 29, and the first of month 0 of year 50 is a Sunday (1 January 1950) |
| Dates.FullYear | client/src/lib/utils/date.ts:25 | `new Date(y, ...)` reads a year argument in 0..99 as 1900..1999 and keeps every other year |
| Dates.MakeDate | client/src/lib/utils/date.ts:44 | `new Date(y, m, d)` always yields a real date at midnight, whatever the month and day overflow; the year is first read as JavaScript does (0..99 become 1900..1999) |
| Dates.MakeDateInMonth | client/src/lib/calendar.ts:19 | with a day inside the normalised month, `new Date(y, m, d)` is exactly that civil date |
| Dates.GetFirstDayOfMonth | client/src/lib/utils/date.ts:43-45 | the result is day 1 of the normalised month, at midnight |
| Dates.GetLastDayOfMonth | client/src/lib/utils/date.ts:48-50 | the result is in the normalised month, at midnight, and its day of the month equals `getDaysInMonth` |
| Dates.Succ | client/src/lib/utils/date.ts:31 | the calendar successor is a valid date exactly one day number later |
| Dates.Pred | client/src/lib/utils/date.ts:38 | the calendar predecessor is a valid date exactly one day number earlier |
| Dates.ShiftDays | client/src/lib/utils/date.ts:31 | shifting by n days yields a valid date exactly n day numbers away, across month and year ends |
| Dates.SetDate | client/src/lib/utils/date.ts:31 | `setDate` keeps the time of day and always yields a valid date |
| Dates.SetDateInMonth | client/src/lib/utils/date.ts:31 | `setDate` with a day inside the month only changes the day of the month |
| Dates.AddDays | client/src/lib/utils/date.ts:29-33 | the result is valid, keeps the time of day, and lies exactly `days` whole days later |
| Dates.SubtractDays | client/src/lib/utils/date.ts:36-40 | the result is valid, keeps the time of day, and lies exactly `days` whole days earlier |
| Dates.AddDaysZero | client/src/lib/utils/date.ts:29-33 | adding 0 days returns the same date and time |
| Dates.AddSubtractRoundTrip | client/src/lib/utils/date.ts:29-40 | subtracting n days after adding n, and adding after subtracting, give back the original |
| Dates.AddDaysAdditive | client/src/lib/utils/date.ts:29-33 | adding a days and then b days is adding a + b days |
| Dates.AddOneDayIsSucc | client/src/lib/utils/date.ts:29-33 | adding one day moves to the calendar successor and keeps the time |
| Dates.AddDaysRollover | client/src/lib/utils/date.ts:29-33 | Dec 31 + 1 day is Jan 1 of the next year; Jan 31 + 1 day is Feb 1; Feb 28 + 1 day is Feb 29 in a leap year and Mar 1 otherwise |
| Dates.Weekday | client/src/lib/utils/date.ts:19-21 | the weekday of a date is in 0..6 |
| Dates.GetDayOfWeek | client/src/lib/utils/date.ts:19-21 | `getDay()` is in 0..6 (0 is Sunday) |
| Dates.DayOfWeekFromTimestamp | client/src/lib/utils/date.ts:19-21 | the weekday depends on the instant only: whole days since 0000-01-01, a Saturday, modulo 7 |
| Dates.Timestamp | server/storage.ts:239 | `getTime()` to the minute: day number times 1440 plus the minute of the day; `Dates.TimestampInjective` proves distinct valid instants have distinct timestamps |
| Dates.WeekdayAfterAddDays | client/src/lib/utils/date.ts:19-33 | adding n days advances the weekday by n modulo 7 |
| Dates.WeekdayAfterOneDay | client/src/lib/utils/date.ts:19-33 | the weekday after one day is (weekday + 1) mod 7 |
| Dates.KnownWeekdays | client/src/lib/utils/date.ts:19-21 | 1970-01-01 and 2024-02-01 are Thursdays |
| Dates.IsSameDay | client/src/lib/utils/date.ts:14-16 | two instants are the same day iff their calendar dates are equal; `Dates.SameDayMeaning` and `Dates.SameDayIsEquivalence` prove what that means |
| Dates.IsToday | client/src/lib/utils/date.ts:53-55 | an instant is today iff it falls on the calendar day of the given "now"; `Dates.TodayFacts` proves it |
| Dates.SameDayIsEquivalence | client/src/lib/utils/date.ts:14-16 | `isSameDay` is reflexive, symmetric and transitive |
| Dates.SameDayMeaning | client/src/lib/utils/date.ts:14-16 | `isSameDay` holds iff year, month and day agree, iff both instants fall in the same whole day of minutes |
| Dates.AcrossMidnightNotSameDay | client/src/lib/utils/date.ts:14-16 | 23:59 and 00:01 of the next day are two minutes apart but not the same day |
| Dates.TodayFacts | client/src/lib/utils/date.ts:53-55 | with "now" passed in, any time of the current day is today, and the same time one day later or earlier is not |
| Calendar.GenerateCalendarDays | client/src/lib/calendar.ts:4-32 | the three push loops build exactly the grid `CalendarGrid(year, month)` |
| Calendar.CalendarGrid | client/src/lib/calendar.ts:4-31 | the grid as a value: k blanks, the month's dates, then blanks up to 42; its shape is proved by `Calendar.GridShape` |
| Calendar.LeadingBlanks | client/src/lib/calendar.ts:7 | the number of leading blanks, the weekday of the 1st, is in 0..6 |
| Calendar.GridShape | client/src/lib/calendar.ts:4-31 | the grid has exactly 42 cells: k blanks (k is the weekday of the 1st), then days 1..n of the month in order (n is `getDaysInMonth`), then blanks only; the trailing pad 42 - (k + n) is at least 5 |
| Calendar.GridBounds | client/src/lib/calendar.ts:24-29 | k <= 6 and 28 <= n <= 31, so the trailing pad is never negative |
| Calendar.GridPresentIsMonthDates | client/src/lib/calendar.ts:35-44 | the non-blank cells of the grid, in order, are exactly `getMonthDates`, and there are `getDaysInMonth` of them |
| Calendar.GridColumnIsWeekday | client/src/lib/calendar.ts:7-20 | every date in the grid sits in the column of its weekday |
| Calendar.LeapFebruary2024Grid | client/src/lib/calendar.ts:4-31 | February 2024: 4 leading blanks (it starts on a Thursday), 29 dates, 42 cells |
| Calendar.GetMonthDates | client/src/lib/calendar.ts:35-44 | the loop builds exactly `MonthDateList(year, month)` |
| Calendar.MonthDateList | client/src/lib/calendar.ts:35-44 | days 1..getDaysInMonth of the normalised month at midnight; `Calendar.MonthDateListFacts` proves each is `new Date(year, month, day)` |
| Calendar.MonthDateListFacts | client/src/lib/calendar.ts:35-44 | there are `getDaysInMonth` dates; the i-th is `new Date(y, m, i + 1)`; each is the day after the previous |
| Calendar.GetDateRange | client/src/lib/calendar.ts:47-57 | empty iff end < start; the i-th date is start + i days and is <= end; the day after the last one is > end |
| Calendar.RangeStepsByOneDay | client/src/lib/calendar.ts:51-54 | consecutive dates of the range are one day apart |
| Calendar.WeekStart | client/src/lib/calendar.ts:61-65 | `setDate(getDate() - getDay())` on a copy of the date; `Calendar.WeekStartFacts` proves it is the Sunday on or before it |
| Calendar.WeekFrom | client/src/lib/calendar.ts:68-73 | the seven days from a start; `Calendar.WeekFromAt` ties each to the loop's `setDate` |
| Calendar.WeekStartFacts | client/src/lib/calendar.ts:61-65 | the week start is a Sunday with the same time of day; it is the date minus its weekday, and the date is the week start plus its weekday |
| Calendar.WeekFromAt | client/src/lib/calendar.ts:69-73 | the i-th day of the week is `setDate(weekStart.getDate() + i)` |
| Calendar.GetWeekDates | client/src/lib/calendar.ts:60-76 | the loop builds exactly the week from the Sunday on or before the date |
| Calendar.WeekDatesFacts | client/src/lib/calendar.ts:60-76 | 7 valid dates; the i-th has weekday i and the date's time of day; the date itself sits at index `getDayOfWeek(date)` |
| Calendar.WeekDaysWeekdays | client/src/lib/calendar.ts:69-73 | the days 0..6 after a Sunday have weekdays 0..6 |
| Calendar.WeekIsConsecutive | client/src/lib/calendar.ts:69-73 | the week's first entry is its Sunday, and each later entry is the day after the previous one |
| Calendar.JsRemainder | client/src/lib/calendar.ts:84 | JavaScript's `%`: the remainder takes the sign of the dividend, unlike Dafny's |
| Calendar.TwelveHour | client/src/lib/calendar.ts:84 | 12 where `hour % 12` is 0, else `hour % 12`; `Calendar.TwelveHourRange` proves the shown hour is in 1..12 |
| Calendar.TwelveHourRange | client/src/lib/calendar.ts:84 | the shown hour is in 1..12 and agrees with the hour modulo 12 (12 where `hour % 12` is 0) |
| Calendar.MinuteTextDigits | client/src/lib/calendar.ts:86 | a minute 0..59 is shown as exactly two digits that read back as that minute |
| Calendar.MinuteText | client/src/lib/calendar.ts:86 | `minute.toString().padStart(2, '0')`; `Calendar.MinuteTextDigits` proves it is two digits reading back as the minute |
| Calendar.Meridiem | client/src/lib/calendar.ts:85 | "PM" iff the hour is at least 12, else "AM" |
| Calendar.SlotLabel | client/src/lib/calendar.ts:84-88 | the label `h:mm AM` or `h:mm PM` of one slot; `Calendar.DefaultLabels` pins its values |
| Calendar.SlotTimes | client/src/lib/calendar.ts:82-83 | the (hour, minute) pairs the two loops visit, hour by hour; `Calendar.TimeSlotCount`, `Calendar.TimeSlotAt` and `Calendar.TimeSlotsOrdered` prove their number, position and order |
| Calendar.Labels | client/src/lib/calendar.ts:88 | the label of each slot, in slot order |
| Calendar.GetTimeSlots | client/src/lib/calendar.ts:79-93 | the nested loops build exactly the labels of `SlotTimes(startHour, endHour, minuteInterval)`, in that order |
| Calendar.HourMinutesCount | client/src/lib/calendar.ts:83 | the inner loop runs ceil((60 - m) / interval) times from minute m |
| Calendar.HourMinutesAscending | client/src/lib/calendar.ts:83 | the inner loop's minutes ascend strictly and stay within [m, 60) |
| Calendar.TimeSlotCount | client/src/lib/calendar.ts:79-93 | there are (endHour - startHour) * ceil(60 / interval) labels, and none when endHour <= startHour |
| Calendar.TimeSlotAt | client/src/lib/calendar.ts:82-89 | label k is for hour startHour + k div c and the (k mod c)-th minute, where c is the number of labels per hour |
| Calendar.TimeSlotInRange | client/src/lib/calendar.ts:82-83 | every label's hour is in [startHour, endHour) and its minute in 0..59 |
| Calendar.TimeSlotsOrdered | client/src/lib/calendar.ts:82-89 | the labels are strictly ordered by hour, then minute |
| Calendar.DefaultSlotTimes | client/src/lib/calendar.ts:79 | the default call has 20 slots: 8:00 first, 11:30 7th, 12:00 8th, 13:00 10th, 17:30 last |
| Calendar.DefaultLabels | client/src/lib/calendar.ts:84-88 | those slots read "8:00 AM", "11:30 AM", "12:00 PM", "1:00 PM" and "5:30 PM" |
| Calendar.DefaultTimeSlots | client/src/lib/calendar.ts:79-93 | the default call yields 20 labels from "8:00 AM" through "12:00 PM" to "5:30 PM" |
| Strings.NatToString | client/src/lib/calendar.ts:86 | `toString()` of a natural number is a non-empty string of decimal digits, one digit exactly below 10, with no leading zero |
| Strings.NatToStringRoundTrip | client/src/lib/calendar.ts:86 | reading those digits back gives the number |
| Strings.PadStartFacts | client/src/lib/calendar.ts:86 | `padStart` reaches the width by filling in front and keeps the original as the tail |
| Strings.IntToString | client/src/lib/calendar.ts:86 | `toString()` of an integer: a minus sign before the numeral of a negative number, else `Strings.NatToString` |
| Strings.PadStart | client/src/lib/calendar.ts:86 | `padStart(width, fill)`; `Strings.PadStartFacts` proves the padded length and that the original is the tail |
| Strings.Join | client/src/components/Calendar/DailySchedule.tsx:115 | `join(sep)`, the inverse `Strings.SplitJoinRoundTrip` proves for `split` |
| Strings.Split | client/src/components/Calendar/DailySchedule.tsx:115 | `split` yields at least one and at most length + 1 pieces |
| Strings.SplitPieces | client/src/components/Calendar/DailySchedule.tsx:115 | `split` yields one piece more than there are separators, and no piece contains one |
| Strings.SplitJoinRoundTrip | client/src/components/Calendar/DailySchedule.tsx:115 | joining the pieces with the separator gives back the string |
| Seqs.Filter | server/storage.ts:231-233 | `filter` never grows the list, and everything it keeps satisfies the test |
| Seqs.FilterMembers | server/storage.ts:231-233 | `filter` keeps every satisfying element as often as it occurs, and nothing else |
| Seqs.FilterConcat | client/src/components/Calendar/CalendarView.tsx:71-74 | filtering keeps the input order: filtering a concatenation filters each part in turn |
| Seqs.Find | server/storage.ts:276-278 | `find` fails iff no element satisfies the test; otherwise it returns a satisfying member |
| Seqs.FindIsFirstOfFilter | server/storage.ts:276-278 | `find` returns the first element that `filter` would keep |
| Seqs.SliceEnd | server/storage.ts:240 | the end index of `slice(0, end)`: `end` itself when in [0, length], the length when beyond it, length + end for a negative `end` that reaches back into the list, and 0 when it reaches past the front |
| Seqs.SlicePrefix | server/storage.ts:240 | `slice(0, end)` is a prefix of length min(end, length) for end >= 0, and of length max(length + end, 0) for end < 0 |
| KeyedMaps.Empty | server/storage.ts:41-43 | `new Map()` is valid and lists no keys |
| KeyedMaps.Get | server/storage.ts:227 | `Map.get`: the entry under the key, or nothing when the key is absent |
| KeyedMaps.Set | server/storage.ts:217 | `Map.set`; `KeyedMaps.SetFacts`, `KeyedMaps.SetNewKeyAppends` and `KeyedMaps.SetOldKeyReplaces` prove its effect on entries and order |
| KeyedMaps.Delete | server/storage.ts:263 | `Map.delete`; `KeyedMaps.DeleteFacts`, `KeyedMaps.DeleteShrinks` and `KeyedMaps.DeleteAbsent` prove its effect |
| KeyedMaps.Values | server/storage.ts:223 | `Array.from(m.values())`: the entries in key insertion order; `KeyedMaps.ValuesStored` proves each is stored |
| KeyedMaps.ValuesStored | server/storage.ts:223 | every value that `values()` lists is the entry of some key |
| KeyedMaps.ValuesComplete | server/storage.ts:223 | every stored entry is listed by `values()` |
| KeyedMaps.SetFacts | server/storage.ts:217 | after `set`, the key maps to the new value, every other key is unchanged, and the map stays valid |
| KeyedMaps.SetNewKeyAppends | server/storage.ts:246 | setting a new key appends its value to `values()` |
| KeyedMaps.SetOldKeyReplaces | server/storage.ts:258 | setting an existing key replaces its value in place in `values()` |
| KeyedMaps.DeleteFacts | server/storage.ts:263 | after `delete`, the key is absent, every other key is unchanged, and the map stays valid |
| KeyedMaps.DeleteShrinks | server/storage.ts:263 | `delete` drops the key count by one iff the key was present |
| KeyedMaps.DeleteAbsent | server/storage.ts:263 | deleting an absent key changes nothing |
| Sorting.SortByFacts | server/storage.ts:239 | the sort yields ascending keys and is a permutation of its input |
| Sorting.SortBy | server/storage.ts:239 | the stable sort by an integer key; `Sorting.SortByFacts` proves it ascending and a permutation |
| Schema.WithUserId | server/storage.ts:216 | `{ ...insertUser, id }` carries the given id and exactly the submitted fields |
| Schema.WithEventId | server/storage.ts:245 | `{ ...insertEvent, id }` carries the given id and exactly the submitted fields |
| Schema.WithNoteId | server/storage.ts:283 | `{ ...insertNote, id }` carries the given id and exactly the submitted fields |
| Schema.StoredRecordsRoundTrip | shared/schema.ts:76-86 | a stored record is exactly its submitted fields under its id |
| Storage.EventsOnDayExact | server/storage.ts:230-234 | the same-day filter keeps exactly the events starting on that calendar day, each as often as it is stored |
| Storage.EventsOnDay | server/storage.ts:230-234 | the `isSameDay` filter of `getEventsByDate`; `Storage.EventsOnDayExact` proves what it keeps |
| Storage.StartingFrom | server/storage.ts:238 | the events whose start is at or after `fromDate` |
| Storage.SortByStart | server/storage.ts:239 | the sort by `startTime` ascending, stable |
| Storage.Upcoming | server/storage.ts:236-241 | filter, sort and `slice(0, limit)`; `Storage.UpcomingQualify`, `Storage.UpcomingCount` and `Storage.UpcomingSkipsNoEarlier` prove its meaning |
| Storage.UpcomingQualify | server/storage.ts:236-241 | upcoming events are stored events starting at or after `fromDate`, in ascending start order, none more often than it qualifies |
| Storage.UpcomingCount | server/storage.ts:236-241 | with a limit >= 0, there are min(limit, number of qualifying events) upcoming events |
| Storage.UpcomingSkipsNoEarlier | server/storage.ts:236-241 | no qualifying event that was left out starts before any returned one |
| Storage.NoteOnDayFacts | server/storage.ts:275-279 | no note is found iff none falls on that day; otherwise the result is the first note of that day in insertion order |
| Storage.NoteOnDay | server/storage.ts:275-279 | the `find` of `getNoteByDate`; `Storage.NoteOnDayFacts` proves what it returns |
| Storage.UserNamed | server/storage.ts:208-212 | the lookup fails iff no stored user has that user name; a found user has it |
| Storage.DemoUser | server/storage.ts:49-57 | the seeded demo account, with id 1 |
| Storage.DemoNote | server/storage.ts:180-197 | the seeded demo note, with id 1, dated at the store's creation |
| Storage.DemoEvent | server/storage.ts:64-178 | each seeded event carries the id it is stored under |
| Storage.DemoEvents | server/storage.ts:64-178 | there are eight seeded events |
| Storage.DemoEventId | server/storage.ts:64-178 | the i-th seeded event has id i + 1 |
| Storage.SetEventsFacts | server/storage.ts:64-178 | storing events under their own ids keeps the map valid and keys each record by its own id, adding only their ids |
| Storage.DemoEventsFacts | server/storage.ts:64-200 | the seeded event map is valid, each event is under its own id, every stored id is in 1..8 and each of 1..8 is stored, so all lie below the counter value 9 |
| Storage.MemStorage.constructor | server/storage.ts:40-201 | the seeded store satisfies the invariant; its counters are 1, 9 and 2; it holds the demo user under 1, events 1..8 and the demo note under 1 |
| Storage.MemStorage.GetUser | server/storage.ts:204-206 | a user is found iff one is stored under the id; it is that stored user and carries the id |
| Storage.MemStorage.GetUserByUsername | server/storage.ts:208-212 | no user is found iff no stored user has that name; a found user is stored and has that name |
| Storage.MemStorage.CreateUser | server/storage.ts:214-219 | the user gets the counter's pre-call value and exactly the submitted fields; the counter rises by 1; any user already under that id is overwritten; nothing else changes |
| Storage.MemStorage.GetAllEvents | server/storage.ts:222-224 | as many events as stored keys; every stored event is listed, and every listed event is found again by its id |
| Storage.MemStorage.GetEventById | server/storage.ts:226-228 | an event is found iff one is stored under the id; it is that stored event, carries the id, and the id is below the event counter |
| Storage.MemStorage.GetEventsByDate | server/storage.ts:230-234 | exactly the stored events starting on the day of the given date |
| Storage.MemStorage.GetUpcomingEvents | server/storage.ts:236-241 | stored events starting at or after `fromDate`, ascending by start, min(limit, number qualifying) of them |
| Storage.MemStorage.CreateEvent | server/storage.ts:243-248 | the event gets the pre-call counter value, which was unused, and exactly the submitted fields; the counter rises by 1; the event is appended to `getAllEvents` and found by its id; nothing else changes |
| Storage.MemStorage.UpdateEvent | server/storage.ts:250-260 | on an absent id, returns nothing and changes nothing; on a present id, replaces every field but the id and keeps the order; other events, users, notes and counters are unchanged |
| Storage.MemStorage.DeleteEvent | server/storage.ts:262-264 | returns true iff the id was stored; afterwards it is absent; other events, users, notes and counters are unchanged |
| Storage.MemStorage.GetAllNotes | server/storage.ts:267-269 | as many notes as stored keys; every stored note is listed, and every listed note is found again by its id |
| Storage.MemStorage.GetNoteById | server/storage.ts:271-273 | a note is found iff one is stored under the id; it is that stored note, carries the id, and the id is below the note counter |
| Storage.MemStorage.GetNoteByDate | server/storage.ts:275-279 | no note is found iff no stored note falls on that day; a found note is stored and falls on that day |
| Storage.MemStorage.CreateNote | server/storage.ts:281-286 | the note gets the pre-call counter value, which was unused, and exactly the submitted fields; the counter rises by 1; the note is appended and found by its id; nothing else changes |
| Storage.MemStorage.UpdateNote | server/storage.ts:288-298 | on an absent id, returns nothing and changes nothing; on a present id, replaces every field but the id and keeps the order; everything else is unchanged |
| Storage.MemStorage.DeleteNote | server/storage.ts:300-302 | returns true iff the id was stored; afterwards it is absent; everything else is unchanged |
| Storage.FirstUserReplacesDemoUser | server/storage.ts:214-219 | on a fresh store the demo user sits under id 1; the first created user also gets id 1, replaces it, and leaves one user in the store |
| CalendarView.StepsMoveOneMonth | client/src/components/Calendar/CalendarView.tsx:37-53 | from a month in 0..11, next and previous stay in 0..11 and move exactly one month forward or back |
| CalendarView.MonthIndexInjective | client/src/components/Calendar/CalendarView.tsx:37-53 | a (year, month) pair with month in 0..11 is determined by its month count |
| CalendarView.StepsRoundTrip | client/src/components/Calendar/CalendarView.tsx:37-53 | previous after next, and next after previous, restore the displayed month |
| CalendarView.NextMonth | client/src/components/Calendar/CalendarView.tsx:46-53 | December wraps to January of the next year, any other month steps forward; `CalendarView.StepsMoveOneMonth` proves it moves one month |
| CalendarView.PrevMonth | client/src/components/Calendar/CalendarView.tsx:37-44 | January wraps to December of the previous year, any other month steps back; `CalendarView.StepsRoundTrip` proves it undoes `NextMonth` |
| CalendarView.CalendarState.constructor | client/src/contexts/CalendarContext.tsx:23-28 | the initial state selects today and shows today's month and year |
| CalendarView.CalendarState.HandlePrevMonth | client/src/components/Calendar/CalendarView.tsx:37-44 | month 0 becomes month 11 of the previous year, any other month the one before; the selection is untouched |
| CalendarView.CalendarState.HandleNextMonth | client/src/components/Calendar/CalendarView.tsx:46-53 | month 11 becomes month 0 of the next year, any other month the one after; the selection is untouched |
| CalendarView.CalendarState.HandleDateClick | client/src/components/Calendar/CalendarView.tsx:55-59 | a date cell becomes the selected date; a blank cell changes nothing; the month is untouched |
| CalendarView.EventsForDateExact | client/src/components/Calendar/CalendarView.tsx:69-75 | a blank cell has no events; a date cell lists exactly the events starting that day |
| CalendarView.EventsForDateKeepsOrder | client/src/components/Calendar/CalendarView.tsx:69-75 | a cell keeps the fetched order of the events |
| CalendarView.HasEventsIffListed | client/src/components/Calendar/CalendarView.tsx:61-75 | `hasEventsOnDate` holds iff `getEventsForDate` is non-empty, including for a blank cell |
| CalendarView.EventsForDate | client/src/components/Calendar/CalendarView.tsx:69-75 | nothing for a blank cell, else the same-day filter; `CalendarView.EventsForDateExact` proves what it keeps |
| CalendarView.HasEventsOnDate | client/src/components/Calendar/CalendarView.tsx:61-67 | false for a blank cell, else whether some event starts that day; `CalendarView.HasEventsIffListed` ties it to `EventsForDate` |
| CalendarView.PreviewCellFacts | client/src/components/Calendar/CalendarView.tsx:139-160 | a cell shows at most two badges, for the first events in order and in their type's colour; a "+n more" marker appears iff there are more than two events; badges plus n count every event |
| CalendarView.EmptyCellShowsNothing | client/src/components/Calendar/CalendarView.tsx:137 | a cell without events shows no badge and no marker |
| CalendarView.CellColour | client/src/components/Calendar/CalendarView.tsx:142-151 | the badge colour chain: meeting primary, consultation error, conference secondary, webinar accent, break warning, anything else primary |
| CalendarView.PreviewCell | client/src/components/Calendar/CalendarView.tsx:137-161 | the badges of the first two events and the "+n more" count; `CalendarView.PreviewCellFacts` proves its shape |
| DailySchedule.TimeSlotsHours | client/src/components/Calendar/DailySchedule.tsx:19-25 | there are exactly 11 rows, for hours 8, 9, ..., 18 in ascending order |
| DailySchedule.HourLabelIsSlotLabel | client/src/components/Calendar/DailySchedule.tsx:22 | for hours 1..23 a row label reads the same as the on-the-hour label of `getTimeSlots` |
| DailySchedule.TimeSlotLabels | client/src/components/Calendar/DailySchedule.tsx:19-25 | every row's label is its hour's on-the-hour label |
| DailySchedule.TimeSlotLabelsPinned | client/src/components/Calendar/DailySchedule.tsx:22 | the first row reads "8:00 AM", the noon row "12:00 PM" and the last row "6:00 PM" |
| DailySchedule.TimeSlots | client/src/components/Calendar/DailySchedule.tsx:19-25 | the eleven rows; `DailySchedule.TimeSlotsHours` proves their hours |
| DailySchedule.HourLabel | client/src/components/Calendar/DailySchedule.tsx:22 | `hour - 12` after noon, else the hour, then ":00" and "PM" iff the hour is at least 12 |
| DailySchedule.StartHour | client/src/components/Calendar/DailySchedule.tsx:29 | `getHours()` of the start: its minute of the day divided by 60 |
| DailySchedule.EventsForTimeSlot | client/src/components/Calendar/DailySchedule.tsx:27-32 | the start-hour filter; `DailySchedule.EventsForTimeSlotExact` proves what it keeps |
| DailySchedule.EventsForTimeSlotExact | client/src/components/Calendar/DailySchedule.tsx:27-32 | a row lists exactly the events starting in its hour, each as often as it was fetched |
| DailySchedule.EventsForTimeSlotKeepsOrder | client/src/components/Calendar/DailySchedule.tsx:27-32 | a row keeps the fetched order |
| DailySchedule.EventInOneRowAtMost | client/src/components/Calendar/DailySchedule.tsx:27-32 | no event is listed in two rows |
| DailySchedule.EventShownIffDayHours | client/src/components/Calendar/DailySchedule.tsx:19-32 | a fetched event appears in some row iff it starts between 8:00 and 18:59 |
| DailySchedule.EventTypeStyleGroups | client/src/components/Calendar/DailySchedule.tsx:34-55 | consultation and surgery share the error style; conference and rounds share the secondary style; meeting, research and every unlisted type share the primary style |
| DailySchedule.EventTypeStylesDistinguish | client/src/components/Calendar/DailySchedule.tsx:34-55 | types with different colours get different class lists |
| DailySchedule.DayAndMonthColoursAgree | client/src/components/Calendar/DailySchedule.tsx:34-55 | the day view's card colour equals the month cell's badge colour iff the type is neither surgery nor rounds |
| DailySchedule.EventTypeStyle | client/src/components/Calendar/DailySchedule.tsx:34-55 | the colour the `switch` picks for each type, with primary as the default |
| DailySchedule.EventTypeStyles | client/src/components/Calendar/DailySchedule.tsx:34-55 | the card's class list in that colour; `DailySchedule.EventTypeStylesDistinguish` proves different colours give different lists |
| DailySchedule.ParticipantCountFacts | client/src/components/Calendar/DailySchedule.tsx:112-116 | no count for a missing or empty list; otherwise the count is the number of commas plus one, at least one, and the pieces join back to the list |
| DailySchedule.ParticipantCount | client/src/components/Calendar/DailySchedule.tsx:112-116 | no count for a missing or empty list, else the number of `split(',')` pieces |

## Left out

- Rendering, styling beyond the colour choice, toasts, forms, React hooks and the
  network (`useQuery`, Express routes, zod validation, the AI and weather proxies)
  are not modelled. Each storage call is one synchronous, atomic step, because
  nothing in the store is concurrent.
- Time is kept to the minute in one fixed local clock. Seconds, milliseconds,
  time zones and daylight-saving shifts are not modelled. The seeded events are
  therefore exactly whole days and hours after local midnight, and `Timestamp`
  compares instants to the minute.
- The real clock (`new Date()` in the constructor, `isToday` and the calendar
  provider) is a parameter: `today` or `now`.
- Dates.MakeDate: JavaScript numbers are modelled as integers. A fractional or
  non-finite year, month or day argument of `new Date`, `setDate`, `addDays` or
  `subtractDays` is not modelled.
- Calendar.GetTimeSlots: requires a positive `minuteInterval`. With an interval of
  0 or less and `startHour < endHour`, the inner loop of calendar.ts:83 never ends,
  so there is no result to model.
- Dates.AddDays: JavaScript's `Date` range (about ±273,790 years) and invalid dates
  are not modelled. Every date the model handles is a valid proleptic Gregorian date.
- Storage.DemoNoteContent: the demo note's HTML is kept without the template
  literal's indentation and its leading and trailing blank lines.
- Storage.MemStorage.GetUpcomingEvents: a non-integer `limit` (JavaScript truncates
  it in `slice`) is not modelled; the limit is an integer.
- Storage.UpcomingQualify: stability of the sort for equal start times is built in
  (insertion keeps input order) but not stated as a separate property.
- Schema: column defaults and the zod validation of `shared/schema.ts` are not
  modelled. Nullable columns are `Option`s, and `endTime > startTime` is not
  enforced, as in the source.
- CalendarView.CellColour and DailySchedule.EventTypeStyles produce a colour, and the
  full class string of the day card. The month cell's class string around the colour
  is rendering and is not modelled.
- The `viewMode` and `isModalOpen` fields of the calendar state are not touched by
  the modelled handlers and are not modelled.
