/**
 * The logic of client/src/components/Calendar/CalendarView.tsx: stepping the
 * displayed month back and forth, selecting a clicked day, finding the events
 * of a grid cell, and what a cell shows of them.  The month and selection
 * live in a small state object whose handlers update it; the per-cell
 * queries are filters over the fetched events.
 */
module CalendarView {
  import opened Options
  import opened Seqs
  import opened Dates
  import opened Schema
  import opened Storage

  // ---------------------------------------------------------------------
  // Month navigation

  /** The month on display: a year and a 0-based month. */
  datatype YearMonth = YearMonth(year: int, month: int)

  predicate ValidMonth(ym: YearMonth) {
    0 <= ym.month < 12
  }

  /** Months counted from January of year 0: the reference the two steps are measured against. */
  function MonthIndex(ym: YearMonth): int {
    ym.year * 12 + ym.month
  }

  /** `handleNextMonth`: December wraps to January of the next year. */
  function NextMonth(ym: YearMonth): YearMonth {
    if ym.month == 11 then YearMonth(ym.year + 1, 0) else YearMonth(ym.year, ym.month + 1)
  }

  /** `handlePrevMonth`: January wraps to December of the previous year. */
  function PrevMonth(ym: YearMonth): YearMonth {
    if ym.month == 0 then YearMonth(ym.year - 1, 11) else YearMonth(ym.year, ym.month - 1)
  }

  /** From a month in 0 .. 11 both steps land in 0 .. 11, exactly one month later or earlier. */
  lemma StepsMoveOneMonth(ym: YearMonth)
    requires ValidMonth(ym)
    ensures ValidMonth(NextMonth(ym)) && MonthIndex(NextMonth(ym)) == MonthIndex(ym) + 1
    ensures ValidMonth(PrevMonth(ym)) && MonthIndex(PrevMonth(ym)) == MonthIndex(ym) - 1
  {
  }

  /** A month in 0 .. 11 is determined by its index. */
  lemma MonthIndexInjective(a: YearMonth, b: YearMonth)
    requires ValidMonth(a) && ValidMonth(b) && MonthIndex(a) == MonthIndex(b)
    ensures a == b
  {
  }

  /** Going forward then back, or back then forward, returns to the month on display. */
  lemma StepsRoundTrip(ym: YearMonth)
    requires ValidMonth(ym)
    ensures PrevMonth(NextMonth(ym)) == ym
    ensures NextMonth(PrevMonth(ym)) == ym
  {
    StepsMoveOneMonth(ym);
    StepsMoveOneMonth(NextMonth(ym));
    StepsMoveOneMonth(PrevMonth(ym));
    MonthIndexInjective(PrevMonth(NextMonth(ym)), ym);
    MonthIndexInjective(NextMonth(PrevMonth(ym)), ym);
  }

  /** The calendar state the view reads and its handlers update. */
  class CalendarState {
    var currentYear: int
    var currentMonth: int
    var selectedDate: DateTime

    ghost predicate Valid()
      reads this
    {
      ValidMonth(YearMonth(currentYear, currentMonth))
    }

    function Shown(): YearMonth
      reads this
    {
      YearMonth(currentYear, currentMonth)
    }

    /** The provider's initial state: today selected, and today's month on display. */
    constructor (today: Instant)
      ensures Valid()
      ensures selectedDate == today
      ensures currentYear == today.date.year && currentMonth == today.date.month
    {
      currentYear := today.date.year;
      currentMonth := today.date.month;
      selectedDate := today;
    }

    /** handlePrevMonth: one month back, the selection untouched. */
    method HandlePrevMonth()
      requires Valid()
      modifies this
      ensures Valid()
      ensures Shown() == PrevMonth(old(Shown()))
      ensures MonthIndex(Shown()) == MonthIndex(old(Shown())) - 1
      ensures selectedDate == old(selectedDate)
    {
      StepsMoveOneMonth(Shown());
      if currentMonth == 0 {
        currentMonth := 11;
        currentYear := currentYear - 1;
      } else {
        currentMonth := currentMonth - 1;
      }
    }

    /** handleNextMonth: one month forward, the selection untouched. */
    method HandleNextMonth()
      requires Valid()
      modifies this
      ensures Valid()
      ensures Shown() == NextMonth(old(Shown()))
      ensures MonthIndex(Shown()) == MonthIndex(old(Shown())) + 1
      ensures selectedDate == old(selectedDate)
    {
      StepsMoveOneMonth(Shown());
      if currentMonth == 11 {
        currentMonth := 0;
        currentYear := currentYear + 1;
      } else {
        currentMonth := currentMonth + 1;
      }
    }

    /** handleDateClick: a day cell selects its date; a blank cell changes nothing. */
    method HandleDateClick(date: Option<DateTime>)
      modifies this
      ensures date.Some? ==> selectedDate == date.value
      ensures date.None? ==> selectedDate == old(selectedDate)
      ensures currentYear == old(currentYear) && currentMonth == old(currentMonth)
    {
      if date.Some? {
        selectedDate := date.value;
      }
    }
  }

  // ---------------------------------------------------------------------
  // The events of a cell

  /** `getEventsForDate`: nothing for a blank cell, else the events starting that day in fetched order. */
  function EventsForDate(events: seq<Event>, date: Option<DateTime>): seq<Event> {
    match date
      case None => []
      case Some(d) => EventsOnDay(events, d)
  }

  /** `hasEventsOnDate`: false for a blank cell, else whether some event starts that day. */
  predicate HasEventsOnDate(events: seq<Event>, date: Option<DateTime>) {
    match date
      case None => false
      case Some(d) => exists i :: 0 <= i < |events| && IsSameDay(events[i].startTime, d)
  }

  /** A cell lists exactly the events starting on its day. */
  lemma EventsForDateExact(events: seq<Event>, date: Option<DateTime>)
    ensures date.None? ==> EventsForDate(events, date) == []
    ensures date.Some? ==> forall e :: e in EventsForDate(events, date) <==>
      e in events && e.startTime.date == date.value.date
  {
    if date.Some? {
      EventsOnDayExact(events, date.value);
    }
  }

  /** The cell keeps the fetched order: the events of a concatenation are the events of each part, in turn. */
  lemma EventsForDateKeepsOrder(a: seq<Event>, b: seq<Event>, date: Option<DateTime>)
    ensures EventsForDate(a + b, date) == EventsForDate(a, date) + EventsForDate(b, date)
  {
    if date.Some? {
      FilterConcat(a, b, (e: Event) => IsSameDay(e.startTime, date.value));
    }
  }

  /** The dot test and the list agree: a cell has events exactly when its list is not empty. */
  lemma HasEventsIffListed(events: seq<Event>, date: Option<DateTime>)
    ensures HasEventsOnDate(events, date) <==> EventsForDate(events, date) != []
  {
    if date.Some? {
      var d := date.value;
      EventsOnDayExact(events, d);
      if HasEventsOnDate(events, date) {
        var i :| 0 <= i < |events| && IsSameDay(events[i].startTime, d);
        assert events[i] in EventsForDate(events, date);
      }
      if EventsForDate(events, date) != [] {
        var e := EventsForDate(events, date)[0];
        assert e in EventsForDate(events, date);
        var i :| 0 <= i < |events| && events[i] == e;
        assert IsSameDay(events[i].startTime, d);
      }
    }
  }

  // ---------------------------------------------------------------------
  // What a cell shows

  /** The colours the stylesheet offers. */
  datatype Colour = Primary | Error | Secondary | Accent | Warning

  /** The badge colour of an event in a month cell, chosen by its type. */
  function CellColour(eventType: string): Colour {
    if eventType == "meeting" then Primary
    else if eventType == "consultation" then Error
    else if eventType == "conference" then Secondary
    else if eventType == "webinar" then Accent
    else if eventType == "break" then Warning
    else Primary
  }

  /** One badge: the event's title in its type's colour. */
  datatype Badge = Badge(title: string, colour: Colour)

  /** A cell's event list: the badges shown and the count in the "+n more" marker, if there is one. */
  datatype CellPreview = CellPreview(badges: seq<Badge>, more: Option<int>)

  /** The first two events become badges; a marker counts the rest when there are more than two. */
  function PreviewCell(eventsOnDate: seq<Event>): CellPreview {
    var shown := SlicePrefix(eventsOnDate, 2);
    CellPreview(
      seq(|shown|, i requires 0 <= i < |shown| => Badge(shown[i].title, CellColour(shown[i].eventType))),
      if |eventsOnDate| > 2 then Some(|eventsOnDate| - 2) else None)
  }

  /**
   * At most two badges, for the first events in order; a marker exactly when
   * there are more than two; and badges plus marker account for every event.
   */
  lemma PreviewCellFacts(eventsOnDate: seq<Event>)
    ensures var p := PreviewCell(eventsOnDate);
      && |p.badges| <= 2
      && (forall i :: 0 <= i < |p.badges| ==>
            p.badges[i] == Badge(eventsOnDate[i].title, CellColour(eventsOnDate[i].eventType)))
      && (p.more.Some? <==> |eventsOnDate| > 2)
      && |p.badges| + (if p.more.Some? then p.more.value else 0) == |eventsOnDate|
  {
  }

  /** An empty cell shows no list at all. */
  lemma EmptyCellShowsNothing()
    ensures PreviewCell([]) == CellPreview([], None)
  {
  }
}
