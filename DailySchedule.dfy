/**
 * The logic of client/src/components/Calendar/DailySchedule.tsx: the day
 * view's hour rows from 8 AM to 6 PM, the events listed in each row (by start
 * hour), the style of an event by its type, and the participant count shown
 * under it.
 */
module DailySchedule {
  import opened Options
  import opened Seqs
  import opened Strings
  import opened Dates
  import opened Schema
  import Calendar
  import CalendarView

  // ---------------------------------------------------------------------
  // Hour rows

  /** One row of the day view: its label and the hour whose events it lists. */
  datatype TimeSlot = TimeSlot(time: string, hour: int)

  /** The hour shown on the row: hours after noon drop twelve. */
  function ShownHour(hour: int): int {
    if hour > 12 then hour - 12 else hour
  }

  /** A row's label, `h:00 AM` or `h:00 PM`. */
  function HourLabel(hour: int): string {
    IntToString(ShownHour(hour)) + ":00 " + (if hour >= 12 then "PM" else "AM")
  }

  /** The eleven rows, for hours 8 through 18. */
  function TimeSlots(): seq<TimeSlot> {
    seq(11, i requires 0 <= i < 11 => TimeSlot(HourLabel(i + 8), i + 8))
  }

  /** Eleven rows, for the hours 8, 9, .., 18 in ascending order. */
  lemma TimeSlotsHours()
    ensures |TimeSlots()| == 11
    ensures forall i :: 0 <= i < 11 ==> TimeSlots()[i].hour == 8 + i
    ensures forall i, j :: 0 <= i < j < 11 ==> TimeSlots()[i].hour < TimeSlots()[j].hour
  {
  }

  /**
   * Over the hours of a day (1 .. 23) the row label reads as the on-the-hour
   * label of getTimeSlots in client/src/lib/calendar.ts.
   */
  lemma HourLabelIsSlotLabel(hour: int)
    requires 1 <= hour <= 23
    ensures HourLabel(hour) == Calendar.SlotLabel(hour, 0)
  {
    Calendar.DefaultMinuteTexts();
    assert Calendar.TwelveHour(hour) == ShownHour(hour);
    assert Calendar.Meridiem(hour) == (if hour >= 12 then "PM" else "AM");
    var shown := IntToString(ShownHour(hour));
    var period := Calendar.Meridiem(hour);
    assert shown + ":" + "00" + " " + period == shown + ":00 " + period;
  }

  /** Every row's label is its hour's on-the-hour label. */
  lemma TimeSlotLabels()
    ensures forall i :: 0 <= i < 11 ==> TimeSlots()[i].time == Calendar.SlotLabel(TimeSlots()[i].hour, 0)
  {
    forall i | 0 <= i < 11
      ensures TimeSlots()[i].time == Calendar.SlotLabel(TimeSlots()[i].hour, 0)
    {
      HourLabelIsSlotLabel(i + 8);
    }
  }

  /** The first row reads 8:00 AM, the noon row 12:00 PM and the last row 6:00 PM. */
  lemma TimeSlotLabelsPinned()
    ensures TimeSlots()[0].time == "8:00 AM"
    ensures TimeSlots()[4].time == "12:00 PM"
    ensures TimeSlots()[10].time == "6:00 PM"
  {
    assert TimeSlots()[0].time == HourLabel(8);
    assert TimeSlots()[4].time == HourLabel(12);
    assert TimeSlots()[10].time == HourLabel(18);
    Calendar.OneDigitText(8, '8');
    Calendar.OneDigitText(6, '6');
    Calendar.OneDigitText(1, '1');
    Calendar.TwoDigitText(12, "1", '2');
    HourLabelText(8, "8", "8:00 AM");
    HourLabelText(12, "12", "12:00 PM");
    HourLabelText(18, "6", "6:00 PM");
  }

  /** A label spelled out from the shown hour's digits. */
  lemma HourLabelText(hour: int, shown: string, text: string)
    requires IntToString(ShownHour(hour)) == shown
    requires shown + ":00 " + (if hour >= 12 then "PM" else "AM") == text
    ensures HourLabel(hour) == text
  {
  }

  // ---------------------------------------------------------------------
  // Events per row

  /** `new Date(event.startTime).getHours()`. */
  function StartHour(e: Event): int {
    e.startTime.minute / 60
  }

  /** `getEventsForTimeSlot`: the events starting in the given hour, in fetched order. */
  function EventsForTimeSlot(events: seq<Event>, hour: int): seq<Event> {
    Filter(events, (e: Event) => StartHour(e) == hour)
  }

  /** A row lists exactly the events starting in its hour, each as often as it was fetched. */
  lemma EventsForTimeSlotExact(events: seq<Event>, hour: int)
    ensures forall e :: e in EventsForTimeSlot(events, hour) <==> e in events && StartHour(e) == hour
    ensures forall e :: multiset(EventsForTimeSlot(events, hour))[e]
                     == if StartHour(e) == hour then multiset(events)[e] else 0
  {
    FilterMembers(events, (e: Event) => StartHour(e) == hour);
  }

  /** A row keeps the fetched order: the rows of a concatenation are the rows of each part, in turn. */
  lemma EventsForTimeSlotKeepsOrder(a: seq<Event>, b: seq<Event>, hour: int)
    ensures EventsForTimeSlot(a + b, hour) == EventsForTimeSlot(a, hour) + EventsForTimeSlot(b, hour)
  {
    FilterConcat(a, b, (e: Event) => StartHour(e) == hour);
  }

  /** No event is listed in two rows. */
  lemma EventInOneRowAtMost(events: seq<Event>, e: Event, h1: int, h2: int)
    requires e in EventsForTimeSlot(events, h1) && e in EventsForTimeSlot(events, h2)
    ensures h1 == h2
  {
    EventsForTimeSlotExact(events, h1);
    EventsForTimeSlotExact(events, h2);
  }

  /**
   * A fetched event is listed in some row exactly when it starts between 8:00
   * and 18:59; one starting earlier or later is not shown at all.
   */
  lemma EventShownIffDayHours(events: seq<Event>, e: Event)
    requires e in events
    ensures (exists i :: 0 <= i < 11 && e in EventsForTimeSlot(events, TimeSlots()[i].hour))
        <==> 8 <= StartHour(e) <= 18
  {
    TimeSlotsHours();
    EventsForTimeSlotExact(events, StartHour(e));
    if 8 <= StartHour(e) <= 18 {
      assert e in EventsForTimeSlot(events, TimeSlots()[StartHour(e) - 8].hour);
    } else {
      forall i | 0 <= i < 11
        ensures e !in EventsForTimeSlot(events, TimeSlots()[i].hour)
      {
        EventsForTimeSlotExact(events, TimeSlots()[i].hour);
      }
    }
  }

  // ---------------------------------------------------------------------
  // Styles and participants

  /** `getEventTypeStyles`: the colour of an event's card, by its type. */
  function EventTypeStyle(eventType: string): CalendarView.Colour {
    match eventType
      case "meeting" => CalendarView.Primary
      case "consultation" => CalendarView.Error
      case "surgery" => CalendarView.Error
      case "conference" => CalendarView.Secondary
      case "webinar" => CalendarView.Accent
      case "break" => CalendarView.Warning
      case "rounds" => CalendarView.Secondary
      case "research" => CalendarView.Primary
      case _ => CalendarView.Primary
  }

  function ColourName(c: CalendarView.Colour): string {
    match c
      case Primary => "primary"
      case Error => "error"
      case Secondary => "secondary"
      case Accent => "accent"
      case Warning => "warning"
  }

  /** The class list of a card: a tinted background and a left border, both in the type's colour. */
  function EventTypeStyles(eventType: string): string {
    var name := ColourName(EventTypeStyle(eventType));
    "bg-" + name + " bg-opacity-10 border-l-4 border-" + name
  }

  /**
   * Consultations and surgery share the error style, conferences and rounds the
   * secondary style, and meetings, research and every unlisted type the primary style.
   */
  lemma EventTypeStyleGroups(eventType: string)
    ensures EventTypeStyle("consultation") == EventTypeStyle("surgery") == CalendarView.Error
    ensures EventTypeStyle("conference") == EventTypeStyle("rounds") == CalendarView.Secondary
    ensures EventTypeStyle("meeting") == EventTypeStyle("research") == CalendarView.Primary
    ensures eventType !in {"meeting", "consultation", "surgery", "conference", "webinar", "break", "rounds", "research"}
      ==> EventTypeStyle(eventType) == CalendarView.Primary
  {
  }

  /** Different colours give different class lists. */
  lemma EventTypeStylesDistinguish(a: string, b: string)
    requires EventTypeStyle(a) != EventTypeStyle(b)
    ensures EventTypeStyles(a) != EventTypeStyles(b)
  {
    assert EventTypeStyles(a)[3] != EventTypeStyles(b)[3];
  }

  /**
   * The day view and the month grid colour events alike, except surgery (an
   * error card in the day view, a primary badge in the grid) and rounds (a
   * secondary card, a primary badge).
   */
  lemma DayAndMonthColoursAgree(eventType: string)
    ensures EventTypeStyle(eventType) == CalendarView.CellColour(eventType)
        <==> eventType != "surgery" && eventType != "rounds"
  {
  }

  /** `event.participants && event.participants.split(',').length`: no count for a missing or empty list. */
  function ParticipantCount(participants: Option<string>): Option<int> {
    match participants
      case None => None
      case Some(p) => if p == "" then None else Some(|Split(p, ',')|)
  }

  /** A non-empty list counts one more than its commas, so at least one; the pieces join back to the list. */
  lemma ParticipantCountFacts(participants: Option<string>)
    ensures ParticipantCount(participants).None? <==> participants == None || participants == Some("")
    ensures ParticipantCount(participants).Some? ==>
      && ParticipantCount(participants).value == multiset(participants.value)[','] + 1
      && ParticipantCount(participants).value >= 1
      && Join(Split(participants.value, ','), ',') == participants.value
  {
    if participants.Some? && participants.value != "" {
      SplitPieces(participants.value, ',');
      SplitJoinRoundTrip(participants.value, ',');
    }
  }
}
