/**
 * server/storage.ts: `MemStorage`, the in-memory store behind the API.
 *
 * The store holds three insertion-ordered maps (users, events, notes) and
 * three id counters.  The state-changing operations are methods of the class;
 * the queries are `filter` / `sort` / `slice` / `find` pipelines over the
 * stored values, written as functions on sequences so that their properties
 * can be proved once and used by the class.
 */
module Storage {
  import opened Options
  import opened Seqs
  import opened Dates
  import opened KeyedMaps
  import opened Schema
  import opened Sorting

  // ---------------------------------------------------------------------
  // Query pipelines

  /** `new Date(event.startTime).getTime()`, to the minute. */
  function StartKey(e: Event): int {
    Timestamp(e.startTime)
  }

  /** `.sort((a, b) => a.startTime - b.startTime)`: ascending start, stable. */
  function SortByStart(s: seq<Event>): seq<Event> {
    SortBy(s, StartKey)
  }

  /** `getEventsByDate`'s filter: the events that start on the same calendar day as `date`. */
  function EventsOnDay(all: seq<Event>, date: DateTime): seq<Event> {
    Filter(all, (e: Event) => IsSameDay(e.startTime, date))
  }

  /** Exactly the events of that day, each as often as it is stored, in stored order. */
  lemma EventsOnDayExact(all: seq<Event>, date: DateTime)
    ensures forall e :: e in EventsOnDay(all, date) <==> e in all && e.startTime.date == date.date
    ensures forall e :: multiset(EventsOnDay(all, date))[e] == if IsSameDay(e.startTime, date) then multiset(all)[e] else 0
  {
    FilterMembers(all, (e: Event) => IsSameDay(e.startTime, date));
  }

  /** The events that qualify for `getUpcomingEvents`: those starting at or after `fromDate`. */
  function StartingFrom(all: seq<Event>, fromDate: Instant): seq<Event> {
    Filter(all, (e: Event) => StartKey(e) >= Timestamp(fromDate))
  }

  /** `getUpcomingEvents`: the qualifying events, earliest first, cut to `limit`. */
  function Upcoming(all: seq<Event>, fromDate: Instant, limit: int): seq<Event> {
    SlicePrefix(SortByStart(StartingFrom(all, fromDate)), limit)
  }

  /** Only qualifying stored events are returned, in ascending start order, none more often than it qualifies. */
  lemma UpcomingQualify(all: seq<Event>, fromDate: Instant, limit: int)
    ensures var r := Upcoming(all, fromDate, limit);
      && (forall e :: e in r ==> e in all && StartKey(e) >= Timestamp(fromDate))
      && SortedBy(r, StartKey)
      && multiset(r) <= multiset(StartingFrom(all, fromDate))
  {
    var m := StartingFrom(all, fromDate);
    var sorted := SortByStart(m);
    var r := Upcoming(all, fromDate, limit);
    FilterMembers(all, (e: Event) => StartKey(e) >= Timestamp(fromDate));
    SortByFacts(m, StartKey);
    PrefixFacts(sorted, |r|);
    forall e | e in r
      ensures e in all && StartKey(e) >= Timestamp(fromDate)
    {
      assert e in multiset(r);
    }
  }

  /** With a non-negative limit there are min(limit, #qualifying) upcoming events. */
  lemma UpcomingCount(all: seq<Event>, fromDate: Instant, limit: int)
    ensures 0 <= limit ==>
      |Upcoming(all, fromDate, limit)|
        == (if limit < |StartingFrom(all, fromDate)| then limit else |StartingFrom(all, fromDate)|)
  {
    SortByFacts(StartingFrom(all, fromDate), StartKey);
  }

  /** No qualifying event that was left out starts before one that was returned. */
  lemma UpcomingSkipsNoEarlier(all: seq<Event>, fromDate: Instant, limit: int, e: Event, i: int)
    requires e in StartingFrom(all, fromDate) && e !in Upcoming(all, fromDate, limit)
    requires 0 <= i < |Upcoming(all, fromDate, limit)|
    ensures StartKey(Upcoming(all, fromDate, limit)[i]) <= StartKey(e)
  {
    var m := StartingFrom(all, fromDate);
    var sorted := SortByStart(m);
    var r := Upcoming(all, fromDate, limit);
    SortByFacts(m, StartKey);
    assert e in multiset(sorted);
    var j :| 0 <= j < |sorted| && sorted[j] == e;
    assert j >= |r| by {
      assert r == sorted[..|r|];
    }
    assert r[i] == sorted[i];
  }

  /** A prefix of a sorted sequence is sorted and is part of it. */
  lemma PrefixFacts(sorted: seq<Event>, n: int)
    requires SortedBy(sorted, StartKey) && 0 <= n <= |sorted|
    ensures SortedBy(sorted[..n], StartKey)
    ensures multiset(sorted[..n]) <= multiset(sorted)
  {
    assert sorted == sorted[..n] + sorted[n..];
    assert multiset(sorted) == multiset(sorted[..n]) + multiset(sorted[n..]);
  }

  /** `getNoteByDate`: the first stored note dated on the same calendar day as `date`, if any. */
  function NoteOnDay(all: seq<Note>, date: DateTime): Option<Note> {
    Find(all, (n: Note) => IsSameDay(n.date, date))
  }

  /** No note is found exactly when none falls on that day; a found note is the first of that day in stored order. */
  lemma NoteOnDayFacts(all: seq<Note>, date: DateTime)
    ensures NoteOnDay(all, date).None? <==> forall n :: n in all ==> n.date.date != date.date
    ensures NoteOnDay(all, date)
         == if Filter(all, (n: Note) => IsSameDay(n.date, date)) == [] then None
            else Some(Filter(all, (n: Note) => IsSameDay(n.date, date))[0])
  {
    FindIsFirstOfFilter(all, (n: Note) => IsSameDay(n.date, date));
  }

  /** `getUserByUsername`: the first stored user with that user name, if any. */
  function UserNamed(all: seq<User>, username: string): (r: Option<User>)
    ensures r.None? <==> forall u :: u in all ==> u.username != username
    ensures r.Some? ==> r.value in all && r.value.username == username
  {
    Find(all, (u: User) => u.username == username)
  }

  // ---------------------------------------------------------------------
  // The seeded state

  /** The demo account the store starts with, under id 1. */
  function DemoUser(): User {
    User(1, "doctor", "password123", "Dr. Sarah Johnson", Some("Cardiologist"),
         Some("https://images.unsplash.com/photo-1612349317150-e413f6a5b16d"))
  }

  /** `todayStart` moved on by `days` whole days and then to `minute` past midnight. */
  function DemoTime(today: Instant, days: nat, minute: int): Instant
    requires 0 <= minute < MinutesPerDay
  {
    DateTime(AddDays(DateTime(today.date, 0), days).date, minute)
  }

  /** The demo event with the given id, relative to the day the store is created. */
  function DemoEvent(today: Instant, id: int): (e: Event)
    requires 1 <= id <= 8
    ensures e.id == id
  {
    match id
      case 1 =>
        Event(1, 1, "Research Meeting", Some("Discussion with research team on new clinical trial findings"),
          DemoTime(today, 0, 8 * 60), DemoTime(today, 0, 9 * 60 + 30), Some("Conference Room B"),
          "research", Some("team@hospital.org"), Some(true))
      case 2 =>
        Event(2, 1, "Patient Consultation", Some("Follow-up with Mr. John Doe - Post-op check"),
          DemoTime(today, 0, 10 * 60), DemoTime(today, 0, 10 * 60 + 30), Some("Office #3"),
          "consultation", Some(""), Some(true))
      case 3 =>
        Event(3, 1, "Lunch Break", Some("Personal time"),
          DemoTime(today, 0, 12 * 60), DemoTime(today, 0, 13 * 60), Some(""),
          "break", Some(""), Some(false))
      case 4 =>
        Event(4, 1, "Team Review", Some("Weekly department case review session"),
          DemoTime(today, 0, 13 * 60), DemoTime(today, 0, 14 * 60 + 30), Some("Main Conference Room"),
          "meeting", Some("department@hospital.org"), Some(true))
      case 5 =>
        Event(5, 1, "Patient Rounds", Some("Evening rounds with nursing staff"),
          DemoTime(today, 0, 16 * 60), DemoTime(today, 0, 17 * 60 + 30), Some("Ward 3"),
          "rounds", Some("nursing@hospital.org"), Some(true))
      case 6 =>
        Event(6, 1, "Conference - New Cardiac Procedures", Some("Annual cardiology conference"),
          DemoTime(today, 7, 9 * 60), DemoTime(today, 7, 17 * 60), Some("Medical Convention Center"),
          "conference", Some(""), Some(true))
      case 7 =>
        Event(7, 1, "Journal Club Webinar", Some("Discussion of recent medical journal publications"),
          DemoTime(today, 5, 19 * 60), DemoTime(today, 5, 20 * 60 + 30), Some("Online (Zoom)"),
          "webinar", Some("journal-club@hospital.org"), Some(true))
      case _ =>
        Event(8, 1, "Specialized Surgery", Some("Cardiac procedure for Patient ID 12345"),
          DemoTime(today, 2, 10 * 60), DemoTime(today, 2, 14 * 60), Some("Operating Theater 2"),
          "surgery", Some("surgery-team@hospital.org"), Some(true))
  }

  /** The eight demo events, in the order they are stored. */
  function DemoEvents(today: Instant): (es: seq<Event>)
    ensures |es| == 8
  {
    seq(8, i requires 0 <= i < 8 => DemoEvent(today, i + 1))
  }

  /** The body of the demo note (an HTML fragment). */
  const DemoNoteContent: string :=
    "<p><b>Research Meeting Notes:</b></p>\n<p>- Discuss progress on cardiac study</p>\n"
    + "<p>- Review latest literature on hypertension treatment</p>\n<p>- Plan next phase of clinical trials</p>\n"
    + "<p>- Assign tasks to team members</p>\n<br>\n<p><b>Patient Follow-up:</b></p>\n"
    + "<p>- Check Mr. Doe's recovery progress</p>\n<p>- Update treatment plan if necessary</p>\n"
    + "<p>- Schedule next appointment</p>"

  /** The demo note, dated at the instant the store is created. */
  function DemoNote(today: Instant): Note {
    Note(1, 1, today, DemoNoteContent)
  }

  /** `this.events.set(e.id, e)` for each event in turn. */
  function SetEvents(m: KeyedMap<Event>, es: seq<Event>): KeyedMap<Event>
    decreases |es|
  {
    if es == [] then m else SetEvents(Set(m, es[0].id, es[0]), es[1..])
  }

  /** Storing events under their own ids keeps every entry under its own id and adds exactly their ids. */
  lemma {:induction false} SetEventsFacts(m: KeyedMap<Event>, es: seq<Event>)
    requires KeyedMaps.Valid(m) && forall k :: k in m.entries ==> m.entries[k].id == k
    ensures KeyedMaps.Valid(SetEvents(m, es))
    ensures forall k :: k in SetEvents(m, es).entries ==> SetEvents(m, es).entries[k].id == k
    ensures forall k :: k in SetEvents(m, es).entries ==> k in m.entries || exists i :: 0 <= i < |es| && es[i].id == k
    ensures forall k :: k in m.entries ==> k in SetEvents(m, es).entries
    ensures forall i :: 0 <= i < |es| ==> es[i].id in SetEvents(m, es).entries
    decreases |es|
  {
    if es != [] {
      var m' := Set(m, es[0].id, es[0]);
      SetFacts(m, es[0].id, es[0]);
      assert forall k :: k in m'.entries ==> Get(m', k) == if k == es[0].id then Some(es[0]) else Get(m, k);
      SetEventsFacts(m', es[1..]);
      forall i | 1 <= i < |es|
        ensures es[i].id in SetEvents(m, es).entries
      {
        assert es[i] == es[1..][i - 1];
      }
      forall k | k in SetEvents(m, es).entries
        ensures k in m.entries || exists i :: 0 <= i < |es| && es[i].id == k
      {
        if k !in m'.entries {
          var i :| 0 <= i < |es[1..]| && es[1..][i].id == k;
          assert es[i + 1].id == k;
        } else if k !in m.entries {
          assert es[0].id == k;
        }
      }
    }
  }

  /** The seeded events are stored under their ids, which are exactly 1 .. 8. */
  lemma DemoEventsFacts(today: Instant)
    ensures KeyedMaps.Valid(SetEvents(Empty(), DemoEvents(today)))
    ensures forall k :: k in SetEvents(Empty(), DemoEvents(today)).entries ==>
      SetEvents(Empty(), DemoEvents(today)).entries[k].id == k && 1 <= k < 9
    ensures forall k :: 1 <= k <= 8 ==> k in SetEvents(Empty(), DemoEvents(today)).entries
  {
    var es := DemoEvents(today);
    SetEventsFacts(Empty(), es);
    forall k | 1 <= k <= 8
      ensures k in SetEvents(Empty(), es).entries
    {
      DemoEventId(today, k - 1);
    }
    forall k | k in SetEvents(Empty(), es).entries
      ensures 1 <= k < 9
    {
      var i :| 0 <= i < |es| && es[i].id == k;
      DemoEventId(today, i);
    }
  }

  lemma DemoEventId(today: Instant, i: int)
    requires 0 <= i < 8
    ensures DemoEvents(today)[i].id == i + 1
  {
    assert DemoEvents(today)[i] == DemoEvent(today, i + 1);
  }

  // ---------------------------------------------------------------------
  // The store

  class MemStorage {
    var users: KeyedMap<User>
    var events: KeyedMap<Event>
    var notes: KeyedMap<Note>
    var userIdCounter: int
    var eventIdCounter: int
    var noteIdCounter: int

    /**
     * Every record is stored under its own id, and every event and note id is
     * below its counter, so a counter value has never been handed out.  User ids
     * are not bounded by their counter: the demo user sits at the counter's value.
     */
    ghost predicate Valid()
      reads this
    {
      && KeyedMaps.Valid(users) && KeyedMaps.Valid(events) && KeyedMaps.Valid(notes)
      && (forall k :: k in users.entries ==> users.entries[k].id == k)
      && (forall k :: k in events.entries ==> events.entries[k].id == k && k < eventIdCounter)
      && (forall k :: k in notes.entries ==> notes.entries[k].id == k && k < noteIdCounter)
    }

    /** The seeded store of storage.ts, with the clock's reading passed in as `today`. */
    constructor (today: Instant)
      ensures Valid()
      ensures userIdCounter == 1 && eventIdCounter == 9 && noteIdCounter == 2
      ensures users == Set(Empty(), 1, DemoUser())
      ensures events == SetEvents(Empty(), DemoEvents(today))
      ensures notes == Set(Empty(), 1, DemoNote(today))
    {
      var users0: KeyedMap<User> := Empty();
      var events0: KeyedMap<Event> := Empty();
      var notes0: KeyedMap<Note> := Empty();
      userIdCounter := 1;
      eventIdCounter := 1;
      noteIdCounter := 1;
      users := Set(users0, 1, DemoUser());
      events := SetEvents(events0, DemoEvents(today));
      notes := Set(notes0, 1, DemoNote(today));
      eventIdCounter := 9;
      noteIdCounter := 2;
      new;
      SetFacts(Empty<User>(), 1, DemoUser());
      SetFacts(Empty<Note>(), 1, DemoNote(today));
      DemoEventsFacts(today);
      assert forall k :: k in users.entries ==> Get(users, k) == Some(DemoUser());
      assert forall k :: k in notes.entries ==> Get(notes, k) == Some(DemoNote(today));
    }

    /** getUser: the user stored under `id`, if any. */
    function GetUser(id: int): (r: Option<User>)
      requires Valid()
      reads this
      ensures r.Some? <==> id in users.entries
      ensures r.Some? ==> r.value == users.entries[id] && r.value.id == id
    {
      Get(users, id)
    }

    /** getUserByUsername: the first stored user with that user name, if any. */
    function GetUserByUsername(username: string): (r: Option<User>)
      requires Valid()
      reads this
      ensures r.None? <==> forall u :: u in Values(users) ==> u.username != username
      ensures r.Some? ==> r.value in Values(users) && r.value.username == username
    {
      UserNamed(Values(users), username)
    }

    /** createUser (storage.ts:214-219): stores the user under the counter's value, overwriting whatever was there. */
    method CreateUser(data: InsertUser) returns (user: User)
      requires Valid()
      modifies this
      ensures Valid()
      ensures user == WithUserId(data, old(userIdCounter)) && userIdCounter == old(userIdCounter) + 1
      ensures users == Set(old(users), user.id, user) && GetUser(user.id) == Some(user)
      ensures forall j :: j != user.id ==> GetUser(j) == old(GetUser(j))
      ensures events == old(events) && notes == old(notes)
      ensures eventIdCounter == old(eventIdCounter) && noteIdCounter == old(noteIdCounter)
    {
      var id := userIdCounter;
      userIdCounter := userIdCounter + 1;
      user := WithUserId(data, id);
      SetFacts(users, id, user);
      users := Set(users, id, user);
      assert forall k :: k in users.entries ==> Get(users, k).value.id == k;
    }

    /** getAllEvents: the stored events in insertion order; each is found again under its id. */
    function GetAllEvents(): (r: seq<Event>)
      requires Valid()
      reads this
      ensures |r| == |events.keys|
      ensures forall e :: e in r ==> Get(events, e.id) == Some(e)
      ensures forall k :: k in events.entries ==> events.entries[k] in r
    {
      ValuesStored(events);
      ValuesComplete(events);
      Values(events)
    }

    /** getEventById: the event stored under `id`, if any. */
    function GetEventById(id: int): (r: Option<Event>)
      requires Valid()
      reads this
      ensures r.Some? <==> id in events.entries
      ensures r.Some? ==> r.value == events.entries[id] && r.value.id == id && id < eventIdCounter
    {
      Get(events, id)
    }

    /** getEventsByDate: exactly the stored events starting on the day of `date`. */
    function GetEventsByDate(date: DateTime): (r: seq<Event>)
      requires Valid()
      reads this
      ensures forall e :: e in r <==> e in GetAllEvents() && e.startTime.date == date.date
    {
      EventsOnDayExact(GetAllEvents(), date);
      EventsOnDay(GetAllEvents(), date)
    }

    /** getUpcomingEvents: stored events starting at or after `fromDate`, earliest first, at most `limit`. */
    function GetUpcomingEvents(fromDate: Instant, limit: int := 3): (r: seq<Event>)
      requires Valid()
      reads this
      ensures forall e :: e in r ==> e in GetAllEvents() && StartKey(e) >= Timestamp(fromDate)
      ensures SortedBy(r, StartKey)
      ensures 0 <= limit ==> |r| == if limit < |StartingFrom(GetAllEvents(), fromDate)| then limit
                                   else |StartingFrom(GetAllEvents(), fromDate)|
    {
      UpcomingQualify(GetAllEvents(), fromDate, limit);
      UpcomingCount(GetAllEvents(), fromDate, limit);
      Upcoming(GetAllEvents(), fromDate, limit)
    }

    /** createEvent (storage.ts:243-248): a fresh id, the counter moved on by one, the event appended. */
    method CreateEvent(data: InsertEvent) returns (event: Event)
      requires Valid()
      modifies this
      ensures Valid()
      ensures event == WithEventId(data, old(eventIdCounter)) && eventIdCounter == old(eventIdCounter) + 1
      ensures old(GetEventById(event.id)) == None && GetEventById(event.id) == Some(event)
      ensures events == Set(old(events), event.id, event)
      ensures GetAllEvents() == old(GetAllEvents()) + [event]
      ensures users == old(users) && notes == old(notes)
      ensures userIdCounter == old(userIdCounter) && noteIdCounter == old(noteIdCounter)
    {
      var id := eventIdCounter;
      eventIdCounter := eventIdCounter + 1;
      event := WithEventId(data, id);
      SetNewKeyAppends(events, id, event);
      SetFacts(events, id, event);
      events := Set(events, id, event);
      assert forall k :: k in events.entries ==> Get(events, k).value.id == k;
    }

    /** updateEvent (storage.ts:250-260): absent id, nothing changes; present id, every field replaced, id kept. */
    method UpdateEvent(id: int, data: InsertEvent) returns (result: Option<Event>)
      requires Valid()
      modifies this
      ensures Valid()
      ensures old(GetEventById(id)) == None ==> result == None && events == old(events)
      ensures old(GetEventById(id)).Some? ==>
        && result == Some(WithEventId(data, id))
        && events == Set(old(events), id, result.value)
        && events.keys == old(events.keys)
        && GetEventById(id) == result
      ensures forall j :: j != id ==> GetEventById(j) == old(GetEventById(j))
      ensures users == old(users) && notes == old(notes)
      ensures userIdCounter == old(userIdCounter) && eventIdCounter == old(eventIdCounter) && noteIdCounter == old(noteIdCounter)
    {
      var existing := Get(events, id);
      if existing.None? {
        return None;
      }
      var updated := WithEventId(data, id);
      SetFacts(events, id, updated);
      events := Set(events, id, updated);
      assert forall k :: k in events.entries ==> Get(events, k).value.id == k;
      result := Some(updated);
    }

    /** deleteEvent (storage.ts:262-264): true exactly when the id was stored; afterwards it is not. */
    method DeleteEvent(id: int) returns (deleted: bool)
      requires Valid()
      modifies this
      ensures Valid()
      ensures deleted == old(GetEventById(id)).Some?
      ensures events == Delete(old(events), id) && GetEventById(id) == None
      ensures forall j :: j != id ==> GetEventById(j) == old(GetEventById(j))
      ensures users == old(users) && notes == old(notes)
      ensures userIdCounter == old(userIdCounter) && eventIdCounter == old(eventIdCounter) && noteIdCounter == old(noteIdCounter)
    {
      deleted := id in events.entries;
      DeleteFacts(events, id);
      events := Delete(events, id);
      assert forall k :: k in events.entries ==> Get(events, k) == old(Get(events, k));
    }

    /** getAllNotes: the stored notes in insertion order; each is found again under its id. */
    function GetAllNotes(): (r: seq<Note>)
      requires Valid()
      reads this
      ensures |r| == |notes.keys|
      ensures forall n :: n in r ==> Get(notes, n.id) == Some(n)
      ensures forall k :: k in notes.entries ==> notes.entries[k] in r
    {
      ValuesStored(notes);
      ValuesComplete(notes);
      Values(notes)
    }

    /** getNoteById: the note stored under `id`, if any. */
    function GetNoteById(id: int): (r: Option<Note>)
      requires Valid()
      reads this
      ensures r.Some? <==> id in notes.entries
      ensures r.Some? ==> r.value == notes.entries[id] && r.value.id == id && id < noteIdCounter
    {
      Get(notes, id)
    }

    /** getNoteByDate: the first stored note dated on the day of `date`, or nothing when there is none. */
    function GetNoteByDate(date: DateTime): (r: Option<Note>)
      requires Valid()
      reads this
      ensures r.None? <==> forall n :: n in GetAllNotes() ==> n.date.date != date.date
      ensures r.Some? ==> r.value in GetAllNotes() && r.value.date.date == date.date
    {
      NoteOnDay(GetAllNotes(), date)
    }

    /** createNote (storage.ts:281-286): a fresh id, the counter moved on by one, the note appended. */
    method CreateNote(data: InsertNote) returns (note: Note)
      requires Valid()
      modifies this
      ensures Valid()
      ensures note == WithNoteId(data, old(noteIdCounter)) && noteIdCounter == old(noteIdCounter) + 1
      ensures old(GetNoteById(note.id)) == None && GetNoteById(note.id) == Some(note)
      ensures notes == Set(old(notes), note.id, note)
      ensures GetAllNotes() == old(GetAllNotes()) + [note]
      ensures users == old(users) && events == old(events)
      ensures userIdCounter == old(userIdCounter) && eventIdCounter == old(eventIdCounter)
    {
      var id := noteIdCounter;
      noteIdCounter := noteIdCounter + 1;
      note := WithNoteId(data, id);
      SetNewKeyAppends(notes, id, note);
      SetFacts(notes, id, note);
      notes := Set(notes, id, note);
      assert forall k :: k in notes.entries ==> Get(notes, k).value.id == k;
    }

    /** updateNote (storage.ts:288-298): absent id, nothing changes; present id, every field replaced, id kept. */
    method UpdateNote(id: int, data: InsertNote) returns (result: Option<Note>)
      requires Valid()
      modifies this
      ensures Valid()
      ensures old(GetNoteById(id)) == None ==> result == None && notes == old(notes)
      ensures old(GetNoteById(id)).Some? ==>
        && result == Some(WithNoteId(data, id))
        && notes == Set(old(notes), id, result.value)
        && notes.keys == old(notes.keys)
        && GetNoteById(id) == result
      ensures forall j :: j != id ==> GetNoteById(j) == old(GetNoteById(j))
      ensures users == old(users) && events == old(events)
      ensures userIdCounter == old(userIdCounter) && eventIdCounter == old(eventIdCounter) && noteIdCounter == old(noteIdCounter)
    {
      var existing := Get(notes, id);
      if existing.None? {
        return None;
      }
      var updated := WithNoteId(data, id);
      SetFacts(notes, id, updated);
      notes := Set(notes, id, updated);
      assert forall k :: k in notes.entries ==> Get(notes, k).value.id == k;
      result := Some(updated);
    }

    /** deleteNote (storage.ts:300-302): true exactly when the id was stored; afterwards it is not. */
    method DeleteNote(id: int) returns (deleted: bool)
      requires Valid()
      modifies this
      ensures Valid()
      ensures deleted == old(GetNoteById(id)).Some?
      ensures notes == Delete(old(notes), id) && GetNoteById(id) == None
      ensures forall j :: j != id ==> GetNoteById(j) == old(GetNoteById(j))
      ensures users == old(users) && events == old(events)
      ensures userIdCounter == old(userIdCounter) && eventIdCounter == old(eventIdCounter) && noteIdCounter == old(noteIdCounter)
    {
      deleted := id in notes.entries;
      DeleteFacts(notes, id);
      notes := Delete(notes, id);
      assert forall k :: k in notes.entries ==> Get(notes, k) == old(Get(notes, k));
    }
  }

  /**
   * The user counter starts at 1 although the demo user already holds id 1, so the
   * first account created on a fresh store gets id 1 and replaces the demo user.
   */
  method FirstUserReplacesDemoUser(today: Instant, data: InsertUser)
    returns (user: User, demoBefore: Option<User>, atOneAfter: Option<User>, userCount: int)
    ensures user == WithUserId(data, 1)
    ensures demoBefore == Some(DemoUser()) && atOneAfter == Some(user)
    ensures userCount == 1
  {
    var store := new MemStorage(today);
    demoBefore := store.GetUser(1);
    user := store.CreateUser(data);
    atOneAfter := store.GetUser(1);
    userCount := |store.users.keys|;
  }
}
