/**
 * The records of shared/schema.ts as the in-memory store holds them.  An
 * `Insert…` record is what a client submits; the stored record is the same
 * fields plus the `id` the store assigns (`{ ...insert, id }`).  Nullable
 * columns are `Option`s, timestamps are `Instant`s.
 */
module Schema {
  import opened Options
  import opened Dates

  datatype InsertUser = InsertUser(
    username: string, password: string, fullName: string,
    specialty: Option<string>, avatarUrl: Option<string>)

  datatype User = User(
    id: int, username: string, password: string, fullName: string,
    specialty: Option<string>, avatarUrl: Option<string>)

  datatype InsertEvent = InsertEvent(
    userId: int, title: string, description: Option<string>,
    startTime: Instant, endTime: Instant, location: Option<string>,
    eventType: string, participants: Option<string>, hasReminder: Option<bool>)

  datatype Event = Event(
    id: int, userId: int, title: string, description: Option<string>,
    startTime: Instant, endTime: Instant, location: Option<string>,
    eventType: string, participants: Option<string>, hasReminder: Option<bool>)

  datatype InsertNote = InsertNote(userId: int, date: Instant, content: string)

  datatype Note = Note(id: int, userId: int, date: Instant, content: string)

  /** The submitted fields of a stored user. */
  function UserData(u: User): InsertUser {
    InsertUser(u.username, u.password, u.fullName, u.specialty, u.avatarUrl)
  }

  /** `{ ...insertUser, id }`: the submitted fields, unchanged, under the given id. */
  function WithUserId(data: InsertUser, id: int): (u: User)
    ensures u.id == id && UserData(u) == data
  {
    User(id, data.username, data.password, data.fullName, data.specialty, data.avatarUrl)
  }

  /** The submitted fields of a stored event. */
  function EventData(e: Event): InsertEvent {
    InsertEvent(e.userId, e.title, e.description, e.startTime, e.endTime,
                e.location, e.eventType, e.participants, e.hasReminder)
  }

  /** `{ ...insertEvent, id }`: the submitted fields, unchanged, under the given id. */
  function WithEventId(data: InsertEvent, id: int): (e: Event)
    ensures e.id == id && EventData(e) == data
  {
    Event(id, data.userId, data.title, data.description, data.startTime, data.endTime,
          data.location, data.eventType, data.participants, data.hasReminder)
  }

  /** The submitted fields of a stored note. */
  function NoteData(n: Note): InsertNote {
    InsertNote(n.userId, n.date, n.content)
  }

  /** `{ ...insertNote, id }`: the submitted fields, unchanged, under the given id. */
  function WithNoteId(data: InsertNote, id: int): (n: Note)
    ensures n.id == id && NoteData(n) == data
  {
    Note(id, data.userId, data.date, data.content)
  }

  /** A stored record is exactly its submitted fields under its id: nothing is lost or invented. */
  lemma StoredRecordsRoundTrip(u: User, e: Event, n: Note)
    ensures WithUserId(UserData(u), u.id) == u
    ensures WithEventId(EventData(e), e.id) == e
    ensures WithNoteId(NoteData(n), n.id) == n
  {
  }
}
