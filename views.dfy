/**
 The decision and state logic of the request handlers in
 event_hub_app/auth/views.py.

 The database is an `EventHub` object: the `users` table as a map from id to
 row, the `events` table (each event with its participant list) as a sequence
 in query order, and the counter that stands in for UUID generation. The
 current user, the clock and the password check are parameters. Where a
 handler dereferences a missing event or the anonymous user and so raises,
 the model returns an error value and changes nothing.
 */
module Views {
  import opened Model

  /** `timedelta(minutes=1)` with timestamps counted in microseconds. */
  const MICROS_PER_MINUTE: int := 60_000_000

  /** `url_for('welcome')`. */
  const WELCOME_URL: string := "/welcome"

  datatype Failure =
    | EmailExists    // register: "Email already exists."
    | StoreRejected  // register: the insert violates the unique username column
    | NameExists     // organize_event: "Event with this name already exists!"
    | NotLoggedIn    // `current_user.id` on the anonymous user raises
    | EventMissing   // `Event.query.get` found no event with that id

  datatype Result<T> = Ok(value: T) | Err(error: Failure)

  datatype Registration = Registered | AlreadyRegistered

  /** The three flags `event_details` passes to its template. */
  datatype Details = Details(organiser: bool, registered: bool, eventClosed: bool)

  datatype LoginOutcome =
    | Redirected(user: UserId, target: string)  // logged in, then redirected
    | Rejected                                  // "User doesn't Exit! -register"
    | LoginFailed(user: UserId)                 // logged in, then the redirect choice raised

  /** `event.date_time + timedelta(minutes=int(event.duration))`: an event
      ends after it starts exactly when its duration is positive. */
  function EndTime(e: Event): (t: int)
    ensures t > e.dateTime <==> e.duration > 0
    ensures t == e.dateTime <==> e.duration == 0
  {
    e.dateTime + e.duration * MICROS_PER_MINUTE
  }

  /** The conditions the list views filter events by. */
  datatype Criterion =
    | AttendedBy(user: UserId)  // Event.participants.any(id=user.id)
    | StartsAfter(now: int)     // event.date_time > current_date
    | EndedBefore(now: int)     // end_time < current_date
    | EndedBy(now: int)         // end_time <= current_date

  predicate Meets(e: Event, c: Criterion)
  {
    match c
    case AttendedBy(u) => u in e.participants
    case StartsAfter(now) => e.dateTime > now
    case EndedBefore(now) => EndTime(e) < now
    case EndedBy(now) => EndTime(e) <= now
  }

  /** The events of `es` that meet `c`, in the order of `es`. */
  function Select(es: seq<Event>, c: Criterion): (r: seq<Event>)
    ensures |r| <= |es|
    ensures forall e :: e in r <==> e in es && Meets(e, c)
  {
    if es == [] then []
    else
      assert es == es[..|es| - 1] + [es[|es| - 1]];
      Select(es[..|es| - 1], c) + (if Meets(es[|es| - 1], c) then [es[|es| - 1]] else [])
  }

  /** What `user_registered_events` lists: the user's events that start after `now`. */
  function RegisteredList(es: seq<Event>, u: UserId, now: int): (r: seq<Event>)
    ensures forall e :: e in r <==> e in es && u in e.participants && e.dateTime > now
  {
    Select(Select(es, AttendedBy(u)), StartsAfter(now))
  }

  /** What `user_participated_events` lists: the user's events that ended before `now`. */
  function ParticipatedList(es: seq<Event>, u: UserId, now: int): (r: seq<Event>)
    ensures forall e :: e in r <==> e in es && u in e.participants && EndTime(e) < now
  {
    Select(Select(es, AttendedBy(u)), EndedBefore(now))
  }

  /** What `archived_events` lists: every event that ended at or before `now`. */
  function ArchivedList(es: seq<Event>, now: int): (r: seq<Event>)
    ensures forall e :: e in r <==> e in es && EndTime(e) <= now
  {
    Select(es, EndedBy(now))
  }

  /** At the very instant an event ends it is archived, but not yet in the
      participated list of any of its participants. */
  lemma ArchivedBeforeParticipated(es: seq<Event>, u: UserId, e: Event)
    requires e in es && u in e.participants
    ensures e in ArchivedList(es, EndTime(e))
    ensures e !in ParticipatedList(es, u, EndTime(e))
  {
  }

  /** Every event a user has participated in is also archived. */
  lemma ParticipatedAreArchived(es: seq<Event>, u: UserId, now: int, e: Event)
    requires e in ParticipatedList(es, u, now)
    ensures e in ArchivedList(es, now)
  {
  }

  /** With non-negative durations, no event is both registered and participated. */
  lemma RegisteredParticipatedDisjoint(es: seq<Event>, u: UserId, now: int, e: Event)
    requires forall x :: x in es ==> x.duration >= 0
    ensures !(e in RegisteredList(es, u, now) && e in ParticipatedList(es, u, now))
  {
  }

  /** `Event.query.get(event_id)`: the position of the event with that id. */
  function IndexOf(es: seq<Event>, id: EventId): (r: Option<nat>)
    ensures r.Some? ==> r.value < |es| && es[r.value].id == id
    ensures r.None? ==> forall e :: e in es ==> e.id != id
  {
    if es == [] then None
    else if es[0].id == id then Some(0)
    else match IndexOf(es[1..], id)
      case None => None
      case Some(k) => Some(k + 1)
  }

  /** The redirect target chosen after a successful login, None when the
      choice raises: `next_welcome[0]` on an empty `next` argument. */
  function RedirectTarget(next: Option<string>): (r: Option<string>)
    ensures r.None? <==> next == Some("")
    ensures r.Some? ==> |r.value| > 0 && r.value[0] == '/'
    ensures r.Some? && next.Some? && |next.value| > 0 && next.value[0] == '/' ==> r.value == next.value
    ensures next.None? || (next.value != "" && next.value[0] != '/') ==> r == Some(WELCOME_URL)
  {
    match next
    case None => Some(WELCOME_URL)
    case Some(n) => if n == "" then None else if n[0] != '/' then Some(WELCOME_URL) else Some(n)
  }

  /** The `next` argument is followed exactly when it is present and starts with '/'. */
  lemma RedirectFollowsNext(next: Option<string>)
    ensures RedirectTarget(next) == next <==> next.Some? && |next.value| > 0 && next.value[0] == '/'
  {
    if next.Some? && next.value != "" && next.value[0] != '/' {
      assert WELCOME_URL[0] == '/';
    }
  }

  predicate EmailTaken(users: map<UserId, User>, email: string)
  {
    exists id :: id in users && users[id].email == email
  }

  predicate UsernameTaken(users: map<UserId, User>, username: string)
  {
    exists id :: id in users && users[id].username == username
  }

  predicate NameTaken(es: seq<Event>, name: string)
  {
    exists e :: e in es && e.name == name
  }

  predicate NamesDistinct(es: seq<Event>)
  {
    forall i, j :: 0 <= i < j < |es| ==> es[i].name != es[j].name
  }

  /** The foreign keys and keys of an event row: the organizer and every
      participant is a stored user and nobody is listed twice (the composite
      key of `event_participant`). */
  predicate EventWellFormed(e: Event, users: map<UserId, User>, nextId: nat)
  {
    && e.id < nextId
    && e.organizerId in users
    && NoDuplicates(e.participants)
    && (forall v :: v in e.participants ==> v in users)
  }

  /** The integrity constraints of the database. Event names are not among them. */
  predicate HubValid(users: map<UserId, User>, events: seq<Event>, nextId: nat)
  {
    && (forall id :: id in users ==> users[id].id == id && id < nextId)
    && UsersUnique(users)
    && DistinctIds(events)
    && (forall e :: e in events ==> EventWellFormed(e, users, nextId))
  }

  /** In a consistent database no (event, user) pair occurs twice in `event_participant`. */
  lemma ParticipationKeyHolds(users: map<UserId, User>, events: seq<Event>, nextId: nat)
    requires HubValid(users, events, nextId)
    ensures NoDuplicates(ParticipationRows(events))
  {
    RowsUnique(events);
  }

  /** Nothing in the schema keeps event names apart: a consistent database
      may hold two events with one name. */
  lemma EventNamesMayRepeat()
    ensures exists users, events, n :: HubValid(users, events, n) && !NamesDistinct(events)
  {
    var u := User(0, "a", "a@b.c", "0000000000", "h");
    var users := map[0 := u];
    var e1 := NewEvent(1, "Meetup", "", 0, 60, None, 0);
    var e2 := NewEvent(2, "Meetup", "", 0, 60, None, 0);
    var events := [e1, e2];
    assert forall e :: e in events ==> e == e1 || e == e2;
    assert EventWellFormed(e1, users, 3) && EventWellFormed(e2, users, 3);
    assert UsersUnique(users);
    assert HubValid(users, events, 3);
    assert events[0].name == events[1].name;
  }

  /** Replacing an event by one with the same id does not move any id. */
  lemma {:induction false} IndexOfUpdate(es: seq<Event>, i: nat, e: Event, id: EventId)
    requires i < |es| && e.id == es[i].id
    ensures IndexOf(es[i := e], id) == IndexOf(es, id)
  {
    if i > 0 {
      assert es[i := e][1..] == es[1..][i - 1 := e];
      IndexOfUpdate(es[1..], i - 1, e, id);
    }
  }

  /** Removing the event at position `i` keeps the ids distinct and removes
      exactly the events with its id, that is, that one event. */
  lemma RemoveAt(es: seq<Event>, i: nat)
    requires DistinctIds(es) && i < |es|
    ensures DistinctIds(es[..i] + es[i + 1..])
    ensures forall e :: e in es[..i] + es[i + 1..] <==> e in es && e.id != es[i].id
  {
    var rest := es[..i] + es[i + 1..];
    assert forall k :: 0 <= k < |rest| ==> rest[k] == es[if k < i then k else k + 1];
    forall e
      ensures e in rest <==> e in es && e.id != es[i].id
    {
      if e in es && e.id != es[i].id {
        var n :| 0 <= n < |es| && es[n] == e;
        assert rest[if n < i then n else n - 1] == e;
      }
      if e in rest {
        var k :| 0 <= k < |rest| && rest[k] == e;
      }
    }
  }

  /** `register_event` on one event: the user is appended unless already listed. */
  function AddParticipant(e: Event, u: UserId): (r: Event)
    ensures forall v :: v in r.participants <==> v in e.participants || v == u
    ensures u in e.participants ==> r == e
    ensures u !in e.participants ==> r.participants == e.participants + [u]
    ensures r == e.(participants := r.participants)
    ensures NoDuplicates(e.participants) ==> NoDuplicates(r.participants)
  {
    if u in e.participants then e else e.(participants := e.participants + [u])
  }

  /** Registering the same user twice amounts to registering once. */
  lemma AddParticipantIdempotent(e: Event, u: UserId)
    ensures AddParticipant(AddParticipant(e, u), u) == AddParticipant(e, u)
  {
  }

  /** The new values `update_event` assigns: five fields change, the id, the
      organizer and the participants stay. */
  function Edited(e: Event, name: string, description: string, dateTime: int,
                  duration: int, location: Option<string>): (r: Event)
    ensures r.id == e.id && r.organizerId == e.organizerId && r.participants == e.participants
    ensures r.name == name && r.description == description && r.dateTime == dateTime
    ensures r.duration == duration && r.location == location
  {
    e.(name := name, description := description, dateTime := dateTime,
       duration := duration, location := location)
  }

  /** `update_event` does not check the new name against the other events: an
      edit can give an event the name of another one, so distinct names do
      not survive it. */
  lemma EditCanRepeatNames(es: seq<Event>)
    requires |es| >= 2 && NamesDistinct(es)
    ensures !NamesDistinct(es[1 := Edited(es[1], es[0].name, es[1].description, es[1].dateTime,
                                          es[1].duration, es[1].location)])
  {
    var edited := es[1 := Edited(es[1], es[0].name, es[1].description, es[1].dateTime,
                                 es[1].duration, es[1].location)];
    assert edited[0].name == edited[1].name;
  }

  /** The `registered` flag of `event_details` scans the user's events for the
      event's id; with distinct ids that is the same as membership. */
  lemma RegisteredScan(es: seq<Event>, k: nat, u: UserId)
    requires DistinctIds(es) && k < |es|
    ensures (exists j :: 0 <= j < |Select(es, AttendedBy(u))| && Select(es, AttendedBy(u))[j].id == es[k].id)
            <==> u in es[k].participants
  {
    var mine := Select(es, AttendedBy(u));
    if u in es[k].participants {
      assert es[k] in es && es[k] in mine;
      var j :| 0 <= j < |mine| && mine[j] == es[k];
      assert 0 <= j < |Select(es, AttendedBy(u))| && Select(es, AttendedBy(u))[j].id == es[k].id;
    } else {
      forall j | 0 <= j < |mine|
        ensures mine[j].id != es[k].id
      {
        assert mine[j] in mine && mine[j] in es && Meets(mine[j], AttendedBy(u));
        var n :| 0 <= n < |es| && es[n] == mine[j];
        assert n != k;
      }
    }
  }

  class EventHub {
    var users: map<UserId, User>
    var events: seq<Event>
    var nextId: nat

    ghost predicate Valid()
      reads this
    {
      HubValid(users, events, nextId)
    }

    /** An empty database. */
    constructor ()
      ensures Valid()
      ensures users == map[] && events == [] && nextId == 0
    {
      users, events, nextId := map[], [], 0;
    }

    /** `login`: look the user up by email, check the password with the
        foreign hash check, then choose where to redirect. */
    method Login(email: string, passwordMatches: User -> bool, next: Option<string>) returns (o: LoginOutcome)
      requires Valid()
      ensures !EmailTaken(users, email) ==> o == Rejected
      ensures forall id :: id in users && users[id].email == email ==>
        o == if !passwordMatches(users[id]) then Rejected
             else match RedirectTarget(next)
               case Some(t) => Redirected(id, t)
               case None => LoginFailed(id)
    {
      if !EmailTaken(users, email) {
        return Rejected;
      }
      var id :| id in users && users[id].email == email;
      if !passwordMatches(users[id]) {
        return Rejected;
      }
      var target := RedirectTarget(next);
      if target.None? {
        o := LoginFailed(id);
      } else {
        o := Redirected(id, target.value);
      }
    }

    /** `register`: refuse a known email; an insert that breaks the unique
        username column is refused by the store; otherwise add the user. */
    method Register(email: string, username: string, phoneNumber: string, hashedPassword: string)
      returns (r: Result<UserId>)
      requires Valid()
      modifies this
      ensures Valid()
      ensures EmailTaken(old(users), email) ==> r == Err(EmailExists) && unchanged(this)
      ensures !EmailTaken(old(users), email) && UsernameTaken(old(users), username) ==>
        r == Err(StoreRejected) && unchanged(this)
      ensures !EmailTaken(old(users), email) && !UsernameTaken(old(users), username) ==>
        && r == Ok(old(nextId))
        && users == old(users)[old(nextId) := NewUser(old(nextId), username, hashedPassword, email, phoneNumber)]
        && events == old(events) && nextId == old(nextId) + 1
    {
      if EmailTaken(users, email) {
        return Err(EmailExists);
      }
      if UsernameTaken(users, username) {
        return Err(StoreRejected);
      }
      var id := nextId;
      users := users[id := NewUser(id, username, hashedPassword, email, phoneNumber)];
      nextId := nextId + 1;
      r := Ok(id);
      forall e | e in events
        ensures EventWellFormed(e, users, nextId)
      {
        assert EventWellFormed(e, old(users), old(nextId));
      }
    }

    /** `organize_event`: refuse a name already in use, then create the event
        with the current user as its organizer. */
    method OrganizeEvent(current: Option<UserId>, name: string, description: string, dateTime: int,
                         duration: int, location: Option<string>) returns (r: Result<EventId>)
      requires Valid()
      requires current.Some? ==> current.value in users
      modifies this
      ensures Valid()
      ensures NameTaken(old(events), name) ==> r == Err(NameExists) && unchanged(this)
      ensures !NameTaken(old(events), name) && current.None? ==> r == Err(NotLoggedIn) && unchanged(this)
      ensures !NameTaken(old(events), name) && current.Some? ==>
        && r == Ok(old(nextId))
        && events == old(events) + [NewEvent(old(nextId), name, description, dateTime, duration, location, current.value)]
        && users == old(users) && nextId == old(nextId) + 1
      ensures NamesDistinct(old(events)) ==> NamesDistinct(events)
    {
      if NameTaken(events, name) {
        return Err(NameExists);
      }
      if current.None? {
        return Err(NotLoggedIn);
      }
      var id := nextId;
      var e := NewEvent(id, name, description, dateTime, duration, location, current.value);
      assert forall i :: 0 <= i < |events| ==> events[i] in old(events);
      events := events + [e];
      nextId := nextId + 1;
      r := Ok(id);
      forall x | x in events
        ensures EventWellFormed(x, users, nextId)
      {
        if x != e {
          assert EventWellFormed(x, users, old(nextId));
        }
      }
    }

    /** `event_details`: whether the viewer organizes the event, is registered
        for it, and whether its start has passed. */
    method EventDetails(eventId: EventId, viewer: Option<UserId>, now: int) returns (r: Result<Details>)
      requires Valid()
      ensures viewer.None? ==> r == Err(NotLoggedIn)
      ensures viewer.Some? && IndexOf(events, eventId).None? ==> r == Err(EventMissing)
      ensures viewer.Some? && IndexOf(events, eventId).Some? ==>
        var e := events[IndexOf(events, eventId).value];
        && r.Ok?
        && (r.value.organiser <==> viewer.value == e.organizerId)
        && (r.value.registered <==> viewer.value in e.participants)
        && (r.value.eventClosed <==> now >= e.dateTime)
    {
      if viewer.None? {
        return Err(NotLoggedIn);
      }
      var u := viewer.value;
      var found := IndexOf(events, eventId);
      if found.None? {
        return Err(EventMissing);
      }
      var event := events[found.value];
      var organiser := u == event.organizerId;
      var eventsList := Select(events, AttendedBy(u));
      var registered := false;
      for i := 0 to |eventsList|
        invariant registered <==> exists j :: 0 <= j < i && eventsList[j].id == event.id
      {
        if eventsList[i].id == event.id {
          registered := true;
        }
      }
      assert registered <==> exists j :: 0 <= j < |eventsList| && eventsList[j].id == event.id;
      assert eventsList == Select(events, AttendedBy(u));
      assert event == events[found.value];
      RegisteredScan(events, found.value, u);
      assert (exists j :: 0 <= j < |eventsList| && eventsList[j].id == event.id) <==> u in event.participants;
      assert registered <==> u in event.participants;
      var eventClosed := now >= event.dateTime;
      r := Ok(Details(organiser, registered, eventClosed));
    }

    /** `register_event`: append the current user to the event's participants
        unless already there. The clock is not consulted. */
    method RegisterEvent(eventId: EventId, current: Option<UserId>) returns (r: Result<Registration>)
      requires Valid()
      requires current.Some? ==> current.value in users
      modifies this
      ensures Valid()
      ensures current.None? ==> r == Err(NotLoggedIn) && unchanged(this)
      ensures current.Some? && IndexOf(old(events), eventId).None? ==> r == Err(EventMissing) && unchanged(this)
      ensures current.Some? && IndexOf(old(events), eventId).Some? ==>
        var i := IndexOf(old(events), eventId).value;
        && r == Ok(if current.value in old(events)[i].participants then AlreadyRegistered else Registered)
        && events == old(events)[i := AddParticipant(old(events)[i], current.value)]
        && users == old(users) && nextId == old(nextId)
      ensures IndexOf(events, eventId) == IndexOf(old(events), eventId)
    {
      if current.None? {
        return Err(NotLoggedIn);
      }
      var u := current.value;
      var found := IndexOf(events, eventId);
      if found.None? {
        return Err(EventMissing);
      }
      var i := found.value;
      var event := events[i];
      if u in event.participants {
        return Ok(AlreadyRegistered);
      }
      assert event in events;
      var updated := AddParticipant(event, u);
      events := events[i := updated];
      r := Ok(Registered);
      IndexOfUpdate(old(events), i, updated, eventId);
      assert EventWellFormed(updated, users, nextId);
      forall x | x in events
        ensures EventWellFormed(x, users, nextId)
      {
        var k :| 0 <= k < |events| && events[k] == x;
        if k != i {
          assert old(events)[k] in old(events);
        }
      }
    }

    /** `user_registered_events`: the user's events that start after `now`. */
    method RegisteredEvents(u: UserId, now: int) returns (r: seq<Event>)
      ensures r == RegisteredList(events, u, now)
      ensures forall e :: e in r <==> e in events && u in e.participants && e.dateTime > now
    {
      var eventsList := Select(events, AttendedBy(u));
      r := [];
      for i := 0 to |eventsList|
        invariant r == Select(eventsList[..i], StartsAfter(now))
      {
        assert eventsList[..i + 1][..i] == eventsList[..i];
        if eventsList[i].dateTime > now {
          r := r + [eventsList[i]];
        }
      }
      assert eventsList[..|eventsList|] == eventsList;
    }

    /** `user_participated_events`: the user's events that ended strictly before `now`. */
    method ParticipatedEvents(u: UserId, now: int) returns (r: seq<Event>)
      ensures r == ParticipatedList(events, u, now)
      ensures forall e :: e in r <==> e in events && u in e.participants && EndTime(e) < now
    {
      var eventsList := Select(events, AttendedBy(u));
      r := [];
      for i := 0 to |eventsList|
        invariant r == Select(eventsList[..i], EndedBefore(now))
      {
        assert eventsList[..i + 1][..i] == eventsList[..i];
        var endTime := eventsList[i].dateTime + eventsList[i].duration * MICROS_PER_MINUTE;
        if endTime < now {
          r := r + [eventsList[i]];
        }
      }
      assert eventsList[..|eventsList|] == eventsList;
    }

    /** `archived_events`: every event that ended at or before `now`. */
    method ArchivedEvents(now: int) returns (r: seq<Event>)
      ensures r == ArchivedList(events, now)
      ensures forall e :: e in r <==> e in events && EndTime(e) <= now
    {
      r := [];
      for i := 0 to |events|
        invariant r == Select(events[..i], EndedBy(now))
      {
        assert events[..i + 1][..i] == events[..i];
        var endTime := events[i].dateTime + events[i].duration * MICROS_PER_MINUTE;
        if endTime <= now {
          r := r + [events[i]];
        }
      }
      assert events[..|events|] == events;
    }

    /** `update_event`: overwrite five fields of the stored event. The new
        name is not checked against the other events. */
    method UpdateEvent(eventId: EventId, name: string, description: string, dateTime: int,
                       duration: int, location: Option<string>) returns (r: Result<()>)
      requires Valid()
      modifies this
      ensures Valid()
      ensures IndexOf(old(events), eventId).None? ==> r == Err(EventMissing) && unchanged(this)
      ensures IndexOf(old(events), eventId).Some? ==>
        var i := IndexOf(old(events), eventId).value;
        && r == Ok(())
        && events == old(events)[i := Edited(old(events)[i], name, description, dateTime, duration, location)]
        && users == old(users) && nextId == old(nextId)
    {
      var found := IndexOf(events, eventId);
      if found.None? {
        return Err(EventMissing);
      }
      var i := found.value;
      var updated := Edited(events[i], name, description, dateTime, duration, location);
      events := events[i := updated];
      r := Ok(());
      assert old(events)[i] in old(events);
      forall x | x in events
        ensures EventWellFormed(x, users, nextId)
      {
        var k :| 0 <= k < |events| && events[k] == x;
        if k != i {
          assert old(events)[k] in old(events);
        }
      }
    }

    /** `delete_event`: remove the event with that id, if there is one. */
    method DeleteEvent(eventId: EventId) returns (r: Result<()>)
      requires Valid()
      modifies this
      ensures Valid()
      ensures IndexOf(old(events), eventId).None? ==> r == Err(EventMissing) && unchanged(this)
      ensures IndexOf(old(events), eventId).Some? ==>
        var i := IndexOf(old(events), eventId).value;
        && r == Ok(())
        && events == old(events)[..i] + old(events)[i + 1..]
        && users == old(users) && nextId == old(nextId)
      ensures forall e :: e in events <==> e in old(events) && e.id != eventId
    {
      var found := IndexOf(events, eventId);
      if found.None? {
        return Err(EventMissing);
      }
      var i := found.value;
      RemoveAt(events, i);
      forall x | x in events[..i] + events[i + 1..]
        ensures EventWellFormed(x, users, nextId)
      {
      }
      events := events[..i] + events[i + 1..];
      r := Ok(());
    }
  }

  /** A client of `RegisterEvent`: registering the same user a second time
      reports `AlreadyRegistered` and changes nothing. */
  method RegisterTwice(hub: EventHub, eventId: EventId, u: UserId)
    returns (first: Result<Registration>, second: Result<Registration>)
    requires hub.Valid() && u in hub.users && IndexOf(hub.events, eventId).Some?
    modifies hub
    ensures hub.Valid() && first.Ok? && second == Ok(AlreadyRegistered)
    ensures var i := IndexOf(old(hub.events), eventId).value;
      && (u !in old(hub.events)[i].participants ==> first == Ok(Registered))
      && hub.events == old(hub.events)[i := AddParticipant(old(hub.events)[i], u)]
  {
    first := hub.RegisterEvent(eventId, Some(u));
    ghost var afterFirst := hub.events;
    second := hub.RegisterEvent(eventId, Some(u));
    assert hub.events == afterFirst;
  }
}
