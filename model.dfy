/**
 The records of the event hub: users, events, feedback and the
 participation relation between events and users (event_hub_app/auth/model.py).

 Identifiers are natural numbers handed out by the store; the original uses
 UUID strings generated on insert. A nullable column is an `Option`.
 */
module Model {

  datatype Option<T> = None | Some(value: T)

  type UserId = nat
  type EventId = nat

  /** A row of the `users` table. The password is kept only as the hash the
      (foreign) hashing routine produced for it. */
  datatype User = User(
    id: UserId,
    username: string,
    email: string,
    phoneNumber: string,
    hashedPassword: string)

  /** A row of the `events` table together with its participant list, which is
      the part of the `event_participant` table that belongs to this event.
      `dateTime` is a timestamp in microseconds, `duration` a number of minutes. */
  datatype Event = Event(
    id: EventId,
    name: string,
    description: string,
    dateTime: int,
    duration: int,
    location: Option<string>,
    organizerId: UserId,
    participants: seq<UserId>)

  /** A row of the `feedbacks` table; `comment` and `rating` are nullable. */
  datatype Feedback = Feedback(
    id: nat,
    eventId: EventId,
    userId: UserId,
    comment: Option<string>,
    rating: Option<int>)

  predicate NoDuplicates<T(==)>(s: seq<T>)
  {
    forall i, j :: 0 <= i < j < |s| ==> s[i] != s[j]
  }

  /** The primary key of `events`: no two events share an id. */
  predicate DistinctIds(es: seq<Event>)
  {
    forall i, j :: 0 <= i < j < |es| ==> es[i].id != es[j].id
  }

  /** The `unique=True` flags on the `username` and `email` columns of `users`. */
  predicate UsersUnique(users: map<UserId, User>)
  {
    forall a, b :: a in users && b in users && a != b ==>
      users[a].username != users[b].username && users[a].email != users[b].email
  }

  /** The primary key of `feedbacks`: only the id is a key. */
  predicate FeedbackIdsDistinct(fb: seq<Feedback>)
  {
    forall i, j :: 0 <= i < j < |fb| ==> fb[i].id != fb[j].id
  }

  /** The `User` constructor: the id is the default the store assigns on insert. */
  function NewUser(id: UserId, username: string, hashedPassword: string, email: string, phoneNumber: string): (u: User)
    ensures u.id == id && u.username == username && u.email == email
    ensures u.phoneNumber == phoneNumber && u.hashedPassword == hashedPassword
  {
    User(id, username, email, phoneNumber, hashedPassword)
  }

  /** The `Event` constructor: `eventDuration` is stored as the duration, every
      other argument unchanged, and a new event has no participants. */
  function NewEvent(id: EventId, name: string, description: string, dateTime: int,
                    eventDuration: int, location: Option<string>, organizerId: UserId): (e: Event)
    ensures e.id == id && e.name == name && e.description == description
    ensures e.dateTime == dateTime && e.duration == eventDuration
    ensures e.location == location && e.organizerId == organizerId
    ensures e.participants == []
  {
    Event(id, name, description, dateTime, eventDuration, location, organizerId, [])
  }

  /** The `Feedback` constructor; the id is assigned by the store. */
  function NewFeedback(id: nat, eventId: EventId, userId: UserId, rating: Option<int>, comment: Option<string>): (f: Feedback)
    ensures f.id == id && f.eventId == eventId && f.userId == userId
    ensures f.rating == rating && f.comment == comment
  {
    Feedback(id, eventId, userId, comment, rating)
  }

  /** Only the id keys `feedbacks`: two rows may rate the same event for the same user. */
  lemma FeedbackPairMayRepeat(eventId: EventId, userId: UserId)
    ensures exists fb: seq<Feedback> ::
              FeedbackIdsDistinct(fb) && |fb| == 2 &&
              fb[0].eventId == fb[1].eventId == eventId && fb[0].userId == fb[1].userId == userId
  {
    var fb := [NewFeedback(1, eventId, userId, Some(4), None), NewFeedback(2, eventId, userId, Some(5), None)];
    assert FeedbackIdsDistinct(fb);
  }

  /** `Event.check_event_name`: true when the event is NOT called `eventName`. */
  function CheckEventName(e: Event, eventName: string): (r: bool)
    ensures r <==> e.name != eventName
  {
    e.name != eventName
  }

  /** The `event_participant` rows contributed by one event. */
  function PairsOf(e: Event): (r: seq<(EventId, UserId)>)
    ensures |r| == |e.participants|
    ensures forall k :: 0 <= k < |r| ==> r[k] == (e.id, e.participants[k])
  {
    seq(|e.participants|, k requires 0 <= k < |e.participants| => (e.id, e.participants[k]))
  }

  /** The whole `event_participant` table, event by event: every row pairs
      an event with one of the users it lists. */
  function ParticipationRows(es: seq<Event>): (r: seq<(EventId, UserId)>)
    ensures forall p :: p in r ==> exists e :: e in es && e.id == p.0 && p.1 in e.participants
  {
    if es == [] then []
    else
      var init, last := es[..|es| - 1], es[|es| - 1];
      assert es == init + [last];
      assert forall k :: 0 <= k < |last.participants| ==> last.participants[k] in last.participants;
      ParticipationRows(init) + PairsOf(last)
  }

  /** A pair is in the table exactly when some event with that id lists that user. */
  lemma {:induction false} RowsMembership(es: seq<Event>, eid: EventId, u: UserId)
    ensures (eid, u) in ParticipationRows(es) <==> exists e :: e in es && e.id == eid && u in e.participants
  {
    if es != [] {
      var init, last := es[..|es| - 1], es[|es| - 1];
      assert es == init + [last];
      RowsMembership(init, eid, u);
      var pairs := PairsOf(last);
      if (eid, u) in pairs {
        var k :| 0 <= k < |pairs| && pairs[k] == (eid, u);
        assert last.participants[k] == u;
      }
      if eid == last.id && u in last.participants {
        var k :| 0 <= k < |last.participants| && last.participants[k] == u;
        assert pairs[k] == (eid, u);
      }
    }
  }

  /** The composite primary key of `event_participant`: when event ids are
      distinct and no event lists a user twice, every (event, user) pair
      occurs at most once in the table. */
  lemma {:induction false} RowsUnique(es: seq<Event>)
    requires DistinctIds(es)
    requires forall e :: e in es ==> NoDuplicates(e.participants)
    ensures NoDuplicates(ParticipationRows(es))
  {
    if es != [] {
      var init, last := es[..|es| - 1], es[|es| - 1];
      assert es == init + [last];
      RowsUnique(init);
      var front, pairs := ParticipationRows(init), PairsOf(last);
      assert ParticipationRows(es) == front + pairs;
      forall i, j | 0 <= i < |front| && 0 <= j < |pairs|
        ensures front[i] != pairs[j]
      {
        var (eid, u) := front[i];
        RowsMembership(init, eid, u);
        var e :| e in init && e.id == eid && u in e.participants;
        var n :| 0 <= n < |init| && init[n] == e;
        assert es[n] == e && es[|es| - 1] == last;
        assert eid != last.id;
      }
      forall i, j | 0 <= i < j < |pairs|
        ensures pairs[i] != pairs[j]
      {
        assert last in es;
      }
    }
  }
}
