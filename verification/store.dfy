/**
  The abstract store behind the event-registration handlers: the `users`,
  `events` and `event_registrations` tables with the SQL stripped away.

  Registrations are kept as the sequence of rows of their table; an insert
  appends a row and a delete keeps every row it does not match, in order.
  The counts the handlers ask the database for (`SELECT COUNT(*) ...`,
  `rowCount` of a `SELECT ... WHERE event_id AND user_id`) are the recursive
  counting functions below.
 */
module Tables {

  /** Identifiers are UUID strings in the source; only equality matters here. */
  type Id = string

  /** A row of the `events` table; the datetime is an abstract timestamp. */
  datatype Event = Event(title: string, datetime: int, location: string, capacity: int)

  /** A row of the `event_registrations` table. */
  datatype Registration = Registration(id: Id, eventId: Id, userId: Id, registeredAt: int)

  datatype Store = Store(users: set<Id>, events: map<Id, Event>, registrations: seq<Registration>)

  /** The capacity range admitted when an event is created. */
  const MinCapacity: int := 1
  const MaxCapacity: int := 1000

  const Empty: Store := Store({}, map[], [])

  /** Number of registrations for `eventId`: the event's occupancy. */
  function Occupancy(regs: seq<Registration>, eventId: Id): (n: nat)
    ensures n <= |regs|
  {
    if regs == [] then 0
    else (if regs[0].eventId == eventId then 1 else 0) + Occupancy(regs[1..], eventId)
  }

  /** Number of registration rows for the pair (eventId, userId); a pair's rows are among its event's rows. */
  function PairCount(regs: seq<Registration>, eventId: Id, userId: Id): (n: nat)
    ensures n <= Occupancy(regs, eventId)
  {
    if regs == [] then 0
    else (if regs[0].eventId == eventId && regs[0].userId == userId then 1 else 0)
         + PairCount(regs[1..], eventId, userId)
  }

  /** Number of registration rows carrying the registration id `id`. */
  function IdCount(regs: seq<Registration>, id: Id): nat
  {
    if regs == [] then 0
    else (if regs[0].id == id then 1 else 0) + IdCount(regs[1..], id)
  }

  /** The registration ledger's notion of "already registered": some row for the pair exists. */
  predicate Registered(s: Store, eventId: Id, userId: Id)
  {
    PairCount(s.registrations, eventId, userId) > 0
  }

  /** The rows left by `DELETE FROM event_registrations WHERE event_id = .. AND user_id = ..`. */
  function RemovePair(regs: seq<Registration>, eventId: Id, userId: Id): (r: seq<Registration>)
    // exactly the pair's rows disappear
    ensures |r| + PairCount(regs, eventId, userId) == |regs|
  {
    if regs == [] then []
    else if regs[0].eventId == eventId && regs[0].userId == userId then RemovePair(regs[1..], eventId, userId)
    else [regs[0]] + RemovePair(regs[1..], eventId, userId)
  }

  // ---------------------------------------------------------------------------
  // Invariants of a well-formed store

  /** Every stored event was admitted with a capacity in 1..1000. */
  ghost predicate CapacitiesInRange(s: Store)
  {
    forall e :: e in s.events ==> MinCapacity <= s.events[e].capacity <= MaxCapacity
  }

  /** The capacity invariant: no event holds more registrations than its capacity. */
  ghost predicate WithinCapacity(s: Store)
  {
    forall e :: e in s.events ==> Occupancy(s.registrations, e) <= s.events[e].capacity
  }

  /** At most one registration per (event, user) pair. */
  ghost predicate UniquePairs(regs: seq<Registration>)
  {
    forall e, u :: PairCount(regs, e, u) <= 1
  }

  /** Registration ids are primary keys. */
  ghost predicate UniqueIds(regs: seq<Registration>)
  {
    forall id :: IdCount(regs, id) <= 1
  }

  /** Every registration refers to a stored event and a stored user. */
  ghost predicate ReferencesExist(s: Store)
  {
    forall i :: 0 <= i < |s.registrations| ==>
      s.registrations[i].eventId in s.events && s.registrations[i].userId in s.users
  }

  ghost predicate Valid(s: Store)
  {
    && CapacitiesInRange(s)
    && WithinCapacity(s)
    && UniquePairs(s.registrations)
    && UniqueIds(s.registrations)
    && ReferencesExist(s)
  }

  /** A registration id nobody uses yet (what `uuidv4()` is trusted to produce). */
  ghost predicate FreshRegistrationId(s: Store, id: Id)
  {
    forall i :: 0 <= i < |s.registrations| ==> s.registrations[i].id != id
  }

  // ---------------------------------------------------------------------------
  // Lemmas about the counting functions

  lemma EmptyIsValid()
    ensures Valid(Empty)
  {
  }

  /** A row count is positive exactly when a matching row exists. */
  lemma {:induction false} PairCountPositive(regs: seq<Registration>, eventId: Id, userId: Id)
    ensures PairCount(regs, eventId, userId) > 0
        <==> exists i :: 0 <= i < |regs| && regs[i].eventId == eventId && regs[i].userId == userId
  {
    if regs != [] {
      PairCountPositive(regs[1..], eventId, userId);
      if PairCount(regs[1..], eventId, userId) > 0 {
        var i :| 0 <= i < |regs[1..]| && regs[1..][i].eventId == eventId && regs[1..][i].userId == userId;
        assert regs[i + 1] == regs[1..][i];
      }
      if exists i :: 0 <= i < |regs| && regs[i].eventId == eventId && regs[i].userId == userId {
        var i :| 0 <= i < |regs| && regs[i].eventId == eventId && regs[i].userId == userId;
        if i > 0 {
          assert regs[1..][i - 1] == regs[i];
        }
      }
    }
  }

  lemma {:induction false} IdCountZero(regs: seq<Registration>, id: Id)
    ensures IdCount(regs, id) == 0 <==> forall i :: 0 <= i < |regs| ==> regs[i].id != id
  {
    if regs != [] {
      IdCountZero(regs[1..], id);
      assert forall i :: 1 <= i < |regs| ==> regs[i] == regs[1..][i - 1];
    }
  }

  /** Appending one row adds it to exactly the counts it matches. */
  lemma {:induction false} CountsAppend(regs: seq<Registration>, r: Registration)
    ensures forall e :: Occupancy(regs + [r], e) == Occupancy(regs, e) + (if r.eventId == e then 1 else 0)
    ensures forall e, u :: PairCount(regs + [r], e, u)
                        == PairCount(regs, e, u) + (if r.eventId == e && r.userId == u then 1 else 0)
    ensures forall id :: IdCount(regs + [r], id) == IdCount(regs, id) + (if r.id == id then 1 else 0)
  {
    if regs == [] {
      assert [r][1..] == [];
    } else {
      CountsAppend(regs[1..], r);
      assert (regs + [r])[1..] == regs[1..] + [r];
    }
  }

  /** The delete empties the pair's count and leaves every other pair's count alone. */
  lemma {:induction false} RemovePairCounts(regs: seq<Registration>, eventId: Id, userId: Id)
    ensures forall e, u :: PairCount(RemovePair(regs, eventId, userId), e, u)
                        == if e == eventId && u == userId then 0 else PairCount(regs, e, u)
    ensures forall e :: e != eventId ==> Occupancy(RemovePair(regs, eventId, userId), e) == Occupancy(regs, e)
    ensures Occupancy(RemovePair(regs, eventId, userId), eventId)
         == Occupancy(regs, eventId) - PairCount(regs, eventId, userId)
    ensures forall id :: IdCount(RemovePair(regs, eventId, userId), id) <= IdCount(regs, id)
  {
    if regs != [] {
      RemovePairCounts(regs[1..], eventId, userId);
      var rest := RemovePair(regs[1..], eventId, userId);
      if !(regs[0].eventId == eventId && regs[0].userId == userId) {
        assert ([regs[0]] + rest)[1..] == rest;
      }
    }
  }

  /** Rows kept by the delete are rows of the table that do not match the pair. */
  lemma {:induction false} RemovePairKeeps(regs: seq<Registration>, eventId: Id, userId: Id)
    ensures forall x :: x in RemovePair(regs, eventId, userId)
                    <==> x in regs && !(x.eventId == eventId && x.userId == userId)
  {
    if regs != [] {
      RemovePairKeeps(regs[1..], eventId, userId);
      assert forall x :: x in regs <==> x == regs[0] || x in regs[1..];
    }
  }
}
