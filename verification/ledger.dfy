/**
  The registration ledger: the `register` and `cancel` handlers of
  src/routes/events.js as atomic transitions over the abstract store.
  Each returns the handler's outcome together with the store after it.
 */
module Ledger {
  import opened Tables

  datatype RegisterError = UserNotFound | EventNotFound | EventInPast | EventFull | AlreadyRegistered

  datatype CancelError = NotRegistered

  datatype Outcome<E> = Ok | Err(error: E)

  /** What a handler answered and the store it left behind. */
  datatype Transition<E> = Transition(result: Outcome<E>, after: Store)

  /** The event lies strictly before the clock: `new Date(event_datetime) < new Date()`. */
  predicate InPast(ev: Event, now: int)
  {
    ev.datetime < now
  }

  /**
    `POST /events/:eventId/register`. The guards run in the source's order:
    user exists, event exists, event not in the past, event not full, pair
    not yet registered; the first that fails decides the answer. On success
    one row with the fresh id is inserted, stamped with the clock.
   */
  function Register(s: Store, eventId: Id, userId: Id, now: int, freshId: Id): (t: Transition<RegisterError>)
    // a rejection touches nothing
    ensures t.result.Err? ==> t.after == s
    // each answer holds exactly when its guard is the first one to fail
    ensures t.result == Err(UserNotFound) <==> userId !in s.users
    ensures t.result == Err(EventNotFound) <==> userId in s.users && eventId !in s.events
    ensures t.result == Err(EventInPast)
        <==> userId in s.users && eventId in s.events && s.events[eventId].datetime < now
    ensures t.result == Err(EventFull)
        <==> && userId in s.users && eventId in s.events && now <= s.events[eventId].datetime
             && Occupancy(s.registrations, eventId) >= s.events[eventId].capacity
    ensures t.result == Err(AlreadyRegistered)
        <==> && userId in s.users && eventId in s.events && now <= s.events[eventId].datetime
             && Occupancy(s.registrations, eventId) < s.events[eventId].capacity
             && exists i :: 0 <= i < |s.registrations|
                  && s.registrations[i].eventId == eventId && s.registrations[i].userId == userId
    // a success appends exactly one row for the pair, with the fresh id, and changes nothing else
    ensures t.result == Ok ==>
      && t.after.users == s.users
      && t.after.events == s.events
      && t.after.registrations == s.registrations + [Registration(freshId, eventId, userId, now)]
    ensures t.result == Ok ==>
      && Occupancy(t.after.registrations, eventId) == Occupancy(s.registrations, eventId) + 1
      && (forall e :: e != eventId ==> Occupancy(t.after.registrations, e) == Occupancy(s.registrations, e))
  {
    PairCountPositive(s.registrations, eventId, userId);
    CountsAppend(s.registrations, Registration(freshId, eventId, userId, now));
    if userId !in s.users then Transition(Err(UserNotFound), s)
    else if eventId !in s.events then Transition(Err(EventNotFound), s)
    else
      var ev := s.events[eventId];
      if InPast(ev, now) then Transition(Err(EventInPast), s)
      else if Occupancy(s.registrations, eventId) >= ev.capacity then Transition(Err(EventFull), s)
      else if PairCount(s.registrations, eventId, userId) > 0 then Transition(Err(AlreadyRegistered), s)
      else
        var row := Registration(freshId, eventId, userId, now);
        Transition(Ok, s.(registrations := s.registrations + [row]))
  }

  /**
    `DELETE /events/:eventId/cancel`. Without a row for the pair the answer is
    `NotRegistered`; otherwise every row of the pair is deleted. Neither the
    user nor the event is looked up.
   */
  function Cancel(s: Store, eventId: Id, userId: Id): (t: Transition<CancelError>)
    ensures t.result.Err? ==> t.after == s
    ensures t.result == Ok
        <==> exists i :: 0 <= i < |s.registrations|
               && s.registrations[i].eventId == eventId && s.registrations[i].userId == userId
    ensures t.after.users == s.users && t.after.events == s.events
    // afterwards the pair holds no row, and exactly the rows of other pairs survive
    ensures !Registered(t.after, eventId, userId)
    ensures forall x :: x in t.after.registrations
                    <==> x in s.registrations && !(x.eventId == eventId && x.userId == userId)
  {
    PairCountPositive(s.registrations, eventId, userId);
    RemovePairCounts(s.registrations, eventId, userId);
    RemovePairKeeps(s.registrations, eventId, userId);
    if PairCount(s.registrations, eventId, userId) == 0 then Transition(Err(NotRegistered), s)
    else Transition(Ok, s.(registrations := RemovePair(s.registrations, eventId, userId)))
  }

  // ---------------------------------------------------------------------------
  // Invariants preserved

  /** Register keeps every invariant, given that the inserted id is fresh. */
  lemma RegisterPreservesValid(s: Store, eventId: Id, userId: Id, now: int, freshId: Id)
    requires Valid(s)
    requires FreshRegistrationId(s, freshId)
    ensures Valid(Register(s, eventId, userId, now, freshId).after)
  {
    var t := Register(s, eventId, userId, now, freshId);
    if t.result == Ok {
      var row := Registration(freshId, eventId, userId, now);
      CountsAppend(s.registrations, row);
      IdCountZero(s.registrations, freshId);
      PairCountPositive(s.registrations, eventId, userId);
      assert forall i :: 0 <= i < |s.registrations| ==> t.after.registrations[i] == s.registrations[i];
    }
  }

  /** Cancel keeps every invariant: it only deletes rows. */
  lemma CancelPreservesValid(s: Store, eventId: Id, userId: Id)
    requires Valid(s)
    ensures Valid(Cancel(s, eventId, userId).after)
  {
    var t := Cancel(s, eventId, userId);
    if t.result == Ok {
      RemovePairCounts(s.registrations, eventId, userId);
      RemovePairKeeps(s.registrations, eventId, userId);
      forall i | 0 <= i < |t.after.registrations|
        ensures t.after.registrations[i].eventId in t.after.events
        ensures t.after.registrations[i].userId in t.after.users
      {
        assert t.after.registrations[i] in s.registrations;
      }
    }
  }

  // ---------------------------------------------------------------------------
  // Properties of register

  /** The capacity guard runs before the duplicate guard: a registered user of a full event hears EventFull. */
  lemma FullBeforeDuplicate(s: Store, eventId: Id, userId: Id, now: int, freshId: Id)
    requires userId in s.users && eventId in s.events
    requires now <= s.events[eventId].datetime
    requires Occupancy(s.registrations, eventId) >= s.events[eventId].capacity
    requires Registered(s, eventId, userId)
    ensures Register(s, eventId, userId, now, freshId).result == Err(EventFull)
  {
  }

  /** A past event is refused whatever its free capacity; an event at exactly `now` is not past. */
  lemma PastIsRejected(s: Store, eventId: Id, userId: Id, now: int, freshId: Id)
    requires userId in s.users && eventId in s.events
    ensures s.events[eventId].datetime < now
        <==> Register(s, eventId, userId, now, freshId).result == Err(EventInPast)
    ensures s.events[eventId].datetime == now
        ==> Register(s, eventId, userId, now, freshId).result != Err(EventInPast)
  {
  }

  /** The two guards that protect the invariants: a success means a free slot and a new pair. */
  lemma RegisterOkMeansRoom(s: Store, eventId: Id, userId: Id, now: int, freshId: Id)
    requires Register(s, eventId, userId, now, freshId).result == Ok
    ensures eventId in s.events
    ensures Occupancy(s.registrations, eventId) < s.events[eventId].capacity
    ensures !Registered(s, eventId, userId)
  {
  }

  /** After a success the pair holds exactly one row, so a repeat is refused (it is full or a duplicate). */
  lemma RegisterTwice(s: Store, eventId: Id, userId: Id, now: int, id1: Id, id2: Id)
    requires Register(s, eventId, userId, now, id1).result == Ok
    ensures var s1 := Register(s, eventId, userId, now, id1).after;
            && PairCount(s1.registrations, eventId, userId) == 1
            && Register(s1, eventId, userId, now, id2).result in {Err(EventFull), Err(AlreadyRegistered)}
  {
    var row := Registration(id1, eventId, userId, now);
    CountsAppend(s.registrations, row);
  }

  // ---------------------------------------------------------------------------
  // Properties of cancel

  /** Under the uniqueness invariant a successful cancel frees exactly one slot of its event. */
  lemma CancelFreesOneSlot(s: Store, eventId: Id, userId: Id)
    requires UniquePairs(s.registrations)
    requires Cancel(s, eventId, userId).result == Ok
    ensures var s1 := Cancel(s, eventId, userId).after;
            && Occupancy(s1.registrations, eventId) + 1 == Occupancy(s.registrations, eventId)
            && (forall e :: e != eventId ==> Occupancy(s1.registrations, e) == Occupancy(s.registrations, e))
            && |s1.registrations| + 1 == |s.registrations|
  {
    RemovePairCounts(s.registrations, eventId, userId);
    PairCountPositive(s.registrations, eventId, userId);
    assert PairCount(s.registrations, eventId, userId) == 1;
  }

  /** Cancelling twice answers Ok, then NotRegistered, and the second call changes nothing. */
  lemma CancelTwice(s: Store, eventId: Id, userId: Id)
    requires Registered(s, eventId, userId)
    ensures Cancel(s, eventId, userId).result == Ok
    ensures var s1 := Cancel(s, eventId, userId).after;
            Cancel(s1, eventId, userId) == Transition(Err(NotRegistered), s1)
  {
  }

  /** Cancel undoes a successful register exactly. */
  lemma CancelUndoesRegister(s: Store, eventId: Id, userId: Id, now: int, freshId: Id)
    requires Register(s, eventId, userId, now, freshId).result == Ok
    ensures var s1 := Register(s, eventId, userId, now, freshId).after;
            Cancel(s1, eventId, userId) == Transition(Ok, s)
  {
    var row := Registration(freshId, eventId, userId, now);
    PairCountPositive(s.registrations, eventId, userId);
    RemoveAppended(s.registrations, row);
    CountsAppend(s.registrations, row);
  }

  /** Deleting the pair of a just-appended row, when the pair held no other row, restores the table. */
  lemma {:induction false} RemoveAppended(regs: seq<Registration>, row: Registration)
    requires PairCount(regs, row.eventId, row.userId) == 0
    ensures RemovePair(regs + [row], row.eventId, row.userId) == regs
  {
    if regs == [] {
      assert [row][1..] == [];
    } else {
      assert (regs + [row])[1..] == regs[1..] + [row];
      RemoveAppended(regs[1..], row);
    }
  }
}
