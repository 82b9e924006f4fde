/**
  Properties that tie the handlers together: the stats answer agrees with the
  ledger's capacity guard, a run of registrations saturates an event exactly,
  a cancellation makes room for somebody else, and the upcoming list orders
  events that share a datetime by location.
 */
module Scenarios {
  import opened Tables
  import opened Ledger
  import Queries
  import Ordering

  // ---------------------------------------------------------------------------
  // Stats against the ledger

  /** For an existing user and a not-yet-past event, the capacity guard fires exactly when stats report no room left. */
  lemma FullIffNoneRemaining(s: Store, eventId: Id, userId: Id, now: int, freshId: Id)
    requires userId in s.users && eventId in s.events
    requires now <= s.events[eventId].datetime
    ensures Register(s, eventId, userId, now, freshId).result == Err(EventFull)
        <==> Queries.EventStats(s, eventId).stats.remaining <= 0
  {
  }

  /** A successful register uses up one unit of remaining capacity. */
  lemma StatsAfterRegister(s: Store, eventId: Id, userId: Id, now: int, freshId: Id)
    requires Register(s, eventId, userId, now, freshId).result == Ok
    ensures var s1 := Register(s, eventId, userId, now, freshId).after;
            && Queries.EventStats(s1, eventId).stats.remaining == Queries.EventStats(s, eventId).stats.remaining - 1
            && Queries.EventStats(s1, eventId).stats.total == Queries.EventStats(s, eventId).stats.total + 1
  {
  }

  /** With at most one row per pair, a successful cancel gives one unit of remaining capacity back. */
  lemma StatsAfterCancel(s: Store, eventId: Id, userId: Id)
    requires UniquePairs(s.registrations)
    requires eventId in s.events
    requires Cancel(s, eventId, userId).result == Ok
    ensures var s1 := Cancel(s, eventId, userId).after;
            && Queries.EventStats(s1, eventId).stats.remaining == Queries.EventStats(s, eventId).stats.remaining + 1
            && Queries.EventStats(s1, eventId).stats.total + 1 == Queries.EventStats(s, eventId).stats.total
  {
    CancelFreesOneSlot(s, eventId, userId);
  }

  // ---------------------------------------------------------------------------
  // Saturation: a run of registrations for one event

  /** One attempt: the user to register and the id the row would get. */
  datatype Attempt = Attempt(userId: Id, freshId: Id)

  /** Registers the attempts one after another, collecting the answers. */
  function RegisterEach(s: Store, eventId: Id, attempts: seq<Attempt>, now: int): (res: (seq<Outcome<RegisterError>>, Store))
    ensures |res.0| == |attempts|
    ensures res.1.events == s.events && res.1.users == s.users
    decreases |attempts|
  {
    if attempts == [] then ([], s)
    else
      var t := Register(s, eventId, attempts[0].userId, now, attempts[0].freshId);
      var rest := RegisterEach(t.after, eventId, attempts[1..], now);
      ([t.result] + rest.0, rest.1)
  }

  ghost predicate DistinctUsers(attempts: seq<Attempt>)
  {
    forall i, j :: 0 <= i < j < |attempts| ==> attempts[i].userId != attempts[j].userId
  }

  /**
    Distinct, existing, not yet registered users asking for a future event
    with `free` places left: the first `free` of them get in, every later
    one hears EventFull, and the event ends up with exactly that many more
    registrations.
   */
  lemma {:induction false} Saturation(s: Store, eventId: Id, attempts: seq<Attempt>, now: int)
    requires eventId in s.events && now <= s.events[eventId].datetime
    requires forall i :: 0 <= i < |attempts| ==> attempts[i].userId in s.users
    requires forall i :: 0 <= i < |attempts| ==> !Registered(s, eventId, attempts[i].userId)
    requires DistinctUsers(attempts)
    decreases |attempts|
    ensures var free := s.events[eventId].capacity - Occupancy(s.registrations, eventId);
            var res := RegisterEach(s, eventId, attempts, now);
            && (forall i :: 0 <= i < |attempts| ==> res.0[i] == if i < free then Ok else Err(EventFull))
            && Occupancy(res.1.registrations, eventId)
               == Occupancy(s.registrations, eventId) + (if free <= 0 then 0 else if free < |attempts| then free else |attempts|)
  {
    if attempts != [] {
      var a := attempts[0];
      var t := Register(s, eventId, a.userId, now, a.freshId);
      var rest := attempts[1..];
      if t.result == Ok {
        var row := Registration(a.freshId, eventId, a.userId, now);
        CountsAppend(s.registrations, row);
        forall i | 0 <= i < |rest| ensures !Registered(t.after, eventId, rest[i].userId) {
          assert rest[i] == attempts[i + 1];
        }
      }
      forall i, j | 0 <= i < j < |rest| ensures rest[i].userId != rest[j].userId {
        assert rest[i] == attempts[i + 1] && rest[j] == attempts[j + 1];
      }
      Saturation(t.after, eventId, rest, now);
      var res := RegisterEach(s, eventId, attempts, now);
      forall i | 1 <= i < |attempts| ensures res.0[i] == RegisterEach(t.after, eventId, rest, now).0[i - 1] {
      }
    }
  }

  /** Capacity 3, no registrations yet, ten distinct users: three successes, seven EventFull, none left. */
  lemma CapacityThreeTenUsers(s: Store, eventId: Id, attempts: seq<Attempt>, now: int)
    requires eventId in s.events && now <= s.events[eventId].datetime
    requires s.events[eventId].capacity == 3 && Occupancy(s.registrations, eventId) == 0
    requires |attempts| == 10 && DistinctUsers(attempts)
    requires forall i :: 0 <= i < |attempts| ==> attempts[i].userId in s.users
    ensures var res := RegisterEach(s, eventId, attempts, now);
            && res.0[..3] == [Ok, Ok, Ok]
            && (forall i :: 3 <= i < 10 ==> res.0[i] == Err(EventFull))
            && Queries.EventStats(res.1, eventId) == Queries.Found(Queries.Stats(3, 0))
  {
    assert forall i :: 0 <= i < |attempts| ==> PairCount(s.registrations, eventId, attempts[i].userId) == 0;
    Saturation(s, eventId, attempts, now);
  }

  // ---------------------------------------------------------------------------
  // Cancel, then someone else registers

  /**
    A full event of capacity 1 held by `u`: `v` is refused with EventFull,
    `u` cancels, and then `v` gets the place.
   */
  lemma CancelThenReregister(s: Store, eventId: Id, u: Id, v: Id, now: int, freshId: Id)
    requires Valid(s)
    requires eventId in s.events && s.events[eventId].capacity == 1
    requires now <= s.events[eventId].datetime
    requires v in s.users && v != u
    requires Registered(s, eventId, u)
    ensures Register(s, eventId, v, now, freshId).result == Err(EventFull)
    ensures var s1 := Cancel(s, eventId, u).after;
            && Cancel(s, eventId, u).result == Ok
            && Register(s1, eventId, v, now, freshId).result == Ok
  {
    PairCountPositive(s.registrations, eventId, u);
    CancelFreesOneSlot(s, eventId, u);
    var s1 := Cancel(s, eventId, u).after;
    // v held no row: the event's only row belongs to u
    assert PairCount(s1.registrations, eventId, v) <= Occupancy(s1.registrations, eventId);
    RemovePairCounts(s.registrations, eventId, u);
    PairCountPositive(s1.registrations, eventId, v);
  }

  // ---------------------------------------------------------------------------
  // Upcoming list against the ledger, and an ordering instance

  /**
    The list is filtered with the database clock (`listedAt`), the past guard
    reads the server clock (`registerAt`). An event listed at `listedAt` is
    not refused as past by a register whose clock reads no later than that.
   */
  lemma UpcomingIsRegistrable(rows: seq<Queries.EventRow>, listedAt: int, registerAt: int, x: Queries.EventRow)
    requires x in Queries.Upcoming(rows, listedAt)
    requires registerAt <= listedAt
    ensures !InPast(x.event, registerAt)
  {
    assert multiset(Queries.Upcoming(rows, listedAt))[x] > 0;
  }

  /** The SQL filter keeps a table whose rows all lie after the clock unchanged. */
  lemma {:induction false} AllUpcoming(rows: seq<Queries.EventRow>, now: int)
    requires forall i :: 0 <= i < |rows| ==> rows[i].event.datetime > now
    ensures Queries.SelectUpcoming(rows, now) == rows
  {
    if rows != [] {
      AllUpcoming(rows[1..], now);
    }
  }

  /** Three rows of which the first sorts last and the other two are already in order. */
  lemma SortThree(r0: Queries.EventRow, r1: Queries.EventRow, r2: Queries.EventRow)
    requires Queries.RowLe(r1, r2) && !Queries.RowLe(r0, r1) && !Queries.RowLe(r0, r2)
    ensures Queries.Sort([r0, r1, r2]) == [r1, r2, r0]
  {
    assert [r0, r1, r2][1..] == [r1, r2] && [r1, r2][1..] == [r2];
    assert Queries.Sort([r2]) == [r2];
    assert Queries.Sort([r1, r2]) == [r1, r2];
    assert Queries.Insert(r0, [r2]) == [r2, r0];
  }

  /** Events at times [2, 1, 2] with locations [b, a, a] are listed as 1@a, 2@a, 2@b. */
  lemma ExampleOrdering(r0: Queries.EventRow, r1: Queries.EventRow, r2: Queries.EventRow)
    requires r0.event.datetime == 2 && r0.event.location == "b"
    requires r1.event.datetime == 1 && r1.event.location == "a"
    requires r2.event.datetime == 2 && r2.event.location == "a"
    ensures Queries.Upcoming([r0, r1, r2], 0) == [r1, r2, r0]
  {
    AllUpcoming([r0, r1, r2], 0);
    LaterLetter();
    SortThree(r0, r1, r2);
  }

  lemma LaterLetter()
    ensures Ordering.CompareStrings("b", "a") == 1
  {
  }
}
