/**
  The read side of src/routes/events.js: the upcoming-events list (the SQL
  filter `event_datetime > now()` followed by `sort` with the handler's
  comparator) and the remaining-capacity arithmetic of the stats handler.
 */
module Queries {
  import opened Tables
  import opened Ordering

  /** A row of `SELECT * FROM events`: the event together with its id. */
  datatype EventRow = EventRow(id: Id, event: Event)

  // ---------------------------------------------------------------------------
  // The comparator

  /** The comparator given to `sort`: earlier datetime first, then location. */
  function CompareRows(a: EventRow, b: EventRow): (c: int)
    ensures -1 <= c <= 1
  {
    if a.event.datetime < b.event.datetime then -1
    else if a.event.datetime > b.event.datetime then 1
    else CompareStrings(a.event.location, b.event.location)
  }

  /** `a` may stand before `b` in the sorted list. */
  predicate RowLe(a: EventRow, b: EventRow)
  {
    CompareRows(a, b) <= 0
  }

  /** The comparator puts `a` strictly first exactly when it is earlier, or as early and at a lexicographically smaller location. */
  lemma CompareRowsMeaning(a: EventRow, b: EventRow)
    ensures CompareRows(a, b) < 0
        <==> || a.event.datetime < b.event.datetime
             || (a.event.datetime == b.event.datetime && LexLess(a.event.location, b.event.location))
    ensures CompareRows(a, b) == 0
        <==> a.event.datetime == b.event.datetime && a.event.location == b.event.location
  {
    CompareIsLexicographic(a.event.location, b.event.location);
    CompareZeroIffEqual(a.event.location, b.event.location);
  }

  lemma RowsAntisymmetric(a: EventRow, b: EventRow)
    ensures CompareRows(a, b) == -CompareRows(b, a)
  {
    CompareAntisymmetric(a.event.location, b.event.location);
  }

  lemma RowsTransitive(a: EventRow, b: EventRow, c: EventRow)
    requires RowLe(a, b) && RowLe(b, c)
    ensures RowLe(a, c)
  {
    if a.event.datetime == b.event.datetime == c.event.datetime {
      CompareTransitive(a.event.location, b.event.location, c.event.location);
    }
  }

  // ---------------------------------------------------------------------------
  // Sorting with the comparator

  ghost predicate Sorted(rows: seq<EventRow>)
  {
    forall i, j :: 0 <= i < j < |rows| ==> RowLe(rows[i], rows[j])
  }

  /** Places `x` before the first row it does not follow. */
  function Insert(x: EventRow, rows: seq<EventRow>): (r: seq<EventRow>)
    requires Sorted(rows)
    ensures Sorted(r)
    ensures multiset(r) == multiset(rows) + multiset{x}
  {
    if rows == [] then [x]
    else if RowLe(x, rows[0]) then
      assert forall j :: 0 <= j < |rows| ==> RowLe(x, rows[j]) by {
        forall j | 0 <= j < |rows| ensures RowLe(x, rows[j]) {
          if j > 0 { RowsTransitive(x, rows[0], rows[j]); }
        }
      }
      [x] + rows
    else
      var tail := Insert(x, rows[1..]);
      assert rows == [rows[0]] + rows[1..];
      RowsAntisymmetric(x, rows[0]);
      assert forall y :: y in tail ==> RowLe(rows[0], y) by {
        forall y | y in tail ensures RowLe(rows[0], y) {
          assert y in multiset(tail);
          if y != x {
            assert y in multiset(rows[1..]);
            var j :| 0 <= j < |rows[1..]| && rows[1..][j] == y;
            assert rows[j + 1] == y;
          }
        }
      }
      [rows[0]] + tail
  }

  /** Insertion sort; equal rows keep their input order. */
  function Sort(rows: seq<EventRow>): (r: seq<EventRow>)
    ensures Sorted(r)
    ensures multiset(r) == multiset(rows)
  {
    if rows == [] then []
    else
      assert rows == [rows[0]] + rows[1..];
      Insert(rows[0], Sort(rows[1..]))
  }

  // ---------------------------------------------------------------------------
  // Upcoming events

  /** The event is still ahead of the clock: `event_datetime > now()`. */
  predicate IsUpcoming(row: EventRow, now: int)
  {
    row.event.datetime > now
  }

  /** The rows the SQL `WHERE event_datetime > now()` keeps, in table order. */
  function SelectUpcoming(rows: seq<EventRow>, now: int): (r: seq<EventRow>)
    ensures forall x :: multiset(r)[x] == if IsUpcoming(x, now) then multiset(rows)[x] else 0
  {
    if rows == [] then []
    else
      assert rows == [rows[0]] + rows[1..];
      (if IsUpcoming(rows[0], now) then [rows[0]] else []) + SelectUpcoming(rows[1..], now)
  }

  /**
    `GET /events/upcoming` over the table's rows in whatever order the store
    returns them: a permutation of exactly the rows strictly after `now`,
    sorted by the comparator.
   */
  function Upcoming(rows: seq<EventRow>, now: int): (r: seq<EventRow>)
    ensures Sorted(r)
    ensures forall x :: multiset(r)[x] == if IsUpcoming(x, now) then multiset(rows)[x] else 0
  {
    Sort(SelectUpcoming(rows, now))
  }

  /** `SELECT * FROM events`: each stored event once, in an order the store chooses. */
  method EventRows(s: Store) returns (rows: seq<EventRow>)
    ensures forall x :: multiset(rows)[x] == if x.id in s.events && s.events[x.id] == x.event then 1 else 0
  {
    rows := [];
    var left := s.events.Keys;
    while left != {}
      invariant left <= s.events.Keys
      invariant forall x :: multiset(rows)[x]
                          == if x.id in s.events && x.id !in left && s.events[x.id] == x.event then 1 else 0
      decreases left
    {
      var id :| id in left;
      rows := rows + [EventRow(id, s.events[id])];
      left := left - {id};
    }
  }

  /** The upcoming list of a store: every stored event after `now` exactly once, and nothing else, in comparator order. */
  method ListUpcoming(s: Store, now: int) returns (list: seq<EventRow>)
    ensures Sorted(list)
    ensures forall x :: x in list ==> x.id in s.events && s.events[x.id] == x.event && x.event.datetime > now
    ensures forall id :: id in s.events && s.events[id].datetime > now
                     ==> multiset(list)[EventRow(id, s.events[id])] == 1
  {
    var rows := EventRows(s);
    list := Upcoming(rows, now);
    forall x | x in list
      ensures x.id in s.events && s.events[x.id] == x.event && x.event.datetime > now
    {
      assert multiset(list)[x] > 0;
    }
  }

  // ---------------------------------------------------------------------------
  // Stats

  datatype Stats = Stats(total: nat, remaining: int)

  datatype StatsResult = Found(stats: Stats) | EventNotFound

  /** `GET /events/:eventId/stats` without the percentage: registrations counted, and capacity left. */
  function EventStats(s: Store, eventId: Id): (r: StatsResult)
    ensures r.EventNotFound? <==> eventId !in s.events
    ensures r.Found? ==>
      && r.stats.total == Occupancy(s.registrations, eventId)
      && r.stats.total + r.stats.remaining == s.events[eventId].capacity
  {
    if eventId !in s.events then EventNotFound
    else
      var total := Occupancy(s.registrations, eventId);
      Found(Stats(total, s.events[eventId].capacity - total))
  }

  /** Under the store invariants the remaining capacity is never negative and never above the capacity. */
  lemma StatsInRange(s: Store, eventId: Id)
    requires Valid(s)
    requires eventId in s.events
    ensures var st := EventStats(s, eventId).stats;
            && 0 <= st.remaining <= s.events[eventId].capacity
            && st.total <= s.events[eventId].capacity <= MaxCapacity
  {
  }
}
