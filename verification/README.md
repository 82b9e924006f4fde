# Event registration ledger — a Dafny model

This project models the registration core of the Event Management API
(`src/routes/events.js`). Express routing and SQL are stripped away. What is
left is an abstract store and the handlers as pure transitions over it:

- `users`: a set of ids.
- `events`: a map from id to an event row with title, datetime, location and capacity.
- `registrations`: the rows of `event_registrations` as a sequence of `(id, eventId, userId, registeredAt)`.

The store is defined in `store.dfy` (module `Tables`). It holds the counting
functions that stand for the handlers' SQL counts, and the store invariant
`Valid`:

- every capacity is in 1..1000;
- no event's occupancy exceeds its capacity;
- at most one row per (event, user) pair;
- registration ids are unique;
- every row refers to a stored event and user.

`ledger.dfy` (module `Ledger`) has `Register` and `Cancel`. Each returns the
handler's answer (`Ok` or a typed error) together with the store after it.
Each one is a single atomic step.

`ordering.dfy` (module `Ordering`) and `queries.dfy` (module `Queries`) hold
the read side:

- the comparator of the upcoming list, with a verified insertion sort;
- the SQL filter of the upcoming list;
- the stats arithmetic.

`scenarios.dfy` (module `Scenarios`) relates the pieces:

- stats agree with the capacity guard;
- saturation of an event by a run of registrations;
- cancel-then-reregister;
- events that share a datetime are listed by location.

Decisions the code dictates:

- The guards of `register` run in the order of the source: user, event, past, full, duplicate. So a registered user of a full event hears `EventFull`, not `AlreadyRegistered`.
- "Past" means `datetime < now`. An event at exactly `now` can still be registered for. The upcoming list keeps `datetime > now`. The two comparisons read different clocks in the source: the past guard reads the server clock (`new Date()`, line 60), the upcoming filter reads the database clock (`now()`, line 146). The model passes each as a parameter. Only when both read the same instant is an event at exactly that instant registrable but not listed.
- The INSERT at line 79 does not set `registered_at`, which comes from the database default. The model stamps the row with the same `now` the guards use.
- `register` answers only with a message; it does not return the new registration id. The model's `Ok` carries nothing, and the row carries `freshId`.
- `cancel` looks up neither the user nor the event. Its DELETE removes every row of the pair. Under the uniqueness invariant that is exactly one row.
- The source runs each handler as separate queries without a transaction. The model treats each handler as one atomic transition, which is the intended semantics.

## Model

| member | source | states |
|---|---|---|
| Ledger.Register | src/routes/events.js:52-83 | The answer is the first failing guard in source order (user, event, past, full, duplicate). Each error holds iff its guard fails and all earlier ones pass. A rejection leaves the store unchanged. A success appends exactly one row `(freshId, eventId, userId, now)`, raises that event's occupancy by exactly 1 and changes no other event, user or row. |
| Ledger.Cancel | src/routes/events.js:124-134 | `Ok` iff a row for the pair exists; otherwise `NotRegistered` with the store unchanged. Afterwards the pair holds no row. The rows kept are exactly the rows of other pairs. Users and events are untouched. |
| Ledger.RegisterPreservesValid | src/routes/events.js:64-83 | Given a fresh registration id, register preserves every store invariant: capacity bound, pair uniqueness, id uniqueness, references, capacity range. |
| Ledger.CancelPreservesValid | src/routes/events.js:131-134 | Cancel preserves every store invariant. |
| Ledger.FullBeforeDuplicate | src/routes/events.js:64-75 | An already registered user of a full, not-past event gets `EventFull`. |
| Ledger.PastIsRejected | src/routes/events.js:60-61 | For an existing user and event, `EventInPast` iff the datetime is strictly before `now`, whatever the capacity. A datetime equal to `now` is not rejected as past. |
| Ledger.RegisterOkMeansRoom | src/routes/events.js:64-75 | A success implies the event existed, had a free place, and the pair was not yet registered. |
| Ledger.RegisterTwice | src/routes/events.js:71-83 | After a success the pair holds exactly one row. Repeating the same registration is then refused with `EventFull` or `AlreadyRegistered`. |
| Ledger.CancelFreesOneSlot | src/routes/events.js:131-134 | Under pair uniqueness, a successful cancel lowers its event's occupancy by exactly 1. Other events keep their occupancy, and the table loses exactly one row. |
| Ledger.CancelTwice | src/routes/events.js:124-134 | Cancelling a registered pair twice answers `Ok`, then `NotRegistered`. The second call leaves the store unchanged. |
| Ledger.CancelUndoesRegister | src/routes/events.js:119-134 | Cancelling right after a successful register restores the original store exactly. |
| Tables.Occupancy | src/routes/events.js:64-67 | The event's registration count, the `SELECT COUNT(*)` of line 64. It never exceeds the number of rows. |
| Tables.PairCount | src/routes/events.js:71-75 | The pair's row count, the `rowCount` of the SELECT at line 71. It never exceeds the event's count. |
| Tables.RemovePair | src/routes/events.js:131-134 | The rows left by the DELETE. Exactly the pair's rows disappear: the table shrinks by the pair's row count. |
| Tables.PairCountPositive | src/routes/events.js:71-75 | The pair's row count is positive iff some row for the pair exists. This is what `rowCount > 0` means. |
| Tables.CountsAppend | src/routes/events.js:78-83 | Inserting a row raises exactly the event count, pair count and id count it matches, each by one. |
| Tables.RemovePairCounts | src/routes/events.js:131-134 | The DELETE zeroes the pair's count and leaves every other pair's count alone. Occupancy of other events is unchanged. The event loses exactly the pair's rows. Id counts never grow. |
| Tables.RemovePairKeeps | src/routes/events.js:131-134 | A row survives the DELETE iff it was in the table and belongs to another pair. |
| Ordering.CompareStrings | src/routes/events.js:152 | The stand-in for `localeCompare`: a three-way answer in -1..1. Its meaning is stated by the four lemmas below. |
| Ordering.CompareIsLexicographic | src/routes/events.js:152 | The location comparison answers -1 exactly for lexicographically smaller strings. It is defined independently by a common prefix followed by a smaller character, or a proper prefix. |
| Ordering.CompareAntisymmetric | src/routes/events.js:152 | Swapping the arguments negates the comparison. |
| Ordering.CompareZeroIffEqual | src/routes/events.js:152 | The comparison answers 0 iff the strings are equal. |
| Ordering.CompareTransitive | src/routes/events.js:152 | "Sorts no later than" is transitive. |
| Queries.CompareRows | src/routes/events.js:147-153 | The comparator given to `sort`: a three-way answer in -1..1. Its meaning is stated by `Queries.CompareRowsMeaning`. |
| Queries.CompareRowsMeaning | src/routes/events.js:147-153 | The comparator puts `a` strictly first iff `a` is earlier, or equally early at a lexicographically smaller location. It answers 0 iff both datetime and location are equal. |
| Queries.RowsAntisymmetric | src/routes/events.js:147-153 | The row comparator is antisymmetric. |
| Queries.RowsTransitive | src/routes/events.js:147-153 | The row comparator's "less or equal" is transitive. |
| Queries.Insert | src/routes/events.js:147-153 | Inserting a row into a sorted list gives a sorted list holding the old rows plus the new one. |
| Queries.Sort | src/routes/events.js:147-153 | Sorting returns a permutation of its input (same multiset) that is ordered by the comparator. |
| Queries.SelectUpcoming | src/routes/events.js:146 | The SQL filter keeps each row with datetime strictly after `now` as often as the table holds it. It drops every other row. |
| Queries.Upcoming | src/routes/events.js:146-153 | The upcoming list is sorted by datetime and then location. It is a permutation of exactly those input rows whose datetime is strictly after `now`. |
| Queries.EventRows | src/routes/events.js:146 | Reading the events table yields each stored event exactly once with its stored fields, and nothing else. |
| Queries.ListUpcoming | src/routes/events.js:144-153 | For a store, the upcoming list is sorted and holds only stored events after `now`. Every stored event after `now` appears exactly once. |
| Queries.EventStats | src/routes/events.js:162-175 | `EventNotFound` iff the event is not stored. Otherwise `total` is the event's occupancy and `remaining + total == capacity`. |
| Queries.StatsInRange | src/routes/events.js:173-175 | Under the store invariants, `0 <= remaining <= capacity` and `total <= capacity <= 1000`. |
| Scenarios.FullIffNoneRemaining | src/routes/events.js:64-68 | For an existing user and a not-past event, register answers `EventFull` iff stats report `remaining <= 0`. |
| Scenarios.StatsAfterRegister | src/routes/events.js:173-175 | A successful register lowers the stats' remaining capacity by one and raises the total by one. No invariant is needed. |
| Scenarios.StatsAfterCancel | src/routes/events.js:173-175 | With at most one row per pair, a successful cancel raises the remaining capacity by one and lowers the total by one. |
| Scenarios.Saturation | src/routes/events.js:64-83 | Suppose distinct, existing, unregistered users try one future event in turn, and `free` places are left. Exactly the first `free` attempts succeed, and every later one gets `EventFull`. Occupancy grows by `min(free, attempts)`. |
| Scenarios.CapacityThreeTenUsers | src/routes/events.js:64-83 | For a future capacity-3 event with no registrations and ten distinct existing users, three succeed and seven get `EventFull`. Stats then report total 3 and remaining 0. |
| Scenarios.CancelThenReregister | src/routes/events.js:124-134 | Take a full capacity-1 event held by `u`. A different user `v` is refused with `EventFull`. After `u` cancels, `v`'s registration succeeds. |
| Scenarios.UpcomingIsRegistrable | src/routes/events.js:146 | An event on the list filtered at database time `listedAt` is not refused as past by a register whose server clock `registerAt` reads no later than `listedAt`. |
| Scenarios.ExampleOrdering | src/routes/events.js:147-153 | Events at times [2, 1, 2] with locations [b, a, a] are listed in the order 1@a, 2@a, 2@b. |

## Left out

- SQL, the connection pool and Express routing (`src/routes/events.js:1-15`, `src/app.js`) are I/O plumbing. HTTP status codes and JSON bodies are presentation only; the typed outcomes stand for them.
- GET /events/upcoming (line 144) is declared after GET /events/:eventId (line 93). Express tries routes in declaration order, so a request for `/events/upcoming` would reach the detail handler first. Routing is not modelled, so this is only noted here.
- Concurrency and transaction isolation are not modelled. The source issues separate queries; the model makes each handler one atomic transition.
- `uuidv4` is replaced by a `freshId` parameter. Only the invariant lemma needs it to be unused (`FreshRegistrationId`).
- `new Date(...)` parsing is not modelled. Datetimes are integers and each clock reading is a parameter.
- Scenarios.UpcomingIsRegistrable: the upcoming filter reads the database clock and the past guard reads the server clock, on different machines at different instants. The lemma relates them only under the stated ordering `registerAt <= listedAt` of the two readings. It promises nothing about a register that runs after the list was built.
- Ledger.Register: the past guard and the `registered_at` column default are fed one `now`. In the source the default is taken by the database when the INSERT runs, a little later than the guard's reading.
- `percentage_used` (line 176) is not modelled, because it is floating-point arithmetic formatted by `toFixed(2)`.
- Ordering.CompareIsLexicographic: `localeCompare` is approximated by plain lexicographic order on characters. Locale collation rules are not modelled.
- Queries.Sort: a functional insertion sort stands for `Array.prototype.sort`. It is stable, like the engine's sort, but stability is not stated as a contract.
- The event-detail handler (lines 93-116) is not modelled. Its attendee list is a SQL join and sort with no logic of its own.
- The create-user and create-event handlers (lines 18-43) are outside the ledger. So are the validators in `src/utils/validators.js`. Only the capacity range 1..1000 (validators.js line 7) is carried into the model, as the invariant `CapacitiesInRange`.
- The catch-all 500 handlers and `console.error` are not modelled. Store failures are outside a model of the store itself.
