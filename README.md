# In-memory log store, modelled in Dafny

The server of this log-bookkeeping service keeps every log entry in one
module-level array, `logs`, newest first, and draws ids from a counter,
`nextLogId`. Four operations use them: `getLogs` (one page of records and
the counts), `addLog` (a new record at the front with a fresh id),
`updateLogById` (a partial update in place, failing with "Log not found")
and `deleteLogById` (a filter by id, failing with "Log not found for
deletion"). At startup a loop seeds 15 sample records.

The model has these parts:

- `LogIds` (log_ids.dfy): the text form `log-<counter>` of an id, and a
  proof that it is injective. Records hold the counter value. Callers send
  back the string, and the store compares strings, as the source does.
- `LogModel` (log_model.dfy): the records, the array built-ins the store
  uses (`slice` with its negative-index rule, `findIndex`, `filter`), and
  what each operation means as a function of the store's contents.
- `LogLaws` (log_laws.dfy): what the operations promise. Ids stay unique
  while the counter is below 2^53, and the next id is unused. Records are newest first. Pages slice the
  array exactly. Updates are partial. Deletes remove exactly the matching
  record. A failed call changes nothing.
- `LogData` (log_data.dfy): the store itself, a class with fields `logs`
  and `nextLogId`. Its methods update these fields step by step, as the
  source does. Each method's postcondition ties the new state to the
  meaning in `LogModel`. The constructor is the seeding loop.
- `LogRoutes` (log_routes.dfy): the two guards the HTTP routes apply
  before calling the store: `parseInt(q) || default` for `page` and
  `limit`, and the required-fields check on create.
- `LogTrace` (log_trace.dfy): runs of calls one after another. Over any
  run, an id below the counter is never issued again, even after it is
  deleted. Every id is safe, and ids stay unique, as long as the run's
  creates do not push the counter past 2^53. With a clock that never
  goes back, every record keeps `createdAt <= updatedAt`. It also has
  create/list/update/delete scenarios: newest first, a stale id after a
  delete, and a partial update.

Time is an abstract clock reading `now: nat`, passed to every operation
that reads the clock. The class keeps a ghost `clock`: the greatest reading
taken by the seeding loop, a create or a successful update. A failed update throws before it
reads the clock, so it leaves `clock` as it was.

`nextLogId` is a JavaScript number, a double. Up to 2^53 every integer is
exact and `nextLogId++` adds one. At 2^53, adding one rounds back to 2^53,
so the counter stops moving and every later create reuses the id
`log-9007199254740992`. `LogModel.Increment` writes this out.
`LogLaws.SaturatedCounterRepeatsId` shows two creates getting the same id.
Uniqueness is therefore proved for stores whose counter is below 2^53. The
weaker range bound, `1 <= id <= nextLogId <= 2^53`, holds always.

The model follows the code where it departs from the intended interface:

- `totalPages` is `ceil(total / 10)` whatever `limit` is. The interface
  asks for `ceil(total / limit)`. `LogLaws.TotalPagesIgnoresLimit` shows
  the difference.
- `getLogs` returns only `data`, `total` and `totalPages`. `page` and
  `limit` are not echoed back.
- The create guard tests JavaScript truthiness. A whitespace-only `owner`
  or `logText` is accepted. The interface asks for values that are
  non-empty after trimming.

## Model

| member | source | states |
|---|---|---|
| LogIds.Decimal | server/data/data.js:35 | the rendering of a counter is non-empty, one character exactly for 0..9, and made of decimal digits only |
| LogIds.DecimalInjective | server/data/data.js:35 | two counters with the same decimal rendering are equal |
| LogIds.RenderIdInjective | server/data/data.js:35 | `log-${a}` equals `log-${b}` only when a == b, so comparing id strings compares counters |
| LogIds.RenderId | server/data/data.js:35 | the id text `log-${k}`: "log-" followed by the decimal form of k, at least five characters |
| LogModel.Message | server/data/data.js:55-78 | the texts thrown at lines 55 and 78: both begin with "Log not found"; the update error is exactly that text and the delete error is a longer one |
| LogModel.Increment | server/data/data.js:35 | `nextLogId++` on a double: below 2^53 the counter grows by one; it never decreases and never passes 2^53; at 2^53 it stands still. Values above 2^53 are unreachable, and there the model does not follow JavaScript rounding |
| LogModel.RelativeIndex | server/data/data.js:23 | slice's index rule: a non-negative index is clipped to the length; a negative one counts back from the end, and is 0 when it reaches past the start |
| LogModel.Slice | server/data/data.js:23 | `slice(start, end)`: the result has max(to - from, 0) elements, its k-th is element from + k, and with 0 <= start <= end it is s[start..min(end, len)], empty when start is at or past the end |
| LogModel.FindIndex | server/data/data.js:53 | findIndex gives -1 exactly when no record has the id; otherwise a position holding the id with no earlier one holding it |
| LogModel.WithoutId | server/data/data.js:76 | the filter keeps exactly the records whose id differs; the length is unchanged exactly when no record had the id, and then the array is unchanged |
| LogModel.Paginate | server/data/data.js:20-25 | total is the record count; totalPages is the least k with 10k >= count, whatever limit is; for page, limit >= 1 the data are the records from (page-1)*limit up to page*limit clipped to the end, empty when the offset is at or past the end |
| LogModel.Add | server/data/data.js:32-43 | the new record goes in front and the old ones follow unchanged; its id is the old counter, owner and text are those given, createdAt == updatedAt == now; the counter takes one `++` step |
| LogModel.Update | server/data/data.js:52-67 | a failure is exactly "Log not found"; on success the record returned has the id and is in the new array; length and counter are kept; every record with another id is kept |
| LogModel.Delete | server/data/data.js:74-80 | a failure is exactly "Log not found for deletion"; on success the array is shorter, no record with the id is left, every record with another id stays, and the counter is kept |
| LogModel.Patched | server/data/data.js:58-64 | a supplied owner or logText replaces that field and an omitted one keeps it; updatedAt becomes now; id and createdAt are kept |
| LogLaws.IdTextDistinct | server/data/data.js:35 | under unique counters, two records' id strings differ |
| LogLaws.NextIdUnused | server/data/data.js:35 | when every held id is unique and below the counter (IdsValid), no record held has the id string the counter will issue next |
| LogLaws.WithoutIdSplit | server/data/data.js:76 | the filter distributes over concatenation, so it keeps the relative order of the records it keeps |
| LogLaws.WithoutIdSingle | server/data/data.js:76 | under unique ids, filtering out the id held at position i removes exactly that record |
| LogLaws.WithoutIdAt | server/data/data.js:76 | when only position i holds the id, the filter removes exactly that record and keeps the rest in order |
| LogLaws.FindIndexUnique | server/data/data.js:53 | under unique ids, findIndex returns the one position that holds the id |
| LogLaws.RecordOnItsPage | server/data/data.js:23 | record i appears on page i/limit + 1 at position i mod limit |
| LogLaws.PageEntry | server/data/data.js:23 | for page, limit >= 1, entry m < limit of a page is the record at (page-1)*limit + m, when there is one |
| LogLaws.PagesCover | server/data/data.js:23 | pages 1..n read in turn give exactly the first n*limit records, in order and each once |
| LogLaws.TotalPagesAtLimitTen | server/data/data.js:22 | with limit 10, page p >= 1 is non-empty exactly when p <= totalPages |
| LogLaws.TotalPagesIgnoresLimit | server/data/data.js:22 | with 15 records and limit 5, totalPages is 2 while page 3 holds records 10..14 |
| LogLaws.FifteenRecordsTenPerPage | server/data/data.js:20-25 | with 15 records and limit 10: page 1 has the first 10, page 2 the last 5, page 3 none; total 15, totalPages 2 |
| LogLaws.NegativePageCountsFromEnd | server/data/data.js:23 | page -1 with limit 10 over 15 records returns the first 5, by slice's count-from-the-end rule |
| LogLaws.SaturatedCounterRepeatsId | server/data/data.js:35 | with the counter at 2^53, two creates in a row get the same id and id string, and the array no longer has unique ids |
| LogLaws.AddIssuesUnusedId | server/data/data.js:35 | when every held id is unique and below the counter (IdsValid), the id string add hands out is held by no existing record |
| LogLaws.AddKeepsInvariant | server/data/data.js:32-43 | add always keeps ids within 1..counter <= 2^53; below 2^53 it keeps ids unique and below the counter; no timestamp later than the greatest clock reading; createdAt <= updatedAt |
| LogLaws.AddThenDelete | server/data/data.js:74-80 | when every held id is unique and below the counter (IdsValid), deleting the id just added succeeds and gives back exactly the previous records, with the counter one step on |
| LogLaws.UpdateFailsIffUnknown | server/data/data.js:53-56 | update fails, with "Log not found", exactly when no record has the id |
| LogLaws.UpdateKnown | server/data/data.js:52-67 | on an id that findIndex finds at position i, with or without unique ids, update replaces only that record, in place, with its patched form; the counter is kept and the stored record is returned |
| LogLaws.UpdateKeepsInvariant | server/data/data.js:58-64 | a successful update keeps the id range and, below 2^53, unique ids; it moves the greatest clock reading to max(clock, now), and keeps createdAt <= updatedAt when the clock has not gone back |
| LogLaws.UpdateIdempotent | server/data/data.js:52-67 | the same update sent twice at the same clock reading leaves the store as one update does |
| LogLaws.UpdateAcceptsEmpty | server/data/data.js:58-63 | whenever some record holds the id, a supplied empty owner or logText is stored as it is, with no check |
| LogLaws.DeleteFailsIffUnknown | server/data/data.js:74-80 | delete fails, with "Log not found for deletion", exactly when no record has the id |
| LogLaws.DeleteKnown | server/data/data.js:76-77 | under unique ids, deleting the id at position i leaves the records before and after it, in order, and keeps the counter |
| LogLaws.DeleteTwiceFails | server/data/data.js:74-80 | after a successful delete, deleting the same id fails |
| LogLaws.DeleteKeepsInvariant | server/data/data.js:74-80 | a successful delete keeps the id range and, below 2^53, unique ids; it keeps the clock bound, and createdAt <= updatedAt |
| LogLaws.RemoveAtKeepsInvariant | server/data/data.js:76 | removing one record keeps the per-record and pairwise invariants of the rest |
| LogLaws.ReplaceAtKeepsInvariant | server/data/data.js:58-64 | writing back a record with the same id and createdAt, updated at now, keeps the id range, issued and unique ids, the clock bound, and createdAt <= updatedAt when the clock has not gone back |
| LogData.LogStore.constructor | server/data/data.js:1-14 | seeding gives 15 records with ids 1..15 in ascending order, the sample texts and the given owners and times; nextLogId is 16; ids are unique and the invariant holds |
| LogData.LogStore.PushKeepsInvariant | server/data/data.js:7-13 | pushing a seed that carries the counter as id and equal timestamps keeps ids issued and unique, the clock bound and createdAt <= updatedAt |
| LogData.SampleText | server/data/data.js:12 | the seed text starts with the fixed prefix, ends with the fixed suffix, and between them holds the decimal form of n |
| LogData.LogStore.GetLogs | server/data/data.js:20-25 | total is the record count; the data are a run of consecutive records; with page and limit >= 1 there are at most limit of them |
| LogData.LogStore.AddLog | server/data/data.js:32-43 | the state and answer of `Add`: the old counter with the given fields and now goes in front of the old array; the counter takes one `++` step; the clock moves to max(clock, now); when every held id is unique and below the counter (IdsValid), the id string is new, and if moreover the counter is below 2^53, IdsValid still holds after; the invariant holds |
| LogData.LogStore.UpdateLogById | server/data/data.js:52-67 | on an unknown id, "Log not found", with the array and the clock unchanged; otherwise the state and answer of `Update`, with the clock moved to max(clock, now); the counter is kept; unique ids stay unique; the invariant holds |
| LogData.LogStore.DeleteLogById | server/data/data.js:74-80 | on an unknown id, "Log not found for deletion" and the array is unchanged; otherwise the state of `Delete`; the counter and the clock are kept; unique ids stay unique; the invariant holds |
| LogRoutes.OrDefault | server/routes/routes.js:23-24 | the parsed value or, when it is NaN or 0, the default: the result is either the default or the parsed value; it is never 0 when the default is not; with default >= 1 and no negative value it is at least 1 |
| LogRoutes.ListLogs | server/routes/routes.js:22-27 | total is the record count; with no query values the data are the first ten records |
| LogRoutes.ListLogsWithoutNegatives | server/routes/routes.js:22-27 | with no negative query values, page and limit are at least 1 and the route returns `Paginate` of them |
| LogRoutes.Truthy | server/routes/routes.js:33 | a body field passes `!field` exactly when it is present and has at least one character |
| LogRoutes.CreateLog | server/routes/routes.js:30-41 | a missing or empty owner or logText gives "Owner and logText are required." and leaves the store unchanged; otherwise the result of add |
| LogTrace.StepKeepsInvariant | server/data/data.js:32-80 | every call keeps the id range; it keeps ids unique unless it is a create at 2^53; it keeps the clock bound, and createdAt <= updatedAt when the clock does not go back |
| LogTrace.RunKeepsInRange | server/data/data.js:35 | after any run of calls, ids are within 1..counter and the counter within 2^53 |
| LogTrace.RunKeepsIds | server/data/data.js:35 | after any run whose creates keep the counter within 2^53, ids are unique and below the counter |
| LogTrace.RunKeepsChronological | server/data/data.js:33-64 | after any run whose clock readings (taken by creates and successful updates) never go back, every record has createdAt <= updatedAt |
| LogTrace.RunCounterGrows | server/data/data.js:35 | the counter never decreases over a run |
| LogTrace.IdsNeverReissued | server/data/data.js:35 | when every held id is below the counter, a record's id, even one deleted later, is below and differs from the id any later add issues; at 2^53 the saturated id itself can repeat |
| LogTrace.NewestFirstScenario | server/data/data.js:41 | after adding A then B, page 1 with limit >= 2 starts with B then A |
| LogTrace.StaleIdScenario | server/data/data.js:52-80 | after add then delete of its id, updating or deleting that id fails |
| LogTrace.PartialUpdateScenario | server/data/data.js:58-64 | updating only the owner keeps the text and createdAt and moves updatedAt forward |

## Left out

- HTTP routing, the 500 ms latency middleware, console logging, and the mapping of results onto status codes and JSON bodies (server/routes/routes.js, server/index.js). Only the two guards are kept.
- `parseInt` itself. A route receives what it parsed as an optional integer, with `None` standing for NaN.
- `Date` and ISO time strings. A timestamp is an abstract clock reading passed in as `now`. Whether the clock is monotonic is a property of the environment, so it is a hypothesis of the lemmas and of a conditional postcondition, not a precondition.
- `Math.random` owner names in the seeding loop. The constructor takes the 15 owner names and the 15 clock readings as parameters.
- Object aliasing. The source returns references to the stored objects from `getLogs`, `addLog` and `updateLogById`, so a caller that mutates one mutates the store. Records here are immutable values.
- Body fields that are not strings. JSON `null` or a number for `owner` would pass `!== undefined` and be stored. `Patch` holds only strings or absence.
- The React client, its fetch service and its hook (client/src). They are presentation and network glue with no store state.
