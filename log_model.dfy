/** Log records and the meaning of each operation of the in-memory log
    store, as functions from the store's contents before the call to its
    contents and answer after it. */
module LogModel {
  import opened Outcomes
  import opened LogIds

  /** One log entry. `id` is the counter value the store allocated; its
      text form is `IdText`. Timestamps are readings of an abstract clock. */
  datatype LogRecord = LogRecord(
    id: nat,
    owner: string,
    createdAt: nat,
    updatedAt: nat,
    logText: string)

  /** The id as the store hands it out and as callers send it back. */
  function IdText(r: LogRecord): string
  {
    RenderId(r.id)
  }

  /** The fields of an update request; `None` is a field left undefined. */
  datatype Patch = Patch(owner: Option<string>, logText: Option<string>)

  /** The two errors the store throws. */
  datatype StoreError = LogNotFound | LogNotFoundForDeletion

  function Message(e: StoreError): (text: string)
    ensures 13 <= |text| && text[..13] == "Log not found"
    ensures e.LogNotFound? <==> |text| == 13
  {
    match e
    case LogNotFound => "Log not found"
    case LogNotFoundForDeletion => "Log not found for deletion"
  }

  /** What a paginated read returns. */
  datatype LogPage = LogPage(data: seq<LogRecord>, total: nat, totalPages: nat)

  /** The store's whole state: the records, newest first, and the counter
      the next id is taken from. */
  datatype Store = Store(logs: seq<LogRecord>, nextLogId: nat)

  /** 2^53. The counter is a JavaScript number, a double: below 2^53 adding
      1 is exact, but 2^53 + 1 is not representable and rounds back to 2^53. */
  const CounterLimit: nat := 0x20_0000_0000_0000

  /** `nextLogId++` on a double. From 1 the counter only reaches values up to
      CounterLimit (IdsInRange keeps it there), and at CounterLimit it stays.
      Values above CounterLimit are unreachable; for them this function is
      not JavaScript's `++`, which can still move under round-half-to-even. */
  function Increment(n: nat): (r: nat)
    ensures n < CounterLimit ==> r == n + 1
    ensures n <= r && (n <= CounterLimit ==> r <= CounterLimit)
    ensures r == n <==> CounterLimit <= n
  {
    if n < CounterLimit then n + 1 else n
  }

  // ---------------------------------------------------------------------
  // Invariants
  // ---------------------------------------------------------------------

  predicate IdsUnique(logs: seq<LogRecord>)
  {
    forall i, j :: 0 <= i < j < |logs| ==> logs[i].id != logs[j].id
  }

  /** Every id held was issued by the counter: it is at least 1 and below it. */
  predicate IdsIssued(logs: seq<LogRecord>, nextLogId: nat)
  {
    forall k :: 0 <= k < |logs| ==> 1 <= logs[k].id < nextLogId
  }

  /** Ids are unique and each was issued before the counter reached its
      present value. Holds as long as the counter has not saturated. */
  predicate IdsValid(st: Store)
  {
    1 <= st.nextLogId <= CounterLimit && IdsIssued(st.logs, st.nextLogId) && IdsUnique(st.logs)
  }

  /** What holds in every reachable state, saturated or not: the counter is
      between 1 and 2^53 and no id exceeds it. */
  predicate IdsInRange(st: Store)
  {
    1 <= st.nextLogId <= CounterLimit &&
    forall k :: 0 <= k < |st.logs| ==> 1 <= st.logs[k].id <= st.nextLogId
  }

  predicate Chronological(logs: seq<LogRecord>)
  {
    forall k :: 0 <= k < |logs| ==> logs[k].createdAt <= logs[k].updatedAt
  }

  /** No timestamp in the store is later than clock reading t. */
  predicate NotAfter(logs: seq<LogRecord>, t: nat)
  {
    forall k :: 0 <= k < |logs| ==> logs[k].createdAt <= t && logs[k].updatedAt <= t
  }

  // ---------------------------------------------------------------------
  // The array built-ins the store calls
  // ---------------------------------------------------------------------

  function Min(a: int, b: int): int
  {
    if a <= b then a else b
  }

  function Max(a: nat, b: nat): nat
  {
    if a < b then b else a
  }

  /** How `Array.prototype.slice` turns an argument into a position:
      negative values count from the end, and the result is clipped to
      [0, len]. */
  function RelativeIndex(k: int, len: nat): (r: nat)
    ensures r <= len
    ensures 0 <= k ==> r == Min(k, len)
    ensures k < 0 && -k <= len ==> r + -k == len
    ensures k < 0 && len < -k ==> r == 0
  {
    if k < 0 then (if len + k < 0 then 0 else len + k)
    else if k < len then k
    else len
  }

  /** `s.slice(start, end)`: the elements from the start position up to,
      not including, the end position, consecutive and in order. */
  function Slice<T>(s: seq<T>, start: int, end: int): (r: seq<T>)
    ensures |r| <= |s|
    ensures |r| == if RelativeIndex(start, |s|) < RelativeIndex(end, |s|)
                   then RelativeIndex(end, |s|) - RelativeIndex(start, |s|) else 0
    ensures forall k :: 0 <= k < |r| ==> r[k] == s[RelativeIndex(start, |s|) + k]
    ensures 0 <= start <= end ==> r == if |s| <= start then [] else s[start..Min(end, |s|)]
  {
    var from, to := RelativeIndex(start, |s|), RelativeIndex(end, |s|);
    if from < to then s[from..to] else []
  }

  /** `logs.findIndex(log => log.id === id)`: the first position holding
      the id, or -1. */
  function FindIndex(logs: seq<LogRecord>, id: string): (r: int)
    ensures -1 <= r < |logs|
    ensures r == -1 <==> forall k :: 0 <= k < |logs| ==> IdText(logs[k]) != id
    ensures 0 <= r ==> IdText(logs[r]) == id
    ensures 0 <= r ==> forall k :: 0 <= k < r ==> IdText(logs[k]) != id
    decreases |logs|
  {
    if logs == [] then -1
    else if IdText(logs[0]) == id then 0
    else
      var k := FindIndex(logs[1..], id);
      if k == -1 then -1 else k + 1
  }

  /** `logs.filter(log => log.id !== id)`. */
  function WithoutId(logs: seq<LogRecord>, id: string): (kept: seq<LogRecord>)
    ensures |kept| <= |logs|
    ensures forall k :: 0 <= k < |kept| ==> IdText(kept[k]) != id
    ensures forall x :: x in kept <==> x in logs && IdText(x) != id
    ensures |kept| == |logs| <==> forall k :: 0 <= k < |logs| ==> IdText(logs[k]) != id
    ensures |kept| == |logs| ==> kept == logs
    decreases |logs|
  {
    if logs == [] then []
    else if IdText(logs[0]) != id then [logs[0]] + WithoutId(logs[1..], id)
    else WithoutId(logs[1..], id)
  }

  // ---------------------------------------------------------------------
  // The operations
  // ---------------------------------------------------------------------

  /** `getLogs({page, limit})`: the records from position (page-1)*limit
      up to page*limit, the record count, and a page count that always
      assumes ten records per page. */
  function Paginate(logs: seq<LogRecord>, page: int, limit: int): (r: LogPage)
    ensures r.total == |logs|
    ensures |logs| <= 10 * r.totalPages < |logs| + 10
    ensures 1 <= page && 1 <= limit ==>
              var offset := (page - 1) * limit;
              0 <= offset &&
              r.data == if |logs| <= offset then [] else logs[offset..Min(offset + limit, |logs|)]
  {
    OffsetBounds(page, limit);
    LogPage(Slice(logs, (page - 1) * limit, page * limit), |logs|, (|logs| + 9) / 10)
  }

  lemma OffsetBounds(page: int, limit: int)
    ensures 1 <= page && 1 <= limit ==> 0 <= (page - 1) * limit && page * limit == (page - 1) * limit + limit
  {
  }

  /** `addLog`: a record with the next counter value and both timestamps
      equal to `now`, put in front of all others; the counter advances. */
  function Add(st: Store, owner: string, logText: string, now: nat): (r: (Store, LogRecord))
    ensures |r.0.logs| == |st.logs| + 1 && r.0.logs[0] == r.1 && r.0.logs[1..] == st.logs
    ensures r.1.id == st.nextLogId && r.0.nextLogId == Increment(st.nextLogId)
    ensures r.1.owner == owner && r.1.logText == logText && r.1.createdAt == r.1.updatedAt == now
  {
    var newLog := LogRecord(st.nextLogId, owner, now, now, logText);
    (Store([newLog] + st.logs, Increment(st.nextLogId)), newLog)
  }

  /** The record after an update: each supplied field replaced, in the
      order owner then logText, then `updatedAt` set to `now`. */
  function Patched(r: LogRecord, fields: Patch, now: nat): (u: LogRecord)
    ensures u.id == r.id && u.createdAt == r.createdAt && u.updatedAt == now
    ensures u.owner == if fields.owner.Some? then fields.owner.value else r.owner
    ensures u.logText == if fields.logText.Some? then fields.logText.value else r.logText
  {
    var withOwner := if fields.owner.Some? then r.(owner := fields.owner.value) else r;
    var withText := if fields.logText.Some? then withOwner.(logText := fields.logText.value) else withOwner;
    withText.(updatedAt := now)
  }

  /** `updateLogById`: patch the first record with the id, in place, and
      return it; fail with "Log not found" when there is none. */
  function Update(st: Store, id: string, fields: Patch, now: nat): (r: Result<(Store, LogRecord), StoreError>)
    ensures r.Err? ==> r == Err(LogNotFound)
    ensures r.Ok? ==> IdText(r.value.1) == id && r.value.1 in r.value.0.logs
    ensures r.Ok? ==> |r.value.0.logs| == |st.logs| && r.value.0.nextLogId == st.nextLogId
    ensures r.Ok? ==> forall k :: 0 <= k < |st.logs| && IdText(st.logs[k]) != id ==>
                        r.value.0.logs[k] == st.logs[k]
  {
    var i := FindIndex(st.logs, id);
    if i == -1 then Err(LogNotFound)
    else
      var u := Patched(st.logs[i], fields, now);
      assert st.logs[i := u][i] == u;
      Ok((Store(st.logs[i := u], st.nextLogId), u))
  }

  /** `deleteLogById`: keep the records whose id differs; fail with
      "Log not found for deletion" when that kept all of them. */
  function Delete(st: Store, id: string): (r: Result<Store, StoreError>)
    ensures r.Err? ==> r == Err(LogNotFoundForDeletion)
    ensures r.Ok? ==> |r.value.logs| < |st.logs| && r.value.nextLogId == st.nextLogId
    ensures r.Ok? ==> forall k :: 0 <= k < |r.value.logs| ==> IdText(r.value.logs[k]) != id
    ensures r.Ok? ==> forall x :: x in st.logs && IdText(x) != id ==> x in r.value.logs
  {
    var kept := WithoutId(st.logs, id);
    if |kept| == |st.logs| then Err(LogNotFoundForDeletion)
    else Ok(Store(kept, st.nextLogId))
  }
}
