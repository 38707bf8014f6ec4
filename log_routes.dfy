/** The two checks the HTTP routes make before calling the store: the
    defaulting of the `page` and `limit` query values, and the required
    fields of a create request. */
module LogRoutes {
  import opened Outcomes
  import opened LogModel
  import opened LogData

  /** `parseInt(q) || fallback`. `parsed` is what parseInt made of the
      query value (`None` for NaN); NaN and 0 are falsy and give way to
      the fallback. */
  function OrDefault(parsed: Option<int>, fallback: int): (r: int)
    ensures r == fallback || (parsed.Some? && r == parsed.value)
    ensures fallback != 0 ==> r != 0
    ensures 1 <= fallback && (parsed.None? || 0 <= parsed.value) ==> 1 <= r
  {
    if parsed.None? || parsed.value == 0 then fallback else parsed.value
  }

  /** GET /logs: the page for the defaulted query values. */
  function ListLogs(store: LogStore, page: Option<int>, limit: Option<int>): (r: LogPage)
    reads store
    ensures r.total == |store.logs|
    ensures page.None? && limit.None? ==> r.data == store.logs[..Min(10, |store.logs|)]
  {
    store.GetLogs(OrDefault(page, 1), OrDefault(limit, 10))
  }

  /** When no query value is negative, the defaulted values are positive,
      so the route gets the plain slice of `Paginate`. */
  lemma ListLogsWithoutNegatives(store: LogStore, page: Option<int>, limit: Option<int>)
    requires page.Some? ==> 0 <= page.value
    requires limit.Some? ==> 0 <= limit.value
    ensures var p, l := OrDefault(page, 1), OrDefault(limit, 10);
            1 <= p && 1 <= l && ListLogs(store, page, limit) == Paginate(store.logs, p, l)
  {
  }

  /** JavaScript truthiness of a body field: a string is truthy when it
      is present and has at least one character. */
  function Truthy(field: Option<string>): (b: bool)
    ensures b <==> field.Some? && 0 < |field.value|
  {
    field.Some? && field.value != ""
  }

  const MissingFields := "Owner and logText are required."

  /** POST /logs: reject a request without `owner` or `logText` and leave
      the store alone; otherwise add the log. */
  method CreateLog(store: LogStore, owner: Option<string>, logText: Option<string>, now: nat)
    returns (r: Result<LogRecord, string>)
    requires store.Valid()
    modifies store
    ensures store.Valid()
    ensures !(Truthy(owner) && Truthy(logText)) ==>
              r == Err(MissingFields) && store.Current() == old(store.Current())
    ensures Truthy(owner) && Truthy(logText) ==>
              r.Ok? && (store.Current(), r.value) == Add(old(store.Current()), owner.value, logText.value, now)
  {
    if !Truthy(owner) || !Truthy(logText) {
      return Err(MissingFields);
    }
    var newLog := store.AddLog(owner.value, logText.value, now);
    r := Ok(newLog);
  }
}
