/** The in-memory log store: the module-level list of records, newest
    first, and the id counter, updated in place by each operation. */
module LogData {
  import opened Outcomes
  import opened LogIds
  import opened LogModel
  import LogLaws

  const SamplePrefix := "This is a sample log entry number "
  const SampleSuffix := ". It contains some detailed information about an event that occurred."

  /** The text of the n-th seeded record; the entry number can be read
      back from it. */
  function SampleText(n: nat): (text: string)
    ensures |SamplePrefix| + |SampleSuffix| < |text|
    ensures text[..|SamplePrefix|] == SamplePrefix && text[|text| - |SampleSuffix|..] == SampleSuffix
    ensures text[|SamplePrefix|..|text| - |SampleSuffix|] == Decimal(n)
  {
    SamplePrefix + Decimal(n) + SampleSuffix
  }

  class LogStore {
    var logs: seq<LogRecord>
    var nextLogId: nat
    /** The greatest clock reading the store has taken. */
    ghost var clock: nat

    function Current(): Store
      reads this
    {
      Store(logs, nextLogId)
    }

    /** The counter is within 2^53 and no id exceeds it, and no timestamp
        is later than the greatest clock reading. Whether ids are also unique
        (IdsValid) each method states separately: it stops holding once the
        counter saturates. */
    ghost predicate Valid()
      reads this
    {
      IdsInRange(Current()) && NotAfter(logs, clock)
    }

    /** The seeding loop: 15 records with ids 1..15 in ascending order.
        The owner names and clock readings it draws are passed in. */
    constructor (owners: seq<string>, times: seq<nat>)
      requires |owners| == 15 && |times| == 15
      ensures Valid() && IdsValid(Current()) && Chronological(logs)
      ensures |logs| == 15 && nextLogId == 16
      ensures forall k :: 0 <= k < 15 ==>
                logs[k] == LogRecord(k + 1, owners[k], times[k], times[k], SampleText(k + 1))
    {
      var seeded: seq<LogRecord> := [];
      var next: nat := 1;
      ghost var latest: nat := 0;
      for i := 1 to 16
        invariant next == i && |seeded| == i - 1
        invariant forall k :: 0 <= k < |seeded| ==>
                    seeded[k] == LogRecord(k + 1, owners[k], times[k], times[k], SampleText(k + 1))
        invariant NotAfter(seeded, latest) && Chronological(seeded)
        invariant IdsIssued(seeded, next) && IdsUnique(seeded)
      {
        var now := times[i - 1];
        var seed := LogRecord(next, owners[i - 1], now, now, SampleText(i));
        ghost var prefix := seeded;
        PushKeepsInvariant(seeded, seed, next, latest);
        seeded := seeded + [seed];
        assert forall k :: 0 <= k < |prefix| ==> seeded[k] == prefix[k];
        assert seeded[i - 1] == seed;
        next := next + 1;
        latest := Max(latest, now);
      }
      assert next == 16 < CounterLimit;
      assert IdsValid(Store(seeded, next)) && IdsInRange(Store(seeded, next));
      logs, nextLogId, clock := seeded, next, latest;
    }

    /** `logs.push(seed)` in the seeding loop keeps ids issued and unique
        and timestamps in order, when the seed has the counter as id. */
    static lemma PushKeepsInvariant(logs: seq<LogRecord>, seed: LogRecord, next: nat, t: nat)
      requires IdsIssued(logs, next) && IdsUnique(logs) && NotAfter(logs, t) && Chronological(logs)
      requires 1 <= next && seed.id == next && seed.createdAt == seed.updatedAt
      ensures var pushed := logs + [seed];
              IdsIssued(pushed, next + 1) && IdsUnique(pushed) &&
              NotAfter(pushed, Max(t, seed.updatedAt)) && Chronological(pushed)
    {
    }

    /** `getLogs`: reads the store, changes nothing. It returns a run of
        consecutive stored records, in store order, at most `limit` of them,
        and the record count. */
    function GetLogs(page: int, limit: int): (r: LogPage)
      reads this
      ensures r.total == |logs|
      ensures exists from :: 0 <= from <= |logs| && r.data <= logs[from..]
      ensures 1 <= page && 1 <= limit ==> |r.data| <= limit
    {
      var p := Paginate(logs, page, limit);
      var from := RelativeIndex((page - 1) * limit, |logs|);
      assert p.data <= logs[from..];
      p
    }

    /** `addLog`. */
    method AddLog(owner: string, logText: string, now: nat) returns (newLog: LogRecord)
      requires Valid()
      modifies this
      ensures Valid() && clock == Max(old(clock), now)
      ensures (Current(), newLog) == Add(old(Current()), owner, logText, now)
      ensures logs == [newLog] + old(logs) && nextLogId == Increment(old(nextLogId))
      ensures newLog == LogRecord(old(nextLogId), owner, now, now, logText)
      ensures old(IdsValid(Current())) ==>
                forall k :: 0 <= k < |old(logs)| ==> IdText(old(logs)[k]) != IdText(newLog)
      ensures old(IdsValid(Current())) && old(nextLogId) < CounterLimit ==> IdsValid(Current())
      ensures old(Chronological(logs)) ==> Chronological(logs)
    {
      if IdsValid(Current()) {
        LogLaws.AddIssuesUnusedId(Current(), owner, logText, now);
      }
      LogLaws.AddKeepsInvariant(Current(), owner, logText, now, clock);
      var id := nextLogId;
      nextLogId := Increment(nextLogId);
      newLog := LogRecord(id, owner, now, now, logText);
      logs := [newLog] + logs;
      clock := Max(clock, now);
    }

    /** `updateLogById`. */
    method UpdateLogById(id: string, updatedFields: Patch, now: nat) returns (r: Result<LogRecord, StoreError>)
      requires Valid()
      modifies this
      ensures Valid() && nextLogId == old(nextLogId)
      ensures var u := Update(old(Current()), id, updatedFields, now);
              (u.Err? ==> r == Err(u.error) && logs == old(logs) && clock == old(clock)) &&
              (u.Ok? ==> r == Ok(u.value.1) && Current() == u.value.0 && clock == Max(old(clock), now))
      ensures r.Err? <==> forall k :: 0 <= k < |old(logs)| ==> IdText(old(logs)[k]) != id
      ensures r.Err? ==> Message(r.error) == "Log not found"
      ensures old(IdsValid(Current())) ==> IdsValid(Current())
      ensures old(Chronological(logs)) && old(clock) <= now ==> Chronological(logs)
    {
      ghost var before := Current();
      var logIndex := FindIndex(logs, id);
      if logIndex == -1 {
        r := Err(LogNotFound);
        return;
      }
      if updatedFields.owner.Some? {
        logs := logs[logIndex := logs[logIndex].(owner := updatedFields.owner.value)];
      }
      if updatedFields.logText.Some? {
        logs := logs[logIndex := logs[logIndex].(logText := updatedFields.logText.value)];
      }
      logs := logs[logIndex := logs[logIndex].(updatedAt := now)];
      r := Ok(logs[logIndex]);
      clock := Max(clock, now);
      assert logs == before.logs[logIndex := Patched(before.logs[logIndex], updatedFields, now)];
      LogLaws.UpdateKeepsInvariant(before, id, updatedFields, now, old(clock));
    }

    /** `deleteLogById`: returns the error it throws, if any. */
    method DeleteLogById(id: string) returns (e: Option<StoreError>)
      requires Valid()
      modifies this
      ensures Valid() && clock == old(clock)
      ensures nextLogId == old(nextLogId)
      ensures var d := Delete(old(Current()), id);
              (d.Err? ==> e == Some(d.error) && logs == old(logs)) &&
              (d.Ok? ==> e == None && Current() == d.value)
      ensures e.Some? <==> forall k :: 0 <= k < |old(logs)| ==> IdText(old(logs)[k]) != id
      ensures e.Some? ==> Message(e.value) == "Log not found for deletion"
      ensures old(IdsValid(Current())) ==> IdsValid(Current())
      ensures old(Chronological(logs)) ==> Chronological(logs)
    {
      ghost var before := Current();
      var initialLength := |logs|;
      logs := WithoutId(logs, id);
      if |logs| == initialLength {
        e := Some(LogNotFoundForDeletion);
        return;
      }
      e := None;
      LogLaws.DeleteKeepsInvariant(before, id, clock);
    }
  }
}
