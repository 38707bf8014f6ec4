/** What the operations of the log store promise, proved about their
    meaning in LogModel. */
module LogLaws {
  import opened Outcomes
  import opened LogIds
  import opened LogModel

  // ---------------------------------------------------------------------
  // Ids
  // ---------------------------------------------------------------------

  /** Under unique counters, the id strings of two records differ too. */
  lemma IdTextDistinct(logs: seq<LogRecord>, i: nat, j: nat)
    requires IdsUnique(logs)
    requires i < |logs| && j < |logs| && i != j
    ensures IdText(logs[i]) != IdText(logs[j])
  {
    if i < j { assert logs[i].id != logs[j].id; } else { assert logs[j].id != logs[i].id; }
    if IdText(logs[i]) == IdText(logs[j]) {
      RenderIdInjective(logs[i].id, logs[j].id);
    }
  }

  /** No record in a store holds the id text the counter issues next. */
  lemma NextIdUnused(st: Store)
    requires IdsValid(st)
    ensures forall k :: 0 <= k < |st.logs| ==> IdText(st.logs[k]) != RenderId(st.nextLogId)
  {
    forall k | 0 <= k < |st.logs|
      ensures IdText(st.logs[k]) != RenderId(st.nextLogId)
    {
      if IdText(st.logs[k]) == RenderId(st.nextLogId) {
        RenderIdInjective(st.logs[k].id, st.nextLogId);
      }
    }
  }

  // ---------------------------------------------------------------------
  // The array built-ins
  // ---------------------------------------------------------------------

  /** filter distributes over concatenation, so it keeps the relative
      order of what it keeps. */
  lemma {:induction false} WithoutIdSplit(a: seq<LogRecord>, b: seq<LogRecord>, id: string)
    ensures WithoutId(a + b, id) == WithoutId(a, id) + WithoutId(b, id)
    decreases |a|
  {
    if a == [] {
      assert a + b == b;
    } else {
      var head := a[0];
      assert (a + b)[0] == head;
      assert (a + b)[1..] == a[1..] + b;
      WithoutIdSplit(a[1..], b, id);
      if IdText(head) != id {
        calc {
          WithoutId(a + b, id);
          [head] + WithoutId(a[1..] + b, id);
          [head] + (WithoutId(a[1..], id) + WithoutId(b, id));
          ([head] + WithoutId(a[1..], id)) + WithoutId(b, id);
          WithoutId(a, id) + WithoutId(b, id);
        }
      }
    }
  }

  /** When the id is held by exactly the record at position i, filter
      removes that record and nothing else. */
  lemma WithoutIdSingle(logs: seq<LogRecord>, id: string, i: nat)
    requires IdsUnique(logs)
    requires i < |logs| && IdText(logs[i]) == id
    ensures WithoutId(logs, id) == logs[..i] + logs[i + 1..]
  {
    forall k | 0 <= k < |logs| && k != i ensures IdText(logs[k]) != id {
      IdTextDistinct(logs, k, i);
    }
    WithoutIdAt(logs, id, i);
  }

  /** Filtering out an id that only position i holds removes exactly
      that record. */
  lemma {:induction false} WithoutIdAt(logs: seq<LogRecord>, id: string, i: nat)
    requires i < |logs| && IdText(logs[i]) == id
    requires forall k :: 0 <= k < |logs| && k != i ==> IdText(logs[k]) != id
    ensures WithoutId(logs, id) == logs[..i] + logs[i + 1..]
    decreases i
  {
    var tail := logs[1..];
    if i == 0 {
      assert forall k :: 0 <= k < |tail| ==> IdText(tail[k]) != id;
      assert logs[..0] + logs[1..] == tail;
    } else {
      assert IdText(logs[0]) != id;
      assert WithoutId(logs, id) == [logs[0]] + WithoutId(tail, id);
      forall k | 0 <= k < |tail| && k != i - 1 ensures IdText(tail[k]) != id {
        assert tail[k] == logs[k + 1];
      }
      WithoutIdAt(tail, id, i - 1);
      DropAfterHead(logs, i);
    }
  }

  /** Dropping position i > 0 is dropping position i - 1 of the tail. Kept
      apart so that the id facts above are not in scope of this step. */
  lemma DropAfterHead<T>(s: seq<T>, i: nat)
    requires 0 < i < |s|
    ensures s[..i] + s[i + 1..] == [s[0]] + (s[1..][..i - 1] + s[1..][i..])
  {
    assert s[..i] == [s[0]] + s[1..][..i - 1];
  }

  /** Under unique ids, findIndex finds the one record that holds the id. */
  lemma FindIndexUnique(logs: seq<LogRecord>, id: string, i: nat)
    requires IdsUnique(logs)
    requires i < |logs| && IdText(logs[i]) == id
    ensures FindIndex(logs, id) == i
  {
    var j := FindIndex(logs, id);
    if j != i {
      IdTextDistinct(logs, i, j);
    }
  }

  // ---------------------------------------------------------------------
  // getLogs
  // ---------------------------------------------------------------------

  /** Record i is shown on page i / limit + 1, at position i % limit. */
  lemma RecordOnItsPage(logs: seq<LogRecord>, limit: int, i: nat)
    requires 1 <= limit && i < |logs|
    ensures var p := Paginate(logs, i / limit + 1, limit).data;
            i % limit < |p| && p[i % limit] == logs[i]
  {
    var q, m := i / limit, i % limit;
    QuotientSplit(i, limit);
    assert (q + 1 - 1) * limit + m == i;
    PageEntry(logs, q + 1, limit, m);
  }

  /** Entry m of a page is the record m places after the page's offset. */
  lemma PageEntry(logs: seq<LogRecord>, page: int, limit: int, m: nat)
    requires 1 <= page && 1 <= limit && m < limit && (page - 1) * limit + m < |logs|
    ensures var p := Paginate(logs, page, limit).data;
            m < |p| && p[m] == logs[(page - 1) * limit + m]
  {
    var offset := (page - 1) * limit;
    assert Paginate(logs, page, limit).data == logs[offset..Min(offset + limit, |logs|)];
  }

  /** Position i lies m = i mod limit places after the start of page
      i / limit + 1. */
  lemma QuotientSplit(i: nat, limit: int)
    requires 1 <= limit
    ensures (i / limit) * limit + i % limit == i && 0 <= i % limit < limit
  {
  }

  /** The first n pages, one after the other. */
  function Pages(logs: seq<LogRecord>, limit: int, n: nat): seq<LogRecord>
    decreases n
  {
    if n == 0 then [] else Pages(logs, limit, n - 1) + Paginate(logs, n, limit).data
  }

  /** Reading pages 1..n in turn yields the first n*limit records in
      store order, each once; a page past the end adds nothing. */
  lemma {:induction false} PagesCover(logs: seq<LogRecord>, limit: int, n: nat)
    requires 1 <= limit
    ensures Pages(logs, limit, n) == logs[..Min(n * limit, |logs|)]
    decreases n
  {
    if n > 0 {
      PagesCover(logs, limit, n - 1);
      var offset := (n - 1) * limit;
      OffsetBounds(n, limit);
      var before := Pages(logs, limit, n - 1);
      var page := Paginate(logs, n, limit).data;
      assert Pages(logs, limit, n) == before + page;
      if |logs| <= offset {
        assert page == [];
        assert before == logs[..|logs|];
      } else {
        var hi := Min(n * limit, |logs|);
        assert before == logs[..offset];
        assert page == logs[offset..hi];
        assert logs[..offset] + logs[offset..hi] == logs[..hi];
      }
    }
  }

  /** With ten records per page, `totalPages` is exactly the number of
      non-empty pages: page p (p >= 1) has records iff p <= totalPages. */
  lemma TotalPagesAtLimitTen(logs: seq<LogRecord>, page: int)
    requires 1 <= page
    ensures var r := Paginate(logs, page, 10);
            r.data != [] <==> page <= r.totalPages
  {
  }

  /** `totalPages` does not depend on `limit`: with 15 records and five
      per page, it still says 2 while page 3 is full. */
  lemma TotalPagesIgnoresLimit(logs: seq<LogRecord>)
    requires |logs| == 15
    ensures Paginate(logs, 3, 5).totalPages == 2
    ensures Paginate(logs, 3, 5).data == logs[10..15]
  {
  }

  /** 15 records, ten per page: 10 records, then 5, then none; two pages. */
  lemma FifteenRecordsTenPerPage(logs: seq<LogRecord>)
    requires |logs| == 15
    ensures Paginate(logs, 1, 10) == LogPage(logs[..10], 15, 2)
    ensures Paginate(logs, 2, 10) == LogPage(logs[10..], 15, 2)
    ensures Paginate(logs, 3, 10) == LogPage([], 15, 2)
  {
  }

  /** A negative page passes the route's defaulting and reaches slice's
      count-from-the-end rule: page -1 of ten returns the first five of
      15 records. */
  lemma NegativePageCountsFromEnd(logs: seq<LogRecord>)
    requires |logs| == 15
    ensures Paginate(logs, -1, 10).data == logs[..5]
  {
  }

  // ---------------------------------------------------------------------
  // addLog
  // ---------------------------------------------------------------------

  /** Once the counter has reached 2^53 it stops growing, and every add
      hands out the same id again. */
  lemma SaturatedCounterRepeatsId(st: Store, a: (string, string), b: (string, string), t1: nat, t2: nat)
    requires st.nextLogId == CounterLimit
    ensures var (s1, r1) := Add(st, a.0, a.1, t1);
            var (s2, r2) := Add(s1, b.0, b.1, t2);
            r1.id == r2.id && IdText(r1) == IdText(r2) && !IdsUnique(s2.logs)
  {
    var (s1, r1) := Add(st, a.0, a.1, t1);
    var (s2, r2) := Add(s1, b.0, b.1, t2);
    assert s2.logs[0] == r2 && s2.logs[1] == r1;
  }

  /** The id text handed out differs from the id text of every record
      already held. */
  lemma AddIssuesUnusedId(st: Store, owner: string, logText: string, now: nat)
    requires IdsValid(st)
    ensures forall k :: 0 <= k < |st.logs| ==> IdText(st.logs[k]) != IdText(Add(st, owner, logText, now).1)
  {
    NextIdUnused(st);
  }

  /** Adding keeps ids within the counter; it keeps them unique and issued
      while the counter is below 2^53; it moves the greatest clock reading to
      `now` if later and keeps createdAt <= updatedAt. */
  lemma AddKeepsInvariant(st: Store, owner: string, logText: string, now: nat, t: nat)
    ensures var st' := Add(st, owner, logText, now).0;
            (IdsInRange(st) ==> IdsInRange(st')) &&
            (IdsValid(st) && st.nextLogId < CounterLimit ==> IdsValid(st')) &&
            (NotAfter(st.logs, t) ==> NotAfter(st'.logs, Max(t, now))) &&
            (Chronological(st.logs) ==> Chronological(st'.logs))
  {
  }

  /** Deleting the record just added gives back the previous records. */
  lemma AddThenDelete(st: Store, owner: string, logText: string, now: nat)
    requires IdsValid(st)
    ensures var (st', r) := Add(st, owner, logText, now);
            Delete(st', IdText(r)) == Ok(Store(st.logs, Increment(st.nextLogId)))
  {
    var (st', r) := Add(st, owner, logText, now);
    AddIssuesUnusedId(st, owner, logText, now);
    WithoutIdSplit([r], st.logs, IdText(r));
  }

  // ---------------------------------------------------------------------
  // updateLogById
  // ---------------------------------------------------------------------

  /** An update fails with "Log not found" exactly when no record holds
      the id. */
  lemma UpdateFailsIffUnknown(st: Store, id: string, fields: Patch, now: nat)
    ensures Update(st, id, fields, now).Err? <==> forall k :: 0 <= k < |st.logs| ==> IdText(st.logs[k]) != id
    ensures Update(st, id, fields, now).Err? ==> Message(Update(st, id, fields, now).error) == "Log not found"
  {
  }

  /** On an id held at position i, an update replaces exactly that record
      with its patched form, keeps its position and every other record,
      leaves the counter alone and returns the stored record. */
  lemma UpdateKnown(st: Store, id: string, fields: Patch, now: nat, i: nat)
    requires FindIndex(st.logs, id) == i
    ensures i < |st.logs|
    ensures var u := Patched(st.logs[i], fields, now);
            Update(st, id, fields, now) == Ok((Store(st.logs[i := u], st.nextLogId), u))
  {
  }

  /** A successful update keeps ids within the counter, keeps them unique
      and issued, moves the greatest clock reading to `now` if later, and
      keeps createdAt <= updatedAt when the clock has not gone back. */
  lemma UpdateKeepsInvariant(st: Store, id: string, fields: Patch, now: nat, t: nat)
    requires Update(st, id, fields, now).Ok?
    ensures var st' := Update(st, id, fields, now).value.0;
            (IdsInRange(st) ==> IdsInRange(st')) &&
            (IdsValid(st) ==> IdsValid(st')) &&
            (NotAfter(st.logs, t) ==> NotAfter(st'.logs, Max(t, now))) &&
            (Chronological(st.logs) && NotAfter(st.logs, t) && t <= now ==> Chronological(st'.logs))
  {
    var i := FindIndex(st.logs, id);
    var u := Patched(st.logs[i], fields, now);
    assert Update(st, id, fields, now).value.0 == Store(st.logs[i := u], st.nextLogId);
    ReplaceAtKeepsInvariant(st.logs, i, u, st.nextLogId, now, t);
  }

  /** Sending the same update twice at the same clock reading leaves the
      store as one update does. */
  lemma UpdateIdempotent(st: Store, id: string, fields: Patch, now: nat)
    requires Update(st, id, fields, now).Ok?
    ensures var (st', r) := Update(st, id, fields, now).value;
            Update(st', id, fields, now) == Ok((st', r))
  {
    var i := FindIndex(st.logs, id);
    var (st', r) := Update(st, id, fields, now).value;
    assert st'.logs == st.logs[i := r];
    assert IdText(st'.logs[i]) == id;
    assert FindIndex(st'.logs, id) == i;
    assert Patched(r, fields, now) == r;
    assert st'.logs[i := r] == st'.logs;
  }

  /** The store accepts a supplied empty string as a field's new value. */
  lemma UpdateAcceptsEmpty(st: Store, id: string, now: nat, i: nat)
    requires i < |st.logs| && IdText(st.logs[i]) == id
    ensures Update(st, id, Patch(Some(""), Some("")), now).Ok?
    ensures Update(st, id, Patch(Some(""), Some("")), now).value.1.owner == ""
    ensures Update(st, id, Patch(Some(""), Some("")), now).value.1.logText == ""
  {
    var j := FindIndex(st.logs, id);
    assert j != -1;
    UpdateKnown(st, id, Patch(Some(""), Some("")), now, j);
  }

  // ---------------------------------------------------------------------
  // deleteLogById
  // ---------------------------------------------------------------------

  /** A delete fails with "Log not found for deletion" exactly when no
      record holds the id. */
  lemma DeleteFailsIffUnknown(st: Store, id: string)
    ensures Delete(st, id).Err? <==> forall k :: 0 <= k < |st.logs| ==> IdText(st.logs[k]) != id
    ensures Delete(st, id).Err? ==> Message(Delete(st, id).error) == "Log not found for deletion"
  {
  }

  /** A successful delete removes exactly the records with the id and
      keeps the others in their order; under unique ids that is the one
      record at position i. */
  lemma DeleteKnown(st: Store, id: string, i: nat)
    requires IdsUnique(st.logs)
    requires i < |st.logs| && IdText(st.logs[i]) == id
    ensures Delete(st, id) == Ok(Store(st.logs[..i] + st.logs[i + 1..], st.nextLogId))
  {
    WithoutIdSingle(st.logs, id, i);
  }

  /** Deleting the same id a second time fails. */
  lemma DeleteTwiceFails(st: Store, id: string)
    requires Delete(st, id).Ok?
    ensures Delete(Delete(st, id).value, id) == Err(LogNotFoundForDeletion)
  {
  }

  /** A successful delete keeps every invariant of the records left. */
  lemma DeleteKeepsInvariant(st: Store, id: string, t: nat)
    requires Delete(st, id).Ok?
    ensures var st' := Delete(st, id).value;
            (IdsInRange(st) ==> IdsInRange(st')) &&
            (IdsValid(st) ==> IdsValid(st')) &&
            (NotAfter(st.logs, t) ==> NotAfter(st'.logs, t)) &&
            (Chronological(st.logs) ==> Chronological(st'.logs))
  {
    var kept := WithoutId(st.logs, id);
    assert forall k :: 0 <= k < |kept| ==> kept[k] in st.logs;
    if IdsValid(st) {
      var i := FindIndex(st.logs, id);
      DeleteKnown(st, id, i);
      RemoveAtKeepsInvariant(st.logs, i, st.nextLogId, t);
    }
  }

  /** Taking out the record at position i keeps every per-record and
      pairwise invariant of the rest. */
  lemma RemoveAtKeepsInvariant(logs: seq<LogRecord>, i: nat, nextLogId: nat, t: nat)
    requires i < |logs|
    requires IdsIssued(logs, nextLogId) && IdsUnique(logs)
    ensures var rest := logs[..i] + logs[i + 1..];
            IdsIssued(rest, nextLogId) && IdsUnique(rest) &&
            (NotAfter(logs, t) ==> NotAfter(rest, t)) &&
            (Chronological(logs) ==> Chronological(rest))
  {
  }

  /** Putting at position i a record with the same id and createdAt, last
      updated at now, keeps every per-record and pairwise invariant. */
  lemma ReplaceAtKeepsInvariant(logs: seq<LogRecord>, i: nat, u: LogRecord, nextLogId: nat, now: nat, t: nat)
    requires i < |logs| && u.id == logs[i].id && u.createdAt == logs[i].createdAt && u.updatedAt == now
    ensures var logs' := logs[i := u];
            (IdsInRange(Store(logs, nextLogId)) ==> IdsInRange(Store(logs', nextLogId))) &&
            (IdsIssued(logs, nextLogId) ==> IdsIssued(logs', nextLogId)) &&
            (IdsUnique(logs) ==> IdsUnique(logs')) &&
            (NotAfter(logs, t) ==> NotAfter(logs', Max(t, now))) &&
            (Chronological(logs) && NotAfter(logs, t) && t <= now ==> Chronological(logs'))
  {
    var logs' := logs[i := u];
    if IdsUnique(logs) {
      forall a, b | 0 <= a < b < |logs'| ensures logs'[a].id != logs'[b].id {
        assert logs[a].id != logs[b].id;
      }
    }
  }
}
