/** Runs of store operations one after another, and what holds after any
    such run: ids stay in range, an id below the counter is never issued
    again, ids stay unique while the counter is below 2^53, and with a clock
    that does not go back every record has createdAt <= updatedAt. */
module LogTrace {
  import opened Outcomes
  import opened LogIds
  import opened LogModel
  import opened LogLaws

  /** One call into the store. */
  datatype Op =
    | AddOp(owner: string, logText: string, now: nat)
    | UpdateOp(id: string, fields: Patch, now: nat)
    | DeleteOp(id: string)
    | GetOp(page: int, limit: int)

  /** The store after one call; a call that throws leaves it as it was. */
  function Step(st: Store, op: Op): Store
  {
    match op
    case AddOp(owner, logText, now) => Add(st, owner, logText, now).0
    case UpdateOp(id, fields, now) =>
      (match Update(st, id, fields, now)
       case Ok(v) => v.0
       case Err(_) => st)
    case DeleteOp(id) =>
      (match Delete(st, id)
       case Ok(st') => st'
       case Err(_) => st)
    case GetOp(_, _) => st
  }

  function Run(st: Store, ops: seq<Op>): Store
    decreases |ops|
  {
    if ops == [] then st else Run(Step(st, ops[0]), ops[1..])
  }

  /** The clock reading after the call, given the reading t before it.
      Only a create and a successful update read the clock. */
  function Clock(st: Store, op: Op, t: nat): nat
  {
    match op
    case AddOp(_, _, now) => now
    case UpdateOp(id, fields, now) => if Update(st, id, fields, now).Ok? then now else t
    case _ => t
  }

  /** The clock readings taken during the run, starting after t, never go back. */
  predicate ClockNonDecreasing(st: Store, t: nat, ops: seq<Op>)
    decreases |ops|
  {
    ops == [] ||
    (t <= Clock(st, ops[0], t) && ClockNonDecreasing(Step(st, ops[0]), Clock(st, ops[0], t), ops[1..]))
  }

  /** The number of creates in a run. */
  function Adds(ops: seq<Op>): nat
    decreases |ops|
  {
    if ops == [] then 0 else (if ops[0].AddOp? then 1 else 0) + Adds(ops[1..])
  }

  lemma StepKeepsInvariant(st: Store, op: Op, t: nat)
    ensures IdsInRange(st) ==> IdsInRange(Step(st, op))
    ensures IdsValid(st) && (op.AddOp? ==> st.nextLogId < CounterLimit) ==> IdsValid(Step(st, op))
    ensures NotAfter(st.logs, t) ==> NotAfter(Step(st, op).logs, Max(t, Clock(st, op, t)))
    ensures Chronological(st.logs) && NotAfter(st.logs, t) && t <= Clock(st, op, t) ==>
              Chronological(Step(st, op).logs)
  {
    match op
    case AddOp(owner, logText, now) => AddKeepsInvariant(st, owner, logText, now, t);
    case UpdateOp(id, fields, now) =>
      if Update(st, id, fields, now).Ok? {
        UpdateKeepsInvariant(st, id, fields, now, t);
      }
    case DeleteOp(id) =>
      if Delete(st, id).Ok? {
        DeleteKeepsInvariant(st, id, t);
      }
    case GetOp(_, _) =>
  }

  /** After any run, the counter is within 2^53 and no id exceeds it. */
  lemma {:induction false} RunKeepsInRange(st: Store, ops: seq<Op>)
    requires IdsInRange(st)
    ensures IdsInRange(Run(st, ops))
    decreases |ops|
  {
    if ops != [] {
      StepKeepsInvariant(st, ops[0], 0);
      RunKeepsInRange(Step(st, ops[0]), ops[1..]);
    }
  }

  /** After any run whose creates do not push the counter past 2^53, ids
      are unique and below the counter. */
  lemma {:induction false} RunKeepsIds(st: Store, ops: seq<Op>)
    requires IdsValid(st)
    requires st.nextLogId + Adds(ops) <= CounterLimit
    ensures IdsValid(Run(st, ops))
    decreases |ops|
  {
    if ops != [] {
      StepKeepsInvariant(st, ops[0], 0);
      var st' := Step(st, ops[0]);
      assert st'.nextLogId + Adds(ops[1..]) <= CounterLimit;
      RunKeepsIds(st', ops[1..]);
    }
  }

  /** After any run whose clock does not go back, every record was last
      updated no earlier than it was created. */
  lemma {:induction false} RunKeepsChronological(st: Store, ops: seq<Op>, t: nat)
    requires Chronological(st.logs) && NotAfter(st.logs, t)
    requires ClockNonDecreasing(st, t, ops)
    ensures Chronological(Run(st, ops).logs)
    decreases |ops|
  {
    if ops != [] {
      var t' := Clock(st, ops[0], t);
      StepKeepsInvariant(st, ops[0], t);
      assert Max(t, t') == t';
      RunKeepsChronological(Step(st, ops[0]), ops[1..], t');
    }
  }

  /** The counter never goes back. */
  lemma {:induction false} RunCounterGrows(st: Store, ops: seq<Op>)
    ensures st.nextLogId <= Run(st, ops).nextLogId
    decreases |ops|
  {
    if ops != [] {
      var st' := Step(st, ops[0]);
      assert st.nextLogId <= st'.nextLogId;
      RunCounterGrows(st', ops[1..]);
    }
  }

  /** An id held now that is below the counter, whether or not it is
      deleted later, is never handed out again by any later create. Once
      the counter saturates at 2^53 the id 2^53 itself can repeat. */
  lemma IdsNeverReissued(st: Store, ops: seq<Op>, k: nat, owner: string, logText: string, now: nat)
    requires IdsIssued(st.logs, st.nextLogId) && k < |st.logs|
    ensures var r := Add(Run(st, ops), owner, logText, now).1;
            st.logs[k].id < r.id && IdText(st.logs[k]) != IdText(r)
  {
    RunCounterGrows(st, ops);
    var r := Add(Run(st, ops), owner, logText, now).1;
    if IdText(st.logs[k]) == IdText(r) {
      RenderIdInjective(st.logs[k].id, r.id);
    }
  }

  // ---------------------------------------------------------------------
  // Scenarios
  // ---------------------------------------------------------------------

  /** create(A) then create(B): the first page shows B, then A. */
  lemma NewestFirstScenario(st: Store, a: (string, string), b: (string, string), t1: nat, t2: nat, limit: int)
    requires 2 <= limit
    ensures var (s1, ra) := Add(st, a.0, a.1, t1);
            var (s2, rb) := Add(s1, b.0, b.1, t2);
            Paginate(s2.logs, 1, limit).data[..2] == [rb, ra]
  {
  }

  /** create, then delete its id: the old records come back; updating or
      deleting that id again fails. */
  lemma StaleIdScenario(st: Store, owner: string, logText: string, now: nat, fields: Patch, later: nat)
    requires IdsValid(st)
    ensures var (s1, r) := Add(st, owner, logText, now);
            var d := Delete(s1, IdText(r));
            d == Ok(Store(st.logs, Increment(st.nextLogId))) &&
            Update(d.value, IdText(r), fields, later) == Err(LogNotFound) &&
            Delete(d.value, IdText(r)) == Err(LogNotFoundForDeletion)
  {
    var (s1, r) := Add(st, owner, logText, now);
    AddThenDelete(st, owner, logText, now);
    AddIssuesUnusedId(st, owner, logText, now);
    UpdateFailsIffUnknown(Store(st.logs, Increment(st.nextLogId)), IdText(r), fields, later);
    DeleteFailsIffUnknown(Store(st.logs, Increment(st.nextLogId)), IdText(r));
  }

  /** create owner "A" with text "x", then update only the owner to "B"
      later: the text stays, createdAt stays, updatedAt advances. */
  lemma PartialUpdateScenario(st: Store, t1: nat, t2: nat)
    requires t1 < t2
    ensures var (s1, r) := Add(st, "A", "x", t1);
            var u := Update(s1, IdText(r), Patch(Some("B"), None), t2);
            u.Ok? && u.value.1.id == r.id && u.value.1.owner == "B" && u.value.1.logText == "x" &&
            u.value.1.createdAt == r.createdAt && r.updatedAt < u.value.1.updatedAt
  {
  }
}
