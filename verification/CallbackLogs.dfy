/**
 Callback logs: what one answer of the business service does to a log, and what any history of
 saved answers adds up to.
 */
module CallbackLogs {
  import opened GoInt
  import opened Retry
  import opened Wrappers

  datatype LogStatus = Init | Pending | Succeeded | Failed

  datatype Log = Log(status: LogStatus, retryCount: int, nextRetryTime: int)

  /** The business service's answer: success, a refusal to be retried, or no response at all. */
  datatype Reply = Accepted | Refused | NoResponse

  datatype Attempt = Attempt(id: nat, reply: Reply, now: int)

  type Table = map<nat, Log>

  /** The policy of the business each log belongs to. */
  type Policies = nat -> Policy

  /** `sendCallbackAndSetChangedFields`. */
  function Answered(policy: Policy, log: Log, reply: Reply, now: int): Log {
    match reply
    case Accepted => log.(status := Succeeded)
    case Refused =>
      var next := NextInterval(policy, Wrap32(log.retryCount));
      if next.Some? then log.(nextRetryTime := MilliAfter(now, next.value), retryCount := log.retryCount + 1)
      else log.(status := Failed)
    case NoResponse => log
  }

  /** Selected by the query: status PENDING and next_retry_time <= startTime. */
  predicate IsReady(log: Log, startTime: int) {
    log.status == Pending && log.nextRetryTime <= startTime
  }

  function Ready(table: Table, startTime: int): set<nat> {
    set id | id in table && IsReady(table[id], startTime)
  }

  function ReadyAfter(table: Table, startTime: int, cursor: nat): set<nat> {
    set id | id in table && IsReady(table[id], startTime) && id > cursor
  }

  function Step(policies: Policies, table: Table, a: Attempt): Table {
    if a.id in table then table[a.id := Answered(policies(a.id), table[a.id], a.reply, a.now)] else table
  }

  function Replay(policies: Policies, table: Table, attempts: seq<Attempt>): Table
    decreases |attempts|
  {
    if attempts == [] then table
    else Step(policies, Replay(policies, table, attempts[..|attempts| - 1]), attempts[|attempts| - 1])
  }

  /** Every attempt is on a log that is PENDING when its turn comes. */
  predicate Selected(policies: Policies, table: Table, attempts: seq<Attempt>)
    decreases |attempts|
  {
    attempts == [] ||
    var front, last := attempts[..|attempts| - 1], attempts[|attempts| - 1];
    && Selected(policies, table, front)
    && last.id in Replay(policies, table, front) && Replay(policies, table, front)[last.id].status == Pending
  }

  lemma {:induction false} ReplayKeys(policies: Policies, table: Table, attempts: seq<Attempt>)
    ensures Replay(policies, table, attempts).Keys == table.Keys
    decreases |attempts|
  {
    if attempts != [] { ReplayKeys(policies, table, attempts[..|attempts| - 1]); }
  }

  lemma {:induction false} ReplayConcat(policies: Policies, table: Table, a: seq<Attempt>, b: seq<Attempt>)
    ensures Replay(policies, table, a + b) == Replay(policies, Replay(policies, table, a), b)
    decreases |b|
  {
    if b == [] {
      assert a + b == a;
    } else {
      assert (a + b)[..|a + b| - 1] == a + b[..|b| - 1];
      ReplayConcat(policies, table, a, b[..|b| - 1]);
    }
  }

  // ----- a log over any history -----

  function Refusals(attempts: seq<Attempt>, id: nat): nat
    decreases |attempts|
  {
    if attempts == [] then 0
    else Refusals(attempts[..|attempts| - 1], id)
         + if attempts[|attempts| - 1].id == id && attempts[|attempts| - 1].reply == Refused then 1 else 0
  }

  /** Over any number of passes a log that starts PENDING with no retries has, at every moment, a
      retry count equal to its refusals as long as it is PENDING, at most MaxRetries + 1; the
      (MaxRetries + 2)-nd refusal is the one that makes it FAILED. */
  lemma {:induction false} RetryBudget(policies: Policies, table: Table, attempts: seq<Attempt>, id: nat)
    requires id in table && table[id].status == Pending && table[id].retryCount == 0
    requires !policies(id).Unsupported? && 0 < MaxRetries(policies(id)) < TWO_31 - 1
    requires Selected(policies, table, attempts)
    ensures id in Replay(policies, table, attempts)
    ensures var log, limit := Replay(policies, table, attempts)[id], MaxRetries(policies(id));
            && log.retryCount <= limit + 1
            && match log.status
               case Pending => Refusals(attempts, id) == log.retryCount
               case Succeeded => Refusals(attempts, id) == log.retryCount
               case Failed => Refusals(attempts, id) == limit + 2 && log.retryCount == limit + 1
               case Init => false
    decreases |attempts|
  {
    if attempts != [] {
      var front := attempts[..|attempts| - 1];
      RetryBudget(policies, table, front, id);
      ReplayKeys(policies, table, front);
    }
  }

  /** A log that is SUCCEEDED or FAILED is never attempted again and never changes again. */
  lemma {:induction false} TerminalIsFinal(policies: Policies, table: Table, attempts: seq<Attempt>, k: nat, id: nat)
    requires Selected(policies, table, attempts) && k <= |attempts| && id in table
    requires id in Replay(policies, table, attempts[..k]) && Replay(policies, table, attempts[..k])[id].status != Pending
    ensures forall i | k <= i < |attempts| :: attempts[i].id != id
    ensures id in Replay(policies, table, attempts)
    ensures Replay(policies, table, attempts)[id] == Replay(policies, table, attempts[..k])[id]
    decreases |attempts|
  {
    if k == |attempts| {
      assert attempts[..k] == attempts;
    } else {
      var front := attempts[..|attempts| - 1];
      assert front[..k] == attempts[..k];
      TerminalIsFinal(policies, table, front, k, id);
      ReplayKeys(policies, table, front);
    }
  }

  /** With no limit on retries, or one that every int32 meets, a log can be refused any number of times and stays PENDING. */
  lemma {:induction false} RefusedForEver(policies: Policies, table: Table, attempts: seq<Attempt>, id: nat)
    requires id in table && table[id].status == Pending
    requires !policies(id).Unsupported? && (MaxRetries(policies(id)) <= 0 || MaxRetries(policies(id)) == TWO_31 - 1)
    requires forall i | 0 <= i < |attempts| :: attempts[i].id == id && attempts[i].reply == Refused
    ensures id in Replay(policies, table, attempts) && Replay(policies, table, attempts)[id].status == Pending
    ensures Refusals(attempts, id) == |attempts|
    decreases |attempts|
  {
    if attempts != [] { RefusedForEver(policies, table, attempts[..|attempts| - 1], id); }
  }

  /** When a refused log is tried again: it stays PENDING exactly while the policy gives an interval, and
      it is then ready for a pass exactly if the interval ends before the millisecond of its start time
      does. */
  lemma RefusedIsReadyAgain(policy: Policy, log: Log, now: int, startTime: int)
    requires log.status == Pending
    ensures var next, after := NextInterval(policy, Wrap32(log.retryCount)), Answered(policy, log, Refused, now);
            && (next.None? ==> after == log.(status := Failed) && !IsReady(after, startTime))
            && (next.Some? ==> after.status == Pending && after.retryCount == log.retryCount + 1
                               && (IsReady(after, startTime) <==> now + next.value < 1_000_000 * (startTime + 1)))
  {
  }

  /** One answered attempt takes a log out of the ready set; one without a response changes nothing. */
  lemma AnswerLeavesReady(policy: Policy, log: Log, reply: Reply, now: int, startTime: int)
    requires IsReady(log, startTime) && Waits(policy) && startTime <= now / MILLISECOND
    ensures IsReady(Answered(policy, log, reply, now), startTime) <==> reply == NoResponse
  {
  }
}
