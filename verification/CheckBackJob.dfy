/**
 The transaction table and the code that works on it, in imperative form, under interference:
 every execution of one iteration of the check-back job, and of Prepare, Commit and Cancel, is a
 run of `TxDecision`.
 */
module CheckBackJob {
  import opened Domain
  import opened GoInt
  import opened Retry
  import opened Wrappers
  import opened TxDecision

  /** What `UpdateStatus` reports. */
  datatype UpdateResult = Updated | NothingUpdated | DatabaseError

  predicate ByJob(e: Event, job: nat) {
    match e
    case JobReads(j, _, _) => j == job
    case JobChecks(j, _, _, _, _, _) => j == job
    case JobWrites(j, _) => j == job
    case JobAborts(j) => j == job
    case _ => false
  }

  /** The events of one job. */
  ghost function Own(events: seq<Event>, job: nat): seq<Event>
    decreases |events|
  {
    if events == [] then []
    else
      var last := events[|events| - 1];
      Own(events[..|events| - 1], job) + if ByJob(last, job) then [last] else []
  }

  /** What one iteration of a job does, and whether it reports success: the read fails; or nothing is
      due; or the configurations cannot be had; or the whole batch is checked and all three lists are
      written, where one that fails does not keep the next from being written. */
  predicate Iteration(job: nat, steps: seq<Event>, ok: bool) {
    || (steps == [] && !ok)
    || (|steps| == 1 && steps[0].JobReads? && steps[0].batch == [] && ok)
    || (|steps| == 2 && steps[0].JobReads? && steps[1] == JobAborts(job) && !ok)
    || (|steps| == 5 && steps[0].JobReads? && steps[1].JobChecks? && Writes(job, steps[2..], ok))
  }

  predicate Writes(job: nat, steps: seq<Event>, ok: bool) {
    && |steps| == 3 && (forall e <- steps :: e.JobWrites? && e.job == job)
    && (ok <==> forall e <- steps :: e.JobWrites? && !e.fault)
  }

  class TxNotificationTable {
    var rows: map<Key, TxRow>
    const config: Key -> Option<TxnConfig>
    ghost const jobs: nat
    ghost const me: nat
    ghost var trace: seq<Event>

    ghost function System(): State reads this {
      Run(Initial(config, jobs), trace)
    }

    ghost predicate Valid() reads this {
      me < |System().jobs| && System().rows == rows && System().config == config
    }

    ghost function Mine(): Job reads this requires Valid() {
      System().jobs[me]
    }

    ghost function Steps(): seq<Event> reads this { Own(trace, me) }

    constructor (config: Key -> Option<TxnConfig>, ghost jobs: nat, ghost me: nat)
      requires me < jobs
      ensures Valid() && rows == map[] && Mine() == Idle && trace == []
      ensures this.config == config && this.jobs == jobs && this.me == me
    {
      this.config, this.jobs, this.me, rows, trace := config, jobs, me, map[], [];
    }

    /** Users, inserts and other jobs act; this job's own state is its own. */
    method Interference()
      requires Valid()
      modifies this
      ensures Valid() && Mine() == old(Mine()) && old(trace) <= trace && Steps() == old(Steps())
    {
    }

    ghost method Record(e: Event)
      modifies this`trace
      ensures trace == old(trace) + [e] && System() == Next(old(System()), e)
      ensures Steps() == old(Steps()) + if ByJob(e, me) then [e] else []
    {
      trace := trace + [e];
      assert trace[..|trace| - 1] == old(trace);
    }

    /** `INSERT ... ON CONFLICT DO NOTHING`: an existing row is left alone, and that is no error. */
    method Prepare(key: Key, count: int, next: int) returns (ok: bool)
      requires Valid()
      modifies this
      ensures Valid() && Mine() == old(Mine())
      ensures !ok ==> rows == old(rows) && trace == old(trace)
      ensures ok ==> trace == old(trace) + [Prepares(key, count, next)]
      ensures ok ==> rows == if key in old(rows) then old(rows) else old(rows)[key := TxRow(TxStatus.Prepare, count, next)]
    {
      var fault: bool := *;
      if fault { return false; }
      Record(Prepares(key, count, next));
      if key !in rows {
        rows := rows[key := TxRow(TxStatus.Prepare, count, next)];
      }
      return true;
    }

    /** `UPDATE ... WHERE status = 'PREPARE'`; no affected row is an error.  A success is the one
        event of the whole run that decides the row. */
    method UpdateStatus(key: Key, commit: bool) returns (result: UpdateResult)
      requires Valid()
      modifies this
      ensures Valid() && Mine() == old(Mine())
      ensures result == DatabaseError || (result == Updated <==> key in old(rows) && old(rows)[key].status == TxStatus.Prepare)
      ensures result == DatabaseError ==> trace == old(trace)
      ensures result != DatabaseError ==> trace == old(trace) + [UserDecides(key, commit)]
      ensures result != Updated ==> rows == old(rows)
      ensures result == Updated ==> rows == old(rows)[key := old(rows)[key].(status := if commit then Commit else Cancel)]
      ensures result == Updated ==> UserWins(old(System()), UserDecides(key, commit), key)
    {
      var fault: bool := *;
      if fault { return DatabaseError; }
      Record(UserDecides(key, commit));
      if !Undecided(rows, key) { return NothingUpdated; }
      rows := rows[key := rows[key].(status := if commit then Commit else Cancel)];
      return Updated;
    }

    /** The due rows with the earliest check times, in that order and at most `limit` of them, each as
        it is now. */
    method FindCheckBack(now: int, limit: nat) returns (batch: seq<Item>)
      requires Valid() && Mine() == Idle
      modifies this`trace
      ensures Valid() && trace == old(trace) + [JobReads(me, batch, now)]
      ensures Steps() == old(Steps()) + [JobReads(me, batch, now)]
      ensures Readable(rows, batch, now) && |batch| <= limit
      ensures Mine() == if batch == [] then Idle else Read(batch)
      ensures EarliestFirst(rows, batch, now, limit)
    {
      hide Run, Own;
      batch := SelectDue(rows, now, limit);
      Record(JobReads(me, batch, now));
    }

    /** The checks change no row; they turn the batch into the three lists. */
    ghost method Check(batch: seq<Item>, retry: seq<Item>, fail: seq<Item>, commits: seq<Item>, replies: seq<Reply>, times: seq<int>)
      requires Valid() && Mine() == Read(batch) && |replies| == |times| == |batch|
      requires Partitions(Outcomes(config, batch, replies, times), retry, fail, commits)
      modifies this`trace
      ensures Valid() && |trace| == |old(trace)| + 1 && old(trace) <= trace
      ensures Mine() == Writing([retry, fail, commits])
      ensures Steps() == old(Steps()) + [JobChecks(me, replies, times, retry, fail, commits)]
    {
      hide Run, Own, Partitions, Outcomes, Bump, Asked;
      Record(JobChecks(me, replies, times, retry, fail, commits));
    }

    /** The iteration ends early with an error. */
    ghost method CutOff()
      requires Valid()
      modifies this`trace
      ensures Valid() && |trace| == |old(trace)| + 1 && old(trace) <= trace && Mine() == Idle
      ensures Steps() == old(Steps()) + [JobAborts(me)]
    {
      hide Run, Own, Flatten, Bump, Asked;
      Record(JobAborts(me));
    }

    /** One transaction of guarded updates, all or nothing. */
    method UpdateCheckStatus(items: seq<Item>, ghost rest: seq<seq<Item>>) returns (ok: bool)
      requires Valid() && Mine().Writing? && Mine().lists != [] && Mine().lists[0] == items && Mine().lists[1..] == rest
      modifies this
      ensures Valid() && |trace| == |old(trace)| + 1 && old(trace) <= trace
      ensures Mine() == if rest == [] then Idle else Writing(rest)
      ensures rows == if ok then WriteChecks(old(rows), items) else old(rows)
      ensures Steps() == old(Steps()) + [JobWrites(me, !ok)] && (items == [] ==> ok)
    {
      hide Run, Own, Bump, Asked;
      var fault := false;
      if |items| > 0 { fault := *; }
      Record(JobWrites(me, fault));
      if fault { return false; }
      var i := 0;
      var updated := rows;
      while i < |items|
        invariant 0 <= i <= |items| && updated == WriteChecks(rows, items[..i])
      {
        assert items[..i + 1][..i] == items[..i];
        if Undecided(updated, items[i].key) {
          updated := updated[items[i].key := items[i].row];
        }
        i := i + 1;
      }
      assert items[..i] == items;
      rows := updated;
      return true;
    }
  }

  /** Ordered by check time; a due row is left out only if the batch is full of rows not later. */
  ghost predicate EarliestFirst(rows: map<Key, TxRow>, batch: seq<Item>, now: int, limit: nat) {
    && (forall i, j | 0 <= i < j < |batch| :: batch[i].row.nextCheckTime <= batch[j].row.nextCheckTime)
    && (forall k | k in rows && Due(rows[k], now) && k !in Keys(batch) ::
          |batch| == limit && forall item <- batch :: item.row.nextCheckTime <= rows[k].nextCheckTime)
  }

  /** A batch under construction: `todo` are the due rows not yet taken, none earlier than those taken. */
  ghost predicate Selecting(rows: map<Key, TxRow>, batch: seq<Item>, todo: set<Key>, now: int) {
    && Readable(rows, batch, now)
    && (forall k | k in todo :: k in rows && Due(rows[k], now) && k !in Keys(batch))
    && (forall k | k in rows && Due(rows[k], now) :: k in todo || k in Keys(batch))
    && (forall i, j | 0 <= i < j < |batch| :: batch[i].row.nextCheckTime <= batch[j].row.nextCheckTime)
    && (forall k, item | k in todo && item in batch :: item.row.nextCheckTime <= rows[k].nextCheckTime)
  }

  ghost predicate IsEarliest(rows: map<Key, TxRow>, todo: set<Key>, key: Key) {
    key in todo && key in rows && forall k | k in todo && k in rows :: rows[key].nextCheckTime <= rows[k].nextCheckTime
  }

  lemma SelectStep(rows: map<Key, TxRow>, batch: seq<Item>, todo: set<Key>, now: int, key: Key)
    requires Selecting(rows, batch, todo, now) && IsEarliest(rows, todo, key)
    ensures Selecting(rows, batch + [Item(key, rows[key])], todo - {key}, now)
  {
    hide Readable, Due, Keys;
    var grown := batch + [Item(key, rows[key])];
    ReadableStep(rows, batch, now, key);
    KeysAppend(batch, Item(key, rows[key]));
    assert forall i | 0 <= i < |batch| :: grown[i] == batch[i] && batch[i] in batch;
    assert forall item | item in grown :: item in batch || item == Item(key, rows[key]);
  }

  lemma KeysAppend(batch: seq<Item>, item: Item)
    ensures Keys(batch + [item]) == Keys(batch) + {item.key}
  {
    var grown := batch + [item];
    assert grown[|batch|].key == item.key;
    assert forall i | 0 <= i < |batch| :: grown[i] == batch[i];
  }

  lemma ReadableStep(rows: map<Key, TxRow>, batch: seq<Item>, now: int, key: Key)
    requires Readable(rows, batch, now) && key in rows && Due(rows[key], now) && key !in Keys(batch)
    ensures Readable(rows, batch + [Item(key, rows[key])], now)
  {
    assert forall i | 0 <= i < |batch| :: batch[i].key in Keys(batch);
  }

  method Earliest(rows: map<Key, TxRow>, todo: set<Key>) returns (key: Key)
    requires todo != {} && todo <= rows.Keys
    ensures IsEarliest(rows, todo, key)
  {
    key :| key in todo;
    var rest := todo - {key};
    while rest != {}
      invariant rest <= todo && key in todo
      invariant forall k | k in todo && k !in rest :: rows[key].nextCheckTime <= rows[k].nextCheckTime
      decreases rest
    {
      var k :| k in rest;
      rest := rest - {k};
      if rows[k].nextCheckTime < rows[key].nextCheckTime { key := k; }
    }
  }

  method SelectDue(rows: map<Key, TxRow>, now: int, limit: nat) returns (batch: seq<Item>)
    ensures Readable(rows, batch, now) && |batch| <= limit && EarliestFirst(rows, batch, now, limit)
  {
    batch := [];
    var todo := set k | k in rows && Due(rows[k], now);
    while todo != {} && |batch| < limit
      invariant Selecting(rows, batch, todo, now) && |batch| <= limit
      decreases todo
    {
      var key := Earliest(rows, todo);
      SelectStep(rows, batch, todo, now, key);
      batch, todo := batch + [Item(key, rows[key])], todo - {key};
    }
  }

  /** `oneBackCheck`: ask, count, and decide the row's next time and status, field by field. */
  method OneBackCheck(config: Option<TxnConfig>, row: TxRow) returns (checked: TxRow, reply: Reply, now: int)
    ensures checked == Checked(config, row, reply, now)
    ensures config.None? ==> checked == row.(nextCheckTime := 0, status := Fail)
    ensures config.Some? && reply == Committed ==> checked == TxRow(Commit, row.checkCount + 1, 0)
    ensures config.Some? && reply == Canceled ==> checked == TxRow(Cancel, row.checkCount + 1, 0)
    ensures config.Some? && reply == Other ==> checked == row.(checkCount := row.checkCount + 1)
    ensures config.Some? && reply in {Unknown, CallFailed} && Exhausted(config.value, row.checkCount + 1)
            ==> checked == TxRow(Fail, row.checkCount + 1, 0)
    ensures config.Some? && reply in {Unknown, CallFailed} && !Exhausted(config.value, row.checkCount + 1)
            ==> var interval := NextInterval(config.value.policy.value, Wrap32(row.checkCount + 1)).value;
                && checked == row.(checkCount := row.checkCount + 1, nextCheckTime := checked.nextCheckTime)
                && 0 <= now + interval - 1_000_000 * checked.nextCheckTime < 1_000_000
  {
    reply, now := *, *;
    checked := row;
    if config.None? {
      checked := checked.(nextCheckTime := 0);
      checked := checked.(status := Fail);
      return;
    }
    checked := checked.(checkCount := checked.checkCount + 1);
    if reply == CallFailed || reply == Unknown {
      var next := if config.value.policy.None? then None else NextInterval(config.value.policy.value, Wrap32(checked.checkCount));
      if next.Some? {
        checked := checked.(nextCheckTime := MilliAfter(now, next.value));
      } else {
        checked := checked.(nextCheckTime := 0, status := Fail);
      }
      return;
    }
    match reply {
      case Canceled => checked := checked.(nextCheckTime := 0, status := Cancel);
      case Committed => checked := checked.(nextCheckTime := 0, status := Commit);
      case _ =>
    }
  }

  /** The checks of `oneLoop`: every checked row is appended to exactly one of the three lists.  The
      code checks the rows concurrently; the lists are compared as multisets, so every order of the
      appends meets the same contract. */
  method CheckBatch(config: Key -> Option<TxnConfig>, batch: seq<Item>)
    returns (retry: seq<Item>, fail: seq<Item>, commits: seq<Item>, replies: seq<Reply>, times: seq<int>)
    requires forall item <- batch :: item.row.status == TxStatus.Prepare
    ensures |replies| == |times| == |batch|
    ensures Partitions(Outcomes(config, batch, replies, times), retry, fail, commits)
  {
    hide Checked, Outcomes;
    retry, fail, commits, replies, times := [], [], [], [], [];
    OutcomesOfNone(config);
    for i := 0 to |batch|
      invariant |replies| == |times| == i
      invariant Partitions(Outcomes(config, batch[..i], replies, times), retry, fail, commits)
    {
      assert batch[i] in batch;
      var row, reply, now := OneBackCheck(config(batch[i].key), batch[i].row);
      var item := Item(batch[i].key, row);
      OutcomesAppend(config, batch, i, replies, times, reply, now);
      replies, times := replies + [reply], times + [now];
      match row.status {
        case Prepare => retry := retry + [item];
        case Commit => commits := commits + [item];
        case _ => fail := fail + [item];
      }
    }
    assert batch[..|batch|] == batch;
  }

  lemma OutcomesOfNone(config: Key -> Option<TxnConfig>)
    ensures Outcomes(config, [], [], []) == []
  {
  }

  lemma OutcomesAppend(config: Key -> Option<TxnConfig>, batch: seq<Item>, i: nat, replies: seq<Reply>, times: seq<int>, reply: Reply, now: int)
    requires |replies| == |times| == i < |batch|
    ensures Outcomes(config, batch[..i + 1], replies + [reply], times + [now])
         == Outcomes(config, batch[..i], replies, times) + [Item(batch[i].key, Checked(config(batch[i].key), batch[i].row, reply, now))]
  {
  }

  /** `oneLoop`: read a batch, check every row of it, write the three lists in turn.  Whatever others
      do in between, the job takes exactly the steps of one iteration and is idle again. */
  method OneLoop(table: TxNotificationTable, now: int, limit: nat) returns (ok: bool, ghost steps: seq<Event>)
    requires table.Valid() && table.Mine() == Idle
    modifies table
    ensures table.Valid() && table.Mine() == Idle && old(table.trace) <= table.trace
    ensures table.Steps() == old(table.Steps()) + steps && Iteration(table.me, steps, ok)
  {
    hide Run, Next, Own, Outcomes, Partitions, Writes;
    var readFault: bool := *;
    if readFault { return false, []; }
    var batch := table.FindCheckBack(now, limit);
    if batch == [] { return true, [JobReads(table.me, batch, now)]; }
    var configFault: bool := *;
    table.Interference();
    if configFault {
      table.CutOff();
      return false, [JobReads(table.me, batch, now), JobAborts(table.me)];
    }
    var retry, fail, commits, replies, times := CheckBatch(table.config, batch);
    table.Check(batch, retry, fail, commits, replies, times);
    ghost var writes;
    ok, writes := WriteLists(table, retry, fail, commits);
    steps := [JobReads(table.me, batch, now), JobChecks(table.me, replies, times, retry, fail, commits)] + writes;
    assert steps[2..] == writes;
    assert table.Steps() == old(table.Steps()) + [steps[0]] + [steps[1]] + writes;
  }

  method WriteLists(table: TxNotificationTable, retry: seq<Item>, fail: seq<Item>, commits: seq<Item>)
    returns (ok: bool, ghost steps: seq<Event>)
    requires table.Valid() && table.Mine() == Writing([retry, fail, commits])
    modifies table
    ensures table.Valid() && table.Mine() == Idle && old(table.trace) <= table.trace
    ensures table.Steps() == old(table.Steps()) + steps && |steps| == 3 && Writes(table.me, steps, ok)
  {
    hide Run, Next, Own, WriteChecks;
    table.Interference();
    ok := table.UpdateCheckStatus(retry, [fail, commits]);
    table.Interference();
    var okFail := table.UpdateCheckStatus(fail, [commits]);
    table.Interference();
    var okCommit := table.UpdateCheckStatus(commits, []);
    steps := [JobWrites(table.me, !ok), JobWrites(table.me, !okFail), JobWrites(table.me, !okCommit)];
    ok := ok && okFail && okCommit;
  }
}
