/**
 Rows that block others.  A question answered with an unknown status code leaves a row due at its old
 check time, so as many of them as a batch holds are read again and again, and later rows never.
 */
module Starvation {
  import opened Domain
  import opened GoInt
  import opened Wrappers
  import opened TxDecision
  import opened CheckBound
  import opened CheckBackJob

  predicate StillDueAt(row: TxRow, time: int) { row.status == Prepare && row.nextCheckTime == time }

  predicate HeldStillDue(held: Held, time: int) {
    match held
    case Nothing => true
    case AsRead(row) => StillDueAt(row, time)
    case ToWrite(row) => StillDueAt(row, time)
    case Several => false
  }

  /** The row is undecided with that check time, and so is whatever any job holds of it. */
  predicate Stays(s: State, key: Key, time: int) {
    && key in s.rows && StillDueAt(s.rows[key], time)
    && forall j | 0 <= j < |s.jobs| :: HeldStillDue(Holds(s.jobs[j], key), time)
  }

  predicate WellRead(s: State) {
    forall j | 0 <= j < |s.jobs| && s.jobs[j].Read? :: DistinctKeys(s.jobs[j].batch)
  }

  /** No user decides the row, and every question about it is answered with an unknown code. */
  predicate LeavesOpen(s: State, e: Event, key: Key) {
    match e
    case UserDecides(k, _) => k != key
    case JobChecks(j, replies, _, _, _, _) =>
      Enabled(s, e) ==> forall i | 0 <= i < |replies| && s.jobs[j].batch[i].key == key :: replies[i] == Other
    case _ => true
  }

  lemma StaysRead(s: State, batch: seq<Item>, now: int, key: Key, time: int)
    requires Stays(s, key, time) && Readable(s.rows, batch, now)
    ensures HeldStillDue(Holds(if batch == [] then Idle else Read(batch), key), time)
  {
    ForKeys(batch, key);
    if key in Keys(batch) {
      var i :| 0 <= i < |batch| && batch[i].key == key;
      ForDistinct(batch, i);
      assert batch[i] in batch;
    }
  }

  lemma StaysChecked(s: State, e: Event, key: Key, time: int)
    requires Stays(s, key, time) && WellRead(s) && Enabled(s, e) && e.JobChecks?
    requires s.config(key).Some? && LeavesOpen(s, e, key)
    ensures HeldStillDue(Holds(Writing([e.retry, e.fail, e.commits]), key), time)
  {
    var batch := s.jobs[e.job].batch;
    var outcomes := Outcomes(s.config, batch, e.replies, e.times);
    if i :| 0 <= i < |batch| && batch[i].key == key {
      HeldKey(batch, outcomes, i, e.retry, e.fail, e.commits);
      assert HeldStillDue(Holds(s.jobs[e.job], key), time);
    } else {
      HeldOther(batch, outcomes, key, e.retry, e.fail, e.commits);
    }
  }

  lemma StaysWritten(rows: map<Key, TxRow>, lists: seq<seq<Item>>, key: Key, time: int)
    requires lists != [] && HeldStillDue(Holds(Writing(lists), key), time)
    requires key in rows && StillDueAt(rows[key], time)
    ensures HeldStillDue(Holds(if |lists| == 1 then Idle else Writing(lists[1..]), key), time)
    ensures key in WriteChecks(rows, lists[0]) && StillDueAt(WriteChecks(rows, lists[0])[key], time)
  {
    HeldPops(lists, key);
    ForConcat(lists[0], Flatten(lists[1..]), key);
    WriteChecksFor(rows, lists[0], key);
  }

  lemma WellReadStep(s: State, e: Event)
    requires WellRead(s)
    ensures WellRead(Next(s, e)) && |Next(s, e).jobs| == |s.jobs|
  {
  }

  lemma StaysStep(s: State, e: Event, key: Key, time: int)
    requires Stays(s, key, time) && WellRead(s) && s.config(key).Some? && LeavesOpen(s, e, key)
    ensures Stays(Next(s, e), key, time)
  {
    hide Holds, HeldStillDue, Readable, Partitions, Outcomes, WriteChecks, Flatten, Due, Asked, Bump;
    if Enabled(s, e) {
      match e
      case JobReads(_, batch, now) => StaysRead(s, batch, now, key, time);
      case JobChecks(_, _, _, _, _, _) => StaysChecked(s, e, key, time);
      case JobWrites(j, _) =>
        assert HeldStillDue(Holds(s.jobs[j], key), time);
        StaysWritten(s.rows, s.jobs[j].lists, key, time);
      case JobAborts(_) => IdleIsStillDue(key, time);
      case _ =>
    }
  }

  lemma IdleIsStillDue(key: Key, time: int)
    ensures HeldStillDue(Holds(Idle, key), time) && Holds(Idle, key) == Nothing
  {
  }

  // ----- the row behind them -----

  /** Every row of `times` is due at its time from `from` on and stays so; the row `key` is later than
      all of them, and no job holds it. */
  ghost predicate Blocked(s: State, times: map<Key, int>, key: Key, from: int) {
    && WellRead(s)
    && (forall b | b in times :: s.config(b).Some? && Stays(s, b, times[b]) && 0 < times[b] <= from)
    && key in s.rows && (forall b | b in times :: times[b] < s.rows[key].nextCheckTime)
    && forall j | 0 <= j < |s.jobs| :: Holds(s.jobs[j], key) == Nothing
  }

  /** Reads follow the query: from `from` on, the earliest due rows, at most `limit` of them. */
  ghost predicate ReadsEarliest(s: State, e: Event, from: int, limit: nat) {
    e.JobReads? && Enabled(s, e) ==> e.now >= from && |e.batch| <= limit && EarliestFirst(s.rows, e.batch, e.now, limit)
  }

  lemma KeysAtMost(batch: seq<Item>)
    ensures |Keys(batch)| <= |batch|
  {
    if batch != [] {
      var front, last := batch[..|batch| - 1], batch[|batch| - 1];
      KeysAtMost(front);
      KeysAppend(front, last);
      assert front + [last] == batch;
    }
  }

  /** As many blocking rows as a batch holds keep the later row out of it. */
  lemma BlockedIsNotRead(s: State, times: map<Key, int>, key: Key, from: int, batch: seq<Item>, now: int, limit: nat)
    requires Blocked(s, times, key, from) && |times| >= limit && now >= from
    requires Readable(s.rows, batch, now) && |batch| <= limit && EarliestFirst(s.rows, batch, now, limit)
    ensures key !in Keys(batch)
  {
    assert forall b | b in times :: Stays(s, b, times[b]) && s.rows[b].nextCheckTime < s.rows[key].nextCheckTime;
    assert key !in times.Keys;
    assert |times.Keys + {key}| == |times| + 1;
    KeysAtMost(batch);
    if key in Keys(batch) {
      var i :| 0 <= i < |batch| && batch[i].key == key;
      assert batch[i] in batch && batch[i].row == s.rows[key];
      forall b | b in times ensures b in Keys(batch) {
        assert Stays(s, b, times[b]) && Due(s.rows[b], now);
      }
      SubsetSize(times.Keys + {key}, Keys(batch));
    }
  }

  /** Nobody asks about a row that no job holds, and writes leave it alone. */
  lemma UnheldStep(s: State, e: Event, key: Key)
    requires key in s.rows && forall j | 0 <= j < |s.jobs| :: Holds(s.jobs[j], key) == Nothing
    requires e.JobReads? && Enabled(s, e) ==> key !in Keys(e.batch)
    ensures key in Next(s, e).rows && Next(s, e).rows[key].nextCheckTime == s.rows[key].nextCheckTime
    ensures Count(Next(s, e).checks, key) == Count(s.checks, key)
    ensures forall j | 0 <= j < |Next(s, e).jobs| :: Holds(Next(s, e).jobs[j], key) == Nothing
  {
    hide Holds, Readable, Partitions, Checked, WriteChecks, Flatten, Due;
    if Enabled(s, e) {
      match e
      case JobReads(_, batch, _) => UnheldRead(batch, key);
      case JobChecks(j, replies, times, retry, fail, commits) =>
        assert Holds(s.jobs[j], key) == Nothing;
        UnheldChecked(s.jobs[j].batch, Outcomes(s.config, s.jobs[j].batch, replies, times), key, retry, fail, commits);
      case JobWrites(j, _) =>
        assert Holds(s.jobs[j], key) == Nothing;
        UnheldWritten(s.rows, s.jobs[j].lists, key);
      case JobAborts(_) => IdleIsStillDue(key, 0);
      case _ =>
    }
  }

  lemma UnheldRead(batch: seq<Item>, key: Key)
    requires key !in Keys(batch)
    ensures Holds(if batch == [] then Idle else Read(batch), key) == Nothing
  {
    ForKeys(batch, key);
  }

  lemma UnheldChecked(batch: seq<Item>, outcomes: seq<Item>, key: Key, retry: seq<Item>, fail: seq<Item>, commits: seq<Item>)
    requires Holds(Read(batch), key) == Nothing && Partitions(outcomes, retry, fail, commits)
    requires |outcomes| == |batch| && forall i | 0 <= i < |batch| :: outcomes[i].key == batch[i].key
    ensures key !in Keys(batch) && Holds(Writing([retry, fail, commits]), key) == Nothing
  {
    ForKeys(batch, key);
    HeldOther(batch, outcomes, key, retry, fail, commits);
  }

  lemma UnheldWritten(rows: map<Key, TxRow>, lists: seq<seq<Item>>, key: Key)
    requires lists != [] && Holds(Writing(lists), key) == Nothing && key in rows
    ensures Holds(if |lists| == 1 then Idle else Writing(lists[1..]), key) == Nothing
    ensures key in WriteChecks(rows, lists[0]) && WriteChecks(rows, lists[0])[key] == rows[key]
  {
    HeldPops(lists, key);
    WriteChecksKeeps(rows, lists[0], key);
  }

  lemma BlockedStep(s: State, e: Event, times: map<Key, int>, key: Key, from: int, limit: nat)
    requires Blocked(s, times, key, from) && |times| >= limit && ReadsEarliest(s, e, from, limit)
    requires forall b | b in times :: LeavesOpen(s, e, b)
    ensures Blocked(Next(s, e), times, key, from) && Count(Next(s, e).checks, key) == Count(s.checks, key)
    ensures Next(s, e).rows[key].nextCheckTime == s.rows[key].nextCheckTime
  {
    hide Stays, LeavesOpen, WellRead, Holds, EarliestFirst, Readable, Next;
    if e.JobReads? && Enabled(s, e) {
      EnabledReads(s, e);
      BlockedIsNotRead(s, times, key, from, e.batch, e.now, limit);
    }
    forall b | b in times ensures Stays(Next(s, e), b, times[b]) { StaysStep(s, e, b, times[b]); }
    WellReadStep(s, e);
    UnheldStep(s, e, key);
    ConfigIsKept(s, e);
  }

  lemma EnabledReads(s: State, e: Event)
    requires e.JobReads? && Enabled(s, e)
    ensures Readable(s.rows, e.batch, e.now)
  {
  }

  lemma ConfigIsKept(s: State, e: Event)
    ensures Next(s, e).config == s.config
  {
  }

  /** Starvation: once a batch's worth of rows is due before a row and only ever answered with unknown
      codes, the row is never asked about again, however long it has been due and however many jobs run. */
  lemma {:induction false} StarvedForEver(s: State, events: seq<Event>, times: map<Key, int>, key: Key, from: int, limit: nat)
    requires Blocked(s, times, key, from) && |times| >= limit
    requires forall i | 0 <= i < |events| :: ReadsEarliest(Run(s, events[..i]), events[i], from, limit)
    requires forall i, b | 0 <= i < |events| && b in times :: LeavesOpen(Run(s, events[..i]), events[i], b)
    ensures Blocked(Run(s, events), times, key, from)
    ensures Count(Run(s, events).checks, key) == Count(s.checks, key)
    decreases |events|
  {
    hide Blocked, ReadsEarliest, LeavesOpen;
    if events != [] {
      var front, last := events[..|events| - 1], events[|events| - 1];
      assert forall i | 0 <= i < |front| :: front[..i] == events[..i];
      StarvedForEver(s, front, times, key, from, limit);
      BlockedStep(Run(s, front), last, times, key, from, limit);
    }
  }
}
