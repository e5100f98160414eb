/**
 Who gets checked at all.  `Prepare` computes the first check time from the business's
 configuration; a row without one is invisible to every check-back job.
 */
module Scheduling {
  import opened Domain
  import opened GoInt
  import opened Wrappers
  import opened TxDecision
  import opened CheckBound

  /** `Prepare`: the initial delay, in seconds, after the clock in milliseconds; 0 if the
      configuration is missing or cannot be read. */
  function FirstCheckTime(now: int64, initialDelay: Option<int64>): int64 {
    if initialDelay.None? then 0 else Wrap64(now + Wrap64(initialDelay.value * 1000))
  }

  /** The first check is due exactly from now + delay on, if that is a positive int64. */
  lemma FirstCheckIsDue(now: int64, delay: int64, count: int, later: int)
    requires 0 <= now && 0 <= delay && 0 < now + delay * 1000 <= MAX_INT64
    ensures Due(TxRow(TxStatus.Prepare, count, FirstCheckTime(now, Some(delay))), later) <==> later >= now + delay * 1000
  {
  }

  /** Without a configuration the row is due at no time. */
  lemma NeverDueUnconfigured(now: int64, count: int, later: int)
    ensures !Due(TxRow(TxStatus.Prepare, count, FirstCheckTime(now, None)), later)
  {
  }

  /** No job holds the row, nobody was asked about it, and it stands as users left it. */
  predicate LeftToUsers(s: State, key: Key) {
    && Count(s.checks, key) == 0
    && (forall j | 0 <= j < |s.jobs| :: Holds(s.jobs[j], key) == Nothing)
    && (key in s.rows ==> s.rows[key].nextCheckTime <= 0 && s.rows[key].status != Fail)
  }

  predicate InsertsUnscheduled(e: Event, key: Key) {
    e.Prepares? && e.key == key ==> e.next <= 0
  }

  lemma UndueIsNotRead(s: State, batch: seq<Item>, now: int, key: Key)
    requires Readable(s.rows, batch, now) && (key in s.rows ==> s.rows[key].nextCheckTime <= 0)
    ensures key !in Keys(batch) && For(batch, key) == []
  {
    forall i | 0 <= i < |batch| ensures batch[i].key != key { assert batch[i] in batch; }
    ForKeys(batch, key);
  }

  lemma UnaskedStep(s: State, e: Event, key: Key)
    requires LeftToUsers(s, key) && Enabled(s, e) && e.JobChecks?
    ensures Holds(Writing([e.retry, e.fail, e.commits]), key) == Nothing
    ensures key !in Keys(s.jobs[e.job].batch)
  {
    var batch := s.jobs[e.job].batch;
    assert Holds(s.jobs[e.job], key) == Nothing;
    ForKeys(batch, key);
    HeldOther(batch, Outcomes(s.config, batch, e.replies, e.times), key, e.retry, e.fail, e.commits);
  }

  lemma UnwrittenStep(lists: seq<seq<Item>>, key: Key)
    requires lists != [] && Holds(Writing(lists), key) == Nothing
    ensures key !in Keys(lists[0]) && Holds(Writing(lists[1..]), key) == Nothing
  {
    ForConcat(lists[0], Flatten(lists[1..]), key);
    ForKeys(lists[0], key);
  }

  lemma LeftToUsersStep(s: State, e: Event, key: Key)
    requires LeftToUsers(s, key) && InsertsUnscheduled(e, key)
    ensures LeftToUsers(Next(s, e), key)
    ensures Decides(s, e, key) ==> e.UserDecides? && e.key == key
  {
    hide Holds, Readable, Partitions, Outcomes, Flatten, WriteChecks, Due;
    if Enabled(s, e) {
      match e
      case JobReads(_, batch, now) => ReadHoldsNothing(s, batch, now, key);
      case JobChecks(_, _, _, _, _, _) => UnaskedStep(s, e, key);
      case JobWrites(j, _) =>
        assert Holds(s.jobs[j], key) == Nothing;
        UnwrittenStep(s.jobs[j].lists, key);
        IdleHoldsNothing(key);
        WriteChecksKeeps(s.rows, s.jobs[j].lists[0], key);
      case JobAborts(_) => IdleHoldsNothing(key);
      case _ =>
    }
  }

  lemma IdleHoldsNothing(key: Key)
    ensures Holds(Idle, key) == Nothing
  {
  }

  lemma ReadHoldsNothing(s: State, batch: seq<Item>, now: int, key: Key)
    requires Readable(s.rows, batch, now) && (key in s.rows ==> s.rows[key].nextCheckTime <= 0)
    ensures Holds(if batch == [] then Idle else Read(batch), key) == Nothing
  {
    UndueIsNotRead(s, batch, now, key);
  }

  /** A row inserted with no check time is never asked about and never fails, in every run with any
      number of jobs. */
  lemma {:induction false} UnscheduledIsLeftToUsers(config: Key -> Option<TxnConfig>, n: nat, events: seq<Event>, key: Key)
    requires forall i | 0 <= i < |events| :: InsertsUnscheduled(events[i], key)
    ensures LeftToUsers(Run(Initial(config, n), events), key)
    decreases |events|
  {
    if events != [] {
      UnscheduledIsLeftToUsers(config, n, events[..|events| - 1], key);
      LeftToUsersStep(Run(Initial(config, n), events[..|events| - 1]), events[|events| - 1], key);
    } else {
      IdleHoldsNothing(key);
    }
  }

  /** If it is decided at all, then by a Commit or Cancel of a user. */
  lemma OnlyUsersDecide(config: Key -> Option<TxnConfig>, n: nat, events: seq<Event>, key: Key) returns (i: nat)
    requires forall i | 0 <= i < |events| :: InsertsUnscheduled(events[i], key)
    requires Decided(Run(Initial(config, n), events), key)
    ensures DecidedAt(Initial(config, n), events, i, key)
    ensures events[i].UserDecides? && events[i].key == key
    ensures Run(Initial(config, n), events).rows[key].status == if events[i].commit then Commit else Cancel
  {
    hide LeftToUsers;
    i := DecidedBySomeEvent(Initial(config, n), events, key);
    UnscheduledIsLeftToUsers(config, n, events[..i], key);
    LeftToUsersStep(Run(Initial(config, n), events[..i]), events[i], key);
  }
}
