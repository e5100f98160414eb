/**
 How often a transactional notification is checked back.

 One check-back job at a time (the loop job holds a distributed lock) races with any number of
 users.  A row inserted with count c is asked about at most max(1, MaxRetries + 1 - c) times,
 plus once for every check whose result a database error kept from being written.
 */
module CheckBound {
  import opened Domain
  import opened GoInt
  import opened Retry
  import opened Wrappers
  import opened TxDecision

  /** The configuration lets the check-back of this business end: retries are bounded, by a number
      whose successor is still an int32.  Without a usable policy the bound is 0. */
  predicate Bounded(cfg: Option<TxnConfig>) {
    && cfg.Some?
    && (Supported(cfg.value) ==> 0 < MaxRetries(cfg.value.policy.value) < TWO_31 - 1)
  }

  predicate Supported(cfg: TxnConfig) { cfg.policy.Some? && !cfg.policy.value.Unsupported? }

  function Limit(cfg: Option<TxnConfig>): (m: nat)
    requires Bounded(cfg)
    ensures m < TWO_31 - 1
  {
    if Supported(cfg.value) then MaxRetries(cfg.value.policy.value) else 0
  }

  function Bound(cfg: Option<TxnConfig>, count: int): int
    requires Bounded(cfg)
  {
    Max(1, Limit(cfg) + 1 - count)
  }

  /** One check: a row is kept in PREPARE only while its new count is within the limit. */
  lemma KeptWithinLimit(cfg: Option<TxnConfig>, row: TxRow, reply: Reply, now: int)
    requires Bounded(cfg) && reply != Other && row.status == Prepare && -TWO_31 <= row.checkCount + 1 < TWO_31
    ensures Checked(cfg, row, reply, now).checkCount == row.checkCount + 1
    ensures Checked(cfg, row, reply, now).status == Prepare ==> row.checkCount + 1 <= Limit(cfg)
    ensures Checked(cfg, row, reply, now).status == Prepare
        <==> reply in {Unknown, CallFailed} && Supported(cfg.value) && row.checkCount + 1 <= Limit(cfg)
  {
  }

  /** The bound is reached: a row asked about alone, always answered UNKNOWN or with an error, is
      still in PREPARE after j checks exactly when j is below the bound. */
  lemma {:induction false} BoundIsExact(cfg: Option<TxnConfig>, row: TxRow, replies: seq<Reply>, now: int)
    requires Bounded(cfg) && 0 <= row.checkCount < TWO_31 - 1 && row.status == Prepare
    requires forall i | 0 <= i < |replies| :: replies[i] in {Unknown, CallFailed}
    requires |replies| <= Bound(cfg, row.checkCount)
    ensures CheckedOver(cfg, row, replies, now).checkCount == row.checkCount + |replies|
    ensures CheckedOver(cfg, row, replies, now).status == Prepare <==> |replies| < Bound(cfg, row.checkCount)
    decreases |replies|
  {
    if replies != [] {
      var front := replies[..|replies| - 1];
      BoundIsExact(cfg, row, front, now);
      KeptWithinLimit(cfg, CheckedOver(cfg, row, front, now), replies[|replies| - 1], now);
    }
  }

  /** Consecutive checks of one row. */
  function CheckedOver(cfg: Option<TxnConfig>, row: TxRow, replies: seq<Reply>, now: int): TxRow
    decreases |replies|
  {
    if replies == [] then row
    else Checked(cfg, CheckedOver(cfg, row, replies[..|replies| - 1], now), replies[|replies| - 1], now)
  }

  /** Every int32 passes the comparison with such a limit. */
  predicate Unlimited(maxRetries: int32) { maxRetries <= 0 || maxRetries == TWO_31 - 1 }

  predicate AllOther(replies: seq<Reply>) {
    forall i | 0 <= i < |replies| :: replies[i] == Other
  }

  /** Both conditions are needed: with no retry limit, or when the service answers with a status
      code the code does not know, a row stays in PREPARE for ever; in the second case it even
      stays due, so every iteration selects it again. */
  lemma {:induction false} ChecksForEver(cfg: Option<TxnConfig>, row: TxRow, replies: seq<Reply>, now: int)
    requires cfg.Some? && row.status == Prepare
    requires || AllOther(replies)
             || (Supported(cfg.value) && Unlimited(MaxRetries(cfg.value.policy.value))
                 && forall i | 0 <= i < |replies| :: replies[i] in {Unknown, CallFailed})
    ensures CheckedOver(cfg, row, replies, now).status == Prepare
    ensures AllOther(replies) ==> CheckedOver(cfg, row, replies, now).nextCheckTime == row.nextCheckTime
    decreases |replies|
  {
    if replies != [] { ChecksForEver(cfg, row, replies[..|replies| - 1], now); }
  }

  // ----- the entries of a list that concern one row -----

  function For(items: seq<Item>, key: Key): seq<TxRow>
    decreases |items|
  {
    if items == [] then []
    else
      var last := items[|items| - 1];
      For(items[..|items| - 1], key) + if last.key == key then [last.row] else []
  }

  lemma {:induction false} ForConcat(a: seq<Item>, b: seq<Item>, key: Key)
    ensures For(a + b, key) == For(a, key) + For(b, key)
    decreases |b|
  {
    if b == [] {
      assert a + b == a;
    } else {
      assert (a + b)[..|a + b| - 1] == a + b[..|b| - 1];
      ForConcat(a, b[..|b| - 1], key);
    }
  }

  lemma {:induction false} ForKeys(items: seq<Item>, key: Key)
    ensures key in Keys(items) <==> For(items, key) != []
    decreases |items|
  {
    if items != [] {
      var front := items[..|items| - 1];
      ForKeys(front, key);
      assert Keys(items) == Keys(front) + {items[|items| - 1].key};
    }
  }

  /** The entries for one row depend only on which items are there, not on their order. */
  lemma {:induction false} ForMultiplicity(items: seq<Item>, key: Key, row: TxRow)
    ensures multiset(For(items, key))[row] == multiset(items)[Item(key, row)]
    decreases |items|
  {
    if items != [] {
      var front, last := items[..|items| - 1], items[|items| - 1];
      assert items == front + [last];
      ForMultiplicity(front, key, row);
    }
  }

  lemma SameItemsSameRow(a: seq<Item>, b: seq<Item>, key: Key)
    requires multiset(a) == multiset(b) && |For(b, key)| <= 1
    ensures For(a, key) == For(b, key)
  {
    forall row: TxRow ensures multiset(For(a, key))[row] == multiset(For(b, key))[row] {
      ForMultiplicity(a, key, row);
      ForMultiplicity(b, key, row);
    }
    assert multiset(For(a, key)) == multiset(For(b, key));
    AtMostOneRow(For(a, key), For(b, key));
  }

  lemma AtMostOneRow(x: seq<TxRow>, y: seq<TxRow>)
    requires multiset(x) == multiset(y) && |y| <= 1
    ensures x == y
  {
    assert |x| == |multiset(x)| == |y|;
    if |x| == 1 {
      assert x == [x[0]] && y == [y[0]];
      assert x[0] in multiset(y);
    }
  }

  lemma {:induction false} ForDistinct(items: seq<Item>, i: nat)
    requires DistinctKeys(items) && i < |items|
    ensures For(items, items[i].key) == [items[i].row]
    decreases |items|
  {
    var front, last := items[..|items| - 1], items[|items| - 1];
    if i == |items| - 1 {
      ForKeys(front, last.key);
    } else {
      ForDistinct(front, i);
    }
  }

  lemma {:induction false} WriteChecksFor(rows: map<Key, TxRow>, items: seq<Item>, key: Key)
    requires |For(items, key)| <= 1 && Undecided(rows, key)
    ensures WriteChecks(rows, items).Keys == rows.Keys
    ensures WriteChecks(rows, items)[key] == if For(items, key) == [] then rows[key] else For(items, key)[0]
    decreases |items|
  {
    if items != [] { WriteChecksFor(rows, items[..|items| - 1], key); }
  }

  // ----- the invariant for one key and one job -----

  /** Checks of the row whose result reached the table or may still reach it. */
  function Effective(s: State, key: Key): int { Count(s.checks, key) - Count(s.lost, key) }

  /** What the single job holds for the row: nothing, the row as read, or a result to be written. */
  datatype Held = Nothing | AsRead(row: TxRow) | ToWrite(row: TxRow) | Several

  function Holds(job: Job, key: Key): Held {
    match job
    case Idle => Nothing
    case Read(batch) => var f := For(batch, key); if f == [] then Nothing else if |f| == 1 then AsRead(f[0]) else Several
    case Writing(lists) => var f := For(Flatten(lists), key); if f == [] then Nothing else if |f| == 1 then ToWrite(f[0]) else Several
  }

  /** With `born` the inserted count, `n` the effective checks and `limit` the retry limit. */
  predicate InStep(row: TxRow, born: int, n: int, limit: int) {
    row.checkCount == born + n && (n >= 1 ==> row.checkCount <= limit)
  }

  predicate RowInStep(row: TxRow, held: Held, born: int, n: int, limit: int) {
    && 0 <= born < TWO_31 - 1
    && 0 <= n <= Max(1, limit + 1 - born)
    && match held
       case Nothing => row.status == Prepare ==> InStep(row, born, n, limit)
       case AsRead(r) => r.status == Prepare && InStep(r, born, n, limit) && (row.status == Prepare ==> InStep(row, born, n, limit))
       case ToWrite(r) =>
         && n >= 1 && r.checkCount == born + n && (r.status == Prepare ==> InStep(r, born, n, limit))
         && (row.status == Prepare ==> InStep(row, born, n - 1, limit))
       case Several => false
  }

  predicate Accounted(s: State, key: Key) {
    && |s.jobs| == 1 && Bounded(s.config(key))
    && s.rows.Keys == s.born.Keys
    && (s.jobs[0].Read? ==> DistinctKeys(s.jobs[0].batch))
    && if key in s.rows
       then RowInStep(s.rows[key], Holds(s.jobs[0], key), s.born[key], Effective(s, key), Limit(s.config(key)))
       else Effective(s, key) == 0 && Holds(s.jobs[0], key) == Nothing
  }

  /** The row is inserted with a count that an int32 can still follow, and every question about it gets a
      known answer; nothing is asked of other rows. */
  predicate Admissible(s: State, e: Event, key: Key) {
    match e
    case Prepares(k, count, _) => k == key ==> 0 <= count < TWO_31 - 1
    case JobChecks(j, replies, _, _, _, _) => Enabled(s, e) ==> KnownAnswers(s.jobs[j].batch, replies, key)
    case _ => true
  }

  predicate KnownAnswers(batch: seq<Item>, replies: seq<Reply>, key: Key)
    requires |replies| == |batch|
  {
    forall i | 0 <= i < |batch| && batch[i].key == key :: replies[i] != Other
  }

  ghost predicate AdmissibleRun(s: State, events: seq<Event>, key: Key) {
    forall i | 0 <= i < |events| :: Admissible(Run(s, events[..i]), events[i], key)
  }

  // ----- each event keeps the invariant -----

  lemma ReadsStep(s: State, batch: seq<Item>, now: int, t: State, key: Key)
    requires Accounted(s, key) && s.jobs[0].Idle? && Readable(s.rows, batch, now)
    requires t == s.(jobs := [if batch == [] then Idle else Read(batch)])
    ensures Accounted(t, key)
  {
    ForKeys(batch, key);
    if key in Keys(batch) {
      var i :| 0 <= i < |batch| && batch[i].key == key;
      ForDistinct(batch, i);
      assert batch[i] in batch;
    }
  }

  lemma ForPartition(outcomes: seq<Item>, retry: seq<Item>, fail: seq<Item>, commits: seq<Item>, key: Key)
    requires Partitions(outcomes, retry, fail, commits) && |For(outcomes, key)| <= 1
    ensures For(Flatten([retry, fail, commits]), key) == For(outcomes, key)
  {
    FlattenThree(retry, fail, commits);
    SameItemsSameRow(Flatten([retry, fail, commits]), outcomes, key);
  }

  lemma FlattenThree(a: seq<Item>, b: seq<Item>, c: seq<Item>)
    ensures multiset(Flatten([a, b, c])) == multiset(a) + multiset(b) + multiset(c)
  {
    assert [a, b, c][1..] == [b, c] && [b, c][1..] == [c] && [c][1..] == [];
    assert Flatten([c]) == c by { assert c + [] == c; }
    assert Flatten([a, b, c]) == a + (b + c);
  }

  /** After the checks the job holds, for a row of the batch, exactly its outcome. */
  lemma HeldKey(batch: seq<Item>, outcomes: seq<Item>, i: nat, retry: seq<Item>, fail: seq<Item>, commits: seq<Item>)
    requires DistinctKeys(batch) && Partitions(outcomes, retry, fail, commits) && SameKeys(batch, outcomes) && i < |batch|
    ensures Holds(Read(batch), batch[i].key) == AsRead(batch[i].row)
    ensures Holds(Writing([retry, fail, commits]), batch[i].key) == ToWrite(outcomes[i].row)
  {
    ForDistinct(batch, i);
    ForDistinct(outcomes, i);
    ForPartition(outcomes, retry, fail, commits, batch[i].key);
  }

  lemma HeldOther(batch: seq<Item>, outcomes: seq<Item>, key: Key, retry: seq<Item>, fail: seq<Item>, commits: seq<Item>)
    requires Partitions(outcomes, retry, fail, commits) && SameKeys(batch, outcomes) && key !in Keys(batch)
    ensures Holds(Read(batch), key) == Nothing == Holds(Writing([retry, fail, commits]), key)
  {
    ForKeys(batch, key);
    ForKeys(outcomes, key);
    assert key !in Keys(outcomes);
    ForPartition(outcomes, retry, fail, commits, key);
  }

  predicate SameKeys(batch: seq<Item>, outcomes: seq<Item>) {
    |outcomes| == |batch| && forall i | 0 <= i < |batch| :: outcomes[i].key == batch[i].key
  }

  lemma ChecksStep(s: State, e: Event, t: State, key: Key)
    requires Accounted(s, key) && Enabled(s, e) && Admissible(s, e, key) && e.JobChecks?
    requires t == s.(jobs := [Writing([e.retry, e.fail, e.commits])], checks := Bump(s.checks, Asked(s.config, s.jobs[0].batch)))
    ensures Accounted(t, key)
  {
    var batch := s.jobs[0].batch;
    var outcomes := Outcomes(s.config, batch, e.replies, e.times);
    if i :| 0 <= i < |batch| && batch[i].key == key {
      HeldKey(batch, outcomes, i, e.retry, e.fail, e.commits);
      ChecksKey(s, t, key, batch[i].row, e.replies[i], e.times[i]);
    } else {
      HeldOther(batch, outcomes, key, e.retry, e.fail, e.commits);
      ChecksOther(s, t, key);
    }
  }

  lemma ChecksOther(s: State, t: State, key: Key)
    requires Accounted(s, key) && s.jobs[0].Read? && key !in Keys(s.jobs[0].batch)
    requires t == s.(jobs := t.jobs, checks := Bump(s.checks, Asked(s.config, s.jobs[0].batch)))
    requires |t.jobs| == 1 && t.jobs[0].Writing?
    requires Holds(s.jobs[0], key) == Nothing == Holds(t.jobs[0], key)
    ensures Accounted(t, key)
  {
    assert Effective(t, key) == Effective(s, key);
  }

  lemma ChecksKey(s: State, t: State, key: Key, row: TxRow, reply: Reply, time: int)
    requires Accounted(s, key) && s.jobs[0].Read? && reply != Other && key in Keys(s.jobs[0].batch)
    requires t == s.(jobs := t.jobs, checks := Bump(s.checks, Asked(s.config, s.jobs[0].batch)))
    requires |t.jobs| == 1 && t.jobs[0].Writing?
    requires Holds(s.jobs[0], key) == AsRead(row)
    requires Holds(t.jobs[0], key) == ToWrite(Checked(s.config(key), row, reply, time))
    ensures Accounted(t, key)
  {
    assert Effective(t, key) == Effective(s, key) + 1;
    KeptWithinLimit(s.config(key), row, reply, time);
  }

  lemma WritesStep(s: State, t: State, key: Key)
    requires Accounted(s, key) && s.jobs[0].Writing? && s.jobs[0].lists != []
    requires var lists := s.jobs[0].lists;
             t == s.(rows := WriteChecks(s.rows, lists[0]), jobs := [if |lists| == 1 then Idle else Writing(lists[1..])])
    ensures Accounted(t, key)
  {
    var lists := s.jobs[0].lists;
    ForConcat(lists[0], Flatten(lists[1..]), key);
    assert Effective(t, key) == Effective(s, key);
    WriteChecksKeeps(s.rows, lists[0], key);
    if Undecided(s.rows, key) { WriteChecksFor(s.rows, lists[0], key); }
  }

  lemma LosesStep(s: State, t: State, key: Key)
    requires Accounted(s, key) && s.jobs[0].Writing? && s.jobs[0].lists != []
    requires var lists := s.jobs[0].lists;
             t == s.(lost := Bump(s.lost, Asked(s.config, lists[0])), jobs := [if |lists| == 1 then Idle else Writing(lists[1..])])
    ensures Accounted(t, key)
  {
    var lists := s.jobs[0].lists;
    HeldPops(lists, key);
    LostCount(s, t, lists[0], key);
    hide Holds, Bounded, Limit, Asked, Bump, Effective, Keys;
    assert Holds(t.jobs[0], key) == if key in Keys(lists[0]) then Nothing else Holds(s.jobs[0], key);
  }

  /** Of a row held once, the written list takes the entry or leaves it. */
  lemma HeldPops(lists: seq<seq<Item>>, key: Key)
    requires lists != [] && Holds(Writing(lists), key) != Several
    ensures Holds(if |lists| == 1 then Idle else Writing(lists[1..]), key)
         == if key in Keys(lists[0]) then Nothing else Holds(Writing(lists), key)
    ensures key in Keys(lists[0]) ==> Holds(Writing(lists), key) != Nothing
  {
    ForConcat(lists[0], Flatten(lists[1..]), key);
    ForKeys(lists[0], key);
  }

  lemma LostCount(s: State, t: State, items: seq<Item>, key: Key)
    requires t.checks == s.checks && t.lost == Bump(s.lost, Asked(s.config, items)) && s.config(key).Some?
    ensures Effective(t, key) == Effective(s, key) - if key in Keys(items) then 1 else 0
  {
  }

  lemma AbortsStep(s: State, t: State, key: Key)
    requires Accounted(s, key)
    requires var unwritten := if s.jobs[0].Writing? then Asked(s.config, Flatten(s.jobs[0].lists)) else {};
             t == s.(jobs := [Idle], lost := Bump(s.lost, unwritten))
    ensures Accounted(t, key)
  {
    if s.jobs[0].Writing? {
      ForKeys(Flatten(s.jobs[0].lists), key);
      assert Effective(t, key) == Effective(s, key) - if key in Keys(Flatten(s.jobs[0].lists)) then 1 else 0;
    } else {
      assert Effective(t, key) == Effective(s, key);
    }
  }

  lemma RowEventStep(s: State, e: Event, key: Key)
    requires Accounted(s, key) && Admissible(s, e, key) && (e.Prepares? || e.UserDecides?)
    ensures Accounted(Next(s, e), key)
  {
    assert Effective(Next(s, e), key) == Effective(s, key);
  }

  lemma StepAccounted(s: State, e: Event, key: Key)
    requires Accounted(s, key) && Admissible(s, e, key)
    ensures Accounted(Next(s, e), key) && Next(s, e).config == s.config
  {
    hide RowInStep, Holds, Effective, For, Partitions, Outcomes, Readable, WriteChecks, Asked, Bump, Flatten, Due, Bounded;
    if Enabled(s, e) {
      match e
      case JobChecks(_, _, _, _, _, _) => ChecksStep(s, e, Next(s, e), key);
      case JobWrites(_, fault) => if fault { LosesStep(s, Next(s, e), key); } else { WritesStep(s, Next(s, e), key); }
      case JobAborts(_) => AbortsStep(s, Next(s, e), key);
      case JobReads(_, batch, now) => ReadsStep(s, batch, now, Next(s, e), key);
      case _ => RowEventStep(s, e, key);
    }
  }

  lemma {:induction false} RunAccounted(s: State, events: seq<Event>, key: Key)
    requires Accounted(s, key) && AdmissibleRun(s, events, key)
    ensures Accounted(Run(s, events), key) && Run(s, events).config == s.config
    decreases |events|
  {
    if events != [] {
      var front := events[..|events| - 1];
      assert forall i | 0 <= i < |front| :: front[..i] == events[..i];
      RunAccounted(s, front, key);
      StepAccounted(Run(s, events[..|events| - 1]), events[|events| - 1], key);
    }
  }

  /** In every run with one check-back job, whatever users do in between, a row inserted with count
      c is asked about at most max(1, MaxRetries + 1 - c) times, plus once for each lost write. */
  lemma ChecksAreBounded(config: Key -> Option<TxnConfig>, events: seq<Event>, key: Key)
    requires Bounded(config(key)) && AdmissibleRun(Initial(config, 1), events, key)
    requires key in Run(Initial(config, 1), events).rows
    ensures var s := Run(Initial(config, 1), events);
            && key in s.born
            && Count(s.checks, key) <= Bound(config(key), s.born[key]) + Count(s.lost, key)
  {
    RunAccounted(Initial(config, 1), events, key);
  }
}
