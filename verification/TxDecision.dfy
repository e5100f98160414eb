/**
 The decision protocol of transactional notifications as a state machine.

 Prepare inserts a row in PREPARE.  The user's Commit or Cancel races with check-back jobs, which
 read due rows, ask the business service about them, and later write what they computed from that
 old read.  Each statement or transaction is one atomic event; a run is any list of events.
 */
module TxDecision {
  import opened Domain
  import opened GoInt
  import opened Retry
  import opened Wrappers

  datatype TxStatus = Prepare | Commit | Cancel | Fail

  datatype TxRow = TxRow(status: TxStatus, checkCount: int, nextCheckTime: int)

  /** A business's transaction configuration; the policy may be missing. */
  datatype TxnConfig = TxnConfig(policy: Option<Policy>)

  /** The business service's answer to one check; `Other` is a status code the code does not know. */
  datatype Reply = Unknown | Committed | Canceled | CallFailed | Other

  datatype Item = Item(key: Key, row: TxRow)

  /** `FindCheckBack`: status PREPARE and 0 < next_check_time <= now (milliseconds). */
  predicate Due(row: TxRow, now: int) {
    row.status == Prepare && 0 < row.nextCheckTime <= now
  }

  /** `SetNextCheckBackTimeAndStatus` on a row whose count was already increased. */
  function Rescheduled(cfg: TxnConfig, row: TxRow, now: int): TxRow {
    var next := if cfg.policy.None? then None else NextInterval(cfg.policy.value, Wrap32(row.checkCount));
    if next.Some? then row.(nextCheckTime := MilliAfter(now, next.value))
    else row.(nextCheckTime := 0, status := Fail)
  }

  /** `oneBackCheck`: what one check makes of a row read as PREPARE. */
  function Checked(cfg: Option<TxnConfig>, row: TxRow, reply: Reply, now: int): TxRow {
    if cfg.None? then row.(nextCheckTime := 0, status := Fail)
    else
      var counted := row.(checkCount := row.checkCount + 1);
      match reply
      case Unknown => Rescheduled(cfg.value, counted, now)
      case CallFailed => Rescheduled(cfg.value, counted, now)
      case Canceled => counted.(nextCheckTime := 0, status := Cancel)
      case Committed => counted.(nextCheckTime := 0, status := Commit)
      case Other => counted
  }

  /** No further check-back: there is no usable policy, or the count is beyond its limit. */
  predicate Exhausted(cfg: TxnConfig, count: int) {
    || cfg.policy.None? || cfg.policy.value.Unsupported?
    || 0 < MaxRetries(cfg.policy.value) < Wrap32(count)
  }

  /** The status explained by the answer of a check on a row of the given count. */
  predicate Explained(status: TxStatus, cfg: Option<TxnConfig>, reply: Reply, count: int) {
    match status
    case Commit => cfg.Some? && reply == Committed
    case Cancel => cfg.Some? && reply == Canceled
    case Fail => cfg.None? || (reply in {Unknown, CallFailed} && Exhausted(cfg.value, count + 1))
    case Prepare => cfg.Some? && (reply == Other || (reply in {Unknown, CallFailed} && !Exhausted(cfg.value, count + 1)))
  }

  /** Every answer explains exactly one status, the one the check gives. */
  lemma StatusExactly(cfg: Option<TxnConfig>, row: TxRow, reply: Reply, now: int, status: TxStatus)
    requires row.status == Prepare
    ensures Checked(cfg, row, reply, now).status == status <==> Explained(status, cfg, reply, row.checkCount)
    ensures Checked(cfg, row, reply, now).checkCount == row.checkCount + if cfg.Some? then 1 else 0
  {
  }

  /** Terminal rows get time 0; a row kept in PREPARE gets a later time, provided the policy waits
      and the answer was one the code knows. */
  lemma CheckedTimes(cfg: Option<TxnConfig>, row: TxRow, reply: Reply, readAt: int, now: int)
    requires Due(row, readAt) && readAt <= now / MILLISECOND
    ensures var r := Checked(cfg, row, reply, now);
            && (r.status != Prepare ==> r.nextCheckTime == 0)
            && (r.status == Prepare && reply != Other && cfg.value.policy.Some? && Waits(cfg.value.policy.value)
                ==> r.nextCheckTime > readAt >= row.nextCheckTime)
            && (reply == Other && cfg.Some? ==> r == row.(checkCount := row.checkCount + 1))
  {
  }

  // ----- guarded writes -----

  /** The guard of every write: `... AND status = 'PREPARE'`. */
  predicate Undecided(rows: map<Key, TxRow>, key: Key) {
    key in rows && rows[key].status == Prepare
  }

  /** One guarded update of a batch. */
  function WriteCheck(rows: map<Key, TxRow>, item: Item): map<Key, TxRow> {
    if Undecided(rows, item.key) then rows[item.key := item.row] else rows
  }

  function WriteChecks(rows: map<Key, TxRow>, items: seq<Item>): map<Key, TxRow>
    decreases |items|
  {
    if items == [] then rows else WriteCheck(WriteChecks(rows, items[..|items| - 1]), items[|items| - 1])
  }

  /** `UpdateStatus`, the user's Commit or Cancel. */
  function Decide(rows: map<Key, TxRow>, key: Key, status: TxStatus): map<Key, TxRow> {
    if Undecided(rows, key) then rows[key := rows[key].(status := status)] else rows
  }

  /** `INSERT ... ON CONFLICT DO NOTHING`. */
  function Insert(rows: map<Key, TxRow>, key: Key, count: int, next: int): map<Key, TxRow> {
    if key in rows then rows else rows[key := TxRow(Prepare, count, next)]
  }

  // ----- the machine -----

  /** A check-back job between iterations, after its read, and while it writes its lists. */
  datatype Job = Idle | Read(batch: seq<Item>) | Writing(lists: seq<seq<Item>>)

  /** One iteration writes the retry, fail and commit lists in turn, each in its own transaction; an
      error in one does not keep the next from being written.  A job may also be cut off anywhere.
      `checks` counts the questions asked about a row, `lost` those whose result a database error
      kept from being written, `born` is the count a row was inserted with. */
  datatype State = State(
    config: Key -> Option<TxnConfig>,
    rows: map<Key, TxRow>,
    jobs: seq<Job>,
    born: map<Key, int>,
    checks: map<Key, nat>,
    lost: map<Key, nat>)

  datatype Event =
    | Prepares(key: Key, count: int, next: int)
    | UserDecides(key: Key, commit: bool)
    | JobReads(job: nat, batch: seq<Item>, now: int)
    | JobChecks(job: nat, replies: seq<Reply>, times: seq<int>, retry: seq<Item>, fail: seq<Item>, commits: seq<Item>)
    | JobWrites(job: nat, fault: bool)
    | JobAborts(job: nat)

  function Count(m: map<Key, nat>, key: Key): nat { if key in m then m[key] else 0 }

  function Keys(items: seq<Item>): set<Key> { set i | 0 <= i < |items| :: items[i].key }

  function Bump(m: map<Key, nat>, keys: set<Key>): map<Key, nat> {
    map k | k in m.Keys + keys :: Count(m, k) + if k in keys then 1 else 0
  }

  predicate DistinctKeys(items: seq<Item>) {
    forall i, j | 0 <= i < j < |items| :: items[i].key != items[j].key
  }

  /** A batch the query can return: rows as they are now, due, each once. */
  predicate Readable(rows: map<Key, TxRow>, batch: seq<Item>, now: int) {
    && DistinctKeys(batch)
    && forall item <- batch :: item.key in rows && item.row == rows[item.key] && Due(item.row, now)
  }

  function Outcomes(config: Key -> Option<TxnConfig>, batch: seq<Item>, replies: seq<Reply>, times: seq<int>): seq<Item>
    requires |replies| == |batch| && |times| == |batch|
  {
    seq(|batch|, i requires 0 <= i < |batch| =>
      Item(batch[i].key, Checked(config(batch[i].key), batch[i].row, replies[i], times[i])))
  }

  /** Every outcome is in exactly one list, and each list holds one kind of status. */
  predicate Partitions(outcomes: seq<Item>, retry: seq<Item>, fail: seq<Item>, commits: seq<Item>) {
    && multiset(retry) + multiset(fail) + multiset(commits) == multiset(outcomes)
    && (forall item <- retry :: item.row.status == Prepare)
    && (forall item <- fail :: item.row.status in {Cancel, Fail})
    && (forall item <- commits :: item.row.status == Commit)
  }

  predicate Enabled(s: State, e: Event) {
    match e
    case Prepares(_, _, _) => true
    case UserDecides(_, _) => true
    case JobReads(j, batch, now) => j < |s.jobs| && s.jobs[j].Idle? && Readable(s.rows, batch, now)
    case JobChecks(j, replies, times, retry, fail, commits) =>
      && j < |s.jobs| && s.jobs[j].Read?
      && |replies| == |times| == |s.jobs[j].batch|
      && Partitions(Outcomes(s.config, s.jobs[j].batch, replies, times), retry, fail, commits)
    case JobWrites(j, _) => j < |s.jobs| && s.jobs[j].Writing? && s.jobs[j].lists != []
    case JobAborts(j) => j < |s.jobs|
  }

  /** The keys of a batch about which the business service is really asked. */
  function Asked(config: Key -> Option<TxnConfig>, batch: seq<Item>): set<Key> {
    set k | k in Keys(batch) && config(k).Some?
  }

  function Flatten(lists: seq<seq<Item>>): seq<Item> {
    if lists == [] then [] else lists[0] + Flatten(lists[1..])
  }

  function Next(s: State, e: Event): State {
    if !Enabled(s, e) then s else
      match e
      case Prepares(key, count, next) =>
        s.(rows := Insert(s.rows, key, count, next), born := if key in s.rows then s.born else s.born[key := count])
      case UserDecides(key, commit) => s.(rows := Decide(s.rows, key, if commit then Commit else Cancel))
      case JobReads(j, batch, _) => s.(jobs := s.jobs[j := if batch == [] then Idle else Read(batch)])
      case JobChecks(j, _, _, retry, fail, commits) =>
        s.(jobs := s.jobs[j := Writing([retry, fail, commits])], checks := Bump(s.checks, Asked(s.config, s.jobs[j].batch)))
      case JobWrites(j, fault) =>
        var lists := s.jobs[j].lists;
        var popped := s.(jobs := s.jobs[j := if |lists| == 1 then Idle else Writing(lists[1..])]);
        if fault then popped.(lost := Bump(s.lost, Asked(s.config, lists[0])))
        else popped.(rows := WriteChecks(s.rows, lists[0]))
      case JobAborts(j) =>
        var unwritten := if s.jobs[j].Writing? then Asked(s.config, Flatten(s.jobs[j].lists)) else {};
        s.(jobs := s.jobs[j := Idle], lost := Bump(s.lost, unwritten))
  }

  function Initial(config: Key -> Option<TxnConfig>, n: nat): State {
    State(config, map[], seq(n, _ => Idle), map[], map[], map[])
  }

  function Run(s: State, events: seq<Event>): State
    decreases |events|
  {
    if events == [] then s else Next(Run(s, events[..|events| - 1]), events[|events| - 1])
  }

  // ----- each row is decided at most once, by any number of users and jobs -----

  predicate Decided(s: State, key: Key) {
    key in s.rows && s.rows[key].status != Prepare
  }

  /** The event takes the row out of PREPARE. */
  predicate Decides(s: State, e: Event, key: Key) {
    Undecided(s.rows, key) && Decided(Next(s, e), key)
  }

  /** A Commit or Cancel call that reports success: its update affected a row. */
  predicate UserWins(s: State, e: Event, key: Key) {
    e.UserDecides? && e.key == key && Undecided(s.rows, key)
  }

  lemma {:induction false} WriteChecksKeeps(rows: map<Key, TxRow>, items: seq<Item>, key: Key)
    ensures WriteChecks(rows, items).Keys == rows.Keys
    ensures key in rows && (rows[key].status != Prepare || key !in Keys(items)) ==> WriteChecks(rows, items)[key] == rows[key]
    decreases |items|
  {
    if items != [] {
      WriteChecksKeeps(rows, items[..|items| - 1], key);
      assert items[|items| - 1].key in Keys(items);
      assert Keys(items[..|items| - 1]) <= Keys(items);
    }
  }

  lemma DecidedStep(s: State, e: Event, key: Key)
    requires Decided(s, key)
    ensures Decided(Next(s, e), key) && Next(s, e).rows[key] == s.rows[key]
  {
    if Enabled(s, e) && e.JobWrites? { WriteChecksKeeps(s.rows, s.jobs[e.job].lists[0], key); }
  }

  lemma {:induction false} DecidedForever(s: State, events: seq<Event>, key: Key)
    requires Decided(s, key)
    ensures Decided(Run(s, events), key) && Run(s, events).rows[key] == s.rows[key]
    decreases |events|
  {
    if events != [] {
      DecidedForever(s, events[..|events| - 1], key);
      DecidedStep(Run(s, events[..|events| - 1]), events[|events| - 1], key);
    }
  }

  lemma {:induction false} RunConcat(s: State, a: seq<Event>, b: seq<Event>)
    ensures Run(s, a + b) == Run(Run(s, a), b)
    decreases |b|
  {
    if b == [] {
      assert a + b == a;
    } else {
      assert (a + b)[..|a + b| - 1] == a + b[..|b| - 1];
      RunConcat(s, a, b[..|b| - 1]);
    }
  }

  /** In every run a row leaves PREPARE at most once, whoever takes it out: after a deciding event,
      a winning user among them, there is no other, and the row stays as that event left it. */
  lemma LeavesPrepareOnce(s: State, events: seq<Event>, i: nat, j: nat, key: Key)
    requires i < j < |events|
    requires Decides(Run(s, events[..i]), events[i], key) || UserWins(Run(s, events[..i]), events[i], key)
    ensures !Decides(Run(s, events[..j]), events[j], key) && !UserWins(Run(s, events[..j]), events[j], key)
    ensures Decided(Run(s, events[..i + 1]), key) && Decided(Run(s, events), key)
    ensures Run(s, events[..i + 1]).rows[key] == Run(s, events).rows[key]
  {
    assert events[..i + 1][..i] == events[..i];
    var decided := Run(s, events[..i + 1]);
    assert decided == Next(Run(s, events[..i]), events[i]);
    assert Decided(decided, key);
    assert events[..j] == events[..i + 1] + events[i + 1..j] && events == events[..i + 1] + events[i + 1..];
    RunConcat(s, events[..i + 1], events[i + 1..j]);
    RunConcat(s, events[..i + 1], events[i + 1..]);
    DecidedForever(decided, events[i + 1..j], key);
    DecidedForever(decided, events[i + 1..], key);
  }

  lemma UndecidedStep(s: State, e: Event, key: Key)
    requires !Decided(s, key) && Decided(Next(s, e), key)
    ensures Decides(s, e, key)
  {
    if Enabled(s, e) && e.JobWrites? { WriteChecksKeeps(s.rows, s.jobs[e.job].lists[0], key); }
  }

  /** Event i decides the row, and the row ends the run as that event left it. */
  predicate DecidedAt(s: State, events: seq<Event>, i: nat, key: Key) {
    && i < |events|
    && Decides(Run(s, events[..i]), events[i], key)
    && Decided(Run(s, events), key)
    && Next(Run(s, events[..i]), events[i]).rows[key] == Run(s, events).rows[key]
  }

  lemma DecidedAtExtends(s: State, front: seq<Event>, e: Event, i: nat, key: Key)
    requires DecidedAt(s, front, i, key)
    ensures DecidedAt(s, front + [e], i, key)
  {
    assert (front + [e])[..i] == front[..i] && (front + [e])[..|front|] == front;
    DecidedStep(Run(s, front), e, key);
  }

  /** A decided row was decided by an event of the run, and stands as that event left it. */
  lemma {:induction false} DecidedBySomeEvent(s: State, events: seq<Event>, key: Key) returns (i: nat)
    requires !Decided(s, key) && Decided(Run(s, events), key)
    ensures DecidedAt(s, events, i, key)
    decreases |events|
  {
    var last := |events| - 1;
    var front := events[..last];
    assert events == front + [events[last]];
    if Decided(Run(s, front), key) {
      i := DecidedBySomeEvent(s, front, key);
      DecidedAtExtends(s, front, events[last], i, key);
    } else {
      i := last;
      UndecidedStep(Run(s, front), events[last], key);
    }
  }
}
