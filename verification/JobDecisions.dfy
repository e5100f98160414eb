/**
 Why a job decides a row: over any run with any number of users and jobs, the status that a job's write
 gives to a row is the one that the answer of its own check explains.
 */
module JobDecisions {
  import opened Domain
  import opened GoInt
  import opened Wrappers
  import opened TxDecision
  import opened CheckBound

  /** Event i is a check by the job that takes place. */
  predicate ChecksAt(s: State, events: seq<Event>, i: nat, job: nat) {
    && i < |events| && events[i].JobChecks? && events[i].job == job
    && Enabled(Run(s, events[..i]), events[i])
  }

  /** It is the job's last one. */
  ghost predicate LastCheck(s: State, events: seq<Event>, i: nat, job: nat) {
    ChecksAt(s, events, i, job) && forall m | i < m < |events| :: !ChecksAt(s, events, m, job)
  }

  /** What the check at i makes of its batch. */
  function OutcomesAt(s: State, events: seq<Event>, i: nat, job: nat): seq<Item>
    requires ChecksAt(s, events, i, job)
  {
    var before := Run(s, events[..i]);
    Outcomes(before.config, before.jobs[job].batch, events[i].replies, events[i].times)
  }

  /** A job about to write holds nothing but outcomes of its last check. */
  ghost predicate FromLastCheck(s: State, events: seq<Event>, job: nat, i: nat) {
    && LastCheck(s, events, i, job)
    && job < |Run(s, events).jobs| && Run(s, events).jobs[job].Writing?
    && forall item <- Flatten(Run(s, events).jobs[job].lists) :: item in OutcomesAt(s, events, i, job)
  }

  lemma ChecksAtExtends(s: State, events: seq<Event>, e: Event, job: nat)
    ensures forall m | 0 <= m < |events| :: ChecksAt(s, events + [e], m, job) == ChecksAt(s, events, m, job)
    ensures forall m | 0 <= m < |events| && ChecksAt(s, events, m, job) ::
              OutcomesAt(s, events + [e], m, job) == OutcomesAt(s, events, m, job)
  {
    assert forall m | 0 <= m <= |events| :: (events + [e])[..m] == events[..m];
  }

  lemma PartitionMembers(outcomes: seq<Item>, retry: seq<Item>, fail: seq<Item>, commits: seq<Item>)
    requires Partitions(outcomes, retry, fail, commits)
    ensures forall item <- Flatten([retry, fail, commits]) :: item in outcomes
  {
    FlattenThree(retry, fail, commits);
    var all := Flatten([retry, fail, commits]);
    assert multiset(all) == multiset(outcomes);
    forall item | item in all ensures item in outcomes { assert item in multiset(all); }
  }

  lemma RestMembers(lists: seq<seq<Item>>)
    requires lists != []
    ensures forall item <- Flatten(lists[1..]) :: item in Flatten(lists)
    ensures forall item <- lists[0] :: item in Flatten(lists)
  {
  }

  /** The event leaves the job's lists alone, or writes the first of them. */
  lemma ListsStep(s: State, e: Event, job: nat)
    requires job < |Next(s, e).jobs| && Next(s, e).jobs[job].Writing? && !(e.JobChecks? && e.job == job && Enabled(s, e))
    ensures job < |s.jobs| && s.jobs[job].Writing?
    ensures forall item <- Flatten(Next(s, e).jobs[job].lists) :: item in Flatten(s.jobs[job].lists)
  {
    if Enabled(s, e) && e.JobWrites? && e.job == job { RestMembers(s.jobs[job].lists); }
  }

  lemma {:induction false} HeldIsFromLastCheck(config: Key -> Option<TxnConfig>, n: nat, events: seq<Event>, job: nat) returns (i: nat)
    requires job < |Run(Initial(config, n), events).jobs| && Run(Initial(config, n), events).jobs[job].Writing?
    ensures FromLastCheck(Initial(config, n), events, job, i)
    decreases |events|
  {
    var s := Initial(config, n);
    if events == [] {
      assert false;
    }
    var front, last := events[..|events| - 1], events[|events| - 1];
    assert events == front + [last];
    ChecksAtExtends(s, front, last, job);
    if last.JobChecks? && last.job == job && Enabled(Run(s, front), last) {
      i := |front|;
      assert ChecksAt(s, events, i, job);
      PartitionMembers(OutcomesAt(s, events, i, job), last.retry, last.fail, last.commits);
    } else {
      ListsStep(Run(s, front), last, job);
      i := HeldIsFromLastCheck(config, n, front, job);
      assert !ChecksAt(s, events, |front|, job);
    }
  }

  /** A row that changes by a write has become one of the written items. */
  lemma {:induction false} WrittenItem(rows: map<Key, TxRow>, items: seq<Item>, key: Key) returns (item: Item)
    requires key in rows && key in WriteChecks(rows, items) && WriteChecks(rows, items)[key] != rows[key]
    ensures item in items && item.key == key && item.row == WriteChecks(rows, items)[key]
    decreases |items|
  {
    var front, last := items[..|items| - 1], items[|items| - 1];
    WriteChecksKeeps(rows, front, key);
    if last.key == key && Undecided(WriteChecks(rows, front), key) {
      item := last;
    } else {
      item := WrittenItem(rows, front, key);
    }
  }

  lemma {:induction false} ConfigIsConstant(s: State, events: seq<Event>)
    ensures Run(s, events).config == s.config
    decreases |events|
  {
    if events != [] { ConfigIsConstant(s, events[..|events| - 1]); }
  }

  /** Only rows read in PREPARE are ever checked. */
  ghost predicate ReadsPrepared(s: State) {
    forall j | 0 <= j < |s.jobs| && s.jobs[j].Read? :: forall item <- s.jobs[j].batch :: item.row.status == Prepare
  }

  lemma {:induction false} RunReadsPrepared(config: Key -> Option<TxnConfig>, n: nat, events: seq<Event>)
    ensures ReadsPrepared(Run(Initial(config, n), events))
    decreases |events|
  {
    if events != [] { RunReadsPrepared(config, n, events[..|events| - 1]); }
  }

  /** Every outcome is explained by the answer that the check got for that row. */
  lemma OutcomeExplained(config: Key -> Option<TxnConfig>, n: nat, events: seq<Event>, i: nat, job: nat, item: Item) returns (m: nat)
    requires ChecksAt(Initial(config, n), events, i, job) && item in OutcomesAt(Initial(config, n), events, i, job)
    ensures var batch := Run(Initial(config, n), events[..i]).jobs[job].batch;
            && m < |batch| && m < |events[i].replies| && batch[m].key == item.key && batch[m].row.status == Prepare
            && Explained(item.row.status, config(item.key), events[i].replies[m], batch[m].row.checkCount)
  {
    var before := Run(Initial(config, n), events[..i]);
    RunReadsPrepared(config, n, events[..i]);
    ConfigIsConstant(Initial(config, n), events[..i]);
    var outcomes := OutcomesAt(Initial(config, n), events, i, job);
    m :| 0 <= m < |outcomes| && outcomes[m] == item;
    var read := before.jobs[job].batch[m];
    assert read in before.jobs[job].batch;
    StatusExactly(config(read.key), read.row, events[i].replies[m], events[i].times[m], item.row.status);
  }

  /** Only a user's call, which gives the status that it asked for, or a job's write decides a row. */
  lemma DecidersAre(s: State, e: Event, key: Key)
    requires Decides(s, e, key)
    ensures (e.UserDecides? && e.key == key) || (e.JobWrites? && !e.fault)
    ensures e.UserDecides? ==> Next(s, e).rows[key].status == if e.commit then Commit else Cancel
  {
  }

  /** In every run: if a job's write decides a row, then the row was in the batch of that job's last
      check, and the answer it got there explains the status: COMMITTED for Commit, CANCELED for Cancel,
      and for Fail no configuration, or no clear answer with no check-back left. */
  lemma JobDecidesAsAnswered(config: Key -> Option<TxnConfig>, n: nat, events: seq<Event>, e: Event, key: Key)
    returns (i: nat, m: nat)
    requires e.JobWrites? && Decides(Run(Initial(config, n), events), e, key)
    ensures LastCheck(Initial(config, n), events, i, e.job)
    ensures var batch := Run(Initial(config, n), events[..i]).jobs[e.job].batch;
            && m < |batch| && m < |events[i].replies| && batch[m].key == key && batch[m].row.status == Prepare
            && Explained(Next(Run(Initial(config, n), events), e).rows[key].status, config(key),
                         events[i].replies[m], batch[m].row.checkCount)
  {
    var s := Run(Initial(config, n), events);
    var lists := s.jobs[e.job].lists;
    i := HeldIsFromLastCheck(config, n, events, e.job);
    RestMembers(lists);
    var item := WrittenItem(s.rows, lists[0], key);
    m := OutcomeExplained(config, n, events, i, e.job, item);
  }
}
