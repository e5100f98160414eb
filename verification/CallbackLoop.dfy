/**
 The callback drain loop as a function of its environment: which pages it finds, what it has
 attempted after any number of iterations, and exactly when it ends.
 */
module CallbackLoop {
  import opened GoInt
  import opened Retry
  import opened CallbackLogs
  import opened CallbackDrain

  /** `remote(n, id)` is the business service's answer if the n-th call ever made is about log `id`,
      and `clock(n)` is the time read at that call. */
  datatype Environment = Environment(
    policies: Policies, remote: (nat, nat) -> Reply, clock: nat -> int, startTime: int, batchSize: nat)
  {
    /** Retry intervals are at least a millisecond and the clock is never before `startTime`. */
    ghost predicate Timely() {
      && (forall id :: Waits(policies(id)))
      && (forall n :: startTime <= clock(n) / MILLISECOND)
    }

    /** From the given call on, every call about one of the logs gets a response. */
    ghost predicate Responsive(from: nat, logs: set<nat>) {
      forall n, id | n >= from && id in logs :: remote(n, id) != NoResponse
    }

    /** From the given call on, the silent ones among the logs never respond and the others always do. */
    ghost predicate Steady(from: nat, logs: set<nat>, silent: set<nat>) {
      && silent <= logs
      && forall n, id | n >= from && id in logs :: remote(n, id) == NoResponse <==> id in silent
    }
  }

  /** Between two iterations: `calls` were ever made, `done` are those of this pass. */
  datatype LoopState = LoopState(table: Table, cursor: nat, calls: nat, done: seq<Attempt>)
  {
    ghost predicate Valid() { forall id | id in table :: id > 0 }
  }

  ghost function Page(env: Environment, s: LoopState): seq<Entry> {
    PageOf(s.table, env.startTime, s.cursor, env.batchSize)
  }

  /** The calls about a page, one by one. */
  function CallsOn(env: Environment, page: seq<Entry>, from: nat): (more: seq<Attempt>)
    ensures |more| == |page|
    ensures forall k | 0 <= k < |page| :: more[k] == Attempt(page[k].id, env.remote(from + k, page[k].id), env.clock(from + k))
  {
    seq(|page|, k requires 0 <= k < |page| => Attempt(page[k].id, env.remote(from + k, page[k].id), env.clock(from + k)))
  }

  /** One iteration: the calls of the page, the update, and the repository's cursor rule. */
  ghost function Iterate(env: Environment, s: LoopState): LoopState {
    var page := Page(env, s);
    var more := CallsOn(env, page, s.calls);
    LoopState(Replay(env.policies, s.table, more), NextCursor(page, env.batchSize), s.calls + |page|, s.done + more)
  }

  ghost function Loop(env: Environment, s: LoopState, k: nat): LoopState
    decreases k
  {
    if k == 0 then s else Loop(env, Iterate(env, s), k - 1)
  }

  ghost predicate EndsAfter(env: Environment, s: LoopState, k: nat) { Page(env, Loop(env, s, k)) == [] }

  /** The loop reaches an empty page. */
  ghost predicate Ends(env: Environment, s: LoopState) { exists k: nat :: EndsAfter(env, s, k) }

  function PassFrom(table: Table, calls: nat): LoopState { LoopState(table, 0, calls, []) }

  lemma {:induction false} LoopThenIterate(env: Environment, s: LoopState, k: nat)
    ensures Loop(env, s, k + 1) == Iterate(env, Loop(env, s, k))
    decreases k
  {
    if k > 0 { LoopThenIterate(env, Iterate(env, s), k - 1); }
  }

  lemma EndsLater(env: Environment, s: LoopState)
    requires Ends(env, Iterate(env, s))
    ensures Ends(env, s)
  {
    hide Iterate;
    var k: nat :| EndsAfter(env, Iterate(env, s), k);
    assert EndsAfter(env, s, k + 1);
  }

  lemma IterateIsValid(env: Environment, s: LoopState)
    requires s.Valid()
    ensures Iterate(env, s).Valid()
  {
    ReplayKeys(env.policies, s.table, CallsOn(env, Page(env, s), s.calls));
  }

  function Above(env: Environment, s: LoopState): set<nat> { ReadyAfter(s.table, env.startTime, s.cursor) }

  lemma NoPageExactly(env: Environment, s: LoopState)
    requires env.batchSize > 0
    ensures Page(env, s) == [] <==> Above(env, s) == {}
    ensures |Page(env, s)| == Min(env.batchSize, |Above(env, s)|)
  {
    PageLength(Page(env, s), s.table, env.startTime, s.cursor, env.batchSize);
  }

  // ----- what a pass has attempted -----

  /** The attempts `done` of a pass that began with `start` and has led to `table`: only logs ready
      at the beginning were attempted, a log is attempted again only after it gave no response, and
      exactly the answered logs have left the ready set. */
  ghost predicate Progress(policies: Policies, start: Table, table: Table, startTime: int, done: seq<Attempt>) {
    && table == Replay(policies, start, done)
    && AttemptedIds(done) <= Ready(start, startTime)
    && Ready(table, startTime) == Ready(start, startTime) - AnsweredIds(done)
    && forall i, j | 0 <= i < j < |done| && done[i].id == done[j].id :: done[i].reply == NoResponse
  }

  /** As long as every call got a response: ids were attempted in ascending order, and every log
      still ready lies beyond all of them and beyond the cursor. */
  ghost predicate Swept(table: Table, startTime: int, cursor: nat, done: seq<Attempt>) {
    && (forall a <- done :: a.reply != NoResponse)
    && (forall i, j | 0 <= i < j < |done| :: done[i].id < done[j].id)
    && (forall r | r in Ready(table, startTime) :: r > cursor && forall a <- done :: a.id < r)
  }

  /** Whatever the responses, no ready log at or below the cursor was passed over. */
  ghost predicate Passed(table: Table, startTime: int, cursor: nat, done: seq<Attempt>) {
    forall r | r in Ready(table, startTime) && r <= cursor :: r in AttemptedIds(done)
  }

  lemma PassedStep(table: Table, after: Table, startTime: int, cursor: nat, done: seq<Attempt>,
                   page: seq<Entry>, batchSize: nat, more: seq<Attempt>)
    requires Passed(table, startTime, cursor, done) && forall id | id in table :: id > 0
    requires IsPage(page, table, startTime, cursor, batchSize) && AttemptsOn(more, page)
    requires Ready(after, startTime) <= Ready(table, startTime)
    ensures Passed(after, startTime, NextCursor(page, batchSize), done + more)
  {
    forall r | r in Ready(after, startTime) && r <= NextCursor(page, batchSize) ensures r in AttemptedIds(done + more) {
      if r <= cursor {
        assert r in AttemptedIds(done);
      } else {
        assert page[|page| - 1] in page;
        assert r in Ids(page);
        var k :| 0 <= k < |page| && page[k].id == r;
        assert more[k] in done + more;
      }
    }
  }

  lemma ProgressStep(policies: Policies, start: Table, table: Table, startTime: int, done: seq<Attempt>,
                     page: seq<Entry>, cursor: nat, batchSize: nat, more: seq<Attempt>)
    requires Progress(policies, start, table, startTime, done)
    requires forall id :: Waits(policies(id))
    requires IsPage(page, table, startTime, cursor, batchSize) && AttemptsOn(more, page)
    requires forall a <- more :: startTime <= a.now / MILLISECOND
    ensures Progress(policies, start, Replay(policies, table, more), startTime, done + more)
  {
    ReplayConcat(policies, start, done, more);
    PageShrinksReady(policies, table, page, more, startTime);
    assert AnsweredIds(done + more) == AnsweredIds(done) + AnsweredIds(more);
    forall a | a in done + more ensures a.id in Ready(start, startTime) {
      if a in more {
        var i :| 0 <= i < |more| && more[i] == a;
        assert page[i] in page;
      } else {
        assert a.id in AttemptedIds(done);
      }
    }
    var all := done + more;
    forall i, j | 0 <= i < j < |all| && all[i].id == all[j].id ensures all[i].reply == NoResponse {
      if j >= |done| {
        assert page[j - |done|] in page;
        if i < |done| { assert all[i] in done && all[i].id !in AnsweredIds(done); }
      }
    }
  }

  lemma SweptStep(policies: Policies, start: Table, table: Table, startTime: int, done: seq<Attempt>,
                  page: seq<Entry>, cursor: nat, batchSize: nat, more: seq<Attempt>)
    requires Swept(table, startTime, cursor, done) && IsPage(page, table, startTime, cursor, batchSize)
    requires AttemptsOn(more, page) && page != [] && forall id | id in table :: id > 0
    requires forall a <- more :: a.reply != NoResponse
    requires Ready(Replay(policies, table, more), startTime) == Ready(table, startTime) - AnsweredIds(more)
    ensures Swept(Replay(policies, table, more), startTime, NextCursor(page, batchSize), done + more)
  {
    var after, all := Replay(policies, table, more), done + more;
    forall i | 0 <= i < |more| ensures more[i].id in AnsweredIds(more) && more[i].id in Ids(page) && more[i].id in Ready(table, startTime) {
      assert more[i] in more && page[i] in page;
    }
    forall i, j | 0 <= i < j < |all| ensures all[i].id < all[j].id {
      if i < |done| <= j { assert all[i] in done && all[j] == more[j - |done|]; }
    }
    forall r | r in Ready(after, startTime)
      ensures r > NextCursor(page, batchSize) && forall a <- all :: a.id < r
    {
      assert r in ReadyAfter(table, startTime, cursor);
      forall e | e in page ensures e.id in AnsweredIds(more) {
        var i :| 0 <= i < |page| && page[i] == e;
        assert more[i].id == e.id;
      }
      assert r !in Ids(page);
      assert page[|page| - 1] in page;
      ReplayKeys(policies, table, more);
      forall a | a in all ensures a.id < r {
        if a in more {
          var i :| 0 <= i < |more| && more[i] == a;
          assert page[i] in page;
        }
      }
    }
  }

  lemma ReadyShrinks(policies: Policies, before: Table, table: Table, startTime: int, done: seq<Attempt>, more: seq<Attempt>)
    requires Progress(policies, before, table, startTime, done)
    requires Progress(policies, before, Replay(policies, table, more), startTime, done + more)
    ensures Ready(Replay(policies, table, more), startTime) <= Ready(table, startTime)
  {
    assert AnsweredIds(done) <= AnsweredIds(done + more) by {
      assert forall a | a in done :: a in done + more;
    }
  }

  /** The logs that were ready were attempted, each exactly once and in ascending order of id, and
      none is left ready. */
  ghost predicate Drained(before: Table, table: Table, startTime: int, done: seq<Attempt>) {
    && (forall i, j | 0 <= i < j < |done| :: done[i].id < done[j].id)
    && AttemptedIds(done) == Ready(before, startTime)
    && Ready(table, startTime) == {}
  }

  /** An empty page ends the loop when every log that was ready has been attempted. */
  lemma AllAttempted(policies: Policies, before: Table, table: Table, startTime: int, cursor: nat, done: seq<Attempt>, batchSize: nat)
    requires IsPage([], table, startTime, cursor, batchSize) && batchSize > 0
    requires Progress(policies, before, table, startTime, done) && Passed(table, startTime, cursor, done)
    ensures AttemptedIds(done) == Ready(before, startTime)
  {
    assert forall r | r in ReadyAfter(table, startTime, cursor) :: r in Ids([]);
    assert forall r | r in Ready(table, startTime) :: r <= cursor || r in ReadyAfter(table, startTime, cursor);
    assert Ready(table, startTime) <= AttemptedIds(done);
    assert AnsweredIds(done) <= AttemptedIds(done);
    assert Ready(before, startTime) <= Ready(table, startTime) + AnsweredIds(done);
  }

  /** An empty page ends the loop; if every call got a response nothing is left ready. */
  lemma EmptyPageEnds(policies: Policies, before: Table, table: Table, startTime: int, cursor: nat, done: seq<Attempt>, batchSize: nat)
    requires IsPage([], table, startTime, cursor, batchSize) && batchSize > 0
    requires Progress(policies, before, table, startTime, done)
    ensures Swept(table, startTime, cursor, done) ==> Drained(before, table, startTime, done)
  {
    if Swept(table, startTime, cursor, done) {
      assert Ready(table, startTime) <= ReadyAfter(table, startTime, cursor);
      assert AnsweredIds(done) == AttemptedIds(done);
      assert Ready(table, startTime) == {} by {
        assert ReadyAfter(table, startTime, cursor) == {} by {
          assert forall r | r in ReadyAfter(table, startTime, cursor) :: r in Ids([]);
        }
      }
      forall r | r in Ready(before, startTime) ensures r in AnsweredIds(done) {
        assert r !in Ready(before, startTime) - AnsweredIds(done);
      }
      assert AttemptedIds(done) == Ready(before, startTime);
    }
  }

  lemma SmallerSet(a: set<nat>, b: set<nat>, x: nat)
    requires a <= b && x in b
    ensures x !in a ==> |a| < |b|
  {
    assert b == a + (b - a);
    if x !in a { assert x in b - a; }
  }

  /** What holds after any number of iterations of a pass. */
  ghost predicate Kept(env: Environment, before: Table, s: LoopState) {
    s.Valid() && Progress(env.policies, before, s.table, env.startTime, s.done) && Passed(s.table, env.startTime, s.cursor, s.done)
  }

  lemma IterateKeeps(env: Environment, before: Table, s: LoopState)
    requires env.Timely() && Kept(env, before, s)
    ensures Kept(env, before, Iterate(env, s))
  {
    var page := Page(env, s);
    var more := CallsOn(env, page, s.calls);
    IterateIsValid(env, s);
    ProgressStep(env.policies, before, s.table, env.startTime, s.done, page, s.cursor, env.batchSize, more);
    ReadyShrinks(env.policies, before, s.table, env.startTime, s.done, more);
    PassedStep(s.table, Iterate(env, s).table, env.startTime, s.cursor, s.done, page, env.batchSize, more);
  }

  lemma {:induction false} LoopKeeps(env: Environment, before: Table, s: LoopState, k: nat)
    requires env.Timely() && Kept(env, before, s)
    ensures Kept(env, before, Loop(env, s, k))
    decreases k
  {
    hide Iterate, Kept;
    if k > 0 {
      IterateKeeps(env, before, s);
      LoopKeeps(env, before, Iterate(env, s), k - 1);
    }
  }

  /** After any number of iterations, whatever was answered: only logs ready at the start were
      attempted, the answered ones are no longer ready, and when the loop ends every one of them has
      been attempted. */
  lemma PassAttempts(env: Environment, table: Table, calls: nat, k: nat)
    requires env.Timely() && PassFrom(table, calls).Valid()
    ensures Progress(env.policies, table, Loop(env, PassFrom(table, calls), k).table, env.startTime, Loop(env, PassFrom(table, calls), k).done)
    ensures env.batchSize > 0 && EndsAfter(env, PassFrom(table, calls), k) ==>
              AttemptedIds(Loop(env, PassFrom(table, calls), k).done) == Ready(table, env.startTime)
  {
    var s := PassFrom(table, calls);
    LoopKeeps(env, table, s, k);
    var t := Loop(env, s, k);
    if env.batchSize > 0 && EndsAfter(env, s, k) {
      AllAttempted(env.policies, table, t.table, env.startTime, t.cursor, t.done, env.batchSize);
    }
  }

  /** A sweep in which every call got a response so far. */
  ghost predicate Sweeping(env: Environment, before: Table, s: LoopState) {
    && Kept(env, before, s) && env.Responsive(s.calls, Ready(before, env.startTime))
    && Swept(s.table, env.startTime, s.cursor, s.done)
  }

  lemma IterateSweeps(env: Environment, before: Table, s: LoopState)
    requires env.Timely() && Sweeping(env, before, s) && Page(env, s) != []
    ensures Sweeping(env, before, Iterate(env, s))
  {
    var page := Page(env, s);
    var more := CallsOn(env, page, s.calls);
    IterateKeeps(env, before, s);
    AllAnswered(env, before, s);
    ReadyOnPage(env, s);
    PageShrinksReady(env.policies, s.table, page, more, env.startTime);
    hide Kept, Progress, Passed, Swept;
    SweptAgain(env, before, s);
  }

  lemma SweptAgain(env: Environment, before: Table, s: LoopState)
    requires Sweeping(env, before, s) && Page(env, s) != []
    requires forall a <- CallsOn(env, Page(env, s), s.calls) :: a.reply != NoResponse
    requires Ready(Iterate(env, s).table, env.startTime)
          == Ready(s.table, env.startTime) - AnsweredIds(CallsOn(env, Page(env, s), s.calls))
    ensures Swept(Iterate(env, s).table, env.startTime, Iterate(env, s).cursor, Iterate(env, s).done)
  {
    hide Swept, Progress, Passed;
    SweptStep(env.policies, before, s.table, env.startTime, s.done, Page(env, s), s.cursor, env.batchSize,
              CallsOn(env, Page(env, s), s.calls));
  }

  lemma ReadyOnPage(env: Environment, s: LoopState)
    ensures forall e <- Page(env, s) :: e.id in Ready(s.table, env.startTime)
  {
    forall e <- Page(env, s) ensures e.id in Ready(s.table, env.startTime) {}
  }

  lemma {:induction false} LoopSweeps(env: Environment, before: Table, s: LoopState, k: nat)
    requires env.Timely() && Sweeping(env, before, s)
    requires forall i: nat | i < k :: !EndsAfter(env, s, i)
    ensures Sweeping(env, before, Loop(env, s, k))
    decreases k
  {
    hide Iterate, Sweeping;
    if k > 0 {
      assert !EndsAfter(env, s, 0);
      IterateSweeps(env, before, s);
      assert forall i: nat :: EndsAfter(env, Iterate(env, s), i) == EndsAfter(env, s, i + 1);
      LoopSweeps(env, before, Iterate(env, s), k - 1);
    }
  }

  lemma AllAnswered(env: Environment, before: Table, s: LoopState)
    requires Kept(env, before, s) && env.Responsive(s.calls, Ready(before, env.startTime))
    ensures forall a <- CallsOn(env, Page(env, s), s.calls) :: a.reply != NoResponse
    ensures Ready(s.table, env.startTime) <= Ready(before, env.startTime)
  {
    var page := Page(env, s);
    assert Ready(s.table, env.startTime) <= Ready(before, env.startTime);
    forall k | 0 <= k < |page| ensures page[k].id in Ready(before, env.startTime) {
      assert page[k] in page && page[k].id in Ready(s.table, env.startTime);
    }
  }

  /** If every call gets a response, a pass that ends has attempted each ready log exactly once, by
      ascending id, and has left none ready. */
  lemma ResponsivePassDrains(env: Environment, table: Table, calls: nat, k: nat)
    requires env.Timely() && env.batchSize > 0 && PassFrom(table, calls).Valid()
    requires env.Responsive(calls, Ready(table, env.startTime))
    requires EndsAfter(env, PassFrom(table, calls), k) && forall i: nat | i < k :: !EndsAfter(env, PassFrom(table, calls), i)
    ensures Drained(table, Loop(env, PassFrom(table, calls), k).table, env.startTime, Loop(env, PassFrom(table, calls), k).done)
  {
    var s := PassFrom(table, calls);
    LoopKeeps(env, table, s, k);
    LoopSweeps(env, table, s, k);
    var t := Loop(env, s, k);
    EmptyPageEnds(env.policies, table, t.table, env.startTime, t.cursor, t.done, env.batchSize);
  }

  // ----- when the loop ends -----

  /** A full page leaves `batchSize` fewer logs above the cursor, whatever was answered. */
  lemma FullPage(env: Environment, s: LoopState)
    requires |Page(env, s)| == env.batchSize > 0
    ensures |Above(env, Iterate(env, s))| == |Above(env, s)| - env.batchSize
  {
    BeyondFullPage(env.policies, Page(env, s), s.table, env.startTime, s.cursor, env.batchSize, CallsOn(env, Page(env, s), s.calls));
  }

  lemma Remainder(n: nat, b: nat)
    requires n >= b > 0
    ensures (n - b) % b == n % b
  {
    ModShift(n, b, -1);
  }

  /** If the logs above the cursor fill whole pages, the loop ends, whatever is answered. */
  lemma {:induction false} FullPagesEnd(env: Environment, s: LoopState)
    requires env.batchSize > 0 && |Above(env, s)| % env.batchSize == 0
    ensures Ends(env, s)
    decreases |Above(env, s)|
  {
    NoPageExactly(env, s);
    if Above(env, s) == {} {
      assert EndsAfter(env, s, 0);
    } else {
      if |Above(env, s)| < env.batchSize { DivModUnique(|Above(env, s)|, env.batchSize, 0, |Above(env, s)|); }
      FullPage(env, s);
      Remainder(|Above(env, s)|, env.batchSize);
      FullPagesEnd(env, Iterate(env, s));
      EndsLater(env, s);
    }
  }

  /** In a pass over `ready` the silent logs stay ready, and they alone are ready behind the cursor. */
  ghost predicate Behind(env: Environment, s: LoopState, ready: set<nat>, silent: set<nat>) {
    && s.Valid() && silent <= Ready(s.table, env.startTime) <= ready
    && forall r | r in Ready(s.table, env.startTime) && r <= s.cursor :: r in silent
  }

  lemma BehindStep(env: Environment, s: LoopState, ready: set<nat>, silent: set<nat>)
    requires env.Timely() && env.Steady(s.calls, ready, silent) && Behind(env, s, ready, silent)
    ensures env.Steady(Iterate(env, s).calls, ready, silent) && Behind(env, Iterate(env, s), ready, silent)
    ensures |Page(env, s)| < env.batchSize ==> Above(env, Iterate(env, s)) == silent
  {
    var page, t := Page(env, s), Iterate(env, s);
    var more := CallsOn(env, page, s.calls);
    IterateIsValid(env, s);
    SteadyAnswers(env, s, ready, silent);
    PageLength(page, s.table, env.startTime, s.cursor, env.batchSize);
    forall r | r in Ready(t.table, env.startTime) && (r <= t.cursor || |page| < env.batchSize) ensures r in silent {
      if r > s.cursor {
        assert r in Above(env, s);
        assert r in Ids(page) by {
          if |page| == env.batchSize > 0 { assert page[|page| - 1] in page; }
        }
      }
    }
  }

  lemma SteadyAnswers(env: Environment, s: LoopState, ready: set<nat>, silent: set<nat>)
    requires env.Timely() && env.Steady(s.calls, ready, silent) && Behind(env, s, ready, silent)
    ensures Ready(Iterate(env, s).table, env.startTime) == Ready(s.table, env.startTime) - (Ids(Page(env, s)) - silent)
  {
    var page := Page(env, s);
    var more := CallsOn(env, page, s.calls);
    forall e <- page ensures e.id in Ready(s.table, env.startTime) {}
    PageShrinksReady(env.policies, s.table, page, more, env.startTime);
    forall k | 0 <= k < |page| ensures more[k].reply != NoResponse <==> page[k].id !in silent {
      assert page[k] in page;
    }
    assert AnsweredIds(more) <= Ids(page) - silent;
    forall id | id in Ids(page) - silent ensures id in AnsweredIds(more) {
      var k :| 0 <= k < |page| && page[k].id == id;
      assert more[k] in more;
    }
  }

  lemma {:induction false} LoopBehind(env: Environment, s: LoopState, ready: set<nat>, silent: set<nat>, k: nat)
    requires env.Timely() && env.Steady(s.calls, ready, silent) && Behind(env, s, ready, silent)
    ensures Behind(env, Loop(env, s, k), ready, silent)
    decreases k
  {
    hide Iterate, Behind, Environment.Steady, Environment.Timely;
    if k > 0 {
      BehindStep(env, s, ready, silent);
      LoopBehind(env, Iterate(env, s), ready, silent, k - 1);
    }
  }

  /** Where each ready log either always or never gets a response, a pass that ends leaves exactly
      the silent ones ready. */
  lemma SteadyPassLeaves(env: Environment, table: Table, calls: nat, silent: set<nat>, k: nat)
    requires env.batchSize > 0 && env.Timely() && PassFrom(table, calls).Valid()
    requires env.Steady(calls, Ready(table, env.startTime), silent) && EndsAfter(env, PassFrom(table, calls), k)
    ensures Ready(Loop(env, PassFrom(table, calls), k).table, env.startTime) == silent
  {
    var s, ready := PassFrom(table, calls), Ready(table, env.startTime);
    LoopBehind(env, s, ready, silent, k);
    var t := Loop(env, s, k);
    NoPageExactly(env, t);
    assert forall r | r in Ready(t.table, env.startTime) :: r <= t.cursor || r in Above(env, t);
  }

  lemma {:induction false} SilentPagesEnd(env: Environment, s: LoopState, ready: set<nat>, silent: set<nat>)
    requires env.batchSize > 0 && |silent| % env.batchSize == 0
    requires env.Timely() && env.Steady(s.calls, ready, silent) && Behind(env, s, ready, silent)
    ensures Ends(env, s)
    decreases |Above(env, s)|
  {
    NoPageExactly(env, s);
    if Above(env, s) == {} {
      assert EndsAfter(env, s, 0);
    } else {
      BehindStep(env, s, ready, silent);
      if |Page(env, s)| == env.batchSize {
        FullPage(env, s);
        SilentPagesEnd(env, Iterate(env, s), ready, silent);
      } else {
        FullPagesEnd(env, Iterate(env, s));
      }
      EndsLater(env, s);
    }
  }

  /** Every page, however many iterations have been made, holds a log. */
  lemma {:induction false} NeverEnds(env: Environment, s: LoopState, ready: set<nat>, silent: set<nat>, k: nat)
    requires env.batchSize > 0 && |silent| % env.batchSize != 0 && |Above(env, s)| % env.batchSize != 0
    requires env.Timely() && env.Steady(s.calls, ready, silent) && Behind(env, s, ready, silent)
    ensures !EndsAfter(env, s, k)
    decreases k
  {
    hide Iterate, Page, Above, Behind, Environment.Steady, Environment.Timely;
    NoPageExactly(env, s);
    if |Above(env, s)| == 0 { DivModUnique(0, env.batchSize, 0, 0); }
    if k > 0 {
      BehindStep(env, s, ready, silent);
      if |Page(env, s)| == env.batchSize {
        FullPage(env, s);
        Remainder(|Above(env, s)|, env.batchSize);
      } else {
        assert |Above(env, Iterate(env, s))| % env.batchSize != 0;
      }
      NeverEnds(env, Iterate(env, s), ready, silent, k - 1);
    }
  }

  /** Where each ready log either always or never gets a response, a pass ends if and only if the
      ready logs, or the silent ones among them, fill whole pages.  Otherwise it goes on for ever. */
  lemma PassEndsExactly(env: Environment, table: Table, calls: nat, silent: set<nat>)
    requires env.batchSize > 0 && env.Timely() && PassFrom(table, calls).Valid()
    requires env.Steady(calls, Ready(table, env.startTime), silent)
    ensures Ends(env, PassFrom(table, calls))
        <==> |Ready(table, env.startTime)| % env.batchSize == 0 || |silent| % env.batchSize == 0
  {
    var s, ready := PassFrom(table, calls), Ready(table, env.startTime);
    assert Above(env, s) == ready;
    if |ready| % env.batchSize == 0 {
      FullPagesEnd(env, s);
    } else if |silent| % env.batchSize == 0 {
      SilentPagesEnd(env, s, ready, silent);
    } else {
      forall k: nat ensures !EndsAfter(env, s, k) { NeverEnds(env, s, ready, silent, k); }
    }
  }

  /** If the logs respond from some call on, the pass ends, with any silence before that. */
  lemma {:induction false} ResponsiveEnds(env: Environment, before: Table, s: LoopState, from: nat)
    requires env.batchSize > 0 && env.Timely() && Kept(env, before, s)
    requires env.Responsive(from, Ready(before, env.startTime))
    ensures Ends(env, s)
    decreases Max(0, from - s.calls), |Ready(s.table, env.startTime)|
  {
    hide Iterate, Page, Kept, Environment.Timely, Ready, EndsAfter;
    if Page(env, s) == [] {
      EndsNow(env, s);
    } else {
      IterateKeeps(env, before, s);
      CallsGrow(env, s);
      if from <= s.calls { AnsweredPageShrinks(env, before, s); }
      ResponsiveEnds(env, before, Iterate(env, s), from);
      EndsLater(env, s);
    }
  }

  lemma EndsNow(env: Environment, s: LoopState)
    requires Page(env, s) == []
    ensures Ends(env, s)
  {
    assert EndsAfter(env, s, 0);
  }

  lemma CallsGrow(env: Environment, s: LoopState)
    ensures Iterate(env, s).calls == s.calls + |Page(env, s)|
  {
  }

  lemma AnsweredPageShrinks(env: Environment, before: Table, s: LoopState)
    requires env.Timely() && Kept(env, before, s) && env.Responsive(s.calls, Ready(before, env.startTime))
    requires Page(env, s) != []
    ensures |Ready(Iterate(env, s).table, env.startTime)| < |Ready(s.table, env.startTime)|
  {
    var page := Page(env, s);
    var more := CallsOn(env, page, s.calls);
    AllAnswered(env, before, s);
    forall e <- page ensures e.id in Ready(s.table, env.startTime) {}
    PageShrinksReady(env.policies, s.table, page, more, env.startTime);
    assert more[0] in more && page[0] in page && page[0].id in AnsweredIds(more);
    SmallerSet(Ready(s.table, env.startTime) - AnsweredIds(more), Ready(s.table, env.startTime), page[0].id);
  }

  /** What a caller can know beforehand and what suffices: an empty page size, ready logs that fill
      whole pages, responses from some call on, or silent logs that fill whole pages. */
  ghost predicate WillEnd(env: Environment, table: Table, calls: nat, from: nat, silent: set<nat>) {
    var ready := Ready(table, env.startTime);
    || env.batchSize == 0
    || |ready| % env.batchSize == 0
    || (env.Timely() && env.Responsive(from, ready))
    || (env.Timely() && env.Steady(calls, ready, silent) && |silent| % env.batchSize == 0)
  }

  lemma PassEnds(env: Environment, table: Table, calls: nat, from: nat, silent: set<nat>)
    requires PassFrom(table, calls).Valid() && WillEnd(env, table, calls, from, silent)
    ensures Ends(env, PassFrom(table, calls))
  {
    var s, ready := PassFrom(table, calls), Ready(table, env.startTime);
    assert Above(env, s) == ready;
    if env.batchSize == 0 {
      assert EndsAfter(env, s, 0);
    } else if |ready| % env.batchSize == 0 {
      FullPagesEnd(env, s);
    } else if env.Timely() && env.Responsive(from, ready) {
      ResponsiveEnds(env, table, s, from);
    } else {
      PassEndsExactly(env, table, calls, silent);
    }
  }
}
