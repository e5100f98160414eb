/**
 `SendCallback` in imperative form.  The business service and the clock are arbitrary: an answer may
 depend on how many calls were made before and on the log it is about.
 */
module CallbackService {
  import opened GoInt
  import opened Retry
  import opened Wrappers
  import opened CallbackLogs
  import opened CallbackDrain
  import opened CallbackLoop

  lemma {:induction false} SelectedPage(policies: Policies, start: Table, saved: seq<Attempt>, more: seq<Attempt>)
    requires Selected(policies, start, saved)
    requires forall i | 0 <= i < |more| :: more[i].id in Replay(policies, start, saved)
                                       && Replay(policies, start, saved)[more[i].id].status == Pending
    requires forall i, j | 0 <= i < j < |more| :: more[i].id < more[j].id
    ensures Selected(policies, start, saved + more)
    decreases |more|
  {
    hide Replay;
    if more == [] {
      assert saved + more == saved;
    } else {
      var front := more[..|more| - 1];
      assert (saved + more)[..|saved + more| - 1] == saved + front;
      SelectedPage(policies, start, saved, front);
      ReplayConcat(policies, start, saved, front);
      ReplayElsewhere(policies, Replay(policies, start, saved), front, more[|more| - 1].id);
    }
  }

  /** A page under construction: the ids taken so far are the smallest, in order. */
  ghost predicate Collected(page: seq<Entry>, todo: set<nat>, ready: set<nat>, table: Table) {
    && (forall i, j | 0 <= i < j < |page| :: page[i].id < page[j].id)
    && (forall e <- page :: e.id in ready && e.id in table && e.log == table[e.id])
    && todo <= ready
    && (forall r | r in ready :: r in todo || r in Ids(page))
    && (forall r, e | r in todo && e in page :: e.id < r)
  }

  lemma CollectStep(page: seq<Entry>, todo: set<nat>, ready: set<nat>, table: Table, id: nat)
    requires Collected(page, todo, ready, table) && IsLeast(todo, id) && id in table
    ensures Collected(page + [Entry(id, table[id])], todo - {id}, ready, table)
  {
    var entry := Entry(id, table[id]);
    assert forall i | 0 <= i < |page| :: page[i] in page;
    assert Ids(page + [entry]) == Ids(page) + {id} by { assert (page + [entry])[|page|] == entry; }
  }

  lemma SaveAppend(table: Table, updates: seq<Entry>, e: Entry)
    ensures Save(table, updates + [e]) == Save(table, updates)[e.id := e.log]
  {
    assert (updates + [e])[..|updates|] == updates;
  }

  lemma ReplayAppend(policies: Policies, table: Table, more: seq<Attempt>, a: Attempt)
    ensures Replay(policies, table, more + [a]) == Step(policies, Replay(policies, table, more), a)
  {
    assert (more + [a])[..|more|] == more;
  }

  lemma SavesNothing(policies: Policies, table: Table)
    ensures Save(table, []) == Replay(policies, table, []) == table
  {
  }

  /** Collecting one more answered log is saving one more attempt. */
  lemma SaveStep(policies: Policies, table: Table, updates: seq<Entry>, more: seq<Attempt>, entry: Entry, a: Attempt)
    requires Save(table, updates) == Replay(policies, table, more)
    requires entry.id in table && entry.log == table[entry.id] && a.id == entry.id
    requires forall i | 0 <= i < |more| :: more[i].id != entry.id
    ensures Save(table, updates + [Entry(entry.id, Answered(policies(entry.id), entry.log, a.reply, a.now))])
         == Replay(policies, table, more + [a])
    ensures a.reply == NoResponse ==> Save(table, updates) == Replay(policies, table, more + [a])
  {
    ReplayElsewhere(policies, table, more, entry.id);
    SaveAppend(table, updates, Entry(entry.id, Answered(policies(entry.id), entry.log, a.reply, a.now)));
    ReplayAppend(policies, table, more, a);
  }

  // ----- the service -----

  class CallbackService {
    var table: Table
    var calls: nat
    const policies: Policies
    const remote: (nat, nat) -> Reply
    const clock: nat -> int
    ghost const start: Table
    ghost var saved: seq<Attempt>
    /** How many database statements have failed. */
    ghost var faults: nat

    /** Over any number of passes the table is the replay of the saved attempts, each of which was on
        a PENDING log: the theorems of `CallbackLogs` apply to it. */
    ghost predicate Valid() reads this {
      && (forall id | id in start :: id > 0)
      && table == Replay(policies, start, saved) && Selected(policies, start, saved)
    }

    constructor (table: Table, policies: Policies, remote: (nat, nat) -> Reply, clock: nat -> int)
      requires forall id | id in table :: id > 0
      ensures Valid() && this.table == this.start == table && calls == 0 && saved == [] && faults == 0
      ensures this.policies == policies && this.remote == remote && this.clock == clock
    {
      this.table, this.policies, this.remote, this.clock := table, policies, remote, clock;
      start, calls, saved, faults := table, 0, [], 0;
    }

    ghost function Env(startTime: int, batchSize: nat): Environment {
      Environment(policies, remote, clock, startTime, batchSize)
    }

    /** The query and the repository's cursor rule. */
    method Find(startTime: int, batchSize: nat, startID: nat) returns (page: seq<Entry>, nextStartID: nat)
      ensures IsPage(page, table, startTime, startID, batchSize)
      ensures nextStartID == NextCursor(page, batchSize)
    {
      var todo := ReadyAfter(table, startTime, startID);
      page := [];
      while |page| < batchSize && todo != {}
        invariant |page| <= batchSize && Collected(page, todo, ReadyAfter(table, startTime, startID), table)
        decreases todo
      {
        LeastExists(todo);
        ghost var least :| IsLeast(todo, least);
        var id :| id in todo && forall x | x in todo :: id <= x;
        CollectStep(page, todo, ReadyAfter(table, startTime, startID), table, id);
        page, todo := page + [Entry(id, table[id])], todo - {id};
      }
      nextStartID := 0;
      if |page| > 0 { nextStartID := page[|page| - 1].id; }
      if |page| < batchSize { nextStartID := 0; }
    }

    /** Call the business for one log and set the log's fields; an error leaves it alone. */
    method SendCallbackAndSetChangedFields(entry: Entry) returns (updated: Entry, changed: bool, ghost attempt: Attempt)
      modifies this`calls
      ensures calls == old(calls) + 1
      ensures attempt == Attempt(entry.id, remote(old(calls), entry.id), clock(old(calls)))
      ensures updated == Entry(entry.id, Answered(policies(entry.id), entry.log, attempt.reply, attempt.now))
      ensures changed <==> attempt.reply != NoResponse
      ensures updated.id == entry.id
      ensures attempt.reply == NoResponse ==> updated.log == entry.log
      ensures attempt.reply == Accepted ==> updated.log == entry.log.(status := Succeeded)
      ensures attempt.reply == Refused ==>
                var next := NextInterval(policies(entry.id), Wrap32(entry.log.retryCount));
                if next.None? then updated.log == entry.log.(status := Failed)
                else && updated.log == entry.log.(retryCount := entry.log.retryCount + 1, nextRetryTime := updated.log.nextRetryTime)
                     && 0 <= attempt.now + next.value - 1_000_000 * updated.log.nextRetryTime < 1_000_000
    {
      var reply, now := remote(calls, entry.id), clock(calls);
      attempt := Attempt(entry.id, reply, now);
      calls := calls + 1;
      updated := entry;
      if reply == NoResponse { return updated, false, attempt; }
      if reply == Accepted {
        updated := updated.(log := updated.log.(status := Succeeded));
        return updated, true, attempt;
      }
      var next := NextInterval(policies(entry.id), Wrap32(entry.log.retryCount));
      if next.Some? {
        updated := updated.(log := updated.log.(nextRetryTime := MilliAfter(now, next.value)));
        updated := updated.(log := updated.log.(retryCount := updated.log.retryCount + 1));
      } else {
        updated := updated.(log := updated.log.(status := Failed));
      }
      return updated, true, attempt;
    }

    /** The calls of one page, one by one, collecting what has to be written. */
    method CallPage(page: seq<Entry>, ghost env: Environment) returns (needUpdate: seq<Entry>)
      requires env == Env(env.startTime, env.batchSize)
      requires forall i, j | 0 <= i < j < |page| :: page[i].id < page[j].id
      requires forall e <- page :: e.id in table && e.log == table[e.id]
      modifies this`calls
      ensures calls == old(calls) + |page|
      ensures Save(table, needUpdate) == Replay(policies, table, CallsOn(env, page, old(calls)))
    {
      hide Replay, Save, Answered;
      SavesNothing(policies, table);
      needUpdate := [];
      ghost var more, all := [], CallsOn(env, page, calls);
      for i := 0 to |page|
        invariant calls == old(calls) + i && more == all[..i]
        invariant Save(table, needUpdate) == Replay(policies, table, more)
      {
        assert page[i] in page;
        var updated, changed, attempt := SendCallbackAndSetChangedFields(page[i]);
        SaveStep(policies, table, needUpdate, more, page[i], attempt);
        if changed {
          needUpdate := needUpdate + [updated];
        }
        assert all[..i + 1] == all[..i] + [attempt];
        more := more + [attempt];
      }
      assert more == all;
    }

    /** One transaction; a database error writes nothing. */
    method Update(updates: seq<Entry>, ghost more: seq<Attempt>) returns (ok: bool)
      requires Valid() && Save(table, updates) == Replay(policies, table, more)
      requires Selected(policies, start, saved + more)
      modifies this`table, this`saved, this`faults
      ensures Valid() && (ok || updates != [])
      ensures faults == if ok then old(faults) else old(faults) + 1
      ensures table == if ok then Replay(policies, old(table), more) else old(table)
      ensures saved == if ok then old(saved) + more else old(saved)
    {
      if |updates| > 0 {
        var fault: bool := *;
        if fault {
          faults := faults + 1;
          return false;
        }
      }
      var next := table;
      for i := 0 to |updates|
        invariant next == Save(table, updates[..i])
      {
        assert updates[..i + 1][..i] == updates[..i];
        next := next[updates[i].id := updates[i].log];
      }
      assert updates[..|updates|] == updates;
      ReplayConcat(policies, start, saved, more);
      table, saved := next, saved + more;
      return true;
    }

    /** One iteration on a page that is not empty. */
    method DrainPage(page: seq<Entry>, ghost env: Environment, ghost s: LoopState) returns (ok: bool, ghost more: seq<Attempt>)
      requires Valid() && env == Env(env.startTime, env.batchSize)
      requires s.table == table && s.calls == calls && page == Page(env, s) && page != []
      modifies this
      ensures Valid() && more == CallsOn(env, page, old(calls)) && calls == old(calls) + |page|
      ensures saved == if ok then old(saved) + more else old(saved)
      ensures faults == if ok then old(faults) else old(faults) + 1
      ensures table == if ok then Iterate(env, s).table else old(table)
    {
      hide Replay, Selected, Save, IsPage;
      more := CallsOn(env, page, calls);
      SelectedOnPage(env, s, start, saved, page, more);
      var needUpdate := CallPage(page, env);
      ok := Update(needUpdate, more);
    }

    /**
     The drain loop.  It makes the iterations of `Loop` one after the other and ends at the first
     empty page, or with an error after a database statement that failed.  It terminates whenever
     `WillEnd` says so beforehand.  A pass that ends without an error has attempted every log that was
     ready, and no other; if every call got a response, each exactly once, by ascending id, and none
     is left ready; if the silent logs never respond, exactly they are.
     */
    method SendCallback(startTime: int, batchSize: nat, ghost from: nat, ghost silent: set<nat>)
      returns (ok: bool, ghost done: seq<Attempt>, ghost rounds: nat)
      requires Valid() && WillEnd(Env(startTime, batchSize), table, calls, from, silent)
      modifies this
      ensures Valid() && saved == old(saved) + done
      ensures faults == if ok then old(faults) else old(faults) + 1
      ensures Ran(Env(startTime, batchSize), PassFrom(old(table), old(calls)), rounds, table, done)
      ensures ok ==> EndsAfter(Env(startTime, batchSize), PassFrom(old(table), old(calls)), rounds)
      ensures Env(startTime, batchSize).Timely() ==> Progress(policies, old(table), table, startTime, done)
      ensures ok && batchSize > 0 && Env(startTime, batchSize).Timely() ==>
                PassDone(Env(startTime, batchSize), old(table), old(calls), silent, table, done)
    {
      hide Loop, EndsAfter, Ends, Iterate, Page, IsPage, Progress, Ran, PassDone, WillEnd, Replay, Selected, NextCursor, CallsOn;
      ghost var env := Env(startTime, batchSize);
      ghost var before, first := table, PassFrom(table, calls);
      var nextStartID: nat := 0;
      done, rounds := [], 0;
      PassBegins(env, start, saved, table, calls, policies);
      PassEnds(env, table, calls, from, silent);
      ghost var left;
      left := FirstEnd(env, first);
      while true
        invariant Valid() && saved == old(saved) + done && faults == old(faults)
        invariant LoopState(table, nextStartID, calls, done) == Loop(env, first, rounds)
        invariant rounds <= left && EndsAfter(env, first, left)
        invariant forall i: nat | i < left :: !EndsAfter(env, first, i)
        decreases left - rounds
      {
        var queryFault: bool := *;
        if queryFault {
          faults := faults + 1;
          ok := false;
          break;
        }
        ghost var s := Loop(env, first, rounds);
        var page, newNextStartID := Find(startTime, batchSize, nextStartID);
        PageIsTheOne(env, s, page);
        NotYet(env, first, rounds);
        if |page| == 0 {
          ok := true;
          break;
        }
        ghost var more;
        ok, more := DrainPage(page, env, s);
        if !ok {
          break;
        }
        Regroup(old(saved), done, more);
        LoopThenIterate(env, first, rounds);
        IterateIs(env, s, page, more);
        done := done + more;
        nextStartID := newNextStartID;
        rounds := rounds + 1;
      }
      RanIs(env, first, rounds, table, done);
      PassResults(env, before, old(calls), silent, rounds, table, done);
    }
  }

  /** The table and the attempts are those after that many iterations, none of them on an empty page. */
  ghost predicate Ran(env: Environment, first: LoopState, rounds: nat, table: Table, done: seq<Attempt>) {
    && table == Loop(env, first, rounds).table && done == Loop(env, first, rounds).done
    && forall i: nat | i < rounds :: !EndsAfter(env, first, i)
  }

  /** What a pass that ends has achieved. */
  ghost predicate PassDone(env: Environment, before: Table, calls: nat, silent: set<nat>, table: Table, done: seq<Attempt>) {
    var ready := Ready(before, env.startTime);
    && AttemptedIds(done) == ready
    && (env.Responsive(calls, ready) ==> Drained(before, table, env.startTime, done))
    && (env.Steady(calls, ready, silent) ==> Ready(table, env.startTime) == silent)
  }

  lemma RanIs(env: Environment, first: LoopState, rounds: nat, table: Table, done: seq<Attempt>)
    requires table == Loop(env, first, rounds).table && done == Loop(env, first, rounds).done
    requires forall i: nat | i < rounds :: !EndsAfter(env, first, i)
    ensures Ran(env, first, rounds, table, done)
  {
  }

  lemma PassResults(env: Environment, before: Table, calls: nat, silent: set<nat>, rounds: nat, table: Table, done: seq<Attempt>)
    requires PassFrom(before, calls).Valid() && Ran(env, PassFrom(before, calls), rounds, table, done)
    ensures env.Timely() ==> Progress(env.policies, before, table, env.startTime, done)
    ensures env.Timely() && env.batchSize > 0 && EndsAfter(env, PassFrom(before, calls), rounds) ==>
              PassDone(env, before, calls, silent, table, done)
  {
    hide Progress, Drained, EndsAfter, LoopState.Valid, Loop, Environment.Timely, Environment.Responsive, Environment.Steady;
    if env.Timely() {
      PassAttempts(env, before, calls, rounds);
      if env.batchSize > 0 && EndsAfter(env, PassFrom(before, calls), rounds) {
        if env.Responsive(calls, Ready(before, env.startTime)) { ResponsivePassDrains(env, before, calls, rounds); }
        if env.Steady(calls, Ready(before, env.startTime), silent) { SteadyPassLeaves(env, before, calls, silent, rounds); }
      }
    }
  }

  lemma PassBegins(env: Environment, start: Table, saved: seq<Attempt>, table: Table, calls: nat, policies: Policies)
    requires table == Replay(policies, start, saved) && forall id | id in start :: id > 0
    ensures PassFrom(table, calls).Valid()
    ensures Loop(env, PassFrom(table, calls), 0) == LoopState(table, 0, calls, [])
  {
    ReplayKeys(policies, start, saved);
  }

  lemma FirstEnd(env: Environment, s: LoopState) returns (k: nat)
    requires Ends(env, s)
    ensures EndsAfter(env, s, k) && forall i: nat | i < k :: !EndsAfter(env, s, i)
  {
    hide EndsAfter;
    var some: nat :| EndsAfter(env, s, some);
    k := FirstEndFrom(env, s, some);
  }

  lemma {:induction false} FirstEndFrom(env: Environment, s: LoopState, some: nat) returns (k: nat)
    requires EndsAfter(env, s, some)
    ensures EndsAfter(env, s, k) && forall i: nat | i < k :: !EndsAfter(env, s, i)
    decreases some
  {
    hide EndsAfter;
    k := some;
    if i: nat :| i < some && EndsAfter(env, s, i) {
      k := FirstEndFrom(env, s, i);
    }
  }

  lemma PageIsTheOne(env: Environment, s: LoopState, page: seq<Entry>)
    requires IsPage(page, s.table, env.startTime, s.cursor, env.batchSize)
    ensures page == Page(env, s)
  {
    PageUnique(page, Page(env, s), s.table, env.startTime, s.cursor, env.batchSize);
  }

  lemma NotYet(env: Environment, first: LoopState, rounds: nat)
    ensures EndsAfter(env, first, rounds) <==> |Page(env, Loop(env, first, rounds))| == 0
  {
  }

  lemma IterateIs(env: Environment, s: LoopState, page: seq<Entry>, more: seq<Attempt>)
    requires page == Page(env, s) && more == CallsOn(env, page, s.calls)
    ensures Iterate(env, s) == LoopState(Iterate(env, s).table, NextCursor(page, env.batchSize), s.calls + |page|, s.done + more)
  {
  }

  lemma SelectedOnPage(env: Environment, s: LoopState, start: Table, saved: seq<Attempt>, page: seq<Entry>, more: seq<Attempt>)
    requires s.table == Replay(env.policies, start, saved) && Selected(env.policies, start, saved)
    requires page == Page(env, s) && more == CallsOn(env, page, s.calls)
    ensures Selected(env.policies, start, saved + more)
    ensures forall e <- page :: e.id in s.table && e.log == s.table[e.id]
    ensures forall i, j | 0 <= i < j < |page| :: page[i].id < page[j].id
  {
    forall e <- page ensures e.id in s.table && s.table[e.id].status == Pending && e.log == s.table[e.id] {}
    assert forall i | 0 <= i < |page| :: page[i] in page;
    SelectedPage(env.policies, start, saved, more);
  }

  lemma Regroup<T>(a: seq<T>, b: seq<T>, c: seq<T>)
    ensures (a + b) + c == a + (b + c)
  {
  }
}
