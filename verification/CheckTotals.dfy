/**
 The work of the check-back job over a whole run: how many questions it asks about all rows together,
 and how many batches it takes for them.
 */
module CheckTotals {
  import opened Domain
  import opened GoInt
  import opened Wrappers
  import opened TxDecision
  import opened CheckBound

  ghost function Total(m: map<Key, nat>): nat
    decreases |m|
  {
    if m == map[] then 0 else var key :| key in m; m[key] + Total(m - {key})
  }

  lemma {:induction false} TotalSplits(m: map<Key, nat>, key: Key)
    requires key in m
    ensures Total(m) == m[key] + Total(m - {key})
    decreases |m|
  {
    var k :| k in m && Total(m) == m[k] + Total(m - {k});
    if k != key {
      TotalSplits(m - {k}, key);
      TotalSplits(m - {key}, k);
      assert m - {k} - {key} == m - {key} - {k};
    }
  }

  lemma {:induction false} TotalBumps(m: map<Key, nat>, keys: set<Key>)
    ensures Total(Bump(m, keys)) == Total(m) + |keys|
    decreases |keys|
  {
    hide Bump, Total;
    if keys == {} {
      BumpNone(m);
    } else {
      var key :| key in keys;
      TotalBumps(m, keys - {key});
      BumpOne(Bump(m, keys - {key}), key);
      BumpLast(m, keys, key);
      assert |keys - {key}| == |keys| - 1;
    }
  }

  lemma BumpNone(m: map<Key, nat>)
    ensures Bump(m, {}) == m
  {
  }

  lemma BumpLast(m: map<Key, nat>, keys: set<Key>, key: Key)
    requires key in keys
    ensures Bump(Bump(m, keys - {key}), {key}) == Bump(m, keys)
  {
    var a, b := Bump(Bump(m, keys - {key}), {key}), Bump(m, keys);
    assert a.Keys == b.Keys;
    forall k | k in a ensures a[k] == b[k] {}
  }

  lemma BumpOne(m: map<Key, nat>, key: Key)
    ensures Total(Bump(m, {key})) == Total(m) + 1
  {
    var more := Bump(m, {key});
    TotalSplits(more, key);
    if key in m {
      TotalSplits(m, key);
      assert more - {key} == m - {key};
    } else {
      assert more - {key} == m;
    }
  }

  lemma {:induction false} TotalAtMost(a: map<Key, nat>, b: map<Key, nat>, c: map<Key, nat>)
    requires forall key :: Count(a, key) <= Count(b, key) + Count(c, key)
    ensures Total(a) <= Total(b) + Total(c)
    decreases |a|
  {
    if a != map[] {
      var key :| key in a && Total(a) == a[key] + Total(a - {key});
      CountSplits(b, key);
      CountSplits(c, key);
      assert forall k :: Count(a - {key}, k) <= Count(b - {key}, k) + Count(c - {key}, k) by {
        assert forall k :: k != key ==> Count(a - {key}, k) == Count(a, k);
        assert forall k :: k != key ==> Count(b - {key}, k) == Count(b, k);
        assert forall k :: k != key ==> Count(c - {key}, k) == Count(c, k);
      }
      TotalAtMost(a - {key}, b - {key}, c - {key});
    }
  }

  lemma CountSplits(m: map<Key, nat>, key: Key)
    ensures Total(m) == Count(m, key) + Total(m - {key})
  {
    if key in m { TotalSplits(m, key); } else { assert m - {key} == m; }
  }

  /** The batches about which the business services were asked anything. */
  function Batches(s: State, events: seq<Event>): nat
    decreases |events|
  {
    if events == [] then 0
    else
      var front, last := events[..|events| - 1], events[|events| - 1];
      Batches(s, front) + if AsksAnything(Run(s, front), last) then 1 else 0
  }

  predicate AsksAnything(s: State, e: Event) {
    e.JobChecks? && Enabled(s, e) && Asked(s.config, s.jobs[e.job].batch) != {}
  }

  /** What every inserted row may cost, for the businesses that can be asked. */
  function Budget(config: Key -> Option<TxnConfig>, born: map<Key, int>): map<Key, nat> {
    map key | key in born && Bounded(config(key)) :: Bound(config(key), born[key])
  }

  lemma ChecksStepAdds(s: State, e: Event)
    ensures Next(s, e).config == s.config
    ensures Total(Next(s, e).checks) >= Total(s.checks) + if AsksAnything(s, e) then 1 else 0
    ensures forall key | s.config(key).None? :: Count(Next(s, e).checks, key) == Count(s.checks, key)
  {
    hide Total;
    if Enabled(s, e) && e.JobChecks? { TotalBumps(s.checks, Asked(s.config, s.jobs[e.job].batch)); }
  }

  lemma {:induction false} ChecksAddUp(s: State, events: seq<Event>)
    ensures Run(s, events).config == s.config
    ensures Batches(s, events) + Total(s.checks) <= Total(Run(s, events).checks)
    ensures forall key | s.config(key).None? :: Count(Run(s, events).checks, key) == Count(s.checks, key)
    decreases |events|
  {
    hide Next, Total, AsksAnything, Count;
    if events != [] {
      var front, last := events[..|events| - 1], events[|events| - 1];
      ChecksAddUp(s, front);
      ChecksStepAdds(Run(s, front), last);
    }
  }

  /** In every run with one job, whatever users do: all questions together, and so all batches with a
      question, are at most the budgets of the inserted rows together, plus the lost writes.  The job
      comes to rest. */
  lemma BatchesAreBounded(config: Key -> Option<TxnConfig>, events: seq<Event>)
    requires forall key | config(key).Some? :: Bounded(config(key)) && AdmissibleRun(Initial(config, 1), events, key)
    ensures var s := Run(Initial(config, 1), events);
            && Total(s.checks) <= Total(Budget(config, s.born)) + Total(s.lost)
            && Batches(Initial(config, 1), events) <= Total(s.checks)
  {
    var s0, s := Initial(config, 1), Run(Initial(config, 1), events);
    ChecksAddUp(s0, events);
    forall key ensures Count(s.checks, key) <= Count(Budget(config, s.born), key) + Count(s.lost, key) {
      if config(key).Some? { RunAccounted(s0, events, key); }
    }
    TotalAtMost(s.checks, Budget(config, s.born), s.lost);
  }
}
