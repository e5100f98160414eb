/**
 The main results on the resend protocol over whole runs: exclusion and single delivery, each with its
 exact condition.
 */
module ResendSafety {
  import opened Wrappers
  import opened ResendProtocol

  /** Mutual exclusion, exactly: over a whole run at most one call is ever between obtaining the
      right to send and writing its result if and only if no swap succeeds under the creator. */
  lemma ExclusionExactly(n: nat, events: seq<Event>)
    ensures (forall k | 0 <= k <= |events| :: AtMostOneInFlight(Run(Initial(n), events[..k])))
        <==> NoSwapUnderCreator(Initial(n), events)
  {
    var s := Initial(n);
    if NoSwapUnderCreator(s, events) {
      forall k | 0 <= k <= |events| ensures AtMostOneInFlight(Run(s, events[..k])) {
        assert forall j | 0 <= j < k :: events[..k][..j] == events[..j];
        RunExclusive(s, events[..k]);
      }
    } else {
      var k :| 0 <= k < |events| && SwapsUnderCreator(Run(s, events[..k]), events[k]);
      assert events[..k + 1][..k] == events[..k];
      var before := Run(s, events[..k]);
      var c :| 0 <= c < |before.calls| && before.calls[c].Creating();
      assert Run(s, events[..k + 1]) == Next(before, events[k]);
      assert !AtMostOneInFlight(Next(before, events[k])) by {
        assert Next(before, events[k]).calls[c].InFlight() && Next(before, events[k]).calls[events[k].call].InFlight();
      }
    }
  }

  lemma SafeDeliversOnce(s: State)
    requires Single(s) || Closed(s, s.confirmed)
    ensures s.confirmed <= 1
  {
    if !Closed(s, s.confirmed) && !NobodyInFlight(s) {
      var i :| 0 <= i < |s.calls| && s.calls[i].InFlight();
      assert s.calls[i].ReadyToSend? || s.calls[i].ReadyToMark?;
    }
  }

  /** Single delivery: without a dangerous swap the creator and all retriers together get at most one
      delivery confirmed.  As long as the channel is honest, that is all that arrives. */
  lemma DeliversAtMostOnce(n: nat, events: seq<Event>)
    requires NoDangerousSwap(Initial(n), events)
    ensures Run(Initial(n), events).confirmed <= 1
    ensures Run(Initial(n), events).Honest() ==> Run(Initial(n), events).arrived <= 1
    ensures NoSwapUnderCreator(Initial(n), events) ==> AtMostOneInFlight(Run(Initial(n), events))
  {
    RunSafe(Initial(n), events);
    SafeDeliversOnce(Run(Initial(n), events));
    if NoSwapUnderCreator(Initial(n), events) { RunExclusive(Initial(n), events); }
  }

  /** From here on the insertion version is gone, so every continuation is safe. */
  lemma {:induction false} RetiredIsSafe(s: State, events: seq<Event>)
    requires (Single(s) || Closed(s, s.confirmed)) && s.row.Some? && s.row.value.version > INSERTED.version
    ensures Single(Run(s, events)) || Closed(Run(s, events), Run(s, events).confirmed)
    decreases |events|
  {
    if events != [] {
      var front, last := events[..|events| - 1], events[|events| - 1];
      RetiredIsSafe(s, front);
      VersionGrows(s, front);
      if Dangerous(Run(s, front), last) { DangerIsOnTheFirstVersion(Run(s, front), last); }
      NextSafe(Run(s, front), last);
    }
  }

  lemma {:induction false} RetiredIsExclusive(s: State, events: seq<Event>)
    requires Exclusive(s) && s.row.Some? && s.row.value.version > INSERTED.version
    ensures Exclusive(Run(s, events))
    decreases |events|
  {
    if events != [] {
      var front := events[..|events| - 1];
      RetiredIsExclusive(s, front);
      VersionGrows(s, front);
      NextExclusive(Run(s, front), events[|events| - 1]);
    }
  }

  /** Once a mark or a swap has retired the insertion version, nothing more is asked of the
      environment: every continuation, with stale readers from before included, keeps both
      guarantees. */
  lemma SafeOnceCreatorHasMarked(n: nat, past: seq<Event>, future: seq<Event>)
    requires Run(Initial(n), past).row.Some? && Run(Initial(n), past).row.value.version > INSERTED.version
    ensures NoDangerousSwap(Initial(n), past) ==> Run(Initial(n), past + future).confirmed <= 1
    ensures NoDangerousSwap(Initial(n), past) && Run(Initial(n), past + future).Honest() ==>
              Run(Initial(n), past + future).arrived <= 1
    ensures NoSwapUnderCreator(Initial(n), past) ==> AtMostOneInFlight(Run(Initial(n), past + future))
  {
    RunConcat(Initial(n), past, future);
    if NoDangerousSwap(Initial(n), past) {
      RunSafe(Initial(n), past);
      RetiredIsSafe(Run(Initial(n), past), future);
      SafeDeliversOnce(Run(Initial(n), past + future));
    }
    if NoSwapUnderCreator(Initial(n), past) {
      RunExclusive(Initial(n), past);
      RetiredIsExclusive(Run(Initial(n), past), future);
    }
  }

  /** The condition is exact.  In every run whose swaps have all been harmless, one more successful
      swap is safe, whatever happens afterwards, if and only if it is not dangerous: for confirmed
      deliveries, and for messages that arrive as long as the channel is honest. */
  lemma SwapIsSafeExactly(n: nat, past: seq<Event>, e: Event)
    requires NoDangerousSwap(Initial(n), past) && Swaps(Run(Initial(n), past), e)
    ensures (forall future :: Run(Initial(n), past + ([e] + future)).confirmed <= 1)
        <==> !Dangerous(Run(Initial(n), past), e)
    ensures Run(Initial(n), past).Honest() ==>
              ((forall future | Run(Initial(n), past + ([e] + future)).Honest() :: Run(Initial(n), past + ([e] + future)).arrived <= 1)
               <==> !Dangerous(Run(Initial(n), past), e))
  {
    var s := Run(Initial(n), past);
    RunSafe(Initial(n), past);
    if Dangerous(s, e) {
      var future := DeliversTwice(s, e);
      RunConcat(Initial(n), past, [e] + future);
      assert Run(Initial(n), past + ([e] + future)).confirmed >= 2;
      assert s.Honest() ==> Run(Initial(n), past + ([e] + future)).Honest();
    } else {
      forall future ensures Run(Initial(n), past + ([e] + future)).confirmed <= 1 {
        RunConcat(Initial(n), past, [e] + future);
        RunConcat(s, [e], future);
        assert [e][..0] == [];
        assert Run(s, [e]) == Next(s, e);
        NextSafe(s, e);
        RetiredIsSafe(Next(s, e), future);
        SafeDeliversOnce(Run(Next(s, e), future));
      }
    }
  }

  /** The continuation that delivers twice, one for each kind of danger. */
  lemma DeliversTwice(s: State, e: Event) returns (future: seq<Event>)
    requires Single(s) || Closed(s, s.confirmed)
    requires Dangerous(s, e)
    ensures Run(s, [e] + future).confirmed >= 2
    ensures Run(s, [e] + future).arrived - Run(s, [e] + future).confirmed == s.arrived - s.confirmed
  {
    hide Single, Closed, Run;
    DangerIsOnTheFirstVersion(s, e);
    var send := Event(e.call, false, Success);
    if s.confirmed > 0 {
      future := [send];
      RunThree(s, e, send, send);
      assert [e] + future == [e, send];
    } else if c :| 0 <= c < |s.calls| && s.calls[c] == ReadyToSend(Created) {
      future := [send, Event(c, false, Success)];
      RunThree(s, e, send, Event(c, false, Success));
      assert [e] + future == [e, send, Event(c, false, Success)];
    } else {
      var c :| 0 <= c < |s.calls| && s.calls[c] == ReadyToMark(Created, false) && SomeoneWillRead(s);
      var t :| 0 <= t < |s.calls| && (s.calls[t].Start? || s.calls[t].Duplicate?);
      var mark := Event(c, false, NotSent);
      RunThree(s, e, send, mark);
      assert Run(s, [e, send, mark]).confirmed == 1;
      var more := ReaderDelivers(Run(s, [e, send, mark]), t);
      future := [send, mark] + more;
      assert [e] + future == [e, send, mark] + more;
      RunConcat(s, [e, send, mark], more);
    }
  }

  /** A call that has yet to read a FAILED row can send it once more. */
  lemma ReaderDelivers(s: State, t: nat) returns (events: seq<Event>)
    requires s.row.Some? && s.row.value.status == Failed
    requires t < |s.calls| && (s.calls[t].Start? || s.calls[t].Duplicate?)
    ensures Run(s, events).confirmed == s.confirmed + 1 && Run(s, events).arrived == s.arrived + 1
  {
    var go := Event(t, false, Success);
    if s.calls[t].Start? {
      RunThree(s, go, go, go);
      RunConcat(s, [go], [go, go, go]);
      RunThree(Next(s, go), go, go, go);
      events := [go] + [go, go, go];
      assert Run(s, [go]) == Next(s, go) by { assert [go][..0] == []; }
    } else {
      events := [go, go, go];
      RunThree(s, go, go, go);
    }
  }
}
