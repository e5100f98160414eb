/**
 The resend protocol seen by the receiver: how many messages arrive when an error answer of the channel
 may hide one that went out.
 */
module ResendArrivals {
  import opened Wrappers
  import opened ResendProtocol
  import opened ResendSafety

  /** Such a state is reachable with two calls and an honest channel: the retry finds the row before the
      creator has marked it, and the receiver gets the message twice. */
  lemma DuplicateDelivery()
    ensures exists events :: Run(Initial(2), events).confirmed == 2 && Run(Initial(2), events).Honest()
  {
    var a, b := Event(0, false, Success), Event(1, false, Success);
    RunThree(Initial(2), a, b, b);
    RunThree(Run(Initial(2), [a, b, b]), b, b, a);
    RunConcat(Initial(2), [a, b, b], [b, b, a]);
    assert Run(Initial(2), [a, b, b] + [b, b, a]).confirmed == 2;
  }

  /** A successful swap after which a second message can arrive: one is out already, or another call is
      about to send, or somebody has yet to read and may find a FAILED that hides a message. */
  ghost predicate Risky(s: State, e: Event) {
    && Swaps(s, e)
    && (s.arrived > 0 || SomeoneWillRead(s) || exists c | 0 <= c < |s.calls| :: s.calls[c].ReadyToSend?)
  }

  ghost predicate NoRiskySwap(s: State, events: seq<Event>) {
    forall k | 0 <= k < |events| :: !Risky(Run(s, events[..k]), events[k])
  }

  /** At most one message is out, and as long as a call is about to send, none. */
  ghost predicate Quiet(s: State) {
    && s.arrived <= 1
    && (s.row.None? ==> s.arrived == 0 && forall i | 0 <= i < |s.calls| :: !s.calls[i].ReadyToSend?)
    && (forall i | 0 <= i < |s.calls| && s.calls[i].ReadyToSend? :: s.arrived == 0)
    && forall i, j | 0 <= i < |s.calls| && 0 <= j < |s.calls| && s.calls[i].ReadyToSend? && s.calls[j].ReadyToSend? :: i == j
  }

  lemma NextQuiet(s: State, e: Event)
    requires Quiet(s) && !Risky(s, e)
    ensures Quiet(Next(s, e))
  {
  }

  lemma {:induction false} RunQuiet(s: State, events: seq<Event>)
    requires Quiet(s) && NoRiskySwap(s, events)
    ensures Quiet(Run(s, events))
    decreases |events|
  {
    if events != [] {
      var front := events[..|events| - 1];
      assert forall k | 0 <= k < |front| :: front[..k] == events[..k];
      RunQuiet(s, front);
      NextQuiet(Run(s, front), events[|events| - 1]);
    }
  }

  /** Whatever the channel answers: without a risky swap at most one message arrives. */
  lemma ArrivesAtMostOnce(n: nat, events: seq<Event>)
    requires NoRiskySwap(Initial(n), events)
    ensures Run(Initial(n), events).arrived <= 1
  {
    RunQuiet(Initial(n), events);
  }

  lemma {:induction false} RunCoherent(s: State, events: seq<Event>)
    requires Coherent(s)
    ensures Coherent(Run(s, events))
    decreases |events|
  {
    if events != [] {
      RunCoherent(s, events[..|events| - 1]);
      NextCoherent(Run(s, events[..|events| - 1]), events[|events| - 1]);
    }
  }

  lemma {:induction false} RunClosed(s: State, events: seq<Event>)
    requires Closed(s, s.arrived)
    ensures Closed(Run(s, events), Run(s, events).arrived)
    decreases |events|
  {
    if events != [] {
      RunClosed(s, events[..|events| - 1]);
      NextClosed(Run(s, events[..|events| - 1]), events[|events| - 1]);
    }
  }

  /** The exact condition without trust in error answers, after any run at all: a successful swap is
      followed by at most one message in all continuations if and only if it is not risky. */
  lemma SwapArrivesOnceExactly(n: nat, past: seq<Event>, e: Event)
    requires Swaps(Run(Initial(n), past), e)
    ensures (forall future :: Run(Initial(n), past + ([e] + future)).arrived <= 1) <==> !Risky(Run(Initial(n), past), e)
  {
    var s := Run(Initial(n), past);
    RunCoherent(Initial(n), past);
    if Risky(s, e) {
      var future := ArrivesTwice(s, e);
      RunConcat(Initial(n), past, [e] + future);
      assert Run(Initial(n), past + ([e] + future)).arrived >= 2;
    } else {
      forall future ensures Run(Initial(n), past + ([e] + future)).arrived <= 1 {
        RunConcat(Initial(n), past, [e] + future);
        RunConcat(s, [e], future);
        assert [e][..0] == [];
        assert Run(s, [e]) == Next(s, e);
        NextCoherent(s, e);
        RunClosed(Next(s, e), future);
      }
    }
  }

  /** The continuation in which a second message arrives, one for each kind of risk. */
  lemma ArrivesTwice(s: State, e: Event) returns (future: seq<Event>)
    requires Coherent(s) && Risky(s, e)
    ensures Run(s, [e] + future).arrived >= 2
  {
    hide Coherent, Run;
    var send := Event(e.call, false, LostAnswer);
    if s.arrived > 0 {
      future := [send];
      RunThree(s, e, send, send);
      assert [e] + future == [e, send];
    } else if c :| 0 <= c < |s.calls| && s.calls[c].ReadyToSend? {
      future := [send, Event(c, false, LostAnswer)];
      RunThree(s, e, send, Event(c, false, LostAnswer));
      assert [e] + future == [e, send, Event(c, false, LostAnswer)];
    } else {
      var t :| 0 <= t < |s.calls| && (s.calls[t].Start? || s.calls[t].Duplicate?);
      RunThree(s, e, send, send);
      var more := ReaderDelivers(Run(s, [e, send, send]), t);
      future := [send, send] + more;
      assert [e] + future == [e, send, send] + more;
      RunConcat(s, [e, send, send], more);
    }
  }

  ghost predicate Calm(n: nat, events: seq<Event>) {
    NoSwapUnderCreator(Initial(n), events) && NoDangerousSwap(Initial(n), events)
  }

  lemma CalmStep(n: nat, events: seq<Event>, e: Event)
    requires Calm(n, events)
    requires !SwapsUnderCreator(Run(Initial(n), events), e) && !Dangerous(Run(Initial(n), events), e)
    ensures Calm(n, events + [e]) && Run(Initial(n), events + [e]) == Next(Run(Initial(n), events), e)
  {
    var more := events + [e];
    assert more[..|events|] == events;
    assert forall k | 0 <= k < |events| :: more[..k] == events[..k] && more[k] == events[k];
  }

  /** With two calls or more, no overlap at all and no dangerous swap: the creator's message goes out
      behind an error answer, FAILED is written, and a later call sends again. */
  lemma LostAnswerDuplicates(n: nat) returns (events: seq<Event>)
    requires n >= 2
    ensures Calm(n, events) && Run(Initial(n), events).confirmed == 1 && Run(Initial(n), events).arrived == 2
  {
    hide Calm, Dangerous, SwapsUnderCreator, Run, NoSwapUnderCreator, NoDangerousSwap;
    var a, b := Event(0, false, LostAnswer), Event(1, false, Success);
    CalmAtFirst(n);
    events := [];
    events := CalmTurn(n, events, a);
    events := CalmTurn(n, events, a);
    events := CalmTurn(n, events, a);
    events := CalmTurn(n, events, b);
    events := CalmTurn(n, events, b);
    NoCreatorLeft(Run(Initial(n), events), b);
    CalmStep(n, events, b);
    events := events + [b];
    events := CalmTurn(n, events, b);
  }

  lemma CalmAtFirst(n: nat)
    ensures Calm(n, []) && Run(Initial(n), []) == Initial(n)
  {
  }

  lemma CalmTurn(n: nat, events: seq<Event>, e: Event) returns (more: seq<Event>)
    requires Calm(n, events) && !Swaps(Run(Initial(n), events), e)
    ensures more == events + [e] && Calm(n, more) && Run(Initial(n), more) == Next(Run(Initial(n), events), e)
  {
    more := events + [e];
    CalmStep(n, events, e);
  }

  lemma NoCreatorLeft(s: State, e: Event)
    requires s.confirmed == 0 && forall c | 0 <= c < |s.calls| :: !s.calls[c].InFlight()
    ensures !SwapsUnderCreator(s, e) && !Dangerous(s, e)
  {
  }

  /** No number of calls above one is safe: a single message can be promised if and only if there is
      no retry. */
  lemma SingleArrivalExactly(n: nat)
    ensures (forall events :: Run(Initial(n), events).arrived <= 1) <==> n <= 1
  {
    if n <= 1 {
      forall events ensures Run(Initial(n), events).arrived <= 1 { AloneArrivesOnce(n, events); }
    } else {
      var events := LostAnswerDuplicates(n);
    }
  }

  lemma {:induction false} AloneArrivesOnce(n: nat, events: seq<Event>)
    requires n <= 1
    ensures Quiet(Run(Initial(n), events)) && |Run(Initial(n), events).calls| == n
    ensures n == 1 ==> var s := Run(Initial(n), events);
                       !s.calls[0].Duplicate? && !s.calls[0].ReadyToSwap? && (s.calls[0].Start? ==> s.row.None?)
    decreases |events|
  {
    if events != [] {
      AloneArrivesOnce(n, events[..|events| - 1]);
      NextQuiet(Run(Initial(n), events[..|events| - 1]), events[|events| - 1]);
    }
  }
}
