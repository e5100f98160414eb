/**
 What becomes of a row in the resend protocol once it is SUCCEEDED or its mark has failed, and how often
 each kind of call succeeds.
 */
module ResendOutcomes {
  import opened Wrappers
  import opened ResendProtocol
  import opened ResendSafety

  // ----- rows that no call can move any more -----

  /** SUCCEEDED is final: from then on, whatever stale readers try, the row does not change, nothing
      more is sent, and no call is in flight. */
  lemma SucceededIsFinal(n: nat, past: seq<Event>, future: seq<Event>)
    requires NoSwapUnderCreator(Initial(n), past)
    requires Run(Initial(n), past).row.Some? && Run(Initial(n), past).row.value.status == Succeeded
    ensures AsBefore(Run(Initial(n), past), Run(Initial(n), past + future))
    ensures NoDangerousSwap(Initial(n), past) ==> Run(Initial(n), past + future).confirmed == 1
  {
    RunExclusive(Initial(n), past);
    RunConcat(Initial(n), past, future);
    LockedStays(Run(Initial(n), past), future);
    if NoDangerousSwap(Initial(n), past) { RunSingle(Initial(n), past); }
  }

  /** The row is the same, nothing more was sent, and nobody is in flight. */
  ghost predicate AsBefore(s: State, t: State) {
    t.row == s.row && t.confirmed == s.confirmed && t.arrived == s.arrived && NobodyInFlight(t)
  }

  /** Nobody is in flight, and the row is in a status from which nobody swaps. */
  ghost predicate Locked(s: State) {
    Exclusive(s) && NobodyInFlight(s) && s.row.Some? && s.row.value.status in {Sending, Succeeded}
  }

  lemma {:induction false} LockedStays(s: State, events: seq<Event>)
    requires Locked(s)
    ensures Locked(Run(s, events)) && AsBefore(s, Run(s, events))
    decreases |events|
  {
    if events != [] {
      LockedStays(s, events[..|events| - 1]);
      NextExclusive(Run(s, events[..|events| - 1]), events[|events| - 1]);
    }
  }

  /** The stuck state: if the mark of a resend fails, the row is SENDING with nobody in flight, and so it
      stays for ever, whether the message went out or not. */
  lemma FailedMarkBlocks(n: nat, past: seq<Event>, e: Event, future: seq<Event>)
    requires NoSwapUnderCreator(Initial(n), past) && e.fault && e.call < |Run(Initial(n), past).calls|
    requires Run(Initial(n), past).calls[e.call].ReadyToMark? && Run(Initial(n), past).calls[e.call].origin == Swapped
    ensures Run(Initial(n), past).row.Some? && Run(Initial(n), past).row.value.status == Sending
    ensures AsBefore(Run(Initial(n), past), Run(Initial(n), past + ([e] + future)))
  {
    var s := Run(Initial(n), past);
    RunExclusive(Initial(n), past);
    RunConcat(Initial(n), past, [e] + future);
    RunConcat(s, [e], future);
    RunOne(s, e);
    hide Run, Next, Exclusive, Locked;
    FailedMarkLocks(s, e);
    LockedStays(Next(s, e), future);
  }

  lemma FailedMarkLocks(s: State, e: Event)
    requires Exclusive(s) && e.fault && e.call < |s.calls|
    requires s.calls[e.call].ReadyToMark? && s.calls[e.call].origin == Swapped
    ensures s.row.Some? && s.row.value.status == Sending
    ensures Locked(Next(s, e)) && AsBefore(s, Next(s, e))
  {
    NextExclusive(s, e);
  }

  /** FAILED with nobody in flight means that nothing was confirmed. */
  lemma FailedMeansUnconfirmed(n: nat, events: seq<Event>)
    requires NoSwapUnderCreator(Initial(n), events) && NoDangerousSwap(Initial(n), events)
    requires NobodyInFlight(Run(Initial(n), events))
    requires Run(Initial(n), events).row.Some? && Run(Initial(n), events).row.value.status == Failed
    ensures Run(Initial(n), events).confirmed == 0
  {
    RunSingle(Initial(n), events);
  }

  // ----- how often each kind of call delivers -----

  /** The confirmed deliveries of the calls that obtained the right to send in the given way. */
  ghost function Deliveries(s: State, events: seq<Event>, origin: Origin): nat
    decreases |events|
  {
    if events == [] then 0
    else
      var front, last := events[..|events| - 1], events[|events| - 1];
      Deliveries(s, front, origin) + if DeliversAs(Run(s, front), last, origin) then 1 else 0
  }

  predicate DeliversAs(s: State, e: Event, origin: Origin) {
    e.call < |s.calls| && s.calls[e.call] == ReadyToSend(origin) && e.channel.Success?
  }

  /** `created` and `swapped` are the deliveries of the creator and of the retriers so far. */
  ghost predicate Counted(s: State, created: nat, swapped: nat) {
    && Exclusive(s) && s.confirmed == created + swapped && created <= 1 && swapped <= 1
    && (s.row.None? ==> created == 0)
    && (forall i | 0 <= i < |s.calls| ::
          match s.calls[i]
          case ReadyToSend(origin) => (origin == Created ==> created == 0) && swapped == 0
          case ReadyToMark(origin, confirmed) => swapped == if origin == Swapped && confirmed then 1 else 0
          case _ => true)
    && (NobodyInFlight(s) && swapped > 0 ==> s.row.Some? && s.row.value.status in {Sending, Succeeded})
  }

  lemma NextCounted(s: State, e: Event, created: nat, swapped: nat)
    requires Counted(s, created, swapped) && !SwapsUnderCreator(s, e)
    ensures Counted(Next(s, e), created + (if DeliversAs(s, e, Created) then 1 else 0),
                    swapped + (if DeliversAs(s, e, Swapped) then 1 else 0))
  {
    NextExclusive(s, e);
  }

  lemma {:induction false} RunCounted(n: nat, events: seq<Event>)
    requires NoSwapUnderCreator(Initial(n), events)
    ensures Counted(Run(Initial(n), events), Deliveries(Initial(n), events, Created), Deliveries(Initial(n), events, Swapped))
    decreases |events|
  {
    if events != [] {
      var front, last := events[..|events| - 1], events[|events| - 1];
      assert forall k | 0 <= k < |front| :: front[..k] == events[..k];
      RunCounted(n, front);
      NextCounted(Run(Initial(n), front), last, Deliveries(Initial(n), front, Created), Deliveries(Initial(n), front, Swapped));
    }
  }

  /** If no swap succeeds under the creator, then over the whole run at most one resend of all retriers
      together answers with success, and at most one call of the creator. */
  lemma RetriersSucceedAtMostOnce(n: nat, events: seq<Event>)
    requires NoSwapUnderCreator(Initial(n), events)
    ensures Deliveries(Initial(n), events, Swapped) <= 1 && Deliveries(Initial(n), events, Created) <= 1
    ensures Run(Initial(n), events).confirmed == Deliveries(Initial(n), events, Created) + Deliveries(Initial(n), events, Swapped)
  {
    RunCounted(n, events);
  }

  // ----- what a caller is told -----

  /** No report of success without a delivery. */
  ghost predicate Truthful(s: State) {
    && s.arrived >= s.confirmed
    && (s.row.Some? && s.row.value.status == Succeeded ==> s.confirmed > 0)
    && forall i | 0 <= i < |s.calls| ::
         match s.calls[i]
         case ReadyToMark(_, confirmed) => confirmed ==> s.confirmed > 0
         case Done(Reported(status)) => status == Succeeded ==> s.confirmed > 0
         case _ => true
  }

  lemma NextTruthful(s: State, e: Event)
    requires Truthful(s)
    ensures Truthful(Next(s, e))
  {
  }

  /** In every run, whatever overlaps: a caller told SUCCEEDED can rely on a delivery. */
  lemma {:induction false} ReportedSuccessWasDelivered(n: nat, events: seq<Event>)
    ensures Truthful(Run(Initial(n), events))
    ensures forall i | 0 <= i < |Run(Initial(n), events).calls| ::
              Run(Initial(n), events).calls[i] == Done(Reported(Succeeded)) ==> Run(Initial(n), events).arrived >= Run(Initial(n), events).confirmed > 0
    decreases |events|
  {
    if events != [] {
      ReportedSuccessWasDelivered(n, events[..|events| - 1]);
      NextTruthful(Run(Initial(n), events[..|events| - 1]), events[|events| - 1]);
    }
  }
}
