/**
 The optimistic-lock resend protocol as a state machine.

 Any number of calls of `ImmediateSendStrategy.Send` for one (bizID, key) run side by side.
 Every database statement and every channel call is one atomic action; an event names the
 call that acts and carries the two choices the environment makes for it.  A run is a list
 of events, so a theorem over all event lists is a theorem over all interleavings.
 */
module ResendProtocol {
  import opened Wrappers

  datatype SendStatus = Prepare | Canceled | Pending | Sending | Succeeded | Failed

  /** The two columns of a notification row that the protocol reads and writes. */
  datatype Row = Row(status: SendStatus, version: nat)

  /** A row as inserted: the status column takes its default and the version is 1. */
  const INSERTED := Row(Pending, 1)

  /** How a call obtained the right to send: it inserted the row, or it won the swap. */
  datatype Origin = Created | Swapped

  datatype Response = Reported(status: SendStatus) | Error

  /** Where a call stands: the next action it will take, with what it remembers. */
  datatype Phase =
    | Start
    | Duplicate
    | ReadyToSwap(version: nat)
    | ReadyToSend(origin: Origin)
    | ReadyToMark(origin: Origin, confirmed: bool)
    | Done(response: Response)
  {
    /** Between obtaining the right to send and writing the result. */
    predicate InFlight() { ReadyToSend? || ReadyToMark? }

    predicate Creating() { InFlight() && origin == Created }
  }

  /** A channel call: it answers with success, or with an error although the message went out, or with
      an error because it did not. */
  datatype Channel = Success | LostAnswer | NotSent

  /** `confirmed` counts the channel calls that answered with success, `arrived` the messages that went
      out. */
  datatype State = State(row: Option<Row>, calls: seq<Phase>, confirmed: nat, arrived: nat)
  {
    /** So far an error answer has meant that nothing went out. */
    predicate Honest() { arrived == confirmed }
  }

  /** One action of call `call`: `fault` is a database error, `channel` what a channel call does. */
  datatype Event = Event(call: nat, fault: bool, channel: Channel)

  function Initial(n: nat): State {
    State(None, seq(n, _ => Start), 0, 0)
  }

  // ----- row updates, shared with the data-access methods -----

  /** `UPDATE ... SET status = SENDING, version = version + 1 WHERE version = v`. */
  function Swap(row: Row, version: nat): Option<Row> {
    if row.version == version then Some(Row(Sending, row.version + 1)) else None
  }

  /** `UPDATE ... SET status = ?, version = version + 1` with no guard on the version. */
  function Mark(row: Row, confirmed: bool): Row {
    Row(if confirmed then Succeeded else Failed, row.version + 1)
  }

  // ----- the machine -----

  function Next(s: State, e: Event): State {
    if e.call >= |s.calls| then s else
      match s.calls[e.call]
      case Start =>
        if e.fault then Move(s, e, Done(Error))
        else if s.row.None? then Move(s, e, ReadyToSend(Created)).(row := Some(INSERTED))
        else Move(s, e, Duplicate)
      case Duplicate =>
        if e.fault || s.row.None? then Move(s, e, Done(Error))
        else if s.row.value.status == Succeeded then Move(s, e, Done(Reported(Succeeded)))
        else if s.row.value.status == Sending then Move(s, e, Done(Error))
        else Move(s, e, ReadyToSwap(s.row.value.version))
      case ReadyToSwap(version) =>
        if Swaps(s, e) then Move(s, e, ReadyToSend(Swapped)).(row := Swap(s.row.value, version))
        else Move(s, e, Done(Error))
      case ReadyToSend(origin) =>
        Move(s, e, ReadyToMark(origin, e.channel.Success?))
          .(confirmed := if e.channel.Success? then s.confirmed + 1 else s.confirmed,
            arrived := if e.channel.NotSent? then s.arrived else s.arrived + 1)
      case ReadyToMark(_, confirmed) =>
        if e.fault || s.row.None? then Move(s, e, Done(Error))
        else
          var marked := Mark(s.row.value, confirmed);
          Move(s, e, Done(Reported(marked.status))).(row := Some(marked))
      case Done(_) => s
  }

  function Move(s: State, e: Event, phase: Phase): State
    requires e.call < |s.calls|
  {
    s.(calls := s.calls[e.call := phase])
  }

  function Run(s: State, events: seq<Event>): State
    decreases |events|
  {
    if events == [] then s
    else Next(Run(s, events[..|events| - 1]), events[|events| - 1])
  }

  // ----- what the properties speak of -----

  /** The event is a compare-and-swap that succeeds. */
  predicate Swaps(s: State, e: Event) {
    && e.call < |s.calls| && !e.fault && s.row.Some?
    && s.calls[e.call].ReadyToSwap? && Swap(s.row.value, s.calls[e.call].version).Some?
  }

  /** A successful swap taken while the creating call has not yet written its result. */
  ghost predicate SwapsUnderCreator(s: State, e: Event) {
    Swaps(s, e) && exists c | 0 <= c < |s.calls| :: s.calls[c].Creating()
  }

  /** A successful swap on the version given at insertion, which only the first mark retires. */
  predicate SwapsFirstVersion(s: State, e: Event) {
    Swaps(s, e) && s.calls[e.call].version == INSERTED.version
  }

  /** Some call has yet to read the row: it will swap on whatever version it finds. */
  ghost predicate SomeoneWillRead(s: State) {
    exists t | 0 <= t < |s.calls| :: s.calls[t].Start? || s.calls[t].Duplicate?
  }

  /** A successful swap after which a second confirmed delivery can follow: one is confirmed already, or
      the creator is about to send, or the creator is about to write FAILED over the new SENDING and
      another call can still come to read that. */
  ghost predicate Dangerous(s: State, e: Event) {
    && Swaps(s, e)
    && (s.confirmed > 0
        || exists c | 0 <= c < |s.calls| ::
             s.calls[c] == ReadyToSend(Created) || (s.calls[c] == ReadyToMark(Created, false) && SomeoneWillRead(s)))
  }

  ghost predicate AtMostOneInFlight(s: State) {
    forall i, j | 0 <= i < |s.calls| && 0 <= j < |s.calls| && s.calls[i].InFlight() && s.calls[j].InFlight() :: i == j
  }

  ghost predicate NobodyInFlight(s: State) {
    forall i | 0 <= i < |s.calls| :: !s.calls[i].InFlight()
  }

  ghost predicate NoSwapUnderCreator(s: State, events: seq<Event>) {
    forall k | 0 <= k < |events| :: !SwapsUnderCreator(Run(s, events[..k]), events[k])
  }

  ghost predicate NoDangerousSwap(s: State, events: seq<Event>) {
    forall k | 0 <= k < |events| :: !Dangerous(Run(s, events[..k]), events[k])
  }

  // ----- inductive invariants -----

  /** What a call remembers is never newer than the row, and is sendable if it is current. */
  ghost predicate Fresh(row: Option<Row>, phase: Phase) {
    match phase
    case Start => true
    case Done(_) => true
    case Duplicate => row.Some?
    case ReadyToSwap(v) =>
      && row.Some? && v <= row.value.version
      && (v == row.value.version ==> row.value.status != Sending && row.value.status != Succeeded)
    case ReadyToSend(_) => row.Some?
    case ReadyToMark(_, _) => row.Some?
  }

  /** True in every reachable state, whatever overlaps. */
  ghost predicate Coherent(s: State) {
    && (s.row.Some? ==> s.row.value.version >= INSERTED.version)
    && (s.row.Some? && s.row.value.version == INSERTED.version ==> s.row == Some(INSERTED))
    && forall i | 0 <= i < |s.calls| :: Fresh(s.row, s.calls[i])
  }

  /** Exclusion: the call in flight owns the row. */
  ghost predicate Exclusive(s: State) {
    && Coherent(s)
    && AtMostOneInFlight(s)
    && forall i | 0 <= i < |s.calls| && s.calls[i].InFlight() ::
         if s.calls[i].origin == Created then s.row == Some(INSERTED) else s.row.value.status == Sending
  }

  /** Single confirmation: a confirmed message is on its way into the row, or locks it for ever. */
  ghost predicate Single(s: State) {
    && Exclusive(s)
    && (forall i | 0 <= i < |s.calls| ::
          match s.calls[i]
          case ReadyToSend(_) => s.confirmed == 0
          case ReadyToMark(_, confirmed) => s.confirmed == if confirmed then 1 else 0
          case _ => true)
    && (NobodyInFlight(s) && s.confirmed > 0 ==>
          s.confirmed == 1 && s.row.Some? && (s.row.value.status in {Sending, Succeeded} || s.row == Some(INSERTED)))
    && (s.row.Some? && s.row.value.status == Succeeded ==> NobodyInFlight(s) && s.confirmed == 1)
  }

  /** Two calls may be in flight, but nobody can swap any more; `out` messages are out, at most one. */
  ghost predicate Closed(s: State, out: nat) {
    && Coherent(s) && s.row.Some? && out <= 1
    && (forall i | 0 <= i < |s.calls| ::
          match s.calls[i]
          case Start => false
          case Duplicate => false
          case ReadyToSwap(v) => v < s.row.value.version
          case ReadyToSend(_) => out == 0
          case _ => true)
    && forall i, j | 0 <= i < |s.calls| && 0 <= j < |s.calls| && s.calls[i].ReadyToSend? && s.calls[j].ReadyToSend? :: i == j
  }

  lemma NextCoherent(s: State, e: Event)
    requires Coherent(s)
    ensures Coherent(Next(s, e))
  {
  }

  lemma NextExclusive(s: State, e: Event)
    requires Exclusive(s) && !SwapsUnderCreator(s, e)
    ensures Exclusive(Next(s, e))
  {
    NextCoherent(s, e);
  }

  lemma NextSingle(s: State, e: Event)
    requires Single(s) && !SwapsUnderCreator(s, e) && !Dangerous(s, e)
    ensures Single(Next(s, e))
  {
    NextExclusive(s, e);
  }

  lemma NextClosed(s: State, e: Event)
    ensures Closed(s, s.confirmed) ==> Closed(Next(s, e), Next(s, e).confirmed)
    ensures Closed(s, s.arrived) ==> Closed(Next(s, e), Next(s, e).arrived)
  {
    if Coherent(s) { NextCoherent(s, e); }
  }

  /** The one swap under the creator that is not dangerous: the creator is about to write FAILED, and
      nobody is left to read it. */
  lemma SwapCloses(s: State, e: Event)
    requires Single(s) && SwapsUnderCreator(s, e) && !Dangerous(s, e)
    ensures Closed(Next(s, e), Next(s, e).confirmed)
  {
    NextCoherent(s, e);
    var c :| 0 <= c < |s.calls| && s.calls[c].Creating();
    assert s.calls[c] == ReadyToMark(Created, false);
  }

  lemma NextSafe(s: State, e: Event)
    requires (Single(s) || Closed(s, s.confirmed)) && !Dangerous(s, e)
    ensures Single(Next(s, e)) || Closed(Next(s, e), Next(s, e).confirmed)
  {
    if Closed(s, s.confirmed) { NextClosed(s, e); }
    else if SwapsUnderCreator(s, e) { SwapCloses(s, e); }
    else { NextSingle(s, e); }
  }

  /** Once the insertion version is gone, no swap is dangerous to what is confirmed. */
  lemma DangerIsOnTheFirstVersion(s: State, e: Event)
    requires (Single(s) || Closed(s, s.confirmed)) && Dangerous(s, e)
    ensures Single(s) && SwapsFirstVersion(s, e)
  {
    assert !Closed(s, s.confirmed);
    if !NobodyInFlight(s) {
      var i :| 0 <= i < |s.calls| && s.calls[i].InFlight();
    }
  }

  // ----- runs -----

  lemma {:induction false} RunConcat(s: State, a: seq<Event>, b: seq<Event>)
    ensures Run(s, a + b) == Run(Run(s, a), b)
    decreases |b|
  {
    if b == [] {
      assert a + b == a;
    } else {
      var front := b[..|b| - 1];
      assert (a + b)[..|a + b| - 1] == a + front;
      RunConcat(s, a, front);
    }
  }

  lemma RunOne(s: State, e: Event)
    ensures Run(s, [e]) == Next(s, e)
  {
    assert [e][..0] == [];
  }

  lemma RunThree(s: State, a: Event, b: Event, c: Event)
    ensures Run(s, [a, b]) == Next(Next(s, a), b)
    ensures Run(s, [a, b, c]) == Next(Next(Next(s, a), b), c)
  {
    assert [a][..0] == [] && [a, b][..1] == [a] && [a, b, c][..2] == [a, b];
    assert Run(s, [a]) == Next(s, a);
  }

  lemma {:induction false} RunExclusive(s: State, events: seq<Event>)
    requires Exclusive(s) && NoSwapUnderCreator(s, events)
    ensures Exclusive(Run(s, events))
    decreases |events|
  {
    if events != [] {
      var front := events[..|events| - 1];
      assert forall k | 0 <= k < |front| :: front[..k] == events[..k];
      RunExclusive(s, front);
      NextExclusive(Run(s, front), events[|events| - 1]);
    }
  }

  lemma {:induction false} RunSafe(s: State, events: seq<Event>)
    requires (Single(s) || Closed(s, s.confirmed)) && NoDangerousSwap(s, events)
    ensures Single(Run(s, events)) || Closed(Run(s, events), Run(s, events).confirmed)
    decreases |events|
  {
    if events != [] {
      var front := events[..|events| - 1];
      assert forall k | 0 <= k < |front| :: front[..k] == events[..k];
      RunSafe(s, front);
      NextSafe(Run(s, front), events[|events| - 1]);
    }
  }

  lemma {:induction false} RunSingle(s: State, events: seq<Event>)
    requires Single(s) && NoSwapUnderCreator(s, events) && NoDangerousSwap(s, events)
    ensures Single(Run(s, events))
    decreases |events|
  {
    if events != [] {
      var front := events[..|events| - 1];
      assert forall k | 0 <= k < |front| :: front[..k] == events[..k];
      RunSingle(s, front);
      NextSingle(Run(s, front), events[|events| - 1]);
    }
  }

  /** The version of a stored row never goes back. */
  lemma {:induction false} VersionGrows(s: State, events: seq<Event>)
    requires s.row.Some?
    ensures Run(s, events).row.Some? && s.row.value.version <= Run(s, events).row.value.version
    ensures Run(s, events).row.value.version == s.row.value.version ==> Run(s, events).row == s.row
    decreases |events|
  {
    if events != [] { VersionGrows(s, events[..|events| - 1]); }
  }

  /** One action writes the row at most once, and the version counts the writes one by one; a row starts
      PENDING at version 1. */
  lemma VersionCountsWrites(s: State, e: Event)
    ensures s.row.None? && Next(s, e).row.Some? ==> Next(s, e).row.value == Row(Pending, 1)
    ensures s.row.Some? ==> Next(s, e).row == s.row
                            || (Next(s, e).row.Some? && Next(s, e).row.value.version == s.row.value.version + 1)
  {
  }

  predicate Ends(s: State, e: Event) {
    e.call < |s.calls| && !s.calls[e.call].Done? && Next(s, e).calls[e.call].Done?
  }

  /** What a call reports is what the row holds when it ends, written by itself or found; an error means
      that its last action changed nothing. */
  lemma ResponseTellsRow(s: State, e: Event)
    requires Ends(s, e)
    ensures match Next(s, e).calls[e.call].response
            case Reported(status) =>
              && Next(s, e).row.Some? && Next(s, e).row.value.status == status
              && (s.calls[e.call].ReadyToMark? || (s.calls[e.call].Duplicate? && status == Succeeded))
            case Error => Next(s, e).row == s.row
  {
  }

  /** Without a database error: a call reports whenever it has sent or has found SUCCEEDED, and ends with
      an error only if it found SENDING, lost the swap or has no row to work on. */
  lemma ErrorMeansNotSent(s: State, e: Event)
    requires Ends(s, e) && !e.fault && Coherent(s)
    ensures Next(s, e).calls[e.call].response == Error
        <==> || (s.calls[e.call].Duplicate? && s.row.value.status == Sending)
             || (s.calls[e.call].ReadyToSwap? && !Swaps(s, e))
  {
  }
}
