/**
 The code of the immediate send path, in its own imperative form, and the proof that it is what
 `ResendProtocol` says it is: run under arbitrary interference by other calls, `Send` performs
 exactly the actions of one call of the machine.
 */
module ImmediateSend {
  import opened Domain
  import opened Wrappers
  import opened ResendProtocol
  import opened ResendOutcomes

  datatype CreateResult = Inserted | DuplicateKey | CreateFailed

  /**
   The notifications table as one call sees it.  `rows` is the table.  The ghost fields follow the
   machine for the row `key`, whose snowflake id stands one-to-one with the key: `trace` is everything
   that has happened to it so far, by any of the `callers` calls, and `me` is the call that is
   executing.
   */
  class NotificationTable {
    var rows: map<Key, Row>
    const key: Key
    ghost const callers: nat
    ghost const me: nat
    ghost var trace: seq<Event>

    ghost function System(): State reads this {
      Run(Initial(callers), trace)
    }

    ghost predicate Valid() reads this {
      && me < |System().calls|
      && System().row == (if key in rows then Some(rows[key]) else None)
    }

    ghost function Phase(): Phase reads this requires Valid() {
      System().calls[me]
    }

    constructor (key: Key, rows: map<Key, Row>, ghost callers: nat, ghost me: nat)
      requires key !in rows && me < callers
      ensures Valid() && Phase() == Start && this.rows == rows && this.key == key && trace == []
      ensures this.callers == callers && this.me == me
    {
      this.key, this.rows, this.callers, this.me, this.trace := key, rows, callers, me, [];
    }

    /** Other calls act, any number of times and on any rows; for this key they are confined to the
        protocol.  Nothing in the body: only the contract is seen by the callers. */
    method Interference()
      requires Valid()
      modifies this
      ensures Valid() && Phase() == old(Phase()) && old(trace) <= trace
      ensures forall i | |old(trace)| <= i < |trace| :: trace[i].call != me
    {
    }

    /** `INSERT` guarded by the unique index: the row starts PENDING at version 1. */
    method Create() returns (result: CreateResult)
      requires Valid() && Phase() == Start
      modifies this
      ensures Valid() && Acted(old(trace), trace)
      ensures forall k | k != key :: k in rows <==> k in old(rows)
      ensures forall k | k != key && k in rows :: rows[k] == old(rows)[k]
      ensures match result
              case Inserted => key !in old(rows) && key in rows && rows[key] == Row(Pending, 1) && Phase() == ReadyToSend(Created)
              case DuplicateKey => rows == old(rows) && key in rows && Phase() == Duplicate
              case CreateFailed => rows == old(rows) && Phase() == Done(Error)
    {
      var fault: bool := *;
      Record(fault, NotSent);
      if fault { return CreateFailed; }
      if key in rows { return DuplicateKey; }
      rows := rows[key := INSERTED];
      return Inserted;
    }

    /** `SELECT ... WHERE biz_id = ? AND key = ?`. */
    method GetByKey() returns (found: Option<Row>)
      requires Valid() && Phase() == Duplicate
      modifies this`trace
      ensures Valid() && Acted(old(trace), trace)
      ensures found.Some? ==> key in rows && found.value == rows[key]
      ensures Phase() == if found.None? then Done(Error)
                         else if found.value.status == Succeeded then Done(Reported(Succeeded))
                         else if found.value.status == Sending then Done(Error)
                         else ReadyToSwap(found.value.version)
    {
      var fault: bool := *;
      Record(fault, NotSent);
      if fault || key !in rows { return None; }
      return Some(rows[key]);
    }

    /** `UPDATE ... WHERE id = ? AND version = ?`: swapped says whether a row was affected. */
    method CASStatus(version: nat) returns (swapped: bool)
      requires Valid() && Phase() == ReadyToSwap(version)
      modifies this
      ensures Valid() && Acted(old(trace), trace)
      ensures !swapped ==> rows == old(rows) && Phase() == Done(Error)
      ensures swapped ==> key in old(rows) && old(rows)[key].version == version
      ensures swapped ==> rows == old(rows)[key := Row(Sending, version + 1)] && Phase() == ReadyToSend(Swapped)
    {
      var fault: bool := *;
      Record(fault, NotSent);
      if fault || key !in rows || Swap(rows[key], version).None? { return false; }
      rows := rows[key := Swap(rows[key], version).value];
      return true;
    }

    /** The channel call: it changes no row; whether it reaches the receiver is the channel's choice. */
    method ChannelSend(ghost origin: Origin) returns (confirmed: bool)
      requires Valid() && Phase() == ReadyToSend(origin)
      modifies this`trace
      ensures Valid() && Acted(old(trace), trace) && Phase() == ReadyToMark(origin, confirmed)
    {
      var channel: Channel := *;
      Record(false, channel);
      return channel.Success?;
    }

    /** `MarkSuccess` and `MarkFailed`: an update with no guard on the version. */
    method MarkResult(confirmed: bool, ghost origin: Origin) returns (marked: bool)
      requires Valid() && Phase() == ReadyToMark(origin, confirmed)
      modifies this
      ensures Valid() && Acted(old(trace), trace)
      ensures !marked ==> rows == old(rows) && Phase() == Done(Error)
      ensures marked ==> key in old(rows) && rows == old(rows)[key := Row(if confirmed then Succeeded else Failed, old(rows)[key].version + 1)]
      ensures marked ==> Phase() == Done(Reported(if confirmed then Succeeded else Failed))
    {
      var fault: bool := *;
      Record(fault, NotSent);
      if fault || key !in rows { return false; }
      rows := rows[key := Mark(rows[key], confirmed)];
      return true;
    }

    /** The machine takes this call's next action. */
    ghost method Record(fault: bool, channel: Channel)
      modifies this`trace
      ensures trace == old(trace) + [Event(me, fault, channel)]
      ensures System() == Next(old(System()), Event(me, fault, channel))
    {
      trace := trace + [Event(me, fault, channel)];
      assert trace[..|trace| - 1] == old(trace);
    }

    /** Exactly one action was taken, and by this call. */
    ghost predicate Acted(before: seq<Event>, after: seq<Event>) {
      |after| == |before| + 1 && before <= after && after[|before|].call == me
    }
  }

  /** Send to the channel, then record exactly one outcome. */
  method DeliverAndMark(table: NotificationTable, ghost origin: Origin) returns (response: Response)
    requires table.Valid() && table.Phase() == ReadyToSend(origin)
    modifies table
    ensures table.Valid() && table.Phase() == Done(response) && old(table.trace) <= table.trace
  {
    var confirmed := table.ChannelSend(origin);
    table.Interference();
    var marked := table.MarkResult(confirmed, origin);
    if !marked { return Error; }
    return Reported(if confirmed then Succeeded else Failed);
  }

  /** `ImmediateSendStrategy.Send`: create, or on a duplicate read, check, swap and resend.  However
      the other calls interfere, the table stays a state of the machine, this call ends in the
      machine's final phase with the response it returns, and SUCCEEDED is never said falsely. */
  method Send(table: NotificationTable) returns (response: Response)
    requires table.Valid() && table.Phase() == Start
    modifies table
    ensures table.Valid() && table.Phase() == Done(response) && old(table.trace) <= table.trace
    ensures response == Reported(Succeeded) ==> table.System().confirmed > 0
  {
    table.Interference();
    var created := table.Create();
    table.Interference();
    match created {
      case CreateFailed => response := Error;
      case Inserted => response := DeliverAndMark(table, Created);
      case DuplicateKey => response := Resend(table);
    }
    ReportedSuccessWasDelivered(table.callers, table.trace);
  }

  method Resend(table: NotificationTable) returns (response: Response)
    requires table.Valid() && table.Phase() == Duplicate
    modifies table
    ensures table.Valid() && table.Phase() == Done(response) && old(table.trace) <= table.trace
  {
    var found := table.GetByKey();
    table.Interference();
    if found.None? { return Error; }
    if found.value.status == Succeeded { return Reported(Succeeded); }
    if found.value.status == Sending { return Error; }
    var swapped := table.CASStatus(found.value.version);
    table.Interference();
    if !swapped { return Error; }
    response := DeliverAndMark(table, Swapped);
  }
}
