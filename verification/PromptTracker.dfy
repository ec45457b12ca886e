/**
 The object behind the prompt tracker (`SessionSubmissions` in `crates/acp_thread/src/submission.rs`), whose methods
 update its records in place. After any calls it is the tracker that the same operations lead to on values, so
 what holds of every run there holds of every object here.
 */
module PromptTracker {
  import opened Options
  import opened Submissions
  import opened SubmissionRuns
  import opened SubmissionEffects

  /** The walk of `disconnect` over the records, in the order of their ids. */
  method DisconnectAll(was: map<nat, Record>, n: nat)
    returns (records: map<nat, Record>, changed: seq<nat>, fired: seq<nat>)
    requires forall id :: id in was ==> 1 <= id <= n
    ensures records == map id | id in was :: DisconnectRecord(was[id])
    ensures changed == UnsettledIds(was, n) && fired == Fired(was, n)
  {
    records, changed, fired := was, [], [];
    for id := 1 to n + 1
      invariant records.Keys == was.Keys
      invariant forall i :: i in was ==> records[i] == if i < id then DisconnectRecord(was[i]) else was[i]
      invariant changed == UnsettledIds(was, id - 1) && fired == Fired(was, id - 1)
    {
      if id in records && IsUnsettled(records[id].state) {
        if records[id].sender.Some? {
          fired := fired + [records[id].sender.value];
        }
        records := records[id := records[id].(state := DisconnectState(records[id].state), sender := None)];
        changed := changed + [id];
      }
    }
  }

  /** The walk of `observe_echo` over the records. */
  method EchoAll(was: map<nat, Record>, messageId: string, n: nat)
    returns (records: map<nat, Record>, changed: seq<nat>)
    requires forall id :: id in was ==> 1 <= id <= n
    ensures records == map id | id in was :: was[id].(state := EchoState(was[id].state, messageId))
    ensures changed == EchoedIds(was, messageId, n)
  {
    records, changed := was, [];
    for id := 1 to n + 1
      invariant records.Keys == was.Keys
      invariant forall i :: i in was ==>
                              records[i] ==
                              if i < id then was[i].(state := EchoState(was[i].state, messageId)) else was[i]
      invariant changed == EchoedIds(was, messageId, id - 1)
    {
      if id in records && Echoes(records[id].state, messageId) {
        records := records[id := records[id].(state := records[id].state.(echoed := true))];
        changed := changed + [id];
      }
    }
  }

  /** `ops` are the operations so far; the object is always the tracker that they lead to. */
  class SessionSubmissions {
    const transport: Transport
    var records: map<nat, Record>
    var nextId: nat
    var latest: Option<nat>
    var notified: seq<nat>
    ghost var ops: seq<Op>

    ghost function Model(): Tracker
      reads this
    {
      Tracker(transport, records, nextId, latest, notified)
    }

    ghost predicate Valid()
      reads this
    {
      Model() == Run(transport, ops).tracker
    }

    constructor (transport: Transport)
      ensures Valid() && this.transport == transport && ops == []
    {
      this.transport := transport;
      records, nextId, latest, notified, ops := map[], 0, None, [], [];
    }

    twostate predicate Logged(op: Op)
      reads this
    {
      ops == old(ops) + [op] && Model() == Next(old(Model()), op) && Valid()
    }

    ghost method Log(before: Tracker, op: Op)
      requires before == Run(transport, ops).tracker && Model() == Next(before, op)
      modifies this`ops
      ensures ops == old(ops) + [op] && Valid()
    {
      assert (ops + [op])[..|ops|] == ops;
      ops := ops + [op];
    }

    /** In every valid tracker the ids are those handed out, and every record is there for a reason. */
    lemma IsWellFormed()
      requires Valid()
      ensures WellFormed(Model())
    {
      NothingIsLost(transport, ops);
    }

    method Prune()
      modifies this`records
      ensures Model() == Pruned(old(Model()))
    {
      var t := Tracker(transport, records, nextId, latest, notified);
      records := map id | id in records && Keeps(t, id) :: records[id];
    }

    method Register(content: string) returns (id: nat)
      requires Valid()
      modifies this
      ensures Logged(Op.Register(content))
      ensures id == nextId && id !in old(records) && records[id] == Record(content, Pending, None, None)
    {
      IsWellFormed();
      ghost var before := Model();
      nextId := nextId + 1;
      id := nextId;
      latest := Some(id);
      ghost var unpruned := Model();
      Prune();
      records := records[id := Record(content, Pending, None, None)];
      assert records == Pruned(unpruned.(records := unpruned.records[id := records[id]])).records;
      Log(before, Op.Register(content));
    }

    method Track(id: nat, task: nat, sender: Option<nat>)
      requires Valid()
      modifies this`records, this`ops
      ensures Logged(Op.Track(id, task, sender))
    {
      ghost var before := Model();
      if id in records {
        records := records[id := records[id].(task := Some(task), sender := sender)];
      }
      Log(before, Op.Track(id, task, sender));
    }

    method Settle(id: nat, state: SubmissionState) returns (changed: bool)
      requires Valid()
      modifies this`records, this`ops
      ensures Logged(Op.Settle(id, state))
      ensures changed <==> id in old(records) &&
                           (old(records)[id].state.Disconnected? ==>
                              old(records)[id].state.evidence.None? && state.Accepted?)
      ensures forall i :: i in records ==> i in old(records) && (i != id ==> records[i] == old(records)[i])
      ensures id in records ==> SettledState(old(records)[id].state, state, records[id].state)
    {
      ghost var before := Model();
      changed := false;
      if id in records {
        var record := records[id].(sender := None);
        if record.state.Disconnected? {
          if record.state.evidence.None? && state.Accepted? {
            record := record.(state := Disconnected(Some(state.receipt)));
            changed := true;
          }
        } else {
          record := record.(state := state);
          changed := true;
        }
        records := records[id := record];
      }
      Prune();
      Log(before, Op.Settle(id, state));
      SettledRecords(before, id, state);
    }

    method Disconnect() returns (changed: seq<nat>)
      requires Valid()
      modifies this`records, this`notified, this`ops
      ensures Logged(Op.Disconnect)
      ensures changed == if transport == Receipt then UnsettledIds(old(records), nextId) else []
    {
      IsWellFormed();
      ghost var before := Model();
      changed := [];
      if transport == Receipt {
        var fired: seq<nat>;
        records, changed, fired := DisconnectAll(records, nextId);
        notified := notified + fired;
      }
      Log(before, Op.Disconnect);
    }

    method ObserveEcho(messageId: string) returns (changed: seq<nat>)
      requires Valid()
      modifies this`records, this`ops
      ensures Logged(Op.ObserveEcho(messageId))
      ensures changed == EchoedIds(old(records), messageId, nextId)
    {
      IsWellFormed();
      ghost var before := Model();
      records, changed := EchoAll(records, messageId, nextId);
      assert records == Touch(before, Op.ObserveEcho(messageId));
      Prune();
      Log(before, Op.ObserveEcho(messageId));
    }

    method Forget(id: nat) returns (forgotten: bool)
      requires Valid()
      modifies this`records, this`latest, this`ops
      ensures Logged(Op.Forget(id)) && forgotten == CanForget(old(Model()), id)
    {
      ghost var before := Model();
      forgotten := id in records && !IsUnsettled(records[id].state);
      if forgotten {
        records := records - {id};
        if latest == Some(id) {
          latest := None;
        }
      }
      Log(before, Op.Forget(id));
    }
  }
}
