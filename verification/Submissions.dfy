/**
 The prompt tracker of `crates/acp_thread/src/submission.rs` on values: who owns a submitted prompt until it is
 settled, and which records survive pruning.
 */
module Submissions {
  import opened Options

  datatype PromptReceipt = PromptReceipt(messageId: string, payload: string)

  datatype SubmissionState =
    | Pending
    | Accepted(receipt: PromptReceipt, echoed: bool)
    | Disconnected(evidence: Option<PromptReceipt>)
    | Completed
    | Failed(message: string)
    | Cancelled

  /** `sender` is the token of the one-shot channel that disconnection fires. */
  datatype Record = Record(content: string, state: SubmissionState, task: Option<nat>, sender: Option<nat>)

  datatype Transport = Completion | Receipt | AgentOwned

  /** `notified` lists the sender tokens fired so far. */
  datatype Tracker = Tracker(transport: Transport, records: map<nat, Record>, nextId: nat, latest: Option<nat>,
                             notified: seq<nat>)

  predicate IsUnsettled(s: SubmissionState) {
    s.Pending? || (s.Accepted? && !s.echoed)
  }

  predicate IsRecoverable(s: SubmissionState) {
    IsUnsettled(s) || s.Failed? || s.Cancelled? || s.Disconnected?
  }

  datatype Op =
    | Register(content: string)
    | Track(id: nat, task: nat, sender: Option<nat>)
    | Settle(id: nat, state: SubmissionState)
    | Disconnect
    | ObserveEcho(messageId: string)
    | Forget(id: nat)

  predicate Keeps(t: Tracker, id: nat)
    requires id in t.records
  {
    var state := t.records[id].state;
    t.latest == Some(id) || IsUnsettled(state) || (t.transport == Receipt && IsRecoverable(state))
  }

  function Pruned(t: Tracker): Tracker {
    t.(records := map id | id in t.records && Keeps(t, id) :: t.records[id])
  }

  /** Settling a disconnected record only ever adds evidence of acceptance. */
  function SettleState(was: SubmissionState, to: SubmissionState): SubmissionState {
    if was.Disconnected? then
      if was.evidence.None? && to.Accepted? then Disconnected(Some(to.receipt)) else was
    else to
  }

  function DisconnectState(s: SubmissionState): SubmissionState {
    match s
    case Pending => Disconnected(None)
    case Accepted(receipt, false) => Disconnected(Some(receipt))
    case _ => s
  }

  predicate Echoes(s: SubmissionState, messageId: string) {
    s.Accepted? && s.receipt.messageId == messageId && !s.echoed
  }

  function EchoState(s: SubmissionState, messageId: string): SubmissionState {
    if Echoes(s, messageId) then s.(echoed := true) else s
  }

  function DisconnectRecord(r: Record): Record {
    if IsUnsettled(r.state) then r.(state := DisconnectState(r.state), sender := None) else r
  }

  /** The records after an operation, before anything is pruned or forgotten. */
  function Touch(t: Tracker, op: Op): map<nat, Record> {
    match op
    case Register(content) => t.records[t.nextId + 1 := Record(content, Pending, None, None)]
    case Track(id, task, sender) =>
      if id in t.records then t.records[id := t.records[id].(task := Some(task), sender := sender)] else t.records
    case Settle(id, state) =>
      if id in t.records
      then t.records[id := t.records[id].(state := SettleState(t.records[id].state, state), sender := None)]
      else t.records
    case Disconnect =>
      if t.transport != Receipt then t.records else map id | id in t.records :: DisconnectRecord(t.records[id])
    case ObserveEcho(m) =>
      map id | id in t.records :: t.records[id].(state := EchoState(t.records[id].state, m))
    case Forget(_) => t.records
  }

  predicate CanForget(t: Tracker, id: nat) {
    id in t.records && !IsUnsettled(t.records[id].state)
  }

  /** The ids up to `n` whose record satisfies the operation's test, in ascending order. */
  function UnsettledIds(records: map<nat, Record>, n: nat): (ids: seq<nat>) {
    if n == 0 then []
    else UnsettledIds(records, n - 1) + if n in records && IsUnsettled(records[n].state) then [n] else []
  }

  function EchoedIds(records: map<nat, Record>, messageId: string, n: nat): (ids: seq<nat>) {
    if n == 0 then []
    else EchoedIds(records, messageId, n - 1) + if n in records && Echoes(records[n].state, messageId) then [n] else []
  }

  /** The tokens that disconnecting the records up to `n` fires. */
  function Fired(records: map<nat, Record>, n: nat): seq<nat> {
    if n == 0 then []
    else
      Fired(records, n - 1) +
      if n in records && IsUnsettled(records[n].state) && records[n].sender.Some? then [records[n].sender.value] else []
  }

  function Next(t: Tracker, op: Op): Tracker {
    var touched := t.(records := Touch(t, op));
    match op
    case Register(_) => Pruned(touched.(nextId := t.nextId + 1, latest := Some(t.nextId + 1)))
    case Track(_, _, _) => touched
    case Settle(_, _) => Pruned(touched)
    case Disconnect =>
      if t.transport != Receipt then t else touched.(notified := t.notified + Fired(t.records, t.nextId))
    case ObserveEcho(_) => Pruned(touched)
    case Forget(id) =>
      if !CanForget(t, id) then t
      else t.(records := t.records - {id}, latest := if t.latest == Some(id) then None else t.latest)
  }

  ghost predicate WellFormed(t: Tracker) {
    && (forall id :: id in t.records ==> 1 <= id <= t.nextId && Keeps(t, id))
    && (t.latest.Some? ==> t.latest.value in t.records)
  }
}
