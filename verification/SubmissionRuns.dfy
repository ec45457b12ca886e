/** What the prompt tracker keeps over every sequence of calls. */
module SubmissionRuns {
  import opened Options
  import opened Submissions

  function States(records: map<nat, Record>): map<nat, SubmissionState> {
    map id | id in records :: records[id].state
  }

  /** A tracker together with what it has no memory of: the last state every id ever had, and what was forgotten. */
  datatype World = World(tracker: Tracker, journal: map<nat, SubmissionState>, forgotten: set<nat>)

  function Begin(transport: Transport): World {
    World(Tracker(transport, map[], 0, None, []), map[], {})
  }

  function Advance(w: World, op: Op): World {
    World(Next(w.tracker, op),
          w.journal + States(Touch(w.tracker, op)),
          w.forgotten + if op.Forget? && CanForget(w.tracker, op.id) then {op.id} else {})
  }

  function Run(transport: Transport, ops: seq<Op>): World {
    if ops == [] then Begin(transport) else Advance(Run(transport, ops[..|ops| - 1]), ops[|ops| - 1])
  }

  /** Nothing is lost: what is no longer on record was settled when it was dropped, and on a receipt transport
      everything worth recovering is on record unless someone asked to forget it. */
  ghost predicate Accounted(w: World) {
    var t := w.tracker;
    && WellFormed(t)
    && (forall id :: id in w.journal <==> 1 <= id <= t.nextId)
    && (forall id :: id in t.records ==> w.journal[id] == t.records[id].state && id !in w.forgotten)
    && (forall id :: id in w.journal && id !in t.records ==>
                       !IsUnsettled(w.journal[id])
                       && (t.transport == Receipt && IsRecoverable(w.journal[id]) ==> id in w.forgotten))
    && (forall id :: id in w.forgotten ==> id in w.journal)
  }

  /** Pruning drops only what is accounted for. */
  lemma {:induction false} PruneAccounts(w: World, touched: Tracker)
    requires forall id :: id in touched.records ==> 1 <= id <= touched.nextId
    requires touched.latest.Some? ==> touched.latest.value in touched.records
    requires forall id :: id in w.journal <==> 1 <= id <= touched.nextId
    requires forall id :: id in touched.records ==> w.journal[id] == touched.records[id].state && id !in w.forgotten
    requires forall id :: id in w.journal && id !in touched.records ==>
                            !IsUnsettled(w.journal[id])
                            && (touched.transport == Receipt && IsRecoverable(w.journal[id]) ==> id in w.forgotten)
    requires forall id :: id in w.forgotten ==> id in w.journal
    requires w.tracker == Pruned(touched)
    ensures Accounted(w)
  {
  }

  lemma {:induction false} TouchKeepsIds(t: Tracker, op: Op)
    requires !op.Register?
    ensures Touch(t, op).Keys == t.records.Keys
  {
  }

  lemma {:induction false} RegisterAccounts(w: World, content: string)
    requires Accounted(w)
    ensures Accounted(Advance(w, Register(content)))
  {
    var id := w.tracker.nextId + 1;
    var touched := w.tracker.(records := Touch(w.tracker, Register(content)), nextId := id, latest := Some(id));
    PruneAccounts(Advance(w, Register(content)), touched);
  }

  lemma {:induction false} PruningOpAccounts(w: World, op: Op)
    requires Accounted(w) && (op.Settle? || op.ObserveEcho?)
    ensures Accounted(Advance(w, op))
  {
    TouchKeepsIds(w.tracker, op);
    PruneAccounts(Advance(w, op), w.tracker.(records := Touch(w.tracker, op)));
  }

  /** Restating records, without dropping any, keeps the account if every one of them is still kept. */
  lemma {:induction false} RestatingAccounts(w: World, w': World)
    requires Accounted(w) && w'.tracker.records.Keys == w.tracker.records.Keys && w'.forgotten == w.forgotten
    requires w'.tracker.transport == w.tracker.transport && w'.tracker.nextId == w.tracker.nextId
    requires w'.tracker.latest == w.tracker.latest
    requires w'.journal == w.journal + States(w'.tracker.records)
    requires forall id :: id in w'.tracker.records ==> Keeps(w'.tracker, id)
    ensures Accounted(w')
  {
    assert w'.journal.Keys == w.journal.Keys;
  }

  lemma {:induction false} TrackAccounts(w: World, op: Op)
    requires Accounted(w) && op.Track?
    ensures Accounted(Advance(w, op))
  {
    RestatingAccounts(w, Advance(w, op));
  }

  lemma {:induction false} DisconnectAccounts(w: World)
    requires Accounted(w)
    ensures Accounted(Advance(w, Disconnect))
  {
    RestatingAccounts(w, Advance(w, Disconnect));
  }

  lemma {:induction false} ForgetAccounts(w: World, id: nat)
    requires Accounted(w)
    ensures Accounted(Advance(w, Forget(id)))
  {
    assert Advance(w, Forget(id)).journal == w.journal;
  }

  lemma {:induction false} NothingIsLost(transport: Transport, ops: seq<Op>)
    ensures Accounted(Run(transport, ops)) && Run(transport, ops).tracker.transport == transport
  {
    if ops != [] {
      var op := ops[|ops| - 1];
      NothingIsLost(transport, ops[..|ops| - 1]);
      var w := Run(transport, ops[..|ops| - 1]);
      match op
      case Register(content) => RegisterAccounts(w, content);
      case Settle(_, _) => PruningOpAccounts(w, op);
      case ObserveEcho(_) => PruningOpAccounts(w, op);
      case Track(_, _, _) => TrackAccounts(w, op);
      case Disconnect => DisconnectAccounts(w);
      case Forget(id) => ForgetAccounts(w, id);
    }
  }

  /** A disconnected submission stays disconnected, and its evidence, once there, stays the same. */
  predicate StillDisconnected(was: SubmissionState, now: SubmissionState) {
    was.Disconnected? ==> now.Disconnected? && (was.evidence.Some? ==> now.evidence == was.evidence)
  }

  lemma {:induction false} DisconnectedStays(w: World, op: Op, id: nat)
    requires Accounted(w) && id in w.journal
    ensures id in Advance(w, op).journal && StillDisconnected(w.journal[id], Advance(w, op).journal[id])
  {
    var touched := Touch(w.tracker, op);
    if id in touched {
      assert op.Register? ==> id != w.tracker.nextId + 1;
      assert id in w.tracker.records;
      assert Advance(w, op).journal[id] == touched[id].state;
    }
  }

  /** Over every continuation of every run, a disconnected record never reopens and its receipt is never replaced. */
  lemma {:induction false} DisconnectedForGood(transport: Transport, ops: seq<Op>, more: seq<Op>, id: nat)
    requires id in Run(transport, ops).journal
    ensures id in Run(transport, ops + more).journal
    ensures StillDisconnected(Run(transport, ops).journal[id], Run(transport, ops + more).journal[id])
    decreases |more|
  {
    if more == [] {
      assert ops + more == ops;
    } else {
      var before := ops + more[..|more| - 1];
      assert (ops + more)[..|ops + more| - 1] == before && (ops + more)[|ops + more| - 1] == more[|more| - 1];
      DisconnectedForGood(transport, ops, more[..|more| - 1], id);
      NothingIsLost(transport, before);
      DisconnectedStays(Run(transport, before), more[|more| - 1], id);
    }
  }

  /** The contents registered so far, in order. */
  function Registered(ops: seq<Op>): seq<string> {
    if ops == [] then []
    else Registered(ops[..|ops| - 1]) + if ops[|ops| - 1].Register? then [ops[|ops| - 1].content] else []
  }

  /** Ids are handed out in order and never again, and a record always holds the content it was registered with. */
  lemma {:induction false} IdsAreNeverReused(transport: Transport, ops: seq<Op>)
    ensures var t := Run(transport, ops).tracker;
            && t.nextId == |Registered(ops)|
            && forall id :: id in t.records ==> 1 <= id <= t.nextId && t.records[id].content == Registered(ops)[id - 1]
  {
    if ops != [] {
      IdsAreNeverReused(transport, ops[..|ops| - 1]);
      var t, op := Run(transport, ops[..|ops| - 1]).tracker, ops[|ops| - 1];
      ContentKept(t, op);
    }
  }

  lemma {:induction false} ContentKept(t: Tracker, op: Op)
    ensures Next(t, op).nextId == t.nextId + if op.Register? then 1 else 0
    ensures forall id :: id in Next(t, op).records ==>
                           if op.Register? && id == t.nextId + 1 then Next(t, op).records[id].content == op.content
                           else id in t.records && Next(t, op).records[id].content == t.records[id].content
  {
  }

  // ----- disconnecting -----

  lemma {:induction false} UnsettledIdsExact(records: map<nat, Record>, n: nat)
    ensures forall id :: id in UnsettledIds(records, n) <==>
                         1 <= id <= n && id in records && IsUnsettled(records[id].state)
    ensures forall i, j :: 0 <= i < j < |UnsettledIds(records, n)| ==>
                             UnsettledIds(records, n)[i] < UnsettledIds(records, n)[j]
  {
    if n > 0 {
      UnsettledIdsExact(records, n - 1);
      var before := UnsettledIds(records, n - 1);
      assert forall i :: 0 <= i < |before| ==> before[i] <= n - 1 by {
        forall i | 0 <= i < |before| ensures before[i] <= n - 1 {
          assert before[i] in before;
        }
      }
    }
  }

  lemma {:induction false} NoneUnsettled(records: map<nat, Record>, n: nat)
    requires forall id :: id in records ==> !IsUnsettled(records[id].state)
    ensures UnsettledIds(records, n) == [] && Fired(records, n) == []
  {
    if n > 0 {
      NoneUnsettled(records, n - 1);
    }
  }

  lemma {:induction false} DisconnectOnce(t: Tracker)
    requires WellFormed(t) && t.transport == Receipt
    ensures var ids, t' := UnsettledIds(t.records, t.nextId), Next(t, Disconnect);
            && (forall id :: id in ids <==> id in t.records && IsUnsettled(t.records[id].state))
            && t'.records.Keys == t.records.Keys
            && (forall id :: id in t'.records ==> !IsUnsettled(t'.records[id].state))
            && (forall id :: id in ids ==>
                               && t'.records[id].state == DisconnectState(t.records[id].state)
                               && t'.records[id].sender == None)
            && (forall id :: id in t.records && id !in ids ==> t'.records[id] == t.records[id])
  {
    UnsettledIdsExact(t.records, t.nextId);
  }

  lemma {:induction false} DisconnectTwice(t: Tracker)
    requires t.transport == Receipt && forall id :: id in t.records ==> !IsUnsettled(t.records[id].state)
    ensures UnsettledIds(t.records, t.nextId) == [] && Next(t, Disconnect) == t
  {
    NoneUnsettled(t.records, t.nextId);
    assert Next(t, Disconnect).records == t.records;
  }

  /** On a receipt transport, after any run, disconnecting settles exactly the unsettled submissions, returns their
      ids in order, keeps every record, and a second disconnect finds nothing to do. */
  lemma {:induction false} DisconnectSettlesAll(ops: seq<Op>, t: Tracker, ids: seq<nat>, t': Tracker)
    requires t == Run(Receipt, ops).tracker && ids == UnsettledIds(t.records, t.nextId) && t' == Next(t, Disconnect)
    ensures forall id :: id in ids <==> id in t.records && IsUnsettled(t.records[id].state)
    ensures forall i, j :: 0 <= i < j < |ids| ==> ids[i] < ids[j]
    ensures t'.records.Keys == t.records.Keys
    ensures forall id :: id in t'.records ==> !IsUnsettled(t'.records[id].state)
    ensures forall id :: id in ids ==>
                           t'.records[id].state == DisconnectState(t.records[id].state) && t'.records[id].sender == None
    ensures forall id :: id in t.records && id !in ids ==> t'.records[id] == t.records[id]
    ensures UnsettledIds(t'.records, t'.nextId) == [] && Next(t', Disconnect) == t'
  {
    NothingIsLost(Receipt, ops);
    UnsettledIdsExact(t.records, t.nextId);
    DisconnectOnce(t);
    DisconnectTwice(t');
  }
}
