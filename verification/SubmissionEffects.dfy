/**
 What each operation of the prompt tracker does after any run, state by state: which records are kept, what becomes of
 a prompt that is settled, disconnected, echoed or forgotten, and which one-shot senders are fired.
 */
module SubmissionEffects {
  import opened Options
  import opened Submissions
  import opened SubmissionRuns

  lemma {:induction false} RunMore(transport: Transport, ops: seq<Op>, op: Op)
    ensures Run(transport, ops + [op]) == Advance(Run(transport, ops), op)
    ensures Accounted(Run(transport, ops)) && Run(transport, ops).tracker.transport == transport
  {
    assert (ops + [op])[..|ops|] == ops;
    NothingIsLost(transport, ops);
  }

  /** After any run, a prompt is on record exactly if nobody forgot it and it is the latest, unsettled or, on a receipt
      transport, worth recovering; its last state is the one on record. */
  lemma {:induction false} KeptExactly(transport: Transport, ops: seq<Op>, id: nat)
    ensures var w := Run(transport, ops);
            && (id in w.journal <==> 1 <= id <= |Registered(ops)|)
            && (id in w.tracker.records <==>
                && id in w.journal && id !in w.forgotten
                && var state := w.journal[id];
                || w.tracker.latest == Some(id) || state.Pending? || (state.Accepted? && !state.echoed)
                || (transport == Receipt && (state.Failed? || state.Cancelled? || state.Disconnected?)))
            && (id in w.tracker.records ==> w.tracker.records[id].state == w.journal[id])
  {
    NothingIsLost(transport, ops);
    IdsAreNeverReused(transport, ops);
  }

  /** The latest prompt is the one registered last, unless it was forgotten. */
  predicate HasLatest(w: World) {
    w.tracker.latest ==
    if w.tracker.nextId == 0 || w.tracker.nextId in w.forgotten then None else Some(w.tracker.nextId)
  }

  lemma {:induction false} LatestStep(w: World, op: Op)
    requires HasLatest(w) && forall id :: id in w.forgotten ==> id <= w.tracker.nextId
    ensures HasLatest(Advance(w, op))
  {
  }

  lemma {:induction false} LatestExactly(transport: Transport, ops: seq<Op>)
    ensures HasLatest(Run(transport, ops))
  {
    if ops != [] {
      var before := ops[..|ops| - 1];
      LatestExactly(transport, before);
      NothingIsLost(transport, before);
      LatestStep(Run(transport, before), ops[|ops| - 1]);
    }
  }

  // ----- registering, tracking, forgetting -----

  lemma {:induction false} RegisterStep(w: World, content: string)
    requires Accounted(w)
    ensures var w', id := Advance(w, Register(content)), w.tracker.nextId + 1;
            && w'.journal == w.journal[id := Pending]
            && id in w'.tracker.records && w'.tracker.records[id] == Record(content, Pending, None, None)
  {
    var id := w.tracker.nextId + 1;
    var touched := Touch(w.tracker, Register(content));
    JournalTakesOne(w.journal, w.tracker.records, touched, id, Record(content, Pending, None, None));
  }

  lemma {:induction false} JournalTakesOne(
    journal: map<nat, SubmissionState>, records: map<nat, Record>, touched: map<nat, Record>, id: nat, r: Record)
    requires touched == records[id := r]
    requires forall i :: i in records ==> i in journal && journal[i] == records[i].state
    ensures journal + States(touched) == journal[id := r.state]
  {
  }

  /** A new prompt is pending under the next id, and no other changes its state. */
  lemma {:induction false} Registers(transport: Transport, ops: seq<Op>, content: string)
    ensures var w, w' := Run(transport, ops), Run(transport, ops + [Register(content)]);
            var id := |Registered(ops)| + 1;
            && w'.journal == w.journal[id := Pending] && w'.forgotten == w.forgotten
            && id in w'.tracker.records && w'.tracker.records[id] == Record(content, Pending, None, None)
  {
    RunMore(transport, ops, Register(content));
    IdsAreNeverReused(transport, ops);
    RegisterStep(Run(transport, ops), content);
  }

  ghost predicate IsForgetting(w: World, w': World, id: nat)
    requires Accounted(w)
  {
    var settled := id in w.tracker.records && !w.journal[id].Pending?
                   && (w.journal[id].Accepted? ==> w.journal[id].echoed);
    && w'.journal == w.journal
    && w'.forgotten == (if settled then w.forgotten + {id} else w.forgotten)
    && w'.tracker.records == (if settled then w.tracker.records - {id} else w.tracker.records)
  }

  lemma {:induction false} ForgetStep(w: World, id: nat)
    requires Accounted(w)
    ensures IsForgetting(w, Advance(w, Forget(id)), id)
  {
    assert Advance(w, Forget(id)).journal == w.journal;
  }

  /** A forgotten prompt leaves the records, if it was there and settled; otherwise nothing happens. */
  lemma {:induction false} Forgets(transport: Transport, ops: seq<Op>, id: nat)
    ensures Accounted(Run(transport, ops))
    ensures IsForgetting(Run(transport, ops), Run(transport, ops + [Forget(id)]), id)
  {
    RunMore(transport, ops, Forget(id));
    ForgetStep(Run(transport, ops), id);
  }

  ghost predicate Holds(was: Record, now: Record, op: Op, id: nat) {
    && now.content == was.content
    && now.task == (if op.Track? && op.id == id then Some(op.task) else was.task)
    && now.sender ==
       if op.Track? && op.id == id then op.sender
       else if op.Settle? && op.id == id then None
       else if op.Disconnect? && now.state != was.state then None
       else was.sender
  }

  lemma {:induction false} HoldsStep(t: Tracker, op: Op, id: nat)
    requires id in t.records && id <= t.nextId && id in Next(t, op).records
    ensures Holds(t.records[id], Next(t, op).records[id], op, id)
  {
    assert id in Touch(t, op) && Next(t, op).records[id] == Touch(t, op)[id];
  }

  /** The task and the sender of a record are those it was last tracked with; the sender is gone once it is settled or
      disconnected. */
  lemma {:induction false} HoldsExactly(transport: Transport, ops: seq<Op>, op: Op, id: nat)
    requires id in Run(transport, ops).tracker.records && id in Run(transport, ops + [op]).tracker.records
    ensures Holds(Run(transport, ops).tracker.records[id], Run(transport, ops + [op]).tracker.records[id], op, id)
  {
    RunMore(transport, ops, op);
    HoldsStep(Run(transport, ops).tracker, op, id);
  }

  lemma {:induction false} TrackStep(w: World, id: nat, task: nat, sender: Option<nat>)
    requires Accounted(w)
    ensures var w' := Advance(w, Track(id, task, sender));
            w'.journal == w.journal && w'.tracker.records.Keys == w.tracker.records.Keys
  {
    assert Advance(w, Track(id, task, sender)).journal == w.journal;
  }

  /** Tracking changes no state and keeps every record. */
  lemma {:induction false} Tracks(transport: Transport, ops: seq<Op>, id: nat, task: nat, sender: Option<nat>)
    ensures var w, w' := Run(transport, ops), Run(transport, ops + [Track(id, task, sender)]);
            && w'.journal == w.journal && w'.forgotten == w.forgotten
            && w'.tracker.records.Keys == w.tracker.records.Keys
  {
    RunMore(transport, ops, Track(id, task, sender));
    TrackStep(Run(transport, ops), id, task, sender);
  }

  // ----- settling -----

  /** The state that settling leaves: the one asked for, unless the prompt was disconnected. Then it stays so and only
      ever gains a receipt. */
  ghost predicate SettledState(was: SubmissionState, asked: SubmissionState, now: SubmissionState) {
    && (!was.Disconnected? ==> now == asked)
    && (was == Disconnected(None) && asked.Accepted? ==> now == Disconnected(Some(asked.receipt)))
    && (was.Disconnected? && (was.evidence.Some? || !asked.Accepted?) ==> now == was)
  }

  /** What settling does to the records: it drops some, and changes no other than its own. */
  lemma {:induction false} SettledRecords(t: Tracker, id: nat, s: SubmissionState)
    ensures var records := Next(t, Settle(id, s)).records;
            && (forall i :: i in records ==> i in t.records && (i != id ==> records[i] == t.records[i]))
            && (id in records ==> SettledState(t.records[id].state, s, records[id].state))
  {
  }

  lemma {:induction false} SettleStep(w: World, id: nat, s: SubmissionState, i: nat)
    requires Accounted(w) && i in w.journal
    ensures var w' := Advance(w, Settle(id, s));
            && i in w'.journal
            && if i == id && id in w.tracker.records then SettledState(w.journal[id], s, w'.journal[id])
               else w'.journal[i] == w.journal[i]
  {
    var touched := Touch(w.tracker, Settle(id, s));
    assert touched.Keys == w.tracker.records.Keys;
  }

  /** Settling gives a prompt on record the state it should have, and changes the state of no other. */
  lemma {:induction false} Settles(transport: Transport, ops: seq<Op>, id: nat, s: SubmissionState, i: nat)
    requires i in Run(transport, ops).journal
    ensures var w, w' := Run(transport, ops), Run(transport, ops + [Settle(id, s)]);
            && i in w'.journal && w'.forgotten == w.forgotten
            && if i == id && id in w.tracker.records then SettledState(w.journal[id], s, w'.journal[id])
               else w'.journal[i] == w.journal[i]
  {
    RunMore(transport, ops, Settle(id, s));
    SettleStep(Run(transport, ops), id, s, i);
  }

  // ----- disconnecting -----

  lemma {:induction false} DisconnectStep(w: World, id: nat)
    requires Accounted(w) && id in w.journal
    ensures var w', receipt := Advance(w, Disconnect), w.tracker.transport == Receipt;
            && id in w'.journal && w'.tracker.records.Keys == w.tracker.records.Keys
            && w'.journal[id] ==
               if receipt && w.journal[id].Pending? then Disconnected(None)
               else if receipt && w.journal[id].Accepted? && !w.journal[id].echoed
               then Disconnected(Some(w.journal[id].receipt))
               else w.journal[id]
  {
    assert Touch(w.tracker, Disconnect).Keys == w.tracker.records.Keys;
  }

  /** On a receipt transport every unsettled prompt is disconnected and keeps the receipt it had; on any other
      transport nothing happens. */
  lemma {:induction false} Disconnects(transport: Transport, ops: seq<Op>, id: nat)
    requires id in Run(transport, ops).journal
    ensures var w, w' := Run(transport, ops), Run(transport, ops + [Disconnect]);
            && id in w'.journal && w'.forgotten == w.forgotten
            && w'.tracker.records.Keys == w.tracker.records.Keys
            && w'.journal[id] ==
               if transport == Receipt && w.journal[id].Pending? then Disconnected(None)
               else if transport == Receipt && w.journal[id].Accepted? && !w.journal[id].echoed
               then Disconnected(Some(w.journal[id].receipt))
               else w.journal[id]
  {
    RunMore(transport, ops, Disconnect);
    DisconnectStep(Run(transport, ops), id);
  }

  /** The unsettled prompts up to `n` that hold a sender, in ascending order. */
  ghost predicate AreHolders(records: map<nat, Record>, n: nat, ids: seq<nat>) {
    && (forall id :: id in ids <==>
                     && 1 <= id <= n && id in records && records[id].sender.Some?
                     && (records[id].state.Pending? || (records[id].state.Accepted? && !records[id].state.echoed)))
    && (forall i, j :: 0 <= i < j < |ids| ==> ids[i] < ids[j])
  }

  lemma {:induction false} FiredExactly(records: map<nat, Record>, n: nat) returns (ids: seq<nat>)
    ensures AreHolders(records, n, ids) && |Fired(records, n)| == |ids|
    ensures forall i :: 0 <= i < |ids| && ids[i] in records && records[ids[i]].sender.Some? ==>
                          Fired(records, n)[i] == records[ids[i]].sender.value
  {
    ids := [];
    if n > 0 {
      var before := FiredExactly(records, n - 1);
      assert forall i :: 0 <= i < |before| ==> before[i] in before;
      ids := before + if n in records && IsUnsettled(records[n].state) && records[n].sender.Some? then [n] else [];
    }
  }

  /** `ids` are the holders, and their senders are what has been fired since. */
  ghost predicate AreFired(t: Tracker, notified: seq<nat>, ids: seq<nat>) {
    && AreHolders(t.records, t.nextId, ids) && |notified| == |t.notified| + |ids| && t.notified <= notified
    && forall i :: 0 <= i < |ids| ==>
                     && ids[i] in t.records && t.records[ids[i]].sender.Some?
                     && notified[|t.notified| + i] == t.records[ids[i]].sender.value
  }

  lemma {:induction false} FireStep(t: Tracker) returns (ids: seq<nat>)
    ensures AreFired(t, t.notified + Fired(t.records, t.nextId), ids)
  {
    ids := FiredExactly(t.records, t.nextId);
    forall i | 0 <= i < |ids| ensures ids[i] in t.records && t.records[ids[i]].sender.Some? {
      assert ids[i] in ids;
    }
  }

  /** Disconnecting on a receipt transport fires the sender of every unsettled prompt that holds one, once each and in
      the order of their ids. */
  lemma {:induction false} FiresEachSender(ops: seq<Op>) returns (ids: seq<nat>)
    ensures AreFired(Run(Receipt, ops).tracker, Run(Receipt, ops + [Disconnect]).tracker.notified, ids)
  {
    RunMore(Receipt, ops, Disconnect);
    ids := FireStep(Run(Receipt, ops).tracker);
  }

  lemma {:induction false} SilentStep(t: Tracker, op: Op)
    requires !op.Disconnect? || t.transport != Receipt
    ensures Next(t, op).notified == t.notified
  {
  }

  /** Nothing else fires any. */
  lemma {:induction false} FiresNoOther(transport: Transport, ops: seq<Op>, op: Op)
    requires !op.Disconnect? || transport != Receipt
    ensures Run(transport, ops + [op]).tracker.notified == Run(transport, ops).tracker.notified
  {
    RunMore(transport, ops, op);
    SilentStep(Run(transport, ops).tracker, op);
  }

  // ----- echoes -----

  lemma {:induction false} EchoStep(w: World, messageId: string, id: nat)
    requires Accounted(w) && id in w.journal
    ensures var w' := Advance(w, ObserveEcho(messageId));
            && id in w'.journal
            && w'.journal[id] ==
               if id in w.tracker.records && w.journal[id].Accepted? && w.journal[id].receipt.messageId == messageId
               then Accepted(w.journal[id].receipt, true)
               else w.journal[id]
  {
    var touched := Touch(w.tracker, ObserveEcho(messageId));
    assert id in touched <==> id in w.tracker.records;
    if id in touched {
      assert Advance(w, ObserveEcho(messageId)).journal[id] == touched[id].state;
    }
  }

  /** An echo marks every accepted prompt of its message as echoed, keeping the receipt, and touches no other. */
  lemma {:induction false} MarksEchoes(transport: Transport, ops: seq<Op>, messageId: string, id: nat)
    requires id in Run(transport, ops).journal
    ensures var w, w' := Run(transport, ops), Run(transport, ops + [ObserveEcho(messageId)]);
            && id in w'.journal && w'.forgotten == w.forgotten
            && w'.journal[id] ==
               if id in w.tracker.records && w.journal[id].Accepted? && w.journal[id].receipt.messageId == messageId
               then Accepted(w.journal[id].receipt, true)
               else w.journal[id]
  {
    RunMore(transport, ops, ObserveEcho(messageId));
    EchoStep(Run(transport, ops), messageId, id);
  }

  lemma {:induction false} EchoedIdsExact(records: map<nat, Record>, messageId: string, n: nat)
    ensures forall id :: id in EchoedIds(records, messageId, n) <==>
                         && 1 <= id <= n && id in records && records[id].state.Accepted?
                         && records[id].state.receipt.messageId == messageId && !records[id].state.echoed
    ensures forall i, j :: 0 <= i < j < |EchoedIds(records, messageId, n)| ==>
                             EchoedIds(records, messageId, n)[i] < EchoedIds(records, messageId, n)[j]
  {
    if n > 0 {
      EchoedIdsExact(records, messageId, n - 1);
      var before := EchoedIds(records, messageId, n - 1);
      assert forall i :: 0 <= i < |before| ==> before[i] in before;
    }
  }
}
