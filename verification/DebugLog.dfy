/**
 The labels of the ACP debug log (`push_stream_message_for_connection` and `clear_messages` in
 `crates/acp_tools/src/acp_tools.rs`): a response shows the method of the request it answers, as section 5 of the
 JSON-RPC 2.0 specification pairs them by id.
 */
module DebugLog {
  import opened Options

  datatype Direction = Incoming | Outgoing | Stderr

  datatype Content =
    | Request(id: string, name: string, params: string)
    | Response(id: string, result: string)
    | Notification(name: string, params: string)
    | StderrLine(line: string)

  datatype Message = Message(direction: Direction, content: Content)

  datatype Entry = Entry(name: string, kind: string, id: Option<string>, direction: Direction, params: string)

  const UNRECOGNIZED := "[unrecognized response]"

  function Opposite(d: Direction): Direction {
    match d
    case Incoming => Outgoing
    case Outgoing => Incoming
    case Stderr => Stderr
  }

  predicate IsRequest(m: Message, d: Direction, id: string) {
    m.direction == d && m.content.Request? && m.content.id == id
  }

  /** A response to a request sent in direction `d` travels the other way. */
  predicate IsAnswer(m: Message, d: Direction, id: string) {
    m.direction == Opposite(d) && m.content.Response? && m.content.id == id
  }

  /** The request at `p` is the latest of its direction and id among the first `n` messages, and unanswered. */
  ghost predicate IsOpen(log: seq<Message>, n: nat, d: Direction, id: string, p: nat)
    requires n <= |log|
  {
    p < n && IsRequest(log[p], d, id) && forall k :: p < k < n ==> !IsRequest(log[k], d, id) && !IsAnswer(log[k], d, id)
  }

  /** The method map that the first `n` messages leave for requests of direction `d`. */
  function OpenMethods(log: seq<Message>, n: nat, d: Direction): map<string, string>
    requires n <= |log|
  {
    if n == 0 then map[]
    else
      var before, m := OpenMethods(log, n - 1, d), log[n - 1];
      if m.direction == d && m.content.Request? then before[m.content.id := m.content.name]
      else if m.direction == Opposite(d) && m.content.Response? then before - {m.content.id}
      else before
  }

  /** The log entry of the message at `n`; a request or response on standard error has none. */
  function EntryAt(log: seq<Message>, n: nat): Option<Entry>
    requires n < |log|
  {
    var m := log[n];
    match m.content
    case Request(id, name, params) =>
      if m.direction == Stderr then None else Some(Entry(name, "request", Some(id), m.direction, params))
    case Response(id, result) =>
      if m.direction == Stderr then None
      else
        var methods := OpenMethods(log, n, Opposite(m.direction));
        Some(Entry(if id in methods then methods[id] else UNRECOGNIZED, "response", Some(id), m.direction, result))
    case Notification(name, params) => Some(Entry(name, "notification", None, m.direction, params))
    case StderrLine(line) => Some(Entry("stderr", "stderr", None, m.direction, line))
  }

  function Entries(log: seq<Message>, n: nat): seq<Entry>
    requires n <= |log|
  {
    if n == 0 then []
    else Entries(log, n - 1) + if EntryAt(log, n - 1).Some? then [EntryAt(log, n - 1).value] else []
  }

  class WatchedConnection {
    var messages: seq<Entry>
    var incomingMethods: map<string, string>
    var outgoingMethods: map<string, string>
    ghost var log: seq<Message>  // everything received since the last clear

    ghost predicate Valid()
      reads this
    {
      && messages == Entries(log, |log|)
      && incomingMethods == OpenMethods(log, |log|, Incoming) && outgoingMethods == OpenMethods(log, |log|, Outgoing)
    }

    constructor ()
      ensures Valid() && log == []
    {
      messages, incomingMethods, outgoingMethods, log := [], map[], map[], [];
    }

    method Push(m: Message)
      requires Valid()
      modifies this
      ensures Valid() && log == old(log) + [m]
    {
      ghost var log' := log + [m];
      LogPrefix(log, m, |log|);
      var entry: Option<Entry> := None;
      match m.content {
        case Request(id, name, params) =>
          if m.direction == Incoming {
            incomingMethods := incomingMethods[id := name];
          } else if m.direction == Outgoing {
            outgoingMethods := outgoingMethods[id := name];
          }
          if m.direction != Stderr {
            entry := Some(Entry(name, "request", Some(id), m.direction, params));
          }
        case Response(id, result) =>
          var name := UNRECOGNIZED;
          if m.direction == Incoming {
            if id in outgoingMethods {
              name := outgoingMethods[id];
            }
            outgoingMethods := outgoingMethods - {id};
          } else if m.direction == Outgoing {
            if id in incomingMethods {
              name := incomingMethods[id];
            }
            incomingMethods := incomingMethods - {id};
          }
          if m.direction != Stderr {
            entry := Some(Entry(name, "response", Some(id), m.direction, result));
          }
        case Notification(name, params) => entry := Some(Entry(name, "notification", None, m.direction, params));
        case StderrLine(line) => entry := Some(Entry("stderr", "stderr", None, m.direction, line));
      }
      if entry.Some? {
        messages := messages + [entry.value];
      }
      log := log';
    }

    method Clear()
      modifies this
      ensures Valid() && log == []
    {
      messages, incomingMethods, outgoingMethods, log := [], map[], map[], [];
    }
  }

  lemma {:induction false} LogPrefix(log: seq<Message>, m: Message, n: nat)
    requires n <= |log|
    ensures OpenMethods(log + [m], n, Incoming) == OpenMethods(log, n, Incoming)
    ensures OpenMethods(log + [m], n, Outgoing) == OpenMethods(log, n, Outgoing)
    ensures Entries(log + [m], n) == Entries(log, n)
  {
    if n > 0 {
      LogPrefix(log, m, n - 1);
    }
  }

  lemma {:induction false} MapStep(log: seq<Message>, n: nat, d: Direction, id: string)
    requires 0 < n <= |log| && d != Stderr
    ensures var before, after := OpenMethods(log, n - 1, d), OpenMethods(log, n, d);
            if IsRequest(log[n - 1], d, id) then id in after && after[id] == log[n - 1].content.name
            else if IsAnswer(log[n - 1], d, id) then id !in after
            else (id in after <==> id in before) && (id in after ==> after[id] == before[id])
  {
  }

  /** The map holds a method for an id exactly if a request of that direction and id is open, and then its method. */
  lemma {:induction false} MapHoldsOpenRequests(log: seq<Message>, n: nat, d: Direction, id: string)
    requires n <= |log| && d != Stderr
    ensures id in OpenMethods(log, n, d) <==> exists p: nat :: IsOpen(log, n, d, id, p)
    ensures forall p: nat :: IsOpen(log, n, d, id, p) ==>
                               id in OpenMethods(log, n, d) && OpenMethods(log, n, d)[id] == log[p].content.name
  {
    if n > 0 {
      MapHoldsOpenRequests(log, n - 1, d, id);
      MapStep(log, n, d, id);
      OpenStep(log, n, d, id);
      if IsRequest(log[n - 1], d, id) {
        assert IsOpen(log, n, d, id, n - 1);
      } else if id in OpenMethods(log, n, d) {
        var p: nat :| IsOpen(log, n - 1, d, id, p);
        assert IsOpen(log, n, d, id, p);
      }
    }
  }

  lemma {:induction false} OpenStep(log: seq<Message>, n: nat, d: Direction, id: string)
    requires 0 < n <= |log|
    ensures forall p: nat :: IsOpen(log, n, d, id, p) <==>
                             if IsRequest(log[n - 1], d, id) then p == n - 1
                             else IsOpen(log, n - 1, d, id, p) && !IsAnswer(log[n - 1], d, id)
  {
  }

  /** At most one request is open for a direction and id, so the label is unique. */
  lemma {:induction false} OneOpenRequest(log: seq<Message>, n: nat, d: Direction, id: string, p: nat, q: nat)
    requires n <= |log| && IsOpen(log, n, d, id, p) && IsOpen(log, n, d, id, q)
    ensures p == q
  {
    assert IsRequest(log[p], d, id) && IsRequest(log[q], d, id);
  }

  /** A response is labelled with the method of the latest request of the other direction and the same id, if no
      response to it came since; there is never more than one such request. Otherwise it is labelled as unrecognized. */
  lemma {:induction false} ResponsesNameTheirRequest(log: seq<Message>, n: nat)
    requires n < |log| && log[n].content.Response? && log[n].direction != Stderr
    ensures var d, id := Opposite(log[n].direction), log[n].content.id;
            && EntryAt(log, n).Some?
            && (forall p: nat, q: nat :: IsOpen(log, n, d, id, p) && IsOpen(log, n, d, id, q) ==> p == q)
            && (forall p: nat :: IsOpen(log, n, d, id, p) ==> EntryAt(log, n).value.name == log[p].content.name)
            && ((forall p: nat :: !IsOpen(log, n, d, id, p)) ==> EntryAt(log, n).value.name == UNRECOGNIZED)
  {
    var d, id := Opposite(log[n].direction), log[n].content.id;
    MapHoldsOpenRequests(log, n, d, id);
    forall p: nat, q: nat | IsOpen(log, n, d, id, p) && IsOpen(log, n, d, id, q) ensures p == q {
      OneOpenRequest(log, n, d, id, p, q);
    }
  }

  // ----- one entry per message -----

  /** Requests and responses on standard error are not shown; everything else is. */
  predicate IsShown(m: Message) {
    !(m.direction == Stderr && (m.content.Request? || m.content.Response?))
  }

  /** The entry of a message: its direction, its kind, its id if it has one, and what it carries. A response is named
      after the open request it answers. */
  ghost predicate IsEntryOf(log: seq<Message>, n: nat, e: Entry)
    requires n < |log|
  {
    var m := log[n];
    && e.direction == m.direction
    && (m.content.Request? ==> e == Entry(m.content.name, "request", Some(m.content.id), m.direction, m.content.params))
    && (m.content.Notification? ==> e == Entry(m.content.name, "notification", None, m.direction, m.content.params))
    && (m.content.StderrLine? ==> e == Entry("stderr", "stderr", None, m.direction, m.content.line))
    && (m.content.Response? ==>
          && e.kind == "response" && e.id == Some(m.content.id) && e.params == m.content.result
          && (forall p: nat :: IsOpen(log, n, Opposite(m.direction), m.content.id, p) ==> e.name == log[p].content.name)
          && ((forall p: nat :: !IsOpen(log, n, Opposite(m.direction), m.content.id, p)) ==>
                e.name == "[unrecognized response]"))
  }

  lemma {:induction false} EntryExactly(log: seq<Message>, n: nat)
    requires n < |log|
    ensures EntryAt(log, n).Some? <==> IsShown(log[n])
    ensures EntryAt(log, n).Some? ==> IsEntryOf(log, n, EntryAt(log, n).value)
  {
    if log[n].content.Response? && log[n].direction != Stderr {
      ResponsesNameTheirRequest(log, n);
    }
  }

  /** The entries of the messages at these positions, in order. */
  ghost predicate AreEntriesOf(log: seq<Message>, n: nat, entries: seq<Entry>, ps: seq<nat>) {
    && n <= |log| && |ps| == |entries| && (forall i, j :: 0 <= i < j < |ps| ==> ps[i] < ps[j])
    && (forall p: nat :: p in ps <==> p < n && IsShown(log[p]))
    && (forall k :: 0 <= k < |ps| ==> ps[k] < |log| && IsEntryOf(log, ps[k], entries[k]))
  }

  lemma {:induction false} NextEntry(log: seq<Message>, n: nat, entries: seq<Entry>, ps: seq<nat>, e: Entry)
    requires n < |log| && AreEntriesOf(log, n, entries, ps) && IsShown(log[n]) && IsEntryOf(log, n, e)
    ensures AreEntriesOf(log, n + 1, entries + [e], ps + [n])
  {
    var more, ps' := entries + [e], ps + [n];
    forall k | 0 <= k < |ps| ensures ps[k] < n {
      assert ps[k] in ps;
    }
    forall k | 0 <= k < |ps'| ensures ps'[k] < |log| && IsEntryOf(log, ps'[k], more[k]) {
      assert k < |ps| ==> ps'[k] == ps[k] && more[k] == entries[k];
    }
  }

  /** After any history every message that is shown has exactly one entry, in order and as it should be. */
  lemma {:induction false} OneEntryEach(log: seq<Message>, n: nat) returns (ps: seq<nat>)
    requires n <= |log|
    ensures AreEntriesOf(log, n, Entries(log, n), ps)
  {
    ps := [];
    if n > 0 {
      ps := OneEntryEach(log, n - 1);
      EntryExactly(log, n - 1);
      if IsShown(log[n - 1]) {
        NextEntry(log, n - 1, Entries(log, n - 1), ps, EntryAt(log, n - 1).value);
        ps := ps + [n - 1];
      }
    }
  }
}
