/**
 The foreground-activity tracker of `crates/acp_thread/src/submission.rs`: work generations derived from the
 agent's state reports, and the waiters of pending cancellations.
 */
module Activity {
  import opened Options

  /** A state report. Variants this client does not know count as running. */
  datatype Report = Idle | Running | RequiresAction | Unknown | Unrecognized(kind: string)

  datatype Phase = Unconfirmed | IdlePhase | RunningPhase | ActionPhase | UnknownPhase

  /** The calls a session makes; `at` is the clock when a report is applied. */
  datatype Call =
    | Update(report: Report, entry: nat, at: int)
    | MarkUnconfirmed
    | WaitForIdle
    | FinishClose
    | CloseObservation

  datatype Work = Work(generation: nat, inProgress: bool, startedAt: Option<int>, duration: Option<int>,
                       firstEntry: nat)

  /** `pending` are the waiters still held, named by the call that issued them; `completed` and `dropped` are
      those that were woken and those whose channel was closed. */
  datatype Waiters = Waiters(pending: seq<nat>, closed: bool, completed: set<nat>, dropped: set<nat>)

  datatype State = State(report: Option<Report>, work: Work, waiters: Waiters)

  const INITIAL := State(Some(Idle), Work(0, false, None, None, 0), Waiters([], false, {}, {}))

  function PhaseOf(report: Option<Report>): Phase {
    match report
    case None => Unconfirmed
    case Some(Idle) => IdlePhase
    case Some(RequiresAction) => ActionPhase
    case Some(Unknown) => UnknownPhase
    case Some(_) => RunningPhase
  }

  predicate IsActivePhase(p: Phase) {
    p == RunningPhase || p == ActionPhase
  }

  /** A report of activity: running, waiting for the user, or a variant this client does not know. */
  predicate IsActiveReport(c: Call) {
    c.Update? && (c.report.Running? || c.report.RequiresAction? || c.report.Unrecognized?)
  }

  predicate IsIdleReport(c: Call) {
    c.Update? && c.report == Idle
  }

  function Elements(s: seq<nat>): set<nat> {
    set i | i in s
  }

  function Woken(w: Waiters): Waiters {
    w.(pending := [], completed := w.completed + Elements(w.pending))
  }

  function NextReport(report: Option<Report>, call: Call): Option<Report> {
    match call
    case Update(now, _, _) => Some(now)
    case MarkUnconfirmed => None
    case _ => report
  }

  function NextWork(w: Work, call: Call): Work {
    if !call.Update? then w
    else
      var current := PhaseOf(Some(call.report));
      if !w.inProgress && IsActivePhase(current) then Work(w.generation + 1, true, Some(call.at), None, call.entry)
      else if w.inProgress && current == IdlePhase then
        w.(inProgress := false, duration := if w.startedAt.Some? then Some(call.at - w.startedAt.value) else None)
      else w
  }

  /** The `n`-th call's effect on the waiters, given the last report. */
  function NextWaiters(w: Waiters, report: Option<Report>, n: nat, call: Call): Waiters {
    match call
    case Update(now, _, _) => if now == Idle then Woken(w) else w
    case MarkUnconfirmed => w
    case WaitForIdle => if w.closed || PhaseOf(report) == IdlePhase then w else w.(pending := w.pending + [n])
    case FinishClose => Woken(w).(closed := true)
    case CloseObservation => w.(closed := true, dropped := w.dropped + Elements(w.pending), pending := [])
  }

  function Next(s: State, n: nat, call: Call): State {
    State(NextReport(s.report, call), NextWork(s.work, call), NextWaiters(s.waiters, s.report, n, call))
  }

  /** The state after the first `n` calls. */
  function After(calls: seq<Call>, n: nat): State
    requires n <= |calls|
  {
    if n == 0 then INITIAL else Next(After(calls, n - 1), n - 1, calls[n - 1])
  }

  datatype WaitResult = ObservationClosed | AlreadyIdle | Waiting(waiter: nat)

  class SessionActivity {
    var report: Option<Report>
    var generation: nat
    var inProgress: bool
    var startedAt: Option<int>
    var duration: Option<int>
    var firstEntry: nat
    var pending: seq<nat>
    var closed: bool
    var completed: set<nat>
    var dropped: set<nat>
    ghost var calls: seq<Call>
    var issued: nat  // the number of calls so far, which names the next waiter

    ghost function Model(): State
      reads this
    {
      State(report, Work(generation, inProgress, startedAt, duration, firstEntry),
            Waiters(pending, closed, completed, dropped))
    }

    ghost predicate Valid()
      reads this
    {
      issued == |calls| && Model() == After(calls, |calls|)
    }

    constructor ()
      ensures Valid() && calls == []
    {
      report, generation, inProgress, startedAt, duration := Some(Idle), 0, false, None, None;
      firstEntry, pending, closed, completed, dropped, calls, issued := 0, [], false, {}, {}, [], 0;
    }

    twostate predicate Logged(call: Call)
      reads this
    {
      calls == old(calls) + [call] && Valid()
    }

    ghost method Log(before: State, call: Call)
      requires before == After(calls, |calls|) && Model() == Next(before, |calls|, call) && issued == |calls| + 1
      modifies this`calls
      ensures calls == old(calls) + [call] && Valid()
    {
      PrefixAfter(calls, [call], |calls|);
      calls := calls + [call];
    }

    method CompleteWaiters()
      modifies this`pending, this`completed
      ensures Model() == old(Model()).(waiters := Woken(old(Model()).waiters))
    {
      ghost var was := pending;
      ghost var done := completed;
      while pending != []
        invariant completed + Elements(pending) == done + Elements(was)
        decreases |pending|
      {
        assert Elements(pending) == {pending[0]} + Elements(pending[1..]) by {
          assert pending == [pending[0]] + pending[1..];
        }
        completed := completed + {pending[0]};
        pending := pending[1..];
      }
    }

    /** The part of `update` that opens and closes work. */
    method ReportWork(state: Report, entry: nat, at: int)
      modifies this`inProgress, this`generation, this`startedAt, this`duration, this`firstEntry
      ensures Model() == old(Model()).(work := NextWork(old(Model()).work, Call.Update(state, entry, at)))
    {
      var current := PhaseOf(Some(state));
      if !inProgress && IsActivePhase(current) {
        inProgress := true;
        generation := generation + 1;
        startedAt := Some(at);
        duration := None;
        firstEntry := entry;
      } else if inProgress && current == IdlePhase {
        inProgress := false;
        duration := if startedAt.Some? then Some(at - startedAt.value) else None;
      }
    }

    method Update(state: Report, entry: nat, at: int)
      requires Valid()
      modifies this
      ensures Logged(Call.Update(state, entry, at))
    {
      ghost var before := Model();
      report := Some(state);
      ReportWork(state, entry, at);
      if PhaseOf(report) == IdlePhase {
        CompleteWaiters();
      }
      issued := issued + 1;
      Log(before, Call.Update(state, entry, at));
    }

    method MarkUnconfirmed()
      requires Valid()
      modifies this
      ensures Logged(Call.MarkUnconfirmed)
    {
      ghost var before := Model();
      report := None;
      issued := issued + 1;
      Log(before, Call.MarkUnconfirmed);
    }

    method FinishClose()
      requires Valid()
      modifies this
      ensures Logged(Call.FinishClose)
    {
      ghost var before := Model();
      closed := true;
      CompleteWaiters();
      issued := issued + 1;
      Log(before, Call.FinishClose);
    }

    method CloseObservation()
      requires Valid()
      modifies this
      ensures Logged(Call.CloseObservation)
    {
      ghost var before := Model();
      closed := true;
      dropped := dropped + Elements(pending);
      pending := [];
      issued := issued + 1;
      Log(before, Call.CloseObservation);
    }

    method WaitForIdle() returns (result: WaitResult)
      requires Valid()
      modifies this
      ensures Logged(Call.WaitForIdle)
      ensures result == if old(closed) then ObservationClosed
                        else if old(report) == Some(Idle) then AlreadyIdle else Waiting(|old(calls)|)
    {
      ghost var before := Model();
      if closed {
        result := ObservationClosed;
      } else if PhaseOf(report) == IdlePhase {
        result := AlreadyIdle;
      } else {
        result := Waiting(issued);
        pending := pending + [issued];
      }
      issued := issued + 1;
      Log(before, Call.WaitForIdle);
    }
  }

  lemma {:induction false} PrefixAfter(calls: seq<Call>, more: seq<Call>, n: nat)
    requires n <= |calls|
    ensures After(calls + more, n) == After(calls, n)
  {
    if n > 0 {
      PrefixAfter(calls, more, n - 1);
    }
  }

  // ----- work generations -----

  /** Some report of activity has had no report of idleness since. */
  ghost predicate WorkOpen(calls: seq<Call>, n: nat)
    requires n <= |calls|
  {
    exists j :: 0 <= j < n && IsActiveReport(calls[j]) && forall k :: j < k < n ==> !IsIdleReport(calls[k])
  }

  /** The report that starts a generation: no earlier activity is still open. */
  ghost predicate OpensWork(calls: seq<Call>, i: nat)
    requires i < |calls|
  {
    IsActiveReport(calls[i]) && !WorkOpen(calls, i)
  }

  ghost function Openings(calls: seq<Call>, n: nat): set<nat>
    requires n <= |calls|
  {
    set i | 0 <= i < n && OpensWork(calls, i)
  }

  lemma {:induction false} WorkOpenStep(calls: seq<Call>, n: nat)
    requires n < |calls|
    ensures WorkOpen(calls, n + 1) <==> IsActiveReport(calls[n]) || (WorkOpen(calls, n) && !IsIdleReport(calls[n]))
  {
    if WorkOpen(calls, n) && !IsIdleReport(calls[n]) {
      var j :| 0 <= j < n && IsActiveReport(calls[j]) && forall k :: j < k < n ==> !IsIdleReport(calls[k]);
      assert forall k :: j < k < n + 1 ==> !IsIdleReport(calls[k]);
    }
    if WorkOpen(calls, n + 1) && !IsActiveReport(calls[n]) {
      var j :| 0 <= j < n + 1 && IsActiveReport(calls[j]) && forall k :: j < k < n + 1 ==> !IsIdleReport(calls[k]);
      assert j < n && !IsIdleReport(calls[n]);
    }
  }

  lemma {:induction false} OpeningsStep(calls: seq<Call>, n: nat)
    requires n < |calls|
    ensures |Openings(calls, n + 1)| == |Openings(calls, n)| + if OpensWork(calls, n) then 1 else 0
  {
    assert Openings(calls, n + 1) == Openings(calls, n) + if OpensWork(calls, n) then {n} else {};
  }

  /** `generation` counts the openings, and `in_progress` holds exactly while work is open. */
  lemma {:induction false} GenerationsCountOpenings(calls: seq<Call>, n: nat)
    requires n <= |calls|
    ensures After(calls, n).work.inProgress <==> WorkOpen(calls, n)
    ensures After(calls, n).work.generation == |Openings(calls, n)|
  {
    if n == 0 {
      assert Openings(calls, 0) == {};
    } else {
      GenerationsCountOpenings(calls, n - 1);
      WorkOpenStep(calls, n - 1);
      OpeningsStep(calls, n - 1);
    }
  }

  /** The latest opening, and the first report of idleness after it if there is one. */
  ghost predicate LatestWork(calls: seq<Call>, n: nat, i: nat, end: Option<nat>)
    requires n <= |calls|
  {
    && i < n && OpensWork(calls, i) && (forall j :: i < j < n ==> !OpensWork(calls, j))
    && (end.None? ==> forall k :: i < k < n ==> !IsIdleReport(calls[k]))
    && (end.Some? ==> i < end.value < n && IsIdleReport(calls[end.value])
                      && forall k :: i < k < end.value ==> !IsIdleReport(calls[k]))
  }

  /** What a tracker shows about the work that `calls[i]` opened. */
  ghost predicate Shows(w: Work, calls: seq<Call>, n: nat, i: nat, end: Option<nat>)
    requires n <= |calls|
  {
    && LatestWork(calls, n, i, end) && (end.None? <==> w.inProgress)
    && calls[i].Update? && w.startedAt == Some(calls[i].at) && w.firstEntry == calls[i].entry
    && w.duration == if end.None? then None else Some(calls[end.value].at - calls[i].at)
  }

  lemma {:induction false} ShowsStep(w: Work, calls: seq<Call>, n: nat, i: nat, end: Option<nat>)
    requires n < |calls| && Shows(w, calls, n, i, end) && (w.inProgress <==> WorkOpen(calls, n))
    ensures var end' := if end.None? && IsIdleReport(calls[n]) then Some(n) else end;
            !OpensWork(calls, n) ==> Shows(NextWork(w, calls[n]), calls, n + 1, i, end')
  {
  }

  /** A generation's start, first entry and duration come from its opening report and the next idle report,
      whatever unknown or unconfirmed states fall between. */
  lemma {:induction false} TimesOfLatestWork(calls: seq<Call>, n: nat) returns (i: nat, end: Option<nat>)
    requires n <= |calls| && After(calls, n).work.generation > 0
    ensures Shows(After(calls, n).work, calls, n, i, end)
  {
    GenerationsCountOpenings(calls, n - 1);
    if OpensWork(calls, n - 1) {
      i, end := n - 1, None;
    } else {
      i, end := TimesOfLatestWork(calls, n - 1);
      ShowsStep(After(calls, n - 1).work, calls, n - 1, i, end);
      end := if end.None? && IsIdleReport(calls[n - 1]) then Some(n - 1) else end;
    }
  }

  // ----- waiters -----

  /** Whether the call issues a waiter: observation is open and the last report is not idle. */
  predicate Issues(calls: seq<Call>, i: nat)
    requires i < |calls|
  {
    calls[i].WaitForIdle? && !IsClosed(calls, i) && LastReport(calls, i) != Some(Idle)
  }

  predicate IsClosed(calls: seq<Call>, n: nat)
    requires n <= |calls|
  {
    exists j :: 0 <= j < n && (calls[j].FinishClose? || calls[j].CloseObservation?)
  }

  function LastReport(calls: seq<Call>, n: nat): Option<Report>
    requires n <= |calls|
  {
    if n == 0 then Some(Idle)
    else match calls[n - 1]
         case Update(report, _, _) => Some(report)
         case MarkUnconfirmed => None
         case _ => LastReport(calls, n - 1)
  }

  predicate Wakes(c: Call) {
    IsIdleReport(c) || c.FinishClose?
  }

  ghost predicate StillPending(calls: seq<Call>, i: nat, n: nat)
    requires n <= |calls|
  {
    forall k :: i < k < n ==> !Wakes(calls[k]) && !calls[k].CloseObservation?
  }

  /** The first call after `i` that decides about waiters wakes them. */
  ghost predicate WasWoken(calls: seq<Call>, i: nat, n: nat)
    requires n <= |calls|
  {
    exists k :: i < k < n && Wakes(calls[k]) && StillPending(calls, i, k)
  }

  ghost predicate WasDropped(calls: seq<Call>, i: nat, n: nat)
    requires n <= |calls|
  {
    exists k :: i < k < n && calls[k].CloseObservation? && StillPending(calls, i, k)
  }

  lemma {:induction false} FateStep(calls: seq<Call>, i: nat, n: nat)
    requires i < n < |calls|
    ensures StillPending(calls, i, n + 1) <==>
            StillPending(calls, i, n) && !Wakes(calls[n]) && !calls[n].CloseObservation?
    ensures WasWoken(calls, i, n + 1) <==> WasWoken(calls, i, n) || (StillPending(calls, i, n) && Wakes(calls[n]))
    ensures WasDropped(calls, i, n + 1) <==>
            WasDropped(calls, i, n) || (StillPending(calls, i, n) && calls[n].CloseObservation?)
  {
  }

  /** Where the waiters are after `n` calls, that none is held twice, and that none is held once idle or closed. */
  ghost predicate Sorted(calls: seq<Call>, n: nat, w: Waiters)
    requires n <= |calls|
  {
    && (forall i :: i in w.pending <==> 0 <= i < n && Issues(calls, i) && StillPending(calls, i, n))
    && (forall i :: i in w.completed <==> 0 <= i < n && Issues(calls, i) && WasWoken(calls, i, n))
    && (forall i :: i in w.dropped <==> 0 <= i < n && Issues(calls, i) && WasDropped(calls, i, n))
    && (forall a, b :: 0 <= a < b < |w.pending| ==> w.pending[a] != w.pending[b])
    && (LastReport(calls, n) == Some(Idle) || w.closed ==> w.pending == [])
    && (w.closed <==> IsClosed(calls, n))
  }

  lemma {:induction false} NewWaiter(calls: seq<Call>, n: nat)
    requires n < |calls|
    ensures StillPending(calls, n, n + 1) && !WasWoken(calls, n, n + 1) && !WasDropped(calls, n, n + 1)
  {
  }

  lemma {:induction false} FatesStep(calls: seq<Call>, n: nat)
    requires n < |calls|
    ensures forall i :: 0 <= i < n ==>
                          (StillPending(calls, i, n + 1) <==>
                           StillPending(calls, i, n) && !Wakes(calls[n]) && !calls[n].CloseObservation?)
    ensures forall i :: 0 <= i < n ==>
                          (WasWoken(calls, i, n + 1) <==>
                           WasWoken(calls, i, n) || (StillPending(calls, i, n) && Wakes(calls[n])))
    ensures forall i :: 0 <= i < n ==>
                          (WasDropped(calls, i, n + 1) <==>
                           WasDropped(calls, i, n) || (StillPending(calls, i, n) && calls[n].CloseObservation?))
  {
    forall i | 0 <= i < n
      ensures StillPending(calls, i, n + 1) <==>
              StillPending(calls, i, n) && !Wakes(calls[n]) && !calls[n].CloseObservation?
      ensures WasWoken(calls, i, n + 1) <==> WasWoken(calls, i, n) || (StillPending(calls, i, n) && Wakes(calls[n]))
      ensures WasDropped(calls, i, n + 1) <==>
              WasDropped(calls, i, n) || (StillPending(calls, i, n) && calls[n].CloseObservation?)
    {
      FateStep(calls, i, n);
    }
  }

  lemma {:induction false} ClosedStep(calls: seq<Call>, n: nat)
    requires n < |calls|
    ensures IsClosed(calls, n + 1) <==> IsClosed(calls, n) || calls[n].FinishClose? || calls[n].CloseObservation?
  {
  }

  lemma {:induction false} QuietStep(calls: seq<Call>, n: nat, w: Waiters)
    requires n < |calls| && Sorted(calls, n, w)
    requires !Wakes(calls[n]) && !calls[n].CloseObservation? && !Issues(calls, n)
    ensures NextWaiters(w, LastReport(calls, n), n, calls[n]) == w && Sorted(calls, n + 1, w)
  {
    FatesStep(calls, n);
    ClosedStep(calls, n);
  }

  lemma {:induction false} IssueStep(calls: seq<Call>, n: nat, w: Waiters)
    requires n < |calls| && Sorted(calls, n, w) && Issues(calls, n)
    ensures Sorted(calls, n + 1, NextWaiters(w, LastReport(calls, n), n, calls[n]))
  {
    NewWaiter(calls, n);
    assert n !in w.pending;
    FatesStep(calls, n);
    ClosedStep(calls, n);
  }

  lemma {:induction false} WakeStep(calls: seq<Call>, n: nat, w: Waiters)
    requires n < |calls| && Sorted(calls, n, w) && Wakes(calls[n])
    ensures Sorted(calls, n + 1, NextWaiters(w, LastReport(calls, n), n, calls[n]))
  {
    FatesStep(calls, n);
    ClosedStep(calls, n);
  }

  lemma {:induction false} DropStep(calls: seq<Call>, n: nat, w: Waiters)
    requires n < |calls| && Sorted(calls, n, w) && calls[n].CloseObservation?
    ensures Sorted(calls, n + 1, NextWaiters(w, LastReport(calls, n), n, calls[n]))
  {
    FatesStep(calls, n);
    ClosedStep(calls, n);
  }

  lemma {:induction false} SortedStep(calls: seq<Call>, n: nat, w: Waiters)
    requires n < |calls| && Sorted(calls, n, w)
    ensures Sorted(calls, n + 1, NextWaiters(w, LastReport(calls, n), n, calls[n]))
  {
    if Issues(calls, n) {
      IssueStep(calls, n, w);
    } else if Wakes(calls[n]) {
      WakeStep(calls, n, w);
    } else if calls[n].CloseObservation? {
      DropStep(calls, n, w);
    } else {
      QuietStep(calls, n, w);
    }
  }

  lemma {:induction false} NobodyWaits(calls: seq<Call>)
    ensures Sorted(calls, 0, INITIAL.waiters)
  {
  }

  /** Every waiter is in exactly one place, decided by the first idle report, finished close or closed observation
      after it was issued; none is held while the session is idle or observation is closed. */
  lemma {:induction false} WaitersAreSorted(calls: seq<Call>, n: nat)
    requires n <= |calls|
    ensures Sorted(calls, n, After(calls, n).waiters) && After(calls, n).report == LastReport(calls, n)
  {
    if n == 0 {
      NobodyWaits(calls);
    } else {
      WaitersAreSorted(calls, n - 1);
      var before := After(calls, n - 1);
      SortedStep(calls, n - 1, before.waiters);
      assert After(calls, n) == Next(before, n - 1, calls[n - 1]);
    }
  }

  lemma {:induction false} ExactlyOneFate(calls: seq<Call>, i: nat, n: nat)
    requires i < n <= |calls|
    ensures StillPending(calls, i, n) || WasWoken(calls, i, n) || WasDropped(calls, i, n)
    ensures !(StillPending(calls, i, n) && WasWoken(calls, i, n))
    ensures !(StillPending(calls, i, n) && WasDropped(calls, i, n))
    ensures !(WasWoken(calls, i, n) && WasDropped(calls, i, n))
  {
    if n == i + 1 {
      NewWaiter(calls, i);
    } else {
      ExactlyOneFate(calls, i, n - 1);
      FateStep(calls, i, n - 1);
    }
  }
}
