/**
 What moves a cleanup's clock. A clock that stands before some moment has not moved since that moment, so
 the notices a later run counts were given in the same epoch.
 */
module PrCleanupClock {
  import opened Options
  import opened PullRequests
  import opened PrCleanup

  /** The events after which a cleanup starts over and ignores its earlier comments. */
  predicate RestartsClock(c: Cleanup, pr: PullRequest, e: Event) {
    || e.Reopened?
    || (c == StaleDraft && (e.Commit? || e.ConvertedToDraft?))
    || (c == ChangesRequested && e.Review? && e.state == RequestsChanges && e.login.Some? && e.login.value in pr.staff)
    || (c == NoSelfReview && (e.ReadyForReview? || (e.Labeled? && e.name == NO_SELF_REVIEW_LABEL)))
  }

  ghost predicate NoRestart(c: Cleanup, pr: PullRequest, h: History, k: nat) {
    forall m :: k <= m < |h| ==> !RestartsClock(c, pr, h[m])
  }

  lemma {:induction false} LatestKept(h: History, k: nat, q: Query)
    requires k <= |h| && forall m :: k <= m < |h| ==> !Matches(q, h[m])
    ensures Latest(h[..k], q) == Latest(h, q)
    decreases |h|
  {
    if k < |h| {
      assert h[..|h| - 1][..k] == h[..k];
      LatestKept(h[..|h| - 1], k, q);
    } else {
      assert h[..k] == h;
    }
  }

  lemma {:induction false} LastListedKept(h: History, k: nat, q: Query)
    requires k <= |h| && forall m :: k <= m < |h| ==> !Matches(q, h[m])
    ensures LastListed(h[..k], q) == LastListed(h, q)
    decreases |h|
  {
    if k < |h| {
      assert h[..|h| - 1][..k] == h[..k];
      LastListedKept(h[..|h| - 1], k, q);
    } else {
      assert h[..k] == h;
    }
  }

  /** A standing request is the last staff verdict, and it was a request for changes when it was given. */
  lemma {:induction false} StandingRequestAt(pr: PullRequest, h: History) returns (i: nat)
    requires StaffChangeRequestAt(pr, h).Some?
    ensures i < |h| && IsVerdict(pr, h, i) && StateNow(h, i) == RequestsChanges
    ensures h[i].at == StaffChangeRequestAt(pr, h).value && RestartsClock(ChangesRequested, pr, h[i])
    ensures forall j :: i < j < |h| ==> !IsVerdict(pr, h, j)
  {
    i :| 0 <= i < |h| && IsVerdict(pr, h, i) && StateNow(h, i) == RequestsChanges
         && h[i].at == StandingRequest(pr, h, |h|).value && forall j :: i < j < |h| ==> !IsVerdict(pr, h, j);
  }

  /** Dismissals only ever add up: a review that stands later stood earlier. */
  lemma {:induction false} StoodEarlier(h: History, k: nat, i: nat)
    requires i < k <= |h| && h[i].Review?
    ensures StateNow(h[..k], i) == StateNow(h, i) || StateNow(h, i) == Dismissed
  {
    if exists j :: 0 <= j < k && h[..k][j].ReviewDismissed? && h[..k][j].index == i {
      var j :| 0 <= j < k && h[..k][j].ReviewDismissed? && h[..k][j].index == i;
      assert h[j].ReviewDismissed? && h[j].index == i;
    }
  }

  lemma {:induction false} RequestKept(pr: PullRequest, h: History, k: nat, i: nat)
    requires i < k <= |h| && IsVerdict(pr, h, i) && StateNow(h, i) == RequestsChanges
    requires forall j :: i < j < |h| ==> !IsVerdict(pr, h, j)
    ensures StaffChangeRequestAt(pr, h[..k]) == Some(h[i].at)
  {
    var before := h[..k];
    StoodEarlier(h, k, i);
    forall j | i < j < k ensures !IsVerdict(pr, before, j) {
      assert !IsVerdict(pr, h, j);
      if before[j].Review? {
        StoodEarlier(h, k, j);
      }
    }
    assert IsLastVerdict(pr, before, k, i);
    StandsIfLast(pr, before, k, i);
  }

  /** Without a restarting event the clock stays where it was. */
  lemma {:induction false} ClockKept(c: Cleanup, pr: PullRequest, h: History, k: nat)
    requires HasCommit(h) && k <= |h| && HasCommit(h[..k])
    requires NoRestart(c, pr, h, k) && Clock(c, pr, h).Some?
    ensures Clock(c, pr, h[..k]) == Clock(c, pr, h)
  {
    LatestKept(h, k, Reopens);
    match c
    case Cla =>
    case StaleDraft =>
      LastListedKept(h, k, Commits);
      LastListedKept(h, k, Conversions);
    case ChangesRequested =>
      var i := StandingRequestAt(pr, h);
      RequestKept(pr, h, k, i);
    case NoSelfReview =>
      LatestKept(h, k, ReadyEvents);
      LatestKept(h, k, LabelEvents(NO_SELF_REVIEW_LABEL));
  }

  /** If the clock has moved, an event since then has restarted it. */
  lemma {:induction false} ClockMoved(c: Cleanup, pr: PullRequest, h: History, k: nat) returns (r: nat)
    requires HasCommit(h) && k <= |h| && HasCommit(h[..k])
    requires Clock(c, pr, h).Some? && Clock(c, pr, h[..k]) != Clock(c, pr, h)
    ensures k <= r < |h| && RestartsClock(c, pr, h[r])
  {
    if NoRestart(c, pr, h, k) {
      ClockKept(c, pr, h, k);
    }
    r :| k <= r < |h| && RestartsClock(c, pr, h[r]);
  }

  lemma {:induction false} LatestCovers(h: History, q: Query, m: nat)
    requires m < |h| && Matches(q, h[m])
    ensures Latest(h, q).Some? && h[m].at <= Latest(h, q).value
  {
    LatestIsMaximum(h, q);
  }

  /** The clock is at least as late as every event that restarts it (for a review: if it still stands). */
  lemma {:induction false} ClockCovers(c: Cleanup, pr: PullRequest, h: History, m: nat)
    requires Ordered(h) && HasCommit(h) && Clock(c, pr, h).Some?
    requires m < |h| && RestartsClock(c, pr, h[m])
    ensures h[m].at <= Clock(c, pr, h).value
  {
    var e := h[m];
    if e.Reopened? {
      LatestCovers(h, Reopens, m);
    } else {
      match c
      case Cla =>
      case StaleDraft =>
        var q := if e.Commit? then Commits else Conversions;
        LatestCovers(h, q, m);
        LastListedIsLatest(h, q);
      case ChangesRequested =>
        var i := StandingRequestAt(pr, h);
        assert IsVerdict(pr, h, m);
      case NoSelfReview =>
        LatestCovers(h, if e.Labeled? then LabelEvents(NO_SELF_REVIEW_LABEL) else ReadyEvents, m);
    }
  }

  /** A clock that stands before `t` is where it was at `t`. */
  lemma {:induction false} ClockStable(c: Cleanup, pr: PullRequest, h: History, k: nat)
    requires Ordered(h) && HasCommit(h) && k < |h| && HasCommit(h[..k])
    requires Clock(c, pr, h).Some? && Clock(c, pr, h).value < h[k].at
    ensures Clock(c, pr, h[..k]) == Clock(c, pr, h)
  {
    forall m | k <= m < |h| ensures !RestartsClock(c, pr, h[m]) {
      if RestartsClock(c, pr, h[m]) {
        ClockCovers(c, pr, h, m);
      }
    }
    ClockKept(c, pr, h, k);
  }
}
