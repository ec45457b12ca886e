/**
 What the cleanups promise over whole lives of a pull request: nobody is closed without the full notice,
 nobody is told twice, and where a reply does and does not stop a closure.
 */
module PrCleanupSafety {
  import opened Options
  import opened PullRequests
  import opened PrCleanup
  import opened PrCleanupRuns
  import opened PrCleanupClock

  function PingAfter(c: Cleanup): int {
    match c
    case Cla => CLA_RETRY_AFTER
    case StaleDraft => DRAFT_PING_AFTER
    case ChangesRequested => CHANGES_REQUESTED_PING_AFTER
    case NoSelfReview => NO_SELF_REVIEW_PING_AFTER
  }

  function CloseAfterPing(c: Cleanup): int {
    match c
    case Cla => CLA_CLOSE_AFTER_RETRY
    case StaleDraft => DRAFT_CLOSE_AFTER_PING
    case ChangesRequested => CHANGES_REQUESTED_CLOSE_AFTER_PING
    case NoSelfReview => NO_SELF_REVIEW_CLOSE_AFTER_PING
  }

  predicate IsClosedBy(e: Event, c: Cleanup) {
    e.Closed? && e.cause == Some(c)
  }

  // ----- what one decision says -----

  lemma {:induction false} PingDecision(c: Cleanup, pr: PullRequest, h: History, e: Event, now: int)
    requires HasCommit(h) && e.Comment? && DecidedAt(c, pr, h, e, now) && Ping(c) in e.body.markers
    ensures var since := Clock(c, pr, h);
            && since.Some? && since.value + PingAfter(c) <= now
            && BotCommentedAt(h, Ping(c), since.value).None?
    ensures c in {ChangesRequested, NoSelfReview} ==> e.body.promised == Some(Day(now + CloseAfterPing(c)))
  {
  }

  lemma {:induction false} CloseDecision(c: Cleanup, pr: PullRequest, h: History, e: Event, now: int)
    requires HasCommit(h) && e.Comment? && DecidedAt(c, pr, h, e, now) && CloseNotice(c) in e.body.markers
    ensures var since := Clock(c, pr, h);
            && since.Some? && since.value < now
            && BotCommentedAt(h, CloseNotice(c), since.value).None?
            && BotCommentedAt(h, Ping(c), since.value).Some?
            && var pingedAt := BotCommentedAt(h, Ping(c), since.value).value;
            && (c in {Cla, StaleDraft} ==> pingedAt + CloseAfterPing(c) <= now)
            && (c == Cla ==> AuthorCommentedAt(pr, h, since.value).None?)
            && (c == NoSelfReview ==> Day(pingedAt + CloseAfterPing(c)) <= Day(now)
                                      && (NoticePresent(h) || AuthorCommentedAt(pr, h, pingedAt).None?))
            && (c == ChangesRequested ==>
                  var (noticeAt, closesAfter) := LatestNotice(BotCommentedAt(h, Ack, since.value), pingedAt);
                  && Day(noticeAt + closesAfter) <= Day(now)
                  && var commentedAt := AuthorCommentedAt(pr, h, since.value);
                  commentedAt.Some? ==> commentedAt.value <= noticeAt)
  {
    ClosesAfterClock(c, pr, h, now);
  }

  lemma {:induction false} AckDecision(pr: PullRequest, h: History, e: Event, now: int)
    requires HasCommit(h) && e.Comment? && DecidedAt(ChangesRequested, pr, h, e, now) && Ack in e.body.markers
    ensures var since := Clock(ChangesRequested, pr, h);
            && since.Some? && BotCommentedAt(h, Ping(ChangesRequested), since.value).Some?
            && var pingedAt := BotCommentedAt(h, Ping(ChangesRequested), since.value).value;
            var commentedAt := AuthorCommentedAt(pr, h, since.value);
            && since.value < pingedAt
            && commentedAt.Some? && commentedAt.value > LatestNotice(BotCommentedAt(h, Ack, since.value), pingedAt).0
    ensures e.body.promised == Some(Day(now + CHANGES_REQUESTED_CLOSE_AFTER_ACK))
  {
  }

  // ----- reading decisions off a sound history -----

  lemma {:induction false} ComesFromCleanup(pr: PullRequest, h: History, j: nat, m: Marker) returns (now: int)
    requires Sound(pr, h) && j < |h| && Matches(BotComment(m), h[j])
    ensures HasCommit(h[..j]) && DecidedAt(CleanupOf(m), pr, h[..j], h[j], now)
  {
    assert SoundAt(pr, h, j) && IsBotEvent(h[j]);
    var c, t :| DecidedAt(c, pr, h[..j], h[j], t);
    var only := SaysOneMarker(c, pr, h[..j], t);
    now := t;
  }

  lemma {:induction false} LatestAfterAt(h: History, q: Query, since: int) returns (i: nat)
    requires LatestAfter(h, q, since).Some?
    ensures i < |h| && Matches(q, h[i]) && h[i].at == LatestAfter(h, q, since).value && since < h[i].at
  {
    LatestIsMaximum(h, q);
    i :| 0 <= i < |h| && Matches(q, h[i]) && h[i].at == Latest(h, q).value;
  }

  lemma {:induction false} PrefixOrdered(h: History, k: nat)
    requires Ordered(h) && k <= |h|
    ensures Ordered(h[..k])
  {
    forall i, j | 0 <= i < j < k ensures h[..k][i].at <= h[..k][j].at {
      assert h[i].at <= h[j].at;
    }
  }

  /** The clock at `k`, if it stands before the event at `n`, is the clock at `n`. */
  lemma {:induction false} ClockBefore(c: Cleanup, pr: PullRequest, h: History, k: nat, n: nat, since: int)
    requires Ordered(h) && n < k <= |h| && HasCommit(h[..k]) && HasCommit(h[..n])
    requires Clock(c, pr, h[..k]) == Some(since) && since < h[n].at
    ensures Clock(c, pr, h[..n]) == Some(since)
  {
    assert h[..k][..n] == h[..n];
    PrefixOrdered(h, k);
    ClockStable(c, pr, h[..k], n);
  }

  /** A notice that counts at position `k` was given on the same clock. */
  lemma {:induction false} CountedNotice(pr: PullRequest, h: History, k: nat, m: Marker, since: int)
    returns (n: nat, now: int)
    requires Sound(pr, h) && k <= |h| && HasCommit(h[..k]) && Clock(CleanupOf(m), pr, h[..k]) == Some(since)
    requires BotCommentedAt(h[..k], m, since).Some?
    ensures n < k && Matches(BotComment(m), h[n]) && h[n].at == BotCommentedAt(h[..k], m, since).value
    ensures since < h[n].at
    ensures HasCommit(h[..n]) && DecidedAt(CleanupOf(m), pr, h[..n], h[n], now)
    ensures Clock(CleanupOf(m), pr, h[..n]) == Some(since)
  {
    n := LatestAfterAt(h[..k], BotComment(m), since);
    now := ComesFromCleanup(pr, h, n, m);
    ClockBefore(CleanupOf(m), pr, h, k, n, since);
  }

  // ----- nobody is closed without the full notice -----

  /** Behind every closure there are the cleanup's own closing comment and, before that, its own ping, all on
      one clock; the ping came a full period after the clock started, and the closing comment no earlier than
      the ping allows. */
  lemma {:induction false} ClosedAfterNotice(c: Cleanup, pr: PullRequest, h: History, k: nat)
    returns (p: nat, n: nat, since: int)
    requires Sound(pr, h) && k < |h| && IsClosedBy(h[k], c)
    ensures p < n < k && Matches(BotComment(Ping(c)), h[p]) && Matches(BotComment(CloseNotice(c)), h[n])
    ensures HasCommit(h[..k]) && Clock(c, pr, h[..k]) == Some(since)
    ensures HasCommit(h[..n]) && Clock(c, pr, h[..n]) == Some(since) && since < h[n].at
    ensures since + PingAfter(c) <= h[p].at <= h[n].at <= h[k].at
    ensures c in {Cla, StaleDraft} ==> h[p].at + CloseAfterPing(c) <= h[n].at
    ensures c == Cla ==> AuthorCommentedAt(pr, h[..n], since).None?
    ensures c == NoSelfReview ==> Day(h[p].at + CloseAfterPing(c)) <= Day(h[n].at)
                                  && (NoticePresent(h[..n]) || AuthorCommentedAt(pr, h[..n], h[p].at).None?)
    ensures c == NoSelfReview ==>
              h[p].body.promised.Some? && h[p].body.promised.value <= Day(h[p].at + CloseAfterPing(c))
  {
    var closed := ClosureDecision(c, pr, h, k);
    since := Clock(c, pr, h[..k]).value;
    var closing: int;
    n, closing := CountedNotice(pr, h, k, CloseNotice(c), since);
    CloseDecision(c, pr, h[..n], h[n], closing);
    var pinging: int;
    p, pinging := CountedNotice(pr, h, n, Ping(c), since);
    PingDecision(c, pr, h[..p], h[p], pinging);
    DaysAdvance(closing, h[n].at);
    DaysAdvance(pinging + CloseAfterPing(c), h[p].at + CloseAfterPing(c));
  }

  lemma {:induction false} DaysAdvance(a: int, b: int)
    requires a <= b
    ensures Day(a) <= Day(b)
  {
  }

  lemma {:induction false} ClosureDecision(c: Cleanup, pr: PullRequest, h: History, k: nat) returns (now: int)
    requires Sound(pr, h) && k < |h| && IsClosedBy(h[k], c)
    ensures HasCommit(h[..k]) && now <= h[k].at
    ensures Qualifies(c, pr, h[..k], now) && CloseAnnounced(c, pr, h[..k])
  {
    assert SoundAt(pr, h, k);
    var d, t :| DecidedAt(d, pr, h[..k], h[k], t);
    now := t;
    ResumesExactlyIfAnnounced(c, pr, h[..k], now);
  }

  /** A stale draft is closed while it is a draft, at least 28 days after every commit, draft conversion and reopening
      before the closure, and with the bot's ping at least seven days old. */
  lemma {:induction false} StaleDraftClosure(pr: PullRequest, start: History, moves: seq<Move>, h: History, k: nat)
    returns (p: nat)
    requires Reaches(pr, start, moves, h) && k < |h| && IsClosedBy(h[k], StaleDraft)
    ensures forall i :: 0 <= i < k && (h[i].Commit? || h[i].ConvertedToDraft? || h[i].Reopened?) ==>
                          h[i].at + 28 * DAY <= h[k].at
    ensures p < k && Matches(BotComment(Ping(StaleDraft)), h[p]) && h[p].at + 7 * DAY <= h[k].at
    ensures forall i :: 0 <= i < k && (h[i].Commit? || h[i].ConvertedToDraft? || h[i].Reopened?) ==>
                          h[i].at + 21 * DAY <= h[p].at
    ensures IsDraft(pr, h[..k])
  {
    ReachableIsSound(pr, start, moves, h);
    var now := ClosureDecision(StaleDraft, pr, h, k);
    var n, since;
    p, n, since := ClosedAfterNotice(StaleDraft, pr, h, k);
    PrefixOrdered(h, k);
    forall i | 0 <= i < k && RestartsClock(StaleDraft, pr, h[i]) ensures h[i].at <= since {
      ClockCovers(StaleDraft, pr, h[..k], i);
    }
  }

  lemma {:induction false} NoneAfter(h: History, n: nat, q: Query, since: int)
    requires n <= |h| && LatestAfter(h[..n], q, since).None?
    ensures forall i :: 0 <= i < n && Matches(q, h[i]) ==> h[i].at <= since
  {
    forall i | 0 <= i < n && Matches(q, h[i]) ensures h[i].at <= since {
      assert h[..n][i] == h[i];
      LatestCovers(h[..n], q, i);
    }
  }

  /** For want of a CLA a pull request is closed at least 8 days after it was opened or last reopened, and a
      day after the bot asked for a re-check. When the closing comment was posted, at `n`, the author had not
      commented since the clock started. */
  lemma {:induction false} ClaClosure(pr: PullRequest, start: History, moves: seq<Move>, h: History, k: nat)
    returns (p: nat, n: nat, since: int)
    requires Reaches(pr, start, moves, h) && k < |h| && IsClosedBy(h[k], Cla)
    ensures pr.createdAt + 8 * DAY <= h[k].at
    ensures forall i :: 0 <= i < k && h[i].Reopened? ==> h[i].at + 8 * DAY <= h[k].at
    ensures p < k && Matches(BotComment(Ping(Cla)), h[p]) && h[p].at + DAY <= h[k].at
    ensures pr.createdAt + 7 * DAY <= h[p].at
    ensures forall i :: 0 <= i < k && h[i].Reopened? ==> h[i].at + 7 * DAY <= h[p].at
    ensures p < n < k && Matches(BotComment(CloseNotice(Cla)), h[n]) && since == ClockStart(h[..k], pr.createdAt)
    ensures forall i :: 0 <= i < n && Matches(AuthorActivity(pr.author), h[i]) ==> h[i].at <= since
    ensures IsCommunity(Labels(h[..k])) && CLA_SIGNED_LABEL !in Labels(h[..k])
  {
    ReachableIsSound(pr, start, moves, h);
    var now := ClosureDecision(Cla, pr, h, k);
    p, n, since := ClosedAfterNotice(Cla, pr, h, k);
    NoneAfter(h, n, AuthorActivity(pr.author), since);
    PrefixOrdered(h, k);
    forall i | 0 <= i < k && RestartsClock(Cla, pr, h[i]) ensures h[i].at <= since {
      ClockCovers(Cla, pr, h[..k], i);
    }
  }

  /** A pull request that keeps the README notice is closed no earlier than the day its ping named, and the
      ping came a day after labelling, readiness or reopening. When the closing comment was posted, at `n`, the
      notice was still there or the author had not commented since the ping. */
  lemma {:induction false} NoSelfReviewClosure(pr: PullRequest, start: History, moves: seq<Move>, h: History, k: nat)
    returns (p: nat, n: nat)
    requires Reaches(pr, start, moves, h) && k < |h| && IsClosedBy(h[k], NoSelfReview)
    ensures p < k && Matches(BotComment(Ping(NoSelfReview)), h[p])
    ensures Day(h[p].at + 3 * DAY) <= Day(h[k].at)
    ensures h[p].body.promised.Some? && h[p].body.promised.value <= Day(h[k].at)
    ensures forall i :: 0 <= i < k && RestartsClock(NoSelfReview, pr, h[i]) ==> h[i].at + DAY <= h[p].at
    ensures p < n < k && Matches(BotComment(CloseNotice(NoSelfReview)), h[n])
    ensures NoticePresent(h[..n]) ||
            forall i :: 0 <= i < n && Matches(AuthorActivity(pr.author), h[i]) ==> h[i].at <= h[p].at
    ensures !IsDraft(pr, h[..k]) && NO_SELF_REVIEW_LABEL in Labels(h[..k]) && IsCommunity(Labels(h[..k]))
  {
    ReachableIsSound(pr, start, moves, h);
    var now := ClosureDecision(NoSelfReview, pr, h, k);
    var since;
    p, n, since := ClosedAfterNotice(NoSelfReview, pr, h, k);
    if !NoticePresent(h[..n]) {
      NoneAfter(h, n, AuthorActivity(pr.author), h[p].at);
    }
    PrefixOrdered(h, k);
    DaysAdvance(h[n].at, h[k].at);
    forall i | 0 <= i < k && RestartsClock(NoSelfReview, pr, h[i]) ensures h[i].at <= since {
      ClockCovers(NoSelfReview, pr, h[..k], i);
    }
  }

  // ----- nobody is told twice -----

  lemma {:induction false} SaidOnItsClock(pr: PullRequest, h: History, j: nat, m: Marker) returns (since: int)
    requires Sound(pr, h) && j < |h| && Matches(BotComment(m), h[j]) && m != Ack
    ensures HasCommit(h[..j]) && Clock(CleanupOf(m), pr, h[..j]) == Some(since) && since < h[j].at
    ensures BotCommentedAt(h[..j], m, since).None?
  {
    var now := ComesFromCleanup(pr, h, j, m);
    if m.Ping? {
      PingDecision(m.cleanup, pr, h[..j], h[j], now);
    } else {
      CloseDecision(m.cleanup, pr, h[..j], h[j], now);
    }
    since := Clock(CleanupOf(m), pr, h[..j]).value;
  }

  lemma {:induction false} ClockMovedBetween(
    pr: PullRequest, h: History, i: nat, j: nat, m: Marker, first: int, second: int)
    requires Sound(pr, h) && i < j < |h| && Matches(BotComment(m), h[i]) && HasCommit(h[..i]) && HasCommit(h[..j])
    requires Clock(CleanupOf(m), pr, h[..i]) == Some(first) && first < h[i].at
    requires Clock(CleanupOf(m), pr, h[..j]) == Some(second) && BotCommentedAt(h[..j], m, second).None?
    ensures first != second
  {
    assert h[..j][i] == h[i];
    LatestCovers(h[..j], BotComment(m), i);
  }

  /** Two pings, or two closing comments, of one cleanup always have an event between them that restarted its
      clock, however many runs died in between. */
  lemma {:induction false} ToldOncePerEpoch(
    pr: PullRequest, start: History, moves: seq<Move>, h: History, i: nat, j: nat, m: Marker)
    requires Reaches(pr, start, moves, h) && i < j < |h| && m != Ack
    requires Matches(BotComment(m), h[i]) && Matches(BotComment(m), h[j])
    ensures exists r :: i < r < j && RestartsClock(CleanupOf(m), pr, h[r])
  {
    ReachableIsSound(pr, start, moves, h);
    var first := SaidOnItsClock(pr, h, i, m);
    var second := SaidOnItsClock(pr, h, j, m);
    ClockMovedBetween(pr, h, i, j, m, first, second);
    var before := h[..j];
    assert before[..i] == h[..i];
    var r := ClockMoved(CleanupOf(m), pr, before, i);
    assert before[r] == h[r];
  }

  /** After a closing comment, and until its clock is restarted, a cleanup only ever closes, without another comment
      and exactly if the pull request still qualifies. */
  lemma {:induction false} AnnouncedOnceThenClosed(
    pr: PullRequest, start: History, moves: seq<Move>, h: History, c: Cleanup, n: nat, now: int)
    requires Reaches(pr, start, moves, h) && n < |h| && Matches(BotComment(CloseNotice(c)), h[n])
    requires NoRestart(c, pr, h, n)
    ensures HasCommit(h) && Action(c, pr, h, now) == if Qualifies(c, pr, h, now) then Some(RESUME_CLOSE) else None
  {
    ReachableIsSound(pr, start, moves, h);
    var since := SaidOnItsClock(pr, h, n, CloseNotice(c));
    if Clock(c, pr, h).Some? {
      ClockKept(c, pr, h, n);
      LatestCovers(h, BotComment(CloseNotice(c)), n);
    }
    ResumesExactlyIfAnnounced(c, pr, h, now);
  }

  // ----- the changes-requested conversation -----

  predicate IsNotice(e: Event) {
    Matches(BotComment(Ping(ChangesRequested)), e) || Matches(BotComment(Ack), e)
  }

  /** The day a notice names is never later than the day the script waits for. */
  lemma {:induction false} PromiseKeptLater(pr: PullRequest, h: History, j: nat)
    requires Sound(pr, h) && j < |h| && IsNotice(h[j])
    ensures h[j].body.promised.Some?
    ensures Matches(BotComment(Ping(ChangesRequested)), h[j]) ==>
              h[j].body.promised.value <= Day(h[j].at + CHANGES_REQUESTED_CLOSE_AFTER_PING)
    ensures Matches(BotComment(Ack), h[j]) ==>
              h[j].body.promised.value <= Day(h[j].at + CHANGES_REQUESTED_CLOSE_AFTER_ACK)
  {
    if Matches(BotComment(Ping(ChangesRequested)), h[j]) {
      var now := ComesFromCleanup(pr, h, j, Ping(ChangesRequested));
      PingDecision(ChangesRequested, pr, h[..j], h[j], now);
      DaysAdvance(now + CHANGES_REQUESTED_CLOSE_AFTER_PING, h[j].at + CHANGES_REQUESTED_CLOSE_AFTER_PING);
    }
    if Matches(BotComment(Ack), h[j]) {
      var now := ComesFromCleanup(pr, h, j, Ack);
      AckDecision(pr, h[..j], h[j], now);
      DaysAdvance(now + CHANGES_REQUESTED_CLOSE_AFTER_ACK, h[j].at + CHANGES_REQUESTED_CLOSE_AFTER_ACK);
    }
  }

  /** Within an epoch a ping never comes after an acknowledgement. */
  lemma {:induction false} PingBeforeAck(pr: PullRequest, h: History, n: nat, since: int)
    requires Sound(pr, h) && n <= |h| && HasCommit(h[..n]) && Clock(ChangesRequested, pr, h[..n]) == Some(since)
    requires BotCommentedAt(h[..n], Ping(ChangesRequested), since).Some? && BotCommentedAt(h[..n], Ack, since).Some?
    ensures BotCommentedAt(h[..n], Ping(ChangesRequested), since).value <= BotCommentedAt(h[..n], Ack, since).value
  {
    var p, pinging := CountedNotice(pr, h, n, Ping(ChangesRequested), since);
    var a, acking := CountedNotice(pr, h, n, Ack, since);
    AckDecision(pr, h[..a], h[a], acking);
    PingDecision(ChangesRequested, pr, h[..p], h[p], pinging);
    var q := LatestAfterAt(h[..a], BotComment(Ping(ChangesRequested)), since);
    if h[a].at < h[p].at {
      assert a < p && h[..p][q] == h[q];
      LatestCovers(h[..p], BotComment(Ping(ChangesRequested)), q);
    }
  }

  /** When the closing comment of this cleanup is posted, every day named in the epoch has come. */
  lemma {:induction false} PromisesCome(pr: PullRequest, h: History, n: nat, closing: int, since: int, i: nat)
    requires Sound(pr, h) && n < |h| && HasCommit(h[..n]) && Clock(ChangesRequested, pr, h[..n]) == Some(since)
    requires h[n].Comment? && CloseNotice(ChangesRequested) in h[n].body.markers
    requires DecidedAt(ChangesRequested, pr, h[..n], h[n], closing)
    requires i < n && IsNotice(h[i]) && since < h[i].at
    ensures h[i].body.promised.Some? && h[i].body.promised.value <= Day(closing)
  {
    CloseDecision(ChangesRequested, pr, h[..n], h[n], closing);
    PromiseKeptLater(pr, h, i);
    var before := h[..n];
    assert before[i] == h[i];
    var pingedAt := BotCommentedAt(before, Ping(ChangesRequested), since).value;
    var acknowledgedAt := BotCommentedAt(before, Ack, since);
    var (noticeAt, closesAfter) := LatestNotice(acknowledgedAt, pingedAt);
    if acknowledgedAt.Some? {
      PingBeforeAck(pr, h, n, since);
    }
    if Matches(BotComment(Ping(ChangesRequested)), h[i]) {
      LatestCovers(before, BotComment(Ping(ChangesRequested)), i);
      DaysAdvance(h[i].at + CHANGES_REQUESTED_CLOSE_AFTER_PING, noticeAt + closesAfter);
    } else {
      LatestCovers(before, BotComment(Ack), i);
      DaysAdvance(h[i].at + CHANGES_REQUESTED_CLOSE_AFTER_ACK, noticeAt + closesAfter);
    }
  }

  /** Every author comment of the epoch had a notice at or after it when the closing comment was posted. */
  lemma {:induction false} RepliesAnswered(pr: PullRequest, h: History, n: nat, closing: int, since: int, m: nat)
    requires Sound(pr, h) && n < |h| && HasCommit(h[..n]) && Clock(ChangesRequested, pr, h[..n]) == Some(since)
    requires h[n].Comment? && CloseNotice(ChangesRequested) in h[n].body.markers
    requires DecidedAt(ChangesRequested, pr, h[..n], h[n], closing)
    requires m < n && Matches(AuthorActivity(pr.author), h[m]) && since < h[m].at
    ensures exists x :: 0 <= x < n && IsNotice(h[x]) && h[m].at <= h[x].at
  {
    CloseDecision(ChangesRequested, pr, h[..n], h[n], closing);
    var before := h[..n];
    assert before[m] == h[m];
    LatestCovers(before, AuthorActivity(pr.author), m);
    var acked := BotCommentedAt(before, Ack, since).Some?;
    var x := LatestAfterAt(before, BotComment(if acked then Ack else Ping(ChangesRequested)), since);
    assert IsNotice(h[x]) && h[m].at <= h[x].at;
  }

  /** The conversation before the closing comment at `n`: every named day has come and every reply was answered. */
  lemma {:induction false} ConversationOver(pr: PullRequest, h: History, n: nat, closing: int, since: int)
    requires Sound(pr, h) && n < |h| && HasCommit(h[..n]) && Clock(ChangesRequested, pr, h[..n]) == Some(since)
    requires h[n].Comment? && CloseNotice(ChangesRequested) in h[n].body.markers
    requires DecidedAt(ChangesRequested, pr, h[..n], h[n], closing)
    ensures forall i :: 0 <= i < n && IsNotice(h[i]) && since < h[i].at ==>
                          h[i].body.promised.Some? && h[i].body.promised.value <= Day(closing)
    ensures forall m :: 0 <= m < n && Matches(AuthorActivity(pr.author), h[m]) && since < h[m].at ==>
                          exists x :: 0 <= x < n && IsNotice(h[x]) && h[m].at <= h[x].at
  {
    forall i | 0 <= i < n && IsNotice(h[i]) && since < h[i].at
      ensures h[i].body.promised.Some? && h[i].body.promised.value <= Day(closing)
    {
      PromisesCome(pr, h, n, closing, since, i);
    }
    forall m | 0 <= m < n && Matches(AuthorActivity(pr.author), h[m]) && since < h[m].at
      ensures exists x :: 0 <= x < n && IsNotice(h[x]) && h[m].at <= h[x].at
    {
      RepliesAnswered(pr, h, n, closing, since, m);
    }
  }

  /** Nothing in the first `k` events answers the review, and none of them reopens after the clock started. */
  ghost predicate Unanswered(pr: PullRequest, h: History, k: nat, since: int, requested: int)
    requires k <= |h|
  {
    && (forall i :: 0 <= i < k && h[i].Reopened? ==> h[i].at <= since)
    && (forall i :: 0 <= i < k && h[i].ReviewRequested? ==> h[i].at <= requested)
    && (forall i :: 0 <= i < k && IsAuthorPush(pr, h[i]) ==> h[i].at <= requested)
  }

  lemma {:induction false} StillUnanswered(pr: PullRequest, h: History, k: nat, now: int, since: int, requested: int)
    requires k <= |h| && AwaitsAuthor(pr, h[..k], now) && StaffChangeRequestAt(pr, h[..k]) == Some(requested)
    requires since == ClockStart(h[..k], requested)
    ensures Unanswered(pr, h, k, since, requested) && requested <= since
  {
    var before := h[..k];
    NothingAnswered(pr, before, now, requested);
    forall i | 0 <= i < k && h[i].Reopened? ensures h[i].at <= since {
      assert before[i] == h[i];
      LatestCovers(before, Reopens, i);
    }
    assert forall i :: 0 <= i < k ==> before[i] == h[i];
  }

  /** A comment that carries a notice does not announce a closure. */
  lemma {:induction false} NoticeIsNoClosing(pr: PullRequest, h: History, i: nat, m: Marker)
    requires Sound(pr, h) && i < |h| && Matches(BotComment(m), h[i]) && m in {Ack, Ping(ChangesRequested)}
    ensures CloseNotice(ChangesRequested) !in h[i].body.markers
  {
    var now := ComesFromCleanup(pr, h, i, m);
    var only := SaysOneMarker(ChangesRequested, pr, h[..i], now);
  }

  /** A comment is not made while the closing comment of its cleanup stands. */
  lemma {:induction false} SilentOnceAnnounced(pr: PullRequest, h: History, i: nat, m: Marker)
    requires Sound(pr, h) && i < |h| && Matches(BotComment(m), h[i]) && HasCommit(h[..i])
    ensures !CloseAnnounced(CleanupOf(m), pr, h[..i])
  {
    var now := ComesFromCleanup(pr, h, i, m);
    ResumesExactlyIfAnnounced(CleanupOf(m), pr, h[..i], now);
  }

  /** From the closing comment of an epoch on, the cleanup gives no further notice. */
  lemma {:induction false} NoNoticeOnceAnnounced(
    pr: PullRequest, h: History, k: nat, n: nat, since: int, i: nat, m: Marker)
    requires Sound(pr, h) && n <= i < k <= |h| && HasCommit(h[..k])
    requires Clock(ChangesRequested, pr, h[..k]) == Some(since)
    requires Matches(BotComment(CloseNotice(ChangesRequested)), h[n]) && since < h[n].at
    requires m in {Ack, Ping(ChangesRequested)}
    ensures !Matches(BotComment(m), h[i])
  {
    if Matches(BotComment(m), h[i]) {
      NoticeIsNoClosing(pr, h, i, m);
      var now := ComesFromCleanup(pr, h, i, m);
      ClockBefore(ChangesRequested, pr, h, k, i, since);
      LatestCovers(h[..i], BotComment(CloseNotice(ChangesRequested)), n);
      SilentOnceAnnounced(pr, h, i, m);
    }
  }

  /** A closure for inactivity comes on or after every day the bot named since the clock started, with no
      re-request of review and no author push since the review. Its closing comment, at `n`, came when every author
      comment of the epoch had been answered by a notice, and no notice followed it. */
  lemma {:induction false} ChangesRequestedClosure(
    pr: PullRequest, start: History, moves: seq<Move>, h: History, k: nat)
    returns (n: nat, since: int, requested: int)
    requires Reaches(pr, start, moves, h) && k < |h| && IsClosedBy(h[k], ChangesRequested)
    ensures n < k && Matches(BotComment(CloseNotice(ChangesRequested)), h[n]) && since < h[n].at
    ensures StaffChangeRequestAt(pr, h[..k]) == Some(requested) && since == ClockStart(h[..k], requested)
    ensures Unanswered(pr, h, k, since, requested) && !IsDraft(pr, h[..k]) && IsCommunity(Labels(h[..k]))
    ensures forall i :: n <= i < k ==> !IsNotice(h[i])
    ensures forall i :: 0 <= i < k && IsNotice(h[i]) && since < h[i].at ==>
                          h[i].body.promised.Some? && h[i].body.promised.value <= Day(h[k].at)
    ensures forall m :: 0 <= m < n && Matches(AuthorActivity(pr.author), h[m]) && since < h[m].at ==>
                          exists x :: 0 <= x < n && IsNotice(h[x]) && h[m].at <= h[x].at
  {
    ReachableIsSound(pr, start, moves, h);
    var now := ClosureDecision(ChangesRequested, pr, h, k);
    requested := StaffChangeRequestAt(pr, h[..k]).value;
    var closing: int;
    n, since, closing := ClosingBehind(pr, h, k);
    StillUnanswered(pr, h, k, now, since, requested);
    assert h[n].at <= h[k].at;
    DaysAdvance(closing, h[k].at);
    ConversationOver(pr, h, n, closing, since);
    forall i | n <= i < k ensures !IsNotice(h[i]) {
      NoNoticeOnceAnnounced(pr, h, k, n, since, i, Ping(ChangesRequested));
      NoNoticeOnceAnnounced(pr, h, k, n, since, i, Ack);
    }
  }

  lemma {:induction false} NothingAnswered(pr: PullRequest, h: History, now: int, requested: int)
    requires AwaitsAuthor(pr, h, now) && StaffChangeRequestAt(pr, h) == Some(requested)
    ensures forall i :: 0 <= i < |h| && h[i].ReviewRequested? ==> h[i].at <= requested
    ensures forall i :: 0 <= i < |h| && IsAuthorPush(pr, h[i]) ==> h[i].at <= requested
  {
    LatestIsMaximum(h, ReviewRequests);
    forall i | 0 <= i < |h| && h[i].ReviewRequested? ensures h[i].at <= requested {
      assert Matches(ReviewRequests, h[i]);
    }
  }

  lemma {:induction false} AckAnswers(pr: PullRequest, h: History, i: nat, j: nat, since: int) returns (m: nat)
    requires Sound(pr, h) && i < j < |h| && Matches(BotComment(Ack), h[i]) && Matches(BotComment(Ack), h[j])
    requires HasCommit(h[..j]) && Clock(ChangesRequested, pr, h[..j]) == Some(since) && since < h[i].at
    ensures i < m < j && Matches(AuthorActivity(pr.author), h[m]) && h[i].at < h[m].at
  {
    var now := ComesFromCleanup(pr, h, j, Ack);
    var before := h[..j];
    AckDecision(pr, before, h[j], now);
    assert before[i] == h[i];
    LatestCovers(before, BotComment(Ack), i);
    m := LatestAfterAt(before, AuthorActivity(pr.author), since);
    assert before[m] == h[m];
  }

  /** Two acknowledgements of one epoch always have an author comment between them. */
  lemma {:induction false} AcksAnswerComments(
    pr: PullRequest, start: History, moves: seq<Move>, h: History, i: nat, j: nat)
    returns (m: nat)
    requires Reaches(pr, start, moves, h) && i < j < |h| && Matches(BotComment(Ack), h[i])
    requires Matches(BotComment(Ack), h[j])
    requires forall r :: i < r < j ==> !RestartsClock(ChangesRequested, pr, h[r])
    ensures i < m < j && Matches(AuthorActivity(pr.author), h[m]) && h[i].at < h[m].at
  {
    ReachableIsSound(pr, start, moves, h);
    var now := ComesFromCleanup(pr, h, j, Ack);
    AckDecision(pr, h[..j], h[j], now);
    var since := Clock(ChangesRequested, pr, h[..j]).value;
    AckOnSameClock(pr, h, i, j, since);
    m := AckAnswers(pr, h, i, j, since);
  }

  lemma {:induction false} AckOnSameClock(pr: PullRequest, h: History, i: nat, j: nat, since: int)
    requires Sound(pr, h) && i < j < |h| && Matches(BotComment(Ack), h[i]) && HasCommit(h[..j])
    requires Clock(ChangesRequested, pr, h[..j]) == Some(since)
    requires forall r :: i < r < j ==> !RestartsClock(ChangesRequested, pr, h[r])
    ensures since < h[i].at
  {
    var now := ComesFromCleanup(pr, h, i, Ack);
    AckDecision(pr, h[..i], h[i], now);
    var before := h[..j];
    assert before[..i] == h[..i];
    assert NoRestart(ChangesRequested, pr, before, i);
    ClockKept(ChangesRequested, pr, before, i);
    var p := LatestAfterAt(h[..i], BotComment(Ping(ChangesRequested)), since);
    assert h[p].at <= h[i].at;
  }

  /** Once the author has replied to the latest notice, the cleanup closes if and only if the closing comment of
      the epoch is already posted; otherwise it acknowledges the reply. */
  lemma {:induction false} ReplyStopsClosureUnlessAnnounced(
    pr: PullRequest, h: History, now: int, since: int, pingedAt: int, repliedAt: int)
    requires HasCommit(h) && AwaitsAuthor(pr, h, now) && Clock(ChangesRequested, pr, h) == Some(since)
    requires BotCommentedAt(h, Ping(ChangesRequested), since) == Some(pingedAt)
    requires AuthorCommentedAt(pr, h, since) == Some(repliedAt)
    requires repliedAt > LatestNotice(BotCommentedAt(h, Ack, since), pingedAt).0
    ensures Action(ChangesRequested, pr, h, now).Some?
    ensures Action(ChangesRequested, pr, h, now).value.kind == ClosePr <==> CloseAnnounced(ChangesRequested, pr, h)
    ensures Action(ChangesRequested, pr, h, now).value.kind == Acknowledge <==> !CloseAnnounced(ChangesRequested, pr, h)
  {
  }

  /** Newer than every notice among the first `k` events. */
  ghost predicate NewerThanNotices(h: History, k: nat, m: nat)
    requires m < |h| && k <= |h|
  {
    forall x :: 0 <= x < k && IsNotice(h[x]) ==> h[x].at < h[m].at
  }

  lemma {:induction false} DaysApart(a: int, b: int, d: int)
    requires DAY <= d && Day(a + d) <= Day(b)
    ensures a < b
  {
  }

  /** Every notice before a closing comment is older than it. */
  lemma {:induction false} NoticesAreOlder(pr: PullRequest, h: History, n: nat, closing: int, since: int, x: nat)
    requires Sound(pr, h) && n < |h| && HasCommit(h[..n]) && Clock(ChangesRequested, pr, h[..n]) == Some(since)
    requires h[n].Comment? && CloseNotice(ChangesRequested) in h[n].body.markers
    requires DecidedAt(ChangesRequested, pr, h[..n], h[n], closing)
    requires x < n && IsNotice(h[x])
    ensures h[x].at < h[n].at
  {
    var before := h[..n];
    CloseDecision(ChangesRequested, pr, before, h[n], closing);
    if since < h[x].at {
      assert before[x] == h[x];
      var pingedAt := BotCommentedAt(before, Ping(ChangesRequested), since).value;
      var acknowledgedAt := BotCommentedAt(before, Ack, since);
      var (noticeAt, closesAfter) := LatestNotice(acknowledgedAt, pingedAt);
      DaysApart(noticeAt, closing, closesAfter);
      if acknowledgedAt.Some? {
        PingBeforeAck(pr, h, n, since);
      }
      LatestCovers(before, BotComment(if Matches(BotComment(Ack), h[x]) then Ack else Ping(ChangesRequested)), x);
    }
  }

  /** An author comment that precedes the closing comment has a notice at or after it. */
  lemma {:induction false} EarlierRepliesAnswered(pr: PullRequest, h: History, n: nat, closing: int, since: int, m: nat)
    requires Sound(pr, h) && n < |h| && HasCommit(h[..n]) && Clock(ChangesRequested, pr, h[..n]) == Some(since)
    requires h[n].Comment? && CloseNotice(ChangesRequested) in h[n].body.markers
    requires DecidedAt(ChangesRequested, pr, h[..n], h[n], closing)
    requires m < n && Matches(AuthorActivity(pr.author), h[m])
    ensures exists x :: 0 <= x < n && IsNotice(h[x]) && h[m].at <= h[x].at
  {
    if since < h[m].at {
      RepliesAnswered(pr, h, n, closing, since, m);
    } else {
      CloseDecision(ChangesRequested, pr, h[..n], h[n], closing);
      var x := LatestAfterAt(h[..n], BotComment(Ping(ChangesRequested)), since);
      assert IsNotice(h[x]) && h[m].at <= h[x].at;
    }
  }

  /** A comment of the epoch comes after the closing comment exactly if it finds the closure announced. */
  lemma {:induction false} AnnouncedSince(pr: PullRequest, h: History, k: nat, n: nat, since: int, m: nat)
    requires Sound(pr, h) && n < k <= |h| && m < k && m != n && HasCommit(h[..k])
    requires Clock(ChangesRequested, pr, h[..k]) == Some(since) && since < h[n].at && since < h[m].at
    requires HasCommit(h[..n]) && BotCommentedAt(h[..n], CloseNotice(ChangesRequested), since).None?
    requires Matches(BotComment(CloseNotice(ChangesRequested)), h[n]) && HasCommit(h[..m])
    ensures n < m <==> CloseAnnounced(ChangesRequested, pr, h[..m])
  {
    ClockBefore(ChangesRequested, pr, h, k, m, since);
    if n < m {
      LatestCovers(h[..m], BotComment(CloseNotice(ChangesRequested)), n);
    } else if CloseAnnounced(ChangesRequested, pr, h[..m]) {
      var c := LatestAfterAt(h[..m], BotComment(CloseNotice(ChangesRequested)), since);
      assert h[..n][c] == h[c];
      LatestCovers(h[..n], BotComment(CloseNotice(ChangesRequested)), c);
    }
  }

  /** The closing comment behind a closure for inactivity, and the clock and time it was decided on. */
  lemma {:induction false} ClosingBehind(pr: PullRequest, h: History, k: nat) returns (n: nat, since: int, closing: int)
    requires Sound(pr, h) && k < |h| && IsClosedBy(h[k], ChangesRequested)
    ensures n < k && Matches(BotComment(CloseNotice(ChangesRequested)), h[n]) && since < h[n].at
    ensures HasCommit(h[..k]) && Clock(ChangesRequested, pr, h[..k]) == Some(since)
    ensures HasCommit(h[..n]) && Clock(ChangesRequested, pr, h[..n]) == Some(since)
    ensures DecidedAt(ChangesRequested, pr, h[..n], h[n], closing)
    ensures BotCommentedAt(h[..n], CloseNotice(ChangesRequested), since).None?
  {
    var now := ClosureDecision(ChangesRequested, pr, h, k);
    since := Clock(ChangesRequested, pr, h[..k]).value;
    n, closing := CountedNotice(pr, h, k, CloseNotice(ChangesRequested), since);
    CloseDecision(ChangesRequested, pr, h[..n], h[n], closing);
  }

  /** Over every run, the author comments that are newer than every notice and yet did not stop a closure are
      exactly those made after the closing comment: a run had announced the closure and died before the close
      request. Within the epoch that is to say that the comment found the closure announced. */
  lemma {:induction false} ClosesDespiteReplyExactlyIfAnnounced(
    pr: PullRequest, start: History, moves: seq<Move>, h: History, k: nat)
    returns (n: nat, since: int)
    requires Reaches(pr, start, moves, h) && k < |h| && IsClosedBy(h[k], ChangesRequested)
    ensures n < k && Matches(BotComment(CloseNotice(ChangesRequested)), h[n])
    ensures HasCommit(h[..k]) && Clock(ChangesRequested, pr, h[..k]) == Some(since) && since < h[n].at
    ensures forall m :: 0 <= m < k && Matches(AuthorActivity(pr.author), h[m]) ==>
                          (NewerThanNotices(h, k, m) <==> n < m)
    ensures forall m :: && 0 <= m < k && Matches(AuthorActivity(pr.author), h[m]) && since < h[m].at
                        && HasCommit(h[..m]) ==>
                          (n < m <==> CloseAnnounced(ChangesRequested, pr, h[..m]))
  {
    ReachableIsSound(pr, start, moves, h);
    var closing: int;
    n, since, closing := ClosingBehind(pr, h, k);
    forall m | 0 <= m < k && Matches(AuthorActivity(pr.author), h[m]) ensures NewerThanNotices(h, k, m) <==> n < m {
      RepliesAfterClosing(pr, h, k, n, closing, since, m);
    }
    forall m | 0 <= m < k && Matches(AuthorActivity(pr.author), h[m]) && since < h[m].at && HasCommit(h[..m])
      ensures n < m <==> CloseAnnounced(ChangesRequested, pr, h[..m])
    {
      AnnouncedSince(pr, h, k, n, since, m);
    }
  }

  lemma {:induction false} RepliesAfterClosing(
    pr: PullRequest, h: History, k: nat, n: nat, closing: int, since: int, m: nat)
    requires Sound(pr, h) && n < k <= |h| && HasCommit(h[..k]) && Clock(ChangesRequested, pr, h[..k]) == Some(since)
    requires HasCommit(h[..n]) && Clock(ChangesRequested, pr, h[..n]) == Some(since) && since < h[n].at
    requires Matches(BotComment(CloseNotice(ChangesRequested)), h[n])
    requires DecidedAt(ChangesRequested, pr, h[..n], h[n], closing)
    requires m < k && Matches(AuthorActivity(pr.author), h[m])
    ensures NewerThanNotices(h, k, m) <==> n < m
  {
    if n < m {
      forall x | 0 <= x < k && IsNotice(h[x]) ensures h[x].at < h[m].at {
        if x < n {
          NoticesAreOlder(pr, h, n, closing, since, x);
          assert h[n].at <= h[m].at;
        } else {
          NoNoticeOnceAnnounced(pr, h, k, n, since, x, Ping(ChangesRequested));
          NoNoticeOnceAnnounced(pr, h, k, n, since, x, Ack);
        }
      }
    } else {
      assert m != n;
      EarlierRepliesAnswered(pr, h, n, closing, since, m);
      var x :| 0 <= x < n && IsNotice(h[x]) && h[m].at <= h[x].at;
    }
  }
}
