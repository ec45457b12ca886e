/**
 Every bot event in every reachable history was decided on the history before it. A run decides all four
 cleanups on one snapshot and may die after any request; this module shows that neither matters.
 */
module PrCleanupRuns {
  import opened Options
  import opened PullRequests
  import opened PrCleanup

  // ----- appending a comment leaves the rest of the view alone -----

  lemma {:induction false} LatestIgnores(h: History, e: Event, q: Query)
    requires !Matches(q, e)
    ensures Latest(h + [e], q) == Latest(h, q)
  {
    assert (h + [e])[..|h|] == h;
  }

  lemma {:induction false} LastListedIgnores(h: History, e: Event, q: Query)
    requires !Matches(q, e)
    ensures LastListed(h + [e], q) == LastListed(h, q)
  {
    assert (h + [e])[..|h|] == h;
  }

  lemma {:induction false} CommentsLeaveState(pr: PullRequest, h: History, e: Event)
    requires e.Comment?
    ensures Labels(h + [e]) == Labels(h)
    ensures IsDraft(pr, h + [e]) == IsDraft(pr, h)
    ensures NoticePresent(h + [e]) == NoticePresent(h) && IsOpen(h + [e]) == IsOpen(h)
  {
    assert (h + [e])[..|h|] == h;
  }

  lemma {:induction false} CommentsLeaveReview(h: History, e: Event, i: nat)
    requires e.Comment? && i < |h| && h[i].Review?
    ensures StateNow(h + [e], i) == StateNow(h, i)
  {
    var h' := h + [e];
    if exists j :: 0 <= j < |h| && h[j].ReviewDismissed? && h[j].index == i {
      var j :| 0 <= j < |h| && h[j].ReviewDismissed? && h[j].index == i;
      assert h'[j].ReviewDismissed? && h'[j].index == i;
    }
  }

  lemma {:induction false} CommentsLeaveStanding(pr: PullRequest, h: History, e: Event, n: nat)
    requires e.Comment? && n <= |h|
    ensures StandingRequest(pr, h + [e], n) == StandingRequest(pr, h, n)
  {
    if n > 0 {
      if h[n - 1].Review? {
        CommentsLeaveReview(h, e, n - 1);
      }
      CommentsLeaveStanding(pr, h, e, n - 1);
    }
  }

  lemma {:induction false} CommentsLeaveRequest(pr: PullRequest, h: History, e: Event)
    requires e.Comment?
    ensures StaffChangeRequestAt(pr, h + [e]) == StaffChangeRequestAt(pr, h)
  {
    CommentsLeaveStanding(pr, h, e, |h|);
    assert !IsVerdict(pr, h + [e], |h|);
  }

  lemma {:induction false} CommentsLeavePushes(pr: PullRequest, h: History, e: Event, since: int)
    requires e.Comment?
    ensures AuthorPushedSince(pr, h + [e], since) == AuthorPushedSince(pr, h, since)
  {
    var h' := h + [e];
    if AuthorPushedSince(pr, h, since) {
      var i :| 0 <= i < |h| && IsAuthorPush(pr, h[i]) && h[i].at > since;
      assert IsAuthorPush(pr, h'[i]) && h'[i].at > since;
    }
  }

  /** A comment of the bot's that carries exactly one marker. */
  predicate IsOwnComment(e: Event, m: Marker) {
    e.Comment? && e.login == Some(COMMUNITY_BOT) && e.body.markers == {m}
  }

  lemma {:induction false} ClockIgnoresComments(c: Cleanup, pr: PullRequest, h: History, e: Event)
    requires HasCommit(h) && e.Comment?
    ensures HasCommit(h + [e]) && Clock(c, pr, h + [e]) == Clock(c, pr, h)
  {
    LastListedIgnores(h, e, Commits);
    LastListedIgnores(h, e, Conversions);
    LatestIgnores(h, e, Reopens);
    LatestIgnores(h, e, ReadyEvents);
    LatestIgnores(h, e, LabelEvents(NO_SELF_REVIEW_LABEL));
    CommentsLeaveRequest(pr, h, e);
  }

  lemma {:induction false} AwaitsIgnoresComments(pr: PullRequest, h: History, e: Event, now: int)
    requires e.Comment?
    ensures AwaitsAuthor(pr, h + [e], now) == AwaitsAuthor(pr, h, now)
  {
    CommentsLeaveState(pr, h, e);
    CommentsLeaveRequest(pr, h, e);
    LatestIgnores(h, e, ReviewRequests);
    if StaffChangeRequestAt(pr, h).Some? {
      CommentsLeavePushes(pr, h, e, StaffChangeRequestAt(pr, h).value);
    }
  }

  lemma {:induction false} OwnCommentsIgnored(c: Cleanup, pr: PullRequest, h: History, e: Event, m: Marker)
    requires pr.author != Some(COMMUNITY_BOT) && IsOwnComment(e, m) && CleanupOf(m) != c
    ensures Latest(h + [e], AuthorActivity(pr.author)) == Latest(h, AuthorActivity(pr.author))
    ensures Latest(h + [e], BotComment(Ping(c))) == Latest(h, BotComment(Ping(c)))
    ensures Latest(h + [e], BotComment(CloseNotice(c))) == Latest(h, BotComment(CloseNotice(c)))
    ensures c == ChangesRequested ==> Latest(h + [e], BotComment(Ack)) == Latest(h, BotComment(Ack))
  {
    LatestIgnores(h, e, AuthorActivity(pr.author));
    LatestIgnores(h, e, BotComment(Ping(c)));
    LatestIgnores(h, e, BotComment(CloseNotice(c)));
    if c == ChangesRequested {
      LatestIgnores(h, e, BotComment(Ack));
    }
  }

  lemma {:induction false} DraftIgnoresOthers(pr: PullRequest, h: History, e: Event, m: Marker, now: int)
    requires HasCommit(h) && HasCommit(h + [e])
    requires pr.author != Some(COMMUNITY_BOT) && IsOwnComment(e, m) && CleanupOf(m) != StaleDraft
    ensures DraftAction(pr, h + [e], now) == DraftAction(pr, h, now)
  {
    OwnCommentsIgnored(StaleDraft, pr, h, e, m);
    CommentsLeaveState(pr, h, e);
    LastListedIgnores(h, e, Commits);
    LastListedIgnores(h, e, Conversions);
    LatestIgnores(h, e, Reopens);
  }

  lemma {:induction false} ChangesIgnoreOthers(pr: PullRequest, h: History, e: Event, m: Marker, now: int)
    requires pr.author != Some(COMMUNITY_BOT) && IsOwnComment(e, m) && CleanupOf(m) != ChangesRequested
    ensures ChangesRequestedAction(pr, h + [e], now) == ChangesRequestedAction(pr, h, now)
  {
    AwaitsIgnoresComments(pr, h, e, now);
    if AwaitsAuthor(pr, h, now) {
      CommentsLeaveRequest(pr, h, e);
      LatestIgnores(h, e, Reopens);
      var since := ClockStart(h, StaffChangeRequestAt(pr, h).value);
      assert ClockStart(h + [e], StaffChangeRequestAt(pr, h + [e]).value) == since;
      OwnCommentsIgnored(ChangesRequested, pr, h, e, m);
      assert AuthorCommentedAt(pr, h + [e], since) == AuthorCommentedAt(pr, h, since);
      assert BotCommentedAt(h + [e], Ack, since) == BotCommentedAt(h, Ack, since);
    }
  }

  lemma {:induction false} SelfReviewIgnoresOthers(pr: PullRequest, h: History, e: Event, m: Marker, now: int)
    requires pr.author != Some(COMMUNITY_BOT) && IsOwnComment(e, m) && CleanupOf(m) != NoSelfReview
    ensures NoSelfReviewAction(pr, h + [e], now) == NoSelfReviewAction(pr, h, now)
  {
    CommentsLeaveState(pr, h, e);
    LatestIgnores(h, e, Reopens);
    LatestIgnores(h, e, ReadyEvents);
    LatestIgnores(h, e, LabelEvents(NO_SELF_REVIEW_LABEL));
    assert SelfReviewClock(pr, h + [e]) == SelfReviewClock(pr, h);
    OwnCommentsIgnored(NoSelfReview, pr, h, e, m);
  }

  /** A cleanup's decision does not depend on what the bot said on behalf of another cleanup. */
  lemma {:induction false} ActionIgnoresOthers(c: Cleanup, pr: PullRequest, h: History, e: Event, m: Marker, now: int)
    requires HasCommit(h) && pr.author != Some(COMMUNITY_BOT) && IsOwnComment(e, m) && CleanupOf(m) != c
    ensures HasCommit(h + [e]) && Action(c, pr, h + [e], now) == Action(c, pr, h, now)
  {
    LastListedIgnores(h, e, Commits);
    match c
    case Cla =>
      OwnCommentsIgnored(Cla, pr, h, e, m);
      CommentsLeaveState(pr, h, e);
      LatestIgnores(h, e, Reopens);
    case StaleDraft => DraftIgnoresOthers(pr, h, e, m, now);
    case ChangesRequested => ChangesIgnoreOthers(pr, h, e, m, now);
    case NoSelfReview => SelfReviewIgnoresOthers(pr, h, e, m, now);
  }

  // ----- closing in two requests -----

  /** What a cleanup checks before it looks at its own comments. */
  predicate Qualifies(c: Cleanup, pr: PullRequest, h: History, now: int)
    requires HasCommit(h)
  {
    var labels := Labels(h);
    match c
    case Cla => IsCommunity(labels) && CLA_SIGNED_LABEL !in labels && now - pr.createdAt >= CLA_RETRY_AFTER
    case StaleDraft => IsDraft(pr, h) && now - DraftActiveAt(pr, h) >= DRAFT_PING_AFTER
    case ChangesRequested => AwaitsAuthor(pr, h, now)
    case NoSelfReview => !IsDraft(pr, h) && NO_SELF_REVIEW_LABEL in labels && IsCommunity(labels)
  }

  /** Whether the closing comment of the current epoch is already there. */
  predicate CloseAnnounced(c: Cleanup, pr: PullRequest, h: History)
    requires HasCommit(h)
  {
    var since := Clock(c, pr, h);
    since.Some? && BotCommentedAt(h, CloseNotice(c), since.value).Some?
  }

  /** A run that finds the closing comment closes without commenting, exactly if the pull request still
      qualifies; if it no longer qualifies, the run does nothing. */
  lemma {:induction false} ResumesExactlyIfAnnounced(c: Cleanup, pr: PullRequest, h: History, now: int)
    requires HasCommit(h)
    ensures Action(c, pr, h, now) == Some(RESUME_CLOSE) <==> Qualifies(c, pr, h, now) && CloseAnnounced(c, pr, h)
    ensures !Qualifies(c, pr, h, now) ==> Action(c, pr, h, now) == None
  {
  }

  /** Posting the closing comment never undoes the decision to close. */
  lemma {:induction false} AnnouncedCloseResumes(c: Cleanup, pr: PullRequest, h: History, now: int, at: int)
    requires HasCommit(h) && now <= at
    requires Action(c, pr, h, now).Some? && Action(c, pr, h, now).value.kind == ClosePr
    requires Action(c, pr, h, now).value.comment.Some?
    ensures var h' := h + [Comment(at, Some(COMMUNITY_BOT), Action(c, pr, h, now).value.comment.value)];
            HasCommit(h') && Action(c, pr, h', now) == Some(RESUME_CLOSE)
  {
    var body := Action(c, pr, h, now).value.comment.value;
    var e := Comment(at, Some(COMMUNITY_BOT), body);
    var h' := h + [e];
    ClosesAfterClock(c, pr, h, now);
    ClockIgnoresComments(c, pr, h, e);
    assert Matches(BotComment(CloseNotice(c)), h'[|h|]);
    QualifiesIgnoresComments(c, pr, h, e, now);
    ResumesExactlyIfAnnounced(c, pr, h', now);
  }

  lemma {:induction false} QualifiesIgnoresComments(c: Cleanup, pr: PullRequest, h: History, e: Event, now: int)
    requires HasCommit(h) && HasCommit(h + [e]) && e.Comment?
    ensures Qualifies(c, pr, h + [e], now) == Qualifies(c, pr, h, now)
  {
    CommentsLeaveState(pr, h, e);
    LastListedIgnores(h, e, Commits);
    LastListedIgnores(h, e, Conversions);
    AwaitsIgnoresComments(pr, h, e, now);
  }

  /** A close is decided strictly after the clock started, and announced by the cleanup's own closing comment. */
  lemma {:induction false} ClosesAfterClock(c: Cleanup, pr: PullRequest, h: History, now: int)
    requires HasCommit(h) && Action(c, pr, h, now).Some?
    requires Action(c, pr, h, now).value.kind == ClosePr && Action(c, pr, h, now).value.comment.Some?
    ensures Qualifies(c, pr, h, now) && Clock(c, pr, h).Some? && Clock(c, pr, h).value < now
    ensures Action(c, pr, h, now).value.comment == Some(Plain(CloseNotice(c)))
  {
  }

  // ----- every reachable history is sound -----

  /** The pull requests a run looks at. */
  predicate IsEligible(h: History) {
    IsOpen(h) && NEVER_STALE_LABEL !in Labels(h)
  }

  /** `e`, coming right after `h`, is the request that cleanup `c` decides on at `now`. */
  predicate DecidedAt(c: Cleanup, pr: PullRequest, h: History, e: Event, now: int)
    requires HasCommit(h)
  {
    var step := Action(c, pr, h, now);
    && IsEligible(h) && now <= e.at && step.Some?
    && (if e.Closed? then e.cause == Some(c) && step.value == RESUME_CLOSE
        else e.Comment? && step.value.comment == Some(e.body))
  }

  ghost predicate Decided(pr: PullRequest, h: History, e: Event)
    requires HasCommit(h)
  {
    exists c, now :: DecidedAt(c, pr, h, e, now)
  }

  ghost predicate SoundAt(pr: PullRequest, h: History, j: nat)
    requires j < |h|
  {
    IsBotEvent(h[j]) ==> HasCommit(h[..j]) && Decided(pr, h[..j], h[j])
  }

  ghost predicate Sound(pr: PullRequest, h: History) {
    && pr.author != Some(COMMUNITY_BOT) && Ordered(h) && HasCommit(h)
    && forall j :: 0 <= j < |h| ==> SoundAt(pr, h, j)
  }

  lemma {:induction false} SoundStep(pr: PullRequest, h: History, e: Event)
    requires Sound(pr, h) && Ordered(h + [e])
    requires IsBotEvent(e) ==> Decided(pr, h, e)
    ensures Sound(pr, h + [e])
  {
    var h' := h + [e];
    assert h'[..|h|] == h;
    forall j | 0 <= j < |h'| ensures SoundAt(pr, h', j) {
      if j < |h| {
        assert h'[..j] == h[..j] && SoundAt(pr, h, j);
      }
    }
  }

  lemma {:induction false} OrderedPrefix(h: History, e: Event, more: seq<Event>)
    requires Ordered(h + ([e] + more))
    ensures Ordered(h + [e]) && h + ([e] + more) == h + [e] + more
  {
    var all := h + ([e] + more);
    assert all == h + [e] + more;
    forall i, j | 0 <= i < j < |h + [e]| ensures (h + [e])[i].at <= (h + [e])[j].at {
      assert (h + [e])[i] == all[i] && (h + [e])[j] == all[j];
    }
  }

  /** The cleanups still to come decide on the history so far exactly what they decided on the snapshot. */
  ghost predicate SameDecisions(k: nat, pr: PullRequest, snapshot: History, h: History, now: int)
    requires HasCommit(snapshot) && HasCommit(h)
  {
    forall i :: k <= i < |CLEANUPS| ==> Action(CLEANUPS[i], pr, h, now) == Action(CLEANUPS[i], pr, snapshot, now)
  }

  ghost predicate AllAtLeast(times: seq<int>, now: int) {
    forall i :: 0 <= i < |times| ==> now <= times[i]
  }

  /** Whatever a cleanup says carries exactly one marker, its own. */
  lemma {:induction false} SaysOneMarker(c: Cleanup, pr: PullRequest, h: History, now: int) returns (m: Marker)
    requires HasCommit(h) && Action(c, pr, h, now).Some? && Action(c, pr, h, now).value.comment.Some?
    ensures Action(c, pr, h, now).value.comment.value.markers == {m} && CleanupOf(m) == c
  {
    m :| m in Action(c, pr, h, now).value.comment.value.markers;
  }

  lemma {:induction false} SilentOnlyToClose(c: Cleanup, pr: PullRequest, h: History, now: int)
    requires HasCommit(h) && Action(c, pr, h, now).Some?
    ensures Action(c, pr, h, now).value.comment.None? ==> Action(c, pr, h, now).value == RESUME_CLOSE
  {
  }

  /** One cleanup's comment keeps the history sound and the later decisions as they were. */
  lemma {:induction false} CommentKeepsSound(
    k: nat, pr: PullRequest, snapshot: History, h: History, now: int, at: int, body: Body)
    requires k < |CLEANUPS| && HasCommit(snapshot) && Sound(pr, h) && SameDecisions(k, pr, snapshot, h, now)
    requires now <= at && IsEligible(h)
    requires Action(CLEANUPS[k], pr, h, now).Some? && Action(CLEANUPS[k], pr, h, now).value.comment == Some(body)
    requires Ordered(h + [Comment(at, Some(COMMUNITY_BOT), body)])
    ensures var h' := h + [Comment(at, Some(COMMUNITY_BOT), body)];
            Sound(pr, h') && SameDecisions(k + 1, pr, snapshot, h', now) && IsEligible(h')
  {
    var e := Comment(at, Some(COMMUNITY_BOT), body);
    CommentsLeaveState(pr, h, e);
    var m := SaysOneMarker(CLEANUPS[k], pr, h, now);
    assert DecidedAt(CLEANUPS[k], pr, h, e, now);
    SoundStep(pr, h, e);
    forall i | k + 1 <= i < |CLEANUPS|
      ensures Action(CLEANUPS[i], pr, h + [e], now) == Action(CLEANUPS[i], pr, snapshot, now)
    {
      ActionIgnoresOthers(CLEANUPS[i], pr, h, e, m, now);
    }
  }

  lemma {:induction false} CloseKeepsSound(c: Cleanup, pr: PullRequest, h: History, now: int, at: int)
    requires Sound(pr, h) && IsEligible(h) && now <= at && Action(c, pr, h, now) == Some(RESUME_CLOSE)
    requires Ordered(h + [Closed(at, Some(c))])
    ensures Sound(pr, h + [Closed(at, Some(c))])
  {
    assert DecidedAt(c, pr, h, Closed(at, Some(c)), now);
    SoundStep(pr, h, Closed(at, Some(c)));
  }

  lemma {:induction false} FirstRecorded(h: History, call: Call, more: seq<Call>, times: seq<int>)
    requires 0 < |times| <= 1 + |more| && Ordered(h + RecordedAll([call] + more, times))
    ensures Ordered(h + [Recorded(call, times[0])])
    ensures h + RecordedAll([call] + more, times) == h + [Recorded(call, times[0])] + RecordedAll(more, times[1..])
  {
    assert ([call] + more)[1..] == more;
    OrderedPrefix(h, Recorded(call, times[0]), RecordedAll(more, times[1..]));
  }

  /** The closing comment and the close request, either or both of which get through. */
  lemma {:induction false} AnnouncedCloseKeepsSound(c: Cleanup, pr: PullRequest, h: History, now: int, times: seq<int>)
    requires HasCommit(h) && Action(c, pr, h, now).Some? && Action(c, pr, h, now).value.kind == ClosePr
    requires Action(c, pr, h, now).value.comment.Some?
    requires 0 < |times| <= 2 && AllAtLeast(times, now)
    requires var e := Comment(times[0], Some(COMMUNITY_BOT), Action(c, pr, h, now).value.comment.value);
             Sound(pr, h + [e]) && IsEligible(h + [e]) && Ordered(h + [e] + RecordedAll([PatchClosed(c)], times[1..]))
    ensures var e := Comment(times[0], Some(COMMUNITY_BOT), Action(c, pr, h, now).value.comment.value);
            Sound(pr, h + [e] + RecordedAll([PatchClosed(c)], times[1..]))
  {
    var h' := h + [Comment(times[0], Some(COMMUNITY_BOT), Action(c, pr, h, now).value.comment.value)];
    if |times| == 1 {
      assert h' + RecordedAll([PatchClosed(c)], times[1..]) == h';
    } else {
      AnnouncedCloseResumes(c, pr, h, now, times[0]);
      assert [PatchClosed(c)] + [] == [PatchClosed(c)];
      FirstRecorded(h', PatchClosed(c), [], times[1..]);
      CloseKeepsSound(c, pr, h', now, times[1]);
      assert h' + [Closed(times[1], Some(c))] + RecordedAll([], times[1..][1..]) == h' + [Closed(times[1], Some(c))];
    }
  }

  /** The rest of a run, cut off anywhere, keeps the history sound. */
  lemma {:induction false} RoundKeepsSound(
    k: nat, pr: PullRequest, snapshot: History, h: History, now: int, times: seq<int>)
    requires k <= |CLEANUPS| && HasCommit(snapshot) && Sound(pr, h) && SameDecisions(k, pr, snapshot, h, now)
    requires IsEligible(h)
    requires |times| <= |CallsFrom(k, Decisions(pr, snapshot, now))| && AllAtLeast(times, now)
    requires Ordered(h + RecordedAll(CallsFrom(k, Decisions(pr, snapshot, now)), times))
    ensures Sound(pr, h + RecordedAll(CallsFrom(k, Decisions(pr, snapshot, now)), times))
    decreases |CLEANUPS| - k, 1
  {
    var decide := Decisions(pr, snapshot, now);
    if times == [] {
      assert h + RecordedAll(CallsFrom(k, decide), times) == h;
    } else if decide(CLEANUPS[k]).None? {
      RoundKeepsSound(k + 1, pr, snapshot, h, now, times);
    } else {
      StepKeepsSound(k, pr, snapshot, h, now, times, decide(CLEANUPS[k]).value);
    }
  }

  lemma {:induction false} StepKeepsSound(
    k: nat, pr: PullRequest, snapshot: History, h: History, now: int, times: seq<int>, step: Step)
    requires k < |CLEANUPS| && HasCommit(snapshot) && Sound(pr, h) && SameDecisions(k, pr, snapshot, h, now)
    requires IsEligible(h)
    requires Action(CLEANUPS[k], pr, snapshot, now) == Some(step)
    requires 0 < |times| <= |CallsFrom(k, Decisions(pr, snapshot, now))| && AllAtLeast(times, now)
    requires Ordered(h + RecordedAll(CallsFrom(k, Decisions(pr, snapshot, now)), times))
    ensures Sound(pr, h + RecordedAll(CallsFrom(k, Decisions(pr, snapshot, now)), times))
    decreases |CLEANUPS| - k, 0
  {
    var calls, c := CallsFrom(k, Decisions(pr, snapshot, now)), CLEANUPS[k];
    assert calls == CallsOf(c, step) + CallsAfter(k, step, Decisions(pr, snapshot, now));
    SilentOnlyToClose(c, pr, snapshot, now);
    if step.comment.None? {
      assert calls == [PatchClosed(c)] + [];
      FirstRecorded(h, PatchClosed(c), [], times);
      CloseKeepsSound(c, pr, h, now, times[0]);
      assert h + [Closed(times[0], Some(c))] + RecordedAll([], times[1..]) == h + [Closed(times[0], Some(c))];
    } else {
      var more := if step.kind == ClosePr then [PatchClosed(c)] else CallsFrom(k + 1, Decisions(pr, snapshot, now));
      assert calls == [PostComment(step.comment.value)] + more;
      FirstRecorded(h, PostComment(step.comment.value), more, times);
      CommentKeepsSound(k, pr, snapshot, h, now, times[0], step.comment.value);
      if step.kind == ClosePr {
        AnnouncedCloseKeepsSound(c, pr, h, now, times);
      } else {
        var h' := h + [Comment(times[0], Some(COMMUNITY_BOT), step.comment.value)];
        RoundKeepsSound(k + 1, pr, snapshot, h', now, times[1..]);
      }
    }
  }

  lemma {:induction false} OpeningIsSound(pr: PullRequest, h: History)
    requires Opening(pr, h)
    ensures Sound(pr, h)
  {
    assert h[|h| - 1].Commit?;
    forall j | 0 <= j < |h| ensures SoundAt(pr, h, j) {
      assert h[j].Commit?;
    }
  }

  lemma {:induction false} MoveKeepsSound(pr: PullRequest, h: History, m: Move)
    requires Sound(pr, h) && Enabled(pr, h, m)
    ensures Sound(pr, Apply(pr, h, m))
  {
    match m
    case Outside(e) => SoundStep(pr, h, e);
    case BotRun(now, times) =>
      if times == [] {
        assert Apply(pr, h, m) == h;
      } else {
        RoundKeepsSound(0, pr, h, h, now, times);
      }
  }

  /** Over every run of bot rounds, crashes and outside events, each comment and closure of the bot's was
      decided by the responsible cleanup on the history that precedes it. */
  lemma {:induction false} ReachableIsSound(pr: PullRequest, start: History, moves: seq<Move>, h: History)
    requires Reaches(pr, start, moves, h)
    ensures Sound(pr, h)
    decreases |moves|
  {
    if moves == [] {
      OpeningIsSound(pr, h);
    } else {
      var last := moves[|moves| - 1];
      var before: History :| Reaches(pr, start, moves[..|moves| - 1], before) && HasCommit(before)
                             && Enabled(pr, before, last) && h == Apply(pr, before, last);
      ReachableIsSound(pr, start, moves[..|moves| - 1], before);
      MoveKeepsSound(pr, before, last);
    }
  }

  /** The bot never comments on or closes a pull request that is closed or exempt. */
  lemma {:induction false} ActsOnlyOnEligible(pr: PullRequest, start: History, moves: seq<Move>, h: History, j: nat)
    requires Reaches(pr, start, moves, h) && j < |h| && IsBotEvent(h[j])
    ensures IsEligible(h[..j])
  {
    ReachableIsSound(pr, start, moves, h);
    assert SoundAt(pr, h, j);
  }
}
