/**
 What the cleanups decide, said in terms of a pull request's events alone: which step is due, when, and which requests
 a run sends for it. Nothing here speaks of the latest this or the latest that; the decisions of `PrCleanup` are shown
 to be exactly these.
 */
module PrCleanupDecisions {
  import opened Options
  import opened PullRequests
  import opened PrCleanup
  import opened PrCleanupClock
  import opened PrCleanupRuns

  // ----- the state of a pull request -----

  ghost predicate StaysLabeled(h: History, i: nat, name: string) {
    && i < |h| && h[i].Labeled? && h[i].name == name
    && forall j :: i < j < |h| ==> !(h[j].Unlabeled? && h[j].name == name)
  }

  /** A pull request has a label exactly if it was given and not taken away since. */
  lemma {:induction false} LabelsExactly(h: History, name: string)
    ensures name in Labels(h) <==> exists i: nat :: StaysLabeled(h, i, name)
  {
    if h != [] {
      var front, e := h[..|h| - 1], h[|h| - 1];
      LabelsExactly(front, name);
      if e.Labeled? && e.name == name {
        assert StaysLabeled(h, |h| - 1, name);
      } else if name in Labels(h) {
        var i: nat :| StaysLabeled(front, i, name);
        assert StaysLabeled(h, i, name);
      }
      if i: nat :| StaysLabeled(h, i, name) && i < |front| {
        assert StaysLabeled(front, i, name);
      }
    }
  }

  /** It is a draft exactly if it became one and was never ready since. */
  lemma {:induction false} DraftExactly(pr: PullRequest, h: History)
    ensures IsDraft(pr, h) <==>
            || (pr.openedAsDraft && forall j :: 0 <= j < |h| ==> !h[j].ReadyForReview?)
            || exists i :: 0 <= i < |h| && h[i].ConvertedToDraft? && forall j :: i < j < |h| ==> !h[j].ReadyForReview?
  {
    if h != [] {
      var front := h[..|h| - 1];
      DraftExactly(pr, front);
      assert forall i :: 0 <= i < |front| ==> front[i] == h[i];
      if i :| 0 <= i < |front| && front[i].ConvertedToDraft? && forall j :: i < j < |front| ==>
                                                                              !front[j].ReadyForReview? {
        assert h[i].ConvertedToDraft?;
      }
    }
  }

  /** It is closed exactly if it was closed and not reopened since. */
  lemma {:induction false} OpenExactly(h: History)
    ensures !IsOpen(h) <==> exists i :: 0 <= i < |h| && h[i].Closed? && forall j :: i < j < |h| ==> !h[j].Reopened?
  {
    if h != [] {
      var front := h[..|h| - 1];
      OpenExactly(front);
      assert forall i :: 0 <= i < |front| ==> front[i] == h[i];
      if i :| 0 <= i < |front| && front[i].Closed? && forall j :: i < j < |front| ==> !front[j].Reopened? {
        assert h[i].Closed?;
      }
    }
  }

  /** The notice is there exactly if the last commit has it. */
  lemma {:induction false} NoticeExactly(h: History)
    ensures NoticePresent(h) <==>
            exists i :: 0 <= i < |h| && h[i].Commit? && h[i].notice && forall j :: i < j < |h| ==> !h[j].Commit?
  {
    if h != [] {
      var front := h[..|h| - 1];
      NoticeExactly(front);
      assert forall i :: 0 <= i < |front| ==> front[i] == h[i];
      if i :| 0 <= i < |front| && front[i].Commit? && front[i].notice && forall j :: i < j < |front| ==>
                                                                                       !front[j].Commit? {
        assert h[i].Commit?;
      }
    }
  }

  // ----- epochs -----

  ghost predicate IsDismissed(h: History, i: nat) {
    exists j :: 0 <= j < |h| && h[j].ReviewDismissed? && h[j].index == i
  }

  /** A review by staff that says more than a comment, or said so before it was dismissed. */
  ghost predicate IsStaffVerdict(pr: PullRequest, h: History, i: nat) {
    && i < |h| && h[i].Review? && h[i].login.Some? && h[i].login.value in pr.staff
    && (h[i].state != Commented || IsDismissed(h, i))
  }

  /** A staff request for changes that was not dismissed and that no staff verdict follows. */
  ghost predicate IsStanding(pr: PullRequest, h: History, i: nat) {
    && IsStaffVerdict(pr, h, i) && h[i].state == RequestsChanges && !IsDismissed(h, i)
    && forall j: nat :: i < j ==> !IsStaffVerdict(pr, h, j)
  }

  lemma {:induction false} StandingExactly(pr: PullRequest, h: History, i: nat)
    ensures IsStanding(pr, h, i) <==> i < |h| && IsLastVerdict(pr, h, |h|, i) && StateNow(h, i) == RequestsChanges
  {
    forall j: nat | j < |h| ensures IsStaffVerdict(pr, h, j) <==> IsVerdict(pr, h, j) {
    }
  }

  /** The events from which a cleanup counts. */
  ghost predicate IsStart(c: Cleanup, pr: PullRequest, h: History, i: nat)
    requires i < |h|
  {
    || h[i].Reopened?
    || (c == StaleDraft && (h[i].Commit? || h[i].ConvertedToDraft?))
    || (c == ChangesRequested && IsStanding(pr, h, i))
    || (c == NoSelfReview && (h[i].ReadyForReview? || (h[i].Labeled? && h[i].name == "no self-review")))
  }

  /** Whether a cleanup counts from the opening of the pull request as well. */
  ghost predicate CountsFromOpening(c: Cleanup, h: History) {
    match c
    case Cla => true
    case StaleDraft => forall i :: 0 <= i < |h| ==> !h[i].ConvertedToDraft?
    case ChangesRequested => false
    case NoSelfReview => forall i :: 0 <= i < |h| ==> !(h[i].Labeled? && h[i].name == "no self-review")
  }

  /** Everything from which the cleanup counts happened no later than `t`. */
  ghost predicate StartedBy(c: Cleanup, pr: PullRequest, h: History, t: int) {
    && (forall i :: 0 <= i < |h| && IsStart(c, pr, h, i) ==> h[i].at <= t)
    && (CountsFromOpening(c, h) ==> pr.createdAt <= t)
  }

  predicate BotSays(e: Event, m: Marker) {
    e.Comment? && e.login == Some("zed-community-bot") && m in e.body.markers
  }

  /** A comment or review of the author's; asking the CLA bot to check again does not count. */
  predicate AuthorActs(pr: PullRequest, e: Event) {
    (e.Comment? || e.Review?) && e.login == pr.author && (e.Comment? ==> !e.body.bareClaCheck)
  }

  /** The event comes strictly after everything from which the cleanup counts. */
  ghost predicate InEpoch(c: Cleanup, pr: PullRequest, h: History, e: Event) {
    StartedBy(c, pr, h, e.at - 1)
  }

  ghost predicate Said(c: Cleanup, pr: PullRequest, h: History, m: Marker) {
    exists i :: 0 <= i < |h| && BotSays(h[i], m) && InEpoch(c, pr, h, h[i])
  }

  /** Whatever the bot said of this kind in the epoch, it said no later than `t`. */
  ghost predicate SaidBy(c: Cleanup, pr: PullRequest, h: History, m: Marker, t: int) {
    forall i :: 0 <= i < |h| && BotSays(h[i], m) && InEpoch(c, pr, h, h[i]) ==> h[i].at <= t
  }

  // ----- what is due -----

  ghost predicate ClaWarrants(pr: PullRequest, h: History, now: int, step: Step) {
    && Labels(h) !! {"staff", "bot", "cla-signed"} && pr.createdAt + 7 * DAY <= now
    && if Said(Cla, pr, h, CloseNotice(Cla)) then step == Step(ClosePr, None)
       else
         && StartedBy(Cla, pr, h, now - 7 * DAY)
         && (forall i :: 0 <= i < |h| && AuthorActs(pr, h[i]) ==> !InEpoch(Cla, pr, h, h[i]))
         && if Said(Cla, pr, h, Ping(Cla))
            then SaidBy(Cla, pr, h, Ping(Cla), now - 1 * DAY)
                 && step == Step(ClosePr, Some(Body({CloseNotice(Cla)}, false, None)))
            else step == Step(RetryCla, Some(Body({Ping(Cla)}, true, None)))
  }

  ghost predicate DraftWarrants(pr: PullRequest, h: History, now: int, step: Step) {
    && IsDraft(pr, h)
    && (forall i :: 0 <= i < |h| && (h[i].Commit? || h[i].ConvertedToDraft?) ==> h[i].at + 21 * DAY <= now)
    && (CountsFromOpening(StaleDraft, h) ==> pr.createdAt + 21 * DAY <= now)
    && if Said(StaleDraft, pr, h, CloseNotice(StaleDraft)) then step == Step(ClosePr, None)
       else
         && StartedBy(StaleDraft, pr, h, now - 21 * DAY)
         && if Said(StaleDraft, pr, h, Ping(StaleDraft))
            then SaidBy(StaleDraft, pr, h, Ping(StaleDraft), now - 7 * DAY)
                 && step == Step(ClosePr, Some(Body({CloseNotice(StaleDraft)}, false, None)))
            else step == Step(SendPing, Some(Body({Ping(StaleDraft)}, false, None)))
  }

  /** A standing review, two weeks old, that neither a re-request nor an author push has answered. */
  ghost predicate IsUnanswered(pr: PullRequest, h: History, now: int, r: nat) {
    && IsStanding(pr, h, r) && h[r].at + 14 * DAY <= now
    && (forall i :: 0 <= i < |h| && h[i].ReviewRequested? ==> h[i].at <= h[r].at)
    && (forall i :: 0 <= i < |h| && h[i].Commit? && h[i].parents <= 1 && h[i].user in {None, pr.author} ==>
                      h[i].at <= h[r].at)
  }

  /** The notices by which the closing day is reckoned: the acknowledgements of the epoch or, without any, its pings. */
  ghost predicate IsReckoned(pr: PullRequest, h: History, x: nat) {
    && x < |h| && InEpoch(ChangesRequested, pr, h, h[x])
    && BotSays(h[x], if Said(ChangesRequested, pr, h, Ack) then Ack else Ping(ChangesRequested))
  }

  ghost function NoticePeriod(pr: PullRequest, h: History): int {
    if Said(ChangesRequested, pr, h, Ack) then 14 * DAY else 7 * DAY
  }

  /** The author has spoken since all of these. */
  ghost predicate HasReplied(pr: PullRequest, h: History) {
    exists m :: 0 <= m < |h| && AuthorActs(pr, h[m]) && InEpoch(ChangesRequested, pr, h, h[m])
                && forall x: nat :: IsReckoned(pr, h, x) ==> h[x].at < h[m].at
  }

  /** Two weeks without a word from the author. */
  ghost predicate IsQuiet(pr: PullRequest, h: History, now: int) {
    && StartedBy(ChangesRequested, pr, h, now - 14 * DAY)
    && (forall i :: 0 <= i < |h| && AuthorActs(pr, h[i]) && InEpoch(ChangesRequested, pr, h, h[i]) ==>
                      h[i].at <= now - 14 * DAY)
  }

  /** The closing day of every notice by which it is reckoned has come. */
  ghost predicate DaysHaveCome(pr: PullRequest, h: History, now: int) {
    forall x: nat :: IsReckoned(pr, h, x) ==> Day(h[x].at + NoticePeriod(pr, h)) <= Day(now)
  }

  ghost predicate ChangesWarrants(pr: PullRequest, h: History, now: int, step: Step) {
    && !IsDraft(pr, h) && Labels(h) !! {"staff", "bot"} && (exists r: nat :: IsUnanswered(pr, h, now, r))
    && IsNextInTalk(Said(ChangesRequested, pr, h, CloseNotice(ChangesRequested)),
                    Said(ChangesRequested, pr, h, Ping(ChangesRequested)),
                    IsQuiet(pr, h, now), HasReplied(pr, h), DaysHaveCome(pr, h, now), now, step)
  }

  /** The next step of the conversation: close if that is announced; ping after two quiet weeks; acknowledge a reply;
      and close when the day has come. */
  predicate IsNextInTalk(announced: bool, pinged: bool, quiet: bool, replied: bool, due: bool, now: int, step: Step) {
    if announced then step == Step(ClosePr, None)
    else if !pinged then
      quiet && step == Step(SendPing, Some(Body({Ping(ChangesRequested)}, false, Some(Day(now + 7 * DAY)))))
    else if replied then step == Step(Acknowledge, Some(Body({Ack}, false, Some(Day(now + 14 * DAY)))))
    else due && step == Step(ClosePr, Some(Body({CloseNotice(ChangesRequested)}, false, None)))
  }

  /** The author has spoken since every ping of the epoch. */
  ghost predicate SpokeSincePings(pr: PullRequest, h: History) {
    exists m :: 0 <= m < |h| && AuthorActs(pr, h[m]) && SaidBy(NoSelfReview, pr, h, Ping(NoSelfReview), h[m].at - 1)
  }

  ghost predicate NoSelfReviewWarrants(pr: PullRequest, h: History, now: int, step: Step) {
    && !IsDraft(pr, h) && "no self-review" in Labels(h) && Labels(h) !! {"staff", "bot"}
    && if Said(NoSelfReview, pr, h, CloseNotice(NoSelfReview)) then step == Step(ClosePr, None)
       else if !Said(NoSelfReview, pr, h, Ping(NoSelfReview)) then
         && NoticePresent(h) && StartedBy(NoSelfReview, pr, h, now - 1 * DAY)
         && step == Step(SendPing, Some(Body({Ping(NoSelfReview)}, false, Some(Day(now + 3 * DAY)))))
       else
         && (forall i :: 0 <= i < |h| && BotSays(h[i], Ping(NoSelfReview)) && InEpoch(NoSelfReview, pr, h, h[i]) ==>
                           Day(h[i].at + 3 * DAY) <= Day(now))
         && (NoticePresent(h) || !SpokeSincePings(pr, h))
         && step == Step(ClosePr, Some(Body({CloseNotice(NoSelfReview)}, false, None)))
  }

  /** The step that is due, if any. */
  ghost predicate Warrants(c: Cleanup, pr: PullRequest, h: History, now: int, step: Step) {
    match c
    case Cla => ClaWarrants(pr, h, now, step)
    case StaleDraft => DraftWarrants(pr, h, now, step)
    case ChangesRequested => ChangesWarrants(pr, h, now, step)
    case NoSelfReview => NoSelfReviewWarrants(pr, h, now, step)
  }

  // ----- the decisions are these -----

  lemma {:induction false} LatestOrBy(h: History, q: Query, floor: int, t: int)
    ensures LatestOr(h, q, floor) <= t <==>
            floor <= t && forall i :: 0 <= i < |h| && Matches(q, h[i]) ==> h[i].at <= t
  {
    LatestIsMaximum(h, q);
  }

  lemma {:induction false} LatestAfterBy(h: History, q: Query, since: int, t: int)
    ensures LatestAfter(h, q, since).Some? <==> exists i :: 0 <= i < |h| && Matches(q, h[i]) && since < h[i].at
    ensures LatestAfter(h, q, since).Some? ==>
              (LatestAfter(h, q, since).value <= t <==>
               forall i :: 0 <= i < |h| && Matches(q, h[i]) && since < h[i].at ==> h[i].at <= t)
  {
    LatestIsMaximum(h, q);
  }

  /** The clock stands at the last of the events from which the cleanup counts. */
  lemma {:induction false} ClockIsLastStart(c: Cleanup, pr: PullRequest, h: History, since: int, t: int)
    requires Ordered(h) && HasCommit(h) && Clock(c, pr, h) == Some(since)
    ensures StartedBy(c, pr, h, t) <==> since <= t
  {
    match c
    case Cla => LatestOrBy(h, Reopens, pr.createdAt, t);
    case StaleDraft => DraftClock(pr, h, t);
    case ChangesRequested => ChangesClock(pr, h, since, t);
    case NoSelfReview => SelfReviewStart(pr, h, t);
  }

  lemma {:induction false} DraftClock(pr: PullRequest, h: History, t: int)
    requires Ordered(h) && HasCommit(h)
    ensures StartedBy(StaleDraft, pr, h, t) <==> ClockStart(h, DraftActiveAt(pr, h)) <= t
    ensures DraftActiveAt(pr, h) <= t <==>
            && (forall i :: 0 <= i < |h| && (h[i].Commit? || h[i].ConvertedToDraft?) ==> h[i].at <= t)
            && (CountsFromOpening(StaleDraft, h) ==> pr.createdAt <= t)
  {
    LatestOrBy(h, Reopens, DraftActiveAt(pr, h), t);
    LastListedIsLatest(h, Commits);
    LastListedIsLatest(h, Conversions);
    LatestIsMaximum(h, Commits);
    LatestIsMaximum(h, Conversions);
    assert forall i :: 0 <= i < |h| ==> (Matches(Conversions, h[i]) <==> h[i].ConvertedToDraft?);
    assert forall i :: 0 <= i < |h| ==> (Matches(Commits, h[i]) <==> h[i].Commit?);
  }

  lemma {:induction false} ChangesClock(pr: PullRequest, h: History, since: int, t: int)
    requires HasCommit(h) && Clock(ChangesRequested, pr, h) == Some(since)
    ensures StartedBy(ChangesRequested, pr, h, t) <==> since <= t
  {
    var r := StandingRequestAt(pr, h);
    StandingExactly(pr, h, r);
    forall i: nat | i < |h| && IsStanding(pr, h, i) ensures i == r {
      StandingExactly(pr, h, i);
    }
    LatestOrBy(h, Reopens, h[r].at, t);
  }

  lemma {:induction false} SelfReviewStart(pr: PullRequest, h: History, t: int)
    ensures StartedBy(NoSelfReview, pr, h, t) <==> SelfReviewClock(pr, h) <= t
  {
    var q := LabelEvents(NO_SELF_REVIEW_LABEL);
    LatestIsMaximum(h, q);
    var labeledAt := OrElse(Latest(h, q), pr.createdAt);
    LatestOrBy(h, ReadyEvents, labeledAt, t);
    LatestOrBy(h, Reopens, LatestOr(h, ReadyEvents, labeledAt), t);
    assert forall i :: 0 <= i < |h| ==> (Matches(q, h[i]) <==> h[i].Labeled? && h[i].name == "no self-review");
  }

  lemma {:induction false} EpochIsAfterClock(c: Cleanup, pr: PullRequest, h: History, since: int)
    requires Ordered(h) && HasCommit(h) && Clock(c, pr, h) == Some(since)
    ensures forall i :: 0 <= i < |h| ==> (InEpoch(c, pr, h, h[i]) <==> since < h[i].at)
  {
    forall i | 0 <= i < |h| ensures InEpoch(c, pr, h, h[i]) <==> since < h[i].at {
      ClockIsLastStart(c, pr, h, since, h[i].at - 1);
    }
  }

  lemma {:induction false} SaidExactly(c: Cleanup, pr: PullRequest, h: History, since: int, m: Marker, t: int)
    requires Ordered(h) && HasCommit(h) && Clock(c, pr, h) == Some(since)
    ensures Said(c, pr, h, m) <==> BotCommentedAt(h, m, since).Some?
    ensures Said(c, pr, h, m) ==> (SaidBy(c, pr, h, m, t) <==> BotCommentedAt(h, m, since).value <= t)
  {
    EpochIsAfterClock(c, pr, h, since);
    LatestAfterBy(h, BotComment(m), since, t);
    assert forall i :: 0 <= i < |h| ==> (BotSays(h[i], m) <==> Matches(BotComment(m), h[i]));
  }

  lemma {:induction false} ActsExactly(c: Cleanup, pr: PullRequest, h: History, since: int, t: int)
    requires Ordered(h) && HasCommit(h) && Clock(c, pr, h) == Some(since)
    ensures AuthorCommentedAt(pr, h, since).Some? <==>
            exists i :: 0 <= i < |h| && AuthorActs(pr, h[i]) && InEpoch(c, pr, h, h[i])
    ensures AuthorCommentedAt(pr, h, since).Some? ==>
              (AuthorCommentedAt(pr, h, since).value <= t <==>
               forall i :: 0 <= i < |h| && AuthorActs(pr, h[i]) && InEpoch(c, pr, h, h[i]) ==> h[i].at <= t)
  {
    EpochIsAfterClock(c, pr, h, since);
    LatestAfterBy(h, AuthorActivity(pr.author), since, t);
    assert forall i :: 0 <= i < |h| ==> (AuthorActs(pr, h[i]) <==> Matches(AuthorActivity(pr.author), h[i]));
  }

  lemma {:induction false} ClaExactly(pr: PullRequest, h: History, now: int, step: Step)
    requires Ordered(h) && HasCommit(h)
    ensures ClaAction(pr, h, now) == Some(step) <==> ClaWarrants(pr, h, now, step)
  {
    var since := ClockStart(h, pr.createdAt);
    SaidExactly(Cla, pr, h, since, CloseNotice(Cla), now);
    SaidExactly(Cla, pr, h, since, Ping(Cla), now - DAY);
    ClockIsLastStart(Cla, pr, h, since, now - 7 * DAY);
    ActsExactly(Cla, pr, h, since, now);
  }

  lemma {:induction false} DraftActionExactly(pr: PullRequest, h: History, now: int, step: Step)
    requires Ordered(h) && HasCommit(h)
    ensures DraftAction(pr, h, now) == Some(step) <==> DraftWarrants(pr, h, now, step)
  {
    var since := ClockStart(h, DraftActiveAt(pr, h));
    DraftClock(pr, h, now - 21 * DAY);
    SaidExactly(StaleDraft, pr, h, since, CloseNotice(StaleDraft), now);
    SaidExactly(StaleDraft, pr, h, since, Ping(StaleDraft), now - 7 * DAY);
    ClockIsLastStart(StaleDraft, pr, h, since, now - 21 * DAY);
  }

  /** The latest of the notices by which the closing day is reckoned, and the period after it. */
  lemma {:induction false} ReckonedExactly(pr: PullRequest, h: History, since: int, x: nat)
    requires Ordered(h) && HasCommit(h) && Clock(ChangesRequested, pr, h) == Some(since)
    requires BotCommentedAt(h, Ping(ChangesRequested), since).Some?
    ensures var n := LatestNotice(BotCommentedAt(h, Ack, since),
                                  BotCommentedAt(h, Ping(ChangesRequested), since).value);
            && n.1 == NoticePeriod(pr, h) && (IsReckoned(pr, h, x) ==> h[x].at <= n.0)
            && exists y: nat :: IsReckoned(pr, h, y) && h[y].at == n.0
  {
    SaidExactly(ChangesRequested, pr, h, since, Ack, since);
    EpochIsAfterClock(ChangesRequested, pr, h, since);
    var m := if Said(ChangesRequested, pr, h, Ack) then Ack else Ping(ChangesRequested);
    LatestIsMaximum(h, BotComment(m));
    var y :| 0 <= y < |h| && Matches(BotComment(m), h[y]) && h[y].at == Latest(h, BotComment(m)).value;
    assert IsReckoned(pr, h, y);
    if IsReckoned(pr, h, x) {
      LatestCovers(h, BotComment(m), x);
    }
  }

  lemma {:induction false} AwaitsExactly(pr: PullRequest, h: History, now: int)
    ensures AwaitsAuthor(pr, h, now) <==>
            !IsDraft(pr, h) && Labels(h) !! {"staff", "bot"} && exists r: nat :: IsUnanswered(pr, h, now, r)
  {
    LatestIsMaximum(h, ReviewRequests);
    assert forall i :: 0 <= i < |h| ==> (Matches(ReviewRequests, h[i]) <==> h[i].ReviewRequested?);
    if StaffChangeRequestAt(pr, h).Some? {
      var r := StandingRequestAt(pr, h);
      StandingExactly(pr, h, r);
      assert AwaitsAuthor(pr, h, now) ==> IsUnanswered(pr, h, now, r);
      forall i: nat | IsStanding(pr, h, i) ensures i == r {
        StandingExactly(pr, h, i);
      }
    } else if r: nat :| IsStanding(pr, h, r) {
      StandingExactly(pr, h, r);
      StandsIfLast(pr, h, |h|, r);
      assert false;
    }
  }

  lemma {:induction false} RepliedExactly(pr: PullRequest, h: History, since: int)
    requires Ordered(h) && HasCommit(h) && Clock(ChangesRequested, pr, h) == Some(since)
    requires BotCommentedAt(h, Ping(ChangesRequested), since).Some?
    ensures var n := LatestNotice(BotCommentedAt(h, Ack, since),
                                  BotCommentedAt(h, Ping(ChangesRequested), since).value);
            var commentedAt := AuthorCommentedAt(pr, h, since);
            HasReplied(pr, h) <==> commentedAt.Some? && commentedAt.value > n.0
  {
    var n := LatestNotice(BotCommentedAt(h, Ack, since), BotCommentedAt(h, Ping(ChangesRequested), since).value);
    ActsExactly(ChangesRequested, pr, h, since, n.0);
    ReckonedExactly(pr, h, since, 0);
    var y: nat :| IsReckoned(pr, h, y) && h[y].at == n.0;
    forall x: nat | IsReckoned(pr, h, x) ensures h[x].at <= n.0 {
      ReckonedExactly(pr, h, since, x);
    }
  }

  lemma {:induction false} DayOrder(a: int, b: int)
    requires a <= b
    ensures Day(a) <= Day(b)
  {
  }

  /** The days have come if the day of the latest notice has. */
  lemma {:induction false} LatestDay(pr: PullRequest, h: History, now: int, y: nat)
    requires IsReckoned(pr, h, y) && forall x: nat :: IsReckoned(pr, h, x) ==> h[x].at <= h[y].at
    ensures DaysHaveCome(pr, h, now) <==> Day(h[y].at + NoticePeriod(pr, h)) <= Day(now)
  {
    var period := NoticePeriod(pr, h);
    forall x: nat | IsReckoned(pr, h, x) ensures Day(h[x].at + period) <= Day(h[y].at + period) {
      DayOrder(h[x].at + period, h[y].at + period);
    }
  }

  lemma {:induction false} DaysReached(pr: PullRequest, h: History, since: int, now: int)
    requires Ordered(h) && HasCommit(h) && Clock(ChangesRequested, pr, h) == Some(since)
    requires BotCommentedAt(h, Ping(ChangesRequested), since).Some?
    ensures var n := LatestNotice(BotCommentedAt(h, Ack, since),
                                  BotCommentedAt(h, Ping(ChangesRequested), since).value);
            ClosingDateReached(n.0, n.1, now) <==> DaysHaveCome(pr, h, now)
  {
    var n := LatestNotice(BotCommentedAt(h, Ack, since), BotCommentedAt(h, Ping(ChangesRequested), since).value);
    ReckonedExactly(pr, h, since, 0);
    var y: nat :| IsReckoned(pr, h, y) && h[y].at == n.0;
    forall x: nat | IsReckoned(pr, h, x) ensures h[x].at <= h[y].at {
      ReckonedExactly(pr, h, since, x);
    }
    LatestDay(pr, h, now, y);
  }

  lemma {:induction false} QuietExactly(pr: PullRequest, h: History, since: int, now: int)
    requires Ordered(h) && HasCommit(h) && Clock(ChangesRequested, pr, h) == Some(since)
    ensures IsQuiet(pr, h, now) <==> 14 * DAY <= now - OrElse(AuthorCommentedAt(pr, h, since), since)
  {
    ActsExactly(ChangesRequested, pr, h, since, now - 14 * DAY);
    ClockIsLastStart(ChangesRequested, pr, h, since, now - 14 * DAY);
    EpochIsAfterClock(ChangesRequested, pr, h, since);
  }

  lemma {:induction false} TalkExactly(
    now: int, since: int, closingAt: Option<int>, commentedAt: Option<int>, pingedAt: Option<int>,
    acknowledgedAt: Option<int>, quiet: bool, replied: bool, due: bool, step: Step)
    requires pingedAt.None? ==> (quiet <==> 14 * DAY <= now - OrElse(commentedAt, since))
    requires pingedAt.Some? ==>
               var n := LatestNotice(acknowledgedAt, pingedAt.value);
               && (replied <==> commentedAt.Some? && commentedAt.value > n.0)
               && (due <==> ClosingDateReached(n.0, n.1, now))
    ensures ChangesStep(now, since, closingAt, commentedAt, pingedAt, acknowledgedAt) == Some(step) <==>
            IsNextInTalk(closingAt.Some?, pingedAt.Some?, quiet, replied, due, now, step)
  {
  }

  lemma {:induction false} ChangesExactly(pr: PullRequest, h: History, now: int, step: Step)
    requires Ordered(h) && HasCommit(h)
    ensures ChangesRequestedAction(pr, h, now) == Some(step) <==> ChangesWarrants(pr, h, now, step)
  {
    AwaitsExactly(pr, h, now);
    if AwaitsAuthor(pr, h, now) {
      var since := ClockStart(h, StaffChangeRequestAt(pr, h).value);
      var closingAt := BotCommentedAt(h, CloseNotice(ChangesRequested), since);
      var commentedAt := AuthorCommentedAt(pr, h, since);
      var pingedAt := BotCommentedAt(h, Ping(ChangesRequested), since);
      var acknowledgedAt := BotCommentedAt(h, Ack, since);
      TalkConditions(pr, h, now, since);
      TalkExactly(now, since, closingAt, commentedAt, pingedAt, acknowledgedAt, IsQuiet(pr, h, now),
                  HasReplied(pr, h), DaysHaveCome(pr, h, now), step);
    }
  }

  lemma {:induction false} TalkConditions(pr: PullRequest, h: History, now: int, since: int)
    requires Ordered(h) && HasCommit(h) && Clock(ChangesRequested, pr, h) == Some(since)
    ensures var commentedAt, pingedAt := AuthorCommentedAt(pr, h, since),
                                         BotCommentedAt(h, Ping(ChangesRequested), since);
            && (Said(ChangesRequested, pr, h, CloseNotice(ChangesRequested)) <==>
                BotCommentedAt(h, CloseNotice(ChangesRequested), since).Some?)
            && (Said(ChangesRequested, pr, h, Ping(ChangesRequested)) <==> pingedAt.Some?)
            && (pingedAt.None? ==> (IsQuiet(pr, h, now) <==> 14 * DAY <= now - OrElse(commentedAt, since)))
            && (pingedAt.Some? ==>
                  var n := LatestNotice(BotCommentedAt(h, Ack, since), pingedAt.value);
                  && (HasReplied(pr, h) <==> commentedAt.Some? && commentedAt.value > n.0)
                  && (DaysHaveCome(pr, h, now) <==> ClosingDateReached(n.0, n.1, now)))
  {
    SaidExactly(ChangesRequested, pr, h, since, CloseNotice(ChangesRequested), now);
    SaidExactly(ChangesRequested, pr, h, since, Ping(ChangesRequested), now);
    if BotCommentedAt(h, Ping(ChangesRequested), since).Some? {
      RepliedExactly(pr, h, since);
      DaysReached(pr, h, since, now);
    } else {
      QuietExactly(pr, h, since, now);
    }
  }

  lemma {:induction false} PingsExactly(pr: PullRequest, h: History, since: int, now: int)
    requires Ordered(h) && HasCommit(h) && Clock(NoSelfReview, pr, h) == Some(since)
    requires BotCommentedAt(h, Ping(NoSelfReview), since).Some?
    ensures var pingedAt := BotCommentedAt(h, Ping(NoSelfReview), since).value;
            && (SpokeSincePings(pr, h) <==> AuthorCommentedAt(pr, h, pingedAt).Some?)
            && (ClosingDateReached(pingedAt, 3 * DAY, now) <==>
                forall i :: 0 <= i < |h| && BotSays(h[i], Ping(NoSelfReview)) && InEpoch(NoSelfReview, pr, h, h[i]) ==>
                              Day(h[i].at + 3 * DAY) <= Day(now))
  {
    var m := Ping(NoSelfReview);
    var pingedAt := BotCommentedAt(h, m, since).value;
    EpochIsAfterClock(NoSelfReview, pr, h, since);
    LatestIsMaximum(h, BotComment(m));
    var y :| 0 <= y < |h| && Matches(BotComment(m), h[y]) && h[y].at == Latest(h, BotComment(m)).value;
    assert BotSays(h[y], m) && InEpoch(NoSelfReview, pr, h, h[y]) && h[y].at == pingedAt;
    forall i | 0 <= i < |h| && BotSays(h[i], m) ensures h[i].at <= pingedAt {
      LatestCovers(h, BotComment(m), i);
    }
    LatestAfterBy(h, AuthorActivity(pr.author), pingedAt, pingedAt);
    forall i | 0 <= i < |h| && AuthorActs(pr, h[i])
      ensures SaidBy(NoSelfReview, pr, h, m, h[i].at - 1) <==> pingedAt < h[i].at
    {
      SaidExactly(NoSelfReview, pr, h, since, m, h[i].at - 1);
    }
    assert forall i :: 0 <= i < |h| ==> (AuthorActs(pr, h[i]) <==> Matches(AuthorActivity(pr.author), h[i]));
  }

  lemma {:induction false} NoSelfReviewExactly(pr: PullRequest, h: History, now: int, step: Step)
    requires Ordered(h) && HasCommit(h)
    ensures NoSelfReviewAction(pr, h, now) == Some(step) <==> NoSelfReviewWarrants(pr, h, now, step)
  {
    var since := SelfReviewClock(pr, h);
    SaidExactly(NoSelfReview, pr, h, since, CloseNotice(NoSelfReview), now);
    SaidExactly(NoSelfReview, pr, h, since, Ping(NoSelfReview), now);
    if Said(NoSelfReview, pr, h, Ping(NoSelfReview)) {
      PingsExactly(pr, h, since, now);
    } else {
      ClockIsLastStart(NoSelfReview, pr, h, since, now - DAY);
    }
  }

  /** A cleanup decides on a step if and only if the events warrant it. */
  lemma {:induction false} DecidesExactly(c: Cleanup, pr: PullRequest, h: History, now: int, step: Step)
    requires Ordered(h) && HasCommit(h)
    ensures Action(c, pr, h, now) == Some(step) <==> Warrants(c, pr, h, now, step)
  {
    match c
    case Cla => ClaExactly(pr, h, now, step);
    case StaleDraft => DraftActionExactly(pr, h, now, step);
    case ChangesRequested => ChangesExactly(pr, h, now, step);
    case NoSelfReview => NoSelfReviewExactly(pr, h, now, step);
  }

  // ----- the requests of a run -----

  function Rank(c: Cleanup): nat {
    match c
    case Cla => 0
    case StaleDraft => 1
    case ChangesRequested => 2
    case NoSelfReview => 3
  }

  ghost predicate Closes(c: Cleanup, pr: PullRequest, h: History, now: int) {
    exists step :: Warrants(c, pr, h, now, step) && step.kind == ClosePr
  }

  /** The pull request is looked at, and no cleanup before this one closes it. */
  ghost predicate ComesToTurn(c: Cleanup, pr: PullRequest, h: History, now: int) {
    IsOpen(h) && "never stale" !in Labels(h) && forall d: Cleanup :: Rank(d) < Rank(c) ==> !Closes(d, pr, h, now)
  }

  ghost predicate Sends(c: Cleanup, step: Step, call: Call) {
    match call
    case PostComment(body) => step.comment == Some(body)
    case PatchClosed(d) => d == c && step.kind == ClosePr
  }

  predicate ClosesBy(decide: Cleanup -> Option<Step>, c: Cleanup) {
    decide(c).Some? && decide(c).value.kind == ClosePr
  }

  ghost predicate FirstToClose(k: nat, decide: Cleanup -> Option<Step>, c: Cleanup) {
    k <= Rank(c) && forall d: Cleanup :: k <= Rank(d) < Rank(c) ==> !ClosesBy(decide, d)
  }

  lemma {:induction false} RanksAreOrder(k: nat)
    requires k < |CLEANUPS|
    ensures forall c: Cleanup :: Rank(c) == k <==> c == CLEANUPS[k]
  {
  }

  lemma {:induction false} RoundExactly(k: nat, decide: Cleanup -> Option<Step>, call: Call)
    requires k <= |CLEANUPS|
    ensures call in CallsFrom(k, decide) <==>
            exists c :: FirstToClose(k, decide, c) && decide(c).Some? && Sends(c, decide(c).value, call)
    decreases |CLEANUPS| - k
  {
    if k < |CLEANUPS| {
      var c := CLEANUPS[k];
      RanksAreOrder(k);
      RoundExactly(k + 1, decide, call);
      assert FirstToClose(k, decide, c);
      forall d: Cleanup | d != c ensures FirstToClose(k, decide, d) <==>
                                         FirstToClose(k + 1, decide, d) && !ClosesBy(decide, c) {
      }
      if decide(c).Some? {
        assert call in CallsOf(c, decide(c).value) <==> Sends(c, decide(c).value, call);
      }
    }
  }

  /** A run sends a request if and only if the step of some cleanup that comes to its turn asks for it. */
  lemma {:induction false} SendsExactly(pr: PullRequest, h: History, now: int, call: Call)
    requires Ordered(h) && HasCommit(h)
    ensures call in Calls(pr, h, now) <==>
            exists c, step :: ComesToTurn(c, pr, h, now) && Warrants(c, pr, h, now, step) && Sends(c, step, call)
  {
    var decide := Decisions(pr, h, now);
    RoundExactly(0, decide, call);
    forall c, step ensures decide(c) == Some(step) <==> Warrants(c, pr, h, now, step) {
      DecidesExactly(c, pr, h, now, step);
    }
    forall c: Cleanup ensures Closes(c, pr, h, now) <==> ClosesBy(decide, c) {
      if ClosesBy(decide, c) {
        assert Warrants(c, pr, h, now, decide(c).value);
      }
    }
  }

  /** Where a request stands in a run: cleanup by cleanup, the comment before the close. */
  ghost predicate HasPlace(call: Call, place: nat) {
    match call
    case PostComment(body) => exists m :: body.markers == {m} && place == 2 * Rank(CleanupOf(m))
    case PatchClosed(c) => place == 2 * Rank(c) + 1
  }

  ghost predicate InPlaces(calls: seq<Call>, places: seq<nat>) {
    && |places| == |calls| && (forall i :: 0 <= i < |calls| ==> HasPlace(calls[i], places[i]))
    && (forall i, j :: 0 <= i < j < |places| ==> places[i] < places[j])
  }

  ghost predicate SpeaksForItself(decide: Cleanup -> Option<Step>) {
    forall c :: decide(c).Some? && decide(c).value.comment.Some? ==>
                  exists m :: decide(c).value.comment.value.markers == {m} && CleanupOf(m) == c
  }

  lemma {:induction false} StepInPlaces(k: nat, step: Step) returns (places: seq<nat>)
    requires k < |CLEANUPS|
    requires step.comment.Some? ==> exists m :: step.comment.value.markers == {m} && CleanupOf(m) == CLEANUPS[k]
    ensures InPlaces(CallsOf(CLEANUPS[k], step), places)
    ensures forall i :: 0 <= i < |places| ==> 2 * k <= places[i] < 2 * k + 2
  {
    RanksAreOrder(k);
    places := (if step.comment.Some? then [2 * k] else []) + (if step.kind == ClosePr then [2 * k + 1] else []);
  }

  lemma {:induction false} PlacesInTurn(a: seq<Call>, b: seq<Call>, pa: seq<nat>, pb: seq<nat>, bound: nat)
    requires InPlaces(a, pa) && InPlaces(b, pb)
    requires (forall i :: 0 <= i < |pa| ==> pa[i] < bound) && forall i :: 0 <= i < |pb| ==> bound <= pb[i]
    ensures InPlaces(a + b, pa + pb)
  {
    var calls, places := a + b, pa + pb;
    forall i | 0 <= i < |calls| ensures HasPlace(calls[i], places[i]) {
      if |a| <= i {
        assert calls[i] == b[i - |a|] && places[i] == pb[i - |a|];
      }
    }
  }

  ghost predicate AllFrom(places: seq<nat>, bound: nat) {
    forall i :: 0 <= i < |places| ==> bound <= places[i]
  }

  lemma {:induction false} RoundInPlaces(k: nat, decide: Cleanup -> Option<Step>) returns (places: seq<nat>)
    requires k <= |CLEANUPS| && SpeaksForItself(decide)
    ensures InPlaces(CallsFrom(k, decide), places) && AllFrom(places, 2 * k)
    decreases |CLEANUPS| - k
  {
    places := [];
    if k < |CLEANUPS| {
      var rest := RoundInPlaces(k + 1, decide);
      var step := decide(CLEANUPS[k]);
      if step.None? {
        places := rest;
      } else {
        var own := StepInPlaces(k, step.value);
        var after := if step.value.kind == ClosePr then [] else rest;
        PlacesInTurn(CallsOf(CLEANUPS[k], step.value), CallsAfter(k, step.value, decide), own, after, 2 * k + 2);
        places := own + after;
      }
    }
  }

  /** A run sends its requests in the order of the cleanups, a comment before the close that it announces. */
  lemma {:induction false} SendsInOrder(pr: PullRequest, h: History, now: int) returns (places: seq<nat>)
    requires Ordered(h) && HasCommit(h)
    ensures InPlaces(Calls(pr, h, now), places)
  {
    var decide := Decisions(pr, h, now);
    forall c | decide(c).Some? && decide(c).value.comment.Some?
      ensures exists m :: decide(c).value.comment.value.markers == {m} && CleanupOf(m) == c
    {
      var m := SaysOneMarker(c, pr, h, now);
    }
    places := RoundInPlaces(0, decide);
    places := if Calls(pr, h, now) == [] then [] else places;
  }

  /** The requests that get through leave their events behind, in order and at their times. */
  lemma {:induction false} RecordedExactly(calls: seq<Call>, times: seq<int>, i: nat)
    requires i < |times| <= |calls|
    ensures RecordedAll(calls, times)[i] ==
            match calls[i]
            case PostComment(body) => Comment(times[i], Some("zed-community-bot"), body)
            case PatchClosed(c) => Closed(times[i], Some(c))
  {
    if i > 0 {
      RecordedExactly(calls[1..], times[1..], i - 1);
    }
  }
}
