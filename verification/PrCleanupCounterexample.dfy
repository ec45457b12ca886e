/**
 One life of a pull request in which the changes-requested cleanup closes after the author has replied to its
 latest notice: the run that announced the closure died before the close request.
 */
module PrCleanupCounterexample {
  import opened Options
  import opened PullRequests
  import opened PrCleanup
  import opened PrCleanupRuns
  import opened PrCleanupSafety

  const PR := PullRequest(0, Some("author"), false, {"reviewer"})

  /** Reviewed at time zero, CLA signed, and since then only comments. */
  ghost predicate Reviewed(h: History, ping: Option<int>, closing: Option<int>, reply: Option<int>) {
    && HasCommit(h) && Labels(h) == {CLA_SIGNED_LABEL} && !IsDraft(PR, h) && IsOpen(h)
    && StaffChangeRequestAt(PR, h) == Some(0) && !AuthorPushedSince(PR, h, 0)
    && Latest(h, Reopens) == None && Latest(h, ReviewRequests) == None && Latest(h, BotComment(Ack)) == None
    && Latest(h, BotComment(Ping(ChangesRequested))) == ping
    && Latest(h, BotComment(CloseNotice(ChangesRequested))) == closing
    && Latest(h, AuthorActivity(PR.author)) == reply
  }

  lemma {:induction false} LatestTakes(h: History, e: Event, q: Query)
    requires Matches(q, e) && Latest(h, q) == None
    ensures Latest(h + [e], q) == Some(e.at)
  {
    assert (h + [e])[..|h|] == h;
  }

  lemma {:induction false} CommentAdded(h: History, ping: Option<int>, closing: Option<int>, e: Event, q: Query)
    requires Reviewed(h, ping, closing, None) && e.Comment?
    requires || (q == BotComment(Ping(ChangesRequested)) && ping == None && IsOwnComment(e, Ping(ChangesRequested)))
             || (q == BotComment(CloseNotice(ChangesRequested)) && closing == None
                 && IsOwnComment(e, CloseNotice(ChangesRequested)))
             || (q == AuthorActivity(PR.author) && e.login == PR.author && !e.body.bareClaCheck)
    ensures Reviewed(h + [e],
                     if q == BotComment(Ping(ChangesRequested)) then Some(e.at) else ping,
                     if q == BotComment(CloseNotice(ChangesRequested)) then Some(e.at) else closing,
                     if q == AuthorActivity(PR.author) then Some(e.at) else None)
  {
    CommentsLeaveState(PR, h, e);
    CommentsLeaveRequest(PR, h, e);
    CommentsLeavePushes(PR, h, e, 0);
    LastListedIgnores(h, e, Commits);
    assert (h + [e])[..|h|] == h;
    LatestIgnores(h, e, Reopens);
    LatestIgnores(h, e, ReviewRequests);
    LatestIgnores(h, e, BotComment(Ack));
    LatestTakes(h, e, q);
    AllOthersIgnore(h, e, q);
  }

  lemma {:induction false} AllOthersIgnore(h: History, e: Event, q: Query)
    ensures forall o :: o != q && !Matches(o, e) ==> Latest(h + [e], o) == Latest(h, o)
  {
    forall o | o != q && !Matches(o, e) ensures Latest(h + [e], o) == Latest(h, o) {
      LatestIgnores(h, e, o);
    }
  }

  /** On such a history only the changes-requested cleanup has anything to do. */
  lemma {:induction false} OnlyChangesRequested(
    h: History, now: int, ping: Option<int>, closing: Option<int>, reply: Option<int>)
    requires Reviewed(h, ping, closing, reply)
    ensures Action(Cla, PR, h, now) == None && Action(StaleDraft, PR, h, now) == None
    ensures Action(NoSelfReview, PR, h, now) == None
  {
  }

  lemma {:induction false} RoundOf(decide: Cleanup -> Option<Step>, step: Step)
    requires decide(Cla) == None && decide(StaleDraft) == None && decide(NoSelfReview) == None
    requires decide(ChangesRequested) == Some(step)
    ensures CallsFrom(0, decide) == CallsOf(ChangesRequested, step)
  {
    assert CallsFrom(4, decide) == CallsFrom(3, decide) == [];
    assert CallsFrom(2, decide) == CallsOf(ChangesRequested, step) + CallsAfter(2, step, decide);
    assert CallsFrom(0, decide) == CallsFrom(1, decide) == CallsFrom(2, decide);
  }

  lemma {:induction false} CallsOfRound(
    h: History, now: int, ping: Option<int>, closing: Option<int>, reply: Option<int>, step: Step)
    requires Reviewed(h, ping, closing, reply) && Action(ChangesRequested, PR, h, now) == Some(step)
    ensures Calls(PR, h, now) == CallsOf(ChangesRequested, step)
  {
    OnlyChangesRequested(h, now, ping, closing, reply);
    RoundOf(Decisions(PR, h, now), step);
  }

  lemma {:induction false} OrderedGrows(h: History, e: Event)
    requires Ordered(h) && h != [] && h[|h| - 1].at <= e.at
    ensures Ordered(h + [e])
  {
    forall i | 0 <= i < |h| ensures h[i].at <= e.at {
      assert i == |h| - 1 || h[i].at <= h[|h| - 1].at;
    }
  }

  lemma {:induction false} Resumes(h: History, now: int, ping: Option<int>, closing: int, reply: Option<int>)
    requires Reviewed(h, ping, Some(closing), reply) && 0 < closing && 14 * DAY <= now
    ensures Action(ChangesRequested, PR, h, now) == Some(RESUME_CLOSE)
  {
  }

  /** A bot run of which exactly one request gets through. */
  lemma {:induction false} OneRequest(
    h: History, now: int, ping: Option<int>, closing: Option<int>, reply: Option<int>, step: Step)
    returns (m: Move)
    requires Reviewed(h, ping, closing, reply) && Action(ChangesRequested, PR, h, now) == Some(step)
    requires step.kind != RetryCla
    requires CallsOf(ChangesRequested, step) != [] && Ordered(h) && h != [] && h[|h| - 1].at <= now
    ensures Enabled(PR, h, m) && Apply(PR, h, m) == h + [Recorded(CallsOf(ChangesRequested, step)[0], now)]
  {
    CallsOfRound(h, now, ping, closing, reply, step);
    m := BotRun(now, [now]);
    OrderedGrows(h, Recorded(CallsOf(ChangesRequested, step)[0], now));
    assert RecordedAll(CallsOf(ChangesRequested, step), [now]) == [Recorded(CallsOf(ChangesRequested, step)[0], now)];
  }

  lemma {:induction false} Extends(start: History, moves: seq<Move>, h: History, m: Move)
    requires Reaches(PR, start, moves, h) && HasCommit(h) && Enabled(PR, h, m)
    ensures Reaches(PR, start, moves + [m], Apply(PR, h, m))
  {
    assert (moves + [m])[..|moves|] == moves;
  }

  const START: History := [Commit(0, None, 1, false)]
  const LABELED: History := START + [Labeled(0, CLA_SIGNED_LABEL)]
  const REVIEWED: History := LABELED + [Review(0, Some("reviewer"), RequestsChanges)]
  const PING := Comment(14 * DAY, Some(COMMUNITY_BOT),
                        Dated(Ping(ChangesRequested), CHANGES_REQUESTED_CLOSE_AFTER_PING, 14 * DAY))
  const CLOSING := Comment(21 * DAY, Some(COMMUNITY_BOT), Plain(CloseNotice(ChangesRequested)))
  const REPLY := Comment(22 * DAY, PR.author, Body({}, false, None))

  lemma {:induction false} StartState()
    ensures HasCommit(START) && Labels(START) == {} && !IsDraft(PR, START) && IsOpen(START)
  {
    assert START[..0] == [];
  }

  lemma {:induction false} LabeledState()
    ensures HasCommit(LABELED) && Labels(LABELED) == {CLA_SIGNED_LABEL} && !IsDraft(PR, LABELED) && IsOpen(LABELED)
  {
    StartState();
    assert LABELED[..1] == START;
  }

  lemma {:induction false} ReviewedState()
    ensures Reviewed(REVIEWED, None, None, None)
  {
    LabeledState();
    assert REVIEWED[..2] == LABELED;
    assert IsVerdict(PR, REVIEWED, 2) && StateNow(REVIEWED, 2) == RequestsChanges;
    NothingYet(Reopens);
    NothingYet(ReviewRequests);
    NothingYet(BotComment(Ack));
    NothingYet(BotComment(Ping(ChangesRequested)));
    NothingYet(BotComment(CloseNotice(ChangesRequested)));
    NothingYet(AuthorActivity(PR.author));
  }

  lemma {:induction false} NothingYet(q: Query)
    requires q == AuthorActivity(PR.author) || q.BotComment? || q == Reopens || q == ReviewRequests
    ensures Latest(REVIEWED, q) == None
  {
    LatestIsMaximum(REVIEWED, q);
  }

  lemma {:induction false} ReachReviewed() returns (moves: seq<Move>)
    ensures Reaches(PR, START, moves, REVIEWED)
  {
    StartState();
    LabeledState();
    assert Reaches(PR, START, [], START);
    Extends(START, [], START, Outside(LABELED[1]));
    Extends(START, [] + [Outside(LABELED[1])], LABELED, Outside(REVIEWED[2]));
    moves := [] + [Outside(LABELED[1])] + [Outside(REVIEWED[2])];
  }

  /** One request gets through, and the history grows by its event. */
  lemma {:induction false} OneMore(
    moves: seq<Move>, h: History, now: int, ping: Option<int>, closing: Option<int>, reply: Option<int>, step: Step)
    returns (moves': seq<Move>)
    requires Reaches(PR, START, moves, h) && h != [] && h[|h| - 1].at <= now && CallsOf(ChangesRequested, step) != []
    requires Reviewed(h, ping, closing, reply) && Action(ChangesRequested, PR, h, now) == Some(step)
    requires step.kind != RetryCla
    ensures Reaches(PR, START, moves', h + [Recorded(CallsOf(ChangesRequested, step)[0], now)])
  {
    ReachableIsSound(PR, START, moves, h);
    var m := OneRequest(h, now, ping, closing, reply, step);
    Extends(START, moves, h, m);
    moves' := moves + [m];
  }

  lemma {:induction false} DecidesPing(h: History)
    requires Reviewed(h, None, None, None)
    ensures Action(ChangesRequested, PR, h, 14 * DAY) == Some(Step(SendPing, Some(PING.body)))
  {
  }

  lemma {:induction false} DecidesClose(h: History)
    requires Reviewed(h, Some(14 * DAY), None, None)
    ensures Action(ChangesRequested, PR, h, 21 * DAY) == Some(Step(ClosePr, Some(CLOSING.body)))
  {
  }

  lemma {:induction false} PingIsSent(moves: seq<Move>, h: History) returns (moves': seq<Move>)
    requires Reaches(PR, START, moves, h) && Reviewed(h, None, None, None) && h != [] && h[|h| - 1].at <= 14 * DAY
    ensures Reaches(PR, START, moves', h + [PING]) && Reviewed(h + [PING], Some(14 * DAY), None, None)
  {
    DecidesPing(h);
    moves' := OneMore(moves, h, 14 * DAY, None, None, None, Step(SendPing, Some(PING.body)));
    CommentAdded(h, None, None, PING, BotComment(Ping(ChangesRequested)));
  }

  /** The run dies between the closing comment and the close request. */
  lemma {:induction false} ClosureIsAnnounced(moves: seq<Move>, h: History) returns (moves': seq<Move>)
    requires Reaches(PR, START, moves, h) && Reviewed(h, Some(14 * DAY), None, None) && h != []
    requires h[|h| - 1].at <= 21 * DAY
    ensures Reaches(PR, START, moves', h + [CLOSING]) && Reviewed(h + [CLOSING], Some(14 * DAY), Some(21 * DAY), None)
  {
    DecidesClose(h);
    moves' := OneMore(moves, h, 21 * DAY, Some(14 * DAY), None, None, Step(ClosePr, Some(CLOSING.body)));
    CommentAdded(h, Some(14 * DAY), None, CLOSING, BotComment(CloseNotice(ChangesRequested)));
  }

  lemma {:induction false} AuthorReplies(moves: seq<Move>, h: History) returns (moves': seq<Move>)
    requires Reaches(PR, START, moves, h) && Reviewed(h, Some(14 * DAY), Some(21 * DAY), None) && h != []
    requires h[|h| - 1].at <= 22 * DAY
    ensures Reaches(PR, START, moves', h + [REPLY])
    ensures Reviewed(h + [REPLY], Some(14 * DAY), Some(21 * DAY), Some(22 * DAY))
  {
    ReachableIsSound(PR, START, moves, h);
    OrderedGrows(h, REPLY);
    Extends(START, moves, h, Outside(REPLY));
    CommentAdded(h, Some(14 * DAY), Some(21 * DAY), REPLY, AuthorActivity(PR.author));
    moves' := moves + [Outside(REPLY)];
  }

  lemma {:induction false} ClosureFollows(moves: seq<Move>, h: History) returns (moves': seq<Move>)
    requires Reaches(PR, START, moves, h) && Reviewed(h, Some(14 * DAY), Some(21 * DAY), Some(22 * DAY)) && h != []
    requires h[|h| - 1].at <= 23 * DAY
    ensures Reaches(PR, START, moves', h + [CLOSED])
  {
    Resumes(h, 23 * DAY, Some(14 * DAY), 21 * DAY, Some(22 * DAY));
    moves' := OneMore(moves, h, 23 * DAY, Some(14 * DAY), Some(21 * DAY), Some(22 * DAY), RESUME_CLOSE);
  }

  const CLOSED: Event := Closed(23 * DAY, Some(ChangesRequested))

  const LIFE: History := REVIEWED + [PING] + [CLOSING] + [REPLY] + [CLOSED]

  lemma {:induction false} ReplyIsNewer()
    ensures |LIFE| == 7 && IsNotice(LIFE[3]) && NewerThanNotices(LIFE, 6, 5)
    ensures Matches(AuthorActivity(PR.author), LIFE[5]) && IsClosedBy(LIFE[6], ChangesRequested)
    ensures LIFE[5].at < LIFE[6].at
  {
    assert !LIFE[0].Comment? && !LIFE[1].Comment? && !LIFE[2].Comment?;
    assert LIFE[3] == PING && LIFE[4] == CLOSING && LIFE[5] == REPLY && LIFE[6] == CLOSED;
    forall x | 0 <= x < 6 && IsNotice(LIFE[x]) ensures x == 3 {
      assert x == 0 || x == 1 || x == 2 || x == 3 || x == 4 || x == 5;
    }
  }

  lemma {:induction false} LifeIsReached() returns (moves: seq<Move>)
    ensures Reaches(PR, START, moves, LIFE)
  {
    ReviewedState();
    moves := ReachReviewed();
    moves := PingIsSent(moves, REVIEWED);
    moves := ClosureIsAnnounced(moves, REVIEWED + [PING]);
    moves := AuthorReplies(moves, REVIEWED + [PING] + [CLOSING]);
    moves := ClosureFollows(moves, REVIEWED + [PING] + [CLOSING] + [REPLY]);
  }

  /** The author's reply, newer than every notice, does not stop the closure that an earlier run announced. */
  lemma {:induction false} ClosedAfterReply() returns (moves: seq<Move>, m: nat, k: nat)
    ensures Reaches(PR, START, moves, LIFE) && m < k < |LIFE| && IsClosedBy(LIFE[k], ChangesRequested)
    ensures Matches(AuthorActivity(PR.author), LIFE[m]) && NewerThanNotices(LIFE, k, m) && LIFE[m].at < LIFE[k].at
    ensures exists x :: 0 <= x < m && IsNotice(LIFE[x])
  {
    ReplyIsNewer();
    moves := LifeIsReached();
    m, k := 5, 6;
  }
}
