/**
 The other half of notice-then-close: a pull request that was pinged and that nobody touches is closed by the first
 complete run after the notice period.
 */
module PrCleanupProgress {
  import opened Options
  import opened PullRequests
  import opened PrCleanup
  import opened PrCleanupClock
  import opened PrCleanupRuns
  import opened PrCleanupSafety
  import opened PrCleanupDecisions

  predicate Pings(c: Cleanup, step: Step) {
    step.comment.Some? && Ping(c) in step.comment.value.markers
  }

  // ----- one comment -----

  lemma {:induction false} NoAckWithoutPing(pr: PullRequest, h: History, since: int)
    requires Sound(pr, h) && Clock(ChangesRequested, pr, h) == Some(since)
    requires BotCommentedAt(h, Ping(ChangesRequested), since).None?
    ensures BotCommentedAt(h, Ack, since).None?
  {
    if BotCommentedAt(h, Ack, since).Some? {
      assert h[..|h|] == h;
      var a, now := CountedNotice(pr, h, |h|, Ack, since);
      AckDecision(pr, h[..a], h[a], now);
      var p := LatestAfterAt(h[..a], BotComment(Ping(ChangesRequested)), since);
      LatestCovers(h, BotComment(Ping(ChangesRequested)), p);
    }
  }

  lemma {:induction false} TakesPing(c: Cleanup, pr: PullRequest, h: History, e: Event)
    requires pr.author != Some(COMMUNITY_BOT) && IsOwnComment(e, Ping(c))
    requires Latest(h, BotComment(Ping(c))).None? || Latest(h, BotComment(Ping(c))).value <= e.at
    ensures Latest(h + [e], BotComment(Ping(c))) == Some(e.at)
    ensures Latest(h + [e], BotComment(CloseNotice(c))) == Latest(h, BotComment(CloseNotice(c)))
    ensures Latest(h + [e], BotComment(Ack)) == Latest(h, BotComment(Ack))
    ensures Latest(h + [e], AuthorActivity(pr.author)) == Latest(h, AuthorActivity(pr.author))
  {
    assert (h + [e])[..|h|] == h;
    LatestIgnores(h, e, BotComment(CloseNotice(c)));
    LatestIgnores(h, e, BotComment(Ack));
    LatestIgnores(h, e, AuthorActivity(pr.author));
  }

  lemma {:induction false} StillQualifies(c: Cleanup, pr: PullRequest, h: History, now: int, later: int)
    requires HasCommit(h) && Qualifies(c, pr, h, now) && now <= later
    ensures Qualifies(c, pr, h, later)
  {
  }

  lemma {:induction false} DaysPass(a: int, d: int, b: int)
    requires a + d <= b
    ensures ClosingDateReached(a, d, b)
  {
    DaysAdvance(a + d, b);
  }

  /** What a ping leaves behind: the cleanup's clock and conditions as they were, and a ping that counts. */
  lemma {:induction false} AfterPing(c: Cleanup, pr: PullRequest, h: History, e: Event, now: int, since: int)
    requires Sound(pr, h) && IsOwnComment(e, Ping(c)) && now <= e.at && Ordered(h + [e])
    requires Action(c, pr, h, now).Some? && Action(c, pr, h, now).value.comment == Some(e.body)
    requires Clock(c, pr, h) == Some(since)
    ensures HasCommit(h + [e]) && Clock(c, pr, h + [e]) == Some(since) && Qualifies(c, pr, h + [e], now)
    ensures since + PingAfter(c) <= now && BotCommentedAt(h + [e], Ping(c), since) == Some(e.at)
    ensures BotCommentedAt(h + [e], CloseNotice(c), since).None?
    ensures NoticePresent(h + [e]) == NoticePresent(h)
    ensures AuthorCommentedAt(pr, h + [e], since) == AuthorCommentedAt(pr, h, since)
    ensures c == ChangesRequested ==> BotCommentedAt(h + [e], Ack, since).None?
  {
    PingedNow(c, pr, h, now, since);
    if Latest(h, BotComment(Ping(c))).Some? {
      assert Latest(h, BotComment(Ping(c))).value <= since;
    }
    TakesPing(c, pr, h, e);
    ClockIgnoresComments(c, pr, h, e);
    QualifiesIgnoresComments(c, pr, h, e, now);
    CommentsLeaveState(pr, h, e);
    if c == ChangesRequested {
      NoAckWithoutPing(pr, h, since);
    }
  }

  lemma {:induction false} PingedNow(c: Cleanup, pr: PullRequest, h: History, now: int, since: int)
    requires HasCommit(h) && Action(c, pr, h, now).Some? && Pings(c, Action(c, pr, h, now).value)
    requires Clock(c, pr, h) == Some(since)
    ensures Qualifies(c, pr, h, now) && since + PingAfter(c) <= now
    ensures BotCommentedAt(h, Ping(c), since).None? && BotCommentedAt(h, CloseNotice(c), since).None?
    ensures c == Cla ==> AuthorCommentedAt(pr, h, since).None?
    ensures c == NoSelfReview ==> NoticePresent(h)
    ensures c == ChangesRequested ==> OrElse(AuthorCommentedAt(pr, h, since), since) + PingAfter(c) <= now
  {
  }

  /** Once pinged, and the notice period over, the cleanup closes. */
  lemma {:induction false} PingedThenCloses(c: Cleanup, pr: PullRequest, h: History, e: Event, now: int, later: int)
    requires Sound(pr, h) && IsOwnComment(e, Ping(c)) && now <= e.at && Ordered(h + [e])
    requires Action(c, pr, h, now).Some? && Action(c, pr, h, now).value.comment == Some(e.body)
    requires e.at + CloseAfterPing(c) <= later
    ensures HasCommit(h + [e]) && Action(c, pr, h + [e], later).Some?
    ensures Action(c, pr, h + [e], later).value.kind == ClosePr
  {
    var since := Clock(c, pr, h).value;
    PingedNow(c, pr, h, now, since);
    AfterPing(c, pr, h, e, now, since);
    StillQualifies(c, pr, h + [e], now, later);
    DaysPass(e.at, CloseAfterPing(c), later);
  }

  // ----- the comments of a run -----

  ghost predicate SpeaksForOther(c: Cleanup, e: Event) {
    exists m :: IsOwnComment(e, m) && CleanupOf(m) != c
  }

  lemma {:induction false} SoundPrefix(pr: PullRequest, h: History, k: nat)
    requires Sound(pr, h) && k <= |h| && HasCommit(h[..k])
    ensures Sound(pr, h[..k])
  {
    PrefixOrdered(h, k);
    forall j | 0 <= j < k ensures SoundAt(pr, h[..k], j) {
      assert SoundAt(pr, h, j) && h[..k][..j] == h[..j];
    }
  }

  lemma {:induction false} OthersIgnored(c: Cleanup, pr: PullRequest, h: History, events: seq<Event>, now: int)
    requires HasCommit(h) && pr.author != Some(COMMUNITY_BOT)
    requires forall i :: 0 <= i < |events| ==> SpeaksForOther(c, events[i])
    ensures HasCommit(h + events) && Action(c, pr, h + events, now) == Action(c, pr, h, now)
  {
    if events == [] {
      assert h + events == h;
    } else {
      var front, e := events[..|events| - 1], events[|events| - 1];
      OthersIgnored(c, pr, h, front, now);
      var m :| IsOwnComment(e, m) && CleanupOf(m) != c;
      ActionIgnoresOthers(c, pr, h + front, e, m, now);
      assert h + events == h + front + [e];
    }
  }

  /** The comments of a run, among them the ping at `p`, lead to the closure. */
  lemma {:induction false} CommentsLeadToClose(
    c: Cleanup, pr: PullRequest, h: History, events: seq<Event>, p: nat, now: int, later: int)
    requires HasCommit(h) && Sound(pr, h + events) && p < |events|
    requires IsOwnComment(events[p], Ping(c)) && now <= events[p].at && events[p].at + CloseAfterPing(c) <= later
    requires Action(c, pr, h, now).Some? && Action(c, pr, h, now).value.comment == Some(events[p].body)
    requires forall i :: 0 <= i < |events| && i != p ==> SpeaksForOther(c, events[i])
    ensures HasCommit(h + events) && Action(c, pr, h + events, later).Some?
    ensures Action(c, pr, h + events, later).value.kind == ClosePr
  {
    var all, front, e := h + events, events[..|events| - 1], events[|events| - 1];
    assert all[..|all| - 1] == h + front && all == h + front + [e];
    if p == |events| - 1 {
      OthersIgnored(c, pr, h, front, now);
      SoundPrefix(pr, all, |all| - 1);
      PingedThenCloses(c, pr, h + front, e, now, later);
    } else {
      CommitsStay(h, front);
      SoundPrefix(pr, all, |all| - 1);
      CommentsLeadToClose(c, pr, h, front, p, now, later);
      var m :| IsOwnComment(e, m) && CleanupOf(m) != c;
      ActionIgnoresOthers(c, pr, h + front, e, m, later);
    }
  }

  lemma {:induction false} CommitsStay(h: History, events: seq<Event>)
    requires HasCommit(h)
    ensures HasCommit(h + events)
  {
    if events == [] {
      assert h + events == h;
    } else {
      CommitsStay(h, events[..|events| - 1]);
      assert (h + events)[..|h + events| - 1] == h + events[..|events| - 1];
    }
  }

  // ----- the requests of a run -----

  /** A round in which some cleanup closes ends with the close request. */
  lemma {:induction false} CloseComesLast(k: nat, decide: Cleanup -> Option<Step>, c: Cleanup)
    requires k <= Rank(c) && ClosesBy(decide, c)
    ensures var calls := CallsFrom(k, decide);
            calls != [] && calls[|calls| - 1].PatchClosed?
    decreases |CLEANUPS| - k
  {
    RanksAreOrder(k);
    var step := decide(CLEANUPS[k]);
    if ClosesBy(decide, CLEANUPS[k]) {
      assert CallsFrom(k, decide) == CallsOf(CLEANUPS[k], step.value);
    } else {
      CloseComesLast(k + 1, decide, c);
      if step.Some? {
        LastIsLast(CallsOf(CLEANUPS[k], step.value), CallsFrom(k + 1, decide));
      }
    }
  }

  lemma {:induction false} LastIsLast(a: seq<Call>, b: seq<Call>)
    requires b != []
    ensures (a + b)[|a + b| - 1] == b[|b| - 1]
  {
  }

  /** A round in which none closes only comments. */
  lemma {:induction false} OnlyComments(k: nat, decide: Cleanup -> Option<Step>)
    requires k <= |CLEANUPS| && forall c :: !ClosesBy(decide, c)
    ensures forall i :: 0 <= i < |CallsFrom(k, decide)| ==> CallsFrom(k, decide)[i].PostComment?
    decreases |CLEANUPS| - k
  {
    if k < |CLEANUPS| {
      OnlyComments(k + 1, decide);
      assert !ClosesBy(decide, CLEANUPS[k]);
    }
  }

  /** A complete run in which some cleanup closes leaves the pull request closed. */
  lemma {:induction false} CompleteRunCloses(c: Cleanup, pr: PullRequest, h: History, now: int, times: seq<int>)
    requires HasCommit(h) && IsEligible(h) && ClosesBy(Decisions(pr, h, now), c)
    requires |times| == |Calls(pr, h, now)|
    ensures !IsOpen(Apply(pr, h, BotRun(now, times)))
  {
    CloseComesLast(0, Decisions(pr, h, now), c);
    var calls := Calls(pr, h, now);
    RecordedExactly(calls, times, |times| - 1);
    var h' := Apply(pr, h, BotRun(now, times));
    assert h'[|h'| - 1] == RecordedAll(calls, times)[|times| - 1];
  }

  /** The comments of a complete run that closes nothing: the ping of `c` and the comments of other cleanups. */
  lemma {:induction false} FindPing(c: Cleanup, pr: PullRequest, h: History, now: int, times: seq<int>, body: Body)
    returns (p: nat)
    requires HasCommit(h) && Ordered(h) && IsEligible(h) && |times| == |Calls(pr, h, now)|
    requires forall d :: !ClosesBy(Decisions(pr, h, now), d)
    requires Action(c, pr, h, now).Some? && Action(c, pr, h, now).value.comment == Some(body)
    requires body.markers == {Ping(c)}
    ensures var events := RecordedAll(Calls(pr, h, now), times);
            && p < |events| && events[p] == Comment(times[p], Some(COMMUNITY_BOT), body)
            && forall i :: 0 <= i < |events| && i != p ==> SpeaksForOther(c, events[i])
  {
    var decide, calls := Decisions(pr, h, now), Calls(pr, h, now);
    OnlyComments(0, decide);
    assert FirstToClose(0, decide, c);
    RoundExactly(0, decide, PostComment(body));
    p :| 0 <= p < |calls| && calls[p] == PostComment(body);
    RecordedExactly(calls, times, p);
    var places := SendsInOrder(pr, h, now);
    forall i | 0 <= i < |calls| && i != p ensures SpeaksForOther(c, RecordedAll(calls, times)[i]) {
      RecordedExactly(calls, times, i);
      OtherPlace(c, calls[i], calls[p], places[i], places[p], times[i]);
    }
  }

  /** A comment in another place than the ping speaks for another cleanup. */
  lemma {:induction false} OtherPlace(c: Cleanup, call: Call, ping: Call, place: nat, pingPlace: nat, at: int)
    requires call.PostComment? && ping.PostComment? && ping.body.markers == {Ping(c)}
    requires HasPlace(call, place) && HasPlace(ping, pingPlace) && place != pingPlace
    ensures SpeaksForOther(c, Comment(at, Some(COMMUNITY_BOT), call.body))
  {
    var m :| call.body.markers == {m} && place == 2 * Rank(CleanupOf(m));
    assert IsOwnComment(Comment(at, Some(COMMUNITY_BOT), call.body), m);
  }

  lemma {:induction false} CommentsKeepEligible(pr: PullRequest, h: History, events: seq<Event>)
    requires IsEligible(h) && forall i :: 0 <= i < |events| ==> events[i].Comment?
    ensures IsEligible(h + events)
  {
    if events == [] {
      assert h + events == h;
    } else {
      var front, e := events[..|events| - 1], events[|events| - 1];
      CommentsKeepEligible(pr, h, front);
      CommentsLeaveState(pr, h + front, e);
      assert h + events == h + front + [e];
    }
  }

  lemma {:induction false} ClosedStaysClosed(pr: PullRequest, h: History, now: int, times: seq<int>)
    requires HasCommit(h) && !IsOpen(h) && |times| <= |Calls(pr, h, now)|
    ensures !IsOpen(Apply(pr, h, BotRun(now, times)))
  {
    assert Apply(pr, h, BotRun(now, times)) == h;
  }

  /** A reachable pull request for which a ping is due, and that only complete runs touch from then on, is closed after
      the first run that comes no earlier than the notice period after the ping. */
  lemma {:induction false} PingedIsClosed(
    c: Cleanup, pr: PullRequest, start: History, moves: seq<Move>, h: History, now: int, times: seq<int>, h': History,
    later: int, times': seq<int>, step: Step)
    requires Reaches(pr, start, moves, h) && HasCommit(h) && IsEligible(h)
    requires Warrants(c, pr, h, now, step) && Pings(c, step)
    requires Enabled(pr, h, BotRun(now, times)) && |times| == |Calls(pr, h, now)|
    requires h' == Apply(pr, h, BotRun(now, times)) && HasCommit(h')
    requires forall i :: 0 <= i < |times| ==> times[i] + CloseAfterPing(c) <= later
    requires |times'| == |Calls(pr, h', later)|
    ensures !IsOpen(Apply(pr, h', BotRun(later, times')))
  {
    ReachableIsSound(pr, start, moves, h);
    DecidesExactly(c, pr, h, now, step);
    if d :| ClosesBy(Decisions(pr, h, now), d) {
      CompleteRunCloses(d, pr, h, now, times);
      ClosedStaysClosed(pr, h', later, times');
    } else {
      PingLeadsToClose(c, pr, h, now, times, step.comment.value, later);
      CompleteRunCloses(c, pr, h', later, times');
    }
  }

  lemma {:induction false} PingLeadsToClose(
    c: Cleanup, pr: PullRequest, h: History, now: int, times: seq<int>, body: Body, later: int)
    requires Sound(pr, h) && IsEligible(h) && forall d :: !ClosesBy(Decisions(pr, h, now), d)
    requires Action(c, pr, h, now).Some? && Action(c, pr, h, now).value.comment == Some(body) && Ping(c) in body.markers
    requires Enabled(pr, h, BotRun(now, times)) && |times| == |Calls(pr, h, now)|
    requires forall i :: 0 <= i < |times| ==> times[i] + CloseAfterPing(c) <= later
    ensures var h' := Apply(pr, h, BotRun(now, times));
            HasCommit(h') && IsEligible(h') && ClosesBy(Decisions(pr, h', later), c)
  {
    var only := SaysOneMarker(c, pr, h, now);
    var events := RecordedAll(Calls(pr, h, now), times);
    var p := FindPing(c, pr, h, now, times, body);
    MoveKeepsSound(pr, h, BotRun(now, times));
    CommentsLeadToClose(c, pr, h, events, p, now, later);
    CommentsKeepEligible(pr, h, events);
  }
}
