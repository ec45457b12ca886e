/**
 The four notice-then-close policies of `script/github-pr-cleanup.py`, the run that applies
 them to one pull request, and the moves that make up a pull request's life.
 */
module PrCleanup {
  import opened Options
  import opened PullRequests

  const CLA_RETRY_AFTER := 7 * DAY
  const CLA_CLOSE_AFTER_RETRY := 1 * DAY
  const DRAFT_PING_AFTER := 21 * DAY
  const DRAFT_CLOSE_AFTER_PING := 7 * DAY
  const CHANGES_REQUESTED_PING_AFTER := 14 * DAY
  const CHANGES_REQUESTED_CLOSE_AFTER_PING := 7 * DAY
  const CHANGES_REQUESTED_CLOSE_AFTER_ACK := 14 * DAY
  const NO_SELF_REVIEW_PING_AFTER := 1 * DAY
  const NO_SELF_REVIEW_CLOSE_AFTER_PING := 3 * DAY

  const CLA_SIGNED_LABEL := "cla-signed"
  const NEVER_STALE_LABEL := "never stale"
  const NO_SELF_REVIEW_LABEL := "no self-review"

  datatype StepKind = RetryCla | SendPing | Acknowledge | ClosePr
  datatype Step = Step(kind: StepKind, comment: Option<Body>)

  const RESUME_CLOSE := Step(ClosePr, None)

  function Plain(m: Marker): Body {
    Body({m}, m == Ping(Cla), None)
  }

  /** `with_closing_date`: the comment names the day `closesAfter` from now. */
  function Dated(m: Marker, closesAfter: int, now: int): Body {
    Body({m}, false, Some(Day(now + closesAfter)))
  }

  predicate ClosingDateReached(noticeAt: int, closesAfter: int, now: int) {
    Day(now) >= Day(noticeAt + closesAfter)
  }

  function ClockStart(h: History, startedAt: int): int {
    LatestOr(h, Reopens, startedAt)
  }

  function BotCommentedAt(h: History, m: Marker, since: int): Option<int> {
    LatestAfter(h, BotComment(m), since)
  }

  function AuthorCommentedAt(pr: PullRequest, h: History, since: int): Option<int> {
    LatestAfter(h, AuthorActivity(pr.author), since)
  }

  function Max(a: int, b: int): int {
    if a < b then b else a
  }

  function OrElse(o: Option<int>, default: int): int {
    if o.Some? then o.value else default
  }

  /** A pull request always has a commit; the script indexes the last one unchecked. */
  predicate HasCommit(h: History) {
    LastListed(h, Commits).Some?
  }

  function ClaAction(pr: PullRequest, h: History, now: int): Option<Step> {
    var labels := Labels(h);
    if !IsCommunity(labels) || CLA_SIGNED_LABEL in labels || now - pr.createdAt < CLA_RETRY_AFTER then None
    else
      var since := ClockStart(h, pr.createdAt);
      if BotCommentedAt(h, CloseNotice(Cla), since).Some? then Some(RESUME_CLOSE)
      else if now - since < CLA_RETRY_AFTER then None
      else if AuthorCommentedAt(pr, h, since).Some? then None
      else
        var retriedAt := BotCommentedAt(h, Ping(Cla), since);
        if retriedAt.None? then Some(Step(RetryCla, Some(Plain(Ping(Cla)))))
        else if now - retriedAt.value >= CLA_CLOSE_AFTER_RETRY then
          Some(Step(ClosePr, Some(Plain(CloseNotice(Cla)))))
        else None
  }

  function DraftActiveAt(pr: PullRequest, h: History): int
    requires HasCommit(h)
  {
    Max(OrElse(LastListed(h, Conversions), pr.createdAt), LastListed(h, Commits).value)
  }

  function DraftAction(pr: PullRequest, h: History, now: int): Option<Step>
    requires HasCommit(h)
  {
    if !IsDraft(pr, h) then None
    else
      var activeAt := DraftActiveAt(pr, h);
      if now - activeAt < DRAFT_PING_AFTER then None
      else
        var since := ClockStart(h, activeAt);
        if BotCommentedAt(h, CloseNotice(StaleDraft), since).Some? then Some(RESUME_CLOSE)
        else if now - since < DRAFT_PING_AFTER then None
        else
          var pingedAt := BotCommentedAt(h, Ping(StaleDraft), since);
          if pingedAt.None? then Some(Step(SendPing, Some(Plain(Ping(StaleDraft)))))
          else if now - pingedAt.value >= DRAFT_CLOSE_AFTER_PING then
            Some(Step(ClosePr, Some(Plain(CloseNotice(StaleDraft)))))
          else None
  }

  /** Whether the changes-requested cleanup looks at the pull request's comments at all: a standing,
      two-week-old change request that neither a re-request nor an author push has answered. */
  predicate AwaitsAuthor(pr: PullRequest, h: History, now: int) {
    var requestedAt := StaffChangeRequestAt(pr, h);
    && !IsDraft(pr, h) && IsCommunity(Labels(h))
    && requestedAt.Some? && now - requestedAt.value >= CHANGES_REQUESTED_PING_AFTER
    && LatestAfter(h, ReviewRequests, requestedAt.value).None?
    && !AuthorPushedSince(pr, h, requestedAt.value)
  }

  /** The time of the latest notice in the epoch and how long after it the pull request may be closed. */
  function LatestNotice(acknowledgedAt: Option<int>, pingedAt: int): (int, int) {
    if acknowledgedAt.Some? then (acknowledgedAt.value, CHANGES_REQUESTED_CLOSE_AFTER_ACK)
    else (pingedAt, CHANGES_REQUESTED_CLOSE_AFTER_PING)
  }

  /** The changes-requested decision, given the latest comments since the clock started. */
  function ChangesStep(
    now: int, since: int, closingAt: Option<int>, commentedAt: Option<int>, pingedAt: Option<int>,
    acknowledgedAt: Option<int>): Option<Step> {
    if closingAt.Some? then Some(RESUME_CLOSE)
    else if pingedAt.None? then
      if now - OrElse(commentedAt, since) < CHANGES_REQUESTED_PING_AFTER then None
      else
        Some(Step(SendPing, Some(Dated(Ping(ChangesRequested), CHANGES_REQUESTED_CLOSE_AFTER_PING, now))))
    else
      var (noticeAt, closesAfter) := LatestNotice(acknowledgedAt, pingedAt.value);
      if commentedAt.Some? && commentedAt.value > noticeAt then
        Some(Step(Acknowledge, Some(Dated(Ack, CHANGES_REQUESTED_CLOSE_AFTER_ACK, now))))
      else if ClosingDateReached(noticeAt, closesAfter, now) then
        Some(Step(ClosePr, Some(Plain(CloseNotice(ChangesRequested)))))
      else None
  }

  function ChangesRequestedAction(pr: PullRequest, h: History, now: int): Option<Step> {
    if !AwaitsAuthor(pr, h, now) then None
    else
      var since := ClockStart(h, StaffChangeRequestAt(pr, h).value);
      ChangesStep(now, since, BotCommentedAt(h, CloseNotice(ChangesRequested), since), AuthorCommentedAt(pr, h, since),
                  BotCommentedAt(h, Ping(ChangesRequested), since), BotCommentedAt(h, Ack, since))
  }

  function SelfReviewClock(pr: PullRequest, h: History): int {
    var labeledAt := OrElse(Latest(h, LabelEvents(NO_SELF_REVIEW_LABEL)), pr.createdAt);
    ClockStart(h, LatestOr(h, ReadyEvents, labeledAt))
  }

  function NoSelfReviewAction(pr: PullRequest, h: History, now: int): Option<Step> {
    var labels := Labels(h);
    if IsDraft(pr, h) || !(NO_SELF_REVIEW_LABEL in labels && IsCommunity(labels)) then None
    else
      var since := SelfReviewClock(pr, h);
      if BotCommentedAt(h, CloseNotice(NoSelfReview), since).Some? then Some(RESUME_CLOSE)
      else
        var pingedAt := BotCommentedAt(h, Ping(NoSelfReview), since);
        if pingedAt.None? then
          if NoticePresent(h) && now - since >= NO_SELF_REVIEW_PING_AFTER then
            Some(Step(SendPing, Some(Dated(Ping(NoSelfReview), NO_SELF_REVIEW_CLOSE_AFTER_PING, now))))
          else None
        else if !ClosingDateReached(pingedAt.value, NO_SELF_REVIEW_CLOSE_AFTER_PING, now) then None
        else if NoticePresent(h) || AuthorCommentedAt(pr, h, pingedAt.value).None? then
          Some(Step(ClosePr, Some(Plain(CloseNotice(NoSelfReview)))))
        else None
  }

  function Action(c: Cleanup, pr: PullRequest, h: History, now: int): Option<Step>
    requires HasCommit(h)
  {
    match c
    case Cla => ClaAction(pr, h, now)
    case StaleDraft => DraftAction(pr, h, now)
    case ChangesRequested => ChangesRequestedAction(pr, h, now)
    case NoSelfReview => NoSelfReviewAction(pr, h, now)
  }

  /** Where a cleanup's clock stands: its notices count only if they come after this. */
  function Clock(c: Cleanup, pr: PullRequest, h: History): Option<int>
    requires HasCommit(h)
  {
    match c
    case Cla => Some(ClockStart(h, pr.createdAt))
    case StaleDraft => Some(ClockStart(h, DraftActiveAt(pr, h)))
    case ChangesRequested =>
      var requestedAt := StaffChangeRequestAt(pr, h);
      if requestedAt.None? then None else Some(ClockStart(h, requestedAt.value))
    case NoSelfReview => Some(SelfReviewClock(pr, h))
  }

  // ----- a run over one pull request -----

  const CLEANUPS: seq<Cleanup> := [Cla, StaleDraft, ChangesRequested, NoSelfReview]

  datatype Call = PostComment(body: Body) | PatchClosed(cleanup: Cleanup)

  /** `take_step`: the requests one step sends, in order. */
  function CallsOf(c: Cleanup, step: Step): seq<Call> {
    (if step.comment.Some? then [PostComment(step.comment.value)] else []) +
    (if step.kind == ClosePr then [PatchClosed(c)] else [])
  }

  /** What each cleanup decides about one snapshot. */
  function Decisions(pr: PullRequest, snapshot: History, now: int): Cleanup -> Option<Step>
    requires HasCommit(snapshot)
  {
    (c: Cleanup) => Action(c, pr, snapshot, now)
  }

  /** The requests of the cleanups from position `k` on; a close ends the round. */
  function CallsFrom(k: nat, decide: Cleanup -> Option<Step>): seq<Call>
    requires k <= |CLEANUPS|
    decreases |CLEANUPS| - k, 1
  {
    if k == |CLEANUPS| then []
    else
      var step := decide(CLEANUPS[k]);
      if step.None? then CallsFrom(k + 1, decide)
      else CallsOf(CLEANUPS[k], step.value) + CallsAfter(k, step.value, decide)
  }

  function CallsAfter(k: nat, step: Step, decide: Cleanup -> Option<Step>): seq<Call>
    requires k < |CLEANUPS|
    decreases |CLEANUPS| - k, 0
  {
    if step.kind == ClosePr then [] else CallsFrom(k + 1, decide)
  }

  /** The requests a run sends for one pull request, if nothing fails. */
  function Calls(pr: PullRequest, snapshot: History, now: int): seq<Call>
    requires HasCommit(snapshot)
  {
    if !IsOpen(snapshot) || NEVER_STALE_LABEL in Labels(snapshot) then []
    else CallsFrom(0, Decisions(pr, snapshot, now))
  }

  function Recorded(call: Call, at: int): Event {
    match call
    case PostComment(body) => Comment(at, Some(COMMUNITY_BOT), body)
    case PatchClosed(c) => Closed(at, Some(c))
  }

  /** The events that the first `|times|` calls leave behind. */
  function RecordedAll(calls: seq<Call>, times: seq<int>): (events: seq<Event>)
    requires |times| <= |calls|
    ensures |events| == |times|
  {
    if times == [] then [] else [Recorded(calls[0], times[0])] + RecordedAll(calls[1..], times[1..])
  }

  /** The remote pull request as one run changes it. `times` are the server times of the requests that
      get through; the run dies at the next one. */
  class RemotePullRequest {
    const pr: PullRequest
    var history: History

    constructor (pr: PullRequest, history: History)
      ensures this.pr == pr && this.history == history
    {
      this.pr := pr;
      this.history := history;
    }

    /** `take_step`, of which the first requests get through and the rest, if any, are lost with the run. */
    method TakeStep(c: Cleanup, step: Step, times: seq<int>) returns (rest: seq<int>)
      modifies this
      ensures var batch := CallsOf(c, step);
              var n := if |times| < |batch| then |times| else |batch|;
              rest == times[n..] && history == old(history) + RecordedAll(batch, times[..n])
    {
      rest := times;
      if step.comment.Some? && rest != [] {
        history := history + [Recorded(PostComment(step.comment.value), rest[0])];
        rest := rest[1..];
      }
      if step.kind == ClosePr && rest != [] {
        history := history + [Recorded(PatchClosed(c), rest[0])];
        rest := rest[1..];
      }
    }

    /** The loop over the cleanups. */
    method Round(decide: Cleanup -> Option<Step>, times: seq<int>)
      requires |times| <= |CallsFrom(0, decide)|
      modifies this
      ensures history == old(history) + RecordedAll(CallsFrom(0, decide), times)
    {
      var rest := times;
      ghost var goal := history + RecordedAll(CallsFrom(0, decide), times);
      for k := 0 to |CLEANUPS|
        invariant |rest| <= |CallsFrom(k, decide)|
        invariant history + RecordedAll(CallsFrom(k, decide), rest) == goal
      {
        var step := decide(CLEANUPS[k]);
        if step.Some? {
          RoundStep(k, decide, step.value, rest, history, goal);
          rest := TakeStep(CLEANUPS[k], step.value, rest);
          if step.value.kind == ClosePr {
            return;
          }
        }
      }
    }

    /** One run, as far as it gets. All cleanups decide on the snapshot taken at its start. */
    method Sweep(now: int, times: seq<int>)
      requires HasCommit(history)
      requires |times| <= |Calls(pr, history, now)|
      modifies this
      ensures history == old(history) + RecordedAll(Calls(pr, old(history), now), times)
    {
      if IsOpen(history) && NEVER_STALE_LABEL !in Labels(history) {
        Round(Decisions(pr, history, now), times);
      }
    }
  }

  lemma {:induction false} RoundStep(
    k: nat, decide: Cleanup -> Option<Step>, step: Step, rest: seq<int>, before: History, goal: History)
    requires k < |CLEANUPS| && decide(CLEANUPS[k]) == Some(step)
    requires |rest| <= |CallsFrom(k, decide)| && before + RecordedAll(CallsFrom(k, decide), rest) == goal
    ensures var batch, after := CallsOf(CLEANUPS[k], step), CallsAfter(k, step, decide);
            var n := if |rest| < |batch| then |rest| else |batch|;
            && |rest[n..]| <= |after|
            && before + RecordedAll(batch, rest[..n]) + RecordedAll(after, rest[n..]) == goal
  {
    var batch, after := CallsOf(CLEANUPS[k], step), CallsAfter(k, step, decide);
    assert CallsFrom(k, decide) == batch + after;
    RecordedSplit(batch, after, rest);
  }

  /** Recording a batch of calls and then the calls after it is recording them all. */
  lemma {:induction false} RecordedSplit(batch: seq<Call>, after: seq<Call>, times: seq<int>)
    requires |times| <= |batch + after|
    ensures var n := if |times| < |batch| then |times| else |batch|;
            RecordedAll(batch + after, times) == RecordedAll(batch, times[..n]) + RecordedAll(after, times[n..])
  {
    if times == [] {
    } else if batch == [] {
      assert batch + after == after && times[0..] == times;
    } else {
      var n := if |times| < |batch| then |times| else |batch|;
      assert (batch + after)[1..] == batch[1..] + after;
      assert times[..n][1..] == times[1..][..n - 1] && times[1..][n - 1..] == times[n..];
      RecordedSplit(batch[1..], after, times[1..]);
    }
  }

  // ----- whole lives of a pull request -----

  /** Anything the bot does not do itself, or one bot run of which `|times|` requests get through. */
  datatype Move = Outside(event: Event) | BotRun(now: int, times: seq<int>)

  /** Comments that carry one of the bot's markers and closures by a cleanup are the bot's alone. */
  predicate IsBotEvent(e: Event) {
    (e.Comment? && e.login == Some(COMMUNITY_BOT) && e.body.markers != {}) || (e.Closed? && e.cause.Some?)
  }

  function Apply(pr: PullRequest, h: History, m: Move): History
    requires HasCommit(h)
    requires m.BotRun? ==> |m.times| <= |Calls(pr, h, m.now)|
  {
    match m
    case Outside(e) => h + [e]
    case BotRun(now, times) => h + RecordedAll(Calls(pr, h, now), times)
  }

  /** Time only moves forward, and the server stamps a request no earlier than the run's own clock. */
  ghost predicate Enabled(pr: PullRequest, h: History, m: Move)
    requires HasCommit(h)
  {
    match m
    case Outside(e) => !IsBotEvent(e) && Ordered(h + [e])
    case BotRun(now, times) =>
      && |times| <= |Calls(pr, h, now)|
      && (forall i :: 0 <= i < |times| ==> now <= times[i])
      && Ordered(h + RecordedAll(Calls(pr, h, now), times))
  }

  /** A pull request opens with at least one commit, made before anything else happens to it. */
  ghost predicate Opening(pr: PullRequest, h: History) {
    pr.author != Some(COMMUNITY_BOT) && h != [] && Ordered(h) && forall i :: 0 <= i < |h| ==> h[i].Commit?
  }

  /** The histories that some sequence of moves leads to. */
  ghost predicate Reaches(pr: PullRequest, start: History, moves: seq<Move>, h: History)
    decreases |moves|
  {
    if moves == [] then Opening(pr, start) && h == start
    else
      var last := moves[|moves| - 1];
      exists before: History ::
        Reaches(pr, start, moves[..|moves| - 1], before) && HasCommit(before) && Enabled(pr, before, last)
        && h == Apply(pr, before, last)
  }
}
