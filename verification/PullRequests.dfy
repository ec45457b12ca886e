/**
 The pull requests that `script/github-pr-cleanup.py` looks at: a time-ordered list
 of events, and the questions the cleanups ask of it.

 Everything the script reads (labels, draft state, standing reviews, comments) is
 derived from that one list, so what a later run sees is fixed by what happened.
 */
module PullRequests {
  import opened Options

  type Login = string

  const COMMUNITY_BOT: Login := "zed-community-bot"

  /** Times are counted in microseconds, the resolution of Python's `datetime`. */
  const DAY: int := 86_400_000_000

  /** `datetime.date()`: the day a moment falls on. */
  function Day(t: int): int {
    t / DAY
  }

  datatype Cleanup = Cla | StaleDraft | ChangesRequested | NoSelfReview

  /** The texts by which the bot recognises its own earlier comments. `Ping(Cla)` is the re-check comment. */
  datatype Marker = Ping(cleanup: Cleanup) | Ack | CloseNotice(cleanup: Cleanup)

  function CleanupOf(m: Marker): Cleanup {
    match m
    case Ping(c) => c
    case Ack => ChangesRequested
    case CloseNotice(c) => c
  }

  /** What the script can tell about a comment body: the markers in it, whether it is a bare
      `@cla-bot check`, and the closing day it names. */
  datatype Body = Body(markers: set<Marker>, bareClaCheck: bool, promised: Option<int>)

  datatype ReviewState = Approved | RequestsChanges | Dismissed | Commented

  datatype Event =
    | Comment(at: int, login: Option<Login>, body: Body)
    | Commit(at: int, user: Option<Login>, parents: nat, notice: bool)
    | Labeled(at: int, name: string)
    | Unlabeled(at: int, name: string)
    | Reopened(at: int)
    | Closed(at: int, cause: Option<Cleanup>)
    | ConvertedToDraft(at: int)
    | ReadyForReview(at: int)
    | ReviewRequested(at: int)
    | Review(at: int, login: Option<Login>, state: ReviewState)
    | ReviewDismissed(at: int, index: nat)

  /** What does not change over a pull request's life. A deleted account has no login. */
  datatype PullRequest = PullRequest(createdAt: int, author: Option<Login>, openedAsDraft: bool, staff: set<Login>)

  type History = seq<Event>

  ghost predicate Ordered(h: History) {
    forall i, j :: 0 <= i < j < |h| ==> h[i].at <= h[j].at
  }

  /** The kinds of event the script filters for. */
  datatype Query =
    | BotComment(marker: Marker)
    | AuthorActivity(author: Option<Login>)
    | Reopens
    | Conversions
    | Commits
    | ReadyEvents
    | LabelEvents(name: string)
    | ReviewRequests

  predicate Matches(q: Query, e: Event) {
    match q
    case BotComment(m) => e.Comment? && e.login == Some(COMMUNITY_BOT) && m in e.body.markers
    case AuthorActivity(a) =>
      (e.Comment? && e.login == a && !e.body.bareClaCheck) || (e.Review? && e.login == a)
    case Reopens => e.Reopened?
    case Conversions => e.ConvertedToDraft?
    case Commits => e.Commit?
    case ReadyEvents => e.ReadyForReview?
    case LabelEvents(n) => e.Labeled? && e.name == n
    case ReviewRequests => e.ReviewRequested?
  }

  /** The greatest time of a matching event. */
  function Latest(h: History, q: Query): (r: Option<int>) {
    if h == [] then None
    else
      var e := h[|h| - 1];
      var rest := Latest(h[..|h| - 1], q);
      if Matches(q, e) && (rest.None? || rest.value < e.at) then Some(e.at) else rest
  }

  /** `max((time for time in times if time > since), default=None)`. */
  function LatestAfter(h: History, q: Query, since: int): Option<int> {
    var latest := Latest(h, q);
    if latest.Some? && latest.value > since then latest else None
  }

  /** `max([floor, *times])`. */
  function LatestOr(h: History, q: Query, floor: int): int {
    var latest := Latest(h, q);
    if latest.Some? && latest.value > floor then latest.value else floor
  }

  /** `Latest` is the maximum over the matching events, and is absent exactly if there are none. */
  lemma {:induction false} LatestIsMaximum(h: History, q: Query)
    ensures Latest(h, q).None? <==> forall i :: 0 <= i < |h| ==> !Matches(q, h[i])
    ensures Latest(h, q).Some? ==> forall i :: 0 <= i < |h| && Matches(q, h[i]) ==> h[i].at <= Latest(h, q).value
    ensures Latest(h, q).Some? ==> exists i :: 0 <= i < |h| && Matches(q, h[i]) && h[i].at == Latest(h, q).value
  {
    if h != [] {
      var before := h[..|h| - 1];
      LatestIsMaximum(before, q);
      if Latest(before, q).Some? {
        var i :| 0 <= i < |before| && Matches(q, before[i]) && before[i].at == Latest(before, q).value;
        assert Matches(q, h[i]) && h[i].at == Latest(before, q).value;
      }
      assert forall i :: 0 <= i < |h| ==> (i < |before| && h[i] == before[i]) || i == |h| - 1;
    }
  }

  /** The time of the matching event that comes last in the list (`nodes[-1]`). */
  function LastListed(h: History, q: Query): Option<int> {
    if h == [] then None
    else if Matches(q, h[|h| - 1]) then Some(h[|h| - 1].at)
    else LastListed(h[..|h| - 1], q)
  }

  lemma {:induction false} LastListedIsLatest(h: History, q: Query)
    requires Ordered(h)
    ensures LastListed(h, q) == Latest(h, q)
  {
    if h == [] {
    } else if Matches(q, h[|h| - 1]) {
      LatestIsMaximum(h, q);
      var latest := Latest(h, q);
      var i :| 0 <= i < |h| && Matches(q, h[i]) && h[i].at == latest.value;
      assert h[i].at <= h[|h| - 1].at;
    } else {
      assert Ordered(h[..|h| - 1]) by {
        forall i, j | 0 <= i < j < |h| - 1 ensures h[i].at <= h[j].at {}
      }
      LastListedIsLatest(h[..|h| - 1], q);
    }
  }

  function Labels(h: History): set<string> {
    if h == [] then {}
    else
      var before := Labels(h[..|h| - 1]);
      match h[|h| - 1]
      case Labeled(_, n) => before + {n}
      case Unlabeled(_, n) => before - {n}
      case _ => before
  }

  predicate IsDraft(pr: PullRequest, h: History) {
    if h == [] then pr.openedAsDraft
    else match h[|h| - 1]
         case ConvertedToDraft(_) => true
         case ReadyForReview(_) => false
         case _ => IsDraft(pr, h[..|h| - 1])
  }

  predicate IsOpen(h: History) {
    if h == [] then true
    else match h[|h| - 1]
         case Closed(_, _) => false
         case Reopened(_) => true
         case _ => IsOpen(h[..|h| - 1])
  }

  /** Whether `README.md` at the head commit still has the self-review notice. */
  predicate NoticePresent(h: History) {
    h != [] && if h[|h| - 1].Commit? then h[|h| - 1].notice else NoticePresent(h[..|h| - 1])
  }

  predicate IsCommunity(labels: set<string>) {
    labels !! {"staff", "bot"}
  }

  /** A review's state as GitHub reports it now: dismissing a review rewrites it. */
  function StateNow(h: History, i: nat): ReviewState
    requires i < |h| && h[i].Review?
  {
    if exists j :: 0 <= j < |h| && h[j].ReviewDismissed? && h[j].index == i then Dismissed else h[i].state
  }

  /** A staff verdict: the reviews the summary query asks for, by a member of staff. */
  predicate IsVerdict(pr: PullRequest, h: History, i: nat)
    requires i < |h|
  {
    h[i].Review? && StateNow(h, i) != Commented && h[i].login.Some? && h[i].login.value in pr.staff
  }

  /** The reversed walk of `staff_change_request_at` over the reviews before position `n`. */
  function StandingRequest(pr: PullRequest, h: History, n: nat): (r: Option<int>)
    requires n <= |h|
    ensures r.Some? ==> exists i :: 0 <= i < n && IsVerdict(pr, h, i) && StateNow(h, i) == RequestsChanges
                                    && h[i].at == r.value && forall j :: i < j < n ==> !IsVerdict(pr, h, j)
  {
    if n == 0 then None
    else if IsVerdict(pr, h, n - 1) then
      if StateNow(h, n - 1) != RequestsChanges then None else Some(h[n - 1].at)
    else StandingRequest(pr, h, n - 1)
  }

  /** The last staff verdict among the first `n` events. */
  ghost predicate IsLastVerdict(pr: PullRequest, h: History, n: nat, i: nat)
    requires n <= |h|
  {
    i < n && IsVerdict(pr, h, i) && forall j :: i < j < n ==> !IsVerdict(pr, h, j)
  }

  lemma {:induction false} StandsIfLast(pr: PullRequest, h: History, n: nat, i: nat)
    requires n <= |h| && IsLastVerdict(pr, h, n, i) && StateNow(h, i) == RequestsChanges
    ensures StandingRequest(pr, h, n) == Some(h[i].at)
  {
    if n - 1 != i {
      StandsIfLast(pr, h, n - 1, i);
    }
  }

  /** A request stands if and only if the last staff verdict asks for changes, and then its time is that verdict's. */
  lemma {:induction false} StandingRequestIsLast(pr: PullRequest, h: History, n: nat, t: int)
    requires n <= |h|
    ensures StandingRequest(pr, h, n) == Some(t) <==>
            exists i: nat :: IsLastVerdict(pr, h, n, i) && StateNow(h, i) == RequestsChanges && h[i].at == t
  {
    if i: nat :| IsLastVerdict(pr, h, n, i) && StateNow(h, i) == RequestsChanges && h[i].at == t {
      StandsIfLast(pr, h, n, i);
    }
    if StandingRequest(pr, h, n) == Some(t) {
      var i :| 0 <= i < n && IsVerdict(pr, h, i) && StateNow(h, i) == RequestsChanges
               && h[i].at == t && forall j :: i < j < n ==> !IsVerdict(pr, h, j);
      assert IsLastVerdict(pr, h, n, i);
    }
  }

  /** When staff requested changes, if that is still the latest staff verdict. */
  function StaffChangeRequestAt(pr: PullRequest, h: History): (r: Option<int>)
    ensures r == StandingRequest(pr, h, |h|)
  {
    if !exists i :: 0 <= i < |h| && h[i].Review? && StateNow(h, i) == RequestsChanges then None
    else StandingRequest(pr, h, |h|)
  }

  predicate AuthorPushedSince(pr: PullRequest, h: History, since: int) {
    exists i :: 0 <= i < |h| && IsAuthorPush(pr, h[i]) && h[i].at > since
  }

  /** A commit that can address feedback: not a merge, and by the author or by nobody known. */
  predicate IsAuthorPush(pr: PullRequest, e: Event) {
    e.Commit? && e.parents <= 1 && (e.user.None? || e.user == pr.author)
  }
}
