# Paddleboard: protocols and codecs in Dafny

This project models ten components of the Paddleboard editor (a Zed derivative) and of the scripts that run its
community queue, and proves what they promise over whole runs and for all inputs. `dafny verify dfyconfig.toml` checks
everything.

* **Pull request cleanup** (`script/github-pr-cleanup.py`). Four policies give notice and then close pull requests. The
  bot has no memory of its own: every run decides again from the pull request's events. `PullRequests` holds the events
  and what the script asks of them, `PrCleanup` the four decisions and the run, `PrCleanupRuns` the proof that in every
  reachable history each comment and closure was decided on the events before it (whatever run died after whichever
  request), `PrCleanupClock` what restarts a policy's clock, and `PrCleanupSafety` the promises.
  `PrCleanupDecisions` says from the events alone which step each policy takes and which requests a run sends, and
  `PrCleanupProgress` that a pinged pull request nobody touches is closed in the end. One promise does not
  hold as stated: a reply to the latest changes-requested notice does not stop a closure whose comment an earlier,
  interrupted run already posted. `PrCleanupCounterexample` gives such a life of a pull request, and
  `ClosesDespiteReplyExactlyIfAnnounced` says over all runs which replies fail to stop a closure: exactly those made
  after the closing comment.
* **Prompt and activity tracking** (`crates/acp_thread/src/submission.rs`): `Submissions` and `SubmissionRuns` for
  the prompt tracker with its pruning on values, `SubmissionEffects` for what each
  operation does after any run, `PromptTracker` for the object whose methods follow them, and `Activity` for work generations and cancellation waiters.
* **Duplicate magnets** (`script/github-find-top-duplicated-bugs.py` prints, and
  `script/github-check-new-issue-for-duplicates.py` reads): `Text`, `DuplicateMagnets`, `MagnetRoundTrip`, and
  `MagnetBodies` for the printed lines and for bodies edited by hand; and the candidate quotas of the second script in
  `SearchCandidates` and `SearchShares`.
* **Diffs** (`crates/acp_thread/src/diff.rs`): `ExcerptRanges` merges ranges, `DiffPatch` associates patch files with
  reported changes, and `PatchPaths` says in plain terms which change a file stands for.
* **Display terminal** (`crates/acp_thread/src/terminal.rs`): `DisplayTerminal` and
  `DisplayTerminalFields`, on the strings of `Utf8` and `Utf8Encoding`.
* **Codecs**: `PathEscapes` (`crates/acp_thread/src/mention.rs`), `SkillNames` (`crates/agent_skills/agent_skills.rs`),
  `ContentBlocks` (`crates/acp_thread/src/content.rs`).
* **Debug log** (`crates/acp_tools/src/acp_tools.rs`): `DebugLog`.

Code that changes state step by step is a class or a method with loops, proved against a function on values; the
theorems about whole runs are lemmas about those functions. Clocks, the emulator's text and the iteration order of hash
maps are parameters. One-shot channels are tokens.

## Assumptions

* A cleanup run reads one snapshot of a pull request and sends its requests without anything else happening in between;
  it may die after any of them. Events carry the time they happened, so histories are in order of time; the server
  stamps a request no earlier than the run's own clock; histories fit into the fetched window of 100 items; staff
  membership does not change; and the pull request's author is not the bot's own account.
* Label names are in lower case, as the script compares them.
* Issue URLs are those of the repository the scripts name, and area names are single lines without a space at either end.

## Model

| member | source | states |
|---|---|---|
| PullRequests.LatestIsMaximum | script/github-pr-cleanup.py:264-273 | the time looked for is the maximum over the matching events, and absent exactly if none matches |
| PullRequests.LastListedIsLatest | script/github-pr-cleanup.py:361-368 | in an ordered history the last listed commit or conversion is also the latest |
| PullRequests.StandingRequestIsLast | script/github-pr-cleanup.py:386-400 | a request stands, with a certain time, if and only if the last staff verdict asks for changes and has that time |
| PrCleanup.RemotePullRequest.TakeStep | script/github-pr-cleanup.py:519-533 | comment first, then close; of the two requests exactly as many leave an event as get through |
| PrCleanup.RemotePullRequest.Round | script/github-pr-cleanup.py:548-557 | the loop over the cleanups sends their requests in order and stops after a close, cut off where the run dies |
| PrCleanup.RemotePullRequest.Sweep | script/github-pr-cleanup.py:536-557 | a run adds the events of its first requests to the history, all decided on the snapshot at its start |
| PrCleanupRuns.ActionIgnoresOthers | script/github-pr-cleanup.py:332-508 | a cleanup decides the same whether or not the bot has just commented for another cleanup |
| PrCleanupRuns.ResumesExactlyIfAnnounced | script/github-pr-cleanup.py:332-508 | a cleanup closes without comment if and only if the pull request qualifies and its closing comment is in the epoch |
| PrCleanupRuns.AnnouncedCloseResumes | script/github-pr-cleanup.py:519-533 | after the closing comment is posted the same decision is to close without comment |
| PrCleanupRuns.RoundKeepsSound | script/github-pr-cleanup.py:548-557 | the rest of a run, cut off after any request, keeps every bot event justified |
| PrCleanupRuns.ReachableIsSound | script/github-pr-cleanup.py:536-557 | in every reachable history each bot comment and closure was decided by its cleanup on the events before it, no later than it happened |
| PrCleanupRuns.ActsOnlyOnEligible | script/github-pr-cleanup.py:537-541 | no bot event ever falls on a pull request that is closed or labelled never stale |
| PrCleanupClock.RequestKept | script/github-pr-cleanup.py:386-400 | a request that stands later stood at every earlier moment since it was made |
| PrCleanupClock.ClockKept | script/github-pr-cleanup.py:254-261 | without a restarting event a cleanup's clock stays where it was |
| PrCleanupClock.ClockCovers | script/github-pr-cleanup.py:254-261 | the clock is at least as late as every event that restarts it |
| PrCleanupClock.ClockMoved | script/github-pr-cleanup.py:254-261 | if the clock moved, some event in between restarts it |
| PrCleanupClock.ClockStable | script/github-pr-cleanup.py:254-261 | a clock that stands before an event was already there when the event happened |
| PrCleanupSafety.CountedNotice | script/github-pr-cleanup.py:264-273 | a notice that a run counts was given by the cleanup itself on the same clock |
| PrCleanupSafety.ClosedAfterNotice | script/github-pr-cleanup.py:332-508 | behind every closure are the cleanup's closing comment and, before it, its ping, on one clock and with the full delays |
| PrCleanupSafety.StaleDraftClosure | script/github-pr-cleanup.py:358-383 | a stale draft is closed at least 28 days after every commit, conversion and reopening, 7 days after a ping that came at least 21 days after them |
| PrCleanupSafety.ClaClosure | script/github-pr-cleanup.py:332-355 | a CLA closure comes at least 8 days after opening and every reopening, a day after the re-check, unsigned, and was announced while the author had not commented in the epoch |
| PrCleanupSafety.NoSelfReviewClosure | script/github-pr-cleanup.py:459-508 | a closure for want of self-review comes no earlier than the day its ping named and the day three days after the ping, which came a day after every labelling, readiness or reopening, and was announced with the notice present or no comment since the ping |
| PrCleanupSafety.ToldOncePerEpoch | script/github-pr-cleanup.py:254-273 | between two pings, or two closing comments, of one cleanup some event restarted its clock |
| PrCleanupSafety.AnnouncedOnceThenClosed | script/github-pr-cleanup.py:421-423 | after a closing comment, until the clock restarts, every run either closes without comment (exactly if still qualifying) or does nothing |
| PrCleanupSafety.PromiseKeptLater | script/github-pr-cleanup.py:317-329 | the day a notice names is never later than the day the script waits for |
| PrCleanupSafety.PingBeforeAck | script/github-pr-cleanup.py:439-447 | within an epoch the ping is never later than an acknowledgement |
| PrCleanupSafety.PromisesCome | script/github-pr-cleanup.py:442-455 | when the closing comment is decided, every day named in the epoch has come |
| PrCleanupSafety.RepliesAnswered | script/github-pr-cleanup.py:448-455 | when the closing comment is decided, every author comment of the epoch has a notice at or after it |
| PrCleanupSafety.ChangesRequestedClosure | script/github-pr-cleanup.py:403-456 | a closure for inactivity comes on or after every day named since its clock started, with no re-request and no author push since the review, and was announced with every reply of the epoch answered; no notice follows the closing comment |
| PrCleanupSafety.NoNoticeOnceAnnounced | script/github-pr-cleanup.py:421-437 | from the closing comment of an epoch on, no ping and no acknowledgement is posted |
| PrCleanupSafety.NoticesAreOlder | script/github-pr-cleanup.py:439-455 | every notice before a closing comment is strictly older than it |
| PrCleanupSafety.ClosesDespiteReplyExactlyIfAnnounced | script/github-pr-cleanup.py:403-456 | behind every closure for inactivity in every run, the author comments newer than every notice are exactly those after the closing comment, and those of the epoch exactly those that found the closure announced |
| PrCleanupSafety.AcksAnswerComments | script/github-pr-cleanup.py:439-453 | two acknowledgements with no restart between them have an author comment between them |
| PrCleanupSafety.ReplyStopsClosureUnlessAnnounced | script/github-pr-cleanup.py:421-453 | the step for one run: after a reply to the latest notice the cleanup closes if and only if its closing comment is already posted, and otherwise acknowledges |
| PrCleanupCounterexample.ClosedAfterReply | script/github-pr-cleanup.py:421-423 | a reachable history in which an author comment newer than every notice is followed by the closure all the same |
| PrCleanupDecisions.LabelsExactly | script/github-pr-cleanup.py:233-236 | a pull request has a label exactly if it was given and not taken away since |
| PrCleanupDecisions.DraftExactly | script/github-pr-cleanup.py:358-360 | it is a draft exactly if it was opened as one or converted, and was not made ready since |
| PrCleanupDecisions.OpenExactly | script/github-pr-cleanup.py:536-541 | it is closed exactly if it was closed and not reopened since |
| PrCleanupDecisions.NoticeExactly | script/github-pr-cleanup.py:484-487 | the notice is present exactly if the last commit has it |
| PrCleanupDecisions.ClockIsLastStart | script/github-pr-cleanup.py:254-261 | a clock stands at the last of the events, and of the opening where it counts, from which its cleanup counts |
| PrCleanupDecisions.ClaExactly | script/github-pr-cleanup.py:332-355 | the re-check, the announced close and the resumed close are each decided if and only if labels, ages and comments among the events call for it |
| PrCleanupDecisions.DraftActionExactly | script/github-pr-cleanup.py:358-383 | ping, announced close and resumed close of a stale draft are each decided if and only if 21 days have passed since every start, and the pings and closing comments of the epoch are as they should be |
| PrCleanupDecisions.ChangesExactly | script/github-pr-cleanup.py:403-456 | ping, acknowledgement, announced close and resumed close are each decided if and only if the standing review is unanswered and the conversation since the clock started calls for it |
| PrCleanupDecisions.NoSelfReviewExactly | script/github-pr-cleanup.py:459-508 | ping, announced close and resumed close are each decided if and only if label, notice, days and comments among the events call for it |
| PrCleanupDecisions.DecidesExactly | script/github-pr-cleanup.py:332-508 | for all four cleanups, a step is decided if and only if the events warrant it |
| PrCleanupDecisions.SendsExactly | script/github-pr-cleanup.py:519-557 | a run sends a request if and only if the pull request is eligible and some cleanup before which none closes is due a step that asks for it |
| PrCleanupDecisions.SendsInOrder | script/github-pr-cleanup.py:548-557 | the requests go out in the order of the cleanups, a comment before the close it announces, none twice |
| PrCleanupDecisions.RecordedExactly | script/github-pr-cleanup.py:519-533 | each request that gets through leaves its comment by the bot, or its closure, at its time |
| PrCleanupProgress.PingedThenCloses | script/github-pr-cleanup.py:332-508 | once a cleanup has pinged and its notice period is over, it closes |
| PrCleanupProgress.PingedIsClosed | script/github-pr-cleanup.py:332-557 | a reachable, eligible pull request for which a ping is due and that only complete runs touch is closed after the first run a notice period later |
| PromptTracker.DisconnectAll | crates/acp_thread/src/submission.rs:288-306 | the walk disconnects exactly the unsettled records, lists their ids in order and fires their senders |
| PromptTracker.EchoAll | crates/acp_thread/src/submission.rs:310-319 | the walk marks exactly the accepted records of the message that were not echoed yet and lists their ids |
| PromptTracker.SessionSubmissions.Register | crates/acp_thread/src/submission.rs:228-243 | the new record is pending under an id that is not in use, and the tracker is the pruned one with it; as with every call on the object, the object is the tracker that all operations so far lead to |
| PromptTracker.SessionSubmissions.Track | crates/acp_thread/src/submission.rs:245-255 | only the task and sender of a known record change |
| PromptTracker.SessionSubmissions.Settle | crates/acp_thread/src/submission.rs:257-282 | a disconnected record only gains missing evidence; any other known record takes the state; no other record changes; the result says whether something changed |
| PromptTracker.SessionSubmissions.Disconnect | crates/acp_thread/src/submission.rs:284-307 | on a receipt transport the unsettled records become disconnected and their ids are returned; otherwise nothing happens |
| PromptTracker.SessionSubmissions.ObserveEcho | crates/acp_thread/src/submission.rs:309-322 | the echoed records are marked, listed and pruned |
| PromptTracker.SessionSubmissions.Forget | crates/acp_thread/src/submission.rs:324-339 | exactly a settled, known record is removed, and the latest id with it |
| PromptTracker.SessionSubmissions.Prune | crates/acp_thread/src/submission.rs:341-348 | the latest, the unsettled and, on a receipt transport, the recoverable records stay |
| SubmissionRuns.PruneAccounts | crates/acp_thread/src/submission.rs:341-348 | pruning drops only records that are settled and not worth recovering |
| SubmissionRuns.NothingIsLost | crates/acp_thread/src/submission.rs:228-348 | after every run a submission that is no longer on record was settled, on a receipt transport everything recoverable is on record unless forgotten, and every kept record is the latest, unsettled or recoverable |
| SubmissionRuns.DisconnectedForGood | crates/acp_thread/src/submission.rs:257-307 | over every continuation of every run a disconnected submission stays disconnected and its evidence is never replaced |
| SubmissionRuns.IdsAreNeverReused | crates/acp_thread/src/submission.rs:228-243 | ids number the registrations, and a record holds the content it was registered with |
| SubmissionRuns.UnsettledIdsExact | crates/acp_thread/src/submission.rs:212-220 | the listed ids are exactly those of the unsettled records, in ascending order |
| SubmissionRuns.DisconnectSettlesAll | crates/acp_thread/src/submission.rs:284-307 | after any run, disconnecting leaves nothing unsettled, returns exactly what was, changes nothing else, and a second call does nothing |
| SubmissionEffects.KeptExactly | crates/acp_thread/src/submission.rs:341-348 | after any run a prompt is on record if and only if nobody forgot it and it is the latest, pending, accepted without echo or, on a receipt transport, failed, cancelled or disconnected |
| SubmissionEffects.LatestExactly | crates/acp_thread/src/submission.rs:228-231 | the latest prompt is the one registered last, unless it was forgotten |
| SubmissionEffects.Registers | crates/acp_thread/src/submission.rs:228-243 | a new prompt is pending under the next id and no other changes its state |
| SubmissionEffects.Forgets | crates/acp_thread/src/submission.rs:324-339 | a prompt leaves the records if it is there and settled; otherwise nothing happens |
| SubmissionEffects.HoldsExactly | crates/acp_thread/src/submission.rs:245-259 | task and sender are those last tracked, and the sender is gone once the prompt is settled or disconnected |
| SubmissionEffects.Tracks | crates/acp_thread/src/submission.rs:245-255 | tracking changes no state and keeps every record |
| SubmissionEffects.Settles | crates/acp_thread/src/submission.rs:257-282 | a prompt on record takes the state asked for; a disconnected one stays so and only ever gains a missing receipt; no other changes |
| SubmissionEffects.Disconnects | crates/acp_thread/src/submission.rs:284-307 | on a receipt transport a pending prompt is disconnected without and an accepted one with its receipt; on others nothing happens |
| SubmissionEffects.FiresEachSender | crates/acp_thread/src/submission.rs:299-303 | disconnecting fires the sender of every unsettled prompt that holds one, once each, in the order of ids |
| SubmissionEffects.FiresNoOther | crates/acp_thread/src/submission.rs:228-339 | no other operation fires a sender |
| SubmissionEffects.MarksEchoes | crates/acp_thread/src/submission.rs:309-322 | an echo marks every accepted prompt of its message and touches no other |
| SubmissionEffects.EchoedIdsExact | crates/acp_thread/src/submission.rs:309-322 | the listed ids are exactly those of the accepted, not yet echoed prompts of the message, in ascending order |
| Activity.SessionActivity.CompleteWaiters | crates/acp_thread/src/submission.rs:457-463 | all held waiters are woken and none is held afterwards |
| Activity.SessionActivity.ReportWork | crates/acp_thread/src/submission.rs:440-451 | the fields of the work generation change as the function on values says, and nothing else |
| Activity.SessionActivity.Update | crates/acp_thread/src/submission.rs:439-455 | the object is the state after all calls so far and this one |
| Activity.SessionActivity.MarkUnconfirmed | crates/acp_thread/src/submission.rs:401-403 | likewise; only the report is forgotten |
| Activity.SessionActivity.FinishClose | crates/acp_thread/src/submission.rs:465-468 | likewise; observation is closed and the waiters woken |
| Activity.SessionActivity.CloseObservation | crates/acp_thread/src/submission.rs:482-485 | likewise; observation is closed and the waiters dropped |
| Activity.SessionActivity.WaitForIdle | crates/acp_thread/src/submission.rs:487-495 | likewise; an error if closed, nothing if idle, and otherwise a new waiter |
| Activity.GenerationsCountOpenings | crates/acp_thread/src/submission.rs:439-451 | the generation counts the active reports with no active report since the last idle one, and work is in progress exactly while such work is open |
| Activity.TimesOfLatestWork | crates/acp_thread/src/submission.rs:442-451 | start, first entry and duration come from the opening report and the next idle report, whatever falls between |
| Activity.WaitersAreSorted | crates/acp_thread/src/submission.rs:452-495 | a waiter is pending, woken or dropped as the first idle report, finished close or closed observation after it decides; none is held while idle or closed |
| Activity.ExactlyOneFate | crates/acp_thread/src/submission.rs:457-495 | those three fates exclude each other and one always holds |
| Text.LinesOfJoin | script/github-find-top-duplicated-bugs.py:178 | splitting at line ends undoes joining |
| Text.FirstWordIs | script/github-check-new-issue-for-duplicates.py:457-458 | the first word of a padded text is the word |
| Text.IntRoundTrip | script/github-find-top-duplicated-bugs.py:175 | reading a printed number gives it back |
| Text.SortReorders | script/github-find-top-duplicated-bugs.py:167 | sorting keeps the elements and their multiplicity and puts the keys in descending order |
| Text.SortIsStable | script/github-find-top-duplicated-bugs.py:167 | elements of equal key keep their order |
| Text.SortedInOneWay | script/github-find-top-duplicated-bugs.py:167 | a sequence is the sorted one if and only if its keys descend and elements of equal key are in their order |
| Text.SortKeepsTies | script/github-check-new-issue-for-duplicates.py:475 | elements of equal key stay in the order they were in |
| Text.StripIs | script/github-check-new-issue-for-duplicates.py:449 | stripping takes the spaces off both ends and nothing else |
| Text.FirstWordExactly | script/github-check-new-issue-for-duplicates.py:457-458 | the first word follows nothing but spaces and ends before the next one; a blank text has none |
| Text.SecondPieceExactly | script/github-check-new-issue-for-duplicates.py:457-458 | the second piece lies between the first two occurrences of the separator, or between the first and the end |
| Text.DigitsAreRead | script/github-check-new-issue-for-duplicates.py:457-458 | a further digit, with or without an underscore before it, makes the number ten times as much and its value more |
| Text.SignsAreRead | script/github-check-new-issue-for-duplicates.py:457-458 | a sign before a number is read |
| DuplicateMagnets.Tally | script/github-find-top-duplicated-bugs.py:154-159 | the dictionaries hold the areas in order of appearance, their issues and their totals |
| DuplicateMagnets.SortAreas | script/github-find-top-duplicated-bugs.py:166 | the areas in descending order of their totals |
| DuplicateMagnets.PrintSection | script/github-find-top-duplicated-bugs.py:167-176 | the lines of one area |
| DuplicateMagnets.BuildMarkdownBody | script/github-find-top-duplicated-bugs.py:148-178 | the printed body is the introduction and the sections of all areas |
| DuplicateMagnets.ParseDuplicateMagnets | script/github-check-new-issue-for-duplicates.py:443-477 | the loop computes the parser function on the body's lines |
| MagnetRoundTrip.LineIsRead | script/github-check-new-issue-for-duplicates.py:456-460 | a printed issue line is read as its count and its number |
| MagnetRoundTrip.SectionIsRead | script/github-check-new-issue-for-duplicates.py:446-473 | reading a section notes its issues under its area |
| MagnetRoundTrip.SectionsEnter | script/github-check-new-issue-for-duplicates.py:465-473 | an issue's entry holds exactly those of its areas that have been read, without the placeholder |
| MagnetRoundTrip.BodyIsRead | script/github-check-new-issue-for-duplicates.py:446-473 | reading a printed body is noting all issues section by section |
| MagnetRoundTrip.RoundTrip | script/github-check-new-issue-for-duplicates.py:446-477 | parsing a printed body gives every issue back with its number, count and areas, nothing else and nothing twice, in descending order of counts |
| MagnetRoundTrip.EditedLineIsRead | script/github-check-new-issue-for-duplicates.py:456-460 | closing parentheses after a link, and words after them, do not change the numbers that are read |
| MagnetBodies.FiledExactly | script/github-find-top-duplicated-bugs.py:154-159 | the total of an area is the sum of the counts of its issues, and its issues are those that name it, as often as they do |
| MagnetBodies.SectionIsBlock | script/github-find-top-duplicated-bugs.py:167-176 | a section is a blank line, the heading, a blank line, and a line with padded count and link for each issue of the area, by descending counts |
| MagnetBodies.BodyIsPrinted | script/github-find-top-duplicated-bugs.py:148-178 | the body is the introduction and a block for every area that is named, once each, by descending sums of counts |
| MagnetBodies.EntriesExactly | script/github-check-new-issue-for-duplicates.py:446-473 | for any lines, an issue has an entry exactly if a line under a heading mentions it, with the count of the first mention and the areas of all but the placeholder |
| MagnetBodies.OrderExactly | script/github-check-new-issue-for-duplicates.py:465-473 | issues are remembered in the order of their first mentions |
| MagnetBodies.ParsesExactly | script/github-check-new-issue-for-duplicates.py:446-477 | for any body the magnets are exactly what the mentions make, no number twice, by descending counts and then by first mention |
| ExcerptRanges.Sort | crates/acp_thread/src/diff.rs:656 | a sorted permutation of the ranges |
| ExcerptRanges.Merge | crates/acp_thread/src/diff.rs:658-673 | merging sorted ranges gives separate ranges over the same points |
| ExcerptRanges.ExcerptRanges | crates/acp_thread/src/diff.rs:638-674 | for any well-formed ranges the result is well-formed, each range ends strictly before the next starts, and the points are those of the input |
| ExcerptRanges.PointsDetermineRanges | crates/acp_thread/src/diff.rs:658-673 | there is only one such list of ranges for given points |
| ExcerptRanges.OrderAndRepeatsDoNotMatter | crates/acp_thread/src/diff.rs:638-674 | inputs with the same ranges, in any order and number, merge to the same result |
| DiffPatch.BuildIndex | crates/acp_thread/src/diff.rs:118-126 | the loop computes the index function |
| DiffPatch.IndexIsExact | crates/acp_thread/src/diff.rs:118-126 | a path pair is indexed if some change reports it, and carries a position exactly if only one does |
| DiffPatch.LocateIgnoresOrder | crates/acp_thread/src/diff.rs:147-165 | the change found, or the error, is the same for every order of the hash map |
| DiffPatch.LocatesOnlyMatch | crates/acp_thread/src/diff.rs:147-168 | a change is found if and only if it is the only exact match or, without one and with a relative side, the only suffix match |
| DiffPatch.Parse | crates/acp_thread/src/diff.rs:109-192 | the loop computes the association function and stops at the first error |
| DiffPatch.AssociatesExactly | crates/acp_thread/src/diff.rs:129-190 | a file is associated with a change if and only if that is the only one its own paths can mean, a text file, not taken yet, whose declared sides fit the hunks; it keeps its hunks and goes by the declared paths |
| DiffPatch.AssociatedExactly | crates/acp_thread/src/diff.rs:127-191 | the files are associated in a certain way if and only if each stands for such a change and no two for the same |
| DiffPatch.ParsedExactly | crates/acp_thread/src/diff.rs:109-192 | parsing gives a result if and only if there are changes and the result is one-to-one |
| DiffPatch.ParseSucceedsExactly | crates/acp_thread/src/diff.rs:109-192 | parsing succeeds if and only if there are changes and the files can be associated one-to-one |
| DiffPatch.ParseIgnoresOrder | crates/acp_thread/src/diff.rs:109-192 | success, associations and errors do not depend on the order of the hash map |
| DiffPatch.FillRows | crates/acp_thread/src/diff.rs:74-86 | every row shows the hunks of the file associated with it, and none otherwise |
| DiffPatch.NewPatch | crates/acp_thread/src/diff.rs:47-107 | one numbered row per change, always; a fallback exactly if the patch is unreadable or cannot be associated one-to-one, and then empty rows; otherwise every row shows the hunks of the file that stands for its change, and none if no file does |
| PatchPaths.FitsExactly | crates/acp_thread/src/diff.rs:195-202 | a rooted path fits only itself and a relative one every path that ends in its components; absent fits absent |
| PatchPaths.DeclaresExactly | crates/acp_thread/src/diff.rs:272-284 | what each operation declares as old and new path |
| PatchPaths.StandsExactly | crates/acp_thread/src/diff.rs:129-190 | a file stands for a change if and only if that is the only one its paths can mean, it is text, and the hunks fit its sides |
| PatchPaths.ParsedPlainly | crates/acp_thread/src/diff.rs:109-192 | parsing gives a result if and only if there are changes and every file plainly stands for a different one |
| Utf8.CutAtBoundary | crates/acp_thread/src/terminal.rs:850-856 | a string cut at a character boundary is two strings |
| DisplayTerminal.TruncatedOutput | crates/acp_thread/src/terminal.rs:841-860 | the loop computes the truncation function |
| DisplayTerminal.TruncationIsSafe | crates/acp_thread/src/terminal.rs:841-860 | the result is a prefix, a string, within the limit, shorter exactly if the content exceeds the limit; then it is as many whole characters as fit, cut back to the last newline among them if there is one |
| DisplayTerminal.OnlyOneCut | crates/acp_thread/src/terminal.rs:841-860 | text and limit leave only one such cut |
| DisplayTerminal.DisplayState.CacheOutput | crates/acp_thread/src/terminal.rs:823-839 | the cache holds the truncation of the current text and its length |
| DisplayTerminal.DisplayState.RefreshOutput | crates/acp_thread/src/terminal.rs:676-682 | a cached output is renewed with its own status and end time |
| DisplayTerminal.DisplayState.WriteOutput | crates/acp_thread/src/terminal.rs:667-674 | new text renews the cache; legacy output and appended bytes do the same |
| DisplayTerminal.DisplayState.FinishDisplay | crates/acp_thread/src/terminal.rs:684-698 | only the first legacy exit counts, and only if nothing is cached |
| DisplayTerminal.DisplayState.UpdateCommandLabel | crates/acp_thread/src/terminal.rs:866-878 | a label is taken unless a command was reported |
| DisplayTerminal.DisplayState.InitializeLegacyDisplay | crates/acp_thread/src/terminal.rs:714-734 | only the first creation counts; a new limit renews the cache |
| DisplayTerminal.DisplayState.ApplyDisplayPatch | crates/acp_thread/src/terminal.rs:752-821 | a patch changes exactly the fields it defines, and none if its output is refused |
| DisplayTerminal.DisplayState.CurrentOutput | crates/acp_thread/src/terminal.rs:653-665 | with a coherent cache callers see the truncation of the live text, flagged truncated exactly if the text exceeds the limit |
| DisplayTerminal.AlwaysCoherent | crates/acp_thread/src/terminal.rs:653-860 | after every interleaving of events the cached output is the truncation of the current text, and the caption is that of the command |
| DisplayTerminal.EndTimeStays | crates/acp_thread/src/terminal.rs:802-818 | an ended terminal keeps its end time until a patch clears the exit status |
| DisplayTerminal.ReportedCommandStays | crates/acp_thread/src/terminal.rs:866-874 | a reported command stays until another patch reports one |
| DisplayTerminal.LegacyExitComesTooLate | crates/acp_thread/src/terminal.rs:684-698 | without patches the exit status of an ended terminal never changes |
| DisplayTerminalFields.FlagsExactly | crates/acp_thread/src/terminal.rs:684-728 | the flags tell whether a legacy creation and a legacy exit have come |
| DisplayTerminalFields.TextExactly | crates/acp_thread/src/terminal.rs:667-821 | the text is that of the last event that brought one, and every other event leaves it |
| DisplayTerminalFields.ExitExactly | crates/acp_thread/src/terminal.rs:684-821 | status and end time are set by a patch that has one, cleared by a patch that says so, set by the first legacy exit if there is none, and kept otherwise |
| DisplayTerminalFields.PlaceExactly | crates/acp_thread/src/terminal.rs:714-802 | the limit comes from the first legacy creation alone, the working directory also from patches that define it |
| DisplayTerminalFields.CommandExactly | crates/acp_thread/src/terminal.rs:714-878 | the command is the one reported last, without a report the last legacy label, and without a label the title |
| DisplayTerminalFields.CaptionExactly | crates/acp_thread/src/terminal.rs:752-878 | the caption is the command, or the word Terminal |
| Utf8Encoding.StringExactly | crates/acp_thread/src/terminal.rs:850-856 | bytes are a string if and only if they encode Unicode scalar values |
| Utf8.JoinStrings | crates/acp_thread/src/mention.rs:753-756 | two strings put together are a string |
| PathEscapes.DecodeBytes | crates/acp_thread/src/mention.rs:732-749 | the loop computes the decoding function |
| PathEscapes.DecodePathEscapes | crates/acp_thread/src/mention.rs:719-757 | the input itself if nothing changes or the outcome is no string, and otherwise the decoded text |
| PathEscapes.OwnedExactlyIfChanged | crates/acp_thread/src/mention.rs:714-757 | a new string is returned if and only if the text changes, which is if decoding changes it and gives a string |
| PathEscapes.DecodesPartByPart | crates/acp_thread/src/mention.rs:735-749 | decoding a path is decoding its components and keeping its separators |
| PathEscapes.StringPartByPart | crates/acp_thread/src/mention.rs:753-756 | a path is a string if and only if all its components are |
| PathEscapes.NeverMovesSeparators | crates/acp_thread/src/mention.rs:714-757 | the result has the same separators and as many components, each what decoding its counterpart alone gives |
| PathEscapes.EscapeExactly | crates/acp_thread/src/mention.rs:732-749 | an escape stands for a byte if and only if it is a percent sign and the two digits of the byte, high one first, and the byte is no separator |
| PathEscapes.DecodesByteByByte | crates/acp_thread/src/mention.rs:732-749 | every escape is replaced by its byte, from left to right, and everything else is kept |
| PathEscapes.EncodedRoundTrip | crates/acp_thread/src/mention.rs:732-749 | decoding undoes percent-encoding of everything but separators |
| PathEscapes.ResultExactly | crates/acp_thread/src/mention.rs:753-756 | the result is the decoded text if it is a string, and otherwise the input |
| SkillNames.CollapseHyphens | crates/agent_skills/agent_skills.rs:452-476 | the loop computes the collapsing function |
| SkillNames.SlugifySkillName | crates/agent_skills/agent_skills.rs:447-487 | the method computes the slug function |
| SkillNames.SlugIsValid | crates/agent_skills/agent_skills.rs:447-524 | there is no slug exactly if the input has no ASCII letter, digit or ampersand, and a slug passes validation without a double hyphen |
| SkillNames.FixedPoints | crates/agent_skills/agent_skills.rs:447-524 | the names that slugify to themselves are exactly the valid ones without a double hyphen |
| SkillNames.SlugIsIdempotent | crates/agent_skills/agent_skills.rs:447-487 | slugifying a slug gives the slug |
| SkillNames.SlugExactly | crates/agent_skills/agent_skills.rs:447-487 | the slug is the words of the input in lower case, with hyphens between them and an ampersand spelled out; beyond 64 characters it is cut and loses a hyphen at the cut |
| SkillNames.ValidExactly | crates/agent_skills/agent_skills.rs:489-524 | a name is valid if and only if it has 1 to 64 lower-case letters, digits and hyphens, and no hyphen at either end |
| SearchCandidates.AddAll | script/github-check-new-issue-for-duplicates.py:580-583 | the loop computes the adding function and keeps the key set in step |
| SearchCandidates.SelectSearchCandidates | script/github-check-new-issue-for-duplicates.py:568-593 | the loops compute the selection function |
| SearchCandidates.AddingIsSafe | script/github-check-new-issue-for-duplicates.py:580-583 | adding keeps the selection in place, without repeated keys and within the limit |
| SearchCandidates.QuotasFit | script/github-check-new-issue-for-duplicates.py:572-578 | the floor-division quotas sum to at most the limit if and only if the limit is at least six |
| SearchCandidates.KeepsEveryShare | script/github-check-new-issue-for-duplicates.py:585-588 | from a limit of six on, the first quota-many matches of every channel are selected |
| SearchCandidates.SelectsAsManyAsPossible | script/github-check-new-issue-for-duplicates.py:580-593 | no key twice, only candidates, and exactly the smaller of the limit and the number of distinct keys |
| SearchCandidates.BelowSixSharesAreLost | script/github-check-new-issue-for-duplicates.py:572-588 | for every limit below six a list of candidates for which some channel loses a reserved match |
| SearchShares.ShareListsFirst | script/github-check-new-issue-for-duplicates.py:585-587 | the share of a channel is its first matches, in order, up to the quota |
| SearchShares.KeepsFirstMatches | script/github-check-new-issue-for-duplicates.py:568-593 | from a limit of six on, a candidate with fewer than quota-many earlier matches of one of its searches is selected, with the quotas written out |
| SearchShares.BelowSixMatchesAreLost | script/github-check-new-issue-for-duplicates.py:568-593 | for every limit below six a candidate for which that fails |
| SearchShares.AddingPicksFirst | script/github-check-new-issue-for-duplicates.py:580-583 | adding picks the first of every key, in order, up to the limit |
| SearchShares.SelectionExactly | script/github-check-new-issue-for-duplicates.py:568-593 | for every limit the selection is the first of every key among the shares of the five channels, in order, followed by all candidates |
| DebugLog.WatchedConnection.Push | crates/acp_tools/src/acp_tools.rs:525-592 | entries and method maps stay those of the whole history since the last clear |
| DebugLog.WatchedConnection.Clear | crates/acp_tools/src/acp_tools.rs:375-384 | the history starts anew |
| DebugLog.MapHoldsOpenRequests | crates/acp_tools/src/acp_tools.rs:535-553 | a map holds a method for an id if and only if a request of that direction and id is open, and then its method |
| DebugLog.ResponsesNameTheirRequest | crates/acp_tools/src/acp_tools.rs:545-562 | a response shows the method of the latest unanswered request of the other direction with its id, of which there is at most one, and otherwise that it is unrecognized |
| DebugLog.OneEntryEach | crates/acp_tools/src/acp_tools.rs:525-592 | every message but requests and responses on standard error has exactly one entry, in order, with its direction, kind, id and contents |
| ContentBlocks.TestIsExact | crates/acp_thread/src/content.rs:80-176 | the cheap test holds if and only if the conversion succeeds |
| ContentBlocks.PreflightIsExact | crates/acp_thread/src/content.rs:4-21 | the prompt check passes exactly the prompts that convert, and they convert block by block in order |
| ContentBlocks.RoundTripV1 | crates/acp_thread/src/content.rs:23-145 | up and down again is the identity but for negative sizes |
| ContentBlocks.RoundTripV2 | crates/acp_thread/src/content.rs:23-145 | down and up again is the identity but for empty icon lists and sizes beyond the shared range |
| ContentBlocks.SecondRoundTrip | crates/acp_thread/src/content.rs:79-145 | a second round trip changes nothing more |
| ContentBlocks.UpIsSame | crates/acp_thread/src/content.rs:23-76 | converting up keeps every field, and succeeds if and only if all variants are listed |
| ContentBlocks.DownIsSame | crates/acp_thread/src/content.rs:78-145 | converting down keeps every field but icons and sizes beyond the range |

## Left out

- Requests to GitHub, retries, pagination windows, dry runs and the counter of steps in the cleanup script.
- Comment bodies of the cleanup script are reduced to the markers in them, the closing day they name, and whether they are a bare re-check request.
- Force pushes that remove commits, deleted comments and rewritten events: the model's histories only grow.
- `int` reads ASCII digits with signs and underscores in the model; other Unicode digits are not modelled.
- Order of the areas within a parsed magnet: the round trip is stated for the set of areas.
- The text parser behind `DiffPatch::parse` (`crates/acp_thread/src/diff/patch.rs`) and hunk rendering: the parsed files are an input.
- The terminal emulator: its text after each event is an input; line counts and metadata of the display terminal are not modelled.
- Tasks and futures of the prompt tracker: a task is a token, and only the sender that disconnection fires is followed.
- Windows path spelling, line ranges and mention URLs in `mention.rs`, and frontmatter splitting in `agent_skills.rs`: they would only add easy members.
- Candidate ranking and searching in the duplicates script.
- The list state, parameters and rendering of the debug log, and the session id and metadata of a prompt request.
- The community board, guild board and triage scripts, and the other version adapters of the agent protocol.
