# Verified model of mattermod

Mattermod watches pull requests and issues of an organisation on GitHub, mirrors them in a MySQL
database, answers labels and commands with comments, and cherry-picks merged pull requests. This
project models the parts of it whose correctness depends on interleavings, on time, or on several
functions together, and proves what they guarantee and where the guarantee ends.

`dafny verify dfyconfig.toml` checks everything.

## The parts

- **Lease lock** (`LeaseTiming`, `LeaseProtocol`, `LeaseGuarantees`, `LockStore`, `Backoff`,
  `UnlockHandshake`). Any number of instances contend for one row of `db_lock`. In `LeaseProtocol`
  every statement sent to the database is a step, the SELECT and the UPDATE of a transaction are
  separate steps, a changing statement may take effect, fail, or take effect and report an error, and
  an instance may die at any time. `LockStore` has the `Mutex` object whose methods, when nothing comes
  in between, take steps of that protocol. `UnlockHandshake` has one such object used by many
  goroutines, with its inner lock and its two channels.
- **Cherry-pick queue** (`CherryPickQueue`, `CherryPickHandler`). Handlers, the worker and the closing
  routine as interleaved steps, and the handlers by themselves as methods.
- **Label replies** (`LabelReplies`). Handlers under the comment lock, interleaved with comments by others.
- **Mirror and change detection** (`PullRequestStore`, `ChangeDetection`, `IssueChanges`, `EventRaces`).
  The methods by themselves, and pull request events interleaved with each other and with other writers.
- **Listings and reviews** (`Pagination`, `ReviewPosition`).
- `Runs` defines runs of a transition system once for all protocols; `Strings` has the library functions;
  `Selection` says which elements of a sequence a loop picked.

Failures of the database, of GitHub and of the context are parameters of the methods and steps of the
protocols; random jitter and clock readings are parameters too.

## Assumptions

- *A takeover finds an expired row* (`LeaseProtocol.TakesExpired`): the row that the UPDATE of a takeover overwrites has
  expired by the reading the takeover began with. Transactions that serialise give this (`SerialisedTakesExpired`), but the
  code does not ask for them: store/sql_lock_store.go:166 is a plain SELECT and the UPDATE at lines 151-154 matches on the key
  alone. `TakeoverGuardExactly` says what the UPDATE would have to check: of all conditions on the expiry it meets and that
  reading, exactly those that turn every unexpired row down keep the lock exclusive.
  `UnserialisedTakeoversCollide` shows two takeovers of one expired row succeeding together without
  one, with exact clocks and no lease overrun. Nothing is assumed of refreshes: that they find the row they read follows.
- *Leases are kept* (`LeasesKept`). No UPDATE or DELETE checks whose row it is, so the lock excludes others
  only while each holder's lease is unexpired. `ScheduleMargin` gives the exact margin of the refresh
  schedule: refresh k + 1 may lag its tick by 6.5 + 7.5k seconds. The first is critical; it has 6.5 seconds, not
  the 7.5 that half the lease suggests, because expiries are whole seconds.
- *No clock is ahead* (`ClockNotAhead`). `AcquisitionsAreSpaced` needs no clock assumption at all.
- A statement whose effect fails leaves the table as it was; a connection that dies takes its open transaction with it.
- *Shutdown is quiet* (`CherryPickQueue.QuietNext`): no handler stands between its two selects when the queue is
  closed. Only the absence of panics needs it; conservation and completeness hold without.
- Comments are neither edited nor deleted, and a listing shows every comment posted before it.
- Page numbers of a listing only grow, up to a last one.

## What the code does that one may not expect

- A refresh extends the stored expiry, not the present time, so the expiry runs ahead of the clock by 7.5
  seconds per refresh; a holder that dies late blocks the others accordingly (`ReclaimDelay`).
- `TryLock` never reports failure without an error, so the polling interval of the backoff is never used by `Lock`.
- `NewMutexStore` accepts an empty key, though its comment (store/sql_lock_store.go:85) announces an error; so does the model.
- `GetPullRequestFromGithub` saves the pull request before `checkPullRequestForChanges` reads it back. With no
  other writer in between, the check compares the pull request with itself: it never replies to labels, and
  it reports a change exactly when the milestone differs, which Save never stores, and therefore at
  every event (`ProcessEvent`, `ChecksAfterSaveConverge`). Labels are handled only when the first Save reported
  success without writing anything, which happens when an INSERT of a new row fails and the UPDATE finds no row, or
  when another event writes other labels between the Save and the read (`EventRaces.EventSeesLastWrite`): of two
  overlapping events the one that saves first handles the difference, whichever labels are newer.
- Two configured messages that differ may become one when the author's name is filled in
  (`LabelReplies.DistinctMessagesMayMerge`), and handlers then may repeat it.
- `RefreshMembers` tests for a nil list that `getMembers` never returns; an empty organisation empties the members.
- The position of a review counts the piece behind a hunk's final newline in place of the next header. It would fall short by one
  for each earlier hunk without that newline, but in a diff only a file's last hunk can lack it (`ReviewPosition.PositionIsRight`).
- A failing issue label handler leaves the stored issue unchanged, so the next event handles the same labels again.

## Model

| member | source | states |
|---|---|---|
| LeaseTiming.LagWithinMarginKeepsLease | store/sql_lock_store.go:35-39 | after k refreshes, a moment at most 6.5 + 7.5k s past the next tick is still inside the lease, whole-second truncation included |
| LeaseTiming.LagExactly | store/sql_lock_store.go:35-39 | no moment within a lag finds the lease expired after k refreshes if and only if the lag is at most 6.5 + 7.5k s |
| LeaseTiming.ReclaimDelay | store/sql_lock_store.go:188-190 | a holder that dies after k refreshes blocks others for 15 + 7.5k s at most, and that bound is exact |
| LeaseProtocol.ExpiredRowHasNoHolder | store/sql_lock_store.go:135-162 | while leases are kept, a takeover whose UPDATE finds the row expired finds nobody holding the lock |
| LeaseProtocol.SerialisedTakesExpired | store/sql_lock_store.go:135-200 | along any run an UPDATE that finds the row its SELECT read takes over an expired row or refreshes the expiry it read |
| LeaseProtocol.MutualExclusion | store/sql_lock_store.go:104-278 | over every run of any number of instances, with crashes and lost replies, whose takeovers find the row expired: at most one instance is between a successful Lock and the DELETE of its Unlock, the row is exactly its lease and its refresh undisturbed, until some lease was overrun |
| LeaseProtocol.HolderWasTold | store/sql_lock_store.go:113-133 | in every run an instance holds the lock only since an attempt whose commit succeeded and was reported to it, with neither a crash nor a DELETE of its own since; one told of an error does not hold it |
| LeaseProtocol.FailedRefreshIsLast | store/sql_lock_store.go:236-246 | an instance told that a refresh failed, even one that took effect, refreshes no more until it locks anew |
| LeaseGuarantees.SafeWithinMargin | store/sql_lock_store.go:233-247 | runs whose refresh or DELETE after k refreshes lags its tick by at most 6.5 + 7.5k s keep the lock exclusive |
| LeaseGuarantees.LateRefreshIsUnsafe | store/sql_lock_store.go:233-247 | when one refresh may lag by more, a holder punctual up to then and late with it loses the lock to a second holder |
| LeaseGuarantees.ScheduleMargin | store/sql_lock_store.go:35-39 | for any bound on the lag of each refresh, all runs within it are exclusive if and only if it allows refresh k + 1 at most 6.5 + 7.5k s, for every k |
| LeaseGuarantees.TakeoverGuardExactly | store/sql_lock_store.go:147-154 | for any condition on the expiry the UPDATE of a takeover meets and its reading that lets expired rows pass: with clocks not ahead and leases kept, all runs are exclusive if and only if it turns every unexpired row down |
| LeaseGuarantees.UnserialisedTakeoversCollide | store/sql_lock_store.go:135-173 | a run with exact clocks and kept leases in which two takeovers succeed because SELECT and UPDATE interleave |
| LeaseGuarantees.ExpiryAccountedAlways | store/sql_lock_store.go:113-200 | in every run whose takeovers find expired rows and whose refreshes find what they read, each write that took effect relates to the one before it as the code intends, and the row is the last write |
| LeaseGuarantees.ExpiryClimbs | store/sql_lock_store.go:142-190 | between two DELETEs each write raises the expiry by at least 15 s |
| LeaseGuarantees.AcquisitionsAreSpaced | store/sql_lock_store.go:113-190 | two acquisitions with n - 1 writes and no DELETE between them read clocks 15n s apart at least, with no assumption on clocks or leases |
| LeaseGuarantees.TakeoverSucceedsOnceExpired | store/sql_lock_store.go:104-162 | an undisturbed takeover goes through if and only if the stored expiry has passed |
| LeaseGuarantees.DeadHolderIsReplaced | store/sql_lock_store.go:104-162 | 15 + 7.5k s after the death of a holder with k refreshes another instance takes over, alone |
| LockStore.Mutex.TryLock | store/sql_lock_store.go:103-133 | true exactly when nothing needed fails and the row is absent or expired; then the row is sec(now) + 15, otherwise the whole table is unchanged |
| LockStore.Mutex.ReleaseLock | store/sql_lock_store.go:135-162 | succeeds exactly on an expired row with a working transaction, and changes nothing else |
| LockStore.Mutex.GetExpireAt | store/sql_lock_store.go:164-173 | the stored expiry, an error when there is no row |
| LockStore.Mutex.RefreshLock | store/sql_lock_store.go:175-200 | adds 15 s to the stored expiry or leaves the table as it was |
| LockStore.Mutex.Lock | store/sql_lock_store.go:202-255 | an error at once without a connection; otherwise nil exactly when the first attempt that can win comes before the end of the context; the row, the channels and the pauses are then as stated |
| LockStore.Mutex.Unlock | store/sql_lock_store.go:257-278 | panics exactly without a session; otherwise closes both channels once, lets a refresh under way finish, then deletes the row |
| LockStore.TryLockFollowsProtocol | store/sql_lock_store.go:103-162 | the answer and effect of an attempt are those of serialised protocol steps |
| LockStore.RefreshFollowsProtocol | store/sql_lock_store.go:175-200 | so are those of a refresh |
| LockStore.UnlockFollowsProtocol | store/sql_lock_store.go:260-278 | so are those of Unlock, and the DELETE is impossible before the refresher has left |
| LockStore.PausesBounded | store/sql_lock_store.go:215-226 | each pause of Lock, worked out from the one before it, lies within the backoff bounds for that many failures |
| Backoff.NextWaitInterval | store/sql_lock_store.go:42-63 | the loop's local updates compute the specified next wait, in 64-bit arithmetic |
| Backoff.FailureDoubles | store/sql_lock_store.go:46-62 | after an error the wait doubles up to five minutes, plus jitter, without wrapping |
| Backoff.PollForgets | store/sql_lock_store.go:55-62 | without an error the wait is one second plus jitter |
| Backoff.WaitBounds | store/sql_lock_store.go:43-63 | after k failures, for every jitter: min(1.5 * 2^(k-1) + 0.25, 299.75) <= wait < min(2.5 * 2^(k-1) - 0.25, 300.25) s |
| Backoff.WaitSettles | store/sql_lock_store.go:23-33 | from the ninth failure on the wait is in [299.75, 300.25) s |
| UnlockHandshake.HandshakeIsSafe | store/sql_lock_store.go:231-278 | over every interleaving of Lock, Unlock and refreshers each stop channel is closed at most once, each session is unlocked by one goroutine, and its DELETE is its last commit |
| UnlockHandshake.FailedRefreshIsLast | store/sql_lock_store.go:236-246 | after a refresh of a session failed no refresh of it is begun or committed |
| UnlockHandshake.RefresherLeavesOnceStopped | store/sql_lock_store.go:236-246 | a refresher whose stop channel is closed can leave in two steps of its own, which lets Unlock go on |
| UnlockHandshake.InnerLockComesFree | store/sql_lock_store.go:249-270 | whoever holds the inner lock can give it back within four steps that need nobody who wants that lock |
| CherryPickQueue.QueueIsSound | server/cherry_pick.go:38-121 | in every reachable state the accepted requests are those taken, first in first out and each by one consumer, followed by the queue of at most 20; what a consumer took is what it finished plus what it is busy with; a handler was told its request is scheduled exactly when it was accepted |
| CherryPickQueue.ShutdownIsComplete | server/cherry_pick.go:60-77 | when the closing routine returns the queue is closed and empty; stopped: the worker ran every accepted request in order; timed out: each was run, is the one running, or was cancelled |
| CherryPickQueue.ClosedQueueShrinks | server/cherry_pick.go:60-77 | after closing nothing is accepted and each receive of the drain shortens the queue |
| CherryPickQueue.DrainEnds | server/cherry_pick.go:64-74 | from any state after the timeout the drain ends by itself in a number of steps given by the queue length |
| CherryPickQueue.PanicCondition | server/cherry_pick.go:104-119 | once the queue is closed a send on it can happen in some continuation if and only if a handler stands between its two selects |
| CherryPickQueue.QuietShutdownNeverPanics | server/cherry_pick.go:60-62 | if no handler stands there at the close, no run sends on the closed queue |
| CherryPickQueue.HandlerNeverWaits | server/cherry_pick.go:104-119 | at every point of every run a handler has its answer or can take its next step at once, and it has its answer after two steps of its own, one when the server is stopping |
| CherryPickQueue.AnswerTellsQueue | server/cherry_pick.go:104-119 | over every interleaving the answer a handler has fits the moment of its own select: fewer than 20 requests queued and its own accepted, exactly 20 queued, or the stop channel closed |
| CherryPickHandler.GuardMatchesCommand | server/issue_comment_handler.go:129-131 | the guard on the trimmed body holds exactly when the body has the command |
| CherryPickHandler.CommandIsSuffix | server/cherry_pick.go:124-127 | under the guard getCommand is in bounds, returns the suffix from the first command, and is idempotent |
| CherryPickHandler.VersionFollowsCommand | server/cherry_pick.go:90-112 | the version queued is the text between the first and the second space behind the command, or the end, less exactly the white space at its ends |
| CherryPickHandler.ArgumentAfterSpace | server/cherry_pick.go:91-98 | a command has no argument exactly when no space follows it |
| CherryPickHandler.ReleaseBranchOfVersion | server/cherry_pick.go:181-189 | v5.37.0 leads to release-5.37, v5.37.1 to release-5.37.1, and the cloud milestone to itself |
| CherryPickHandler.SelectsAgree | server/cherry_pick.go:104-119 | from every reachable state of the queue the stop check and the send, taken together, give the verdict the handlers by themselves give, and enqueue exactly then |
| CherryPickHandler.IsListed | server/github.go:244-260 | the search loop finds exactly the listed users |
| CherryPickHandler.Server.HandleCherryPick | server/cherry_pick.go:79-122 | for every combination of permission, merge state, argument, shutdown and room: the comment, the error, and what is enqueued; nothing once the server is stopping, and never more than 20 |
| CherryPickHandler.Server.CheckIfNeedCherryPick | server/cherry_pick.go:129-189 | one comment per approving label, in that order scheduled as far as there is room; every request enqueued is for this pull request and milestone, with release-5.37 for v5.37.0 and cloud for cloud |
| CherryPickHandler.Server.FinishCherryPickRequests | server/cherry_pick.go:60-77 | shutdown leaves the queue closed and empty; after the timeout the cancelled requests are, in order, exactly those of the queue that the worker did not win; none is cancelled if the worker stopped first |
| LabelReplies.MessageByUserContains | server/server.go:328-336 | true exactly when a comment of the user contains the text |
| LabelReplies.Thread.HandleLabeled | server/pull_request_handler.go:246-270 | one handler alone adds nothing its bot had said in the listing, and adds, in configuration order, each message asked for, not said and not lost in sending; such a loss stops nothing |
| LabelReplies.AloneAsHandled | server/pull_request_handler.go:246-270 | a handler of the interleaved model that nobody comes in between, from taking the comment lock to giving it back, adds the same comments |
| LabelReplies.DueIsNew | server/pull_request_handler.go:258-267 | a message about to be posted was never posted to that issue by any handler |
| LabelReplies.AtMostOnce | server/issue_handler.go:100-120 | over every interleaving of handlers and other comments no message is posted twice to an issue |
| LabelReplies.AtMostOnceCondition | server/pull_request_handler.go:258-267 | no run repeats a message if and only if the messages configured for one label differ after the author's name is filled in |
| LabelReplies.PlainMessagesStayDistinct | server/pull_request_handler.go:260 | for messages that do not name the author that is so if and only if the configured texts differ |
| LabelReplies.DistinctMessagesMayMerge | server/pull_request_handler.go:260 | a message that names the author and one that spells the name out differ as configured and are one when posted |
| LabelReplies.CleanHandlerHasReplied | server/pull_request_handler.go:246-270 | when a handler ended without failures, a bot comment contains each message asked for |
| Strings.ReplacesFirst | server/pull_request_handler.go:260 | replacing keeps the text before the first occurrence and goes on behind it |
| Strings.TrimSpaceKeeps | server/issue_comment_handler.go:130 | trimming neither hides nor makes an occurrence of a text without white space |
| Strings.TrimSpaceCuts | server/cherry_pick.go:112 | trimming cuts white space only, and all of it at both ends |
| PullRequestStore.Store.Save | store/sql_pull_request_store.go:21-39 | insert, else update: which columns change, and the Save that reports success without effect |
| PullRequestStore.Store.Get | store/sql_pull_request_store.go:41-58 | the stored row, or none |
| PullRequestStore.Store.ListOpen | store/sql_pull_request_store.go:60-72 | every open row once and no other |
| PullRequestStore.MilestoneNeverSaved | store/sql_pull_request_store.go:29-34 | no sequence of Saves changes a row's milestone |
| PullRequestStore.GetReturnsLastSave | store/sql_pull_request_store.go:21-58 | after any Saves, Get returns the columns saved last under the milestone the row began with |
| PullRequestStore.ListOpenFollowsLastSave | store/sql_pull_request_store.go:60-72 | after any Saves, ListOpen has exactly the keys last saved open, or untouched and open |
| ChangeDetection.Server.Compare | server/pull_request_handler.go:173-192 | the nested loops handle the first label missing on the other side, and report whether there is one |
| ChangeDetection.LabelsDiffer | server/pull_request_handler.go:194 | the two comparisons find nothing if and only if the labels agree as sets |
| ChangeDetection.AddedBeforeRemoved | server/pull_request_handler.go:194 | the label handled is the first added one; only if none was added the first removed one; none if and only if the sets agree |
| ChangeDetection.Server.FieldsDiffer | server/pull_request_handler.go:196-234 | the flag ends up set exactly when it was or one of the ten fields differs, absent read as zero |
| ChangeDetection.Server.CheckPullRequestForChanges | server/pull_request_handler.go:153-244 | changed exactly when labels or fields differ, saved exactly then, one label handled at most: the first added, else the first removed; a new pull request is saved and all its labels handled |
| ChangeDetection.Server.ProcessEvent | server/github.go:92-96 | a fetch with its Save followed by the check, for every failure: labels are handled if and only if the Save reported success without effect and the row can be read, a change is found if and only if the Save took effect and the milestone differs, and table and error are as stated |
| EventRaces.EventSeesLastWrite | server/pull_request_handler.go:42-192 | over every interleaving of events and other writers, an event compares its labels with the last write before it looked, so it handles a label if and only if that write came after its own Save and carried other labels |
| EventRaces.LostSaveSeesOthers | server/pull_request_handler.go:153-171 | after a Save without effect it handles all its labels when there is still no row, else the difference to the last write, which came in between |
| EventRaces.FirstSaverHandlesDifference | server/pull_request_handler.go:42-192 | of two overlapping events the one that saves first handles the difference of their labels, the other none |
| EventRaces.AloneAsProcessed | server/pull_request_handler.go:42-244 | with nobody in between the steps of an event have the effect ProcessEvent states |
| ChangeDetection.ChecksAfterSaveConverge | server/pull_request_handler.go:42-135 | after any number of Saves the check right after a Save handles no label, and its change never goes away while the row's milestone differs |
| ChangeDetection.Server.CleanOutdatedPRs | server/pull_request_handler.go:371-413 | exactly the open rows found closed before the rate limit hit, and whose update worked, change, and of them only the state |
| ChangeDetection.CleanPassLeavesNoStaleRow | server/pull_request_handler.go:371-413 | after a pass without errors no row is open that GitHub reported closed |
| IssueChanges.NewLabelsInOrder | server/issue_handler.go:72-80 | the filter holds the labels at exactly the places whose label is absent from the stored issue, in order |
| IssueChanges.FailureAt | server/issue_handler.go:84-86 | a failing handler is the last one called |
| IssueChanges.IssueServer.Save | store/sql_issue_store.go:21-35 | insert, else update |
| IssueChanges.IssueServer.HandleNewLabels | server/issue_handler.go:72-89 | the nested loops call the handler for the new labels in order, up to a failure |
| IssueChanges.IssueServer.CheckIssueForChanges | server/issue_handler.go:57-98 | a new issue is saved and the error is that of the Save; otherwise, without failures, the handled labels are the in-order filter and the issue is saved exactly when the state or that filter says so; a failing handler saves nothing |
| Pagination.WholeChainIsUnique | server/github.go:160-173 | a listing has one complete chain of pages, and none if a page of the chain cannot be read |
| Pagination.ListAll | server/github.go:153-198 | all items of the complete chain, page after page, or an error exactly when there is no such chain |
| Pagination.ConcatenationIsUnique | server/github.go:165 | the pages of a chain determine the result: nothing is lost, repeated or out of order |
| Pagination.OrgDirectory.RefreshMembers | server/server.go:126-151 | the members become the complete listing or stay as they were |
| ReviewPosition.ReviewMlog | server/review.go:22-80 | one review at most, on the first line in file and position order that begins with + and has either of the two calls, none if there is no such line; path without b/, position as counted |
| ReviewPosition.MatchStandsAtIndex | server/review.go:45-53 | the rendered diff of the file has that line at its index |
| ReviewPosition.PositionIsIndex | server/review.go:42-63 | the position sent is that index less the number of earlier hunks of the file without a final newline, hence that index if and only if there is none |
| ReviewPosition.PositionIsRight | server/review.go:42-63 | in a diff where only the last hunk of a file lacks the newline, the review stands at the line it is about |

## Left out

- SQL, drivers, connection lifetimes, column widths, collations and migrations: the tables are maps and statements succeed or fail.
- A DELETE or refresh that the database carries out after the instance has gone on without waiting for it.
- LockStore.Mutex.Lock: the unbounded loop runs over a finite script of turns, which ends when the context does; the choice between a context that ended and a wait that is over is the script's.
- LockStore.Mutex.Unlock: the refresher that runs beside it appears as at most one refresh under way; the interleavings are in UnlockHandshake and LeaseProtocol.
- LabelReplies.AtMostOnce: comments the bot posts through other code are comments by somebody; only posts by label handlers are counted.
- ChangeDetection.Server.ProcessEvent: nobody else writes the row between the Save and the check; other writers are in EventRaces.
- EventRaces: an event's labels are those it fetched; nothing is assumed about which of two events fetched later. The handlers called are in LabelReplies.
- `listenCherryPickRequests`: a loop of receives and opaque jobs that only makes sense beside the others; it is the worker of CherryPickQueue, not a method.
- ReviewPosition.ReviewMlog: positions are unbounded integers where the code counts in 32 bits; parsing the diff text into hunks is the library's.
- CherryPickHandler.Server.HandleCherryPick: a shutdown between the stop check and the send is in CherryPickQueue.
- The cherry-pick itself, the clone and the scripts: foreign processes; the worker's job is an opaque step.
- `Tick`, `AutoMergePR`, `CheckPRActivity`, merge blocking, CLA, community, translations, update-branch, auto-assign: branch-by-branch calls of the GitHub API.
- Webhook signatures, JSON, configuration, logging, metrics, the HTTP client and its cache.
