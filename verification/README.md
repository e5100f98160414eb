# Verification of the notification platform's stateful core

The platform sends notifications for many businesses. This project models the parts of it whose
correctness depends on whole histories, on stale reads or on wrapping arithmetic, and proves what
they guarantee.

* **Resend protocol** (`ResendProtocol`, `ResendSafety`, `ResendOutcomes`, `ResendArrivals`,
  `ImmediateSend`). Any number of calls of `ImmediateSendStrategy.Send` for one (bizID, key) run side
  by side. Every database statement and every channel call is one atomic action, and a run is a list
  of events, so a theorem over all event lists covers all interleavings. The imperative `Send` is
  proved to be a run of this machine under arbitrary interference.
* **Transactional notifications** (`TxDecision`, `CheckBound`, `CheckTotals`, `Scheduling`, `CheckBackJob`,
  `JobDecisions`, `Starvation`). Users commit and cancel while check-back jobs write results computed
  from stale reads. `Retry` and `Backoff` give the intervals between checks.
* **Consistent hashing** (`HashRing`), with an arbitrary hash function, so with collisions.
* **Callback draining** (`CallbackLogs`, `CallbackDrain`, `CallbackLoop`, `CallbackService`), whose page
  cursor goes back to 0 after a short page. `CallbackLoop` is the loop as a function of its
  environment; the imperative `SendCallback` is proved to make its iterations.
* **Incremental windows** (`SlidingWindow`, `BitRing`, `RingBuffer`, `BatchSize`, `HealthMonitor`), each
  proved against a definition over the full history.
* **Ids, hashing and routing** (`Words`, `HashMix`, `Snowflake`, `Sharding`).
* **Template placeholders** (`Placeholders`).

`GoInt` holds Go's wrapping 64-bit and 32-bit integers, truncating division and powers of two.

## What the proofs show about the code

Where a promise does not hold of the code as it is, the code was followed, and the condition under
which it does hold was proved; it is exact where it says "if and only if".

* *Resend.* A row is inserted as PENDING at version 1, and a retry may swap it while the creating
  call is still sending. `DuplicateDelivery` is such a run with two calls; the message goes out
  twice. Exclusion holds if and only if no swap succeeds under the creator (`ExclusionExactly`).
  What the row records is the channel's answer, and an error answer may hide a message that went out:
  the SMS provider answers with an error if one number of several was refused
  (internal/service/provider/sms/provider.go), and a lost response does the same. So two counts are
  kept, the deliveries answered with success and the messages that arrived.
  - Answered with success: a successful swap can be followed by a second one if and only if, when it
    succeeds, one is answered already, or the creator is about to send, or the creator is about to
    write FAILED and another call has yet to read the row (`SwapIsSafeExactly`). Without such a swap
    there is at most one (`DeliversAtMostOnce`), and if no swap succeeds under the creator the retriers
    together have at most one in any case (`RetriersSucceedAtMostOnce`). As long as error answers hide
    nothing, the same holds for the messages that arrive.
  - Arrived: after any run at all, a successful swap can be followed by a second message if and only if
    one is out already, or another call is about to send, or somebody has yet to read the row
    (`SwapArrivesOnceExactly`). `LostAnswerDuplicates` is a run without any overlap in which two
    arrive. A single message can be promised over all runs if and only if there is no retry at all
    (`SingleArrivalExactly`).
  - If the mark of a resend fails, the row stays SENDING for ever (`FailedMarkBlocks`).
* *Backoff.* With a maximum in (2^e, 2^(e+1)] the stateless form is exact for all initial intervals up
  to a bound if and only if the bound is at most 2^(64-j), where j is e, or one less than the limit on
  retries if that is smaller (`StatelessThreshold`). Retry number 0, which the callback
  service asks for first, waits the maximum (`RetryZeroWaitsMaximum`). The sequential form is exact
  for every call on any platform, with two exceptions that rest on how out-of-range floats convert:
  from call 64 on, if the initial interval is 1, the maximum 2^62 or more and 64 retries are permitted
  (`SequentialAtCall64`), and call 2^31, where the counter wraps, if the limit on retries kept the
  flag down (`SequentialAtTheWrap`). The repository's own
  test "初始间隔超过最大间隔" (`internal/pkg/retry/strategy/exponential_test.go`) expects no interval at all
  when the initial interval exceeds the maximum; the code returns the maximum, and so does the model.
* *Check-back.* The bound on the number of checks needs a retry limit and known status codes; without
  either a row is checked for ever (`ChecksForEver`). Rows answered with unknown codes stay due and
  earliest; as many of them as a batch holds keep every later row from ever being checked
  (`StarvedForEver`).
* *Batch size.* The step is added and subtracted in wrapping int64. The size stays in its bounds and
  moves by at most one step, for all initial sizes and runs, if and only if min + 1 - step and
  max - 1 + step fit an int64, or the buffer holds one sample, or min = max
  (`SizeStaysInBoundsExactly`).
* *Callbacks.* The drain loop need not end. Where each ready log either always or never gets a
  response, a pass ends if and only if the number of ready logs, or the number of those that never
  respond, is a multiple of the page size (`PassEndsExactly`). It also ends if the businesses respond
  from some call on (`ResponsiveEnds`).
* *Ring.* Answers are independent of history if and only if no two nodes share a virtual point
  (`HistoryIndependentExactly`), and adding and removing a fresh node undoes itself if and only if it
  took over no point (`AddThenRemoveExactly`).
* *Rate.* Rounding to float64 never makes the window's condition true, and loses it if and only if the
  true rate is above the threshold but rounds to it and the last events did not all happen
  (`RoundingLosesExactly`).
* *Average.* The average of one repeated value is that value if and only if the sum fits an int64
  (`RepeatedAverageExactly`); this is the condition under which the batch size stays still.
* *Routing.* The two paths agree for all hashes if and only if the number of tables divides 1024
  (`PathsAgreeExactly`).
* *Placeholders.* The output holds a placeholder again if and only if a match stood right behind a
  `$` (`PlaceholderLeftExactly`), and only then a second replacement changes it.

## Reading the model

Clocks, channel answers, replies of other services and database faults are parameters, events or
arbitrary choices. `Interference` stands for everything other callers do between two statements of
one call: its contract says how far they are confined, and nothing more is known about them.
A lock that covers a whole method makes the method one step.

## Model

| member | source | states |
|---|---|---|
| ResendSafety.ExclusionExactly | internal/service/sendstrategy/immediate.go:24-66 | Over a whole run of any number of calls, at most one is ever between obtaining the right to send and its mark, if and only if no swap succeeds while the creator is in flight |
| ResendSafety.DeliversAtMostOnce | internal/service/sendstrategy/immediate.go:37-64 | Without a dangerous swap the channel calls of the creator and all retriers together answer with success at most once, and at most one message arrives if error answers hid none; with no swap under the creator never two calls are in flight |
| ResendSafety.SwapIsSafeExactly | internal/service/sendstrategy/immediate.go:57-64 | In every run whose swaps were harmless, one more successful swap is followed by at most one success answer in all continuations, and by at most one message in those where error answers hide none, if and only if there was none yet, the creator is not about to send, and it is not about to write FAILED with a reader still to come |
| ResendArrivals.SwapArrivesOnceExactly | internal/service/sendstrategy/immediate.go:57-64 | Trusting no error answer, after any run: a successful swap is followed by at most one message in all continuations if and only if none is out, no other call is about to send and nobody has yet to read the row |
| ResendArrivals.ArrivesAtMostOnce | internal/service/sendstrategy/immediate.go:37-64 | Without a risky swap at most one message arrives, whatever the channel answers |
| ResendArrivals.LostAnswerDuplicates | internal/service/sender/sender.go:51-57 | With two calls or more, no overlap and no dangerous swap, a message behind an error answer and its resend both arrive |
| ResendArrivals.SingleArrivalExactly | internal/service/sendstrategy/immediate.go:24-66 | At most one message arrives in all runs if and only if there is no retry |
| ResendOutcomes.RetriersSucceedAtMostOnce | internal/service/sendstrategy/immediate.go:37-64 | With no swap under the creator at most one channel call of all retriers together answers with success over the whole run, and at most one of the creator |
| ResendProtocol.DangerIsOnTheFirstVersion | internal/service/sendstrategy/immediate.go:57-64 | Only a swap on the insertion version can lead to a second success answer |
| ResendSafety.SafeOnceCreatorHasMarked | internal/service/sendstrategy/immediate.go:37-64 | Once the insertion version is gone, every continuation, stale readers included, keeps exclusion and the single success answer, each if the past did not break it, and so the single message if error answers hide none |
| ResendOutcomes.SucceededIsFinal | internal/repository/dao/notification.go:201-220 | After SUCCEEDED no stale reader changes the row, sends anything or is in flight, unless a swap succeeded under the creator |
| ResendOutcomes.FailedMarkBlocks | internal/service/sender/sender.go:55-67 | If the mark of a resend fails, the row stays SENDING and nothing is ever sent again, whether the message went out or not |
| ResendOutcomes.FailedMeansUnconfirmed | internal/repository/dao/notification.go:222-231 | FAILED with nobody in flight means that no channel call answered with success |
| ResendOutcomes.ReportedSuccessWasDelivered | internal/service/sender/sender.go:47-73 | In every run, whatever overlaps, a caller told SUCCEEDED can rely on a message that arrived and was answered with success |
| ResendArrivals.DuplicateDelivery | internal/service/sendstrategy/immediate.go:24-66 | Two calls suffice for a double delivery, with a channel that hides nothing |
| ResendProtocol.VersionGrows | internal/repository/dao/notification.go:121-141 | A row's version never goes back, and an unchanged version means an unchanged row: the reason a stale swap fails |
| ResendProtocol.VersionCountsWrites | internal/repository/dao/notification.go:121-141 | A row starts PENDING at version 1, and every write counts the version up by one |
| ResendProtocol.ResponseTellsRow | internal/service/sendstrategy/immediate.go:43-64 | A call that ends reports what the row holds, written by itself or found SUCCEEDED; an error means that its last action changed nothing |
| ResendProtocol.ErrorMeansNotSent | internal/service/sendstrategy/immediate.go:51-61 | Without a database error a call ends with an error exactly if it found SENDING or lost the swap |
| ImmediateSend.NotificationTable.Create | internal/repository/dao/notification.go:287-312 | Insertion under the unique index: PENDING at version 1, or a duplicate, or an error; other rows are untouched and the step is one action of the machine |
| ImmediateSend.NotificationTable.GetByKey | internal/repository/dao/notification.go:102-109 | The row as it is now, and what the call goes on to do with each status |
| ImmediateSend.NotificationTable.CASStatus | internal/repository/dao/notification.go:121-141 | The swap succeeds only on the version read, sets SENDING and bumps the version; otherwise nothing changes |
| ImmediateSend.NotificationTable.MarkResult | internal/repository/dao/notification.go:201-231 | The mark writes the outcome without a guard and bumps the version |
| ImmediateSend.DeliverAndMark | internal/service/sender/sender.go:47-73 | Under interference: one delivery attempt, then exactly one outcome, reported as marked |
| ImmediateSend.Send | internal/service/sendstrategy/immediate.go:24-66 | Whatever others do in between, the call is a run of the machine that ends with its response; for a reported success a channel call answered with success |
| ImmediateSend.Resend | internal/service/sendstrategy/immediate.go:37-64 | The duplicate path is a run of the machine |
| Backoff.SequentialExact | internal/pkg/retry/strategy/exponential.go:33-54 | The k-th sequential call returns exactly min(initial * 2^(k-1), max), although products wrap in int64 and the counter in int32; refused exactly when the limit is exceeded. Up to call 63 on any platform, and beyond it unless initial = 1, max >= 2^62 and 64 retries are permitted; for call 2^31 the flag or the platform must help |
| Backoff.SequentialAtCall64 | internal/pkg/retry/strategy/exponential.go:39-45 | In that remaining case call 64 is exact if and only if the converted 2^63 is caught or is the maximum |
| Backoff.SequentialAtTheWrap | internal/pkg/retry/strategy/exponential.go:39-43 | At call 2^31 with the flag down, exponent 2^31-1: exact if and only if the converted power makes a product that is caught |
| Backoff.ExponentialBackoffRetryStrategy.NextWithRetries | internal/pkg/retry/strategy/exponential.go:29-48 | Answer and sticky flag of one evaluation |
| Backoff.ExponentialBackoffRetryStrategy.Next | internal/pkg/retry/strategy/exponential.go:51-54 | Called in sequence the object gives the mathematical backoff sequence for ever, also after its 32-bit counter wraps |
| Backoff.WrappedProduct | internal/pkg/retry/strategy/exponential.go:39 | A wrapped product is the same power of two times a smaller signed number |
| Backoff.StatelessExactByProduct | internal/pkg/retry/strategy/exponential.go:29-48 | If initial * max < 2^63, a fresh strategy is exact for every permitted retry number in 1..63 |
| Backoff.StatelessThreshold | internal/pkg/retry/strategy/exponential.go:29-48 | For max in (2^e, 2^(e+1)] and any limit on retries: exact for all initial intervals up to a bound if and only if the bound is at most 2^(64-j), with j the last exponent asked for below the maximum |
| Backoff.StatelessBreaks | internal/pkg/retry/strategy/exponential.go:39-45 | One above 2^(64-j) the answer to retry j+1 is 2^j, too short |
| Backoff.RetryZeroWaitsMaximum | internal/pkg/retry/strategy/exponential.go:39-43 | Retry number 0 waits the maximum, because 2^-1 is cut to 0 |
| Retry.NextInterval | internal/pkg/retry/retry.go:9-19 | A fresh strategy gives an interval exactly while the retry number is within the limit, without end for a limit of 0 or less, and never for an unknown type |
| Retry.ExponentialWaits | internal/domain/tx_notification.go:42-51 | The exponential policy waits at least a millisecond for every retry number if its two bounds do, its intervals are exact and the platform converts out-of-range floats to the least int64 |
| Retry.FixedBoundsExactly | internal/pkg/retry/strategy/fixed_interval.go:18-27 | All intervals of a fixed policy keep a lower or an upper bound if and only if the configured interval does, for every bound: it gives that interval and no other |
| Retry.ExponentialKeepsMaximum | internal/pkg/retry/strategy/exponential.go:33-48 | Every interval is positive and at most the maximum, whatever wraps |
| Retry.MilliAfter | internal/domain/tx_notification.go:34 | The last whole millisecond that is not after the end of the interval |
| TxDecision.LeavesPrepareOnce | internal/repository/dao/tx_notification.go:84-190 | In every interleaving of users and any number of jobs, after one event decided a row or one Commit or Cancel succeeded, no later event decides it, no later call succeeds, and the row never changes again |
| TxDecision.DecidedForever | internal/repository/dao/tx_notification.go:84-110 | A decided row is never changed, whatever stale results are still to be written |
| TxDecision.DecidedBySomeEvent | internal/repository/dao/tx_notification.go:148-190 | A decided row was decided by one event of the run, and stands as that event left it |
| TxDecision.WriteChecksKeeps | internal/repository/dao/tx_notification.go:84-110 | A batch of guarded updates changes no decided row and no row outside the batch |
| TxDecision.StatusExactly | internal/service/notification/check_back_task.go:131-160 | COMMITTED gives Commit, CANCELED gives Cancel; Fail comes exactly without configuration, or with no clear answer and no check-back left; PREPARE in exactly the remaining cases |
| TxDecision.CheckedTimes | internal/domain/tx_notification.go:30-51 | A check leaves terminal rows with time 0 and PREPARE rows with a later time; an unknown status code changes only the count |
| JobDecisions.JobDecidesAsAnswered | internal/service/notification/check_back_task.go:79-160 | In every run, a row that a job's write decides was in the batch of that job's last check, and the answer it got there explains its status |
| JobDecisions.DecidersAre | internal/repository/dao/tx_notification.go:84-190 | Only a user's call, with the status it asked for, or a job's write decides a row |
| CheckBound.KeptWithinLimit | internal/service/notification/check_back_task.go:131-160 | One check keeps a row in PREPARE exactly if the answer was UNKNOWN or an error and its new count is within the limit |
| CheckBound.BoundIsExact | internal/service/notification/check_back_task.go:131-160 | A row of count c that never gets a clear answer is still in PREPARE after j checks if and only if j < max(1, MaxRetries+1-c) |
| CheckBound.ChecksAreBounded | internal/service/notification/check_back_task.go:59-129 | In every run with one job and any users, a row inserted with count c and asked about with known answers is asked about at most max(1, MaxRetries+1-c) times, plus once for each lost write, whatever is answered about other rows |
| CheckTotals.BatchesAreBounded | internal/service/notification/check_back_task.go:59-129 | In every such run all questions about all rows, and all batches with a question, are at most the bounds of the inserted rows together plus the lost writes |
| CheckBound.ChecksForEver | internal/service/notification/check_back_task.go:131-160 | With no retry limit, or one that every int32 meets, or with unknown status codes, a row stays in PREPARE after any number of checks |
| Scheduling.FirstCheckIsDue | internal/service/notification/tx_notification.go:67-74 | A prepared row is due exactly from the initial delay after its preparation on |
| Scheduling.NeverDueUnconfigured | internal/service/notification/tx_notification.go:67-74 | A row prepared without a configuration is due at no time |
| Scheduling.UnscheduledIsLeftToUsers | internal/service/notification/tx_notification.go:67-75 | A row prepared without a transaction configuration is never held or asked about by any of any number of jobs, and never fails |
| Scheduling.OnlyUsersDecide | internal/repository/dao/tx_notification.go:70-82 | If such a row is decided, then by a Commit or Cancel of a user, and stands as that call left it |
| CheckBackJob.TxNotificationTable.Prepare | internal/repository/dao/tx_notification.go:148-172 | Insertion that leaves an existing row alone, or a database error that changes nothing |
| CheckBackJob.TxNotificationTable.UpdateStatus | internal/repository/dao/tx_notification.go:174-190 | Unless the database fails, a Commit or Cancel succeeds exactly on a PREPARE row, changes its status only, and is then the winning call of the run; otherwise nothing changes |
| CheckBackJob.TxNotificationTable.FindCheckBack | internal/repository/dao/tx_notification.go:70-82 | The due rows with the earliest check times, in that order, at most `limit` of them, each once and as it is now |
| CheckBackJob.TxNotificationTable.UpdateCheckStatus | internal/repository/dao/tx_notification.go:84-110 | One transaction of guarded updates, all or nothing |
| CheckBackJob.OneBackCheck | internal/service/notification/check_back_task.go:131-160 | For each answer the whole resulting row: status, count, and the next check time to the millisecond |
| CheckBackJob.CheckBatch | internal/service/notification/check_back_task.go:79-121 | Every outcome of the batch is in exactly one of the retry, fail and commit lists, by its status |
| CheckBackJob.OneLoop | internal/service/notification/check_back_task.go:59-129 | Whatever others do in between, one iteration of the job takes exactly its steps (read, check the whole batch, write all three lists, each even if another failed) and reports success if and only if none of them failed |
| Starvation.StarvedForEver | internal/repository/dao/tx_notification.go:74-79 | With any number of jobs, once as many rows as a batch holds are due before a row and only ever answered with unknown codes, that row is never asked about again |
| Starvation.StaysStep | internal/service/notification/check_back_task.go:151-159 | A row answered with unknown codes stays undecided and due at its old time, in the table and in every job's hands |
| HashRing.OwnerIsSuccessor | internal/pkg/grpcx/balancer/hash/hash.go:90-97 | The owner of a hash is the least point not below it, and if there is none the least point of all |
| HashRing.AddMovesOnlyToNewNode | internal/pkg/grpcx/balancer/hash/hash.go:27-46 | Every key whose answer changes by adding a node now maps to that node, collisions included |
| HashRing.RemoveMovesOnlyFromNode | internal/pkg/grpcx/balancer/hash/hash.go:48-77 | On every ring, every key not mapped to the removed node keeps its node |
| HashRing.RemovedNodeIsGone | internal/pkg/grpcx/balancer/hash/hash.go:60-77 | A removed node is never answered |
| HashRing.RingHoldsPresent | internal/pkg/grpcx/balancer/hash/hash.go:27-77 | With no shared points, after any history the ring holds exactly the points of the present nodes |
| HashRing.HistoryIndependent | internal/pkg/grpcx/balancer/hash/hash.go:27-77 | Two histories with the same present nodes give the same ring |
| HashRing.HistoryIndependentExactly | internal/pkg/grpcx/balancer/hash/hash.go:27-77 | Over a set of nodes, histories that leave the same nodes present always give the same ring if and only if no two of the nodes share a point |
| HashRing.OrderMattersExactly | internal/pkg/grpcx/balancer/hash/hash.go:35-40 | Two nodes can be added in either order if and only if they share no point |
| HashRing.AddThenRemoveExactly | internal/pkg/grpcx/balancer/hash/hash.go:27-77 | Adding and removing a fresh node undoes itself if and only if it took over no point |
| HashRing.VirtualKeysDiffer | internal/pkg/grpcx/balancer/hash/hash.go:36 | Different virtual points have different keys, so a collision is one of the hash function |
| HashRing.VirtualKeyReads | internal/pkg/grpcx/balancer/hash/hash.go:36 | A virtual point's key is the node, a '#' and digits that read back as its number |
| HashRing.PointsNumbered | internal/pkg/grpcx/balancer/hash/hash.go:35-37 | A node's points are the hashes of its keys numbered from 0 |
| HashRing.Ring.AddNode | internal/pkg/grpcx/balancer/hash/hash.go:27-46 | The new node owns all its points and the key array stays sorted with exactly the ring's keys, longer by the number of virtual points |
| HashRing.Ring.RemoveNode | internal/pkg/grpcx/balancer/hash/hash.go:48-77 | All points of the node and its first listing are gone, the others stay, and no key is held twice |
| HashRing.Ring.GetNode | internal/pkg/grpcx/balancer/hash/hash.go:80-98 | The binary search with wraparound answers the first point clockwise from the key's hash |
| HashRing.Ring.NodeCount | internal/pkg/grpcx/balancer/hash/hash.go:100-104 | Counts entries of the key array: virtual points, and points that were taken over once more, and not nodes |
| HashRing.SortPoints | internal/pkg/grpcx/balancer/hash/hash.go:43-45 | Sorted, and a permutation |
| HashRing.Search | internal/pkg/grpcx/balancer/hash/hash.go:90-92 | The first index whose key is not below the hash |
| CallbackLogs.RetryBudget | internal/service/notification/callback/callback.go:137-162 | Over any number of passes a log's retry count never exceeds MaxRetries+1, and it is FAILED exactly at refusal MaxRetries+2 |
| CallbackLogs.TerminalIsFinal | internal/repository/dao/callback_log.go:42-48 | A SUCCEEDED or FAILED log is never attempted again and never changes |
| CallbackLogs.RefusedForEver | internal/service/notification/callback/callback.go:149-160 | With no retry limit, or one that every int32 meets, a log can be refused any number of times |
| CallbackLogs.AnswerLeavesReady | internal/service/notification/callback/callback.go:137-162 | Any answered attempt takes a log out of the ready set; an attempt without a response leaves it in |
| CallbackLogs.RefusedIsReadyAgain | internal/service/notification/callback/callback.go:149-160 | A refused log stays PENDING exactly while the policy gives an interval, and is ready again exactly for passes that start no earlier than the millisecond in which the interval ends |
| CallbackDrain.PageShrinksReady | internal/service/notification/callback/callback.go:120-135 | The attempts on a page remove from the ready set exactly the logs that got a response |
| CallbackDrain.PageUnique | internal/repository/dao/callback_log.go:42-48 | The query has one answer: the smallest ready ids above the cursor, ascending |
| CallbackDrain.BeyondFullPage | internal/repository/dao/callback_log.go:54-56 | Beyond a full page just the rest of the ready logs is ready, whatever was answered |
| CallbackLoop.PassEndsExactly | internal/service/notification/callback/callback.go:48-75 | Where each ready log always or never gets a response, a pass ends if and only if the ready logs or the silent ones fill whole pages |
| CallbackLoop.NeverEnds | internal/repository/callback_log.go:30-32 | Otherwise every page, after any number of iterations, holds a log |
| CallbackLoop.FullPagesEnd | internal/service/notification/callback/callback.go:48-75 | If the ready logs above the cursor fill whole pages the loop ends, whatever is answered |
| CallbackLoop.ResponsiveEnds | internal/service/notification/callback/callback.go:48-75 | The loop ends if the logs respond from some call on |
| CallbackLoop.SteadyPassLeaves | internal/service/notification/callback/callback.go:48-75 | Such a pass leaves exactly the silent logs ready |
| CallbackLoop.ResponsivePassDrains | internal/service/notification/callback/callback.go:48-75 | If every call gets a response, a pass that ends attempted each ready log exactly once, by ascending id, and left none ready |
| CallbackLoop.PassAttempts | internal/service/notification/callback/callback.go:48-75 | Whatever is answered, only logs ready at the start are attempted, the answered ones once, and when the pass ends all of them were |
| CallbackService.CallbackService.Find | internal/repository/dao/callback_log.go:39-59 | The smallest ready ids above the cursor, ascending; the cursor goes back to 0 on a short page |
| CallbackService.CallbackService.SendCallbackAndSetChangedFields | internal/service/notification/callback/callback.go:137-162 | For each answer the whole resulting log, the next retry time to the millisecond; an error leaves it alone |
| CallbackService.CallbackService.CallPage | internal/service/notification/callback/callback.go:120-134 | Every log of the page is called once in order, and saving the collected updates amounts to replaying the calls |
| CallbackService.CallbackService.Update | internal/repository/dao/callback_log.go:66-85 | One transaction; an error writes nothing |
| CallbackService.CallbackService.SendCallback | internal/service/notification/callback/callback.go:48-75 | Makes the iterations of the loop one by one and stops at the first empty page, or with an error exactly for a failed statement; terminates if the page size is 0, the ready logs or steadily silent ones fill whole pages, or businesses respond from some call on; then exactly the logs ready at the start were attempted |
| CallbackLoop.PassedStep | internal/repository/callback_log.go:30-32 | Whatever the responses, no ready log at or below the cursor has been passed over, also when the cursor goes back to 0 |
| CallbackLoop.IterateSweeps | internal/repository/callback_log.go:24-39 | The cursor invariant: with all responses, every log still ready lies above the cursor and above all attempted ids, although the cursor goes back to 0 |
| SlidingWindow.RepresentsStep | internal/pkg/bitring/bitring.go:58-80 | Overwriting the oldest cell of a ring and moving on represents the window slid by one |
| SlidingWindow.LatestAt | internal/pkg/bitring/bitring.go:96-97 | The i-th latest event is found i cells back, around the end |
| BitRing.WriteThenRead | internal/pkg/bitring/bitring.go:124-139 | Writing a bit of an int64 and reading any bit by arithmetic shift, the sign bit included |
| BitRing.CountSlides | internal/pkg/bitring/bitring.go:63-72 | The event count moves with the window |
| BitRing.BitRing.constructor | internal/pkg/bitring/bitring.go:34-56 | Defaults and clamped parameters; an empty window |
| BitRing.BitRing.SetBit | internal/pkg/bitring/bitring.go:131-139 | Exactly one event of the packed words changes |
| BitRing.BitRing.Add | internal/pkg/bitring/bitring.go:59-80 | The packed words are the last min(n, size) events in order and `eventCount` is their number of trues |
| BitRing.BitRing.IsConditionMet | internal/pkg/bitring/bitring.go:84-113 | The condition on the packed ring is the condition on the list of the last events, for any rounding of the rate |
| BitRing.ConditionExactly | internal/pkg/bitring/bitring.go:88-113 | With exact rates: all of the last `consecutive` events happened, or more than threshold times the window did |
| BitRing.MoreEventsKeepCondition | internal/pkg/bitring/bitring.go:88-113 | Under any monotone rounding, one more event that happened never takes the condition away |
| BitRing.RoundingLosesExactly | internal/pkg/bitring/bitring.go:109 | Against the exact rate, rounding adds no case and loses one exactly if the rate is above the threshold but rounds to it and the last events did not all happen |
| RingBuffer.AverageIsExact | internal/pkg/ringbuffer/ringbuffer.go:57-65 | The reported average is the true one rounded toward zero whenever the window's own sum fits, even if the running sum wrapped on the way |
| RingBuffer.RepeatedAverageExactly | internal/pkg/ringbuffer/ringbuffer.go:57-65 | The average of one repeated value is that value if and only if the sum fits an int64 |
| RingBuffer.SumSlides | internal/pkg/ringbuffer/ringbuffer.go:44-51 | Subtracting and adding in wrapping arithmetic gives the wrapped sum of the slid window |
| RingBuffer.NewTimeDurationRingBuffer | internal/pkg/ringbuffer/ringbuffer.go:23-35 | An error exactly for a capacity that is not positive, otherwise an empty buffer |
| RingBuffer.TimeDurationRingBuffer.Add | internal/pkg/ringbuffer/ringbuffer.go:39-53 | Buffer, count and sum stand for the last samples after any number of calls |
| RingBuffer.TimeDurationRingBuffer.Avg | internal/pkg/ringbuffer/ringbuffer.go:57-65 | The average of the window of the history |
| RingBuffer.TimeDurationRingBuffer.Clear | internal/pkg/ringbuffer/ringbuffer.go:82-93 | An empty history again |
| BatchSize.SizeStaysInBoundsExactly | internal/pkg/batchSize/ringbuff_adjuster.go:23-89 | For all initial sizes and runs the size is in its bounds and the next call moves it by at most one step, if and only if no step leaves the 64-bit integers or nothing can move |
| BatchSize.StepWraps | internal/pkg/batchSize/ringbuff_adjuster.go:72-83 | Any adjustment whose sum leaves int64 moves the size by more than a step |
| BatchSize.MovesExactly | internal/pkg/batchSize/ringbuff_adjuster.go:58-84 | With a full buffer and the cooldown over, the size gets smaller exactly for a response above the average and larger exactly for one below, unless it is at that bound; by the step or to the bound |
| BatchSize.LatestAdjustment | internal/pkg/batchSize/ringbuff_adjuster.go:63-83 | The remembered time is that of the latest adjustment of the run, and none if there was none |
| BatchSize.StartIsNearest | internal/pkg/batchSize/ringbuff_adjuster.go:27-32 | The initial size is the nearest one within the bounds |
| BatchSize.NoMoveBeforeFull | internal/pkg/batchSize/ringbuff_adjuster.go:58-61 | Nothing moves before the buffer is full |
| BatchSize.AdjustmentsAreSpaced | internal/pkg/batchSize/ringbuff_adjuster.go:63-66 | Any two adjustments of a run are at least the cooldown apart |
| BatchSize.RepeatedValueIsStill | internal/pkg/batchSize/ringbuff_adjuster.go:68-84 | A full buffer of one repeated value never moves the size while its sum fits; where the sum wraps, between the bounds and outside the cooldown it moves it if and only if the step is positive |
| BatchSize.RingBufferAdjuster.constructor | internal/pkg/batchSize/ringbuff_adjuster.go:23-46 | The initial size is clamped into its bounds and the buffer has its default length if none is given |
| BatchSize.RingBufferAdjuster.Adjust | internal/pkg/batchSize/ringbuff_adjuster.go:52-89 | One call on the object, ring buffer included, is one step of the controller over the full history |
| HealthMonitor.VerdictStep | internal/pkg/database/monitor/monitor.go:79-97 | One more ping changes the verdict exactly if it completes three equal pings |
| HealthMonitor.VerdictUnique | internal/pkg/database/monitor/monitor.go:79-97 | Every ping history has one verdict only |
| HealthMonitor.ThreeInARow | internal/pkg/database/monitor/monitor.go:79-97 | Three equal pings in a row decide whatever came before; one or two after a different one change nothing |
| HealthMonitor.TripleIsTrailing | internal/pkg/database/monitor/monitor.go:79-97 | Why resetting counters suffice: a triple ends at a ping exactly if the run before it has two or more, and inside a longer run the verdict already agrees |
| HealthMonitor.Heartbeat.HealthOneLoop | internal/pkg/database/monitor/monitor.go:79-97 | Health is the outcome of the latest three consecutive equal pings, true if there were none; both counters stay below 3 and one of them is 0 |
| HashMix.MixIsBijective | internal/pkg/hash/hash.go:31-50 | For every salt the mixing step has a two-sided inverse on 64-bit words |
| HashMix.MixSeparates | internal/pkg/hash/hash.go:31-50 | Two words are mixed to the same word only if they are equal |
| HashMix.SaltSeparates | internal/pkg/hash/hash.go:39-40 | One word under two salts is mixed to the same word only if the salts are equal |
| HashMix.MixCollidesExactly | internal/pkg/hash/hash.go:31-50 | Two words under two salts collide if and only if they differ by the xor of the salts after the first prime was added |
| HashMix.MixOfZeros | internal/pkg/hash/hash.go:33-47 | The mixed word of zeros, which fixes the steps and their constants |
| HashMix.HashIsNonNegative | internal/pkg/hash/hash.go:16-29 | The hash is a non-negative int64, and only the top bit of the mixed word is dropped |
| HashMix.CombinedKeysDiffer | internal/pkg/hash/hash.go:17-18 | Two (business, key) pairs are combined to the same text only if they are equal |
| HashMix.CombinedKeyReads | internal/pkg/hash/hash.go:18 | The combined text is the business in decimal, which reads back, a ':' and the key |
| Snowflake.ExtractsWhatWasPacked | internal/pkg/id_generator/snowflake.go:49-77 | For all inputs the id is non-negative and the three extractors return the packed fields modulo their widths |
| Snowflake.TimestampsKeepOrder | internal/pkg/id_generator/snowflake.go:49-67 | For timestamps below 2^41 the round trip is exact, the conversion to nanoseconds does not overflow, and later timestamps give larger ids |
| Snowflake.CollisionExactly | internal/pkg/id_generator/snowflake.go:57-60 | Two ids are equal if and only if all three fields agree modulo their widths |
| Snowflake.IdsAreDistinct | internal/pkg/id_generator/snowflake.go:49-62 | Ids of one generator are distinct if calls of one millisecond are fewer than 4096 calls apart, also when the counter wraps |
| Snowflake.IdTellsRequest | internal/pkg/id_generator/snowflake.go:49-77 | Every id of a generator tells the hash, the number of the call and the time of its request, each within its field |
| Snowflake.EpochIs2024 | internal/pkg/id_generator/snowflake.go:26 | The epoch is the first of January 2024 |
| Snowflake.Generator.GenerateID | internal/pkg/id_generator/snowflake.go:49-62 | Every id handed out is the packed one of its place in the sequence of calls, and its fields are those of the request |
| Sharding.RouteDigits | internal/pkg/sharding/sharding.go:30-40 | Database and table are the two digits of the hash modulo the number of tables |
| Sharding.RouteBijection | internal/pkg/sharding/sharding.go:30-52 | Two hashes have the same route if and only if they agree modulo the number of tables |
| Sharding.RouteNames | internal/pkg/sharding/sharding.go:34-39 | The table's name is the table prefix, an underscore and digits that read back as the table's number; the database's name likewise with the database prefix |
| Sharding.ExtractKeepsExactly | internal/pkg/sharding/sharding.go:86-91 | A table name is given back unchanged if and only if it is the table prefix, an underscore and a part without one |
| Sharding.ExtractKeepsRouted | internal/pkg/sharding/sharding.go:86-91 | Every routed table name is given back unchanged |
| Sharding.NamesTellRoutesApart | internal/pkg/sharding/sharding.go:34-39 | Two routes with the same database name and table name are the same route |
| Sharding.EveryTableIsReached | internal/pkg/sharding/sharding.go:30-52 | Every database and table is the route of some hash |
| Sharding.PathsAgreeExactly | internal/pkg/sharding/sharding.go:42-52 | Routing by key and routing by the ten hash bits of an id agree for all hashes if and only if the number of tables divides 1024 |
| Sharding.ShardAgreesWithID | internal/pkg/sharding/sharding.go:30-52 | Then a key and every id generated for it have the same route |
| Sharding.GeneratedIdRoutes | internal/pkg/sharding/sharding.go:42-52 | Every id of a generator routes like the key that it was generated for |
| Placeholders.MatchIsPlaceholder | internal/service/template/manage/manage.go:475 | The scan's match is the one and only front part of a text that matches the expression; an empty body is no match |
| Placeholders.ScanRebuilds | internal/service/template/manage/manage.go:475-480 | Putting every match back in its place rebuilds the content |
| Placeholders.ScanIsScan | internal/service/template/manage/manage.go:475-480 | The scan is leftmost and does not overlap: every match is a placeholder and none starts in a literal |
| Placeholders.ScanIsUnique | internal/service/template/manage/manage.go:475-480 | A content has only one such decomposition |
| Placeholders.NumberedInOrder | internal/service/template/manage/manage.go:476-480 | In every such decomposition the literals stay and the matches become {1}, {2}, ... in order |
| Placeholders.MarkerReads | internal/service/template/manage/manage.go:478 | A marker is digits in braces that read back as its number |
| Placeholders.ReplacePlaceholders | internal/service/template/manage/manage.go:470-482 | Other providers get the content unchanged; for tencentcloud the scan with a running counter gives the numbered decomposition |
| Placeholders.PlaceholderLeftExactly | internal/service/template/manage/manage.go:475-480 | The output holds a placeholder again if and only if some match stood right behind a `$` |
| Placeholders.SecondPassIsIdleExactly | internal/service/template/manage/manage.go:470-482 | A second replacement changes nothing if and only if no match stood right behind a `$` |

## Left out

- gRPC servers, interceptors, wiring, tracing, metrics, Kafka and the SMS clients: plumbing.
- GORM, MySQL and Redis: a table is a map, and each statement or transaction is one atomic step that happens or fails as a whole.
- FNV-1a and CRC-32: any function with their result type.
- Looking up a duplicate by the row `Create` returned (internal/service/sendstrategy/immediate.go:38): that row is empty on an error, so the model takes the key from the request, as is meant.
- Fields of a notification other than status and version, its quota, and the callback that follows a mark.
- The receivers of one message one by one: a message counts as arrived as soon as the channel call got through to any of them.
- `BatchSend` and the batch status and timeout updates (internal/repository/dao/notification.go:178-187 and 259): their conditions do not match their purpose.
- Agreement of the transaction table with the notification table: the notification update at internal/repository/dao/tx_notification.go:102-105 is unguarded, and lines 167-169 write the transaction row a second time. Only the transaction row's decision is modelled.
- The raw statement at internal/repository/dao/tx_notification.go:89 lacks quotes around its values; it is modelled as the guarded update it is meant to be. Likewise line 75 runs the query once before the limit is set; it is modelled as one limited query.
- CheckBackJob.TxNotificationTable.Prepare: takes the first check time as a parameter; `Scheduling.FirstCheckTime` is how it is computed.
- CheckBackJob.CheckBatch: checks the rows one after the other; the code does so concurrently, and the contract compares the lists as multisets, which no order of the appends changes.
- CheckBound.ChecksAreBounded: is about one job, as the job's lock intends; with more jobs a row can be asked about by several of them at once. Lost writes, each of which costs a check, are counted separately.
- CallbackLogs: a policy of unknown type gives FAILED, where the code would stop on a strategy that is nil (internal/service/notification/callback/callback.go:151-152).
- CallbackService.CallbackService.SendCallback: assumes that no one else writes the logs during a pass and, for what a pass achieves, that intervals are at least a millisecond and the clock is not before `startTime`. A negative page size, which the database takes as no limit, is not modelled.
- CallbackLoop.PassEndsExactly: is about logs that always or never get a response; for answers that come and go it is only known when the loop ends, not when it does not.
- `SendCallbackByNotification` and `SendCallbackByNotifications`: selection by notification id around the same calls.
- BitRing.BitRing.IsConditionMet: takes the rounding of float64 as an arbitrary function; `RoundingLosesExactly` assumes of it that it is monotone and keeps the threshold.
- Backoff.SequentialExact: leaves to the platform what Go leaves to it, the conversion of a float64 beyond int64; `Config.Exact` says which calls need it.
- The integer width of versions and of stored retry counts: versions grow by one a write; retry numbers are cut to 32 bits where the code does so. The size controller's step may be negative in the code; its bounds are stated for a step of 0 or more.
- The getters of the objects, and `ExtractTimestamp`'s time value beyond its nanoseconds.
- `ShardingStrategy.Broadcast` (internal/pkg/sharding/sharding.go:54-68): both loops run over the databases, so it does not enumerate the tables.
- The provider load balancer, the sequential selector, `ShardingLoopJob`, the quota scripts, the business-configuration cache and the rest of template management: their code does not do what its comments intend, or is bookkeeping.
