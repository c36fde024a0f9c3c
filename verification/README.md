# miniMiniHub: verified model of the durable report queue and its neighbours

This project models the parts of miniMiniHub that have to keep a promise over time, and proves those promises for
every input, every interleaving and every run.

* **The durable queue** (`BigEndian`, `Bolt`, `QueueModel`, `Store`, `QueueRuns`). Each named queue is a bucket of
  8-byte big-endian keys. `Store.Store` is the store as the program has it: one transaction per call, which commits or
  rolls back, and a lease that walks the bucket with a cursor and rewrites entries in place. Its methods are proved
  against an id-keyed queue (`QueueModel`), and `QueueRuns` proves properties of that queue over whole runs: any
  sequence of committed enqueues, leases, acks and nacks, by any number of consumers with any clock readings, with
  stored values becoming unreadable at any point. Rolled-back transactions and restarts leave the queue as it was, so
  they need no place in a run. The store carries the history of each queue, and its invariant says that the bucket is
  what the run of that history makes, so that what `QueueRuns` says of runs holds of the byte-keyed store.
* **The drain protocol** (`Drain`, `DrainTermination`, `DrainLiveness`). One loop leases reports in batches of 5, pushes them to the
  parent and settles them, while pushes fail, transactions roll back, new reports arrive, stored values are damaged and
  the process restarts between any two steps. At-least-once delivery is proved over every run, together with a bound on
  the work done for each report. `DrainLiveness` proves that each is settled in the end while new ones keep arriving:
  over any events that make enough progress, and by a bounded number of ticks on the loop's own schedule.
  `BatchWorker.BatchWorker.DrainTick` is the loop body itself; `DrainTermination.TickIsARun` shows that the operations
  it commits are a run of the protocol.
* **The batch scheduler** (`BatchJobs`, `BatchWorker`, `BatchConfig`, `Scheduler`, `RunIds`). Declarative
  reconfiguration, the anti-overlap flags of concurrent firings, one report per firing, recovery of the configuration
  after a crash, and the run ids with the decimal conversion they rest on.
* **The egress relay** (`Relay`, `Handoff`). Two copy loops in each direction over a stream of frames, and the handoff
  of waiting client connections by connection id.
* **The bus and mail delivery** (`Bus`, `Smtp`).

Conventions. Ids, sequence counters and persistent counters are 64-bit and wrap; properties of ids say that fewer than
2^64 were drawn, and `SequenceCountsEnqueues` and `ConnSeqCounts` say what the counters hold in general. Time stamps
are mathematical integers handed in by the caller. The JSON text of a queue entry is represented by whether it parses
and to what. Which payloads decode, which schedules the cron library accepts, how pushes, runners, name lookups and
mail sessions turn out, and which transactions fail, are parameters. The results of a queue operation say something
about the queue only when there is no error: `id`, `attempts` and `kept` survive a rollback, as in the program. A
machine step that is not enabled does nothing, so that every sequence of events is a run and a theorem about all event
sequences is a theorem about all interleavings.

Where the code and its comments or interface definitions differ, the code is modelled: nacks use the constants 15 s and
20 attempts rather than the `backoff_ms` and `max_attempts` of a job; a job's `overlap` field is never read; the verdict
on an undeliverable mail is decided by the last mail host alone, even if an earlier one rejected the mail for good
(`Smtp.EarlierRejectionIsForgotten`); a configuration whose write fails is applied all the same and lost at the next
restart (`BatchConfig.UnpersistedIsForgotten`, `BatchConfig.RestartKeepsExactly`); first deliveries are in order only
as far as entries are ready in order (`QueueRuns.OvertakenExactlyWhenNotReady`); anti-overlap holds per configuration
and not across reconfigurations (`Scheduler.OverlapsExactly`); and a run id is repeated within one second when
no counter write commits in between, or when neither of two counter transactions begins (`RunIds.RunIdsAreUnique`).

Check everything with `dafny verify dfyconfig.toml` (Dafny 4.11; add `--verification-time-limit 0` on a slow machine).

## Model

| member | source | states |
|---|---|---|
| BigEndian.SeqKeyOrder | internal/store/queue.go:165-169 | over all 64-bit ids, byte order of keys is numeric order of ids, keys are injective and decode back |
| BigEndian.SeqKeyOnto | internal/store/queue.go:165-169 | every 8-byte key is the key of exactly one id |
| BigEndian.SeqKeyBytes | internal/store/queue.go:165-169 | the eight bytes of a key weigh as much as their places say, the most significant first |
| BigEndian.LexLessIsFirstDifference | internal/store/queue.go:69-70 | the order of keys is decided by the first byte in which they differ |
| Bolt.First | internal/store/queue.go:70 | a cursor starts at the least key in byte order, or nowhere in an empty bucket |
| Bolt.Next | internal/store/queue.go:70 | a cursor moves to the least key above the current one, or off the end |
| Bolt.FirstShowsLeastId | internal/store/queue.go:69-70 | read as ids, the cursor starts at the smallest id present |
| Bolt.NextShowsNextId | internal/store/queue.go:69-70 | read as ids, the cursor visits ids in ascending order and skips none |
| Store.Store.QueueEnqueue | internal/store/queue.go:38-54 | a committed enqueue appends a fresh entry under the next id; a rolled-back one changes nothing; other queues are untouched |
| Store.LeaseScan | internal/store/queue.go:69-88 | the in-place cursor loop returns the first `max` due entries in id order, marks exactly those, and keeps every other entry and the key set; after a failure it holds a first part of that list |
| Store.Store.QueueLease | internal/store/queue.go:58-91 | the lease transaction refines the id-keyed lease, commits or rolls back entirely, and leaves other queues alone |
| Store.Store.QueueAck | internal/store/queue.go:94-106 | a committed ack removes exactly the entry, present or not |
| Store.Store.QueueNack | internal/store/queue.go:111-145 | counts an attempt, then removes the entry at the limit or reschedules it; ignores absent and unreadable entries; says what `attempts` and `kept` mean |
| Store.Store.QueueDepth | internal/store/queue.go:148-163 | the number of keys is the number of entries: those ever enqueued less those acked while present and those nacked away |
| Store.StaysTracked | internal/store/queue.go:38-145 | each operation keeps the store's invariant that every queue is what the run of operations committed on it makes of an empty one |
| Store.Store.EntriesAreAccountedFor | internal/store/queue.go:38-163 | over the store's whole life, an entry of any queue is still there, was acked while there, or was nacked away |
| Store.Store.Incr | internal/store/store.go:64-80 | reads a missing or malformed counter as zero, adds one with 64-bit wrap, returns the new value even if the write is rolled back, and 0 if the transaction never begins; keeps other counters |
| Store.Store.PutBlob | internal/store/blob.go:10-18 | overwrites one blob or, on error, changes nothing |
| QueueModel.DueBelow | internal/store/queue.go:69-77 | the due entries in ascending order: exactly those that parse, are past their not-before time and not leased |
| QueueModel.LeasedAreFirst | internal/store/queue.go:70-86 | a due entry is passed over only when `max` entries with lower ids were taken |
| QueueModel.EnqueuedIsDue | internal/store/queue.go:46 | a new entry can be leased exactly from its enqueue time on |
| QueueModel.LeasedIsDue | internal/store/queue.go:75-78 | a leased entry can be leased again exactly when the lease is over; an entry passed over is as due as before |
| QueueModel.NackedIsDue | internal/store/queue.go:130-142 | a kept entry can be leased again exactly when its backoff is over, whatever lease it still had |
| QueueModel.EnqueueFields | internal/store/queue.go:45-51 | which entry an enqueue adds, field by field |
| QueueModel.LeaseFields | internal/store/queue.go:70-86 | a lease sets the lease time of the entries it takes, hands these out and leaves every other field and entry alone |
| QueueModel.AckFields | internal/store/queue.go:104 | an ack removes one entry and nothing else |
| QueueModel.NackFields | internal/store/queue.go:119-143 | a nack counts one attempt and either removes the entry, for any limit it has reached, or sets its not-before time to the clock reading plus the backoff and clears its lease; it touches nothing else |
| QueueRuns.SequenceCountsEnqueues | internal/store/queue.go:45 | the last id handed out is the number of enqueues modulo 2^64 |
| QueueRuns.EntriesKeepIdentity | internal/store/queue.go:38-54 | ids are 1, 2, 3, ... in enqueue order, and an entry keeps its id, payload and enqueue time for life |
| QueueRuns.LeaseReturnsWhatWasEnqueued | internal/store/queue.go:70-87 | a lease hands out under an id the payload enqueued under it |
| QueueRuns.FateIsPresence | internal/store/queue.go:93-145 | an id is in the queue exactly while its history says live; every issued id is live, acked or exhausted |
| QueueRuns.RemovalIsFinal | internal/store/queue.go:93-145 | no late ack, nack or lease brings a removed entry back or changes how it ended |
| QueueRuns.DepthIsConserved | internal/store/queue.go:148-163 | depth plus entries acked while present plus entries exhausted is the number enqueued |
| QueueRuns.AttemptsAreNacks | internal/store/queue.go:130-131 | a live entry's attempts are the nacks that reached it; leases and expiry never count |
| QueueRuns.LimitIsExact | internal/store/queue.go:132-134 | with one positive limit, an entry is exhausted exactly by its limit-th nack and never nacked more often |
| QueueRuns.NoLimitNeverExhausts | internal/store/queue.go:132-134 | without a positive limit nacks never remove an entry |
| QueueRuns.LeasesAreExclusive | internal/store/queue.go:75-78 | two leases of an entry without a nack between are a lease duration apart, for any consumers and clocks |
| QueueRuns.LeasesSpanTheirTotal | internal/store/queue.go:75-78 | any chain of un-nacked leases of an entry spans at least the sum of their durations |
| QueueRuns.EqualLeasesSpan | internal/store/queue.go:75-78 | k un-nacked leases of equal duration span at least k - 1 durations |
| QueueRuns.LeaseWaitsForBackoff | internal/store/queue.go:135-136 | the first lease after a kept nack is not before the nack time plus the backoff |
| QueueRuns.DueWhenReady | internal/store/queue.go:75-78 | over any run, a readable entry can be leased exactly from the time its last enqueue, lease or nack set: enqueue time, end of lease, end of backoff |
| QueueRuns.OvertakenExactlyWhenNotReady | internal/store/queue.go:75-78 | the exact condition of overtaking: a lease that takes a later entry leaves out an earlier readable one if and only if it comes before that time |
| QueueRuns.NewOvertakenExactly | internal/store/queue.go:75-78 | an entry nobody leased or nacked is overtaken exactly by leases before its enqueue time |
| QueueRuns.NackedOvertakenExactly | internal/store/queue.go:75-78 | an entry last nacked, by whomever, is overtaken exactly by leases before its backoff ends |
| QueueRuns.OrderIsKeptExactlyIfReady | internal/store/queue.go:56-87 | over a whole run, while an entry is readable, no later one is leased before its own first lease exactly if every lease of the later one comes when it is ready or was leased already |
| QueueRuns.FirstDeliveryIsFifo | internal/store/queue.go:56-87 | a lease that takes a new entry takes every earlier, readable new one that was enqueued no later, ahead of it |
| QueueRuns.NoOvertaking | internal/store/queue.go:56-87 | for any mix of operations, an entry is leased only after an earlier one, enqueued no later, was leased or became unreadable, if neither of the two was nacked before it was handed out |
| QueueRuns.FirstLeasesInOrder | internal/store/queue.go:56-87 | under the same condition on the two entries alone, their first leases happen in id order |
| QueueRuns.OvertakingWhenClockStepsBack | internal/store/queue.go:75 | the condition can fail: a concrete run in which enqueue times step back and the second entry overtakes the first |
| QueueRuns.OvertakingAfterBlindNack | internal/store/queue.go:111-142 | the condition can fail: a concrete run in which a nack of a never-leased entry lets the next one overtake it |
| Drain.InvariantKept | internal/worker/batch.go:205-235 | every step of the protocol keeps held items in the queue, with the payload they were enqueued with and the attempts made, and acks justified |
| Drain.TickEffectOnQueue | internal/worker/batch.go:213-214 | a tick takes up to 5 due reports for 60 s |
| Drain.SettleEffectOnQueue | internal/worker/batch.go:224-228 | after a push a delivered report is gone; a failed one has one more attempt and is due exactly from 15 s after the clock reading of its nack, unless it was the 20th; nothing else changes |
| Drain.DropEffectOnQueue | internal/worker/batch.go:220-222 | an undecodable report is dropped and nothing else |
| Drain.AtLeastOnce | internal/worker/batch.go:205-235 | over every run a committed report is in the queue, or its own payload was acknowledged by the parent, or it does not decode, or at least 20 pushes of it failed and exactly its 20th nack removed it; only a damaged one is in the queue unreadable |
| Drain.NacksAreFailedPushes | internal/worker/batch.go:224-226 | every nack of a report answers a failed push of it |
| Drain.PushesAreGenuine | internal/worker/batch.go:218-224 | the parent only ever acknowledges payloads that were enqueued under that id and decode |
| Drain.DrainLeasesAreExclusive | internal/worker/batch.go:20-24 | across restarts, two leases of a report with no nack between are 60 s apart |
| Drain.DrainIsFifo | internal/worker/batch.go:213-218 | of two reports the earlier, enqueued no later, is first taken up no later, unless it was damaged before and is never taken up |
| DrainTermination.SettlementsAreBounded | internal/worker/batch.go:218-232 | over every run, and for every range of ids, committed settlements plus attempts left never exceed 20 per enqueued report |
| DrainTermination.TwentySettlementsPerReport | internal/worker/batch.go:218-232 | no report is settled more than 20 times |
| DrainTermination.StepSpends | internal/worker/batch.go:218-232 | the measure strictly drops with every committed ack or nack, never grows with damage or restarts, and grows by at most 20 per enqueue |
| DrainTermination.TickSpends | internal/worker/batch.go:212-233 | a tick spends at least a unit per committed settlement and keeps exactly the unreadable entries |
| DrainTermination.ItemFate | internal/worker/batch.go:218-231 | what becomes of one leased item for each outcome of its push and its transaction, with the 15 s backoff counted from its own clock reading |
| DrainTermination.TickFate | internal/worker/batch.go:212-233 | what a whole tick makes of each report it took: as the lease left it, gone, or waiting 15 s from its own clock reading with one more attempt |
| DrainTermination.TickSpares | internal/worker/batch.go:212-233 | a tick leaves alone every report it did not take |
| DrainTermination.SentExactly | internal/worker/batch.go:218-230 | a batch delivers exactly the decodable items whose push succeeds, in id order |
| DrainTermination.TickIsARun | internal/worker/batch.go:212-233 | one tick of the loop is a run of the protocol with the same committed operations, the same queue and the same pushes |
| DrainLiveness.ProgressSpends | internal/worker/batch.go:205-235 | over any continuation of any run, settlements of the reports up to a given one use up the attempts these have left, until none is readable |
| DrainLiveness.EveryReportIsSettled | internal/worker/batch.go:203-235 | from any point of any run, whatever events follow, every report up to a given one is settled once as many of these events made progress as those reports have attempts left: delivered, undecodable, failed to be pushed 20 times, or damaged in the store |
| DrainLiveness.TwentyPerReport | internal/worker/batch.go:218-232 | twenty steps of progress per report are enough |
| DrainLiveness.DueTickTakesInHand | internal/worker/batch.go:212-218 | when a report up to a given one is due, a tick takes one of these reports in hand first |
| DrainLiveness.FirstSettlementProgresses | internal/worker/batch.go:218-231 | committing the settlement of that report is progress |
| DrainLiveness.UsefulExactlyWhenDue | internal/worker/batch.go:212-231 | a tick that commits the first settlement it makes makes progress exactly if one of the reports is due or none is left |
| DrainLiveness.RoundsAreARun | internal/worker/batch.go:205-235 | any number of ticks with new reports arriving between them are a run of the protocol |
| DrainLiveness.TicksEmptyTheQueue | internal/worker/batch.go:205-235 | however many new reports arrive and however pushes fail, ticks of which as many are useful as the reports up to an id have attempts left remove all of these that are readable; any other ticks may come early or idle |
| DrainLiveness.UsefulTicksExist | internal/worker/batch.go:205-235 | useful ticks can follow any queue, whatever arrives and whichever pushes fail |
| DrainLiveness.DueWithinAMinute | internal/worker/batch.go:23-24 | a minute after the latest clock reading of a run every report is due |
| DrainLiveness.ScheduleIsUseful | internal/worker/batch.go:206-225 | with a tick every three seconds or more, each committing the first settlement it makes, at least one of any 21 ticks is useful |
| DrainLiveness.ScheduleSettlesEveryReport | internal/worker/batch.go:203-235 | so on the schedule of the loop itself 420 ticks per report settle all of them, from any point of any run, while new ones arrive |
| DrainLiveness.TwentyFailuresAndNoFewer | internal/worker/batch.go:225 | the bound is exact: a lone report whose pushes all fail has one more attempt per useful tick and is gone with the 20th, not before |
| BatchWorker.BatchWorker.Settle | internal/worker/batch.go:218-231 | acks what is undecodable or delivered, nacks what failed, with the drain constants |
| BatchWorker.BatchWorker.SettleBatch | internal/worker/batch.go:218-232 | works through a leased batch in order, item by item: the queue, the committed operations and the deliveries |
| BatchWorker.BatchWorker.DrainTick | internal/worker/batch.go:212-233 | one loop body commits exactly the operations of a tick of the protocol: the queue after it, what was delivered, and no change when the lease fails |
| BatchWorker.BatchWorker.Configure | internal/worker/batch.go:87-122 | replaces the configuration entirely: last row per id, cron entries exactly of the enabled rows with an accepted schedule, a new free flag per job, none shared |
| BatchWorker.BatchWorker.Command | internal/worker/batch.go:87-122 | persists if it can, applies in any case; as a run of `BatchConfig`, it is a command received and then applied |
| BatchWorker.BatchWorker.Reload | internal/worker/batch.go:58-66 | start-up applies a non-empty decodable blob and otherwise, or if the read fails, leaves the configuration alone; in a new process it is a restart of `BatchConfig` |
| BatchWorker.BatchWorker.Fire | internal/worker/batch.go:138-175 | exactly one report attempt if the job has a flag and none otherwise: skipped if the flag was taken, failed if there is no runner or prompt, the result of the run otherwise; which id it carries and how many are drawn; a skip counted exactly when the flag was taken; flags end as they began |
| BatchWorker.BatchWorker.DrawIds | internal/worker/batch.go:153-179 | which ids a firing draws and which of them it reports under: a run that ran to its end its own, any other report a new one |
| BatchWorker.BatchWorker.Report | internal/worker/batch.go:145-174 | runs only while the flag is taken; the status, the ids drawn, the skip counted and the single report enqueued on each path |
| BatchWorker.BatchWorker.EnqueueReportWithId | internal/worker/batch.go:181-201 | one attempt to enqueue the encoded report; a marshalling or store failure drops it without effect |
| BatchWorker.BatchWorker.NewRunId | internal/worker/batch.go:237-240 | a run id is the stamp and the next counter value, drawn even if the write is rolled back, and 0 if it never begins |
| BatchJobs.LastRowWins | internal/worker/batch.go:99-105 | the job table holds exactly the ids given, each with its last row |
| BatchJobs.ArmedRows | internal/worker/batch.go:106-118 | a row has a cron entry exactly if it is enabled and has a schedule that the cron library accepts, prefixed by its time zone if it has one |
| BatchJobs.ArmedInOrder | internal/worker/batch.go:99-118 | the cron entries are these rows, each once, in the order of the command |
| BatchConfig.RestartRecovers | internal/worker/batch.go:58-66 | at every crash point a restart yields the last successfully persisted command applied afresh exactly if it reads the blob or that command asks for no jobs; a command that persists as an empty blob is no exception |
| BatchConfig.RestartIsInvisible | internal/worker/batch.go:86-122 | whatever writes failed earlier, if the last command was persisted it is in force or pending, and a restart changes nothing |
| BatchConfig.RestartKeepsExactly | internal/worker/batch.go:58-92 | a restart after a command keeps the configuration exactly if it reads the blob and the command was persisted or asks for what the last persisted one did, or if it fails to read and the command asks for no jobs |
| BatchConfig.UnpersistedIsForgotten | internal/worker/batch.go:88-92 | a command whose write fails is in force only until the next restart |
| Scheduler.InvariantKept | internal/worker/batch.go:87-151 | every atomic step of firings and reconfigurations keeps flags in line with the runs that hold them |
| Scheduler.NoOverlapWithinGeneration | internal/worker/batch.go:138-151 | a flag is 1 exactly while a run holds it and 0 otherwise, and at most one run per job is active per configuration generation |
| Scheduler.OverlapIsBounded | internal/worker/batch.go:138-151 | active runs of a job never outnumber the generations since the oldest looked up its flag |
| Scheduler.OverlapAcrossGenerations | internal/worker/batch.go:98-105 | the bound is met: a reconfiguration during a run lets a second run of the job start |
| Scheduler.SwapGetsFlagExactly | internal/worker/batch.go:145 | a firing gets its flag exactly if no run of the job from its own generation is active |
| Scheduler.OverlapsExactly | internal/worker/batch.go:98-151 | over whole runs, two runs of a job are never active at once exactly if every firing that tries its flag finds a run of its own generation active, or none at all |
| Scheduler.FreshTableKeys | internal/worker/batch.go:100-105 | the flag table has exactly the jobs of the configuration |
| Scheduler.OneReportPerFiring | internal/worker/batch.go:138-175 | over every interleaving a firing that is over attempted one report if its lookup found a flag in the table of that moment and none otherwise, and no firing ever attempts a second |
| Scheduler.SkipsAgreeExactly | internal/worker/batch.go:145-150 | whatever writes are lost, the skip counter equals the stored skip reports plus the skips about to be reported exactly if as many counts as skip reports were lost |
| Scheduler.SkipsAgree | internal/worker/batch.go:145-150 | so they agree while writes commit |
| Scheduler.FiringIsARun | internal/worker/batch.go:138-175 | the steps of a firing that nothing interleaves with: one report, a skip exactly if the flag was taken, and all flags as before, as `BatchWorker.Fire` has it |
| RunIds.Itoa | internal/worker/batch.go:242-254 | the 20-byte buffer is never underrun for any 64-bit value and holds the decimal notation |
| RunIds.DecimalDigits | internal/worker/batch.go:248-252 | the last character of the notation is the last digit in ASCII, and the rest is the notation of a tenth |
| RunIds.ParseDecimal | internal/worker/batch.go:242-254 | the decimal notation parses back and has no leading zero |
| RunIds.TwentyDigitsSuffice | internal/worker/batch.go:246 | no 64-bit value needs more than 20 digits |
| RunIds.RunIdDetermines | internal/worker/batch.go:237-240 | a run id determines its number and its stamp |
| RunIds.NumbersDifferUnlessClash | internal/store/store.go:64-80 | below 2^64, two draws are the same exactly if neither began, or both began and none from the first up to the second committed; committed ones increase |
| RunIds.RunIdsAreUnique | internal/worker/batch.go:237-240 | two run ids coincide exactly if their stamps do and their draws clash in that way |
| Relay.InvariantKept | internal/worker/proxy.go:125-156 | every read, send, receive and write, failing or not, keeps the bytes in order and the close frame last |
| Relay.RelayIsPrefixSafe | internal/worker/proxy.go:125-156 | in every reachable state each side was written a prefix of what the other was read from, in both directions |
| Relay.CloseIsComplete | cmd/parent-stub/main.go:118-149 | a loop that exits on a close frame has written everything its peer read |
| Relay.FaultlessIsComplete | internal/worker/proxy.go:125-156 | a run without failures comes to rest only when the reader has closed, the writer has exited on the close, and everything read was written |
| Relay.ReaderSteps | internal/worker/proxy.go:126-140 | what is read is sent as one frame, reading goes on after data and closes after the end of file |
| Relay.CopyToStream | internal/worker/proxy.go:126-140 | the reading loop reads up to the first end of file and sends one frame per piece of data and then a close, as far as sends succeed |
| Relay.CopyIsFaithful | internal/worker/proxy.go:126-140 | so it sends the pieces read, in order, closes exactly on an end of file if it still can, and only after all of its data |
| Relay.CopyFromStream | internal/worker/proxy.go:143-156 | the writing loop ends at the first close, at the end of the frames, or when the connection takes no more |
| Relay.WriteIsExact | internal/worker/proxy.go:143-156 | so up to the first close, its own data included, it writes all the connection takes, and reports the close exactly if it took all; without a close likewise |
| Handoff.Server.RegisterPending | cmd/parent-stub/main.go:152-156 | the client waits under its id, other clients as before |
| Handoff.Server.TakePending | cmd/parent-stub/main.go:158-164 | returns and removes the waiting client, or nothing |
| Handoff.Server.Claim | cmd/parent-stub/main.go:99-110 | an egress stream gets the client waiting under the id it announces, or nothing; this is a step of the machine |
| Handoff.Server.OpenEgress | cmd/parent-stub/main.go:167-191 | a failed request leaves no client under its id, a successful one exactly this client; a command for its target is out if the send reached the child; these are steps of the machine |
| Handoff.OpeningIsARun | cmd/parent-stub/main.go:167-191 | what the steps of a request come to when nothing interleaves with it |
| Handoff.ConnSeqCounts | cmd/parent-stub/main.go:175 | the connection counter is the number of ids drawn modulo 2^64 |
| Handoff.IdsAreNeverReused | cmd/parent-stub/main.go:167-176 | below 2^64 requests an id belongs to one request and registering never overwrites a waiting client |
| Handoff.HandoffIsLinear | cmd/parent-stub/main.go:99-110 | whatever ids streams announce, a client is handed over at most once, under its own id, and commands with that id carry its target |
| Handoff.RegistrationPrecedesCommand | cmd/parent-stub/main.go:175-183 | every command the child gets has the id and target of a client registered before |
| Handoff.FailedRequestsDoNotWait | cmd/parent-stub/main.go:184-188 | a request that failed leaves no client waiting, however streams and other requests interleave with its undoing |
| Handoff.NoClientIsLost | cmd/parent-stub/main.go:152-191 | a registered client is waiting or was handed over |
| Bus.FeedIsFaithful | internal/bus/bus.go:17-35 | received then queued messages are an in-order part of those published, at most 128 wait, counts add up, nothing is lost exactly if nothing was dropped |
| Bus.ReceivesConsume | internal/bus/bus.go:17-23 | each receive that finds a message waiting consumes exactly one |
| Bus.DropsOnlyWhenFull | internal/bus/bus.go:29-34 | a publish is dropped exactly when 128 messages wait |
| Bus.Channel.LosesNothingButDrops | internal/bus/bus.go:17-35 | every channel keeps these properties over its whole life |
| Bus.Channel.TrySend | internal/bus/bus.go:30-33 | a send that does not fit is dropped without blocking |
| Bus.Channel.TryReceive | internal/bus/bus.go:17-23 | a receive takes the oldest waiting message out of the channel, or nothing |
| Bus.Bus.Subscribe | internal/bus/bus.go:17-23 | a new empty channel joins the topic's subscribers |
| Bus.Bus.Publish | internal/bus/bus.go:26-35 | the message joins the channel of each subscriber of the topic that has fewer than 128 waiting |
| Smtp.SingleDomain | internal/worker/smtp.go:216-234 | succeeds exactly if there are recipients and all have the same domain: what follows the last @, in lower case |
| Smtp.SortIsStable | internal/worker/smtp.go:198 | sorting by preference keeps the records of each preference in their order |
| Smtp.StableSortIsUnique | internal/worker/smtp.go:198 | any stable sort by preference yields this list |
| Smtp.ResolveMx | internal/worker/smtp.go:195-213 | host by host the sorted MX records without a final dot, or the domain itself exactly if it resolves, or an error; never an empty list |
| Smtp.Handle | internal/worker/smtp.go:68-119 | one result per command, and the hosts tried are the list up to the first success |
| Smtp.TryHosts | internal/worker/smtp.go:93-118 | the delivery loop stops at the first success and reports the last tried host's answer |
| Smtp.Verdict | internal/worker/smtp.go:93-117 | accepted exactly if SENT; FAILED exactly for an answer whose text begins with a code 5xx; with the code, the text and the name of the last host |
| Smtp.VerdictIsFirstSuccess | internal/worker/smtp.go:93-118 | SENT exactly if some host accepts in its turn; otherwise all were tried and only the last answer decides FAILED or DEFERRED |
| Smtp.EarlierRejectionIsForgotten | internal/worker/smtp.go:111-117 | a permanent rejection by an earlier host does not count when a later one is unreachable |

## Left out

- gRPC, TLS, dialing, SOCKS5 and HTTP-CONNECT front ends, Tor control: network I/O; a push is a success or a failure, a stream a FIFO channel that may break anywhere.
- bbolt, JSON, protobuf, cron and template internals: foreign libraries, modelled as an atomic ordered byte map, abstract encodings and an arbitrary validity predicate.
- Failing reads of a counter or of a queue's depth.
- In `ScheduleSettlesEveryReport` new reports arrive between ticks and every lease commits; `EveryReportIsSettled` and all theorems about runs of `Drain` allow reports, failed leases, damage and restarts between any two steps.
- Agent runners and prompt resolution: a run is an arbitrary result.
- 64-bit overflow of time stamps and of attempt counts: both are mathematical integers.
- Coupling of the two relay directions (a side that exits closes its connection, which ends its other loop): each direction may end at any time instead, which allows every behaviour of the program and more.
- The announcing frame, a failed dial and the buffered bytes of a proxy handshake: byte histories begin with the relay loops.
- The 32 KiB read buffer of the relay loops: reads of any length are allowed.
- `batch_reports_sent`, `smtp_sent` and the other statistics counters: they are written and never read by the modelled code.
- Crashes inside the scheduler: its flags live in memory, so `Scheduler` covers the runs of one process lifetime.
- `RunNow`: it only looks the job up and starts a firing, which `Scheduler` allows at any time for any job id.
- Error texts and log lines; `Smtp` records that a result carries an error, not its wording.
- Upper and lower case outside ASCII in mail domains.
- Event journal, heartbeats, load sampling, supervisor backoff: short and of one branch each.
