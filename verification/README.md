# Nodeglow: verified models of the relay, the self-updater, the login lock, the scheduler and the update trust

Nodeglow monitors networks from a central backend, with agents ("probes") in the
customers' networks and a sidecar that updates the installation itself. This
Dafny project models the parts of it that carry the most state, and proves what
they keep over every input, every interleaving and every run.

`dafny verify dfyconfig.toml` checks all of it.

| part | modules | program files |
|---|---|---|
| probe syslog relay | `SyslogFraming`, `SyslogMessages`, `RelayQueue`, `RelayProtocol`, `Subsequences` | `agent/src/syslog_relay.rs`, `agent/src/client.rs` |
| self-updater | `PythonText`, `SemVer`, `SemVerSpelling`, `Releases`, `EnvFile`, `EnvLines`, `UpdateRun`, `ImageInstall`, `ImageOutcomes`, `UpdateCycle`, `UpdateServer` | `sidecar/image_update.py`, `sidecar/orchestrator.py`, `sidecar/update-server.py` |
| login soft lock | `LoginLock` | `backend/routers/auth.py` |
| scheduler | `CollectionUnits`, `CollectionPasses`, `PingChecks`, `DiskForecast` | `backend/scheduler.py`, `backend/routers/ping.py`, `backend/routers/api_v1.py` |
| update trust | `UpdateAuthorization`, `UpdateTrust` | `agent/src/updater.rs`, `agent/src/main.rs` |

Code that changes things step by step is a class or a method with loops, proved
against functions of the old state: `Framer`, `RelayBuffer`, `WriteEnvValue`,
`NewerReleases`, `UpdateState`, `Installation`, `FailureLog`, `Monitor`,
`PlanUnits`, `ComputeDiskForecast`, `TrustState`. What the program promises is
then proved about those functions. Concurrent code (the relay's tasks, the update
server's threads, overlapping collector passes) is a transition system over the
steps other tasks can observe.

## Where the code and its promises differ

Each of these is a theorem with the exact condition under which the promise holds,
and an input or a run for which it does not:

- Framing does not depend on how TCP splits the stream exactly if no text run is
  longer than the message limit (`SplitIndependence`). The one message a
  well-behaved sender can lose is a line of 65536 bytes ended by CR LF, when the
  read ends between the two (`FramedMessagesArrive`, `LostUnderSomeSplit`).
- A framing error loses the messages completed in the same read, so a stream
  delivers the same messages under every split exactly if it holds no framing error
  or no message in front of one (`FramingErrorLosesFrames`, `FramingErrorExample`).
- The comment on `requeue_front` says the oldest entries of the batch are the ones
  discarded. With mixed sizes the loop goes on after a misfit, so this holds
  exactly if nothing older than the first misfit would still fit
  (`OldestDiscardedIff`; `RelayProtocol.NewestDiscarded` is an input within the
  relay's own caps). An entry over the byte cap that `push`
  admitted would be lost on its way back (`RequeueRestoresIff`); `accept` cannot
  build one, so in the running relay a failed send with nothing pushed meanwhile
  loses nothing (`FailedSendLosesNothing`).
- An `OSError` while the files are placed is reverted; around the data mount check
  only `StepError` is. A check that raises anything else, `OSError` included, leaves
  the new files in place (`FailedCheckRestoresIff`, `OsErrorOfCheckKeepsRelease`).
- The state file is consistent at every write exactly if no step name repeats
  (`StateFileConsistentIff`, `RepeatedNameReportedPending`).
- The update server's `running` flag is enough for one backup loop, and not for two
  (`MutualExclusion`, `TwoLoopsOverlap`).
- A value written to `.env` reads back unless it holds a line break, outer white
  space or outer quotes (`PutThenGet`). A release tag with a line break in front,
  which the version parser accepts, would therefore pin a version that is not read
  back (`UpdateRaisesPinnedVersion`, `LineBreakInFront`). It cannot be the tag of an
  image, so pulling should stop such a run before; for versions that can, the result
  is unconditional (`PulledUpdateRaisesVersion`).
- The budget of recorded login failures holds exactly as long as none is recorded
  while the account is locked, which a client with a usable device cookie can do
  (`FailureBudgetIff`, `RecordsLockedNeedsDevice`).
- A manual check writes the `port_error` flag past the hysteresis. Its result stands
  until a cycle decides again, and the streaks it left alone may undo it at once
  (`ManualCheckOverrides`, `ManualCheckUndone`).
- Offline announcements live in memory: one outage is announced again exactly if a
  restart came in between and the grace time has passed since
  (`AnnouncedAgainIff`).
- A trust state whose save failed without touching the file is not saved again
  until the server reports something new, so a restart can forget it; trust only
  tightens exactly if no restart does (`SurvivesRestartIff`, `TrustOnlyTightensIff`,
  `ProbeForgets`).
- The forecast compares the rounded number of days, so its thresholds of 7 and 30
  days really are 7.05 and 30.05 (`TrendOfRounded`).

## Model

| member | source | states |
|---|---|---|
| SyslogFraming.OctetCountedStable | agent/src/syslog_relay.rs:270-301 | once the first bytes decide between a frame, text and a framing error, later bytes never change that decision |
| SyslogFraming.TextIffNotCounted | agent/src/syslog_relay.rs:270-301 | on the bytes alone: a buffer that ends its line is text if and only if it does not begin with one to six digits (the first not 0), a space and `<` |
| SyslogFraming.ParseBounds | agent/src/syslog_relay.rs:212-254 | every message handed on has 1 to 65536 bytes, and an open stream keeps at most 65541 bytes |
| SyslogFraming.ParseInTwo | agent/src/syslog_relay.rs:212-254 | without an overlong run, reading a stream in two reads gives frames, discards, residue and error of reading it at once |
| SyslogFraming.AnySplitAgrees | agent/src/syslog_relay.rs:212-254 | the same for any number of reads |
| SyslogFraming.OverlongRunDisagrees | agent/src/syslog_relay.rs:229-251 | every stream with an overlong run has a prefix and a split point at which two reads differ from one |
| SyslogFraming.SplitIndependence | agent/src/syslog_relay.rs:212-301 | framing is independent of the split at every prefix of a stream if and only if the stream holds no overlong text run |
| SyslogFraming.Framer.CutText | agent/src/syslog_relay.rs:229-251 | cutting one line off the buffer, waiting for its end, or clearing an outgrown run is the text step of the specification |
| SyslogFraming.Framer.CutHead | agent/src/syslog_relay.rs:216-251 | one turn of the loop takes the frame whose length the buffer announces, else the first line |
| SyslogFraming.Framer.Push | agent/src/syslog_relay.rs:212-254 | the loop ends, returns what the specification parses out of buffer and data, and leaves its residue; an error returns no frames |
| SyslogFraming.Framer.Finish | agent/src/syslog_relay.rs:258-268 | the rest without its trailing line ends is the last message, unless empty or over the limit; the buffer is empty after it |
| SyslogMessages.RoundTripBefore | agent/src/syslog_relay.rs:212-301 | framed messages come back unchanged and in order, whatever bytes follow them |
| SyslogMessages.RoundTrip | agent/src/syslog_relay.rs:212-301 | parsing any mix of counted, LF, NUL and CR LF framed messages (text that does not begin with a length, a space and `<`) gives exactly their bodies and no residue; an unterminated last line is what `finish` returns |
| SyslogMessages.LineOfAnyLength | agent/src/syslog_relay.rs:229-241 | a line of text, ended by LF or NUL, is handed on without a CR at its end if that leaves 1 to 65536 bytes, passed over if it leaves none, discarded and counted beyond |
| SyslogMessages.OpenLine | agent/src/syslog_relay.rs:242-250 | text without an end stays buffered up to 65536 bytes and is discarded and counted beyond |
| SyslogMessages.CountedTooLong | agent/src/syslog_relay.rs:290-296 | every announced length over 65536 is a framing error |
| SyslogMessages.LastMessageIff | agent/src/syslog_relay.rs:258-268 | `finish` returns a message if and only if it is the rest without the CR, LF and NUL bytes behind it and has 1 to 65536 bytes |
| SyslogMessages.FramedMessagesArrive | agent/src/syslog_relay.rs:494-512 | under every split exactly the framed messages arrive and nothing is dropped, if and only if no CR LF line has 65536 bytes |
| SyslogMessages.FramingErrorLosesFrames | agent/src/syslog_relay.rs:494-508 | every split of a stream without overlong runs delivers what one read would frame, if and only if the stream holds no framing error or no message in front of one |
| SyslogMessages.FramingErrorExample | agent/src/syslog_relay.rs:494-508 | a line followed by a length over the limit: in two reads the line arrives, in one read it is lost |
| RelayQueue.PushKeepsLongestSuffix | agent/src/syslog_relay.rs:132-144 | a push keeps the longest suffix of the queue that leaves room for the new entry |
| RelayQueue.PushEvictsLeast | agent/src/syslog_relay.rs:126-144 | counted with the new entry, what is left is within both caps, and with any evicted entry still there one of them would be exceeded |
| RelayQueue.PushWithinLimits | agent/src/syslog_relay.rs:132-144 | after a push the entry cap holds, and the byte cap unless one entry is alone |
| RelayQueue.BatchIsLongestPrefix | agent/src/syslog_relay.rs:148-166 | a batch is the longest prefix within both request limits, and at least one entry |
| RelayQueue.RequeueSurvivors | agent/src/syslog_relay.rs:171-183 | what goes back is a subsequence of the batch in front of the unchanged queue, within the caps |
| RelayQueue.OldestDiscardedIff | agent/src/syslog_relay.rs:168-183 | the survivors are the newest part of the batch if and only if no entry older than the first misfit would still fit |
| RelayQueue.OlderGoesBack | agent/src/syslog_relay.rs:168-183 | where a newer entry of the batch does not fit and an older one does, the older goes back and the newest is discarded |
| RelayQueue.RequeueRestoresIff | agent/src/syslog_relay.rs:146-183 | requeueing right after taking restores the queue if and only if nothing was taken or the queue was within its byte cap |
| RelayQueue.RelayBuffer.constructor | agent/src/syslog_relay.rs:117-124 | the buffer starts empty, with caps of at least one |
| RelayQueue.RelayBuffer.Push | agent/src/syslog_relay.rs:132-144 | the loop leaves the specified queue, an exact byte count, and returns the number evicted |
| RelayQueue.RelayBuffer.TakeBatch | agent/src/syslog_relay.rs:148-166 | the loop takes exactly the specified prefix, keeping the byte count exact |
| RelayQueue.RelayBuffer.RequeueFront | agent/src/syslog_relay.rs:171-183 | the loop leaves the specified queue and returns the number discarded |
| RelayProtocol.AnswerAccountsForBatch | agent/src/client.rs:265-273 | on any 2xx the count the backend names, at most the batch, is accepted (all of it if none is named) and the rest rejected; a 4xx other than 401, 403, 404, 408, 425 and 429 refuses the batch; everything else is sent again |
| RelayProtocol.StepKeepsInvariant | agent/src/syslog_relay.rs:359-574 | every step of every receiver and of the forwarder keeps the counters, the order and the caps consistent |
| RelayProtocol.Conservation | agent/src/syslog_relay.rs:359-574 | over every interleaving each received message is forwarded, rejected, being counted, evicted, buffered, in flight or about to be pushed; the drop counter is what was evicted or refused, up to counts under way |
| RelayProtocol.CountersBalanceAtRest | agent/src/syslog_relay.rs:312-327 | with no step under way: received + refused = forwarded + rejected + dropped + buffered |
| RelayProtocol.CountersTell | agent/src/client.rs:350-358 | over every interleaving the five counters are the sums of what happened: forwarded is what the answers stored, rejected what they did not store or refused, send failures the answers to be retried, each up to counts under way |
| RelayProtocol.BatchTaken | agent/src/syslog_relay.rs:528-535 | a batch is the longest front of the buffer with at most 500 entries and 1 MiB, at least one entry if there is any |
| RelayProtocol.PushMakesRoom | agent/src/syslog_relay.rs:132-144 | a buffer of 20000 entries or 16 MiB gives up its oldest entries for a new one, and no entry more than it must |
| RelayProtocol.OrderedWithoutDuplicates | agent/src/syslog_relay.rs:528-572 | delivered, then in flight, then buffered entries sit at strictly increasing positions of the arrival log, through any number of failed sends, requeues and evictions |
| RelayProtocol.RetryDelay | agent/src/syslog_relay.rs:517-571 | the delay is 2^n seconds after n failures in a row, at most 60, and 2 again after any answer |
| RelayProtocol.BufferWithinBytes | agent/src/syslog_relay.rs:359-387 | with entries built from frames within the limit, the buffer is within its byte cap after every run |
| RelayProtocol.FailedSendLosesNothing | agent/src/syslog_relay.rs:529-570 | in every run, a batch taken, not delivered and put back with no push in between leaves the buffer as it was and no entry lost |
| RelayProtocol.NewestDiscarded | agent/src/syslog_relay.rs:168-183 | with the relay's own caps and entries built from frames, a queue and a batch of which the newer entry is discarded and the older one goes back |
| SemVer.KeyOrderIsPrecedence | sidecar/image_update.py:124-135 | the sort key orders versions exactly as section 11 of SemVer 2.0.0, antisymmetric and total |
| SemVer.CompareTransitive | sidecar/image_update.py:124-135 | the order of the keys is transitive, also through ties |
| SemVer.TagAndVersionAgree | sidecar/image_update.py:116-121 | dropping the leading `v` of a parsable tag does not change its version |
| SemVer.SplitDotsExact | sidecar/image_update.py:124-126 | the identifiers of a pre-release hold no dot and joined by dots give it back |
| SemVerSpelling.SpellingParses | sidecar/image_update.py:116-121 | every spelling of a version (decimal numbers with any zeros in front, an optional `v`, pre-release, build and outer white space) parses to that version, field by field |
| SemVerSpelling.ParsesIffSpelled | sidecar/image_update.py:116-121 | a text parses to a version if and only if it spells that version, and to nothing if and only if it spells none |
| Releases.SortSorts | sidecar/image_update.py:243-243 | the list is sorted newest first and loses or invents no release |
| Releases.SortIsStable | sidecar/image_update.py:243-243 | releases of equal precedence keep their order |
| Releases.NewerIsExact | sidecar/image_update.py:214-244 | a release is in the list if and only if it is published, its tag spells a version after the current one by section 11 of SemVer 2.0.0 and the channel allows it; tag, version text and pre-release mark are its own, and no later entry comes after an earlier one |
| Releases.UpdatesMakeProgress | sidecar/image_update.py:336-339 | installing the first of them strictly raises the version and leaves nothing newer in that list |
| Releases.NewerReleases | sidecar/image_update.py:214-244 | the loop and the sort compute that list for the version the current text spells; a text that spells none is the error |
| EnvFile.OneAssignmentLeft | sidecar/image_update.py:170-182 | after a write exactly one line assigns the key, and it is the one written |
| EnvLines.AssignsIffSaid | sidecar/image_update.py:151-159 | a line assigns a value to a key if and only if it is white space, perhaps `export` and white space, `key=` and the value, plain or in quotes, with white space around it |
| EnvLines.LastAssignmentWins | sidecar/image_update.py:150-160 | the value read is what the last line that assigns the key says, or nothing without one |
| EnvLines.ReplacedInPlace | sidecar/image_update.py:170-182 | the first assignment is replaced where it stands, later ones go, a missing one comes last, and the lines before and between stay |
| EnvLines.UnrelatedExactly | sidecar/image_update.py:170-182 | a line stays if and only if it says nothing about the key |
| PythonText.SplitLinesExactly | sidecar/image_update.py:147-147 | a line ends at the first break, CR LF being one break, and what follows is split for itself |
| PythonText.SplitLastLine | sidecar/image_update.py:147-147 | a text without a break is one line, unless it is empty |
| EnvFile.PutThenGet | sidecar/image_update.py:143-190 | the value reads back if and only if it is free of line breaks, trimmed and not wrapped in quotes |
| EnvFile.OthersKept | sidecar/image_update.py:170-182 | rewriting the lines changes no other variable |
| EnvFile.OtherVariablesKept | sidecar/image_update.py:143-190 | after writing a line-free value every other variable reads as before, through the file's text |
| EnvFile.UnrelatedKept | sidecar/image_update.py:170-182 | lines that do not assign the key keep content and order |
| EnvFile.PutPut | sidecar/image_update.py:170-182 | a second write leaves what it alone would have left |
| EnvFile.OverwritePin | sidecar/image_update.py:163-190 | the same at the level of the file's text |
| EnvFile.ReadEnvValue | sidecar/image_update.py:143-160 | the loop returns the last assignment, unquoted, or the empty string |
| EnvFile.WriteEnvValue | sidecar/image_update.py:163-190 | the loop replaces the first assignment in place, drops the others and appends one if there was none |
| UpdateRun.PersistedConsistent | sidecar/orchestrator.py:165-195 | every state written has ok steps, then at most one running or failed, then pending ones, and a matching run status |
| UpdateRun.RunIsChain | sidecar/orchestrator.py:165-195 | a run goes through the steps in order, each on what the one before left, up to the first that does not succeed, which decides world and outcome |
| UpdateRun.PersistedExactly | sidecar/orchestrator.py:165-195 | the states written are, one by one, the start, each step running and then ok, and the end or the failed step running and then failed |
| UpdateRun.StateFileConsistentIff | sidecar/orchestrator.py:165-195 | whatever step fails, every state written is consistent, if and only if no step name repeats |
| UpdateRun.StateFileTellsTheRun | sidecar/orchestrator.py:165-195 | the last state written says which step failed, or that the run is done; with distinct names its rows say so too |
| UpdateRun.UpdateState.ByName | sidecar/orchestrator.py:89-93 | finds the first step of a name |
| UpdateRun.RunUpdate | sidecar/orchestrator.py:165-195 | runs any list of steps in order up to the first failure, no step after it, and writes exactly the specified states, marking the first row of each name |
| ImageInstall.AlwaysRecoverable | sidecar/image_update.py:484-500 | whatever I/O operation stops the installation, each target is untouched or can be restored from what was noted |
| ImageInstall.RevertRestores | sidecar/image_update.py:464-475 | from any such point, reverting gives back deploy files and `.env`, including which of them exist, if no restore failed |
| ImageOutcomes.PlacingStopsAtFirstFault | sidecar/image_update.py:487-497 | placing performs I/O up to the first operation that fails and raises what that operation raises |
| ImageOutcomes.RevertExactly | sidecar/image_update.py:464-475 | a revert, for every pattern of faults: each file whose turn came and whose operation worked is as it was, an `OSError` spoils one file only, any other exception leaves the files behind it untouched and the list uncleared |
| ImageOutcomes.InstallExactly | sidecar/image_update.py:478-507 | for every pattern of faults: the step succeeds if and only if the files were placed and the mount check passes, removing the staging directory only; an `OSError` of the placing and a refusal are reverted; any other exception leaves all as it was when raised |
| ImageOutcomes.MigrationExactly | sidecar/image_update.py:510-515 | a migration that fails for whatever reason is reverted and raises its own exception unless the revert is interrupted |
| ImageOutcomes.RunStopsAtFirstFailure | sidecar/image_update.py:549-560 | with working I/O and a complete image a run stops at the first of the ten steps that fails by itself, with its exception, or gets to the end |
| ImageInstall.InstallAllOrNothing | sidecar/image_update.py:478-507 | for every pattern of faults: success puts the release in place and keeps it revertible, a `StepError` has put the old files back, any other exception, also one that interrupts a revert, leaves every file restorable |
| ImageInstall.FailedCheckRestoresIff | sidecar/image_update.py:501-505 | for every pattern of faults, once the files are placed and no restore failed: after a failed data mount check the old files are back if and only if it raised `StepError` or the release changes none of them |
| ImageInstall.WorkingIo | sidecar/image_update.py:478-507 | with all I/O working and the release staged, the files are placed and no restore fails, so the row above applies |
| ImageInstall.OsErrorOfCheckKeepsRelease | sidecar/image_update.py:501-505 | an `OSError` of the data mount check fails the step and leaves the release in place |
| ImageInstall.ImageUpdateFiles | sidecar/image_update.py:549-560 | for every pattern of faults: a run that fails at or before `migrate` ends with the old files, one that reaches `restart` with the release's, and so does one whose mount check raised something uncaught |
| ImageInstall.Installation.RevertInstall | sidecar/image_update.py:464-475 | the loop restores each noted file, going on after an `OSError`, and clears the list; any other exception leaves the loop and the list |
| ImageInstall.Installation.PlaceFiles | sidecar/image_update.py:485-497 | the loop keeps, notes and replaces each target, then pins the version, up to the first exception |
| ImageInstall.Installation.StepInstall | sidecar/image_update.py:478-507 | the step reverts on an `OSError` while placing files and on a refusal of the mount check, and on nothing else |
| ImageInstall.RunImageUpdate | sidecar/orchestrator.py:165-195 | the runner over the image steps has the file guarantee and never persists an inconsistent state |
| UpdateCycle.PinnedVersionReadsBack | sidecar/image_update.py:143-190 | a pinned version reads back as the same text if and only if it has no outer white space, and as the same version if and only if no line break is in front of it |
| UpdateCycle.UpdateRaisesPinnedVersion | sidecar/image_update.py:325-348 | after a run that reached `restart`, the version read from `.env` parses if and only if its tag has no line break in front, and then it is strictly above the old one with nothing newer in the list |
| UpdateCycle.PulledUpdateRaisesVersion | sidecar/image_update.py:325-348 | where the version can be the tag of an image, the pinned text always reads back and is strictly above the old version, with nothing newer in the list |
| UpdateCycle.LineBreakInFront | sidecar/image_update.py:116-121 | a tag with a line break in front parses, cannot be an image tag, and would not be read back |
| UpdateServer.RunKeepsInvariant | sidecar/update-server.py:311-361 | over every interleaving of handlers, backup loop and worker exits the lock, the thread checks and the `running` flag stay consistent |
| UpdateServer.RefusedIffBusy | sidecar/update-server.py:311-361 | in every reachable state a request passes the checks if and only if no update runs and no dump is between setting and clearing the flag, a dump if and only if no update runs; a thread that was never started blocks nothing |
| UpdateServer.TwoLoopsOverlap | sidecar/update-server.py:346-360 | with two backup loops there is a run in which an update starts during a dump |
| UpdateServer.MutualExclusion | sidecar/update-server.py:311-361 | at most one update runs and none during a dump, over all interleavings, if and only if there is at most one backup loop |
| LoginLock.RuleIsExact | backend/routers/auth.py:94-104 | one window locks at a later instant exactly if it locks now and that instant is before its unlock time |
| LoginLock.LockIsExact | backend/routers/auth.py:94-104 | the waiting time is positive exactly while locked, covers the lock, and overstates it by at most one second |
| LoginLock.RuleOnSorted | backend/routers/auth.py:97-103 | on a sorted log a window depends on the n-th newest failure only |
| LoginLock.RecordedKeeps | backend/routers/auth.py:80-86 | a recorded failure comes last behind the failures of the last 24 hours, of which the newest 99 stay |
| LoginLock.PrunedLogDecidesAlike | backend/routers/auth.py:80-104 | a log pruned to 24 hours and 100 entries gives the waiting time of the whole history since the last clear |
| LoginLock.PruningNeverShows | backend/routers/auth.py:80-104 | over any run of logins every reply is the one the unpruned history would have given |
| LoginLock.RefusedIffLocked | backend/routers/auth.py:301-350 | unless throttled, a login is told to wait, with nothing recorded, if and only if 5 failures are in the last 15 minutes or 20 in the last 24 hours and there is no usable device cookie, whatever the credentials; otherwise a wrong password adds one failure, missing access none, and a sign-in clears the log if and only if not locked; the announced seconds are exact |
| LoginLock.StoredRefusedIffLocked | backend/routers/auth.py:301-350 | the same for the stored log |
| LoginLock.FailureBudgetIff | backend/routers/auth.py:301-321 | over any run no 15 minutes ever hold more than 5 recorded failures since the last clear and no 24 hours more than 20, if and only if no failure is recorded while the account is locked |
| LoginLock.RecordsLockedNeedsDevice | backend/routers/auth.py:301-321 | only a client with a usable device cookie can record a failure while the account is locked |
| LoginLock.FailureBudget | backend/routers/auth.py:301-321 | so against clients without one the budget holds at every point of every run |
| LoginLock.ComputeLockRemaining | backend/routers/auth.py:94-104 | the loop over the two windows returns the longest waiting time, zero exactly if not locked |
| LoginLock.FailureLog.Handle | backend/routers/auth.py:284-379 | one login reads, decides by that policy, records or clears, and keeps the stored log a faithful image of the whole history |
| CollectionUnits.UnitsPartitionTheDue | backend/scheduler.py:284-326 | the units partition the due configs of known types, each in ascending id order; two due configs share a unit if and only if type and non-empty cluster group agree |
| CollectionUnits.UnitsInOrder | backend/scheduler.py:280-326 | units come in the order of the types' first rows; within a type configs without a group by id, then the groups by their first due config |
| CollectionUnits.ByType | backend/scheduler.py:280-282 | the loop collects the ids of each type in order, the types in order of first appearance |
| CollectionUnits.UnitsOfKind | backend/scheduler.py:287-326 | the loops emit a unit for each ungrouped config, then each group whole, in order of first appearance |
| CollectionUnits.PlanUnits | backend/scheduler.py:280-326 | phase 1 computes exactly that plan, passing over unknown types |
| CollectionPasses.LaunchSafeIff | backend/scheduler.py:331-341 | a launch keeps every config in one live unit if and only if none of its due configs is in flight by then |
| CollectionPasses.StepKeepsValid | backend/scheduler.py:190-341 | every step of overlapping passes and units keeps live units disjoint, the in-flight set exact, and planned configs out of it |
| CollectionPasses.LaunchCollects | backend/scheduler.py:284-341 | over every run a launch collects exactly the rows of known types that its pass found due while no unit was collecting them |
| CollectionPasses.NeverCollectedTwice | backend/scheduler.py:105-109 | over every run with one pass per tenant no config is collected by two units at once, and the configs in flight are exactly those being collected |
| CollectionPasses.OverlappingPassesCollectTwice | backend/scheduler.py:293-341 | with two passes of one tenant there is a run that collects one config twice |
| PingChecks.StreaksAreRuns | backend/scheduler.py:374-377 | the two streaks are the runs at the end of the history, offline cycles and manual checks passed over, and at most one is non-zero |
| PingChecks.FlagFollowsHistory | backend/scheduler.py:554-581 | over every history of cycles, configuration changes, manual checks and restarts the flag is set if and only if the last decisive run (3 cycles that find the host online and its service in error, or 2 that find it well; offline cycles passed over, a cycle without service checks starting anew) or manual check says so |
| PingChecks.ManualCheckOverrides | backend/routers/ping.py:214-219 | the flag is a manual check's raw result until a cycle decides again, and otherwise what it would be without manual checks |
| PingChecks.ManualCheckUndone | backend/routers/ping.py:214-219 | after three failing cycles a passing manual check clears the flag, and the next cycle sets it again even if it finds the host offline |
| PingChecks.OfflineAlertIff | backend/scheduler.py:588-630 | over every run with restarts a host is announced offline in exactly the first cycle at which its outage, as this process saw it, has lasted the grace time |
| PingChecks.AnnouncedAgainIff | backend/scheduler.py:363-366 | a host that stays down is announced again if and only if the process was restarted since and the grace time has passed for the first time since then |
| PingChecks.OnlineAlertIff | backend/scheduler.py:592-600 | a host is announced online exactly when an outage announced by this process ends and its stored previous result was offline |
| PingChecks.NotifiedIsTracked | backend/scheduler.py:588-630 | notified hosts are always tracked as offline |
| PingChecks.TwoVisits | backend/scheduler.py:548-630 | the two passes over the results amount to one grace step per host, with its alert |
| PingChecks.Monitor.ConfigChange | backend/routers/api_v1.py:1055-1060 | a changed check set clears streaks and flag of that host only; the flags go on telling the history |
| PingChecks.Monitor.ManualCheck | backend/routers/ping.py:214-219 | a manual check stores its result in the flag of that host and changes nothing else; the flags go on telling the history |
| PingChecks.Monitor.UpdatePort | backend/scheduler.py:554-581 | the branches on one host row are the port step of its check, no other host changes |
| PingChecks.Monitor.TrackGrace | backend/scheduler.py:588-600 | the first pass starts or ends the tracking of one host and says whether it came back after an alert |
| PingChecks.Monitor.RunCycle | backend/scheduler.py:530-630 | after a cycle the stored flag of every host is the one its history of checks, changes and manual checks calls for, and exactly the hosts whose cycles call for an alert are announced |
| DiskForecast.DenominatorIsPairSpread | backend/scheduler.py:809-809 | n·Σx² − (Σx)² is the sum of squared time differences over all pairs of samples |
| DiskForecast.DenominatorSign | backend/scheduler.py:809-811 | it is never negative, and zero if and only if all samples have one time |
| DiskForecast.LeastSquares | backend/scheduler.py:804-813 | the slope with its intercept has the least squared error of all lines, and no other line reaches it |
| DiskForecast.ExactOnLines | backend/scheduler.py:804-813 | samples on a line give back that line |
| DiskForecast.SlopeMoves | backend/scheduler.py:799-813 | the slope does not depend on the time origin and scales with the time unit |
| DiskForecast.SumsIgnoreOrder | backend/scheduler.py:804-807 | the sums, hence slope and intercept, do not depend on the order of the samples |
| DiskForecast.TrendOfRounded | backend/scheduler.py:820-822 | comparing rounded days with 7 and 30 means comparing days with 7.05 and 30.05 |
| DiskForecast.RoundsToNearest | backend/scheduler.py:818-826 | days and growth are rounded to the nearest tenth and thousandth, ties to the even one |
| DiskForecast.ReadableSplits | backend/scheduler.py:787-794 | the points are the readable samples in their order, time against usage, and nothing else |
| DiskForecast.ComputeDiskForecast | backend/scheduler.py:780-828 | there is a forecast if and only if six samples are readable, and it extrapolates the least squares line through them |
| DiskForecast.PredictsSlope | backend/scheduler.py:813-828 | that line is unique, so the forecast is determined by the readings |
| DiskForecast.ForecastIgnoresOrderAndOrigin | backend/scheduler.py:780-828 | any order with the same last reading and any time origin give the same forecast |
| UpdateAuthorization.VerdictHasEvidence | agent/src/updater.rs:188-237 | an accepted update was accepted by a rule its mode allows, and that rule's evidence (key, message over platform and hash, signature) holds |
| UpdateAuthorization.VerdictExactly | agent/src/updater.rs:188-237 | exactly when each rule decides: a named trusted key by its signature alone; else, if one is configured, the local key, but for release-only agents; the hash alone only without either, in the standard mode |
| UpdateAuthorization.TrimExact | agent/src/updater.rs:93-95 | trimming takes white space off both ends and nothing else |
| UpdateAuthorization.SameIgnoringCaseIff | agent/src/updater.rs:136-140 | key ids are compared letter by letter, ASCII case aside |
| UpdateAuthorization.LowerCaseIs | agent/src/updater.rs:39-48 | the hash in the signed message is the announced one without upper-case letters |
| UpdateAuthorization.StricterAllowsLess | agent/src/updater.rs:148-157 | a stricter mode has the looser mode's verdict if it allows it and refuses otherwise, so its acceptances carry over |
| UpdateAuthorization.NoFallback | agent/src/updater.rs:195-203 | a release signature naming a trusted key is judged by the first key of that name alone, in every mode: release-authorised if it verifies, refused if not |
| UpdateAuthorization.FindsFirst | agent/src/updater.rs:136-140 | the key that judges is the first whose id matches without regard to case |
| UpdateAuthorization.WrongNameRefused | agent/src/updater.rs:129-147 | with two trusted keys, an update signed by one and named after the other is refused |
| UpdateAuthorization.MessageBinds | agent/src/updater.rs:39-48 | the signed message determines platform and hash, so one signature covers one platform and one hash only |
| UpdateTrust.TrustState.Load | agent/src/updater.rs:256-268 | without a file nothing is latched, with an unreadable one everything is |
| UpdateTrust.TrustState.Latch | agent/src/updater.rs:276-281 | bits are only added, and the result tells whether any was |
| UpdateTrust.TrustState.Observe | agent/src/updater.rs:284-296 | latches in memory even if saving fails, and writes the file only on a change |
| UpdateTrust.TrustState.CheckAndUpdate | agent/src/updater.rs:310-370 | latches the server's answer first, then decides with the latched state by hash, download and authorisation |
| UpdateTrust.UpdatedMeans | agent/src/updater.rs:326-367 | an applied update has the announced hash and an authorisation its mode allows |
| UpdateTrust.UpdatedExactly | agent/src/updater.rs:310-370 | exactly when a check applies an update, and by which rule: a downloaded binary with the announced hash that is not the running one, under a named trusted key, or the local key unless release-only or multi-tenant, or its hash alone unless also a probe |
| UpdateTrust.TrustTellsHistory | agent/src/main.rs:160-170 | after any run each bit is set if and only if the file said so at the last start or the server has since: "multi-tenant" in a heartbeat's configuration or a check's answer; "probe" by assigned checks, its configuration or the relay |
| UpdateTrust.FileKeepsUp | agent/src/updater.rs:283-296 | over every run whose saves take, the file is never looser than the memory |
| UpdateTrust.SavesTakeRemembers | agent/src/updater.rs:256-296 | so over such a run no restart forgets anything |
| UpdateTrust.TrustOnlyTightens | agent/src/updater.rs:239-306 | over any run of heartbeats, checks, damage and restarts in which no restart forgets, trust never loosens |
| UpdateTrust.TrustOnlyTightensIff | agent/src/updater.rs:239-306 | trust never loosens anywhere in a run if and only if no restart reads a file looser than memory |
| UpdateTrust.MultiTenantIsForGood | agent/src/updater.rs:239-370 | unless a restart forgets: once multi-tenant was reported, also by the check's own answer, every applied update matches the announced hash and is release-signed by a compiled-in key over platform and bytes |
| UpdateTrust.ProbeIsForGood | agent/src/main.rs:160-170 | unless a restart forgets: once known as a probe, an agent never applies an update on its hash alone |
| UpdateTrust.DamageTightens | agent/src/updater.rs:256-268 | after damage to the file and a restart the strictest state holds |
| UpdateTrust.AcceptanceShrinks | agent/src/updater.rs:254-306 | unless a restart forgets: an offer applied now would have been applied with the same authorisation at any earlier point |
| UpdateTrust.FileLooserIff | agent/src/updater.rs:283-296 | after any run the file is looser than memory if and only if some save left a readable old file behind and since then it was neither saved, nor damaged, nor loaded again |
| UpdateTrust.SurvivesRestartIff | agent/src/updater.rs:256-296 | after any run a restart keeps both bits if and only if there is no such save |
| UpdateTrust.ProbeForgets | agent/src/updater.rs:283-296 | an agent that learns it is a probe and restarts still knows it if and only if the save did something to the file |

## Left out

- Sockets, timers, tokio and asyncio, threads' start-up, subprocesses, Docker, git, cosign and HTTP: their results are parameters or nondeterministic steps.
- Task aborts and cancellation (`SyslogRelay::apply`, asyncio cancellation), partial power loss.
- UTF-8 lossy decoding, trimming and the silent skip of blank messages in `Shared::accept`: an entry is what was kept.
- Duplicates at the backend when it stored a batch but its reply was lost: the model orders what the relay hands over.
- The heartbeat's reading of the relay counters is not one atomic snapshot; the balance is stated for the counters themselves.
- Non-ASCII digits, which the version pattern would accept; release names, notes, dates and links.
- `copymode`, file permissions, and the temporary file of `write_env_value` on disk; `os.path.exists` is taken as truthful.
- The steps of an image update other than install and migrate change none of the modelled files; what they do with images and containers is not modelled. The source mode steps (git pull, build) are not modelled.
- A failed write of the state file, which the runner logs and ignores; the model's list is what it tried to write.
- Texts of step details and errors, times of start and finish.
- Concurrent read-modify-write of one account's failure log: a login is one step. LDAP, password hashing, sessions and tenant access are outcomes of that step.
- The storage of a device's failure budget (`shared_state`): whether a device is exhausted is an input.
- JSON decoding of stored logs, histories and the trust file; a file that does not parse is one case.
- Which configs are due (intervals, decryption, snapshots) and what a unit does with its results; the fair sharing of collection slots; the wait budget of a pass.
- One pass per tenant at a time is an assumption about the job runner, and shown to be needed.
- Hosts checked by agents (a manual check leaves their flag alone), ClickHouse writes and the text of notifications in ping cycles; the lookup that supplies the previous results.
- Floating point: times, usage and the regression are real numbers; Python's rounding is half to even.
- SHA-256 and Ed25519 are arbitrary functions: nothing is claimed about forging or collisions. A deleted trust file counts as an agent that was never told anything.
- Replacing the running binary, and what a new binary does after its restart: later events are those of an agent of the same kind.
- ImageInstall.ImageUpdateFiles: does not say what the files hold when an exception other than `OSError` interrupts the placing itself; `InstallAllOrNothing` says that each can still be restored.
