# Pnevma: the dispatch pool, retry arithmetic and exact text transformations

This project models the parts of Pnevma whose correctness depends on more than one function body, and proves what they
promise. `dafny verify dfyconfig.toml` checks all of it.

**The dispatch pool** (`DispatchOrder`, `DispatchHeaps`, `DispatchPools`, `DispatchProtocol`, `DispatchRuns`) hands out a
bounded number of slots. The comparator of the queued items is modelled as written, the queue is an array binary heap
that uses that comparator in place, and `DispatchPool` is a class whose methods are the critical sections of `try_acquire`,
`wait_next` and `release`, each tied to a specification on `PoolState`. `DispatchProtocol` is the state machine over
those specifications: any number of acquirers, permits, `wait_next` callers and releases, interleaved between the
critical sections and the notification calls. A caller is past creating its future and about to check under the lock
(`locking`), or has found nothing and awaits its future (`parked`); its future may meanwhile have been notified
(`notified`). A release has taken the pool out of its permit and waits for the lock (`awaiting`), or has decremented
and not yet notified (`decremented`). A permit dropped outside a runtime, or a release cancelled before it got the
lock, abandons its slot. The theorems range over every finite interleaving from an empty pool; `DispatchRuns` builds the
runs that show how far they reach. What comes out:

- No wake-up is lost, slots and queued items are conserved, equal priorities leave in the order they were queued, the
  heap behaves as one sorted queue, and left to itself the pool comes to rest after serving exactly as many callers as
  items, slots and callers allow, from the front of that queue.
- `wait_next` takes a slot and returns no permit, so that slot never comes back. In a pool's whole life at most `max`
  calls of `wait_next` return and at most `max + max_queue_depth` dispatches are ever queued; once returns and abandoned
  slots add up to `max` nothing is acquired or handed out again. Nothing in the repository calls `wait_next`, in
  `pool.rs` or outside it, so today these are statements about what it offers.
- It also means that the sequence counter can wrap only in a pool with at least 2^64 slots and queue places. Equal
  priorities are never passed over if and only if `max + max_queue_depth` is at most 2^64 + 1, however long the run; the
  comparator and `eq` agree on every queue reached if and only if it is at most 2^64.
- A freed slot goes to whoever takes the lock first: any number of low-priority newcomers can pass a queued
  high-priority item.

**Retries** (`FailureText`, `AsciiCase`, `Retry`): the greedy whole-word scan, the decision list built on it, the capped exponential
backoff over exact reals, and the counters of a retry run.

- The scan answers the whole-word question on every text exactly for the needles whose self-overlaps are all preceded
  by a letter or digit; every needle made of letters and digits is such a needle.
- The comment at `crates/pnevma-agents/src/resilience.rs:100` says that "processed 500 items" is not taken for a server
  error. It is: blanks are word boundaries. The model follows the code.
- The exponent is cast to 32 bits, so after attempt 2^31 the delay falls back to one second. A base delay of zero waits
  one second up to attempt 1024 and the whole cap from then on, because zero times an infinite power is not a number.
- The event loop caps a run that has used up its turns only if `should_continue` still holds, which it cannot. So the
  cap is never applied, whatever the finish reasons; the comment above it holds exactly for runs that do not need it.
- Text around a message never lowers its class if and only if it is set off on both sides, or indicates something itself.

**Text and list transformations**: the `ar` parser and the renaming of members (`ArArchive`, `ArchiveNames`), the PATH
for the GitHub CLI (`SearchPath`), the tmux shim's quoting and the pane token (`TeamSupport`), the environment of an
agent (`AgentEnvironment`) and the ranking of profiles (`Profiles`). Loops are methods with invariants, proved equal to
a function; the laws are lemmas about that function: round trips, idempotence, commutation, uniqueness.

- Nothing on the environment allowlist is reserved or blocked, so at spawn time the denylist never decides.
- Environment names are told apart by exact spelling while every check ignores case: two names that differ only in case,
  such as `ci` and `CI`, are both set exactly when both are given as valid extras.
- A member size of -60 or less keeps the archive parser from moving forward, and it may never end; the model says when.

The shell reader in `TeamSupport` follows sections 2.2.1, 2.2.2 and 2.3 of the Shell Command Language of POSIX.1-2017.

## Model

| member | source | states |
|---|---|---|
| DispatchOrder.CmpReversesTurn | crates/pnevma-agents/src/pool.rs:42-48 | the comparator is the reversed order of `(rank, seq)`, so the heap's maximum is the dispatch that leaves first |
| DispatchOrder.CmpIsTotalOrder | crates/pnevma-agents/src/pool.rs:42-48 | the comparator is reflexive, antisymmetric under swapping, transitive, and equal exactly on equal rank and equal `seq` |
| DispatchOrder.CmpAgreesWithEq | crates/pnevma-agents/src/pool.rs:29-48 | on a queue with pairwise distinct sequence numbers comparing equal, being `eq` and being the same item coincide |
| DispatchOrder.CmpIsUrgency | crates/pnevma-agents/src/pool.rs:18-48 | the greater of two items is the one of more urgent priority (P0, P1, P2, P3 in this order) or, within a priority, of the smaller number |
| DispatchOrder.NextIsMostUrgent | crates/pnevma-agents/src/pool.rs:18-48 | the least `(rank, seq)` is exactly the item that nothing queued precedes in urgency and nothing of its priority in number |
| DispatchOrder.InsertKeepsSorted | crates/pnevma-agents/src/pool.rs:56 | inserting into the reference queue keeps it sorted by `(rank, seq)` |
| DispatchOrder.InsertAddsItem | crates/pnevma-agents/src/pool.rs:56 | inserting into the reference queue adds exactly the item |
| DispatchOrder.NextIsFront | crates/pnevma-agents/src/pool.rs:42-56 | the item of least `(rank, seq)` is the front of the sorted queue, and removing it leaves the rest |
| DispatchHeaps.RootIsNext | crates/pnevma-agents/src/pool.rs:56 | in a heap ordered by the comparator no item leaves before the root |
| DispatchHeaps.DispatchHeap.constructor | crates/pnevma-agents/src/pool.rs:117 | a new heap is empty |
| DispatchHeaps.DispatchHeap.Push | crates/pnevma-agents/src/pool.rs:141 | pushing in place keeps the heap and adds exactly the item |
| DispatchHeaps.DispatchHeap.Pop | crates/pnevma-agents/src/pool.rs:153 | popping in place keeps the heap and removes exactly an item of least `(rank, seq)`; it yields nothing exactly when empty |
| DispatchPools.OutcomesKeepLimits | crates/pnevma-agents/src/pool.rs:123-170 | no critical section takes `active` above `max` or the queue above its depth |
| DispatchPools.TryAcquireReports | crates/pnevma-agents/src/pool.rs:93-143 | which of the three results a caller gets and when, with the depth reported, what was queued and what is unchanged; a caller gets past queued dispatches exactly when one of them could be handed out |
| DispatchPools.HandOutIsDetermined | crates/pnevma-agents/src/pool.rs:145-161 | with distinct sequence numbers a pass of `wait_next` has one possible outcome |
| DispatchPools.HandOutIsMostUrgent | crates/pnevma-agents/src/pool.rs:145-161 | what `wait_next` hands out leaves nothing more urgent behind, nor an earlier number of its priority |
| DispatchPools.DispatchPool.WithQueueLimit | crates/pnevma-agents/src/pool.rs:110-121 | a new pool has its limits, no active slot and an empty queue |
| DispatchPools.DispatchPool.New | crates/pnevma-agents/src/pool.rs:106-108 | a pool made without a queue limit has a limit of 32 |
| DispatchPools.DispatchPool.TryAcquire | crates/pnevma-agents/src/pool.rs:123-143 | the heap-backed method has exactly the specified result and new state |
| DispatchPools.DispatchPool.CheckNext | crates/pnevma-agents/src/pool.rs:149-158 | one pass hands out the most urgent item, of its priority the smallest number, and takes a slot, or changes nothing because no item or no slot is there |
| DispatchPools.DispatchPool.Release | crates/pnevma-agents/src/pool.rs:163-168 | one slot is given back if any is active, and nothing else changes |
| DispatchPools.DispatchPool.State | crates/pnevma-agents/src/pool.rs:172-180 | the four numbers reported are those of the pool |
| DispatchPools.DispatchPermit.Take | crates/pnevma-agents/src/pool.rs:71-74 | the pool leaves the permit, so it can be taken only once |
| DispatchPools.DispatchPermit.Drop | crates/pnevma-agents/src/pool.rs:78-91 | a drop empties the permit and spawns a release only inside a runtime |
| DispatchPools.DispatchPermit.Release | crates/pnevma-agents/src/pool.rs:70-91 | releasing gives back one slot, and the drop that follows gives back nothing more |
| DispatchProtocol.StepKeepsInvariant | crates/pnevma-agents/src/pool.rs:70-170 | every step of every party keeps slot accounting, the wake-up guarantee, item conservation, numbering and the limits |
| DispatchProtocol.InvariantThroughout | crates/pnevma-agents/src/pool.rs:70-170 | all of these hold at every moment of every interleaving |
| DispatchProtocol.NoWakeupIsLost | crates/pnevma-agents/src/pool.rs:145-170 | if a caller is parked un-notified beside a queued item and a free slot, some release has decremented and is about to notify |
| DispatchProtocol.FutureCatchesNotification | crates/pnevma-agents/src/pool.rs:146-159 | a caller that created its future before a notification and finds nothing afterwards can wake at once; a notification reaches exactly the callers that have a future |
| DispatchProtocol.SlotsAreConserved | crates/pnevma-agents/src/pool.rs:70-91 | `active` is live permits + pending releases + abandoned slots + returns of `wait_next`; hence the cap holds, the `active > 0` guard never fails and at most `max` calls of `wait_next` return |
| DispatchProtocol.QueuedItemsAreConserved | crates/pnevma-agents/src/pool.rs:135-157 | what was ever queued is what is queued plus what was returned, with multiplicity; at most `max + depth` items are ever queued |
| DispatchProtocol.LostSlotsStayLost | crates/pnevma-agents/src/pool.rs:71-91 | the slot of a permit dropped outside a runtime, or of a release cancelled before it has the lock, is never given back |
| DispatchProtocol.RetiredPoolIsClosed | crates/pnevma-agents/src/pool.rs:78-91 | once returned and abandoned slots reach `max`, at every later moment no permit exists and nothing more is handed out |
| DispatchRuns.NewcomersCanOvertakeForever | crates/pnevma-agents/src/pool.rs:127-133 | for every n, a run in which n P3 newcomers get the slot one after the other while the same P0 dispatch stays queued |
| DispatchProtocol.ReachableQueuesAreLawful | crates/pnevma-agents/src/pool.rs:29-56 | on every queue reached before the counter wraps, sequence numbers are distinct and below the counter, and the comparator agrees with `eq` |
| DispatchRuns.AlwaysLawfulIff | crates/pnevma-agents/src/pool.rs:29-56 | the comparator agrees with `eq` on every queue a pool can reach if and only if `max + depth <= 2^64` |
| DispatchProtocol.QueuedOrderThroughout | crates/pnevma-agents/src/pool.rs:42-48 | before the counter wraps, what was handed out precedes in sequence everything of its priority handed out later or still queued |
| DispatchProtocol.HandOutOrder | crates/pnevma-agents/src/pool.rs:135-157 | each return is the most urgent item then queued and of its priority the smallest number; equal priorities are returned in the order queued while at most 2^64 were queued, and in every run when `max + depth <= 2^64 + 1` |
| DispatchProtocol.PassingNeedsAWrap | crates/pnevma-agents/src/pool.rs:139-157 | a hand-out passes an equal queued earlier only after more than 2^64 dispatches were queued, which takes `max + depth >= 2^64 + 2` |
| DispatchRuns.PassingHappens | crates/pnevma-agents/src/pool.rs:139-157 | for every such pool, a run from its empty state in which it happens |
| DispatchRuns.NobodyIsPassedIff | crates/pnevma-agents/src/pool.rs:139-157 | `wait_next` never passes over an equal queued earlier, in any run, if and only if `max + depth <= 2^64 + 1` |
| DispatchProtocol.HeapIsSortedQueue | crates/pnevma-agents/src/pool.rs:135-157 | over whole runs the heap holds what sorted insertion and removal from the front would hold, and each return is that queue's front; in every run when `max + depth <= 2^64 + 1` |
| DispatchRuns.NextIsDeterminedIff | crates/pnevma-agents/src/pool.rs:152-157 | what can be handed out is always a single item if and only if `max + depth <= 2^64 + 1` |
| DispatchProtocol.InternalRunsAreFinite | crates/pnevma-agents/src/pool.rs:145-170 | with no new call, drop or cancellation the number of steps left is bounded by a number read off the state |
| DispatchProtocol.SettledIffNoInternalStep | crates/pnevma-agents/src/pool.rs:145-170 | an internal step is possible exactly while someone is checking, notified, or releasing: there is no deadlock before that |
| DispatchProtocol.SettledPoolHasServedItsCallers | crates/pnevma-agents/src/pool.rs:145-170 | at rest there is no waiting caller, or no queued item, or no free slot |
| DispatchProtocol.SettlingServesInOrder | crates/pnevma-agents/src/pool.rs:145-170 | in whatever order the internal steps come, the pool comes to rest after handing out exactly the least of the queued items, the slots free or about to be, and the callers; these are the first so many of the sorted queue, in order |
| FailureText.ScanIsSound | crates/pnevma-agents/src/resilience.rs:5-15 | for every needle, empty and non-ASCII ones included, a match means a whole-word occurrence |
| FailureText.ScanFinds | crates/pnevma-agents/src/resilience.rs:5-15 | for a safe needle no whole-word occurrence is skipped by a non-overlapping match |
| FailureText.ScanMisses | crates/pnevma-agents/src/resilience.rs:5-15 | for every other needle, a text in which the scan misses a whole word |
| FailureText.ScanIsExactIffSafe | crates/pnevma-agents/src/resilience.rs:5-15 | the scan is right on all texts if and only if the needle's self-overlaps are all preceded by a letter or digit |
| FailureText.WordsAreScanSafe | crates/pnevma-agents/src/resilience.rs:94-104 | needles made of ASCII letters and digits are safe |
| FailureText.LettersAndDigitsJoinWords | crates/pnevma-agents/src/resilience.rs:7-9 | a word with one more character beside it is still found exactly when that character is no ASCII letter or digit, by code point |
| FailureText.WrappingLoweredNeverDowngrades | crates/pnevma-agents/src/resilience.rs:70-124 | on lowercased text, more text around a message set off by separators never lowers its class |
| FailureText.WrappingNeverDowngrades | crates/pnevma-agents/src/resilience.rs:70-124 | the same for the whole classification, lowercasing included, in the order Permanent < Transient < Stall |
| FailureText.NeverDowngradesIff | crates/pnevma-agents/src/resilience.rs:70-124 | a prefix and a suffix lower no message's class if and only if both are set off by something other than a letter or digit once lowercased, or they are not permanent themselves around a letter |
| FailureText.KelvinSignIsNoSeparator | crates/pnevma-agents/src/resilience.rs:71 | a message that is transient, and permanent with a Kelvin sign behind it: a non-ASCII character that lowercases to a letter |
| FailureText.DottedCapitalIsHalfASeparator | crates/pnevma-agents/src/resilience.rs:71 | behind a message the dotted capital I can lower its class, before it it cannot, because it lowercases to a letter and a combining dot |
| FailureText.CaseDoesNotMatter | crates/pnevma-agents/src/resilience.rs:71 | messages that differ only in the case of ASCII letters, by code point, get the same class; no capital is left after lowercasing and small letters stay |
| FailureText.CapitalsAreRecognized | crates/pnevma-agents/src/resilience.rs:71-91 | a message that begins with "DNS" is not permanent |
| FailureText.ServerCodesAreTransient | crates/pnevma-agents/src/resilience.rs:100-109 | a message with a status code between separators is transient, or a stall if it speaks of one, and never permanent |
| FailureText.CountedItemsLookLikeServerErrors | crates/pnevma-agents/src/resilience.rs:100-104 | "processed 500 items" is transient, unlike the comment says |
| FailureText.ClassByIndicators | crates/pnevma-agents/src/resilience.rs:70-124 | each class in terms of the literal indicator texts and words of the lowercased message: stall texts win, any other indicator is transient, the auth texts decide nothing |
| Retry.BackoffShape | crates/pnevma-agents/src/resilience.rs:127-141 | without jitter the delay is `max(1, min(base * 2^(attempt-1), max_delay))` and does not shrink up to attempt 2^31; a base of zero, whose product is not a number from attempt 1025 on, then waits for the cap |
| Retry.BackoffAfterTheCast | crates/pnevma-agents/src/resilience.rs:129-140 | past attempt 2^31 the delay is the base divided by the power of two that the wrapped exponent stands for, at least four |
| Retry.JitterBounds | crates/pnevma-agents/src/resilience.rs:132-140 | for every attempt the delay lies between `max(1, capped / 2)` and `max(1, capped)` |
| Retry.JitterSpreads | crates/pnevma-agents/src/resilience.rs:132-140 | the delay is linear in the sample from half the capped delay on, and above the floor a larger sample gives a strictly longer one |
| Retry.NeverShrinksIffCapIsOneSecond | crates/pnevma-agents/src/resilience.rs:127-141 | over all 32-bit attempts delays never shrink if and only if the cap is at most one second |
| Retry.DelayDropsAfterTwoToThe31 | crates/pnevma-agents/src/resilience.rs:129 | at attempt 2^31 the delay is the cap, one attempt later it is one second |
| Retry.RetryContext.constructor | crates/pnevma-agents/src/resilience.rs:213-222 | a new context has recorded nothing |
| Retry.RetryContext.RecordFailure | crates/pnevma-agents/src/resilience.rs:224-228 | the new state is the old one after that failure, with the fields' widths |
| Retry.RetryContext.ShouldRetry | crates/pnevma-agents/src/resilience.rs:230-235 | true exactly when an attempt is left and the last failure was transient or a stall |
| Retry.AttemptCountsFailures | crates/pnevma-agents/src/resilience.rs:224-235 | in a run that retries only when allowed, `attempt` counts the failures and there are at most `max(1, max_attempts)` |
| Retry.RetriesTransientAndStall | crates/pnevma-agents/src/resilience.rs:230-235 | after any run of failures a retry is allowed exactly when fewer than `max_attempts` occurred and the last was not permanent |
| Retry.RecordedBackoffIsTotal | crates/pnevma-agents/src/resilience.rs:226 | the stored sum is the time waited, modulo 2^64 |
| Retry.CappedTotal | crates/pnevma-agents/src/resilience.rs:130-140 | n delays under a cap add up to at most n times the cap |
| Retry.DoublingTotal | crates/pnevma-agents/src/resilience.rs:127-129 | n delays that at most double add up to at most `base * (2^n - 1)` |
| Retry.RetryRunIsBounded | crates/pnevma-commands/src/automation/runner.rs:1400-1405 | every retry run recording the delays of `compute_backoff` under any random samples has at most `max(1, max_attempts)` failures and waits at most `n * max(1, max_delay)` and, for a base of at least one, `base * (2^n - 1)`; when the stored sum is exact |
| Retry.HandleErrors | crates/pnevma-commands/src/automation/runner.rs:1400-1440 | the loop over error events with its context: what it records is such a run, and it fails at the first error that is not transient or has no attempt left, and only there |
| Retry.ContinuationState.constructor | crates/pnevma-agents/src/resilience.rs:156-166 | a new state has taken no turn |
| Retry.ContinuationState.RecordTurn | crates/pnevma-agents/src/resilience.rs:169-172 | the new state is the old one after that turn |
| Retry.ContinuationState.ShouldContinue | crates/pnevma-agents/src/resilience.rs:182-198 | true exactly when a turn is left and the last finish reason asks for more |
| Retry.HandleTurns | crates/pnevma-commands/src/automation/runner.rs:1386-1399 | for every sequence of finish reasons the cap never applies and all turns are taken |
| Retry.TurnsAreCounted | crates/pnevma-agents/src/resilience.rs:169-172 | `turn_count` is the number of turns taken modulo 2^32, so it passes `max_turns` in every longer run |
| Retry.GoesOnForThreeReasons | crates/pnevma-agents/src/resilience.rs:182-198 | after any run of turns the agent goes on exactly when turns are left and the last one ended with `max_tokens`, `length` or `tool_use` |
| Retry.CapIsAsDocumentedIff | crates/pnevma-commands/src/automation/runner.rs:1388-1392 | the cap behaves as its comment says exactly for the runs in which no turn from the `max_turns`-th on asks for more |
| ArArchive.OffsetsAdvance | scripts/normalize-static-archive.py:35-61 | the offset stays even, and moves forward exactly for sizes above -60 |
| ArArchive.ParseMembers | scripts/normalize-static-archive.py:28-63 | the loop returns what the recursive reading of the archive says, errors and endless runs included |
| ArArchive.ParseEndsForItsReason | scripts/normalize-static-archive.py:30-63 | every outcome is the case where the parser has got to: no magic, a size or name length that is no number, an offset that leads back to itself, or no whole header, with exactly the members read so far that are no symbol indexes |
| ArArchive.LoopsIffEndless | scripts/normalize-static-archive.py:35-61 | the outcome `Loops` stands exactly for the archives on which the script reads members for ever |
| ArArchive.ParserEnds | scripts/normalize-static-archive.py:42-61 | an archive without a minus sign, or in which every member the parser gets to moves the offset forward, is parsed to an end |
| ArArchive.ParserStandsStill | scripts/normalize-static-archive.py:42-61 | after any well-formed members, a header with a plain name and size -60 or -61 makes the parser loop there, whatever follows |
| ArArchive.EndlessArchive | scripts/normalize-static-archive.py:42-61 | a 68-byte archive on which the script never ends |
| ArArchive.ParseDecimal | scripts/normalize-static-archive.py:42 | reading a decimal number back gives the number |
| ArArchive.ParseSigned | scripts/normalize-static-archive.py:42 | a sign in front of the digits is read as one |
| ArArchive.ParseDigitsReadsNumerals | scripts/normalize-static-archive.py:42 | exactly digits with single underscores between them are read as a number, the one its digits make |
| ArArchive.ParseIntReadsSignedNumerals | scripts/normalize-static-archive.py:42 | the same with at most one sign in front; anything else is no number |
| ArArchive.BlanksAreStripped | scripts/normalize-static-archive.py:42 | which ASCII characters are stripped as white space, by code point |
| ArArchive.SlicesCountFromBothEnds | scripts/normalize-static-archive.py:36-54 | slice bounds count from the end when negative, are cut to the data, and select nothing when crossed |
| ArArchive.ReadImage | scripts/normalize-static-archive.py:36-61 | wherever a member's image stands at an even offset, one turn of the loop reads back its name and body and moves to its end |
| ArArchive.ParserRecoversMembers | scripts/normalize-static-archive.py:28-63 | on every well-formed archive, short and `#1/n` names mixed, the result is exactly the members that are not symbol indexes, in order |
| ArArchive.ParserReturnsObjects | scripts/normalize-static-archive.py:28-63 | on every well-formed archive the result is the members whose name does not begin with the nine characters `__.SYMDEF`, in order and with multiplicity |
| ArchiveNames.TagGoesBeforeFirstDot | scripts/normalize-static-archive.py:84-90 | a file name is the position, the member's name, and for a repeat its number before the name's first dot |
| ArchiveNames.PositionComesFirst | scripts/normalize-static-archive.py:84-90 | a file name begins with its position in decimal, padded to four digits and unpadded beyond, and an underscore |
| ArchiveNames.OutNamesDiffer | scripts/normalize-static-archive.py:84-90 | file names of different positions differ whatever the members are called, `x__dup1.o` included |
| ArchiveNames.RenamingRemovesDuplicates | scripts/normalize-static-archive.py:77-94 | the names written contain no duplicate, so a renamed archive counts as normalized |
| ArchiveNames.FilesDiffer | scripts/normalize-static-archive.py:84-93 | the files written for different positions differ, also when member names contain slashes |
| ArchiveNames.PlainNamesAreFiles | scripts/normalize-static-archive.py:92-93 | a member name without slash and NUL is written under its output name |
| ArchiveNames.WhichNamesAreFiles | scripts/normalize-static-archive.py:92-93 | a name is written to the part before its first slash, exactly when it has no NUL and only slashes and single dots follow |
| ArchiveNames.WriteNormalized | scripts/normalize-static-archive.py:66-94 | renaming happens exactly when a name repeats; it stops at the first member whose file cannot be written; otherwise the k-th repeat carries k, order is kept, and every body is stored under its own file name and never overwritten |
| SearchPath.ComposeGithubCliPath | crates/pnevma-commands/src/github_cli.rs:89-111 | the two passes over the segments give the specified path |
| SearchPath.FilterSeen | crates/pnevma-commands/src/github_cli.rs:105-109 | inserting into the seen set while filtering keeps the first of each segment |
| SearchPath.SplitUndoesJoin | crates/pnevma-commands/src/github_cli.rs:99-110 | colon-free segments joined by colons are split back into themselves |
| SearchPath.JoinUndoesSplit | crates/pnevma-commands/src/github_cli.rs:99-110 | splitting any path and joining the parts gives the path back |
| SearchPath.TrimRemovesOnlyWhite | crates/pnevma-commands/src/github_cli.rs:100 | trimming takes away white space at both ends, all of it and nothing else |
| SearchPath.WhiteSpaceIsTrimmed | crates/pnevma-commands/src/github_cli.rs:100 | which characters are trimmed, by code point |
| SearchPath.KeepFirstMeetsSpec | crates/pnevma-commands/src/github_cli.rs:105-109 | what is kept is every segment once, in the order of first occurrence |
| SearchPath.EarlierSegmentsComeFirst | crates/pnevma-commands/src/github_cli.rs:99-102 | segments are taken in the order of the caller's path |
| SearchPath.ComposedPathMeetsSpec | crates/pnevma-commands/src/github_cli.rs:89-111 | split again, the path starts with the six literal directories and holds exactly those and the caller's non-empty trimmed segments, each once, in the order of first occurrence |
| SearchPath.CompositionIsIdempotent | crates/pnevma-commands/src/github_cli.rs:89-111 | composing a composed path changes nothing |
| TeamSupport.ShellReadsBackQuoted | crates/pnevma-agents/src/team_support.rs:112-113 | the shell reads a quoted text as one word equal to the text and stops right after it |
| TeamSupport.ShimRunsHelper | crates/pnevma-agents/src/team_support.rs:110-113 | whatever the helper's path, the script is for `/bin/sh` and its words are `exec`, that path and `tmux` |
| TeamSupport.WithTmuxPaneToken | crates/pnevma-agents/src/team_support.rs:53-71 | the loop computes the override |
| TeamSupport.OverrideSetsOnlyThePane | crates/pnevma-agents/src/team_support.rs:53-71 | the pane variable is set, each of its entries carries the token, all others keep value and order, distinct names stay distinct |
| TeamSupport.LastOverrideWins | crates/pnevma-agents/src/team_support.rs:53-71 | overriding twice is overriding with the last token |
| AgentEnvironment.AllowedIsNeverDenied | crates/pnevma-agents/src/env.rs:90-125 | no name on the allowlist, by exact name or by prefix, is reserved or blocked |
| AgentEnvironment.DenylistNeverDecidesAtSpawn | crates/pnevma-agents/src/env.rs:127-181 | a name passes at spawn time if and only if it is an identifier of at most 128 bytes and on the allowlist |
| AgentEnvironment.RegistrationAcceptsUndeniedIdentifiers | crates/pnevma-agents/src/env.rs:185-218 | a name can be registered if and only if it is such an identifier and neither reserved nor blocked |
| AgentEnvironment.SpawnIsRegistrationPlusAllowlist | crates/pnevma-agents/src/env.rs:220-245 | the two gates accept and reject alike, for the same reason, except for names the allowlist lacks |
| AgentEnvironment.ReservedNamesAre | crates/pnevma-agents/src/env.rs:86-95 | the eight reserved names, in any spelling and no others |
| AgentEnvironment.BlockedNamesAre | crates/pnevma-agents/src/env.rs:97-125 | the blocked names, prefixes and secret endings, in any spelling and no others |
| AgentEnvironment.AllowedNamesAre | crates/pnevma-agents/src/env.rs:169-181 | the allowlisted names and prefixes, in any spelling and no others |
| AgentEnvironment.RejectionReasons | crates/pnevma-agents/src/env.rs:185-218 | which reason a name is turned away for, in the order of the checks |
| AgentEnvironment.EntriesPassWithSmallValues | crates/pnevma-agents/src/env.rs:220-245 | an entry passes exactly when its name does and its value is NUL-free and at most 16384 bytes long |
| AgentEnvironment.Utf8LengthAdds | crates/pnevma-agents/src/env.rs:131 | lengths are counted in UTF-8 bytes, one to four for a character |
| AgentEnvironment.BaseValuesAreUsable | crates/pnevma-agents/src/env.rs:247-260 | a base value is non-empty, NUL-free and within the limit; a usable value of the process wins over the default, and an oversized one is dropped |
| AgentEnvironment.FallbacksApply | crates/pnevma-agents/src/env.rs:72-80 | without a usable value of the process PATH, SHELL, TERM, LANG and LC_ALL are listed with their literal fallbacks and no other value, and HOME, USER and TMPDIR are not listed |
| AgentEnvironment.ListBeginsWithBase | crates/pnevma-agents/src/env.rs:262-271 | the list begins with the eight names in order, each with the process's value or its fallback, and nothing behind them is reserved |
| AgentEnvironment.BuildAgentEnvironment | crates/pnevma-agents/src/env.rs:262-299 | the two loops with their seen set compute the specified list |
| AgentEnvironment.AcceptedAreFirstValid | crates/pnevma-agents/src/env.rs:273-296 | exactly the first valid extra of each new name is accepted, and no name twice |
| AgentEnvironment.EarlierExtrasComeFirst | crates/pnevma-agents/src/env.rs:273-296 | further extras only add to the end of the list |
| AgentEnvironment.EnvironmentMeetsSpec | crates/pnevma-agents/src/env.rs:262-299 | names are pairwise distinct, base values come first and are never replaced, and the rest is exactly the first valid extra of each name |
| AgentEnvironment.EnvironmentIsIdempotent | crates/pnevma-agents/src/env.rs:262-299 | in one process environment, feeding the list back as extras gives the same list |
| AgentEnvironment.CaseDistinctIff | crates/pnevma-agents/src/env.rs:262-299 | the names in the list differ even when case is ignored if and only if no two valid extras have names that differ in case only |
| AgentEnvironment.CaseVariantsCoexist | crates/pnevma-agents/src/env.rs:290-295 | `ci` and `CI` are alike to every check and still both kept |
| Profiles.RateProfile | crates/pnevma-agents/src/profiles.rs:29-71 | the accumulated rating is the specified one, and its score counts ten for every matching position, five for a suiting model and one |
| Profiles.ScoreCountsMatches | crates/pnevma-agents/src/profiles.rs:33-59 | the score is ten for every position whose scope is among the stations, five for an Opus or Sonnet model at P0 or P1 or a Haiku model at P2 or P3, and one |
| Profiles.ReasonListsMatches | crates/pnevma-agents/src/profiles.rs:37-65 | the reason lists the matching scopes in order and then the model, separated by commas; it is the default exactly when the score is one |
| Profiles.SortByScore | crates/pnevma-agents/src/profiles.rs:75 | the sort yields the stable ranking |
| Profiles.RecommendProfile | crates/pnevma-agents/src/profiles.rs:22-77 | the result is the stable ranking of all profiles' recommendations |
| Profiles.RankedIsStable | crates/pnevma-agents/src/profiles.rs:75 | the ranking is sorted by descending score, and for each score it lists the same recommendations in the same order as its input |
| Profiles.StableRankingIsUnique | crates/pnevma-agents/src/profiles.rs:75 | no other list has that property |
| Profiles.FilteringCommutesWithRanking | crates/pnevma-agents/src/profiles.rs:75 | filtering before or after the ranking makes no difference |
| Profiles.RankingCommutesWithSelection | crates/pnevma-agents/src/profiles.rs:22-77 | recommending over any part of the profiles gives exactly that part of the full recommendation |

## Left out

Of the modelled code:

- Tokio's `Notify` and `Mutex` are taken by their documented contracts: a `Notified` future receives every
  `notify_waiters` call made after it was created, and the lock is exclusive. Which waiter gets the lock is left open.
- The standard library's heap is modelled as sift-up and sift-down in an array of `max_queue_depth` cells; its memory
  growth and its different way of sifting down are not. `usize` has 64 bits.
- Progress is stated as a bound on internal steps; that a scheduler eventually takes them is assumed.
- Retry.BackoffShape: delays are exact reals; rounding of `f64` and of durations is not modelled. Overflow to infinity
  is, where it shows: at a base of zero.
- Retry.HandleErrors: events other than errors between two errors, the sleep, and what is logged and stored.
- Counters wrap as in a release build; a debug build would panic instead.
- `RetryPolicy`'s default values, and the ten turns the runner allows: every policy and every limit is covered.
- `record_usage` adds up tokens and cost, and the stall detector compares clock readings; neither takes part in a
  decision modelled here.
- FailureText.NeverDowngradesIff: lowercasing is exact only for code points that lowercase to ASCII (A to Z, the Kelvin
  sign, the dotted capital I); all others are left as they are, which no needle and no boundary test can notice.
- Text is a sequence of code points; byte lengths are computed from them where the code measures bytes.
- ArArchive.ParserRecoversMembers: header text is ASCII and a name is read byte by byte; UTF-8 decoding with
  replacement characters and non-ASCII digits or blanks are not modelled.
- ArArchive.ParseMembers: the set of visited offsets is the model's own; it stands for a script that does not return,
  whose growing list of members is not modelled.
- ArchiveNames.WriteNormalized: limits on the length of file names, `libtool`, `ranlib`, the copy back and the printed
  messages. Output names start with different numbers, so a file system that ignores case keeps them apart as well.
- SearchPath.ComposeGithubCliPath: the PATH is valid Unicode, so the lossy conversion is the identity.
- TeamSupport.ShellReadsBackQuoted: the reader does not interpret double quotes, expansions, substitutions, comments or
  reserved words; it gives up on the first three, and the last two cannot begin with a quote.
- Writing the shim file, its permissions, and the search for the helper.
- AgentEnvironment.BuildAgentEnvironment: the process environment is a parameter, and a value that is not Unicode counts
  as absent. Error texts are an enumeration; log messages are left out.
- Profiles.RateProfile: scores are unbounded integers, so overflow of the 32-bit score (over 200 million matching
  scopes) is not modelled.
- Profiles.SortByScore: the standard library's stable sort is modelled as an insertion sort on a sequence value, not in
  place; that the stable ranking is unique makes the algorithm immaterial.

Of the rest of the repository:

- The Swift application, its tests and its build settings; `graveyard/`.
- Processes, files, keychains, network services and the adapters around them; serialization.
- `reconciler.rs` maps whether a claim's session is alive and whether its worktree exists to an action.
- `scripts/release-ci-green-runs.py` asks `gh` for recent runs, counts how many in a row were green, and prints a report.
