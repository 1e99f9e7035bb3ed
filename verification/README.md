# A Dafny model of TokenFuse's stateful kernels

TokenFuse is a gateway and a small cluster that meter, cache, redact and audit the calls of
language-model agents. Between its HTTP handlers lie a few kernels that hold state and promise
hard things about it. This project models those kernels and proves what they promise, over all
inputs and over whole runs. Where the code does not keep a promise of its own documentation,
the condition under which it does is stated and proved, with an input on which it does not.

`dafny verify dfyconfig.toml` checks everything.

## The modules

| file | kernel |
|---|---|
| `cache.dfy` | the semantic response cache: a dense store, a slot map, a bucketed index and a lazy queue of ages, as one age-ordered map |
| `stream.dfy` | bytes made of lines, and the chunked scanner with its marks |
| `checkpoint.dfy` | the checkpoint writer of one stream, and the search for the last record of its sidecar |
| `checkpoint_progress.dfy` | what that writer has to do, said of the stream and the sidecar alone |
| `checkpoint_runs.dfy` | what that writer keeps over whole runs, with other writers, torn appends, dying and reopening |
| `exporter.dfy` | the event exporter above it, and the chain of its lines |
| `ledger.dfy` | the replicated, hierarchical budget ledger |
| `store.dfy` | its two storage backends, in memory and in a transactional file |
| `jcs.dfy`, `numbers.dfy` | canonical JSON (RFC 8785) and its number form |
| `balancer.dfy` | the shard balancer and Graham's bound for it |
| `audit.dfy` | the audit chain and the signed manifest over its tip |
| `check_digits.dfy`, `dlp.dfy` | IBAN and Luhn checks, finding IBANs, keeping findings apart, redaction |
| `backtest.dfy` | the policy backtest |

Code that changes fields in place is a class here, and each of its methods is tied to a function
of the state before; the properties are about those functions. Code made of expressions is
functions. A failed read or write, a clock reading and the answer of a library are arguments.

## What the code relies on

These premises are stated where they are needed, as a `requires` or as the left side of an
implication, and nowhere else.

- Cache: clock readings do not run backwards between two puts. Without it every structural
  property still holds; only the oldest-first properties need it. Two texts never share a
  digest, where an answer is said to be the one put for that text.
- Ledger: a parent is opened before its child, and each settle closes one accepted reserve.
  `LateParentBreaksConservation` shows why. No oversubscription also asks that no settle charged
  to the run passes its hold and that its ceiling is not lowered under what is committed.
- Checkpoints: bytes already hashed are not rewritten under a look while the stream stays at least
  as long. On a stream that is only appended to this holds by itself (`AppendsIsAllowed`). After
  a torn sidecar append that could not be cut off, the process reopens before it writes again;
  `UncutBytesBreakTheChain` says what happens otherwise.
- Events: one exporter writes the file, and an event's line is a JSON object of which no shorter
  beginning is one. For the one chain, the look at the stream's end before a write succeeds;
  `GluedWithoutLineFeed` says what happens otherwise. A line behind a fragment that is not blank
  reads as no object (`NothingGlues`, met by `OneEventIsAFormat`), and a reader of the stream takes
  the hash of a line that the exporter took (`SameHashes`).
- Hashes are arguments. They are injective only in the lemmas that say so.
- Store: the consensus layer hands over committed entries in order after the last applied one.
  The table of the file gives no entries on an inverted range; the map in memory panics on one, as
  its documentation says, but only once something was put in it.

## Where the code and its documentation differ

- `put` says that a text stored before is exactly the same text, so its embedding, entities and
  length need no update. It is the same only up to white space around it, and what is compared
  stays that of the text it was first stored as: `ParaphraseIsServed`.
- The header of `checkpoint.rs` says a line is named as head only when a reader would call it an
  event. The fast path after an own append does not check the line cap: `HashedIsExact`,
  `OwnLineUnderTheCap`, `LongOwnLineIsNamed`.
- The same header says a stream found shorter is hashed again before any record is written. A
  tick does not look, so a record written after a cut can count lines that are gone:
  `WrittenIsTrue`, `TickIsTrue`, `TickAfterACut`. And a stream that is cut and grows back to the
  length hashed before is taken for unchanged: `AdvancedCatchesUp`, `EqualRegrowthGoesUnseen`.
- `emit` says that emitters cannot fork the chain and that the next write after a failed one links
  to the last line on disk. A write that stops exactly before its line feed leaves a whole event
  that is never counted: `EmitKeepsOneChain`, `BreakAtLineFeedForks`. Without a sidecar, or when
  its look fails, no line feed separates a fragment: `GluedWithoutLineFeed`, `GluedEventIsLost`.
- The ledger's saturating counters lose a hold at a run whose ceiling is the largest 64-bit
  number, and such a run can be oversubscribed once it gets a lower one: `Conservation`,
  `SaturationLosesAHold`, `LostHoldOversubscribes`. A run stays within its ceiling if and only if
  each settle charged to it finds its hold on the counter or has room without it:
  `WithinBudgetIfCovered`. At a run whose own ceiling is always lower the counters never saturate:
  `BoundedRunsAreSafe`.
- A reserve is said to fit every ancestor's budget. The walk ends after 64 runs, so those above are
  neither asked nor charged: `ChainHoldsEveryAncestor`, `TopOfTheTowerIsNotAsked`.
- Two `--together` prefixes that match one case put it in two items, and so does listing a case
  twice that none matches: `ItemsHoldEveryCaseOnce`, `PrefixGivenTwice`, `EachCaseIsInOneItem`,
  `ListedTwice`.
- The durable log leaves out an entry at the last 64-bit index where the in-memory one returns
  it, and the in-memory one panics on an inverted range: `AnswersAgree`, `LastIndexIsLeftOut`,
  `InvertedRangePanics`. Stopping between the two transactions of a purge can report a last entry
  below the purge: `StoppedPurge`, `StoppedPurgeReportsLess`.
- The IBAN check, which is there to tell an IBAN from a random run, cannot see a digit change
  places with the letter of eleven times its value (1 and B, 2 and M, 3 and X): `SwapBreaksIban`,
  `SwapGoesUnseen`.

## Model

| member | source | states |
|---|---|---|
| Cache.Partition.RemoveById | crates/core/src/cache.rs:327-345 | swap-removal keeps store, slots, index and view one; exactly the entry of the id is gone |
| Cache.Partition.FindExact | crates/core/src/cache.rs:347-357 | finds the entry of a text whatever texts share its bucket, and nothing else |
| Cache.Partition.SweepExpired | crates/core/src/cache.rs:365-381 | only expired answers go, and in age order all of them do; the work is paid for by records popped |
| Cache.Partition.EvictOverCap | crates/core/src/cache.rs:383-398 | the cap holds afterwards, and in age order no evicted answer is newer than one that stays |
| Cache.Partition.MaybeCompactOrder | crates/core/src/cache.rs:400-414 | an overgrown queue is rebuilt in age order with a live record for every entry; at most 2 records an entry and 16 more stay |
| Cache.Partition.MostSimilar | crates/core/src/cache.rs:487-533 | the first of the most similar entries that every guard lets through |
| Cache.Partition.Find | crates/core/src/cache.rs:466-533 | an unexpired exact answer if there is one, otherwise the most similar eligible entry; nothing is changed |
| Cache.Partition.Refresh | crates/core/src/cache.rs:561-582 | a stored text gets the new answer and age, same id and slot, and no second entry |
| Cache.Partition.Insert | crates/core/src/cache.rs:583-604 | a new text gets an entry that all four structures and the view show |
| Cache.Partition.Put | crates/core/src/cache.rs:535-607 | the view after a put is sweep, then refresh or insert with eviction, every answer shown stays the newest put for its key, and work plus three times the queue stays under three times the puts |
| Cache.SemanticCache.Get | crates/core/src/cache.rs:466-533 | a text is served its own unexpired answer, which is the latest put for it whatever buckets collide; without one, that of a text which the guards let answer it and none of which is more similar, and nothing only if there is no such text |
| Cache.SemanticCache.Put | crates/core/src/cache.rs:535-607 | only the named partition changes, and whatever it shows is compared as a text put for that key was; no partition passes the cap; evictions are oldest first under a rising clock |
| Cache.ParaphraseIsServed | crates/core/src/cache.rs:466-607 | from end to end: after a put, while its answer is shown and has not expired, a text with none of its own is served at least as similarly as by the text put, whenever entities, lengths and product let that answer it |
| Cache.ServedByText | crates/core/src/cache.rs:495-533 | serving by entry is serving by text |
| Cache.PutKeepsTexts | crates/core/src/cache.rs:535-607 | whatever is shown after a put was put for a text of its key, with that text's embedding, entities and length |
| Cache.SwapRemoved | crates/core/src/cache.rs:327-345 | moving the last entry into the hole keeps every other id's slot right |
| Cache.IndexRemoved | crates/core/src/cache.rs:327-345 | the buckets then name exactly the ids still stored, and none is empty |
| Cache.ViewRemoved | crates/core/src/cache.rs:327-345 | the view without the key is the store without the id |
| Cache.Inserted | crates/core/src/cache.rs:583-604 | a pushed entry with a new id keeps slots, buckets and view in step |
| Cache.Refreshed | crates/core/src/cache.rs:561-582 | overwriting a slot in place keeps them in step |
| Cache.ViewSize | crates/core/src/cache.rs:299-310 | as many answers are shown as entries stored: no text is stored twice |
| Cache.SweptIsFresh | crates/core/src/cache.rs:365-381 | stopping at the first unexpired record of a queue in age order leaves nothing expired |
| Cache.EvictedIsOldest | crates/core/src/cache.rs:383-398 | taking from the front, stale records in between, evicts answers of least age in order |
| Cache.LatestAfter | crates/core/src/cache.rs:535-607 | a put makes its answer the newest for its text and disturbs no other |
| Cache.AgedByOne | crates/core/src/cache.rs:575-606 | a record of now behind what is left of the queue keeps it in age order |
| Cache.CompactedIsAged | crates/core/src/cache.rs:400-414 | rebuilding by age from the entries keeps the queue in age order |
| Stream.ScanChunks | crates/core/src/checkpoint.rs:414-467 | whatever short reads the file comes in, the scan is its specification: bytes through the last line feed, lines, and the last `keep` marks |
| Stream.ScanResumes | crates/core/src/checkpoint.rs:414-467 | scanning on from a saved boundary with the saved hash ends where scanning from byte zero ends |
| Stream.MarksNonEmpty | crates/core/src/checkpoint.rs:437-452 | there is a mark for every line, and each ends its line, numbers it, starts where it does and holds what was hashed through it |
| Checkpoint.SearchWindow | crates/core/src/checkpoint.rs:494-528 | a window shows the tail exactly when it is the whole file or holds two line ends, and then the tail is right |
| Checkpoint.SidecarTail | crates/core/src/checkpoint.rs:484-529 | the doubling search ends; it gives up exactly when the last 16 MiB hold fewer than two line ends of a longer file; otherwise it returns the hash of exactly the last complete line and where that ends |
| Checkpoint.Checkpointer.Open | crates/core/src/checkpoint.rs:640-690 | a new writer, or a refusal with what is left of the sidecar, as the specification of opening says |
| Checkpoint.Checkpointer.NeedsNewline | crates/core/src/checkpoint.rs:704-717 | whether the stream ends in bytes after its last line feed, as far as reads succeed |
| Checkpoint.Checkpointer.AfterAppend | crates/core/src/checkpoint.rs:723-743 | the state after an own append, on the fast path and off it |
| Checkpoint.Checkpointer.Advance | crates/core/src/checkpoint.rs:748-769 | the state after reading on, for every failure of a read |
| Checkpoint.Checkpointer.MaybeWrite | crates/core/src/checkpoint.rs:777-791 | a record is written when one is due and a head can be named |
| Checkpoint.Checkpointer.Tick | crates/core/src/checkpoint.rs:772-775 | as `MaybeWrite`, without a look at the stream |
| Checkpoint.Checkpointer.Close | crates/core/src/checkpoint.rs:800-813 | reads on, then writes a close record if an event can be named |
| Checkpoint.Checkpointer.WriteRecord | crates/core/src/checkpoint.rs:822-884 | the sidecar and the chain after an append that goes through, tears and is cut, or tears and is not |
| CheckpointRuns.ScanIsExact | crates/core/src/checkpoint.rs:414-480 | the last mark names the last line, so the head read at it is the head of the bytes hashed |
| CheckpointRuns.AdvancedIsExact | crates/core/src/checkpoint.rs:748-769 | reading on keeps hash, offset, count and head at one line boundary, whatever the stream has become and whichever reads fail |
| CheckpointRuns.HashedIsExact | crates/core/src/checkpoint.rs:726-733 | the fast path keeps it so if and only if the head handed over is the one a reader would take |
| CheckpointRuns.OwnLineUnderTheCap | crates/core/src/checkpoint.rs:726-733 | for an event's own line and hash that is the line cap: the state stays exact if and only if the line is no longer than it |
| CheckpointRuns.LongOwnLineIsNamed | crates/core/src/checkpoint.rs:726-733 | an own line over the cap is named as head though no reader names it |
| CheckpointRuns.AppendedIsExact | crates/core/src/checkpoint.rs:723-743 | an own append keeps the boundary |
| CheckpointRuns.AdvancedCatchesUp | crates/core/src/checkpoint.rs:748-769 | after a look the hash is that of the stream through its last line feed, if and only if the bytes hashed before were not rewritten under it |
| CheckpointRuns.AppendedIsFaithful | crates/core/src/checkpoint.rs:723-743 | after an own append the state is a prefix of the stream, if and only if the fast path's bytes are the stream's, or the slow path's old bytes were not rewritten |
| CheckpointRuns.EqualRegrowthGoesUnseen | crates/core/src/checkpoint.rs:754-758 | a line replaced by one of its length is never seen |
| CheckpointRuns.WroteKeepsChain | crates/core/src/checkpoint.rs:822-884 | one more record keeps the sidecar one hash chain, whether the append goes through, tears and is cut, or tears and is not |
| CheckpointRuns.ReopenKeepsChain | crates/core/src/checkpoint.rs:640-645 | dying at any byte of an append and reopening goes on from the same chain, with the last record if it got through |
| CheckpointRuns.OursIsFound | crates/core/src/checkpoint.rs:501-506 | a sidecar this writer left, torn or not, is never refused as not its own |
| CheckpointRuns.UncutBytesBreakTheChain | crates/core/src/checkpoint.rs:859-861 | two records written after torn bytes that are still there leave a chain if and only if there were none |
| CheckpointRuns.ResumedKeeps | crates/core/src/checkpoint.rs:640-667 | opening starts at a line boundary of the stream with the chain of the sidecar |
| CheckpointRuns.NameableIsTrue | crates/core/src/checkpoint.rs:677-681 | a resume record names a line of the stream: its number, its head and the prefix through it |
| CheckpointRuns.WrittenIsTrue | crates/core/src/checkpoint.rs:584-884 | a record that an own append, a close or an opening writes is true of the stream as it stands at that write, and a tick's is if and only if the bytes hashed are still its first |
| CheckpointRuns.StepKeeps | crates/core/src/checkpoint.rs:584-884 | every step keeps state, chain and the truth of every record handed over, each with the stream of its time |
| CheckpointRuns.RunsAreKept | crates/core/src/checkpoint.rs:584-884 | over any run from an empty sidecar: the first record carries the genesis value, each later one the hash of the one before; each was handed over at some step, was true of the stream as it stood then if its writer had looked, and if a tick wrote it, exactly when the bytes hashed still began that stream |
| CheckpointRuns.AppendsIsAllowed | crates/core/src/checkpoint.rs:723-769 | on a stream that is only appended to, the premises of a look hold by themselves |
| CheckpointRuns.RecordsStayTrue | crates/core/src/checkpoint.rs:584-884 | on such a stream every record ever written covers the first lines of the stream as it stands at the end of the run |
| CheckpointRuns.TickIsTrue | crates/core/src/checkpoint.rs:772-791 | a record written without a look is true of the stream if and only if the hashed bytes are still its first |
| CheckpointRuns.TickAfterACut | crates/core/src/checkpoint.rs:772-791 | a tick after a cut writes a record of a line that is gone |
| CheckpointProgress.LookLeaves | crates/core/src/checkpoint.rs:748-769 | when reading on succeeds, and what it leaves: everything through the last line feed hashed and counted, its head if that is new and can be read, and the new lines waiting |
| CheckpointProgress.DueIsWritten | crates/core/src/checkpoint.rs:777-791 | a record is written exactly when 64 lines wait, or any for ten seconds, and a head is known; it names head, count and hash of just that, and nothing waits afterwards |
| CheckpointProgress.AppendIsTold | crates/core/src/checkpoint.rs:723-743 | after an own append everything is hashed and counted, with that record if it is due, and no record where the stream could not be looked at |
| CheckpointProgress.CloseNamesTheStream | crates/core/src/checkpoint.rs:800-813 | closing names the number of whole lines if and only if the look succeeds, the last of them can be named, the record fits and the disk takes it; then the sidecar has exactly that close record more |
| CheckpointProgress.NamedIsLast | crates/core/src/checkpoint.rs:672-680 | what a resume record names is the last of the final 4096 lines that is an event and can be read; nothing is named exactly when there is none |
| CheckpointProgress.OpeningNamesTheLastEvent | crates/core/src/checkpoint.rs:640-690 | opening starts from the whole lines of the stream and the complete records of the sidecar, with that resume record if one is asked for, and is refused exactly when it cannot be |
| Exporter.LastPiece | crates/core/src/agent_event.rs:1723-1733 | splitting line by line finds the last line that is not blank, a cut first one apart |
| Exporter.TailChainHash | crates/core/src/agent_event.rs:1710-1737 | the hash of the last worded line of the final 1 MiB, if it reads as an object |
| Exporter.TailContinues | crates/core/src/agent_event.rs:1710-1737 | after a finished event line a reopen finds the hash the chain goes on from, if and only if the line fits the window |
| Exporter.TailOfFragment | crates/core/src/agent_event.rs:1710-1737 | after a torn tail a reopen finds the hash of the fragment if that is a whole event and the window shows it, and otherwise nothing, whatever events come before |
| Exporter.RestartAfterTornTail | crates/core/src/agent_event.rs:1424-1444 | so it goes on with the chain if and only if the fragment only lacks its line feed and fits the window, or there was no event; otherwise a fresh chain begins |
| Exporter.EmitKeepsOneChain | crates/core/src/agent_event.rs:1543-1596 | whatever happens to an emit's write, the file stays one chain that `next` continues, if and only if the write does not stop exactly before its line feed |
| Exporter.BreakAtLineFeedForks | crates/core/src/agent_event.rs:1559-1596 | a write that stops there leaves a whole event, and the next event carries the same hash: a fork, unless the two hashes are equal |
| Exporter.GluedWithoutLineFeed | crates/core/src/agent_event.rs:1559-1596 | where no line feed was put first, for want of a sidecar or of a look that succeeds, a line is glued to a fragment, and the file stays the one chain that `next` continues if and only if the fragment was blank or the two events have one hash |
| Exporter.GluedEventIsLost | crates/core/src/agent_event.rs:1559-1596 | a fragment of one brace, and no line feed put first: the event after it is on disk as no event, and the next one will carry its hash |
| Exporter.NeverAFork | crates/core/src/agent_event.rs:1424-1599 | over any run of emits, failed writes, ticks and clean restarts every event line carries the hash of the event line before it |
| Exporter.OpenedIsOneChain | crates/core/src/agent_event.rs:1424-1444 | an exporter opened on an empty file, or on one chain whose last event fits the window, starts so |
| Exporter.EmitMeetsOwnHead | crates/core/src/agent_event.rs:1559-1596 | the head an emit hands to its sidecar is the one a reader finds at its line, up to the line cap |
| Exporter.RecordsOfEmitsStayTrue | crates/core/src/agent_event.rs:1504-1657 | exporter and sidecar together: over any run of emits, failed writes, ticks and restarts every record carries the hash of the one before and covers the first lines of the file as it stands at the end |
| Exporter.EmitIsReported | crates/core/src/agent_event.rs:1504-1599 | written is reported if and only if the file gained the event's line and line feed, at most behind one more line feed, and an error otherwise; `next` and the sidecar follow |
| Exporter.EmitTellsTheSidecar | crates/core/src/agent_event.rs:1569-1573 | after an emit in which nothing fails the sidecar's hash is the whole file's, its count the file's lines and its head the event, with a record of just that after 64 lines or ten seconds |
| Exporter.FineRunIsTold | crates/core/src/agent_event.rs:1504-1599 | so over any run of such emits |
| Exporter.NeverFarBehind | crates/core/src/agent_event.rs:1600-1611 | wherever the sidecar has not grown, less than 64 lines were added to the file |
| Exporter.ChainSink.Open | crates/core/src/agent_event.rs:1424-1444 | the chain is resumed from the file's tail |
| Exporter.ChainSink.Emit | crates/core/src/agent_event.rs:1504-1599 | file, chain and sidecar after one emit, for every way its write and looks can go; what it reports, and that the sidecar is told |
| Exporter.ChainSink.AttachCheckpoints | crates/core/src/agent_event.rs:1612-1630 | a second sidecar is refused; a resume record is asked for exactly when the chain is fresh, and names the last event |
| Exporter.ChainSink.CheckpointTick | crates/core/src/agent_event.rs:1635-1643 | a tick reaches the sidecar and nothing else, and writes exactly when a record is due |
| Exporter.ChainSink.CloseCheckpoints | crates/core/src/agent_event.rs:1647-1657 | closing leaves the chain, and names the stream's lines exactly when they can be |
| Ledger.LedgerState.ChainOf | crates/cluster/src/types.rs:110-127 | the walk's loop returns the ancestor walk |
| Ledger.LedgerState.Apply | crates/cluster/src/types.rs:145-224 | one entry changes the runs and answers as its meaning says, level by level of the ancestor walk |
| Ledger.AppliedIs | crates/cluster/src/types.rs:130-224 | what each entry does to each run, and every field of its reply: the run's counters after it, those of the first level without room and what it would need, or nothing of an unknown run |
| Ledger.ChainIsWalk | crates/cluster/src/types.rs:110-127 | on every state, cyclic ones included, the chain is the ancestor walk: no id twice, at most 64, stopping only where it must |
| Ledger.WalkIsUnique | crates/cluster/src/types.rs:110-127 | and that fixes it |
| Ledger.ReserveIsAllOrNothing | crates/cluster/src/types.rs:167-206 | a reserve is accepted exactly when every level fits; refused, it changes nothing and names the first level that does not |
| Ledger.ChainHoldsEveryAncestor | crates/cluster/src/types.rs:110-127 | the chain holds ancestors only, and holds every one if and only if its walk was not cut at the depth of 64 below a known run |
| Ledger.ReserveFitsEveryAncestor | crates/cluster/src/types.rs:167-206 | a reserve whose walk is not cut is accepted exactly when its run is known and every ancestor, at any height, has room |
| Ledger.TopOfTheTowerIsNotAsked | crates/cluster/src/types.rs:115-117 | from an empty ledger, 64 runs under one that has nothing to spend: a reserve at the lowest goes through |
| Ledger.ChainNeverChanges | crates/cluster/src/types.rs:145-165 | a run's chain is fixed by the entry that opened it |
| Ledger.NextTotals | crates/cluster/src/types.rs:145-224 | the exact totals held and paid at every run after one entry |
| Ledger.ConservedStep | crates/cluster/src/types.rs:145-224 | an entry keeps a run's counters exact if and only if none of its additions to them saturates, whatever it adds at other runs |
| Ledger.Conservation | crates/cluster/src/types.rs:145-224 | over whole logs a run's reserved and spent are the totals of the runs that roll up into it, if and only if no addition to its own counters along the log saturates |
| Ledger.RunIsItsHistory | crates/cluster/src/types.rs:145-224 | over any log a run has the ceiling it was given last, the parent it was given first and its accepted reserves counted at 32 bits |
| Ledger.RepliesReportTheHistory | crates/cluster/src/types.rs:130-224 | from an empty ledger, where its counters never saturate, an accepted reply reports the exact totals held and paid under the run, its last ceiling and how many of its reserves were accepted |
| Ledger.CoveredStep | crates/cluster/src/types.rs:145-224 | a prudent entry keeps a run within its ceiling if and only if it is not a settle whose hold is missing from the counter and for which there is no room either |
| Ledger.WithinBudgetIfCovered | crates/cluster/src/types.rs:145-224 | over any prudent log, legal or not and whatever saturates, a run is never committed past its ceiling if and only if every settle charged to it is covered so |
| Ledger.NeverSaturatesIsCovered | crates/cluster/src/types.rs:145-224 | over a legal log every settle is covered while the run's counters do not saturate |
| Ledger.NoOversubscription | crates/cluster/src/types.rs:145-224 | so over legal logs prudent at a run, in which its own counters never saturate, they stay exact and it is never committed past its ceiling, at any level of any tree; nothing is asked of other runs |
| Ledger.BoundedRunsAreSafe | crates/cluster/src/types.rs:145-224 | a run whose own ceiling is under the largest 64-bit number needs no such premise: its counters stay exact and it is never oversubscribed, also under a parent without a limit |
| Ledger.FreshLedgerIsSafe | crates/cluster/src/types.rs:104-224 | in particular every such run from an empty ledger |
| Ledger.SaturationLosesAHold | crates/cluster/src/types.rs:93-98 | a legal log whose counter forgets a hold |
| Ledger.LostHoldOversubscribes | crates/cluster/src/types.rs:145-224 | a legal, prudent log from an empty ledger that ends with 20 spent under a ceiling of 10, after a hold was forgotten |
| Ledger.LateParentBreaksConservation | crates/cluster/src/types.rs:156-165 | from an empty ledger, a parent opened after its child and its hold misses an amount that rolls up into it |
| Store.LogStore.Append | crates/cluster/src/store.rs:95-113 | at every index the last of the entries for it, and elsewhere what was there |
| Store.LogStore.Truncate | crates/cluster/src/store.rs:115-122 | exactly the entries at and above the index go |
| Store.LogStore.Purge | crates/cluster/src/store.rs:124-132 | exactly the entries up to the index go |
| Store.LogStore.TryGetLogEntries | crates/cluster/src/store.rs:44-50 | no answer on an inverted range of a log that was ever used, where the map panics; otherwise exactly the entries with an index between the bounds, once each, by rising index |
| Store.LogStore.GetLogState | crates/cluster/src/store.rs:56-68 | the highest entry, or what was purged |
| Store.RedbLogStore.TryGetLogEntries | crates/cluster/src/redbstore.rs:115-137 | no answer when a converted bound overflows; otherwise, with an end, exactly the entries between the bounds by rising index; without one, those below the last index |
| Store.ListIsRange | crates/cluster/src/redbstore.rs:128-135 | there is one list of the entries of a range by rising index |
| Store.RedbLogStore.GetLogState | crates/cluster/src/redbstore.rs:143-158 | the highest entry, or what was purged |
| Store.RedbLogStore.SaveVote | crates/cluster/src/redbstore.rs:164-166 | one transaction, with the vote |
| Store.RedbLogStore.SaveCommitted | crates/cluster/src/redbstore.rs:172-177 | one transaction, with the committed id or its absence |
| Store.RedbLogStore.Append | crates/cluster/src/redbstore.rs:183-204 | one transaction, with the last of the entries at every index |
| Store.RedbLogStore.Truncate | crates/cluster/src/redbstore.rs:206-222 | one transaction |
| Store.RedbLogStore.Purge | crates/cluster/src/redbstore.rs:224-241 | two transactions, the purged id first |
| Store.LogsAgree | crates/cluster/src/redbstore.rs:162-241 | without a crash the file holds what the in-memory store holds after any operations |
| Store.AnswersAgree | crates/cluster/src/redbstore.rs:115-158 | and both answer a query alike if and only if its range is not an inverted one of a log that was ever used, no bound of it overflows, and it has an end or no entry lies at the last 64-bit index |
| Store.LastIndexIsLeftOut | crates/cluster/src/redbstore.rs:124-127 | an entry appended at the last index is read back by the one and not by the other |
| Store.InvertedRangePanics | crates/cluster/src/store.rs:44-50 | the range from 5 to before 3 panics in memory, once anything was appended, and is empty in the file |
| Store.RangeOfOneIndex | crates/cluster/src/store.rs:44-50 | the range of one index holds its entry if both bounds include it, nothing if one does, and panics if neither does |
| Store.RangeHolds | crates/cluster/src/store.rs:44-50 | a range holds exactly the entries with an index in it |
| Store.StoppedPurge | crates/cluster/src/redbstore.rs:224-241 | stopping inside a purge: reads above it are the same, and the last entry reported is the finished purge's if and only if the log was empty, passed it or ended at it |
| Store.StoppedPurgeReportsLess | crates/cluster/src/redbstore.rs:224-241 | a purge to 10 of a log that ends at 3, stopped inside: 3 is reported as last and 10 as purged |
| Store.PurgeAgain | crates/cluster/src/redbstore.rs:224-241 | purging again finishes a stopped purge |
| Store.StateMachineStore.Apply | crates/cluster/src/store.rs:243-265 | a batch leads from what some entries lead to, to what those and the batch lead to, and each answer is that to its entry after all before |
| Store.StateMachineStore.BuildSnapshot | crates/cluster/src/store.rs:201-224 | the snapshot is the state applied so far |
| Store.StateMachineStore.InstallSnapshot | crates/cluster/src/store.rs:277-293 | the state is the snapshot's |
| Store.RedbStateMachineStore.constructor | crates/cluster/src/redbstore.rs:275-304 | what was stored is loaded |
| Store.RedbStateMachineStore.Apply | crates/cluster/src/redbstore.rs:395-420 | as in memory, and one transaction, with the state in memory |
| Store.RedbStateMachineStore.BuildSnapshot | crates/cluster/src/redbstore.rs:348-373 | as in memory, and one transaction |
| Store.RedbStateMachineStore.InstallSnapshot | crates/cluster/src/redbstore.rs:432-452 | as in memory, and two transactions, the state first |
| Store.AppliedLeadsTo | crates/cluster/src/redbstore.rs:395-420 | applying more entries leads on: last id, last membership and ledger are those of all the entries, and so is each answer |
| Store.StepIsSafe | crates/cluster/src/redbstore.rs:275-452 | one operation, completed, stopped between any two transactions and reopened, or failed at any of them with the process going on, keeps the states and snapshots, in memory and in the file, exact for the committed log; file and memory are one after every reopening, and stay one while nothing fails |
| Store.RunsAreSafe | crates/cluster/src/redbstore.rs:275-452 | over any run of them the states and snapshots are exact for some part of the log from its start |
| Store.StepMoves | crates/cluster/src/redbstore.rs:275-452 | where in the log one operation leaves memory and file: a completed batch moves both by its entries, one stopped before its commit moves neither, one that failed moves memory only, and a snapshot moves both to its place |
| Store.StepSnapshots | crates/cluster/src/redbstore.rs:348-452 | a snapshot built is of the memory's place; it, or one installed, is in memory once the operation has ended and in the file once its own transaction has |
| Store.ApplyLeavesSnapshots | crates/cluster/src/redbstore.rs:395-420 | a batch leaves the snapshots alone |
| Store.RunsMove | crates/cluster/src/redbstore.rs:275-452 | over any run memory and file are at exactly those places: no entry is lost and none applied twice |
| Store.CommittedBatchesAddUp | crates/cluster/src/redbstore.rs:395-420 | since a start or an install, and while no transaction fails, the file is as far on as the batches committed |
| Store.NewNodeIsSafe | crates/cluster/src/redbstore.rs:275-304 | a new file starts so, one with memory |
| Store.LastAppliedFixesTheLedger | crates/cluster/src/redbstore.rs:395-452 | where ids do not repeat, two states or snapshots that name one last id are one |
| Store.LedgerIsReplay | crates/cluster/src/redbstore.rs:395-420 | a stored ledger is the replay of the committed requests that the ledger's theorems are about |
| Jcs.Writer.WriteValue | crates/core/src/jcs.rs:37-93 | the recursion appends exactly the canonical text |
| Jcs.CanonReadsBack | crates/core/src/jcs.rs:31-93 | reading the canonical text back gives the value, objects as maps and numbers by value |
| Jcs.CanonIsCanonical | crates/core/src/jcs.rs:31-93 | two values have one text if and only if they are the same value |
| Jcs.MemberOrderDoesNotShow | crates/core/src/jcs.rs:70-90 | the text does not depend on the order of members |
| Jcs.NumbersMeanTheirValue | crates/core/src/jcs.rs:42-52 | integers and floats mean one number exactly when they denote it |
| Jcs.KeyOrderIsTotal | crates/core/src/jcs.rs:70-80 | the order of keys by UTF-16 code units is a strict total order |
| Jcs.KeyOrderIsByUnits | crates/core/src/jcs.rs:70-80 | it is that of the first code unit that differs, a beginning first |
| Jcs.UnitsAreUtf16 | crates/core/src/jcs.rs:75-80 | beyond the first plane a character is a high and a low surrogate of ten bits each |
| Jcs.MembersAreInOrder | crates/core/src/jcs.rs:70-90 | an object's members are printed in that order, each key once |
| Jcs.Utf16IsInjective | crates/core/src/jcs.rs:75-80 | because no two texts have the same code units, surrogate pairs included |
| Jcs.StringReadsBack | crates/core/src/jcs.rs:53-59 | every escaped string reads back as it was |
| Jcs.EscapesAreShortest | crates/core/src/jcs.rs:53-59 | only quotes, backslashes and control characters are escaped, in the short form where there is one and otherwise in lower-case hex |
| Jcs.WholeIsNormal | crates/core/src/jcs.rs:42-46 | an integer's text is the normal form of its number |
| Jcs.CanonIsOneLine | crates/core/src/jcs.rs:31-93 | the text holds no control character, so it is one line of a stream |
| Numbers.EsNumberKeepsValue | crates/core/src/jcs.rs:109-164 | in all four placements the text denotes exactly the number |
| Numbers.FormOfNumber | crates/core/src/jcs.rs:109-164 | the exponent form is printed exactly from 10^21 on and below 10^-6, with one digit before the point; otherwise the point stands where the number has it |
| Numbers.EsNumberIsCanonical | crates/core/src/jcs.rs:109-164 | two spellings have one text if and only if they are one number |
| Numbers.EsNumberIsNormalText | crates/core/src/jcs.rs:109-164 | the text is that of the normal form, whatever the spelling |
| Numbers.NormalIsUnique | crates/core/src/jcs.rs:109-164 | a number has one normal form |
| Numbers.TextReadsBack | crates/core/src/jcs.rs:130-164 | the text of a normal form reads back as it |
| Numbers.SignificantDigits | crates/core/src/jcs.rs:109-129 | dropping the zeros around the digits and moving the point finds the normal form |
| Balancer.MakeItems | scripts/teeth-rebalance.py:93-102 | groups, then single cases, in falling order |
| Balancer.StartsWithIs | scripts/teeth-rebalance.py:95 | a case belongs to a group if it is the prefix and anything more, or nothing |
| Balancer.Deal | scripts/teeth-rebalance.py:104-110 | the dealing is greedy, the loads are what was dealt, and each case is printed with its item's shard |
| Balancer.LightestIsFirstLeast | scripts/teeth-rebalance.py:107 | the shard picked is the first of the lightest and no other |
| Balancer.SortedIsStable | scripts/teeth-rebalance.py:102 | weights fall, items of one weight keep their order, none is lost |
| Balancer.LoadsSumToAll | scripts/teeth-rebalance.py:104-110 | the shards carry all of the weight |
| Balancer.LongItemsFit | scripts/teeth-rebalance.py:104-110 | while every item is longer than a third of the best, greedy is the best |
| Balancer.ShortItemsFit | scripts/teeth-rebalance.py:104-110 | a short item lands within an even share of what came before |
| Balancer.GreedyIsNearBest | scripts/teeth-rebalance.py:93-110 | no shard is above 4/3 - 1/(3n) times the heaviest of any other assignment |
| Balancer.ItemsHoldEveryCaseOnce | scripts/teeth-rebalance.py:93-101 | the items hold every case as often as it is listed if and only if no case starts with two prefixes |
| Balancer.PrefixGivenTwice | scripts/teeth-rebalance.py:93-101 | the default prefix given once more deals its case twice |
| Balancer.CaseLoadPermutes | scripts/teeth-rebalance.py:93-110 | a shard's load does not depend on the order of its cases |
| Balancer.EachCaseIsInOneItem | scripts/teeth-rebalance.py:93-101 | no case is in two items if and only if none starts with two prefixes and each that starts with none is listed once |
| Balancer.ListedTwice | scripts/teeth-rebalance.py:104-119 | a case listed twice: the printed file runs both on one shard, 8 seconds where 6 are the best and 7 the bound |
| Balancer.BalancedWithinFourThirds | scripts/teeth-rebalance.py:93-119 | where no case is in two items, the printed file runs every case, keeps groups together, and is within that bound of any file that does |
| Balancer.NoFileIsMuchBetter | scripts/teeth-rebalance.py:93-110 | the bound holds of the loads whenever the items are the cases |
| Audit.SanitizeField | crates/core/src/audit.rs:69-78 | every control character is replaced, with the shortcut for a text that has none |
| Audit.SanitizedIsClean | crates/core/src/audit.rs:69-78 | no separator is left, a text is unchanged exactly when it held no control character, and twice is once |
| Audit.HexLower | crates/core/src/audit.rs:85-92 | two digits a byte |
| Audit.HexIsInjective | crates/core/src/audit.rs:85-92 | no two byte strings have one text |
| Audit.HexIsHex | crates/core/src/audit.rs:85-92 | the two digits of each byte are its lower-case hex |
| Audit.VerifyChain | crates/core/src/audit.rs:173-196 | accepts exactly the chains all of whose entries have their number, name the hash before and carry their own, and otherwise names the first entry that does not |
| Audit.IntactMeans | crates/core/src/audit.rs:173-196 | a chain is intact if and only if every entry does |
| Audit.JoinedIsUnique | crates/core/src/audit.rs:97-110 | joined fields split one way as soon as one side's hold no separator |
| Audit.UnsanitizedFieldsCollide | crates/core/src/audit.rs:55-68 | without sanitizing, two tuples have one pre-image |
| Audit.AppendedIs | crates/core/src/audit.rs:97-144 | an appended entry holds what it was given, with U+FFFD for control characters, counts on, names the hash before, and its own hash is the hex of the digest of its fields in their order |
| Audit.AppendKeepsBuilt | crates/core/src/audit.rs:116-144 | appending keeps a built chain one, whatever the fields hold |
| Audit.SigningTextIs | crates/core/src/audit.rs:157-166 | what is signed: org, tip number and hash, number of entries and time, in that order |
| Audit.BuiltIsIntact | crates/core/src/audit.rs:116-144 | a built chain verifies and holds no separator |
| Audit.EqualHashEqualEntry | crates/core/src/audit.rs:97-110 | equal hashes mean equal entries when one was appended |
| Audit.EqualTipEqualChain | crates/core/src/audit.rs:116-196 | a chain that verifies with the tip hash of an appended chain is that chain, entry for entry |
| Audit.ManifestReadsFromTheRight | crates/core/src/audit.rs:157-166 | equal signed texts mean equal manifests, whatever the org's name, if and only if the other's tip hash holds no separator |
| Audit.ForgedHashSignsAlike | crates/core/src/audit.rs:157-166 | with a separator in the hash two manifests sign alike |
| Audit.SignedManifestFixesTheChain | crates/cloud/src/audit_sign.rs:74-98 | a chain that verifies and signs alike is the chain that was signed, for the same org and time |
| CheckDigits.IbanChecksumHolds | crates/core/src/dlp.rs:352-365 | holds exactly when the whole rearranged number, letters written out, is 1 modulo 97 |
| CheckDigits.LettersAreDigits | crates/core/src/dlp.rs:352-365 | letters of either case go on from the digits |
| CheckDigits.RemIsWhole | crates/core/src/dlp.rs:352-365 | the piecewise remainder is the whole number's, for every length |
| CheckDigits.SubstitutionIsSeen | crates/core/src/dlp.rs:352-365 | one character for another of its class leaves the remainder if and only if their values are equal |
| CheckDigits.SubstitutionBreaksIban | crates/core/src/dlp.rs:352-365 | the same of a passing IBAN at any position of its compact text |
| CheckDigits.SwapIsSeen | crates/core/src/dlp.rs:352-365 | two characters read one after the other change places: the remainder stays if and only if their values are equal or one is a digit and the other eleven times it |
| CheckDigits.SwapBreaksIban | crates/core/src/dlp.rs:352-365 | the same of a passing IBAN, wherever in its compact text the two stand |
| CheckDigits.SwapGoesUnseen | crates/core/src/dlp.rs:352-365 | two texts of the 22 characters of a British IBAN that both pass, one with B1 where the other has 1B |
| CheckDigits.LuhnValid | crates/core/src/dlp.rs:370-394 | holds exactly of digit strings whose Luhn sum is a multiple of ten |
| CheckDigits.LuhnSumIs | crates/core/src/dlp.rs:370-394 | from the right every second digit is doubled, the last is not, and a double of two digits counts as their sum |
| CheckDigits.LuhnSubstitutionIsSeen | crates/core/src/dlp.rs:370-394 | one digit for another keeps the check if and only if it is the same digit |
| CheckDigits.LuhnSwapIsSeen | crates/core/src/dlp.rs:370-394 | two neighbours changing places keep it if and only if they are equal, or 0 and 9 |
| Dlp.ReadIban | crates/core/src/dlp.rs:318-336 | reads capital letters and digits with single spaces between, no further than the length, and stops early only where the text does not go on |
| Dlp.ReadIsTheOnlyEnd | crates/core/src/dlp.rs:318-336 | if any end gives the country's length, the reader finds it |
| Dlp.ScanIbans | crates/core/src/dlp.rs:304-347 | exactly the IBANs at the given starts are found |
| Dlp.CompactIsFound | crates/core/src/dlp.rs:304-347 | an IBAN written without spaces, of the length its first two letters are registered with, is one of those found |
| Dlp.WordGoesOn | crates/core/src/dlp.rs:314-343 | what a candidate may hold, and what may not follow it, as ASCII characters |
| Dlp.DedupOverlaps | crates/core/src/dlp.rs:412-424 | the loop keeps what its specification keeps of the sorted findings |
| Dlp.DedupKeepsApart | crates/core/src/dlp.rs:412-424 | whatever spans are found, empty ones too: what is kept lies apart, and every dropped finding is empty or overlaps a kept one that starts no later |
| Dlp.LonelyIsKept | crates/core/src/dlp.rs:412-424 | a finding that is not empty and overlaps no other is never dropped |
| Dlp.Redact | crates/core/src/dlp.rs:427-438 | replacement from the end, skipping what does not fit the text as it stands |
| Dlp.TokenIsText | crates/core/src/dlp.rs:434-436 | a finding gives way to `[REDACTED:` and its kind and `]` |
| Dlp.RedactionIsSplice | crates/core/src/dlp.rs:427-438 | for findings that lie apart, in any order, that is the splice from the left which keeps every byte outside them, for any number of them and any length of token |
| Dlp.ScannedTextIsSpliced | crates/core/src/dlp.rs:412-438 | and so it is for whatever was found and de-overlapped |
| Backtest.ReplayPolicy | crates/core/src/backtest.rs:63-127 | the nested loops compute the report |
| Backtest.TallyIsReplay | crates/core/src/backtest.rs:78-121 | exactly the calls are let through before and at which no limit of the run is passed, and which pass none of their own; all others, and only they, are counted as blocked and saved |
| Backtest.RunIsConserved | crates/core/src/backtest.rs:78-121 | of one run: blocked and let-through calls and costs make all of them, and every limit holds of what is let through |
| Backtest.ReportIsConserved | crates/core/src/backtest.rs:63-127 | the same of the whole report |
| Backtest.OrderDoesNotShow | crates/core/src/backtest.rs:64-79 | the report does not depend on the order of the trace when calls of one run and step cost the same |
| Backtest.OrderShowsInEqualSteps | crates/core/src/backtest.rs:64-121 | no order of a trace shows under any policy, if and only if its calls of one run and step cost the same |
| Backtest.EqualStepsShowTheOrder | crates/core/src/backtest.rs:79 | with two calls of one step it does |
| Backtest.LooserNeverSavesMore | crates/core/src/backtest.rs:85-121 | with no negative cost, raising the run budget or step limit never saves more, blocks more or affects more runs |
| Backtest.LooserSavesMoreByNegativeCosts | crates/core/src/backtest.rs:85-121 | of a trace of one run, no looser limit ever saves more if and only if no call has a negative cost |
| Backtest.NegativeCostSavesMore | crates/core/src/backtest.rs:85-121 | with a negative cost it can |

## Left out

- Rounding of floats: shard loads are real numbers.
- Cache.Partition.MostSimilar: similarities and length ratios are real numbers, so 32-bit rounding and the ties it makes are not modelled.
- Overflow of 64-bit times and of the backtest's 64-bit sums; sequence numbers of the audit chain past 64 bits.
- Embeddings, entity extraction, regular expressions, JSON parsing, shortest float digits, SHA-256, ES256 and the choice of a key: their results are arguments.
- Locks: each object's methods run one at a time, as they do under the source's locks.
- Counters kept for logs only (`stats`, skipped and failed writes, nonconforming ids).
- A file read that is cut short in the middle of one scan: a scan reads the bytes there were when it began, or fails as a whole.
- Serialisation of stored ledgers and log entries: what is written is read back as it was.
- Unpadded base64url of signatures: it regroups bits, chunk by chunk.
- Raft itself, transports, tokens, HTTP handlers, dashboards, device pairing.
- The rest of the PII scan (`scan_pii`, `part_of_a_decimal`): it strings together the checks that are here.
- Reading logs and calling other programs in the balancer: the model starts from the weighted cases.
- A partition's `get` in shadow mode answers as in the source; what the gateway then serves is not part of this model.
- Store.RedbLogStore.TryGetLogEntries: a bound past the last index gives no answer, where the source panics or wraps with the build.
- Ledger.LedgerState.Apply: the step counter wraps past 32 bits, as in a release build; a debug build panics there.
- Exporter.NeverAFork: other processes that write events to the same file are not part of it, since their lines start chains of their own.
