# Verified models of the Stellar agent marketplace

Dafny models of the algorithms and protocols of the repository that do not depend on a network once the
outside calls are answers from a parameter. Code that changes state in place is modelled by classes and
methods with loops, each proved against a specification function or a state machine; the hard
results are lemmas about those specifications, for all inputs, all runs and all interleavings.
`dafny verify dfyconfig.toml` checks the whole project.

| Module | Source | Subject |
|---|---|---|
| TaskGraph, Orchestrator | agents/orchestrator/index.ts | dependency-ordered execution and failure propagation |
| Json, JsonDecoding, JsonReader, StateDump | scripts/state-dump.ts | canonical JSON and the text behind the state root |
| PromiseMutex, SequenceManager, SequenceTraces, BaseClient | sdk/src/baseClient.ts | promise-chain mutex and sequence-number allocator |
| RateLimiter | dashboard/lib/rateLimiter.ts | sliding-window limiter |
| PythonTypes | scripts/generate-python-client.py | Soroban-to-Python type translation |
| Amount | sdk/src/format.ts | decimal amounts |
| Csv, Revenue | dashboard/server.ts | CSV export, revenue buckets |
| Sse | indexer/src/events.ts | server-sent event frames |
| Poller, PollerRuns | indexer/src/poller.ts, indexer/src/db.ts | ingestion and reorg recovery |
| Watcher, WatcherTraces | agents/watcher/watcher.ts | refund guards and refunds |
| Migrations | indexer/src/db.ts | schema migrations |
| Reputation | indexer/src/reputation.ts | scores and percentiles |
| Discovery | dashboard/lib/discovery.ts | exponential probe and binary search |
| Wrappers, Strings, Decimal, Division, Ordering, StringOrder | | shared values and arithmetic |

## How the models are set up

- Oracles. Provider lookup, escrow and polling of one task are one function `attempt` of the task and its
  dependencies' deliverables. Network answers of the poller, the sequence manager and the watcher are parameters of the
  steps; clocks are parameters. SHA-256 is any function of its text.
- Concurrency. In PromiseMutex, SequenceManager and Watcher one step is one await-to-await segment of one call,
  and a run is any sequence of enabled steps of any number of calls. BaseClient gives the same segments as methods of
  the objects and proves each equal to its step.
- Numbers. `bigint` is `int`. Reputation uses exact reals. JSON numbers are the integers a JavaScript number holds
  exactly.
- Readers of JSON, CSV and event streams follow RFC 8259, RFC 4180 and the HTML Standard, not the printers they judge.
- Strings are sequences of Unicode scalar values; JavaScript's `<` is modelled by UTF-16 code units (StringOrder).
- The event store of Poller is taken from how poller.ts uses it: the three-argument `insertEventsBatch` and
  `getIndexedLedgerHash` are not in db.ts. A batch is one transaction that any row, or the final watermark write, can fail.

## What the proofs show about the code that its comments do not say

- A task graph with a cycle or a missing dependency still has one outcome whatever the order of the map; exactly the
  tasks that reach neither can complete (`TaskGraph.OutcomeUnique`, `TaskGraph.DoneIsWellFounded`).
- For every dump, the state root is independent of the order of fetching if and only if entries fetched more than once
  agree on what is hashed (`StateDump.OrderNeverShowsIff`).
- `parseAmount` is called the inverse of `formatAmount`; it is so exactly for amounts that are not negative, lose no
  digit to `precision`, and are not given a comma (`Amount.ReadsBackIff`).
- `formatSseFrame` splits data on LF only: a frame arrives intact exactly when its data has no CR, its name and id have
  no line end and its id no NUL (`Sse.DeliveredIffSafe`).
- `toCsv` writes a row without cells like a row with one empty cell (`Csv.ToCsv`).
- Reorg recovery is documented to rewind to the last verified ancestor. When the walk back meets none the watermark stays
  and nothing at or below it is removed (`Poller.RecoveryRewinds`); recovery then succeeds exactly if the store was right
  for the new chain all along (`Poller.RecoverySucceedsIff`). A ledger without a stored hash ends the walk back, and a
  poll stores the newest ledger's hash only, so after any poll that advances by two ledgers or more nothing can be met
  (`Poller.JumpBlocksRecovery`; `Poller.OrphanStays` is such a store).
- A poll stores all answers or none, but a contract whose events cannot be fetched counts as one without events: the
  watermark passes them for good (`PollerRuns.FailedFetchSkips`). When every poll advances by one ledger, recovery does
  reach the fork (`PollerRuns.ForkIsRecovered`).
- A failure between the two writes of the recovery loses the new chain's events between the match and the old watermark,
  if there are any (`Poller.InterruptedAtMatch`; `Poller.EventIsLost` is such a round).
- In the watcher the `skip_locked` branch and the comparison with `Submitted` never decide anything
  (`Watcher.LockBranchIsDead`, `Watcher.SubmissionDecides`).
- With gaps in the ids `findMaxId` finds the greatest one exactly if certain ids at fixed positions exist, and answers 0
  although id 1 exists exactly if others at fixed positions do not (`Discovery.GreatestIsFoundIff`, `Discovery.HiddenIff`).

## Model

| member | source | states |
|---|---|---|
| TaskGraph.CompletingKeepsConsistent | agents/orchestrator/index.ts:324-329 | recording a deliverable keeps every execution invariant: completed tasks have all dependencies completed and carry their attempt's deliverable, dependents of failed tasks are failed, each task is tried once and after its dependencies |
| TaskGraph.FailingKeepsConsistent | agents/orchestrator/index.ts:287-322 | the same for a failed attempt with its failure spread downstream, from all three failure exits |
| TaskGraph.FailureHits | agents/orchestrator/index.ts:205-226 | a failure fails exactly the tasks that reach it, none of which was completed |
| TaskGraph.EveryRunConsistent | agents/orchestrator/index.ts:237-329 | safety over every run: the invariants hold after any sequence of ready tasks |
| TaskGraph.DoneReaches | agents/orchestrator/index.ts:240-245 | everything a completed task transitively depends on exists and is completed |
| TaskGraph.OutcomeUnique | agents/orchestrator/index.ts:237-329 | on every graph, two finished executions end with the same statuses and deliverables |
| TaskGraph.RunOrderIrrelevant | agents/orchestrator/index.ts:259-279 | the order in which ready tasks are picked leaves no trace in the final statuses |
| TaskGraph.FinalStatus | agents/orchestrator/index.ts:240-245 | a task's final status as a function of its dependencies' final statuses and its own attempt |
| TaskGraph.AttemptedOnUpstream | agents/orchestrator/index.ts:278-328 | a task whose dependencies all delivered ends as its attempt ends on exactly their deliverables, in declaration order |
| TaskGraph.StallMeansCycleOrMissing | agents/orchestrator/index.ts:265-275 | a task left waiting reaches a cycle or a missing dependency |
| TaskGraph.EndlessWaitIsCycle | agents/orchestrator/index.ts:265-275 | in a finite graph tasks that each wait for another of them contain a cycle |
| TaskGraph.DoneIsWellFounded | agents/orchestrator/index.ts:240-245 | a completed task reaches no cycle and no missing dependency |
| TaskGraph.AcyclicNeverStalls | agents/orchestrator/index.ts:237-329 | on an acyclic graph with no missing dependency every task ends completed or failed |
| TaskGraph.CompletedIffAllSucceed | agents/orchestrator/index.ts:205-329 | such a task is completed if and only if it and every transitive dependency succeed, and failed otherwise |
| Orchestrator.CollectDependents | agents/orchestrator/index.ts:206-218 | the fixpoint loop terminates and collects exactly the tasks that reach the failed one |
| Orchestrator.HandlePartialFailure | agents/orchestrator/index.ts:205-226 | in place, everything that reaches the failed task and is not completed becomes failed, and nothing else changes |
| Orchestrator.FindReady | agents/orchestrator/index.ts:259-263 | the ready list holds exactly the ready tasks, the map's first one first |
| Orchestrator.RunTask | agents/orchestrator/index.ts:278-329 | one iteration changes the statuses exactly as trying that task does, the intermediate running status included |
| Orchestrator.Advance | agents/orchestrator/index.ts:259-329 | an iteration either extends the run by a ready task, leaving fewer tasks waiting, or shows the run complete |
| Orchestrator.ExecuteDag | agents/orchestrator/index.ts:237-329 | the loop terminates on every graph, cyclic ones included, and leaves the statuses of a complete run that always tries the map's first ready task; it gives up as stalled if and only if some task is left waiting, hence never on an acyclic graph without missing dependencies |
| Orchestrator.OneRun | agents/orchestrator/index.ts:259-278 | which tasks are tried and in which order is determined: a map has one complete run that always picks the first ready task |
| Orchestrator.PlansAreAcyclic | agents/orchestrator/index.ts:71-145 | no goal is planned with a cycle or a missing dependency, so no planned graph stalls |
| Orchestrator.PlanTasks | agents/orchestrator/index.ts:71-145 | the map built holds the planned tasks in order, all pending, and its graph has no cycle and no missing dependency |
| Orchestrator.StalledMeansWaiting | agents/orchestrator/index.ts:252-275 | while not every task is collected some task is waiting: none is left running |
| JsonDecoding.ValueDecodes | scripts/state-dump.ts:476-487 | unique decoding: a canonical text followed by anything that does not start with a digit has one value and one rest, values told apart by key-order-insensitive equality |
| JsonDecoding.QuoteDecodes | scripts/state-dump.ts:477-478 | the same for quoted strings, every escape included |
| JsonDecoding.SameValuePrintsSame | scripts/state-dump.ts:483-486 | values equal up to key order at any depth print the same |
| JsonDecoding.CanonicalIffSame | scripts/state-dump.ts:476-487 | two values print the same if and only if they are equal up to key order |
| JsonReader.ValueReads | scripts/state-dump.ts:476-487 | a reader of the grammar of RFC 8259 takes a canonical text, whatever text follows it that does not continue a number, for its value with the keys of every object ascending, and leaves what follows |
| JsonReader.CanonicalIsShortest | scripts/state-dump.ts:476-487 | no text that reads as the same value up to key order is shorter: a canonical text has no white space and no escape it could do without |
| StringOrder.LessIsUtf16 | scripts/state-dump.ts:483-495 | the order of keys and entries is the lexicographic one of their UTF-16 encodings |
| StateDump.DedupKeyInjective | scripts/state-dump.ts:691 | the joined key never confuses two (contract, key) pairs |
| StateDump.Dedup | scripts/state-dump.ts:689-692 | the Map keeps one entry per (contract, key), the last one fetched |
| StateDump.RootTextIffSameState | scripts/state-dump.ts:489-508 | when duplicates agree, two dumps hash the same text if and only if they hold the same set of entries |
| StateDump.ComputeStateRoot | scripts/state-dump.ts:489-508 | the root is the hash of the shortest text that a reader of RFC 8259 takes for the array of the deduplicated entries, each with exactly its contract, key, kind and raw value, ordered by contract, kind and key as UTF-16 |
| StateDump.RootTextReads | scripts/state-dump.ts:498-508 | the hashed text reads as the array of the entries in their order, each an object of exactly contract, key, kind and raw value with that entry's contents, and is the shortest such text |
| StateDump.RootTextIffSameSurvivors | scripts/state-dump.ts:489-508 | two dumps hash the same text if and only if the entries that survive deduplication agree on everything hashed |
| StateDump.OrderNeverShowsIff | scripts/state-dump.ts:688-694 | for every dump: all orders of fetching its entries give the same text if and only if entries fetched more than once agree on everything hashed |
| StateDump.DisagreeingDuplicatesShow | scripts/state-dump.ts:688-694 | the smallest dump whose order shows: two fetches of one key that disagree |
| PromiseMutex.EnqueueKeepsOk | sdk/src/baseClient.ts:196-200 | queueing keeps the chain coherent: each unresolved promise belongs to one call, which awaits its predecessor |
| PromiseMutex.EnterKeepsOk | sdk/src/baseClient.ts:201-203 | entering once the awaited promise resolved keeps it |
| PromiseMutex.ReleaseKeepsOk | sdk/src/baseClient.ts:204-206 | releasing, after a returning or a throwing body, keeps it |
| PromiseMutex.ExclusiveInCallOrder | sdk/src/baseClient.ts:195-207 | at most one body is active, and it is the earliest call not yet released |
| PromiseMutex.SomeoneMayProceed | sdk/src/baseClient.ts:195-207 | while some call has not released, one is inside or may enter now |
| SequenceManager.StepKeepsInv | sdk/src/baseClient.ts:252-298 | every segment of every call keeps all locks coherent, the cache equal to a sequential allocator's, and each number logged once by the call that returns it |
| SequenceManager.RunKeepsInv | sdk/src/baseClient.ts:252-298 | so does every interleaving of any number of calls for any accounts |
| SequenceManager.AtMostOneInside | sdk/src/baseClient.ts:269-298 | per account at most one body is active, and it is the earliest call not yet released |
| SequenceManager.ConsecutiveBetweenResyncs | sdk/src/baseClient.ts:269-286 | numbers handed out for an account between resyncs are consecutive, hence distinct |
| SequenceManager.FirstIsFetchedPlusOne | sdk/src/baseClient.ts:273-281 | a number handed out while the log holds none for its account since the start or the last resync is the fetched number plus one |
| SequenceManager.ReturnedNumbersAreLogged | sdk/src/baseClient.ts:269-286 | every number a call returned is in the log under that call and its account |
| SequenceManager.NoDeadlock | sdk/src/baseClient.ts:195-298 | while a call is unfinished, some segment of some unfinished call can run, with failing fetches included |
| SequenceTraces.ResyncIsLogged | sdk/src/baseClient.ts:293-297 | a `resync` that ended ended without a number, and the log has exactly one entry of it, saying that its account's number was dropped |
| SequenceTraces.EndsWithoutNumberThrew | sdk/src/baseClient.ts:269-286 | a `next` that ended without a number threw because its own fetch was rejected, and a number logged as fetched is the network's answer to that call |
| SequenceTraces.NextAfterResync | sdk/src/baseClient.ts:269-297 | once a `resync` has ended, a `next` for its account that begins later returns a number counted up, one by one, from what the network answered a fetch made after that resync |
| SequenceTraces.EveryCallReturns | sdk/src/baseClient.ts:195-298 | while no call begins a run takes at most six segments per call, and when none is left every call has returned, failing fetches included |
| BaseClient.Mutex.Queue | sdk/src/baseClient.ts:196-200 | the object's new tail and the promise to await are those of the mutex model |
| BaseClient.Mutex.Release | sdk/src/baseClient.ts:204-206 | the `finally` block resolves this call's promise only |
| BaseClient.AccountSequenceManager.constructor | sdk/src/baseClient.ts:236-249 | a new manager is the initial state |
| BaseClient.AccountSequenceManager.Begin | sdk/src/baseClient.ts:252-253 | calling `next` or `resync` performs the start step |
| BaseClient.AccountSequenceManager.FindOrCreateLock | sdk/src/baseClient.ts:253-260 | the registry body performs its step, and never replaces an existing mutex or shares one |
| BaseClient.AccountSequenceManager.ReleaseRegistry | sdk/src/baseClient.ts:204-206 | leaving the registry performs its step |
| BaseClient.AccountSequenceManager.QueueForAccount | sdk/src/baseClient.ts:270-271 | queueing on the account's mutex performs its step and touches no other mutex |
| BaseClient.AccountSequenceManager.NextBody | sdk/src/baseClient.ts:272-285 | with a cached number the body hands out the next one, otherwise it goes on to fetch, as its step does |
| BaseClient.AccountSequenceManager.NextFetched | sdk/src/baseClient.ts:274-281 | an answer plus one is cached for the account and handed out, as the step does |
| BaseClient.AccountSequenceManager.NextFailed | sdk/src/baseClient.ts:274 | a failing fetch caches nothing and performs its step |
| BaseClient.AccountSequenceManager.ResyncBody | sdk/src/baseClient.ts:295-297 | the body of `resync` forgets the account's number and no other, logs that, and performs its step |
| BaseClient.AccountSequenceManager.ReleaseAccount | sdk/src/baseClient.ts:204-206 | leaving the account's mutex performs its step |
| RateLimiter.SlidingWindowRateLimiter.constructor | dashboard/lib/rateLimiter.ts:16-30 | fractional and non-positive options become whole numbers of at least one |
| RateLimiter.SlidingWindowRateLimiter.DropExpired | dashboard/lib/rateLimiter.ts:41-45 | splicing off the expired prefix keeps exactly the timestamps inside the window |
| RateLimiter.SlidingWindowRateLimiter.Check | dashboard/lib/rateLimiter.ts:33-65 | the request is let in if and only if fewer than the limit were let in during the window that ends now; `remaining` is how many more would be let in at this moment, `retryAfterSeconds` the least whole number of seconds after which a denied one is; the bucket holds as many timestamps as the window has, never more than the limit |
| RateLimiter.SlidingWindowRateLimiter.Prune | dashboard/lib/rateLimiter.ts:68-77 | a key is kept if and only if a request of it was let in during the window that ends now, with as many timestamps as there were; nothing a later check would count is lost |
| RateLimiter.AnyRun | dashboard/lib/rateLimiter.ts:33-78 | over any run of checks and prunes every answer is the one described for a check after what was let in before it, equals that of a limiter that keeps every accepted request, and no window of the window length holds more accepted requests than the limit |
| RateLimiter.NaiveAnswers | dashboard/lib/rateLimiter.ts:47-64 | over the full history: let in if and only if the window has room, `remaining` exactly how many more, `retryAfterSeconds` the first whole second with room |
| RateLimiter.OneAnswer | dashboard/lib/rateLimiter.ts:47-64 | only one answer is like that |
| RateLimiter.AcceptKeepsWindows | dashboard/lib/rateLimiter.ts:47-60 | accepting only when the trailing window has room keeps every window, wherever placed, within the limit |
| RateLimiter.RetryAfterIsHonest | dashboard/lib/rateLimiter.ts:48-55 | a denied key is let in after the advertised wait if nothing else was accepted meanwhile |
| RateLimiter.KeepAfterTwice | dashboard/lib/rateLimiter.ts:38-45 | dropping what is already too old never changes what a later window counts |
| PythonTypes.NormalizeTypeName | scripts/generate-python-client.py:159-172 | the loop over prefixes drops the first one that leaves a scalar's name |
| PythonTypes.ScalarIsRecognised | scripts/generate-python-client.py:104-172 | a scalar's name maps to its own type bare and behind each prefix, though some names themselves start with one |
| PythonTypes.SplitGenericArgs | scripts/generate-python-client.py:219-236 | the depth-counting loop yields the stripped non-empty pieces between commas at depth zero |
| PythonTypes.PiecesKeepAll | scripts/generate-python-client.py:219-236 | joining the pieces with commas gives back the text, balanced or not |
| PythonTypes.SplitRecovers | scripts/generate-python-client.py:219-236 | from any comma-joined list of parts that close their brackets and have no comma at depth zero, those parts come back stripped, the blank ones dropped |
| PythonTypes.ArgumentsAreSplit | scripts/generate-python-client.py:219-236 | if none is blank, all of them come back in order |
| PythonTypes.WrittenIsNeat | scripts/generate-python-client.py:219-236 | every well-formed type, written with any white space, closes its brackets and hides its commas inside them |
| PythonTypes.TranslatesWritten | scripts/generate-python-client.py:175-216 | translating any text that writes a well-formed type, however spaced, gives that type's Python hint |
| PythonTypes.ShowWrites | scripts/generate-python-client.py:175-216 | every well-formed type has such a text |
| PythonTypes.PrintedTypeTranslates | scripts/generate-python-client.py:175-216 | printing a type and translating the text gives its hint |
| PythonTypes.HintsSpelledOut | scripts/generate-python-client.py:183-209 | the text of the hint for options, vectors, maps of two and of other numbers of arguments, and tuples, from the hints of what they hold |
| PythonTypes.ScalarsSpelledOut | scripts/generate-python-client.py:104-129 | integers of every width are `int`, bare or behind a prefix, and the other scalars their own types |
| PythonTypes.StrippingTakes | scripts/generate-python-client.py:166 | stripping takes white space at both ends, all of it and nothing else |
| PythonTypes.PartsAreShort | scripts/generate-python-client.py:195-208 | parts are no longer than the text split, so the recursion terminates |
| Amount.FormatThenParse | sdk/src/format.ts:43-155 | parsing a formatted amount gives it back, for every amount from zero and every scale |
| Amount.PrecisionTruncates | sdk/src/format.ts:65-71 | with a lower precision the amount read back is rounded down to the digits shown |
| Amount.GroupedReadsBack | sdk/src/format.ts:73-78 | grouping only inserts commas, and the text is read back if and only if the whole part is below a thousand |
| Amount.CommaPlaces | sdk/src/format.ts:73-76 | counted from the right every fourth character is a comma and no other |
| Amount.NegativeIsRefused | sdk/src/format.ts:118-120 | a formatted negative amount starts with a minus sign and is refused for it |
| Amount.ReadsBackIff | sdk/src/format.ts:43-155 | the round trip holds if and only if the amount is not negative, loses no digit and gets no comma |
| Amount.PrintsBackIffCanonical | sdk/src/format.ts:106-155 | of the accepted texts exactly the canonical ones are what formatting writes for their value |
| Amount.CanonicalForm | sdk/src/format.ts:43-155 | formatting what was read gives a canonical text of the same value, which formatting and parsing leave alone |
| Amount.ParsePlain | sdk/src/format.ts:106-155 | digits before and after the point are read at their decimal weight |
| Amount.AcceptedIff | sdk/src/format.ts:106-143 | accepted are digits, or digits on both sides of one point with no more behind it than the decimals, and nothing else; which error is raised for the rest |
| Amount.TrimTakes | sdk/src/format.ts:111 | trimming takes white space at both ends, all of it and nothing else |
| Amount.FormatOptions | sdk/src/format.ts:54-58 | formatting fails exactly for negative options, and assumes seven decimals and full precision |
| Csv.FieldReadsBack | dashboard/server.ts:2082-2088 | an escaped cell followed by a comma or CRLF is read back by section 2 of RFC 4180 as its text, a missing value as the empty one |
| Csv.RecordReadsBack | dashboard/server.ts:2091-2097 | a written row is read back as one record with its cells, a row without cells as one empty cell |
| Csv.TableReadsBack | dashboard/server.ts:2091-2097 | so is a whole table |
| Csv.ToCsv | dashboard/server.ts:2091-2097 | the text is read back as exactly the headers and rows if and only if none is without cells |
| Csv.WritingIsInjective | dashboard/server.ts:2091-2097 | tables with different readings are written differently |
| Csv.TableIsShortest | dashboard/server.ts:2082-2097 | no text that reads as the same table is shorter: a cell is quoted only if it must be |
| Sse.FrameIsRead | indexer/src/events.ts:273-291 | read by sections 9.2.5 and 9.2.6 of the HTML Standard, a safe frame followed by anything dispatches its own event and leaves the client idle |
| Sse.StreamIsRead | indexer/src/events.ts:273-291 | a stream of safe frames is received as exactly their events in order, an id holding until the next |
| Sse.StreamKeepsClean | indexer/src/events.ts:273-291 | no text whatever makes a client hold a CR in data, a line end in a name or id, or NUL in an id |
| Sse.DeliveredIffSafe | indexer/src/events.ts:273-291 | a frame is received as exactly its event if and only if it is safe |
| Sse.FormatSseFrame | indexer/src/events.ts:273-291 | the text built delivers the frame exactly, to every client, if and only if it is safe |
| Sse.SplitThenUnsplit | indexer/src/events.ts:285-288 | splitting data on line feeds and ending every line gives the data back |
| Sse.FrameLines | indexer/src/events.ts:273-291 | a frame's lines are id, event and retry in this order and only if given, one data line for each line of the data, and an empty one |
| Poller.EventStore.DeleteEventsFromLedger | indexer/src/db.ts:466-474 | exactly the events from the ledger on are removed, in place, and their number returned |
| Poller.EventStore.InsertEventsBatch | indexer/src/poller.ts:422-429 | when no write fails the events are appended, the watermark moved and its hash recorded, all other hashes staying; wherever the batch fails nothing changes |
| Poller.SorobanEventPoller.DetectAndRecoverReorg | indexer/src/poller.ts:231-290 | the walk-back loop and the two writes leave the specified store, resume one past its watermark, and count recoveries |
| Poller.SorobanEventPoller.Poll | indexer/src/poller.ts:324-443 | one poll changes the store as specified, on every failure of detection, of the network and of the batch; one that writes ends at the newest ledger with its reported hash recorded |
| Poller.WalkBackMeets | indexer/src/poller.ts:258-271 | the walk back finds a ledger if and only if it matches, is in reach, and every ledger above it is recorded and does not match |
| Poller.RecoveryRewinds | indexer/src/poller.ts:251-289 | the ledger met is the greatest match below the old watermark and becomes the watermark, everything above it and nothing at or below is removed; with none met the watermark stays |
| Poller.RewindBounds | indexer/src/poller.ts:258-271 | recovery never rewinds below the first ledger nor above the watermark |
| Poller.PollKeepsIndexed | indexer/src/poller.ts:324-443 | on an unforked chain a poll with complete answers extends the stored events to exactly the chain's up to the newest ledger, and any other leaves the store alone |
| Poller.RunKeepsIndexed | indexer/src/poller.ts:324-443 | over any run the stored events are the chain's from the first ledger to the watermark, once per listing of their contract |
| Poller.ExactlyOnce | indexer/src/poller.ts:324-443 | with distinct contracts each wanted event up to the watermark is stored exactly once |
| Poller.RecoveryIsExactIff | indexer/src/poller.ts:231-443 | recovery and a complete poll give exactly the new chain's events if and only if both chains agree up to the ledger rewound to |
| Poller.RecoverySucceedsIff | indexer/src/poller.ts:231-443 | if equal hashes mean equal events up to a ledger, stored hashes are the old chain's and headers the new one's, recovery and a complete poll succeed if and only if the walk back meets a match or the store was right all along |
| Poller.MetAgrees | indexer/src/poller.ts:262-266 | then a match met means that the chains agree up to it |
| Poller.UnrecordedLedgerBlocks | indexer/src/poller.ts:261-262 | without a hash recorded one below the watermark nothing is met, whatever matches further down |
| Poller.JumpBlocksRecovery | indexer/src/poller.ts:424-429 | after a poll that advances by two ledgers or more no later fork can be walked back |
| Poller.RunKeepsHashesBelow | indexer/src/poller.ts:424-429 | on an unforked run no hash is recorded above the watermark |
| Poller.OrphanStays | indexer/src/poller.ts:258-274 | a store polled at ledgers 1 and 3 keeps an event the new chain does not have, although ledger 1 still matches |
| Poller.InterruptedRecoveryLeavesGap | indexer/src/poller.ts:273-274 | after a failure between the two writes the store has the old chain's events up to the cut and the new chain's past the old watermark |
| Poller.InterruptedIsExactIff | indexer/src/poller.ts:273-274 | that is right for the new chain if and only if the chains agree up to the cut and the new chain has no wanted event from there to the old watermark |
| Poller.InterruptedAtMatch | indexer/src/poller.ts:258-274 | with a match met nothing is lost if and only if the new chain has no wanted event above the match up to the old watermark |
| Poller.InterruptedWithoutMatch | indexer/src/poller.ts:258-274 | with none met the store ends right if and only if it was right before |
| Poller.EventIsLost | indexer/src/poller.ts:273-274 | a round at which the new chain's event of ledger 3 is lost |
| PollerRuns.PollRecordsHash | indexer/src/poller.ts:422-429 | a poll that writes records the newest ledger's reported hash, and no poll, recovery included, changes any other |
| PollerRuns.PollAdvances | indexer/src/poller.ts:324-443 | when no write fails and there is a newer ledger, the poll ends at it with every answer it got added to what recovery kept |
| PollerRuns.RunReaches | indexer/src/poller.ts:324-443 | from the empty store, while the newest ledger moves up by one at a time and no write fails, the watermark moves with it whatever else fails |
| PollerRuns.RunRecords | indexer/src/poller.ts:324-443 | from the empty store, if every poll that writes advances by one ledger and reports its hash, the chain's hashes are recorded for exactly the ledgers indexed |
| PollerRuns.ForkIsRecovered | indexer/src/poller.ts:231-443 | from the empty store: after such a run, a fork above a ledger in reach whose headers are obtained is detected, the store is rewound to that ledger, and one complete poll leaves exactly the new chain's events |
| PollerRuns.PollIsExactIff | indexer/src/poller.ts:345-429 | a poll that writes keeps the store exact if and only if the answers together are exactly the chain's events from where it resumed to the newest ledger |
| PollerRuns.FailedFetchSkips | indexer/src/poller.ts:409-429 | when a contract's events cannot be fetched the watermark passes them: they are not stored and the next poll resumes above them |
| Watcher.JobExpirationWatcher.Begin | agents/watcher/watcher.ts:136-157 | both guards are tested and set as specified |
| Watcher.JobExpirationWatcher.End | agents/watcher/watcher.ts:161-165 | both guards are cleared for this job only |
| Watcher.JobExpirationWatcher.Tick | agents/watcher/watcher.ts:122-130 | of repeated records of a job the first enters, and only if the job was not in flight |
| Watcher.StepKeepsInv | agents/watcher/watcher.ts:112-220 | every segment, chain read and refund keeps both guards equal to the active calls' jobs, and every call that took or reports a refund in the log |
| Watcher.RunKeepsInv | agents/watcher/watcher.ts:112-220 | so does every interleaving of overlapping ticks, with no hypothesis on the chain |
| Watcher.KeptRunKeepsRefunds | agents/watcher/watcher.ts:168-220 | if a refunded job is never Funded again, no call is ever on its way to refund one already refunded |
| Watcher.GuardsHoldActiveJobs | agents/watcher/watcher.ts:140-165 | on every run `inFlight` and `locks` hold exactly the jobs of the active calls, one call per job |
| Watcher.NoTwoRefundsInProgress | agents/watcher/watcher.ts:136-166 | on every run no job has two refunds in progress |
| Watcher.RefundedAtMostOnce | agents/watcher/watcher.ts:168-220 | if a successful refund leaves its job no longer Funded for good, each job is refunded at most once over a run |
| Watcher.ReportedRefundIsReal | agents/watcher/watcher.ts:192-215 | on every run a call that reports a refund made one, of its own job |
| Watcher.ReportedRefundIsOnly | agents/watcher/watcher.ts:192-215 | under the same hypothesis it is the job's only one |
| Watcher.LockBranchIsDead | agents/watcher/watcher.ts:145-150 | the per-job lock never stops a call the in-flight guard let through |
| Watcher.SubmissionDecides | agents/watcher/watcher.ts:180-190 | a call that submits expires if and only if the provider had submitted: the test for the status Submitted never decides |
| Watcher.NothingIsLeftLocked | agents/watcher/watcher.ts:161-165 | once no call is active the guards are empty and any job can be taken up again |
| WatcherTraces.EveryCallExplained | agents/watcher/watcher.ts:136-215 | every call of every run: skipped if and only if a call was already dealing with its job when it began; otherwise it ends without a report only if its read failed, it read the job missing or not Funded, or its submission was reported failed |
| WatcherTraces.ReadingBinds | agents/watcher/watcher.ts:172-215 | from its read on, a call that read the job Funded is about to submit, submitting, or ended as its submission was reported |
| WatcherTraces.SuccessIsRefunded | agents/watcher/watcher.ts:172-215 | a call that read the job Funded and whose submission was reported a success reports a refund and made exactly one, of its job, expiring if and only if it had read a submission |
| WatcherTraces.RefundsFollow | agents/watcher/watcher.ts:172-215 | every refund is of a job its call read Funded, with the action that read calls for |
| WatcherTraces.EveryCallEnds | agents/watcher/watcher.ts:112-220 | while no call begins the calls take at most five steps each, whatever the chain does; when none is left every call was skipped or finished and no job is guarded |
| Migrations.Database.RunMigrations | indexer/src/db.ts:121-194 | the two loops, dry runs and errors leave the specified database and result |
| Migrations.ForwardAppliesPrefix | indexer/src/db.ts:173-191 | a forward run keeps the effect of exactly the migrations before the failing one, and names it |
| Migrations.ForwardAdds | indexer/src/db.ts:173-191 | the applied versions afterwards are those before and those committed, still ascending |
| Migrations.SecondRunAppliesNothing | indexer/src/db.ts:166-167 | after a run without error nothing is pending and another run changes nothing |
| Migrations.NextRunResumes | indexer/src/db.ts:166-191 | after a failure the next run starts at the migration that failed |
| Migrations.ForwardGoesAsFarAsItCan | indexer/src/db.ts:173-191 | a forward run commits the longest prefix of the pending migrations whose scripts run one after the other and whose versions are new, leaves their schema, and succeeds if and only if that is all of them |
| Migrations.BackwardSucceedsIff | indexer/src/db.ts:140-163 | a rollback succeeds if and only if every version has its file and the down sections run one after the other, and leaves their schema |
| Migrations.BackwardRemoves | indexer/src/db.ts:140-163 | whether or not it succeeds it removes the versions it rolled back, and no others |
| Migrations.NewestAreLast | indexer/src/db.ts:140-143 | rolled back are the last n applied versions, the last one first |
| Migrations.RollbackThenForward | indexer/src/db.ts:140-194 | rolling back the newest n and running forward restores the applied versions and the schema, each down undoing its up |
| Migrations.DryRollback | indexer/src/db.ts:144-152 | a dry rollback changes nothing, names what a real one undoes, and fails exactly when a file is missing |
| Reputation.AggregateMetrics | indexer/src/reputation.ts:118-166 | the counting loop yields the agent's totals |
| Reputation.RatingsForAgent | indexer/src/reputation.ts:225-234 | as many ratings as completed jobs, each between 35 and 100 |
| Reputation.ScoreAgent | indexer/src/reputation.ts:172-222 | a score depends on how many ratings there are and what they add up to, not on their list |
| Reputation.PercentileRank | indexer/src/reputation.ts:240-247 | the rank is the share of lower scores, without clamping |
| Reputation.ComputeReputation | indexer/src/reputation.ts:252-288 | the percentile counts the other agents scoring strictly lower, the agent itself included in the population |
| Reputation.RecalculateAllReputations | indexer/src/reputation.ts:294-323 | every agent with events gets the result its own computation from its events gives |
| Reputation.ComputeAgreesWithRecalculate | indexer/src/reputation.ts:252-323 | computing one agent and recalculating all agree when the agent's query returns its events, in any order |
| Reputation.OrderDoesNotMatter | indexer/src/reputation.ts:118-323 | results depend on which events there are, not on their order |
| Reputation.HigherScoreHigherPercentile | indexer/src/reputation.ts:240-323 | among agents with events percentiles order exactly as scores |
| Reputation.FewJobsStayNearPrior | indexer/src/reputation.ts:99-177 | with n completed jobs the Bayesian score is within n ratings' worth of the prior mean, and never needs clamping |
| Reputation.RatingCurve | indexer/src/reputation.ts:99-115 | the rating is 70 at an hour and without a time, 100 up to 42 minutes, 35 from two hours on, and inversely proportional to the time between |
| Reputation.FasterNeverRatesLower | indexer/src/reputation.ts:99-115 | a faster completion never rates lower |
| Reputation.OneMoreCosts | indexer/src/reputation.ts:182-200 | one more dispute adds 15 to the penalty and one more cancellation 5, up to 100; the score falls by as much until nothing is left |
| Reputation.OneMoreCompletion | indexer/src/reputation.ts:172-177 | one more completed job takes the Bayesian score to the mean of ten ratings of 70 and all its ratings |
| Reputation.ScoreIsRest | indexer/src/reputation.ts:182-212 | the penalty is 15 a dispute and 5 a cancellation, at most 100, and the score is what it leaves of the Bayesian score |
| Reputation.RatesAreShares | indexer/src/reputation.ts:193-222 | the three rates times the number of finished jobs are the counts |
| Reputation.AverageIsMean | indexer/src/reputation.ts:118-166 | the average completion time is the mean of the known positive ones |
| Reputation.ResultsAreOnScale | indexer/src/reputation.ts:193-247 | scores lie between 0 and 100, percentiles from 0 to below 100 |
| Revenue.AggregateRevenue | dashboard/server.ts:2112-2132 | one bucket per period that occurs, strictly ascending, with that period's totals |
| Revenue.AggregatesUnique | dashboard/server.ts:2112-2132 | the rows determine the buckets |
| Revenue.Conservation | dashboard/server.ts:2112-2132 | gross, fee, net and count add up to those of the rows |
| Revenue.BucketsHoldTheirRows | dashboard/server.ts:2112-2132 | so they do over any selection of periods |
| Revenue.NetIsGrossLessFee | dashboard/server.ts:2116-2121 | if every row's net is gross less fee, so is every bucket's |
| Revenue.RegroupingDaysIsMonths | dashboard/server.ts:2104-2132 | grouping the daily buckets by month gives the monthly buckets, periods and totals |
| Revenue.SameDayIff | dashboard/server.ts:2104-2106 | rows share a daily bucket if and only if their dates, before the T, agree; of dates longer than ten characters only as many count |
| Revenue.SameMonthIff | dashboard/server.ts:2108-2110 | and a monthly one if and only if year and month agree |
| Revenue.BucketsAreSums | dashboard/server.ts:2112-2132 | a bucket is the sums of the gross, fee and net amounts of its period's rows, and their number |
| Discovery.FindMaxId | dashboard/lib/discovery.ts:27-53 | both loops terminate within two logarithms of the limit, plus three, lookups |
| Discovery.ContiguousIsFound | dashboard/lib/discovery.ts:27-53 | if the ids are exactly 1 to n the result is n or the limit, whichever is less |
| Discovery.FoundExists | dashboard/lib/discovery.ts:47-53 | with any gaps the result is 0 or an existing id within the limit |
| Discovery.NothingWithoutFirst | dashboard/lib/discovery.ts:29-35 | without an id 1 the result is 0 |
| Discovery.HiddenIff | dashboard/lib/discovery.ts:27-53 | although id 1 exists the result is 0 if and only if every power of two within the limit exists, the id halfway to the limit does not, and no midpoint from there leftwards does |
| Discovery.GreatestIsFoundIff | dashboard/lib/discovery.ts:27-53 | the greatest existing id within the limit is the result if and only if every id at or below it exists that the search looks up when there are no gaps |
| Discovery.GapsCanHideAll | dashboard/lib/discovery.ts:36-53 | ids 1, 2, 4 and 8 with limit 12 give 0 |
| Discovery.GapsMayDoNoHarm | dashboard/lib/discovery.ts:36-53 | ids 1, 2 and 4 with limit 12 give 4 |

## Left out

- Stellar SDK, RPC, XDR, transaction building, signing and the Soroban contracts: each call is an oracle.
- Timers, sleeps, polling intervals, logging and tracing.
- The orchestrator's `providerAddress` and `jobId` fields and the text a description is interpolated into: an attempt is a
  function of the task and its dependencies' deliverables.
- A throw out of `findProvider` on a malformed registry answer, or from a placeholder that is no regular expression, would
  abort the whole execution with the task running; the model takes both as failed attempts.
- A refund whose submission was reported as failed and that lands after its call returned: in the model a refund takes
  effect only while its call awaits it.
- `canonicalize` on undefined, fractions, numbers beyond the exact integers, and lone surrogates.
- Fetching, decoding and classifying ledger entries; SHA-256 itself; the manifest and summary files.
- `AccountSequenceManager.reset`, which takes no lock.
- A clock that goes back in the rate limiter, its timer and `size`.
- `python_type_for(None)`, `converter_for` and the rest of the client generator.
- Fractional `decimals` and `precision`; `maskSecret`, `decodeBase64` and URI checks of format.ts.
- The poller's `batchSize` and skipped contracts: an answer that is cut short or missing is allowed, but the exactly-once
  results are about rounds whose written answers are complete (`PollerRuns.PollIsExactIff` says what happens otherwise). Histories with several forks. Event decoding, reputation updates and broadcasts.
- `retry` values that are not whole numbers, `serializeSse`, subscriptions and WebSocket envelopes.
- Parsing migration files, and version numbers in their names: migrations come as the list the loader returns. Times of application.
- Databases whose migrations were applied out of version order: rolling back follows versions, so restoration is stated for those applied in order.
- Rounding of floating point in scores, and saving of results.
- `extractRevenueRow`, amounts as text, and time stamps outside the range of dates.
- A lookup that throws, and a limit that is not a whole number, in `findMaxId`.
- Express routes, dashboards, the terminal UI, demos, language-model calls, seller agents and configuration.
