# Verified models of the agent backend

Dafny models of the parts of this backend whose correctness is hardest to see by reading, with
proofs about them. Each module stands for one component; loops and objects that change state are
modelled as such, and each method is tied to a specification about which the properties are proved.

| component | modules |
|---|---|
| event stream: ring, counter, write queue, log file, restart | `EventLog`, `Jsonl`, `EventStream`, `CrashLog`, `EventReplay`, `EventBus`, `ConcurrentEmit` |
| permission rules and their wildcard matcher | `Permission` |
| `apply_patch` text and its application, `str_replace` | `Patch`, `PatchGrammar`, `PatchRoundTrip`, `Hunks`, `UndoText` |
| todo scheduling, plan runs, plan generation | `TodoSchedule`, `PlanOutcomes`, `PlanGraph` |
| context compaction | `ToolPairs`, `ContextBudget`, `DropValidity` |
| provider fallback chain with breakers | `Fallback`, `FallbackStream`, `FallbackPromises`, `FallbackModels`, `Providers` |
| OpenAI-style event stream reader | `SseStream`, `SseMeaning`, `OpenAi` |
| cross-session memory | `Memory`, `MemoryService` |
| agent todo lists: reconciliation and cloning | `AgentTodos`, `TodoOwners`, `TodoRepeat`, `TodoClone`, `AgentTodoEngine` |
| checkpoints | `Checkpoint`, `CheckpointService` |

`Wrappers` and `Text` hold the option types and the string primitives of Rust's standard library.

`dafny verify dfyconfig.toml` checks the whole project.

## How the models read the code

Text is a sequence of characters, and numbers are unbounded integers; no width of the source is
reached by the quantities modelled. What the code cannot control is a parameter a statement holds
for all values of: how provider calls end and what they stream, which agent runs succeed, when a run
is cancelled, fresh ids, the clock, JSON encoding and decoding, the normal form of a title or
memory, the score of a memory. Statements about a class method speak of its whole new state.

## Where the code does less than its comments say

Each of these is proved, with the exact condition where there is one.

- A replay on an empty ring reports no gap even if events were lost
  (`EventReplay.SilentlyIncompleteExactly`); one from a number inside a hole before the ring reports
  a gap although nothing was (`EventReplay.FalseGapExactly`).
- The rewrite of a log is "atomic-ish": a process that dies between removing the old file and
  renaming the new one comes back without a log (`CrashLog.CrashFindsOnceTrue`,
  `CrashLog.WindowLosesTheLog`).
- The numbers of ephemeral events are handed out again after a restart
  (`EventStream.NumbersRepeatExactly`), and a restart falls back from a raised counter
  (`EventStream.RestartFallsBackExactly`), so a rewind across one can keep later events
  (`Checkpoint.RestartedEventsSurviveExactly`).
- A log that does not end with a newline, as a torn append leaves it, loses the next event to the
  last line (`EventLog.ParseAppendsExactly`, `CrashLog.TornAppendThenAppend`), and its index entry
  is wrong (`EventLog.AppendAgreesExactly`).
- A fork copies what the ring still holds, not the whole session (`EventReplay.ForkIsWholeExactly`).
- A hunk that seeks more lines than the file has makes the slice at
  `backend-rs/crates/agent-tools/src/edit.rs:185-191` go out of range (`Hunks.AbortsExactly`).
- The edited text of a hunk list need not read back as the edited lines, and then the swapped hunks
  do not undo it: a last line left empty in a text without a final newline is taken for its end, and
  a carriage return before a line end is dropped (`UndoText.UndoRestoresText`,
  `UndoText.BlankLastLineIsNotUndone`, `UndoText.SingleNewlineIsLost`).
- `str_replace` counts occurrences without overlaps, so an ambiguous edit can pass
  (`Hunks.OverlapIsAccepted`).
- Blocked todos are marked once, at the end, so todos further down a failed chain stay queued
  (`PlanOutcomes.NothingLeftQueuedExactly`); an explore todo that cannot run holds back every edit
  (`PlanOutcomes.FailedExploreHoldsEdits`); and a plan deadlocked between an edit and an explore
  todo is reported completed (`PlanOutcomes.DeadlockIsReportedComplete`).
- Dropping an untitled task shifts the meaning of the indices other tasks list
  (`PlanGraph.EdgeNamesRawTaskExactly`), and edits of a plan wait for explore todos the session
  had before it (`PlanGraph.GeneratedPlanCompletesExactly`).
- The budget of a compacted context can be missed (`ContextBudget.CompactedFitsExactly`), and the
  drop and the summary can leave an answer without its call (`DropValidity.CompactedIsValidExactly`,
  `DropValidity.SummarizedIsValidExactly`).
- The mock's answer is not flagged when the real providers are only held back by their breakers, and
  is flagged after a failed attempt of its own (`FallbackPromises.FlaggedExactly`).
- A memory just stored may be evicted at once, although it is returned as stored
  (`Memory.NewEntryIsTheVictimExactly`, `MemoryService.NewKnowledgeIsDropped`).
- Two items of one todo list can end up as one todo (`TodoOwners.MergesExactly`,
  `TodoRepeat.RetitlingSwallowsAnItem`).
- A file that is not UTF-8 text is recorded as absent by a checkpoint and deleted by its rewind
  (`Checkpoint.RewindRestoresExactly`), and a file that now stands above a snapshotted one makes the
  rewind stop half way (`Checkpoint.RestoreSucceedsExactly`); a checkpoint before the first event
  cuts no event (`Checkpoint.RewindGivesBackTheEvents`).

## Model

| member | source | states |
|---|---|---|
| `EventStream.RunRefines` | backend-rs/crates/agent-store/src/event_bus.rs:59-225 | over every run of emit, ephemeral emit, truncate, purge, first touch, writer step and flushed restart, ring, counter, queue and log stand for one plain history: the ring is its un-evicted end, and the log with the queue performed is its list of durable events |
| `EventStream.StepRefines` | backend-rs/crates/agent-store/src/event_bus.rs:104-225 | each single operation keeps that relation |
| `EventStream.RunIsSound` | backend-rs/crates/agent-store/src/event_bus.rs:104-148 | over every run events and durable events are strictly increasingly numbered, at most the counter, durable ones are among the others, and the ring respects its capacity |
| `EventStream.EmitAppends` | backend-rs/crates/agent-store/src/event_bus.rs:157-211 | behind ring and eviction an emit adds exactly one event at the end of the history, numbered one above the counter |
| `EventStream.TruncateFilters` | backend-rs/crates/agent-store/src/event_bus.rs:367-388 | behind ring and eviction a truncation is a filter of the history by number |
| `EventStream.WhatARestartFinds` | backend-rs/crates/agent-store/src/event_bus.rs:59-225 | at the end of any run, what a flushed restart finds in the log grows by an emitted event exactly if it is durable, with the number then due, is cut by a truncation and emptied by a purge, and stays in any other step |
| `EventStream.CutsSetTheNextNumber` | backend-rs/crates/agent-store/src/event_bus.rs:283-295 | after any run a truncation to a number makes the one after it (at least 1) the next, and a purge starts the session afresh |
| `EventStream.HydratedRingIsNewest` | backend-rs/crates/agent-store/src/event_bus.rs:104-137 | a first touch buffers the last events of the log, min(log, capacity) of them |
| `EventStream.EmitEvictsOldest` | backend-rs/crates/agent-store/src/event_bus.rs:190-211 | an emit evicts nothing while the ring holds fewer events than its capacity, and otherwise exactly the oldest event, which with capacity 0 is the new one |
| `EventStream.RunEvictsOldest` | backend-rs/crates/agent-store/src/event_bus.rs:157-211 | so does an emit at the end of every run from every log, in the history and in the ring of the bus |
| `EventStream.RunKeepsNewest` | backend-rs/crates/agent-store/src/event_bus.rs:104-211 | over every run without truncation and purge the ring holds the newest events of the history, min(events, capacity) of them |
| `EventStream.RestartRestores` | backend-rs/crates/agent-store/src/event_bus.rs:59-137 | after a drained queue and a restart the log is the strictly increasing list of surviving durable events, the ring holds its last events, min(log, capacity) of them, and the next number is above every logged one |
| `EventStream.NumbersRepeatExactly` | backend-rs/crates/agent-store/src/event_bus.rs:139-165 | some event of the session has a number that a restarted process is still to hand out exactly if the last event was ephemeral |
| `EventStream.RestartFallsBackExactly` | backend-rs/crates/agent-store/src/event_bus.rs:104-155 | a restart goes on from the last durable event, and so below the counter exactly if the counter was above that event, be it through ephemeral events or through a truncation |
| `EventStream.EphemeralNumberRepeats` | backend-rs/crates/agent-store/src/event_bus.rs:139-165 | one such run: an ephemeral event takes number 1 and so does the next event after a restart |
| `EventStream.CrashFindsOnceTrueLog` | backend-rs/crates/agent-store/src/event_bus.rs:59-97 | a process that dies between two operations of its writer, with work still queued, leaves a log that was the durable history at some earlier moment of the run |
| `CrashLog.CrashFindsOnceTrue` | backend-rs/crates/agent-store/src/jsonl.rs:72-213 | a process that dies at any moment of any run, after any number of system calls of the operation its writer is at, leaves such a log; except between removing the old log of a truncation and renaming the new one, when there is no log and the temporary file holds such a log |
| `CrashLog.CrashWithin` | backend-rs/crates/agent-store/src/jsonl.rs:72-213 | cut short after any number of calls, an append, a deletion and a truncation leave the events from before or from after it, but for that window |
| `CrashLog.WindowLosesTheLog` | backend-rs/crates/agent-store/src/jsonl.rs:199-205 | in that window the log read can be one that never was: truncating two events to one leaves none |
| `CrashLog.TornAppendThenAppend` | backend-rs/crates/agent-store/src/jsonl.rs:81-107 | after an append torn between two characters of its line the next event is read exactly if the part and the new line together decode to it and the part was not the whole event; its index entry is wrong in any case |
| `EventReplay.ReplayIsComplete` | backend-rs/crates/agent-store/src/event_bus.rs:238-271 | with no gap reported, a non-empty ring and no limit, replay returns exactly the surviving events numbered above the asked one |
| `EventReplay.LimitedReplayIsABeginning` | backend-rs/crates/agent-store/src/event_bus.rs:261-271 | a limited replay is the beginning of the unlimited one, as long as the limit allows but never shorter than one event, with the same flag |
| `EventReplay.SilentlyIncompleteExactly` | backend-rs/crates/agent-store/src/event_bus.rs:238-271 | replay is incomplete without reporting a gap exactly when the ring is empty and a surviving evicted event is above the asked number |
| `EventReplay.TruncatingBelowTheRingHides` | backend-rs/crates/agent-store/src/event_bus.rs:249-251 | truncating below the retained window empties the ring, after which no gap is ever reported |
| `EventReplay.FalseGapExactly` | backend-rs/crates/agent-store/src/event_bus.rs:252-260 | on a non-empty ring no gap is missed, and a gap is reported without an evicted event above the asked number exactly if that number lies in a hole between the last evicted number and the first buffered one |
| `EventReplay.FalseGapsExactly` | backend-rs/crates/agent-store/src/event_bus.rs:252-260 | there is such a number exactly if the first buffered number is above the one after the last evicted number, or above 1 if none was evicted |
| `EventReplay.GapMeansEvicted` | backend-rs/crates/agent-store/src/event_bus.rs:252-260 | so with contiguous numbering a gap is reported exactly when an event above the asked number was evicted |
| `EventReplay.RaisedCounterMakesFalseGap` | backend-rs/crates/agent-store/src/event_bus.rs:367-388 | an event emitted into an empty ring makes such a hole exactly if the counter was above the last evicted number |
| `EventReplay.RaisedCounterReportsFalseGap` | backend-rs/crates/agent-store/src/event_bus.rs:374-376 | one such run: a truncation that raises the counter of an empty session, and one event |
| `EventReplay.RewindIsExact` | backend-rs/crates/agent-store/src/event_bus.rs:328-364 | truncating before an event keeps exactly the buffered events before the earliest buffered one of its run |
| `EventReplay.RunIsGoneExactly` | backend-rs/crates/agent-store/src/event_bus.rs:328-364 | after that no event of the run survives, exactly if none had been evicted from the ring |
| `EventReplay.CutAfterIsExact` | backend-rs/crates/agent-store/src/event_bus.rs:311-325 | truncating after an event keeps exactly the buffered events up to and including it and cuts the durable ones at its number; an unknown event changes nothing |
| `EventReplay.ForkAppendsCopies` | backend-rs/crates/agent-store/src/event_bus.rs:299-309 | a fork appends copies of the source ring in order, renumbered from the target counter, and nothing else |
| `EventReplay.CopiesKeepContent` | backend-rs/crates/agent-store/src/event_bus.rs:299-309 | a copy has new id, session and number and the run and content of its event |
| `EventReplay.ForkRefines` | backend-rs/crates/agent-store/src/event_bus.rs:299-309 | a fork of a hydrated ring is a run of emits into the target, for ring, counter, queue and log |
| `EventReplay.ForkIsWholeExactly` | backend-rs/crates/agent-store/src/event_bus.rs:299-309 | a fork adds as many events as the source has exactly if the source ring had evicted nothing |
| `EventBus.Bus.EnsureHydrated` | backend-rs/crates/agent-store/src/event_bus.rs:104-137 | the lazy hydration in place: first touch loads ring and counter from the log, other sessions are untouched |
| `EventBus.Bus.EmitEvent` | backend-rs/crates/agent-store/src/event_bus.rs:157-184 | an emit is the session step of the same name, returns the numbered event, and leaves other sessions alone |
| `EventBus.Bus.PublishInner` | backend-rs/crates/agent-store/src/event_bus.rs:190-211 | ring push, pops down to the capacity, counter and queue in place |
| `EventBus.Bus.ReplaySince` | backend-rs/crates/agent-store/src/event_bus.rs:238-271 | events above a number with the gap flag; a limit of 0 still yields one event |
| `EventBus.Bus.TruncateToSeq` | backend-rs/crates/agent-store/src/event_bus.rs:367-388 | the cut of ring, counter and queued log operation in place |
| `EventBus.Bus.TruncateBeforeEvent` | backend-rs/crates/agent-store/src/event_bus.rs:328-364 | the rewind search and cut in place |
| `EventBus.Bus.TruncateSession` | backend-rs/crates/agent-store/src/event_bus.rs:311-325 | the cut after an event in place |
| `EventBus.Bus.PurgeSession` | backend-rs/crates/agent-store/src/event_bus.rs:283-295 | purge in place |
| `EventBus.Bus.ForkSession` | backend-rs/crates/agent-store/src/event_bus.rs:299-309 | the fork loop, also onto the session itself |
| `EventBus.Bus.WriterStep` | backend-rs/crates/agent-store/src/event_bus.rs:59-96 | one operation leaves the queue and is performed on its session only |
| `EventBus.Bus.FlushAndRestart` | backend-rs/crates/agent-store/src/event_bus.rs:227-236 | draining the queue and starting a new process on the same files |
| `ConcurrentEmit.NumbersNeverClash` | backend-rs/crates/agent-store/src/event_bus.rs:104-211 | for every interleaving of hydration, number taking, push and send by any number of threads with the writer: issued numbers are distinct, above the log the process found and at most the counter; log plus queue and ring hold no number twice |
| `ConcurrentEmit.EveryInterleavingKeeps` | backend-rs/crates/agent-store/src/event_bus.rs:104-211 | the inductive invariant behind it |
| `ConcurrentEmit.NothingIsLost` | backend-rs/crates/agent-store/src/event_bus.rs:157-211 | in every interleaving each number issued is with a thread that has still to send it, in the queue, in the log, or was given up as that of an ephemeral event |
| `ConcurrentEmit.NumbersAreConsecutive` | backend-rs/crates/agent-store/src/event_bus.rs:139-155 | the numbers issued are the ones after the last logged one, without a hole |
| `ConcurrentEmit.PushEvictsOldest` | backend-rs/crates/agent-store/src/event_bus.rs:104-211 | in every interleaving a push evicts nothing while there is room and otherwise the oldest event alone, and the hydration that counts buffers the last events of the log |
| `ConcurrentEmit.OrderCanFlip` | backend-rs/crates/agent-store/src/event_bus.rs:139-211 | ring and log may receive two concurrent emits in reverse order |
| `EventLog.SeekEqualsScan` | backend-rs/crates/agent-store/src/jsonl.rs:124-156 | seeking to the first indexed offset above a number and filtering gives what filtering a full parse gives, for every file, line ending and order of numbers |
| `EventLog.AppendAgreesExactly` | backend-rs/crates/agent-store/src/jsonl.rs:72-108 | the index entry an append writes agrees with a rescan of the new file exactly if the old file was empty or ended with a newline |
| `EventLog.ParseAppendsExactly` | backend-rs/crates/agent-store/src/jsonl.rs:72-121 | an append adds its event to what a scan finds exactly if the file ended with a newline or was empty, or what follows the last newline parses to nothing alone and to the new event together with the new line |
| `EventLog.ParseAppend` | backend-rs/crates/agent-store/src/jsonl.rs:72-108 | on a terminated file an append adds the event to the parse and nothing else |
| `EventLog.EncodedParses` | backend-rs/crates/agent-store/src/jsonl.rs:176-213 | a rewritten file parses to the very events written |
| `EventLog.TailFromOffset` | backend-rs/crates/agent-store/src/jsonl.rs:124-156 | reading from the k-th recorded offset gives the events from the k-th on |
| `Jsonl.JsonlStore.EnsureIndex` | backend-rs/crates/agent-store/src/jsonl.rs:39-70 | the lazily built index is that of the file |
| `Jsonl.JsonlStore.Append` | backend-rs/crates/agent-store/src/jsonl.rs:72-108 | file and log grow by one event; index and file stay consistent |
| `Jsonl.JsonlStore.ReadSession` | backend-rs/crates/agent-store/src/jsonl.rs:110-122 | the full parse |
| `Jsonl.JsonlStore.ReplaySince` | backend-rs/crates/agent-store/src/jsonl.rs:124-156 | the seek-based replay returns the filtered log |
| `Jsonl.JsonlStore.TruncateAfterSeq` | backend-rs/crates/agent-store/src/jsonl.rs:165-174 | the log becomes its events up to the number |
| `Jsonl.JsonlStore.RewriteSession` | backend-rs/crates/agent-store/src/jsonl.rs:176-213 | file and index are rebuilt together |
| `Jsonl.JsonlStore.DeleteSession` | backend-rs/crates/agent-store/src/jsonl.rs:158-163 | file and index go |
| `Permission.GlobMatch` | backend-rs/crates/agent-core/src/permission.rs:244-269 | the greedy one-pass matcher answers exactly the declarative wildcard relation, on all globs and texts |
| `Permission.LeftmostSuffices` | backend-rs/crates/agent-core/src/permission.rs:255-266 | the exchange argument: choosing the leftmost occurrence loses no match |
| `Permission.PatternRoundTrip` | backend-rs/crates/agent-core/src/permission.rs:224-240 | a printed `tool(arg)` pattern parses back to its two trimmed globs |
| `Permission.PatternReadsExactly` | backend-rs/crates/agent-core/src/permission.rs:224-240 | which texts are patterns and with which globs: all of the trimmed text without a parenthesis, or what stands before the first one, if anything does, and between it and a closing one at the end; everything else is malformed |
| `Permission.ParsedPatternIsTrimmed` | backend-rs/crates/agent-core/src/permission.rs:224-240 | every parsed pattern has a non-empty name without parenthesis and trimmed globs |
| `Permission.Evaluate` | backend-rs/crates/agent-core/src/permission.rs:146-170 | the decision is that which the word of the first rule says whose pattern parses and matches tool and argument, the default if none does or the word is another |
| `Permission.DecisionIsUnique` | backend-rs/crates/agent-core/src/permission.rs:146-170 | that specification admits one decision for every call |
| `Permission.GateCall` | backend-rs/crates/agent-core/src/engine/dispatch.rs:39-59 | a call is forbidden, sent for approval or run exactly as mode and rule decision say |
| `PatchRoundTrip.PrintParses` | backend-rs/crates/agent-tools/src/edit.rs:77-171 | parsing the printed form of any well-formed document of the concrete syntax gives its meaning, with `\n` or `\r\n` line ends |
| `PatchRoundTrip.ParserImage` | backend-rs/crates/agent-tools/src/edit.rs:77-171 | the operation lists the parser can return are exactly the well-formed ones, each of which is returned for some text |
| `PatchRoundTrip.ParsedOpsAreGood` | backend-rs/crates/agent-tools/src/edit.rs:77-171 | whatever parses has non-empty trimmed one-line paths, non-empty hunks and newline-terminated added content |
| `PatchGrammar.ParsesExactly` | backend-rs/crates/agent-tools/src/edit.rs:77-171 | for every text and every answer: the parser gives this answer exactly if the text reads so line by line, as a begin line, then blank lines and blocks whose bodies have the allowed first characters and reach to the next mark, then what the answer is about: the end mark (the operations of the blocks, or none), the end of the text, an unknown directive, a bad body line, or an update without hunk |
| `PatchGrammar.AcceptedExactly` | backend-rs/crates/agent-tools/src/edit.rs:77-171 | so a text is accepted exactly if it is a begin line, such blocks, at least one of them an operation, and a line that trims to the end mark |
| `PatchGrammar.EveryTextIsLaid` | backend-rs/crates/agent-tools/src/edit.rs:77-171 | the lines after a begin line always have such a reading, so every text has an answer of this kind |
| `PatchGrammar.CutOffIsRefused` | backend-rs/crates/agent-tools/src/edit.rs:170-170 | one such text: a patch cut off before its end mark is refused |
| `Patch.ParsePatch` | backend-rs/crates/agent-tools/src/edit.rs:77-171 | the nested parsing loops compute the recursive specification, errors included, and terminate on every text |
| `Patch.ReadAddBody` | backend-rs/crates/agent-tools/src/edit.rs:95-107 | the loop over an added file's lines |
| `Patch.ReadUpdateBody` | backend-rs/crates/agent-tools/src/edit.rs:116-159 | the loop over an updated file's hunk lines |
| `Hunks.ApplyHunks` | backend-rs/crates/agent-tools/src/edit.rs:175-218 | the splice loop computes the specification, including where the source would slice out of range |
| `Hunks.HunkMeaning` | backend-rs/crates/agent-tools/src/edit.rs:184-212 | a hunk succeeds exactly when its block occurs in one place, and then replaces that block and leaves every other line as it was |
| `Hunks.HunkFails` | backend-rs/crates/agent-tools/src/edit.rs:175-212 | an error follows from the number of places where the block occurs: not found for none, ambiguous with their number for more than one, out of range for a block longer than the text; a block that seeks nothing is added at the end |
| `Hunks.LineCount` | backend-rs/crates/agent-tools/src/edit.rs:175-218 | a successful application changes the number of lines by the sum over the hunks of added minus sought lines |
| `Hunks.AbortsExactly` | backend-rs/crates/agent-tools/src/edit.rs:185-191 | the out-of-range slice is reached exactly when some hunk seeks more lines than the text has by then |
| `Hunks.UndoRestores` | backend-rs/crates/agent-tools/src/edit.rs:175-218 | applying the swapped hunks in reverse order restores the lines when each hunk alone can be undone, additions and deletions included |
| `Hunks.UndoOneExactly` | backend-rs/crates/agent-tools/src/edit.rs:184-212 | a single hunk is undone by its swap exactly if the new block is unique in the new lines or, for a deletion, the block taken away stood at the end |
| `UndoText.UndoRestoresText` | backend-rs/crates/agent-tools/src/edit.rs:175-218 | for every text and every reversible list of hunks without newlines in their lines: the reversed list of swapped hunks restores the text exactly if it holds no `\r\n`, is no single newline, and the edited text holds no `\r\n`, ends as the old one did and is not written from a single empty line |
| `UndoText.BlankLastLineIsNotUndone` | backend-rs/crates/agent-tools/src/edit.rs:175-218 | one such edit that is not undone: a last line left empty in a text without a final newline |
| `UndoText.SingleNewlineIsLost` | backend-rs/crates/agent-tools/src/edit.rs:213-216 | the text that is one newline becomes empty even without a hunk |
| `Hunks.PiecesPartition` | backend-rs/crates/agent-tools/src/edit.rs:8-36 | splitting at a text and gluing gives the content back, and no piece holds the text |
| `Hunks.ReplaceAllExactly` | backend-rs/crates/agent-tools/src/edit.rs:24-46 | with replace_all the leftmost occurrence is replaced, the text before it kept and the text behind it treated likewise; the call is refused exactly if nothing occurs |
| `Hunks.CountedFromTheLeft` | backend-rs/crates/agent-tools/src/edit.rs:24-37 | the number reported for an ambiguous text is that of the occurrences taken from left to right without overlap |
| `Hunks.ReplaceOnceExactly` | backend-rs/crates/agent-tools/src/edit.rs:8-36 | a single replacement goes through exactly when no occurrence starts after the leftmost one ends, and replaces that one |
| `Hunks.UniquenessIsExact` | backend-rs/crates/agent-tools/src/edit.rs:8-36 | for a text that cannot overlap itself that means exactly one occurrence |
| `Hunks.OverlapIsAccepted` | backend-rs/crates/agent-tools/src/edit.rs:8-36 | overlapping occurrences pass the uniqueness check |
| `TodoSchedule.ReadyListIsHomogeneous` | backend-rs/crates/agent-core/src/todo.rs:153-185 | the ready list holds each ready todo once, by creation, and never mixes explore and edit todos |
| `TodoSchedule.TodoEngine.RunPlan` | backend-rs/crates/agent-core/src/engine/plan_exec.rs:23-263 | for all batch limits, every order of the ready lists and every join order an uncancelled run leaves every todo with the status of a closed form over the start graph, and reports failure exactly if a todo that ran failed |
| `TodoSchedule.TodoEngine.RunBatches` | backend-rs/crates/agent-core/src/engine/plan_exec.rs:34-238 | the scheduling loop stops, with nothing ready, in a state of that run |
| `TodoSchedule.TodoEngine.RunBatch` | backend-rs/crates/agent-core/src/engine/plan_exec.rs:62-238 | a batch settles its todos and no others |
| `TodoSchedule.TodoEngine.MarkBlocked` | backend-rs/crates/agent-core/src/engine/plan_exec.rs:248-263 | one marking pass over the blocked query |
| `TodoSchedule.TodoEngine.SetStatus` | backend-rs/crates/agent-core/src/todo.rs:145-151 | one status changes |
| `TodoSchedule.TodoEngine.Add` | backend-rs/crates/agent-core/src/todo.rs:60-88 | a new todo is queued behind the others with its normalized kind |
| `TodoSchedule.ReadyWillRun` | backend-rs/crates/agent-core/src/todo.rs:159-185 | whatever is ready in a run is due to run in the closed form |
| `TodoSchedule.AllExhausted` | backend-rs/crates/agent-core/src/todo.rs:159-185 | when nothing is ready any more, everything due to run has run |
| `TodoSchedule.BlockingFinishes` | backend-rs/crates/agent-core/src/todo.rs:187-202 | after the marking pass every todo has its closed-form status |
| `TodoSchedule.BatchAdvances` | backend-rs/crates/agent-core/src/engine/plan_exec.rs:62-238 | a batch keeps the run on its course and uses up unstarted todos |
| `PlanOutcomes.FreshPlanCompletesExactly` | backend-rs/crates/agent-core/src/engine/plan_exec.rs:23-263 | a fresh plan whose every task would succeed completes exactly when no explore todo depends directly on an edit todo |
| `PlanOutcomes.DeadlockIsReportedComplete` | backend-rs/crates/agent-core/src/engine/plan_exec.rs:40-46 | two todos in such a deadlock: nothing runs and the plan is reported completed |
| `PlanOutcomes.StatusByEdges` | backend-rs/crates/agent-core/src/engine/plan_exec.rs:23-263 | the status every todo of a fresh plan ends with, from the dependency edges and the outcomes of the single tasks alone: it runs exactly if all it depends on succeeds, no explore it is or depends on needs an edit, and for an edit, every explore can run; it is marked exactly if it does not run and depends directly on a first failure |
| `PlanOutcomes.NothingLeftQueuedExactly` | backend-rs/crates/agent-core/src/engine/plan_exec.rs:248-263 | a run leaves nothing queued exactly when every edit whose dependencies do not all succeed depends directly on a first failure; or, once some explore cannot run, when every edit and every such explore depends directly on an explore that is a first failure |
| `PlanOutcomes.ChainStaysQueued` | backend-rs/crates/agent-core/src/engine/plan_exec.rs:248-263 | two steps behind a failure a todo stays queued |
| `PlanOutcomes.FailedExploreHoldsEdits` | backend-rs/crates/agent-core/src/todo.rs:159-185 | once some explore cannot run no edit runs, and an edit is marked exactly if it depends directly on an explore that is a first failure |
| `PlanOutcomes.FailedExploreHoldsUnrelatedEdits` | backend-rs/crates/agent-core/src/todo.rs:159-185 | so an explore behind a failed todo keeps every edit without dependencies as it was |
| `PlanOutcomes.HeldEditStaysQueued` | backend-rs/crates/agent-core/src/todo.rs:159-185 | one such plan of three todos |
| `PlanOutcomes.Progress` | backend-rs/crates/agent-core/src/todo.rs:153-222 | with acyclic dependencies inside the session and no unfinished edit below an unfinished explore, an unfinished todo with none running means something is ready or blocked |
| `PlanOutcomes.MoveShrinks` | backend-rs/crates/agent-core/src/todo.rs:153-222 | any move of any executor finishes one todo and keeps those conditions |
| `PlanOutcomes.EveryExecutorFinishes` | backend-rs/crates/agent-core/src/todo.rs:153-222 | so every executor that keeps moving ends with all todos terminal, in at most as many moves as there were unfinished todos |
| `PlanGraph.ParseTasks` | backend-rs/crates/agent-core/src/plan.rs:259-321 | untitled tasks are dropped, listed indices below the raw index are kept |
| `PlanGraph.KeptExactly` | backend-rs/crates/agent-core/src/plan.rs:268-321 | the tasks kept are the titled ones, each once and in order |
| `PlanGraph.EdgeNamesRawTaskExactly` | backend-rs/crates/agent-core/src/plan.rs:259-321 | a listed index names the task it meant exactly when no task up to it was dropped |
| `PlanGraph.UntitledTaskShiftsEdges` | backend-rs/crates/agent-core/src/plan.rs:259-321 | one such array: an untitled first task makes an edit wait for another task than it lists |
| `PlanGraph.Generate` | backend-rs/crates/agent-core/src/plan.rs:80-120 | the loop that turns drafts into todos with their edges, behind the session's todos |
| `PlanGraph.GeneratedEdgesExactly` | backend-rs/crates/agent-core/src/plan.rs:75-104 | a generated todo has the kind of its draft, starts queued, and depends on exactly the todos of the earlier drafts it lists, or, for an edit that lists no earlier draft, of every earlier exploration |
| `PlanGraph.GeneratedPlanCompletesExactly` | backend-rs/crates/agent-core/src/plan.rs:71-120 | behind whatever todos the session has, with every task succeeding, all todos of a generated plan complete exactly when no explore draft lists an earlier edit draft and, if the plan edits at all, every explore the session had settles |
| `ToolPairs.IsValidToolSequence` | backend/src/agent_debug/domain/context_compactor.py:125-146 | the loop with its pending ids accepts exactly the valid histories |
| `ToolPairs.ScanIsValid` | backend/src/agent_debug/domain/context_compactor.py:125-146 | the one-pass check and the definition by exchanges agree |
| `ToolPairs.ValidExactly` | backend/src/agent_debug/domain/context_compactor.py:125-146 | validity place by place: no tool message comes first, and behind every other message the tool messages answer each id as often as that message, if it is the assistant's, calls under it; an empty id is never answered |
| `ToolPairs.ValidBalances` | backend/src/agent_debug/domain/context_compactor.py:125-146 | in a valid history every call is answered as often as it was made |
| `ToolPairs.CutIsClean` | backend/src/agent_debug/domain/context_compactor.py:107-123 | if a history and its end are valid, so is the beginning: the cut parts no call from its result |
| `ToolPairs.Split` | backend/src/agent_debug/domain/context_compactor.py:107-123 | the search returns the beginning and the end at the cut it is specified by |
| `ToolPairs.CutFromIsLatest` | backend/src/agent_debug/domain/context_compactor.py:107-123 | that cut is the latest one keeping the recent messages whose end is valid |
| `ToolPairs.Compact` | backend/src/agent_debug/domain/context_compactor.py:83-105 | compaction takes place exactly if the history is over budget and has a usable cut; then the result is all system messages in order, one summary, and the other messages in order from the latest usable cut on, and it is valid |
| `ToolPairs.SeparationKeepsAll` | backend/src/agent_debug/domain/context_compactor.py:88-104 | the two lists hold together every message as often as the history does |
| `ToolPairs.SeparatedByRole` | backend/src/agent_debug/domain/context_compactor.py:88-104 | one list holds the system messages, the other all others |
| `ToolPairs.SeparationIsUnique` | backend/src/agent_debug/domain/context_compactor.py:88-104 | order included, there is one such pair of lists |
| `ToolPairs.CompactionPartsNoCall` | backend/src/agent_debug/domain/context_compactor.py:83-123 | from a valid history neither the summarized part nor the kept part has a call without its result |
| `ContextBudget.EstimateTokens` | backend-rs/crates/agent-providers/src/tokens.rs:4-15 | the counting loop computes the rounded estimate |
| `ContextBudget.TokenBounds` | backend-rs/crates/agent-providers/src/tokens.rs:4-15 | an estimate is at most the length of the text and at least a quarter of it |
| `ContextBudget.TokensByWidth` | backend-rs/crates/agent-providers/src/tokens.rs:4-27 | a text costs one token for each character in one of six ranges and one for every four others, begun ones included |
| `ContextBudget.MessageCostsItsTexts` | backend-rs/crates/agent-core/src/context.rs:20-34 | a message costs what its content, reasoning and the names and arguments of its calls cost, and four |
| `ContextBudget.DecayLowers` | backend-rs/crates/agent-core/src/context.rs:60-79 | replacing an old tool result by its placeholder strictly lowers its estimate |
| `ContextBudget.DecayIsIdempotent` | backend-rs/crates/agent-core/src/context.rs:60-79 | a second pass changes nothing, for contents of any length a 64-bit machine can hold |
| `ContextBudget.DecaySparesExactly` | backend-rs/crates/agent-core/src/context.rs:60-79 | a pass keeps the number of messages and changes exactly the tool results over the limit that are not among the last eight; of those the content alone, which gets shorter |
| `ContextBudget.DecayPassSaves` | backend-rs/crates/agent-core/src/context.rs:60-79 | a pass saves at least one token for each decayed result |
| `ContextBudget.PlaceholderTells` | backend-rs/crates/agent-core/src/context.rs:71-76 | a placeholder tells the length of the result it stands for and ends with its first 160 characters |
| `ContextBudget.CompactedFitsExactly` | backend-rs/crates/agent-core/src/context.rs:41-55 | the compacted history fits exactly if its first message and last six do |
| `ContextBudget.CompactedIsUnique` | backend-rs/crates/agent-core/src/context.rs:41-55 | the shortest-drop specification has one solution |
| `ContextBudget.BudgetCanBeMissed` | backend-rs/crates/agent-core/src/context.rs:36-55 | no history of more than six messages ends under a budget of 27 tokens |
| `ContextBudget.History.Compact` | backend-rs/crates/agent-core/src/context.rs:41-55 | in place: the first message and the last six stay, the shortest prefix after the first that meets the budget goes |
| `ContextBudget.History.DecayToolResults` | backend-rs/crates/agent-core/src/context.rs:60-79 | in place: older oversized tool results become placeholders |
| `ContextBudget.History.CompactWithSummary` | backend-rs/crates/agent-core/src/context.rs:93-157 | decay, then summary, then drop, each only if still over budget |
| `ContextBudget.SummaryIsDroppedFirst` | backend-rs/crates/agent-core/src/context.rs:93-157 | a summary that does not fit is the one message dropped again |
| `ContextBudget.SummaryStandsSecond` | backend-rs/crates/agent-core/src/context.rs:135-145 | a summary that fits stands second, as a system message that ends with the summarizer's text, between the first message and the last six |
| `DropValidity.CompactedIsValidExactly` | backend-rs/crates/agent-core/src/context.rs:35-55 | of a valid tool history the drop leaves a valid one exactly if nothing was dropped, or the first message makes no call and the kept end does not start with a tool message (or, if it calls, the kept end starts with the answers) |
| `DropValidity.SummarizedIsValidExactly` | backend-rs/crates/agent-core/src/context.rs:115-150 | with the middle summarized it is valid exactly if the first message makes no call and the last six do not start with a tool message |
| `DropValidity.DecayKeepsValidity` | backend-rs/crates/agent-core/src/context.rs:60-79 | decay parts no call from its answer |
| `DropValidity.DropOrphansAnAnswer` | backend-rs/crates/agent-core/src/context.rs:35-55 | one such drop: eight messages lose the second, and the answer to its call stays |
| `FallbackPromises.TargetExactly` | backend-rs/crates/agent-providers/src/service.rs:325-332 | a model id targets a channel exactly when it is `channel:`, a non-empty id without colon, a colon and a non-empty model |
| `FallbackPromises.OrderIsTargetFirst` | backend-rs/crates/agent-providers/src/service.rs:230-247 | every name of the chain is tried once, through its first entry, the targeted one first, the others in chain order |
| `FallbackPromises.StreamIsTheLastCalls` | backend-rs/crates/agent-providers/src/service.rs:249-321 | whatever the providers do, what remains visible after the last `Reset` is exactly what the last call streamed |
| `FallbackPromises.EveryEligibleIsTried` | backend-rs/crates/agent-providers/src/service.rs:258-321 | every provider before the stop that was eligible at the start got all its attempts and failed them, barred ones got none, calls go forward, and the reported error is the last call's |
| `FallbackPromises.ReportFollowsLastCall` | backend-rs/crates/agent-providers/src/service.rs:258-321 | the result follows from the last call: its answer, its interruption, its error, or, without a call, that no provider could be asked; or the run was cancelled before the next call |
| `FallbackModels.ExecuteAsksRight` | backend-rs/crates/agent-providers/src/service.rs:334-352 | every call asks its provider for the right model: a targeted channel for the model named with it, any other provider for its default if the request names no model or a channel and there is a default, and else for the requested one |
| `FallbackModels.ExecuteIsTimed` | backend-rs/crates/agent-providers/src/service.rs:265-312 | a request takes exactly the time its calls take and the waits after failed attempts, 200 ms doubled with each, none after the last |
| `FallbackModels.SuccessClosesTheBreaker` | backend-rs/crates/agent-providers/src/service.rs:199-208 | the provider that answered has no failures against it and a closed breaker |
| `FallbackPromises.FlaggedExactly` | backend-rs/crates/agent-providers/src/service.rs:292-304 | an answer is flagged degraded exactly when the mock gives it after an earlier failed call of the same request |
| `FallbackPromises.OpenBreakersHideTheFallback` | backend-rs/crates/agent-providers/src/service.rs:258-304 | so a mock answer behind open breakers is not flagged |
| `FallbackPromises.ExecuteCost` | backend-rs/crates/agent-providers/src/service.rs:265-312 | at most retries + 1 calls and 200 * (2^retries - 1) ms of backoff for each provider of the chain |
| `FallbackPromises.WalkKeepsSane` | backend-rs/crates/agent-providers/src/service.rs:185-222 | a breaker is open exactly if its failures reached the threshold, and for at most thirty seconds |
| `FallbackPromises.WalkStrikes` | backend-rs/crates/agent-providers/src/service.rs:210-222 | an exhausted provider has one strike more than when it was looked at |
| `FallbackPromises.ThresholdStrikesOpen` | backend-rs/crates/agent-providers/src/service.rs:185-222 | over many requests a provider that always fails gets its breaker opened by exactly the threshold-th, not earlier |
| `Providers.Service.BreakerOpen` | backend-rs/crates/agent-providers/src/service.rs:185-197 | looking at an expired breaker resets it |
| `Providers.Service.RecordFailure` | backend-rs/crates/agent-providers/src/service.rs:210-222 | failures count up and open the breaker at the threshold |
| `Providers.Service.RecordSuccess` | backend-rs/crates/agent-providers/src/service.rs:199-208 | a success resets the breaker |
| `Providers.Service.Order` | backend-rs/crates/agent-providers/src/service.rs:230-247 | the ordering loop |
| `Providers.Service.TryEntry` | backend-rs/crates/agent-providers/src/service.rs:265-312 | the retry loop at one provider |
| `Providers.Service.Execute` | backend-rs/crates/agent-providers/src/service.rs:224-321 | the whole request computes the specified calls, stream, breakers, clock and result |
| `OpenAi.ConsumeStream` | backend-rs/crates/agent-providers/src/openai.rs:279-307 | the reply and the sink events are a function of the concatenated text, so any chunking gives the same |
| `OpenAi.DrainLines` | backend-rs/crates/agent-providers/src/openai.rs:289-301 | the buffer loop ingests the payloads of the complete lines and leaves an unterminated rest |
| `OpenAi.Accumulator.IngestPayload` | backend-rs/crates/agent-providers/src/openai.rs:195-261 | one payload in place |
| `OpenAi.Accumulator.PutDelta` | backend-rs/crates/agent-providers/src/openai.rs:229-244 | the ordered-map entry of a tool call delta in place |
| `OpenAi.ShownTextIsTheReplys` | backend-rs/crates/agent-providers/src/service.rs:249-321 | through all fallbacks the text left with the consumer is the text of the reply of the winning stream |
| `SseMeaning.HeardIsSaid` | backend-rs/crates/agent-providers/src/openai.rs:195-348 | the reply against the payloads, up to the first `[DONE]`: its text is the contents of the packets one after the other, its reasoning likewise, finish reason and usage are the last ones given or the defaults, the call at an index has the last id and name given there and all its argument pieces in order; the sink is told the same pieces in order |
| `SseMeaning.PayloadOfLine` | backend-rs/crates/agent-providers/src/openai.rs:289-301 | a line carries the payload behind its `data:` prefix, trimmed, and any other line none |
| `SseMeaning.NoPayloadInTail` | backend-rs/crates/agent-providers/src/openai.rs:289-303 | what follows the last newline carries none |
| `SseStream.ReplyIsWhatTheSinkTold` | backend-rs/crates/agent-providers/src/openai.rs:195-348 | text, reasoning, calls and finish reason of the reply can be rebuilt from the sink events alone |
| `SseStream.SlotsAreDetermined` | backend-rs/crates/agent-providers/src/openai.rs:310-348 | the events determine the tool calls: by index, last id and name, arguments in arrival order |
| `SseStream.UnterminatedLineIsLost` | backend-rs/crates/agent-providers/src/openai.rs:288-303 | a last line without a newline is not read |
| `MemoryService.Service.Upsert` | backend-rs/crates/agent-core/src/memory.rs:100-139 | empty content is refused; known content keeps id, scope, source, hits and creation and gets kind, text, time and the united tags; new content is added with at most one eviction; index, uniqueness and capacity are kept |
| `MemoryService.Service.EnforceCapacity` | backend-rs/crates/agent-core/src/memory.rs:172-187 | exactly the excess is evicted, no victim being stronger than a survivor |
| `MemoryService.Service.Search` | backend-rs/crates/agent-core/src/memory.rs:144-168 | the result is the best `limit` matches of the scopes, a higher score before more hits before a later update, each once if no scope is given twice, and only their hits change, by how often each was found |
| `MemoryService.Service.Delete` | backend-rs/crates/agent-core/src/memory.rs:86-95 | unknown ids are refused, table and index lose the entry, and index, uniqueness and capacity are kept |
| `MemoryService.RunKeeps` | backend-rs/crates/agent-core/src/memory.rs:86-187 | over every run of upserts, searches and deletions no scope holds the same content twice or more entries than its capacity |
| `MemoryService.Service.ListByScope` | backend-rs/crates/agent-core/src/memory.rs:51-68 | index and scan list the same entries of a scope, each once, the latest update first |
| `MemoryService.FirstAreWeakest` | backend-rs/crates/agent-core/src/memory.rs:172-187 | dropping the first of the sorted entries drops no stronger one than it keeps |
| `MemoryService.FindsCount` | backend-rs/crates/agent-core/src/memory.rs:161-167 | the hits added are as many as the places an entry has in the result |
| `MemoryService.AddStaysWithin` | backend-rs/crates/agent-core/src/memory.rs:128-138 | adding one entry and evicting keeps every scope within its capacity |
| `Memory.NewEntryIsTheVictimExactly` | backend-rs/crates/agent-core/src/memory.rs:128-187 | a new entry is evicted at once exactly if its scope was full and every other entry had been found by a search |
| `MemoryService.NewKnowledgeIsDropped` | backend-rs/crates/agent-core/src/memory.rs:128-187 | one such call: in a scope of 200 entries found before, an upsert answers with success and its entry is not in the table |
| `Memory.MergeTagsUnites` | backend-rs/crates/agent-core/src/memory.rs:119-124 | refreshing unites the tags without loss or repetition |
| `AgentTodos.SyncReconciles` | backend/src/agent_debug/domain/todo_engine.py:352-488 | after the call the active todos of the group are exactly those matched or created; the rest of them is archived, a finished one with its status and any other cancelled, with the time of the call unless it was archived; all other todos are untouched |
| `AgentTodos.ItemWrites` | backend/src/agent_debug/domain/todo_engine.py:390-474 | one titled item writes one row: title, status by its word, place, group and time; description and run unless empty; a matched todo keeps the rest, a new one starts with nothing else; every other row stays |
| `AgentTodos.ItemReports` | backend/src/agent_debug/domain/todo_engine.py:432-474 | it reports one change: created exactly if nothing matched, running or completed exactly if the matched todo got that status now, else updated |
| `AgentTodos.TitleIndexExactly` | backend/src/agent_debug/domain/todo_engine.py:374-384 | the title index leads a title to a todo exactly if that is the only active one of the title |
| `AgentTodos.CurrentGroupIsNewest` | backend/src/agent_debug/domain/todo_engine.py:257-272 | the group found is that of the active agent todo updated last, the later in the table on a tie, and none exactly if there is no such todo |
| `TodoRepeat.ActiveTodosCarryItems` | backend/src/agent_debug/domain/todo_engine.py:390-474 | every active todo carries title, status and place of one payload item, no two the same |
| `TodoRepeat.RepeatChangesNoSet` | backend/src/agent_debug/domain/todo_engine.py:352-488 | repeating a payload with client ids under a later clock finds the same group, creates nothing and keeps the active set |
| `TodoOwners.ActiveAreOwners` | backend/src/agent_debug/domain/todo_engine.py:390-488 | the active todos afterwards are those each titled item goes to by the inputs alone: the todo of the first item with its client id, and that is the active todo its client id leads to, else the one of its title if the title is new in the payload, else a new one |
| `TodoOwners.OwnersCarryTheirLast` | backend/src/agent_debug/domain/todo_engine.py:390-474 | each of these todos carries title, status and place of the last item that goes to it |
| `TodoOwners.OwnTodosExactly` | backend/src/agent_debug/domain/todo_engine.py:390-474 | every titled item ends with a todo of its own exactly if no two of them go to one todo in that sense |
| `TodoOwners.MergesExactly` | backend/src/agent_debug/domain/todo_engine.py:402-413 | an item shares its todo with an earlier one exactly if that one has its client id, or goes to the todo its client id leads to, or goes by its own client id to the todo of its title |
| `TodoOwners.NoClientsNoMerge` | backend/src/agent_debug/domain/todo_engine.py:402-413 | a payload without client ids never merges two items |
| `TodoRepeat.KnownItemsGoByClient` | backend/src/agent_debug/domain/todo_engine.py:402-413 | when every client id leads to an active todo those todos are the active ones afterwards, so items are merged exactly if their ids lead to one todo |
| `TodoRepeat.RetitlingSwallowsAnItem` | backend/src/agent_debug/domain/todo_engine.py:402-413 | an item that retitles a todo is lost when a later item reuses the old title |
| `TodoClone.CloneCopies` | backend/src/agent_debug/domain/todo_engine.py:308-350 | the live todos are copied one to one onto fresh ids and no todo that was there changes |
| `TodoClone.EdgesAreKept` | backend/src/agent_debug/domain/todo_engine.py:320-332 | the edges among clones are exactly those among their originals, statuses and titles are equal |
| `TodoClone.ClonesKeepContent` | backend/src/agent_debug/domain/todo_engine.py:308-350 | a clone keeps everything but ids, edges, run and times; plan nodes are renamed where they have a new name |
| `TodoClone.PendingIs` | backend/src/agent_debug/domain/todo_engine.py:157-168 | a todo waits for those of its dependencies in the table that are neither completed nor rolled up |
| `TodoClone.AcyclicExactly` | backend/src/agent_debug/domain/todo_engine.py:308-350 | the clones are acyclic exactly if the originals are |
| `TodoClone.CloneIsFreeExactly` | backend/src/agent_debug/domain/todo_engine.py:157-168 | a clone waits for the clones of what its original waits for, so it is free exactly if none of that is a live todo of the source session |
| `AgentTodoEngine.Engine.SyncAgentTodos` | backend/src/agent_debug/domain/todo_engine.py:352-488 | the reconciliation loops in place, for table, client index and reported changes |
| `AgentTodoEngine.Engine.SyncOne` | backend/src/agent_debug/domain/todo_engine.py:390-474 | one item of the list, matched, written into the table and noted in the index |
| `AgentTodoEngine.Engine.FindGroup` | backend/src/agent_debug/domain/todo_engine.py:257-272 | the group of the active agent todo updated last |
| `AgentTodoEngine.Engine.IndexTitles` | backend/src/agent_debug/domain/todo_engine.py:374-384 | the title index without doubled titles |
| `AgentTodoEngine.Engine.DropAbsent` | backend/src/agent_debug/domain/todo_engine.py:476-487 | the archiving loop |
| `AgentTodoEngine.Engine.CloneSessionTodos` | backend/src/agent_debug/domain/todo_engine.py:308-350 | the cloning loop in place |
| `AgentTodoEngine.Engine.UnblockDependents` | backend/src/agent_debug/domain/todo_engine.py:193-207 | the promotion loop in place |
| `AgentTodoEngine.PromotionIsExact` | backend/src/agent_debug/domain/todo_engine.py:157-207 | a todo becomes ready exactly if it was queued or blocked, waits for the completed one, and everything it waits for that is in the table is completed or rolled up; nothing else changes |
| `AgentTodoEngine.NothingIsHeldBack` | backend/src/agent_debug/domain/todo_engine.py:157-207 | after it no todo waiting for the completed one is held without an unfinished dependency, and none became ready with one |
| `Checkpoint.RewindRestoresExactly` | backend-rs/crates/agent-core/src/checkpoint.rs:96-172 | after create, any change to the tree and a rewind, a place not snapshotted changes exactly if it was missing and text was snapshotted in it, and becomes a directory; a snapshotted place is as it was exactly if it held text, or was a directory and is one now or had text snapshotted in it, or held nothing and is no directory now |
| `Checkpoint.RestoreKeepsTree` | backend-rs/crates/agent-core/src/checkpoint.rs:150-165 | a rewind leaves a tree: whatever lies in a place, the place is a directory |
| `Checkpoint.RestoreSucceedsExactly` | backend-rs/crates/agent-core/src/checkpoint.rs:150-165 | the rewind stops at the first snapshot of text whose place holds a directory, or lies below a file that no earlier snapshot removes |
| `Checkpoint.MovedRootRestoresElsewhere` | backend-rs/crates/agent-core/src/checkpoint.rs:52-57 | under another root the existing places the new root does not lead to keep what was written since, and a missing one becomes a directory exactly if text was written below it |
| `Checkpoint.RewindGivesBackTheEvents` | backend-rs/bins/agentd/src/api/handlers/checkpoints.rs:28-45 | a rewind gives back the very events of the checkpoint with a report behind them, unless the checkpoint is at number 0, when it cuts nothing |
| `Checkpoint.RewindRefines` | backend-rs/bins/agentd/src/api/handlers/checkpoints.rs:28-45 | the stream part of a rewind acts on ring, queue and log as on the history |
| `Checkpoint.RestartedEventsSurviveExactly` | backend-rs/bins/agentd/src/api/handlers/checkpoints.rs:16-45 | across a restart, of any run of emits after it exactly those events survive the cut that the restart numbered up to the checkpoint's number: as many of the first as that number is above the last durable one |
| `Checkpoint.RestartedEventSurvivesExactly` | backend-rs/bins/agentd/src/api/handlers/checkpoints.rs:16-45 | so the first later durable event survives exactly if the checkpoint's number was above the last durable one |
| `CheckpointService.Service.Create` | backend-rs/crates/agent-core/src/checkpoint.rs:96-139 | the snapshot loop and the checkpoint with the session's latest number |
| `CheckpointService.Service.RewindFiles` | backend-rs/crates/agent-core/src/checkpoint.rs:150-165 | the write-back loop up to the first error, with the directories each file lies in |
| `CheckpointService.Service.RewindCheckpoint` | backend-rs/bins/agentd/src/api/handlers/checkpoints.rs:28-45 | files first, then the stream, which is left alone when a file fails or the checkpoint is unknown |

## Left out

- HTTP, WebSocket and SSE serving, route handlers, authentication and the desktop client: transport over libraries.
- redb, the file system and channels between threads: tables are maps, a log file is a string, the disk a tree without links, the writer a first-in-first-out queue; reads and writes fail only where a checkpoint meets a directory, a file in place of a directory, or a file that is not text.
- Paths with `..` or through symbolic links: `resolve` gives the components of the absolute path.
- What the operating system has not yet written when it stops: a crash is of the process, between two system calls or after any part of a write.
- JSON: encoding and decoding are parameters, with decoding undoing encoding, no newline in an encoded event and, for crashes, no part of one decoding.
- CrashLog.TornAppendThenAppend: does not model an append cut inside a UTF-8 character, since a log is a sequence of characters. There the line is no text any more: reading a session stops at it for good, so that every later event is lost to it, and a replay that seeks to it or before it returns nothing (backend-rs/crates/agent-store/src/jsonl.rs:110-156).
- UTF-8 decoding of single chunks: a character split between two chunks is not modelled; chunks are pieces of text.
- Broadcasting events to subscribers, and the bus without a log store.
- The raw `publish` and `hydrate` entry points of the bus, which skip hydration.
- Pending approval requests: a map of one-shot channels.
- `arg_summary`: it picks one field of a call's arguments; the summary is a parameter of `Permission.Evaluate`.
- Keyword terms and scores of a memory search: `score` is a parameter of `MemoryService.Service.Search`.
- Todos added by other requests while a plan runs, and timeouts and retries of a todo's agent run: one answer per todo stands for its run.
- Time stamps, uuids, descriptions, summaries and owners that no modelled decision reads.
- Reading a payload item of the agent todo list out of a dictionary: items come with their title stripped and their texts chosen.
- The other todo operations in Python (manual todos, rerun, archiving of plan todos): single assignments.
- Concurrent requests to one provider service: `Providers.Service.Execute` runs alone; the events of a session are the concurrent part that is modelled (`ConcurrentEmit`).
- Truncation, purge and fork between the steps of concurrent emits.
- Sleeping longer than asked: the clock advances by the backoff and by whatever time a call takes.
- Anthropic and Google streams, prompts, document tools, MCP, shell and git tools, swarm distribution, settings and session records.
