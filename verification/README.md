# sgx-perf, modelled and proved in Dafny

sgx-perf records what an SGX application does (`logger/`), stores it in a database, and rebuilds the
call structure from it (`analyzer/`); a second tool estimates an enclave's working set
(`workingset/`). The pieces below carry the correctness of that chain. Each is modelled at the level
of its own shared accesses and loops, and what it is for is proved over every input or every
interleaving.

| files | what they model |
|---|---|
| `LockWord`, `RwLock`, `RwLockTheorems`, `RwLockTry`, `RwLockMemory` | the 8-bit ticket read-write lock: a step system over any number of threads, with loads and stores split where the C code splits them, and unbounded ticket numbers as history |
| `EventLog`, `EventRuns`, `EventTimes`, `LogStory`, `Recorder` | what the wrappers record: call stacks, returns, asynchronous exits, `finalize`, and the whole log told from what the threads did |
| `SyncEvents`, `SyncRuns`, `SyncStory`, `SyncWrappers`, `Registry`, `RegistryRuns` | the wait/set map and the thread registry under interleaving |
| `Serialiser` | `pre_insert` and the flush loop: rows, ids and references |
| `Forest`, `CallCounters`, `CallLoader`, `CallTotals` | the analyzer's loader: parents, the pointer walk to the previous call of a level, the counters |
| `CallGraph`, `LoadedGraph` | the backward closure that is drawn, and its link to the counters |
| `Recorded`, `CallTraces`, `EndToEnd`, `QueryOrders`, `Pipeline` | from what the threads did through the log, the database and the query to the rebuilt forest, and the tools run one after the other |
| `IniText`, `IniLines`, `IniRoundTrip`, `IniExact`, `IniStore`, `IniFile`, `IniReload` | the INI library: format, what each kind of line means, round trip and its exact domain, the structure and its removals, the size-limited writer and the cursor-driven reader |
| `Enclaves`, `FaultHistory`, `WorkingSet`, `WorkingSetRuns`, `WorkingSetProgress` | the working-set tracker, running on the lock model itself, against a history of faults, resets, creations and destructions, and that it gets its work done |
| `Csv`, `CsvLaws`, `CsvIo`, `Sponge`, `Sha3` | two self-contained parts of the SQLite shell: the CSV pair, also on bytes the writer never writes, and the SHA-3 sponge |
| `Options`, `ByteType` | a value that may be missing, an unsigned byte |

Code that changes things step by step is a class or a method with loops (`RwLockMemory.Lock`,
`Recorder.EventStore`, `Serialiser.Database`, `CallLoader.Loader`, `SyncWrappers.Wrappers`,
`IniStore.Store`, `IniFile`, `Enclaves.Enclave`, `CsvIo`, `Sha3.Context`). Each method is proved
against a function or a step of the model, and the theorems are about those. What several threads do
at once is a step system: a schedule is any sequence of steps, and a theorem quantifies over all
schedules.

Results that a reader of the code may not expect:

- The lock is correct for n threads if and only if n is at most 256 (`ExclusiveIffBounded`).
- The fetch-and-add carries into the unused fourth byte, which counts how often `users` wrapped
  (`PadCounts`) and which the trylocks compare with zero. On a free lock a trylock succeeds if and
  only if that byte is zero (`WriteTryOnFree`, `ReadTryOnFree`), so after 256 tickets both report
  busy (`FreeButBusy`).
- `reset_handler` holds the write lock and calls `print_summary`, which takes a read ticket on the
  same lock. Such a ticket is never admitted (`WriterBlocksAll`). The tracker is modelled without
  this inner lock.
- `std::map::insert` keeps an older wait entry, so a set names the oldest wait under its key since
  the previous set and not the latest (`MatchedAtMostOnce`; `OlderNamed` is such a run);
  `NextSetNames` says exactly when it names a given wait.
- `ini_load` compares signed characters, so a byte of 128 or above counts as a blank. Loading what was
  saved gives the structure back if and only if names and values are legal in that sense
  (`IniExact.RoundTrip`; `EmptyValueLost` is a structure that is not).
- Rows that start at the same time may come in any order. All orders the query may return rebuild the
  recorded forest if and only if calls of a thread start at different times and the tables hold every
  call id (`RecoveredIffDistinct`).
- The range test of the fault handler includes the end address; `OffsetInside` says exactly when its
  index leaves the status array (`EndOutside` is such a fault).
- For the same reason a fault at the first address of an enclave is lost for it if a live enclave listed
  before it ends there (`AdjacentLost`); `FindsExact` says that this is the only loss.
- The CSV reader keeps the separator as a signed character. A table with more than one column is read
  back if and only if the separator is below 128 (`Csv.RoundTrip`; `HighSeparatorLost` is such a table).

## Model

| member | source | states |
|---|---|---|
| RwLock.PollsExact | common/rwlock.cpp:23-56 | comparing wrapped ticket bytes in the two spin loops answers exactly the question on unbounded ticket numbers |
| RwLock.WriteTryExact | common/rwlock.cpp:38-49 | write_trylock succeeds iff its loads are still current, the lock is free and the unused byte is zero; it then changes `users` alone, otherwise nothing |
| RwLock.ReadTryExact | common/rwlock.cpp:65-76 | the same for read_trylock: nobody waits or writes, and only `users` and `read` change |
| RwLock.StepInv | common/rwlock.cpp:18-76 | every shared access of the six operations, by any thread, keeps the invariant that ties bytes, tickets and program points |
| RwLock.RunInv | common/rwlock.cpp:18-76 | the invariant holds after every schedule |
| RwLockTheorems.MutualExclusion | common/rwlock.cpp:18-76 | over every interleaving with at most 256 threads a writer excludes every other reader and writer |
| RwLockTheorems.TwoWriters | common/rwlock.cpp:18-24 | tickets 256 apart look alike: a schedule with two writers inside |
| RwLockTheorems.ExclusiveIffBounded | common/rwlock.cpp:18-76 | mutual exclusion over all schedules holds iff there are at most 256 threads |
| RwLockTheorems.NoLostUpdates | common/rwlock.cpp:26-63 | `write`, `read` and `users` always equal releases, admissions and tickets issued modulo 256, and the differences are the threads outstanding and reading |
| RwLockTheorems.Fifo | common/rwlock.cpp:18-63 | waiting tickets are exactly the range from admissions to issues, and whoever is inside has a smaller ticket than whoever waits |
| RwLockTheorems.DistanceNeverGrows | common/rwlock.cpp:18-76 | a waiter keeps its ticket, tickets are not reassigned, and admissions only grow |
| RwLockTheorems.TryOvertakesNobody | common/rwlock.cpp:38-76 | a trylock that succeeds overtakes no waiter |
| RwLockTheorems.LowestEnabled | common/rwlock.cpp:18-63 | when nobody holds the lock the lowest waiting ticket enters at its next poll |
| RwLockTheorems.StepReducesWork | common/rwlock.cpp:18-76 | every step of a busy thread is a poll that changes nothing or brings it closer to idle |
| RwLockTheorems.SomeoneMoves | common/rwlock.cpp:18-76 | no reachable state is stuck |
| RwLockTheorems.Drains | common/rwlock.cpp:18-76 | from every reachable state the lock can be emptied within a bounded number of steps |
| RwLockTheorems.FairDrains | common/rwlock.cpp:18-76 | from every reachable state, once nothing new is started, every schedule made of as many rounds as there is work left, each giving every thread a turn in any order, leaves every thread idle |
| RwLockTheorems.WriterBlocksAll | workingset/src/main.cpp:270-272 | while a writer stays inside no waiting ticket is ever admitted, so the nested read lock never returns |
| RwLockTry.PadCounts | common/rwlock.cpp:18-76 | over every schedule the unused byte is the number of times a lock operation wrapped `users`, modulo 256, and nothing else changes it |
| RwLockTry.WriteTryOnFree | common/rwlock.cpp:38-49 | an uninterrupted write_trylock on a free lock, with at most 256 threads about, gets the lock iff the unused byte is zero, and otherwise changes nothing |
| RwLockTry.ReadTryOnFree | common/rwlock.cpp:65-76 | the same for read_trylock, again with at most 256 threads about |
| RwLockTry.FreeButBusy | common/rwlock.cpp:38-76 | a run after which both trylocks report busy on a free lock |
| RwLockMemory.Lock.TakeTicket | common/rwlock.cpp:20-21 | the fetch-and-add is the model's step and yields the byte of the thread's own ticket |
| RwLockMemory.Lock.PollWrite | common/rwlock.cpp:23-23 | a poll admits the writer iff its ticket is the number of releases |
| RwLockMemory.Lock.UnlockStore | common/rwlock.cpp:28-35 | the 16-bit store advances both low bytes of the current word and keeps every ticket taken since the load |
| RwLockMemory.Lock.PollRead | common/rwlock.cpp:56-56 | a poll admits the reader iff its ticket is the number of admissions |
| RwLockMemory.Lock.StoreRead | common/rwlock.cpp:57-57 | the plain store of `read++` writes the successor of the current byte |
| RwLockMemory.Lock.TryWriteCas | common/rwlock.cpp:41-48 | succeeds iff the word is as loaded and the lock free; a failure changes nothing |
| RwLockMemory.Lock.TryReadCas | common/rwlock.cpp:70-75 | succeeds iff the word is as loaded and nobody waits or writes; a failure changes nothing |
| EventLog.StepInv | logger/src/urts_calls.cpp:416-435 | every recorded step of any thread keeps queues bracketed, references backward and counters in step |
| EventRuns.WellBracketed | logger/src/urts_calls.cpp:416-435 | in every run `current_call` is the innermost open call and each open call's `previous_call` the call enclosing it |
| EventRuns.CountersExact | logger/src/urts_calls.cpp:222-239 | in every run an ECall's counter is the number of asynchronous exits while it was innermost |
| EventRuns.AexExact | logger/src/urts_calls.cpp:644-655 | the count stored in an ECall's return is the number of exits while that ECall was innermost |
| EventRuns.CloseAllIsRun | logger/src/store.cpp:619-666 | what finalize adds is a sequence of ordinary returns, so all that holds of runs holds of a finalized log |
| EventRuns.Finalized | logger/src/store.cpp:619-666 | after finalize every queue is balanced and every call has exactly one return |
| LogStory.StoryExact | logger/src/urts_calls.cpp:416-435 | in every run the events, with all their fields, and each thread's queue are those told from the threads' steps alone: a call names the call its thread is inside, a return its own call and the exits in it, only a traced exit inside an ECall adds an event |
| LogStory.TracedExact | logger/src/urts_calls.cpp:222-239 | in every run the AEX events naming an ECall, with its thread and a given time, are as many as there were traced exits of that thread at that time while the ECall was innermost |
| LogStory.TracedOnly | logger/src/urts_calls.cpp:233-238 | and every AEX event was recorded by such an exit: an exit that is not traced, or outside of an ECall, adds none |
| EventTimes.RunApart | logger/src/urts_calls.cpp:416-435 | in every run a call returns before the call enclosing it, and before its next sibling starts |
| EventTimes.ForestNoWrap | analyzer/src/calls.cpp:181-216 | on a finalized log none of the loader's unsigned time differences wraps |
| Recorder.EventStore.InsertEvent | logger/src/store.cpp:176-180 | the event gets its thread's id and goes to the end of that thread's queue, and nothing else changes |
| Recorder.EventStore.EnterCall | logger/src/urts_calls.cpp:644-649 | recording an ECall or OCall is the model's step and keeps the invariant |
| Recorder.EventStore.LeaveCall | logger/src/urts_calls.cpp:651-655 | so is recording its return and restoring `current_call` |
| Recorder.EventStore.CountAex | logger/src/urts_calls.cpp:222-239 | an exit counts for the innermost call if that is an ECall, and then, with tracing on, its event is recorded; otherwise nothing changes |
| Recorder.EventStore.CloseThread | logger/src/store.cpp:632-659 | the loop over `current_call` records the returns of all open calls, innermost first |
| Recorder.EventStore.Finalize | logger/src/store.cpp:619-666 | with the live threads walked in any order and no open call in the finished ones, no call is open afterwards |
| SyncRuns.MapExact | logger/src/urts_calls.cpp:454-488 | in every run the map holds, for each key, exactly the oldest wait entered since the last set under that key |
| SyncRuns.MatchedAtMostOnce | logger/src/urts_calls.cpp:440-497 | over every interleaving each set event names the wait that was the oldest entered under its key since the set before, and no wait is named twice |
| SyncRuns.OldestEntered | logger/src/urts_calls.cpp:454-456 | such a wait was not refused by the map: its key had no entry |
| SyncRuns.NextSetNames | logger/src/urts_calls.cpp:454-488 | whatever steps of any threads lie between a wait and the next set under its key, the set finds this wait iff the map had no older entry, and otherwise the older one |
| SyncRuns.OlderNamed | logger/src/urts_calls.cpp:454-488 | a run in which the set event names an older wait and not the latest |
| SyncStory.StoryExact | logger/src/urts_calls.cpp:440-497 | in every run the wait and set events recorded are exactly those told from the steps: each push records what its thread entered, or took as the oldest wait of the key, in its step before |
| SyncWrappers.Wrappers.Set | logger/src/urts_calls.cpp:466-497 | whatever the others do between its two sections, the thread takes the entry out and then records what it took |
| SyncWrappers.Wrappers.Wait | logger/src/urts_calls.cpp:440-461 | likewise for entering and recording a wait |
| SyncWrappers.Wrappers.SetMultiple | logger/src/urts_calls.cpp:502-515 | with any steps of others in between, exactly the single sets up to and including the first that fails, whose code is returned |
| SyncWrappers.Wrappers.SetWait | logger/src/urts_calls.cpp:520-526 | a set, then a wait only if the set succeeded, with any steps of others in between |
| Registry.StepInv | logger/src/store.cpp:154-231 | every locked section, with other threads acting between lookup and insertion, keeps the registry consistent |
| Registry.OnePlace | logger/src/store.cpp:154-231 | in every run a record that received events is in exactly one of the live map and the finished list, and at most once in the latter |
| Registry.AllAccepted | logger/src/store.cpp:154-231 | every event pushed in a run is accepted |
| Registry.NothingLost | logger/src/store.cpp:626-664 | after finalize, in whatever order the map is walked, the events flushed are those pushed in the run, each exactly once |
| Registry.FinalizedOnce | logger/src/store.cpp:626-664 | after finalize no record is live, every one that was is finished, and finalizing again changes nothing |
| Registry.WithItsThread | logger/src/store.cpp:154-231 | in every run the event of each push is only in the queue of a record of the thread that pushed it |
| RegistryRuns.Accounts | logger/src/store.cpp:154-231 | in every run the threads are those started, gone are exactly those that ended and destroyed exactly those whose destruction was recorded, and records and finished records are as many as insertions and destructions |
| RegistryRuns.GetsRecord | logger/src/store.cpp:157-178 | in every reachable state a running thread gets, by at most three steps of its own, to where it can push its event into a record of its own id |
| RegistryRuns.CreatedHasRecord | logger/src/store.cpp:187-205 | after the lookup of a created thread's id that id has a record: nothing happens if it had one, and otherwise the insertion, whatever others do in between, leaves one |
| Serialiser.Database.InsertRow | logger/src/store.cpp:388-393 | one row is appended with the next id; its two reference columns are those of ColumnsOf, event kind by event kind |
| Serialiser.Database.PreInsert | logger/src/events.h:601-612 | everything an event refers to has an id afterwards; the recursion ends and changes no id given before |
| Serialiser.Database.FlushEvent | logger/src/store.cpp:357-393 | the event has a row afterwards iff it is not a paging event outside every enclave |
| Serialiser.Database.Flush | logger/src/store.cpp:351-420 | whatever the order of the queues, the database is complete: one row per kept event, every reference a smaller id of the right event |
| Serialiser.ExactlyOneRow | logger/src/store.cpp:387-393 | in a complete database a kept event has exactly one row |
| Serialiser.ColumnsExact | logger/src/events.h:591-912 | in a complete database the row of a set event has the id of its OCall in `call_event` and that of its wait in `arg`; every other row has no `arg` reference and the id of the call it names, or nothing, in `call_event`; ids are smaller than the row's own and differ for different events |
| Serialiser.DroppedExact | logger/src/store.cpp:361-386 | the events without a row are exactly the paging events that lie outside the bounds or the lifetime, both inclusive, of each enclave |
| Forest.FindPredecessor | analyzer/src/calls.cpp:202-242 | the `parent` / `parent - 1` walk ends at exactly the last earlier call of the same kind and parent, or at none |
| Forest.FindParent | analyzer/src/calls.cpp:167-200 | the backward search finds the last slot with the parent's event id |
| Forest.Contiguous | analyzer/src/calls.cpp:202-242 | in start order the calls inside a call are a contiguous run of slots |
| CallCounters.TotalAppend | analyzer/src/calls.cpp:167-245 | loading a call changes each tally exactly by whether the call matches it |
| CallCounters.DirectSelf | analyzer/src/calls.cpp:167-200 | the direct-parent counts, their time buckets, the flag and the ECall total stay exact |
| CallCounters.IndirectSelf | analyzer/src/calls.cpp:202-242 | the predecessor counts, their time buckets and the flag stay exact |
| CallLoader.CountDirect | analyzer/src/calls.cpp:167-200 | the first half of the callback: parent slot and direct counts as the scan defines them |
| CallLoader.CountIndirect | analyzer/src/calls.cpp:202-242 | the second half, found by the walk, equals the count told with the naive scan |
| CallLoader.Loader.constructor | analyzer/src/calls.cpp:99-113 | empty threads, zero counters, and the invariant |
| CallLoader.Loader.CallDataCallback | analyzer/src/calls.cpp:115-342 | one row appends one call within the allocation and keeps every counter exact |
| CallLoader.Loader.Load | analyzer/src/calls.cpp:760-761 | so does the whole result set |
| CallTotals.FirstOrLater | analyzer/src/calls.cpp:202-242 | all calls of a kind are one first call for each parent and those with a predecessor |
| CallTotals.Conservation | analyzer/src/calls.cpp:142-337 | over the whole load: direct counts add up to the calls with a parent, indirect counts to all calls less one per parent, and the ECalls from OCalls to the ECalls with a parent |
| CallGraph.Scan | analyzer/src/graph.cpp:128-141 | one loop over a vector writes the edges with non-zero counts and queues exactly the parents not done |
| CallGraph.EdgesIntoOnce | analyzer/src/graph.cpp:128-156 | processing a node writes each edge into it once and no other |
| CallGraph.AllDone | analyzer/src/graph.cpp:112-206 | with empty worklists the done sets are the backward closure |
| CallGraph.DotEcallGraph | analyzer/src/graph.cpp:112-206 | the nested worklists terminate, done is exactly what is backward-reachable over non-zero counts, and each edge into it is written exactly once |
| LoadedGraph.LoadedIsValid | analyzer/src/graph.cpp:119-124 | after any load a flag is set iff some count behind it is not zero, so skipping unflagged calls drops nothing |
| LoadedGraph.EdgeMeans | analyzer/src/graph.cpp:128-156 | an edge is drawn iff some loaded call had such a parent or predecessor |
| Recorded.ThreadForest | logger/src/urts_calls.cpp:416-435 | the calls of a recorded queue form an alternating forest in preorder |
| EndToEnd.FlushReady | logger/src/store.cpp:351-358 | the queues of a recorded log, in any order, cover every event |
| EndToEnd.JoinIsCall | analyzer/src/calls.cpp:760-760 | a return row joins with its call's row and yields that call's columns |
| EndToEnd.EnoughSlots | analyzer/src/calls.cpp:754-755 | a thread never has more calls than the slots allocated for it |
| EndToEnd.ForestRecovered | analyzer/src/calls.cpp:760-761 | for every finalized log with distinct start times and every order the query may return, each row loads and the rebuilt forest is the recorded one |
| EndToEnd.ParentRecovered | analyzer/src/calls.cpp:167-200 | each loaded call's parent slot holds the call that enclosed it when it was recorded |
| EndToEnd.RunRecovered | analyzer/src/calls.cpp:754-761 | the whole chain from any run of any number of threads to the rebuilt forest, which is the nesting of each thread's own calls and returns, with no time difference wrapping |
| CallTraces.ForestTold | logger/src/urts_calls.cpp:416-435 | whatever the threads did and in whatever order finalize closed them, the forest in the log is the one told by a stack from that thread's enter and leave steps alone, open calls ending at finalize |
| QueryOrders.OrderByOk | analyzer/src/calls.cpp:760-760 | the query always has an order to return |
| QueryOrders.SomeOrderFails | analyzer/src/calls.cpp:760-761 | if two calls of a thread start together, some order the query may return loses the forest |
| QueryOrders.RecoveredIffDistinct | analyzer/src/calls.cpp:760-761 | for every complete database of a finalized log: all orders the query may return load and rebuild the recorded forest iff calls of a thread start at different times and the tables hold every call id |
| Pipeline.Store | logger/src/store.cpp:351-420 | flushing the queues of a finalized log, threads in any order, gives a complete database |
| Pipeline.Analyze | analyzer/src/calls.cpp:754-761 | loading the rows in any order the query may return gives exactly the recorded forests and counters exact for them |
| Pipeline.Draw | analyzer/src/graph.cpp:112-206 | the drawing has each edge some loaded call gave rise to, and that leads to the start, exactly once |
| Pipeline.RecordToGraph | analyzer/src/calls.cpp:754-761 | the tools in sequence: counters and edges are those of the recorded forests |
| IniText.Pass | common/ini.h:510-561 | every outer pass of the loader moves the cursor forward, in spite of the loop that steps back |
| IniLines.BlanksSkipped | common/ini.h:512-514 | characters up to the blank, and bytes of 128 and above, mean nothing before an item |
| IniLines.CommentSkipped | common/ini.h:519-524 | a comment stores nothing and reading goes on at the end of its line |
| IniLines.OpenHeaderSkipped | common/ini.h:526-538 | nor does a header that its line does not close |
| IniLines.PlainLineSkipped | common/ini.h:540-545 | nor does a line without '=' |
| IniLines.HeaderOpens | common/ini.h:526-538 | a closed header opens a section with that name, or with the rest of the text for an empty one |
| IniLines.PropertyStored | common/ini.h:540-559 | a property line stores the name up to the '=' and the value without the blanks around it, in the current section |
| IniLines.EmptyValueStored | common/ini.h:540-559 | without a value the rest of the text is stored in its place |
| IniExact.RoundTrip | common/ini.h:495-638 | for every structure of C strings: loading the saved text gives the same sections and the same sequence of properties in each iff names and values are legal, and then saving again gives the same text |
| IniExact.LoadShape | common/ini.h:510-561 | everything the loader stores is a legal name or value, or the rest of the text where an empty one was read |
| IniExact.EmptyValueLost | common/ini.h:510-561 | a property with an empty value does not come back |
| IniReload.Reload | common/ini.h:495-638 | asking for the size, saving into a buffer of that size and loading its text gives the structure back iff it is legal |
| IniStore.Store.constructor | common/ini.h:477-492 | a new structure has the global section only |
| IniStore.Store.SectionAdd | common/ini.h:772-805 | appends the section and returns its index |
| IniStore.Store.PropertyAdd | common/ini.h:808-858 | appends the property, or does nothing for a section that is not there |
| IniStore.Store.PropertyCount | common/ini.h:677-693 | the number of properties of the section, 0 for one that is not there |
| IniStore.Store.PropertyIndex | common/ini.h:455-474 | found iff the number is below the section's count, and then it is that property |
| IniStore.Store.PropertyRemove | common/ini.h:889-904 | exactly that pair leaves its section; every other section keeps its pairs |
| IniStore.Store.SectionRemove | common/ini.h:861-886 | every other section keeps its name and its pairs, the last section takes the freed index, all indices stay in range |
| IniStore.BagSwapOut | common/ini.h:868-877 | swap-with-last removes exactly one pair |
| IniFile.Save | common/ini.h:568-638 | the length does not depend on buffer or size; exactly the characters below both are written, as in the full text with its terminator, and the rest is untouched |
| IniFile.Reader.OnePass | common/ini.h:510-561 | one outer pass reads what the format defines and advances the cursor |
| IniFile.Reader.Load | common/ini.h:495-565 | the loader's loops build the structure the format defines |
| Enclaves.OffsetInside | workingset/src/main.cpp:232-235 | the handler's page is the page of the address, and its index is inside the array iff the fault is not at the very end of an enclave of whole pages |
| Enclaves.EndOutside | workingset/src/main.cpp:232-235 | a fault at the end of an enclave of two whole pages, with index 2 |
| Enclaves.Enclave.ResetPageCounter | workingset/src/main.cpp:75-79 | every status byte is cleared |
| Enclaves.Enclave.UpdatePageCounter | workingset/src/main.cpp:81-90 | the counter is the number of distinct pages whose byte is set |
| Enclaves.Enclave.TestAndSet | workingset/src/main.cpp:237-237 | the byte's old value, and the page joins the set |
| Enclaves.Find | workingset/src/main.cpp:227-233 | the loop finds the first live enclave whose range holds the address |
| FaultHistory.SinceMeans | workingset/src/main.cpp:225-285 | the pages that faulted since creation or the last reset are those with a fault entry that counts for them and no reset entry after it |
| FaultHistory.RemovedExact | workingset/src/main.cpp:194-204 | a destruction ends the first live enclave with the id, if there is one, and nothing else |
| FaultHistory.FindsExact | workingset/src/main.cpp:225-237 | the handler finds an enclave with an index inside its array iff it lives, the address is inside it (or is its end, inside its last page) and no live enclave listed before it ends at the address |
| FaultHistory.AdjacentLost | workingset/src/main.cpp:60-63 | two adjacent enclaves for which the fault at the first address of the second counts for neither |
| WorkingSetRuns.WsStepInv | workingset/src/main.cpp:174-286 | every step of any handler, reset, creation or destruction keeps status bytes, protection, lock and the history of faults in step |
| WorkingSetRuns.Agreement | workingset/src/main.cpp:225-285 | over every interleaving, when nobody is mid-section a live enclave's page is accessible iff its byte is set, and the byte is set iff the history has a fault that counts for this page, as FindsExact says, and no reset after it |
| WorkingSetRuns.EverythingNoted | workingset/src/main.cpp:152-285 | over every interleaving the history holds each fault address, reset, registration and destruction as often as threads took it on, less those still at it or waiting for the lock |
| WorkingSetRuns.CounterMeans | workingset/src/main.cpp:81-90 | a recomputed counter is the number of distinct pages with such a fault since creation or the last reset |
| WorkingSetProgress.SomeoneWorks | workingset/src/main.cpp:152-286 | in every reachable state where some thread is at a fault, reset, creation or destruction, some such thread can move, and its step brings the end of the work nearer |
| WorkingSetProgress.EverythingServed | workingset/src/main.cpp:152-286 | after every run and any fair schedule of what is left, nobody holds or waits for the lock, and the history has each fault, reset, registration and destruction exactly as often as threads took it on |
| WorkingSetRuns.OwnPage | workingset/src/main.cpp:232-243 | for a fault that counts for an enclave the handler marks that page of it, then opens that page unless it was marked, and changes nothing else; for any other fault it changes nothing |
| Csv.FieldBack | common/shell.c:4581-4657 | any field, quoted or not, is read back whole with what ended it |
| Csv.RoundTrip | common/shell.c:4581-4657 | a written table is read back with its fields and row boundaries iff no row is empty and the separator is below 128 or never needed |
| Csv.HighSeparatorLost | common/shell.c:4581-4657 | two columns with separator 200 are not read back, with separator 100 they are |
| CsvLaws.QuotedExactly | common/shell.c:2513-2558 | a field is written with quotes iff it is empty or has the separator, a byte up to 32 or from 127, a quote or an apostrophe; otherwise it is written as it is |
| CsvLaws.BomSkipped | common/shell.c:4631-4643 | before the first field a byte order mark is dropped |
| CsvLaws.OnlyBomSkipped | common/shell.c:4631-4643 | nothing else is, not even a part of the mark |
| CsvLaws.BareTaken | common/shell.c:4644-4652 | an unquoted field is taken as it is up to the separator, the newline or the end, less a carriage return before the newline |
| CsvLaws.QuotedTaken | common/shell.c:4591-4627 | a quoted field ends at a quote before the separator, the end of the line with or without a carriage return, or the end |
| CsvLaws.UnterminatedTaken | common/shell.c:4618-4623 | a quoted field that is never closed has everything up to the end |
| CsvLaws.StrayKept | common/shell.c:4605-4626 | a quote that is followed by anything else is kept and the field goes on |
| CsvIo.Writer.OutputCsv | common/shell.c:2538-2567 | the two loops write the field as the format defines it, with quotes iff MustQuote says so, then the separator if asked |
| CsvIo.Writer.OutputRow | common/shell.c:2880-2885 | a row is its fields, separated, and CRLF |
| CsvIo.Reader.ReadOneField | common/shell.c:4581-4657 | the reader's loops, the byte order mark and the end of input as the format defines them |
| Sponge.RateBytes | common/shell.c:1214-1220 | for sizes from 128 to 512 the bytes not absorbed into are the least multiple of eight that has twice the size in bits, for others it is that of 256; the four sizes of FIPS 202 |
| Sponge.XorBits | common/shell.c:1252-1263 | combining input with the state is exclusive or, bit by bit, at the places of the input and nowhere else |
| Sponge.XorTwice | common/shell.c:1252-1263 | the same input combined again gives back the state |
| Sha3.XorWordTwice | common/shell.c:1252-1252 | 64-bit words are combined by exclusive or; the same word again gives back the first |
| Sponge.AbsorbConcat | common/shell.c:1243-1275 | absorbing a message in two parts is absorbing it at once |
| Sponge.AbsorbBlocks | common/shell.c:1243-1275 | the byte-wise sponge is the block-wise sponge of section 4 of FIPS 202 |
| Sponge.PadIsFips | common/shell.c:1282-1293 | the padding bytes are the bits 01 and pad10*1 of sections 5.1 and 6.1 of FIPS 202 |
| Sponge.FinishIsSponge | common/shell.c:1282-1293 | finishing after any message gives the block-wise sponge over the padded message |
| Sha3.LaneXor | common/shell.c:1252-1252 | combining 64-bit words combines their bytes |
| Sha3.Context.constructor | common/shell.c:1214-1237 | an empty context of the right rate |
| Sha3.Context.Update | common/shell.c:1243-1275 | whatever the alignment and the split over calls, the state is that of byte-wise absorption and less than a block is loaded |
| Sha3.Context.Final | common/shell.c:1282-1298 | the bytes returned are the start of the sponge's state over the padded input |

## Left out

- SQLite, ELF and symbol parsing, dlsym interposition, machine-code patching, perf and kprobe reading, signals and all printing: foreign calls or I/O. The database is a growing sequence of rows; clocks are parameters.
- Statistics, percentages, weights, DOT labels, `single_calls` and the scatter export in analyzer/src/calls.cpp and analyzer/src/graph.cpp: floating point, output, or a slot address taken after the index has moved on.
- analyzer/src/security.cpp, and analysing more than one enclave.
- Events that arrive while `finalize` runs, the exception for a thread event that names an unregistered thread (logger/src/store.cpp:209-217), and the first-ECall table race noted at logger/src/urts_calls.cpp:580.
- The SGX runtime's rules are taken as given: ECalls and OCalls alternate, returns follow the C stack, and the calls and returns of a thread have times in their order (other events may have any time). An event is constructed and pushed in one step in `EventLog`; the gap between the two is modelled for waits and sets in `SyncRuns`. That calls of a thread start at different times and that the tables hold every call id (`KnownIds`) are hypotheses of the recovery theorems; `RecoveredIffDistinct` shows that both are needed.
- `ini_section_name_set`, `ini_property_name_set`, `ini_property_value_set`, `ini_find_section`, `ini_find_property`, `ini_destroy`, and null arguments of the INI functions: easy members, or ones whose code is known to touch the wrong slot or to scan past the count.
- IniStore.Store: where characters are stored (inside the record or allocated) and the growth of the arrays are not modelled; `char` is signed, as on x86.
- WorkingSetRuns.Agreement: enclaves being created lie on whole pages that no live or pending enclave has; a fault whose index would leave the status array has no effect in the model, where the code sets a byte behind the array and may open the page; the inner lock of `print_summary` in `reset_handler` is left out.
- WorkingSetProgress.EverythingServed: holds of the tracker without the inner lock of `print_summary`; with it `reset_handler` never ends (`WriterBlocksAll`).
- Enclaves.Enclave: `page_counter` is recomputed while no handler runs; two summaries at once would race on it.
- CallLoader.Loader.CallDataCallback: execution times, AEX counts and the times of the first and last ECall, which the callback only appends or accumulates, are not modelled.
- Registry.StepInv: a pthread id is reused only after its thread has ended; thread names are not modelled.
- Serialiser.Database.Flush: the enclave id written to paging rows, enclave files and thread start addresses are not modelled.
- Csv.RoundTrip: separators of one byte; null values, headers and the line counter are not modelled.
- Sha3.Context: little-endian machines; the Keccak permutation is a parameter, so its rounds are not modelled.
