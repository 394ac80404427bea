# Verified models of zsim and its DRAM-cache controller

zsim is a multicore simulator that runs in two phases, a fast bound phase and an
event-driven weave phase; this fork adds the DRAM-cache controller used in the Banshee
work. This project models the stateful parts whose correctness the simulator takes for
granted, and proves what they keep over every run. Statistics, tracing, latencies and
timing records are stripped from the models; random draws, hash functions, replacement
rankings and the behaviour of events are arbitrary.

| Component | Files | Source |
|---|---|---|
| MESI coherence controllers, any tree of inclusive caches | `MesiProtocol`, `MesiHierarchy`, `MesiSweep`, `MesiSteps`, `MesiController` | `src/coherence_ctrls.h`, `src/coherence_ctrls.cpp`, `src/cache.cpp` |
| ZArray, the zcache array | `ZArray` | `src/cache_arrays.cpp` |
| Phase barrier | `Barrier` | `src/barrier.h` |
| Calendar queue and the weave loop | `PrioQueue`, `ContentionSim` | `src/prio_queue.h`, `src/contention_sim.cpp` |
| Instruction window | `Window` | `src/ooo_core.h` |
| DDR controller | `ActWindow`, `IntrusiveList`, `FrFcfs`, `DdrTiming`, `DdrFaw`, `DdrClock`, `DdrQueues`, `DdrEvents`, `DdrAnswers`, `DdrController` | `src/ddr_mem.h`, `src/ddr_mem.cpp`, `src/intrusive_list.h` |
| DRAM-cache controller | `TagBuffer`, `PagePlacement`, `PageMap`, `DramCache` | `src/mc.cpp`, `src/mc.h`, `src/page_placement.cpp` |

Objects the source updates in place are classes; each step is proved against a predicate or
a function on values, and each component has a method (`Run`, or `Simulate` for the weave
loop) that creates a fresh object, executes an arbitrary sequence of operations and ensures
the component's theorem of the state it ends in.

## What is proved

**MESI.** For one line address and a tree of caches of any shape, steps are core accesses,
the parent taking up a waiting request, and evictions; a request that goes up leaves its
cache open to invalidations, as in the source, where the child lock is dropped. In every
reachable state the directory entry counts its sharers, a child is a sharer just if it holds
the line, it is in E or M just if the entry is exclusive, and rights never exceed the
parent's. Hence a single writer or many readers, no lost dirty data, no panic in the race
check, no stuck request, and every load returns the last value stored. The versions of the
line (`value`, `latest`, `memory`) are an interpretation added here: the simulator keeps
states only.

**ZArray.** After any sequence of accesses the position table is a permutation, every line
sits where one of its hash functions puts it, tags are unique, and a lookup equals a scan of
all tags. The relocation chain visits no line twice because the parent of the first
occurrence of a line is itself a first occurrence.

**Barrier.** The run list is exact, the counters are true, no more than the allowed number
of threads run, and nobody waits while nobody runs. `tracked` is the hypothesis that no
thread has left before it was woken since it came on; under it `lastIdx` is right, a join
ends no phase, no thread is woken again before the phase ends, and a phase ends only when all
threads asleep have synced in it. Without it the assertion
in `join` can fail; `Join` says exactly when, and `StaleIndexAborts` gives a run.

**Calendar queue.** The ring and the far map together are one multiset; `dequeue` and
`firstCycle` agree on the minimum. A weave phase with one domain runs events in order of
their cycles, each once, and leaves none below its limit; so do all phases together, whatever
the bound phases between them enqueue.

**Instruction window.** The two arrays and the map stand for one book of port bookings,
through every rebase. A uop is booked in the first cycle that has a port, no port is booked
twice, and occupancy is the number of uops to come. The code fails at long jumps of the
clock, in two ways. A jump keeps the book if and only if nothing at all is booked up to the
new horizon; `PhantomSlot` shows an extra slot surviving a jump into a cycle in which nothing
was booked. And the assertion in the rebase fails if and only if a jump has left an entry of
the map behind, that is, if right after it the first key of the map lies before the new
horizon; nothing but a jump leaves one behind, and nothing takes it away. `RebaseAborts` gives
a run. Every run goes on until such a rebase.

**DDR.** Every pair of commands ever issued keeps the timing rules, whatever arrives and
whenever events and refreshes come; the column accesses are exactly those the requests served
asked for, in the order of serving; each request is in exactly one place. Scheduling events
are annulled and recycled rather than removed: whichever event of the simulator's queue comes
up, there is exactly one live event as long as anything waits and none otherwise, it runs in
the cycle that is due, and an annulled one changes nothing. The number of later arrivals
that get ahead of a queued request is bounded by the row hits left to the rows ahead of it.
The activation window is right after an activation if and only if the activation does not
lie before the second oldest entry, and as long as none does it holds the newest activations
in order; `AddedCanUnsort` shows one that does. The rule the window
is there for holds all the same: in any order of activations, no more than four of a rank fall
into any tFAW cycles, because even a window out of order has traded exactly its oldest entry.

**DRAM cache.** The page map, the ways, the counter table, the recency ranks and the tag
buffer agree through hits, misses, evictions and rebalancing, and every assertion of the
source about them holds. The lines that resident pages mark as written are those whose latest
value is only in the DRAM cache, and those that external memory has as well: a store miss that
places its page is sent to external memory too, except under Unison (`src/mc.cpp:384-411`).
There are none of the second kind under Unison, nor under FBR, where a store places no page.
No access loses a value. The code fails at rebalancing: for a dirty page that is flushed it
reads external memory instead of writing to it (`src/mc.cpp:743`; the write-backs of
replacements are `PUTX`). A rebalancing loses exactly the marked lines of the sets it passes
that external memory does not have, so it loses none if and only if it has them all. Under FBR
that is so if and only if no way there is dirty; under LRU clean ways suffice.
`RebalanceLosesWrite` gives a run that loses a write, `RebalanceKeepsStoreMiss` one that
passes a dirty way and loses none. That emptying a way loses nothing if it is written back is
`EvictedStale`. Where the latest values are is again an interpretation added here.

## Model

| member | source | states |
|---|---|---|
| MesiProtocol.RaceCheckAbsorbsEveryInterleaving | src/coherence_ctrls.h:247-274 | However many INV and INVX overtake a waiting request, the race check never panics, skips exactly the PUTs whose line is gone, and otherwise lets through only what the race-free controllers accept |
| MesiHierarchy.AncestorsOfExclusive | src/coherence_ctrls.h:180-198 | In a coherent hierarchy every cache above one in E or M is in E or M, and its entry is exclusive with the child on the way down as only sharer |
| MesiHierarchy.SingleWriter | src/coherence_ctrls.cpp:268-339 | A cache in E or M shares the line only with its own ancestors and descendants |
| MesiHierarchy.TerminalCachesExclude | src/coherence_ctrls.cpp:268-339 | If one terminal cache may write the line, no other terminal cache holds it |
| MesiHierarchy.StaleHasOwnerBelow | src/coherence_ctrls.cpp:58-89 | A valid copy that misses the last store has a cache in M below it |
| MesiHierarchy.StaleMemoryHasOwner | src/coherence_ctrls.cpp:58-89 | If memory misses the last store, some cache is in M |
| MesiHierarchy.TerminalCopyIsCurrent | src/coherence_ctrls.cpp:91-157 | A terminal cache that holds the line holds the last value stored |
| MesiHierarchy.SomeRequestCanProceed | src/coherence_ctrls.h:306-325 | If any request waits, some waiting request has an idle parent (or memory), so the lock order cannot wedge |
| MesiController.Hierarchy.SendInvalidates | src/coherence_ctrls.cpp:220-254 | INV empties the subtrees of all sharers and the entry, INVX downgrades the exclusive sharer's subtree or does nothing; the write-back flag is raised just if something below was dirty, and the newest value comes up |
| MesiController.Hierarchy.Invalidate | src/cache.cpp:136-145 | An invalidation finds its line in the array, and leaves the cache and all below it invalid (INV) or shared (INVX), reporting a write-back just if any was in M |
| MesiController.Hierarchy.Grant | src/coherence_ctrls.cpp:268-339 | A GET is granted: the invariant holds after it, the child is in E, S or M as asked and allowed, and the parent is in M afterwards exactly if anything was dirty there or below |
| MesiController.Hierarchy.AcceptPut | src/coherence_ctrls.cpp:268-287 | A PUT that survives the race check takes the child out of the entry, keeps the invariant, and leaves the line out of the child |
| MesiController.Hierarchy.AnswerFromMemory | src/mc.cpp:177-190 | Memory answers GETS with E (or S if told so), GETX with M, PUTs with I, and the invariant holds after it |
| MesiController.Hierarchy.CoreAccess | src/coherence_ctrls.cpp:91-157 | A core's access completes at once exactly if the terminal cache has the rights, and otherwise waits at the parent with its initial state recorded |
| MesiController.Hierarchy.Deliver | src/cache.cpp:65-130 | The parent takes up a waiting request: it is completed down to the core that asked, or passed on upward; a load that completes returns the last value stored |
| MesiController.Hierarchy.Evict | src/coherence_ctrls.h:340-345 | After an eviction nothing below holds the line, and what was dirty anywhere below goes up as a PUTX |
| MesiController.Run | src/coherence_ctrls.h:277-408 | For any tree and any schedule the invariant holds at the end and every completed load returned the value of the last store |
| ZArrays.ParentIsFirst | src/cache_arrays.cpp:147-172 | If a candidate is the first of its line in the walk, so is its parent |
| ZArrays.PathIsSimple | src/cache_arrays.cpp:183-205 | The parent chain of a first occurrence leads through first occurrences only, with falling indices, so it visits no line twice, and its length is bounded by index / ways |
| ZArrays.PathIsChain | src/cache_arrays.cpp:198-205 | Its positions form a chain along which every line moves to another of its own positions, of length at most index / ways + 1 |
| ZArrays.MovesKeepArray | src/cache_arrays.cpp:213-228 | Moving along the chain and putting the new line at its end gives a permutation again, with every line at one of its own positions |
| ZArrays.ZArray.Lookup | src/cache_arrays.cpp:109-127 | A lookup finds a line exactly if a scan of all tags would |
| ZArrays.ZArray.Expand | src/cache_arrays.cpp:149-171 | One expansion of the walk adds exactly ways - 1 candidates |
| ZArrays.ZArray.WalkCandidates | src/cache_arrays.cpp:129-176 | The walk terminates and stays inside cands + ways entries |
| ZArrays.ZArray.Preinsert | src/cache_arrays.cpp:129-211 | Whatever candidate the policy picks, the swap array holds a chain from it to a position of the new line, and the reported victim is that line's tag |
| ZArrays.ZArray.Postinsert | src/cache_arrays.cpp:213-228 | After the moves the array is valid and holds what it held, with the new tag in place of the victim's |
| ZArrays.ZArray.Access | src/cache.cpp:70-84 | A hit changes no tag; a miss replaces exactly the reported line |
| ZArrays.Run | src/cache_arrays.cpp:109-228 | After any trace the array is valid, the last address is present, only addresses of the trace are held, and all others were reported as evicted |
| Barriers.AllLeft | src/barrier.h:201-206 | The test leftThreads == runListSize holds exactly if every listed thread has left |
| Barriers.Rewind | src/barrier.h:201-210 | When all have been called and none runs, the list can be started again; in a tracked run every thread that waits has synced, and if not all have left someone waits |
| Barriers.Barrier.CheckRunList | src/barrier.h:256-273 | Threads are woken in list order while there is room, none that has finished the phase; it stops with all slots taken or the list exhausted |
| Barriers.Barrier.TakeLeaversOff | src/barrier.h:212-236 | The compaction takes exactly the threads that have left off the list, and the list, the counters and the recorded places stay exact |
| Barriers.Barrier.Shuffle | src/barrier.h:239-252 | The shuffle, for any random draws, permutes the list and keeps the recorded places right |
| Barriers.Barrier.CheckEndPhase | src/barrier.h:201-254 | The phase ends exactly if all were called, none runs and not all have left; in a tracked run every waiting thread had synced |
| Barriers.Barrier.Join | src/barrier.h:124-163 | The assertion on lastIdx fails exactly if a thread that left, and was passed in this phase, is not where lastIdx says, never in a tracked run; there a join ends no phase, wakes nobody who is done, and leaves the thread running or next in line |
| Barriers.Barrier.Leave | src/barrier.h:166-178 | Leaving keeps the barrier exact; it ends the phase only as the last running thread leaves; the run stays tracked just if the thread had been woken |
| Barriers.Barrier.Sync | src/barrier.h:181-198 | A thread that syncs is not woken before the phase ends; if it ends the phase it was the only one running and, in a tracked run, all others waiting had synced |
| Barriers.Run | src/barrier.h:124-279 | For any schedule: an abort only in an untracked run; in a tracked one every phase that ended did so when all threads asleep had synced in it; unless aborted, the list holds exactly the threads that are not OFFLINE, once each, at most the allowed number run, and nobody waits while nobody runs |
| Barriers.StaleIndexAborts | src/barrier.h:132-137 | A run in which the assertion in join fails: a thread leaves without having been woken and joins again |
| PrioQueues.TurnRepresents | src/prio_queue.h:96-98 | The ring may pass a block that holds nothing and still represents the same multiset |
| PrioQueues.MoveRepresents | src/prio_queue.h:99-114 | Moving the nearest far element into the ring changes nothing of what is queued |
| PrioQueues.NearestIsFirst | src/prio_queue.h:133-139 | The lowest occupied slot of the first occupied block is the minimum, unless the far map starts earlier |
| PrioQueues.FarIsFirst | src/prio_queue.h:140-149 | The head of the far map is the minimum if the ring holds nothing before it |
| PrioQueues.PrioQueue.Enqueue | src/prio_queue.h:79-92 | Adds exactly one element to the multiset |
| PrioQueues.PrioQueue.Dequeue | src/prio_queue.h:94-125 | Takes out an element of the smallest cycle, and the scan for it terminates |
| PrioQueues.PrioQueue.FirstCycle | src/prio_queue.h:131-150 | Returns the smallest cycle queued, near or far |
| ContentionSim.Domain.SimulatePhase | src/contention_sim.cpp:293-321 | Events run in order of their cycles within the phase; none is lost, run twice or made up; a phase that finishes leaves none below the limit |
| ContentionSim.Simulate | src/contention_sim.cpp:201-321 | Over all phases together, for any causal behaviour of events and whatever is enqueued between the phases at or after the last limit, the same |
| Windows.FutureUop | src/ooo_core.h:209-212 | If any uop is counted, one lies ahead, so the loop on a full window ends |
| Windows.RebaseKeeps | src/ooo_core.h:157-174 | After the arrays swap and the near entries of the map moved in, every later cycle has the bookings it had |
| Windows.TrySchedule | src/ooo_core.h:266-288 | Succeeds exactly if a port of the mask is free; a uop takes the lowest and is counted, a shadow request takes all of the mask and is not |
| Windows.Place | src/ooo_core.h:214-260 | The search through both arrays and the map books the first cycle from the given one on that has a free port, and changes no other |
| Windows.WindowStructure.AdvancePos | src/ooo_core.h:151-175 | The clock moves one cycle, no booking changes, and occupancy falls by the uops of that cycle; a rebase fails exactly if a jump has left an entry of the map behind |
| Windows.WindowStructure.MakeRoom | src/ooo_core.h:209-212 | Time passes just until a cycle with a uop has been left behind, unless a rebase fails, which it can only after a jump that left an entry behind |
| Windows.WindowStructure.ScheduleInternal | src/ooo_core.h:207-264 | The first cycle with a free port is booked, after making room if the uop counts |
| Windows.WindowStructure.Schedule | src/ooo_core.h:133-149 | As before, and the extra slots take the uop's port so that it is occupied from the uop through the last of them, each slot having been free |
| Windows.JumpSound | src/ooo_core.h:187-192 | Moving the clock without touching the structure keeps it standing for the same book if and only if nothing is booked up to the new horizon |
| Windows.LeapSound | src/ooo_core.h:187-192 | No booking changes in a jump, and none is left behind, if and only if nothing is booked up to the new horizon; what is visible in the structure tells |
| Windows.WindowStructure.LongAdvance | src/ooo_core.h:177-193 | Drains until no uop is left or the target is reached; a jump after that is sound exactly if nothing is booked up to the new horizon, and whether it has left an entry behind is seen at the first key of the map; no uop is lost or made up |
| Windows.PhantomSlot | src/ooo_core.h:177-193 | A concrete run: an extra slot occupies a port, after a jump, in a cycle in which nothing was booked |
| Windows.RebaseAborts | src/ooo_core.h:157-171 | A concrete run: a poisoned range, a jump, and four cycles later a rebase that meets a booking long past |
| Windows.WindowStructure.PoisonRange | src/ooo_core.h:196-205 | The ports are taken in every cycle until the target, and in one more: the first from the target on in which one of them was free |
| Windows.Run | src/ooo_core.h:104-289 | For any operations: every uop asked for is issued once, on a port of its mask and not before its cycle, no two share a port in a cycle, and occupancy is the number of uops still to come, at most the window size; a run ends early only at a jump into the past, or at a rebase after a jump that left an entry behind |
| ActWindows.AddedIsInsert | src/ddr_mem.h:59-75 | The window is right after an activation, the oldest dropped and the new one in its place, if and only if it has fewer than two entries or the activation does not lie before the second oldest |
| ActWindows.AddedCanUnsort | src/ddr_mem.h:65-71 | A window left out of order by an activation before all but the oldest entry |
| ActWindows.ActWindow.AddActivation | src/ddr_mem.h:59-75 | The loop on the circular buffer computes exactly that, for all windows |
| ActWindows.AddedTrades | src/ddr_mem.h:59-75 | Whether or not it stays in order, the buffer loses exactly its first entry and gains exactly the new one |
| ActWindows.CoveredAct | src/ddr_mem.cpp:603-611 | An activation tFAW after the first entry, recorded in whatever order, keeps the activations of any tFAW cycles matched by window entries that are not before them |
| ActWindows.AddedNewest | src/ddr_mem.h:59-75 | A window that holds the newest activations in order still does after one that does not lie before the second oldest entry |
| ActWindows.Run | src/ddr_mem.h:43-79 | Over any run, in any order of activations, each is made when asked for or later, and no more than the window size fall into any tFAW cycles; as long as none lies before the second oldest entry, the window is the newest part of all activations sorted by time |
| IntrusiveLists.InList.PushFront | src/intrusive_list.h:88-101 | Refines putting an element before a sequence |
| IntrusiveLists.InList.PushBack | src/intrusive_list.h:103-115 | Refines appending to a sequence |
| IntrusiveLists.InList.PopFront | src/intrusive_list.h:117-124 | Refines dropping the first element; the node is free afterwards |
| IntrusiveLists.InList.PopBack | src/intrusive_list.h:126-133 | Refines dropping the last element; the node is free afterwards |
| IntrusiveLists.InList.Remove | src/intrusive_list.h:136-143 | Refines deleting any element |
| IntrusiveLists.InList.InsertAfter | src/intrusive_list.h:145-151 | Refines inserting after any element |
| FrFcfs.Enqueue | src/ddr_mem.cpp:402-454 | The walk over the linked list puts a request after the last one to its row if that may be hit again, otherwise last, with its place in the streak |
| FrFcfs.ArrivalKeeps | src/ddr_mem.cpp:422-454 | Hits never exceed the limit, streaks stay contiguous and counted, and requests to a row stay in order of arrival |
| FrFcfs.StreakIsContiguous | src/ddr_mem.cpp:422-437 | The hits before an item of a streak are right in front of it, so at most limit requests in a row are served for their row |
| FrFcfs.CreditArrival | src/ddr_mem.cpp:422-454 | An arrival put behind a waiting request leaves the hits still to be taken ahead of it unchanged, one put ahead of it spends exactly one |
| FrFcfs.BypassesBounded | src/ddr_mem.cpp:402-454 | Whatever arrives and is served, the later arrivals that get ahead of the request at position k are at most the hits left to the rows whose last entry lies ahead of it, hence at most k times the limit, and it is served after at most k * (limit + 1) others |
| FrFcfs.Run | src/ddr_mem.cpp:402-454 | Over any run of a bank's queue every arrival is served once or waits, and the accesses to a row are served in order of arrival |
| DdrTiming.RulesHold | src/ddr_mem.cpp:582-637 | Between any two commands of a log every rule holds: bursts do not overlap, tRCD, tRAS + tRP and tRRD on a bank, tRTP, tWR, tWTR, tRFC |
| DdrTiming.OpenedBy | src/ddr_mem.cpp:587-615 | A row counted as open was activated, and since then its bank has seen no other activation and the channel no refresh |
| DdrTiming.HitKeeps | src/ddr_mem.cpp:582-637 | What the controller remembers of the banks and the bus stays late enough for everything issued, after a row hit |
| DdrTiming.MissKeeps | src/ddr_mem.cpp:590-637 | The same after an activation and the access to the new row |
| DdrTiming.RefreshKeeps | src/ddr_mem.cpp:687-709 | The same after a refresh: it starts after all that went before, and no later command comes before it is done |
| DdrFaw.RanksMiss | src/ddr_mem.cpp:603-610 | An activation that waits for its rank's window and is recorded there keeps the windows of all ranks covering all activations issued |
| DdrFaw.RanksRule | src/ddr_mem.h:207 | If the windows cover the log, no more than n activations of any rank fall into any tFAW cycles |
| DdrClock.MatchingRoundTrip | src/ddr_mem.h:252-260 | A memory cycle translates to a nonzero system cycle that translates back to it, if memFreq < sysFreq / 2 |
| DdrClock.WakesInCycle | src/ddr_mem.cpp:371-374 | An event for a memory cycle that is not past, put off to the present at least, runs in that memory cycle |
| DdrClock.RespondsLater | src/ddr_mem.cpp:644-645 | A response is never before the present |
| DdrQueues.SomeFront | src/ddr_mem.cpp:551-570 | If a queue holds anything, it holds the first request of some bank's list, so the search has a finite result |
| DdrQueues.JoinedOK | src/ddr_mem.cpp:330-378 | Queueing a new request keeps the queue and the bank lists in agreement, and every request in one place |
| DdrQueues.ReadmittedOK | src/ddr_mem.cpp:466-473 | So does taking the first request back from the overflow queue |
| DdrQueues.ServedOK | src/ddr_mem.cpp:680-682 | So does serving a request that is first in its bank's list |
| DdrEvents.EventPool.Schedule | src/ddr_mem.cpp:358-374 | The live event, which is queued, is annulled, and an idle or new one becomes the only live one |
| DdrEvents.EventPool.Recycle | src/ddr_mem.cpp:498-503 | An annulled event, or one that has run and is no longer the next, goes to the free list; the two assertions hold |
| DdrEvents.EventPool.OneNext | src/ddr_mem.cpp:93-149 | There is at most one live event, and it is the controller's next one |
| DdrController.Issue | src/ddr_mem.cpp:579-637 | A ready request is issued not before now nor its arrival, the log grows by its column access, preceded by its activation exactly if the row is not open; the activation waits for the window and is recorded there; the bank is left open on the row unless it is to be closed, and all rules hold |
| DdrController.FindReady | src/ddr_mem.cpp:551-577 | Finds the first request in allocation order that is first in its bank's list and ready; if none is, the earliest cycle in which one will be, which is later than now |
| DdrController.DDRMemory.TrySchedule | src/ddr_mem.cpp:526-685 | Serves at most one request, of the queue that has priority, the first ready one; asks to be called again just if anything is left, and later unless it served one |
| DdrController.DDRMemory.Enqueue | src/ddr_mem.cpp:330-378 | A request overflows exactly if a queue is full; the next event stays, or is annulled in favour of an earlier one; there is one just if something waits |
| DdrController.DDRMemory.Tick | src/ddr_mem.cpp:461-496 | While its event runs, in the cycle that is due: returns 0, with no next event, exactly if nothing is left, and otherwise a system cycle that translates to the next memory cycle; it serves a request, takes one from the overflow queue, or waits for a later cycle |
| DdrController.DDRMemory.Simulate | src/ddr_mem.cpp:114-133 | The live event ticks the controller and is queued again exactly if anything waits, otherwise recycled; an annulled one is recycled and changes neither queues nor commands nor the next event |
| DdrController.DDRMemory.Refresh | src/ddr_mem.cpp:687-709 | A refresh is logged at or after its cycle, and the queues and the next event stay |
| DdrAnswers.AnswersLater | src/ddr_mem.cpp:466-473 | Later arrivals, and the new arrival cycle of a request taken back from the overflow queue, leave it true that the column accesses answer the requests served |
| DdrAnswers.AnswersCount | src/ddr_mem.cpp:579-685 | If the column accesses answer the requests served, there is one for each |
| DdrController.Run | src/ddr_mem.cpp:330-709 | For any arrivals, any order of live and annulled events, and refreshes: all commands keep every rule, no more than four activations of a rank fall into any tFAW cycles, the i-th column access has the bank, row, size and direction of the i-th request served, the requests are those of the arrivals, every request is in exactly one place, and there is exactly one live event if any waits and none otherwise |
| TagBuffers.UpdateLRU | src/mc.cpp:977-985 | The used way becomes the most recent, those before it go one back, remapped entries keep their rank |
| TagBuffers.AgedOK | src/mc.cpp:977-985 | Ranks of ways that are not remapped stay distinct, and the order of all other ways is kept |
| TagBuffers.InsertIn | src/mc.cpp:928-974 | Succeeds exactly if the tag is there or a way is not remapped; the least recent such way gives place, and no remapped entry is ever lost |
| TagBuffers.BothFit | src/mc.cpp:910-926 | If two usable ways exist for two different tags, there is still one for the second after the first was inserted, even if the first took its place |
| TagBuffers.TagBuffer.CanInsert | src/mc.cpp:889-908 | Says exactly whether an insertion will succeed |
| TagBuffers.TagBuffer.CanInsertBoth | src/mc.cpp:910-926 | Says exactly whether two different usable ways exist, or one in each of two sets |
| TagBuffers.TagBuffer.Insert | src/mc.cpp:928-974 | One set changes as stated, and the count of remapped entries stays true |
| TagBuffers.TagBuffer.InsertBoth | src/mc.cpp:456-472 | If canInsert allows two different tags, inserting both never runs out of ways, and both are remapped afterwards |
| TagBuffers.TagBuffer.ClearTagBuffer | src/mc.cpp:987-998 | All entries are empty and none is counted |
| PagePlacement.UpdateLRU | src/page_placement.cpp:410-417 | The ranks stay a permutation with the used way most recent |
| PagePlacement.LeastRecent | src/page_placement.cpp:73-91 | A way with the last rank always exists, and is the least recently used |
| PagePlacement.GetChunkEntry | src/page_placement.cpp:243-274 | The entry of the tag unchanged, or else a new one with count 0: the first invalid one if there is any, otherwise one that belongs to no way, or none |
| PagePlacement.CountUp | src/page_placement.cpp:134-137 | Counters stay below their maximum; on reaching it all are halved, the counted one rounded up |
| PagePlacement.PickVictimWay | src/page_placement.cpp:334-349 | Finds the way with the least count; the search from 10000 always finds one |
| PagePlacement.CountMiss | src/page_placement.cpp:126-150 | If a way is empty the page's entry is that of the first empty way, otherwise it belongs to no way: the two assertions on idx hold |
| PagePlacement.SwapOK | src/page_placement.cpp:161-170 | After the swap the table mirrors the ways with the page in the victim's way |
| PagePlacement.CountHit | src/page_placement.cpp:228-240 | A hit counts the entry of the hit way |
| PageMap.ViewsAgree | src/mc.cpp:250-271 | The map has a page in a way exactly if that way of its set is valid and holds the page |
| PageMap.TouchedOK | src/mc.cpp:596-675 | An access to a resident page keeps the map and the ways in agreement, and the way dirty exactly if a line was written |
| PageMap.PlacedOK | src/mc.cpp:545-558 | So does placing a page |
| PageMap.EvictedStale | src/mc.cpp:474-543 | Emptying a way loses no write if what its dirty flag calls for is written back |
| PageMap.EvictedDropped | src/mc.cpp:737-760 | If it is not written back, exactly the marked lines that external memory does not have are lost |
| PageMap.PlacedStale | src/mc.cpp:384-411 | After a store miss that places its page the line is marked, and external memory has it too unless the scheme is Unison |
| PageMap.CleanIsNoneMarked | src/mc.cpp:735-742 | The dirty flags of the ways of some sets are all clear exactly if no line of these sets is marked as written |
| DramCaches.MemoryController.MissLRU | src/page_placement.cpp:60-92 | The first empty way, or the least recently used if both tags fit the tag buffer; it becomes the most recently used; an empty way is never passed over |
| DramCaches.MemoryController.MissFBR | src/page_placement.cpp:93-178 | Never for a write; otherwise an empty way, or a way whose count is least and exceeded by the page's by the margin, if both tags fit; the table is that of the set with the page in that way |
| DramCaches.MemoryController.Replace | src/mc.cpp:451-543 | The tag buffer takes both tags, the page leaves the map, some line of it was touched, and it is dirty exactly if a line was written |
| DramCaches.MemoryController.Miss | src/mc.cpp:335-565 | A miss keeps everything in agreement; no page is placed in a set below the index; a store reaches external memory unless it places the page under Unison |
| DramCaches.MemoryController.Hit | src/mc.cpp:566-675 | A hit is never in a set below the index; it touches the line and no other page |
| DramCaches.MemoryController.Access | src/mc.cpp:174-778 | A hit exactly if the map has the page; where the latest value of every line is afterwards: a store hit leaves it in the cache only, a store miss in external memory and, if it places the page, in both (Unison: in the cache only); no latest value is lost |
| DramCaches.MemoryController.FlushSet | src/mc.cpp:737-765 | A flushed set is empty, with its counter table; nothing is written back, and exactly its marked lines that external memory does not have are lost |
| DramCaches.MemoryController.Rebalance | src/mc.cpp:729-768 | The index moves by delta but not below 0, all sets below it are empty, and the tag buffer always has room after being cleared; of the lines marked in the sets passed, those that external memory does not have are lost, none if and only if it has them all; no dirty way there is enough for that, and under FBR necessary |
| DramCaches.RebalanceLosesWrite | src/mc.cpp:729-768 | A concrete run: a page is loaded, a line of it written, and its set flushed; the value written is lost |
| DramCaches.RebalanceKeepsStoreMiss | src/mc.cpp:393-411 | A concrete run: a store miss places a page under LRU, and the flush of its dirty way loses nothing |
| DramCaches.Run | src/mc.cpp:174-778 | For any accesses and rebalancings of the three schemes: map, ways, counter tables, ranks and tag buffer agree, sets below the index are empty, the marked lines are those only in the cache and those in both, the latter none under FBR or Unison; a latest value was ever dropped exactly if a rebalancing passed a marked line that external memory did not have, under FBR exactly if it passed a dirty way |

## Left out

- Process control, instrumentation, decoding, configuration, shared-memory allocation, statistics, tracing and output: input and output or foreign code.
- MESI: the non-inclusive mode, FWD invalidations and bank hashing, which bypass inclusion or split lines between independent parents; prefetches; the PUTX that keeps exclusivity, which no controller issues.
- MESI: one invalidation sweep is one step, and so is a grant with its way back down to the core. The source holds the bottom lock of every cache it passes; the interleavings of two sweeps in disjoint subtrees are not steps of the model.
- The filter cache and the timing cache.
- ZArrays.ZArray.Preinsert: the mask on hash values is written as a remainder by the number of sets, because that is a power of two; ranking is some candidate.
- Barrier: futex calls, spurious wake-ups and the scheduler's callback; each operation is one step under the scheduler lock.
- ContentionSim.Domain.SimulatePhase: the loop is cut off after a given number of turns, because events may go on enqueueing events for the current cycle; the result tells whether it ended by itself. Several domains per thread and crossing events are not modelled, nor are the two plausibility bounds on how far ahead an event may lie.
- Windows.WindowStructure.ScheduleInternal: the 32-bit truncation of the delay and the 8-bit uop count of a cycle are not modelled.
- Windows.WindowStructure.AdvancePos: the position in the rebase is not truncated to 32 bits; with that, an entry left behind by 2^32 cycles less a few would pass the assertion.
- Instruction window: the reorder buffer, the load and store queues and the branch predictor of the core.
- DdrController.Run: tRRD between banks of a rank, which the source checks only against the same bank.
- DdrController: address mapping, the response events (writes are answered when queued), the table of technologies beyond tRFC >= tRP > 0, and wrap-around of 64-bit cycles. The free list of queue nodes is the bound on the queue's length.
- DdrController.DDRMemory.Enqueue: the cycle translations are any that satisfy the law of `TranslatesAt`; `ClockTranslates` shows that the source's do.
- DRAM cache: the Alloy, HMA, cache-only and no-cache schemes, 2 MB pages, latencies, bandwidth counters and the choice of delta.
- DramCaches.MemoryController.MissFBR: the margin between counters is any real number, and sampling by the recent miss rate is any choice. FBR is modelled for the hybrid scheme only, because the source consults the tag buffer, which other schemes do not create.
- DramCaches.MemoryController.Access: the flush threshold of the tag buffer is compared exactly instead of in floating point.
- Lookahead partitioning, monitors, hashing, memory models other than DDR, and power estimation.
