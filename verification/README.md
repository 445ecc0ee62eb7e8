# Models of the systems assignments

Dafny models of the cores of this repository, with proofs of what they promise:

- `graph.dfy`, `drm.dfy`: deadlock avoidance with a resource-allocation graph.
- `blocklist.dfy`, `allocator.dfy`: the heap allocator, first on block lists and then on raw memory.
- `makerules.dfy`, `makepool.dfy`: the rule list of parallel make, and its pool of workers.
- `pagememory.dfy`, `pagehistory.dfy`, `mmu.dfy`: page tables, frames and swap; what the processes have written; the MMU with its TLB.
- `queue.dfy`, `semamore.dfy`, `barrier.dfy`: the synchronisation structures.
- `cracker.dfy`: the sentinel-terminated worker pool of the password cracker.
- `sockets.dfy`: the byte-stream loops of the chatroom and of the file server.
- `memcheck.dfy`, `vector.dfy`, `reduce.dfy`: the leak ledger, the growable vector, the parallel fold.

`dafny verify dfyconfig.toml` checks everything.

Code that updates fields or buffers is a class whose methods are proved against a
specification. Concurrent code is a state machine as well: one step for each region
that holds a mutex, split where it reads what others write without the mutex or is
about to wait for a signal they send without it, and one for each access made without
it. Runs are all interleavings of such steps, for any number of threads, and the main
results are about every state of every run.

## Where the code does not do what one would expect

- `malloc` breaks its own list for requests of 3 to 37 bytes and for no others. Only for
  these can `find_fit` return a block that `split_helper` then splits, linking the
  remainder on the wrong side (`BlockList.UnsafeRequestsAreExact`). For each of these
  sizes three more calls can then hand out one live payload over another
  (`BlockList.CollisionsAreExact`).
- `total_free_blocks` is no count of the free blocks: it gains one with every block that
  `find_fit` splits and loses two with every call of `split_helper`
  (`BlockList.CounterDrift`).
- `free` compares a flag with 1 where the flag is the character 1, so it never
  coalesces; the model follows the code.
- A failed command can strand rules in parallel make. A rule whose dependency failed is
  dropped with its state unset, and a rule above that one waits for ever
  (`MakePool.Parmake`). The pool drains on every schedule exactly when no such rule
  exists (`MakePool.DrainsIffNothingStuck`).
- The queue has one condition variable for both sides and wakes one sleeper at a time.
  That never stalls exactly when the queue is unbounded
  (`QueueMonitor.NeverStallsIffUnbounded`).
- A semaphore that starts outside its bounds has none: its value can grow or sink for ever
  (`Semaphores.UnboundedIff`).
- `barrier_wait` does not wait in a loop, so with spurious wakeups it keeps calls waiting
  for their generation only where there is nothing to wait for
  (`Barriers.WaitsDespiteSpuriousIff`). Without them, every caller gets the serial
  value, not just one. In all runs the value returned tells whether the generation
  was complete.
- The stack segment every process is given lies beyond what the page directory can
  index, and permitted accesses to it read past the directory (`Mmu.DirectoryReach`,
  `Mmu.Mmu.ReadFromVirtualAddress`).
- Adding a process strands frames, which stay in use though no walk comes to them, exactly
  when the process is already there. It leaves the TLB stale exactly when it is the
  current process and the TLB holds anything (`Mmu.Mmu.AddProcess`, `Mmu.AddTwice`).
- `vector_erase` reads one element beyond the array exactly when the vector is full
  (`Vectors.Vector.Erase`).
- A message whose header could be sent only in part goes out all the same
  (`Sockets.Socket.SendMessage`).
- A message of length 0 ends a chat, and one of 2^32 bytes or more is cut
  (`Sockets.DeliveredIff`).
- `par_reduce` uses the base once more per chunk; for an associative reducer that does no
  harm exactly when the base vanishes (`ParReduce.AgreesIffBaseVanishes`), which for
  sums means that it is 0 (`ParReduce.SumIffZeroBase`).

## Model

| member | source | states |
|---|---|---|
| Graphs.AddEdgeAcyclic | deadlock_demolition/libdrm.c:71-72 | adding an edge to an acyclic graph keeps it acyclic exactly when the walk from its source enters no cycle |
| Graphs.CycleNeedsReturnPath | deadlock_demolition/libdrm.c:71-72 | from a thread with no other edge, the request edge closes a cycle exactly when a path already leads from the DRM back to the thread |
| Graphs.ReverseEdgeAcyclic | deadlock_demolition/libdrm.c:76-77 | turning a request edge around into a holder edge keeps the graph acyclic |
| Graphs.WalkIsDetermined | deadlock_demolition/libdrm.c:107-112 | with out-degree at most one there is one walk of each length |
| Graphs.DeadEndEntersNoCycle | deadlock_demolition/libdrm.c:108-115 | a walk that ends at a vertex without neighbours enters no cycle |
| Drm.InitKeeps | deadlock_demolition/libdrm.c:25-39 | creating a DRM keeps the graph acyclic, of out-degree at most one, and in agreement with ownership |
| Drm.PostKeeps | deadlock_demolition/libdrm.c:41-59 | so does a post, whoever calls it |
| Drm.GrantKeeps | deadlock_demolition/libdrm.c:61-73 | so does a request that is granted |
| Drm.RefusalKeeps | deadlock_demolition/libdrm.c:67-84 | a refused request changes no edge, no owner and no thread's place, and at most adds the caller's vertex |
| Drm.RequestEffect | deadlock_demolition/libdrm.c:65-84 | a request adds the caller's edge exactly if it is granted, and no other |
| Drm.AcquireKeeps | deadlock_demolition/libdrm.c:74-75 | so does taking the DRM's mutex, which opens the window where graph and ownership disagree |
| Drm.RecordKeeps | deadlock_demolition/libdrm.c:75-78 | recording the holder closes the window and keeps the graph acyclic |
| Drm.RefusalIsExact | deadlock_demolition/libdrm.c:67-84 | a request is refused exactly when a chain of real waits and ownerships leads from the DRM back to the caller, window included |
| Drm.PostIsExact | deadlock_demolition/libdrm.c:41-59 | a post succeeds exactly for the real owner |
| Drm.PostReleases | deadlock_demolition/libdrm.c:55-57 | the owner's post leaves the DRM without owner and holder edge, and every thread that waits for it may have it |
| Drm.ChainEndsRunnable | deadlock_demolition/libdrm.c:61-85 | from any thread the chain of waits ends at a thread that can run |
| Drm.RunnableCanStep | deadlock_demolition/libdrm.c:61-85 | a thread that waits for nobody has a step it can make |
| Drm.RunKeeps | deadlock_demolition/libdrm.c:25-85 | every interleaving of init, post and the three parts of wait keeps the invariant |
| Drm.NoReachableDeadlock | deadlock_demolition/libdrm.c:41-85 | in every reachable state every waiting thread waits, in the end, for one that can run |
| Drm.NoCircularWait | deadlock_demolition/libdrm.c:41-85 | no reachable state has a group of threads all waiting for one another |
| Drm.GraphTracksOwners | deadlock_demolition/libdrm.c:41-85 | in every reachable state the graph is acyclic and a DRM's owner is its edge target or a thread about to record itself |
| Drm.Library.IsCycle | deadlock_demolition/libdrm.c:97-116 | terminates, returns 1 exactly when the walk from the start enters a cycle, and leaves the visited set empty though it is destroyed in mid-recursion |
| Drm.Library.DrmInit | deadlock_demolition/libdrm.c:25-39 | adds the DRM's vertex, without edges, and changes nothing else |
| Drm.Library.DrmPost | deadlock_demolition/libdrm.c:41-59 | for the owner, and for nobody else, returns 1, removes the holder edge and no other, and releases the mutex, which whoever waits for it may then take; otherwise changes nothing |
| Drm.Library.DrmWaitRequest | deadlock_demolition/libdrm.c:62-85 | refuses exactly when the real waits lead back to the caller; adds the request edge exactly when it does not, and no other edge |
| Drm.Library.DrmWaitAcquire | deadlock_demolition/libdrm.c:74 | gives the caller the mutex and leaves the graph as it was |
| Drm.Library.DrmWaitRecord | deadlock_demolition/libdrm.c:75-80 | turns the caller's request edge around, touches no other edge, and the call returns 1 |
| BlockList.SearchMeans | malloc/alloc.c:74-120 | the cursor loop stops at the first block that fits, or ends a pair or a triple that passes its test, and at none if there is none |
| BlockList.RearrangedTiled | malloc/alloc.c:42-103 | splits and two- and three-way merges keep the list an exact tiling in descending order |
| BlockList.RearrangedCount | malloc/alloc.c:52-110 | how the counter and the number of free blocks change under a split or a merge, exactly |
| BlockList.FoundFits | malloc/alloc.c:74-120 | the block found is free, large enough, and in a list that still tiles |
| BlockList.SafeRequestNeverSplits | malloc/alloc.c:148-153 | requests below 3 or above 37 bytes never reach `split_helper` |
| BlockList.TakeTilesIff | malloc/alloc.c:122-154 | taking the block keeps the tiling exactly when `split_helper` is not called |
| BlockList.MallocKeepsValidIff | malloc/alloc.c:143-167 | `malloc` keeps the tiling and the counter exactly when it does not call `split_helper` |
| BlockList.MallocScatters | malloc/alloc.c:122-167 | even where `split_helper` is called, blocks stay in the heap and do not meet |
| BlockList.FreeKeepsValid | malloc/alloc.c:169-193 | `free` neither loses nor restores tiling and counter; blocks that do not meet still do not |
| BlockList.BreakMovesIff | malloc/alloc.c:74-167 | the break moves, by 40 bytes and the request, exactly when no free block is large enough and no free pair or triple together |
| BlockList.FirstFit | malloc/alloc.c:74-166 | the block handed out starts where the first block in the list starts that serves alone or with those before it, and is at most 40 bytes, or twice the request, too large |
| BlockList.CounterDrift | malloc/alloc.c:52-138 | the counter runs ahead of the free blocks by one for each block that is split, and falls behind by two with each call of `split_helper` |
| BlockList.MallocAddsOneLiveBlock | malloc/alloc.c:143-167 | `malloc` adds one live block, large enough and apart from all others, and changes no other |
| BlockList.FoundKeepsLive | malloc/alloc.c:42-120 | `find_fit` rearranges free blocks only |
| BlockList.FreeRemovesOneLiveBlock | malloc/alloc.c:169-193 | `free` removes its own block from the live ones and no other, also after `split_helper` |
| BlockList.FreedLive | malloc/alloc.c:169-193 | `free` of anything that is not live changes nothing |
| BlockList.ReallocReplaces | malloc/alloc.c:195-214 | `realloc` of a live block frees it for size 0, changes nothing if it shrinks, and otherwise puts the granted block in its place |
| BlockList.LivePayloadsDisjoint | malloc/alloc.c:155-166 | distinct blocks do not overlap and lie between the base and the break |
| BlockList.StepKeepsValidIff | malloc/alloc.c:23-214 | each of the four calls keeps tiling and counter exactly when it does not reach `split_helper` |
| BlockList.RunKeepsValid | malloc/alloc.c:23-214 | every sequence of calls with safe sizes keeps both |
| BlockList.BreakingRun | malloc/alloc.c:122-153 | for each unsafe size three mallocs and frees lead to a sound heap on which `malloc` calls `split_helper` |
| BlockList.UnsafeRequestsAreExact | malloc/alloc.c:122-153 | some history leads to a sound heap that a request breaks exactly for requests of 3 to 37 bytes |
| BlockList.CollidingRun | malloc/alloc.c:42-167 | after the request that breaks the list, a malloc, its free and a last malloc of safe sizes merge across a live block, so that two live payloads overlap |
| BlockList.CollisionsAreExact | malloc/alloc.c:42-167 | exactly for requests of 3 to 37 bytes some history leads to a sound heap that the request breaks and calls of safe sizes after it make live payloads overlap |
| Allocator.HeaderWriteKeeps | malloc/alloc.c:32-40 | writing a header over a header or inside a free block touches no live payload |
| Allocator.SplitLinks | malloc/alloc.c:87-98 | the header writes of a split produce the split list |
| Allocator.MergeLinks | malloc/alloc.c:45-50 | the header writes of a merge produce the merged list |
| Allocator.SplitHelperLinks | malloc/alloc.c:122-137 | the header writes of `split_helper` produce the list with the remainder behind the block |
| Allocator.ReallocMoves | malloc/alloc.c:207-213 | through malloc, copy and free, the old bytes arrive and all live payloads stay |
| Allocator.Allocator.SetNewBlk | malloc/alloc.c:32-40 | writes exactly one header, behind the requested bytes |
| Allocator.Allocator.Absorb | malloc/alloc.c:44-70 | merges one or two blocks into the current one, in memory |
| Allocator.Allocator.HelpMerge | malloc/alloc.c:42-72 | takes the merge that the list search chooses, in memory |
| Allocator.Allocator.SplitBlock | malloc/alloc.c:87-99 | splits a block in memory and counts the new free one |
| Allocator.Allocator.FindFit | malloc/alloc.c:74-120 | refines the search on lists, touching no live payload |
| Allocator.Allocator.SplitHelper | malloc/alloc.c:122-141 | splits a taken block in memory, remainder behind |
| Allocator.Allocator.Grow | malloc/alloc.c:155-166 | adds a block at the break |
| Allocator.Allocator.Claim | malloc/alloc.c:148-154 | takes the chosen block |
| Allocator.Allocator.Malloc | malloc/alloc.c:143-167 | refines list `malloc`: one more block is live, large enough and apart from the rest; keeps all live payloads, and is sound after exactly when `split_helper` was not called |
| Allocator.Allocator.Mark | malloc/alloc.c:183-192 | marks the block and merges nothing |
| Allocator.Allocator.Free | malloc/alloc.c:169-193 | takes its block from the live ones, also on a list that `split_helper` has broken; null, addresses beyond the break and freed blocks change nothing; keeps all live payloads |
| Allocator.Allocator.Calloc | malloc/alloc.c:23-30 | as `malloc`, with zeroed bytes |
| Allocator.Allocator.Relocate | malloc/alloc.c:207-213 | moves a block with its bytes, for any size, and frees the old one; sound after exactly when `split_helper` was not called |
| Allocator.Allocator.Resize | malloc/alloc.c:199-213 | of a live block: which blocks are live after, the pointer, and the bytes carried over, for any size |
| Allocator.Allocator.Realloc | malloc/alloc.c:195-214 | is `malloc` for null; frees the block for size 0, keeps it if it shrinks and otherwise puts the granted one in its place, with the old bytes; keeps all live payloads, and is sound after exactly when it did not reach `split_helper` |
| MakeRules.Collector.HelpGetRules | parallel_make/parmake.c:58-72 | terminates on acyclic graphs; adds exactly what the goals reach, once each, after its dependencies |
| MakeRules.Collector.VisitGoal | parallel_make/parmake.c:60-70 | the same for one goal |
| MakeRules.TrailGrows | parallel_make/parmake.c:58-62 | chains of goals are shorter than the graph, which bounds the recursion |
| MakeRules.CollectRules | parallel_make/parmake.c:183-189 | the list holds exactly the vertices reachable from the goals, distinct and ordered |
| MakePool.OutcomeMeans | parallel_make/parmake.c:86-138 | a rule succeeds exactly if no command fails at or below it, and fails exactly if its own commands do and none below it |
| MakePool.StuckMeans | parallel_make/parmake.c:86-121 | a rule is stuck exactly if its first dependency with a failure at or below it does not fail itself |
| MakePool.EnterKeeps | parallel_make/parmake.c:107-115 | looking at a rule keeps the invariant of the pool |
| MakePool.ScanKeeps | parallel_make/parmake.c:86-91 | so does reading a dependency's state |
| MakePool.RereadKeeps | parallel_make/parmake.c:92-155 | so does reading the state a second time, though it may have changed, and moving on to the next rule or to the wait |
| MakePool.ParkKeeps | parallel_make/parmake.c:150-151 | so does going to sleep, though a state may have been set and broadcast since it was read |
| MakePool.ReadyKeeps | parallel_make/parmake.c:123-126 | so does taking a ready rule |
| MakePool.DropKeeps | parallel_make/parmake.c:117-121 | so does dropping a rule |
| MakePool.FinishKeeps | parallel_make/parmake.c:134-138 | so does setting a state without the lock |
| MakePool.BroadcastKeeps | parallel_make/parmake.c:139 | so does a broadcast without the lock |
| MakePool.StepKeeps | parallel_make/parmake.c:100-158 | every step of every worker keeps the invariant: no rule lost, no wakeup lost |
| MakePool.RunsOnceAfterDependencies | parallel_make/parmake.c:107-141 | in every run a rule starts at most once, after all its dependencies are done, and nothing above a failed rule starts |
| MakePool.RestIsDetermined | parallel_make/parmake.c:100-158 | whatever the schedule, at rest a rule is done exactly if nothing fails at or below it, failed exactly if only its own commands fail, run exactly if it is either, and listed exactly if its first dependency that is not done has not failed |
| MakePool.RestWithoutRulesIsExit | parallel_make/parmake.c:103-106 | at rest with an empty list every worker has left |
| MakePool.SomebodyCanStep | parallel_make/parmake.c:102-155 | unless all sleep or have left, some worker can step |
| MakePool.StepMeasure | parallel_make/parmake.c:100-158 | every step uses up part of a finite supply |
| MakePool.RunsAreBounded | parallel_make/parmake.c:100-158 | runs without spurious wakeups have a length bound fixed at the start |
| MakePool.CanComeToRest | parallel_make/parmake.c:100-158 | every reachable state can be run to rest |
| MakePool.DrainsIffNothingStuck | parallel_make/parmake.c:100-158 | the pool drains on every schedule exactly when, wherever something fails below a rule, its first such dependency fails itself |
| MakePool.SuccessfulCommandsDrain | parallel_make/parmake.c:100-158 | when all commands succeed every schedule ends with all rules run and all workers gone |
| MakePool.FailureStrandsTheChain | parallel_make/parmake.c:117-121 | on a chain of three whose bottom fails every schedule ends with the top listed and all workers asleep |
| MakePool.ProcessRules | parallel_make/parmake.c:194-199 | running the threads under any scheduler ends, with every rule in that state, and with all threads gone if the list is empty and all asleep if not |
| MakePool.Parmake | parallel_make/parmake.c:160-205 | on an acyclic graph exactly what the goals reach is taken up, and each of its rules ends in that state, by the failing commands alone; when none fails all are done |
| PageMemory.IndexPairIsInjective | ideal_indirection/mmu.c:45-56 | the two indices overlap in two bits and still determine the page |
| PageMemory.WalksAreDisjoint | ideal_indirection/mmu.c:44-56 | no two pages or processes share a table entry |
| PageMemory.WithTableKeeps | ideal_indirection/mmu.c:47-54 | a new page table keeps frames singly used and singly owned |
| PageMemory.WithTableView | ideal_indirection/mmu.c:47-54 | and changes no page of any process |
| PageMemory.WithPageKeeps | ideal_indirection/mmu.c:58-65 | a page fault keeps frames singly used and owned |
| PageMemory.WithPageView | ideal_indirection/mmu.c:58-65 | and changes no page of any process |
| PageMemory.WithBytesView | ideal_indirection/mmu.c:119 | writing a frame changes that page of that process only |
| PageMemory.EvictedKeeps | ideal_indirection/mmu.c:58-61 | an eviction keeps frames singly used and owned |
| PageMemory.EvictedView | ideal_indirection/mmu.c:58-61 | and changes no page, since a fault reads back what was saved |
| PageMemory.LostIsStranded | ideal_indirection/mmu.c:137-141 | the frames marked as lost are just those in use that no walk of any process comes to |
| PageMemory.WithDirKeeps | ideal_indirection/mmu.c:137-141 | with a new directory frames are singly used and owned, whether the process was there before or not |
| PageMemory.WithDirLoses | ideal_indirection/mmu.c:137-141 | a new directory strands frames exactly when the process was there before |
| PageMemory.WithDirView | ideal_indirection/mmu.c:137-141 | a process with a new directory sees zeros, and the others what they saw |
| PageMemory.PassEntry | ideal_indirection/mmu.c:221-227 | one turn of the inner removal loop gives back at most the page it passes, and its swap file |
| PageMemory.PassTable | ideal_indirection/mmu.c:217-230 | one turn of the outer loop gives back the table and what it pointed to |
| PageMemory.OwnsMeans | ideal_indirection/mmu.c:217-231 | a process owns just the frames its walks come to |
| PageMemory.RemovalIsExact | ideal_indirection/mmu.c:215-233 | removal takes exactly the frames that walks of the process come to, and the swap files of its tables |
| PageMemory.WithoutProcessKeeps | ideal_indirection/mmu.c:212-242 | what is left is well formed |
| PageMemory.WithoutProcessView | ideal_indirection/mmu.c:212-242 | the other processes see what they saw |
| PageHistory.AddressIndices | ideal_indirection/mmu.c:45-55 | shifts and masks of an address are the indices of its page |
| Mmu.DirectoryReach | ideal_indirection/mmu.c:44-46 | an address has a directory entry exactly below 2^30, which leaves out the stack segment only |
| Mmu.FindSegmentIn | ideal_indirection/mmu.c:28-32 | the segment found holds the address, and none is found only if none does |
| Mmu.FirstSegmentDecides | ideal_indirection/mmu.c:28-40 | the first segment that holds an address decides what may be done there |
| Mmu.InitialPermissions | ideal_indirection/mmu.c:145-190 | a new process may write its stack, data, bss and testing pages, and read its text as well, address by address |
| PageHistory.WriteRemembered | ideal_indirection/mmu.c:118-119 | after a write every byte of every process is the last one written there |
| PageHistory.CreationRemembered | ideal_indirection/mmu.c:135-141 | after a creation too, with zeros for the new process, even if it was there before |
| PageHistory.LastByteMeans | ideal_indirection/mmu.c:71-121 | the byte remembered is the one of the last write there since the process was created |
| PageHistory.UntouchedIsZero | ideal_indirection/mmu.c:135-141 | and 0 if there is none |
| PageHistory.FaultsMean | ideal_indirection/mmu.c:47-65 | an access raises two page faults without a table, one with an absent page, and none otherwise |
| PageHistory.ReadsBack | ideal_indirection/mmu.c:67 | the slice a read copies is what was last written |
| PageHistory.StoreWrites | ideal_indirection/mmu.c:118-119 | the copy changes the addressed bytes of that process and nothing else |
| PageHistory.EvictedThins | ideal_indirection/mmu.c:58-61 | an eviction leaves all walks, views and absent pages as they are, and all other pages in memory |
| PageHistory.ThinsFollows | ideal_indirection/mmu.c:58-61 | so it keeps every entry a TLB may hold |
| PageHistory.FollowsMixed | ideal_indirection/mmu.c:41-57 | new tables, faults and evictions neither make TLB entries stale nor stale ones good |
| PageHistory.FollowsOthersMixed | ideal_indirection/mmu.c:212-242 | nor does adding or removing another process |
| PageHistory.CoherentIffUsable | ideal_indirection/mmu.c:41-57 | a TLB is coherent exactly when its entries lead where walks lead or into lost tables, and none into a lost one |
| PageHistory.StaleIsIncoherent | ideal_indirection/mmu.c:137-141 | a TLB whose entries lie in lost tables is coherent exactly when it is empty |
| PageHistory.AddedCoherentIff | ideal_indirection/mmu.c:135-210 | adding the current process leaves the TLB coherent exactly when it is empty, and adding another exactly when it was coherent |
| Mmu.Mmu.Evict | ideal_indirection/mmu.c:58-61 | taking away a page's frame keeps TLB coherence, all pages, and all other frames |
| Mmu.Mmu.AskKernelForFrame | ideal_indirection/mmu.c:49-60 | asking may evict any pages, in the middle of an operation; walks and views stay, absent pages stay absent, and the frame is not in use |
| Mmu.Mmu.TlbAdd | ideal_indirection/mmu.c:68 | a cached entry is the one a walk finds, whatever the cache drops and whatever else is stale |
| Mmu.Mmu.SwitchTo | ideal_indirection/mmu.c:24-27 | a switch flushes, which makes even a stale TLB coherent |
| Mmu.Mmu.NewTable | ideal_indirection/mmu.c:46-54 | a missing table becomes one with all entries absent, whatever the kernel evicts for its frame |
| Mmu.Mmu.NewPage | ideal_indirection/mmu.c:58-65 | an absent page is brought in; every other page keeps its contents, and its frame unless the kernel evicts it |
| Mmu.Mmu.FindEntry | ideal_indirection/mmu.c:41-57 | TLB or walk yield the walk's entry, evictions included; misses and faults are counted |
| Mmu.Mmu.Translate | ideal_indirection/mmu.c:41-65 | the entry's page is then in memory, evictions included, and exactly the due faults were counted |
| Mmu.Mmu.ReadFromVirtualAddress | ideal_indirection/mmu.c:18-69 | a read within the directory's reach returns the bytes last written there by that process, also while the TLB holds stale entries for other pages; one that is not permitted is one segmentation fault; a permitted one from 2^30 on indexes past the directory; the last two change no memory |
| Mmu.Mmu.StoreBytes | ideal_indirection/mmu.c:118-119 | the copy keeps TLB, pages and history in agreement |
| Mmu.Mmu.WriteToVirtualAddress | ideal_indirection/mmu.c:71-121 | likewise; a write that is done is remembered as the last one |
| Mmu.Mmu.NewFirstTable | ideal_indirection/mmu.c:192-209 | the first table serves the testing segment, whose second page is in memory, and whose first is unless the kernel evicted it for the second |
| Mmu.Mmu.AddProcess | ideal_indirection/mmu.c:135-210 | a process, present or not and whatever is stale, sees zeros from then on and may read and write as listed; the others are left alone; frames are stranded exactly when it was present; the TLB is coherent after exactly when it is empty, for the current process, or was coherent, for another |
| Mmu.AddTwice | ideal_indirection/mmu.c:135-141 | a process that has read a byte and is added again has a stale TLB and a stranded frame |
| Mmu.WriteText | ideal_indirection/mmu.c:81-93 | a new process that writes into its text gets exactly one segmentation fault, and nothing is written |
| Mmu.Mmu.ReturnPages | ideal_indirection/mmu.c:221-228 | the inner loop gives back the pages and swap files of one table |
| Mmu.Mmu.ReturnTables | ideal_indirection/mmu.c:217-231 | the outer loop gives back all tables |
| Mmu.Mmu.RemoveProcess | ideal_indirection/mmu.c:212-242 | removal takes exactly what the process owns, and its TLB entries, stale or not; it brings no stranded frame back |
| BlockingQueue.Queue.constructor | critical_concurrency/queue.c:36-60 | starts empty |
| BlockingQueue.Queue.Push | critical_concurrency/queue.c:75-98 | waits exactly when a bounded queue is full, else appends; head, tail, links and size stay consistent |
| BlockingQueue.Queue.Pull | critical_concurrency/queue.c:100-123 | waits exactly when empty, else removes and returns the first |
| QueueMonitor.PushRegion | critical_concurrency/queue.c:77-97 | the linked queue's push region is the monitor's step: contents, and whether it completes or sleeps |
| QueueMonitor.PullRegion | critical_concurrency/queue.c:102-118 | the linked queue's pull region is the monitor's step: contents, element, and whether it completes or sleeps |
| QueueMonitor.RegionEffect | critical_concurrency/queue.c:77-118 | a region puts its own thread to sleep, exactly when the queue is full or empty, or does its work and wakes one sleeper, if there is one, and nobody else |
| QueueMonitor.StepKeepsWakeups | critical_concurrency/queue.c:78-118 | without a bound, while a puller sleeps there are at least as many woken pullers as elements |
| QueueMonitor.EveryRun | critical_concurrency/queue.c:75-123 | in every reachable state pushed equals pulled plus contents, a bound is kept, and without a bound no wakeup is lost |
| QueueMonitor.NeverStallsIffUnbounded | critical_concurrency/queue.c:78-118 | a stall, where all sleep and one need not, is unreachable exactly when there is no bound |
| Semaphores.EveryRun | critical_concurrency/semamore.c:28-53 | in every reachable state the value is the initial one plus posts minus waits, nobody sleeps without reason, and the value is between 0 and the maximum if it started there |
| Semaphores.OnlyOneSideSleeps | critical_concurrency/semamore.c:31-50 | waiters and posters never sleep at the same time, unless the maximum is 0 |
| Semaphores.SleepersAreOwedNothing | critical_concurrency/semamore.c:31-50 | a sleeping waiter means every credit is taken, a sleeping poster that all room is used |
| Semaphores.Climb | critical_concurrency/semamore.c:44-53 | from above the maximum one thread can post any number of times |
| Semaphores.Sink | critical_concurrency/semamore.c:28-37 | from below 0 one thread can wait any number of times |
| Semaphores.UnboundedIff | critical_concurrency/semamore.c:28-53 | the value has no bounds over all runs exactly when it starts outside 0 to the maximum; otherwise it stays within them |
| Semaphores.Semamore.Wait | critical_concurrency/semamore.c:28-37 | sleeps exactly at 0; otherwise takes one, and all sleepers test again |
| Semaphores.Semamore.Post | critical_concurrency/semamore.c:44-53 | sleeps exactly at the maximum; otherwise adds one, and all sleepers test again |
| Barriers.EveryRun | critical_concurrency/barrier.c:32-51 | in all runs, spurious wakeups included, a call returns the serial value exactly when n calls had entered its generation |
| Barriers.StepKeepsCalm | critical_concurrency/barrier.c:32-51 | without spurious wakeups `count` is the number of sleepers |
| Barriers.CallsReturnAfterAllEntered | critical_concurrency/barrier.c:32-51 | every call then returns after n calls entered its generation, with the serial value |
| Barriers.StepKeepsInStep | critical_concurrency/barrier.c:32-51 | with n threads, one still leaving is one round behind |
| Barriers.RoundsDifferByAtMostOne | critical_concurrency/barrier.c:32-51 | n looping threads are never more than one round apart |
| Barriers.LeakedCall | critical_concurrency/barrier.c:42-46 | for every n of at least 2 and any threads, a call can return when it alone has entered |
| Barriers.WaitsDespiteSpuriousIff | critical_concurrency/barrier.c:32-51 | with spurious wakeups, every call of every run returns only after n calls entered its generation exactly when n is 1 or there are no threads |
| Barriers.Barrier.Arrive | critical_concurrency/barrier.c:33-43 | the last of a generation starts the next one and wakes all sleepers; any other goes to sleep with the generation it saw |
| Barriers.Barrier.Leave | critical_concurrency/barrier.c:43-49 | returns the serial value exactly when its generation is over |
| Cracker.Fill | password_cracker/cracker1.c:98-110 | the queue holds the lines in order and then a NULL per worker |
| Cracker.StepKeepsQueue | password_cracker/cracker1.c:45-85 | what is left are the lines not handed out and one NULL per live worker |
| Cracker.StepKeepsEachOnce | password_cracker/cracker1.c:45-85 | a line handed out is finished or in one worker's hands |
| Cracker.StepKeepsRecovered | password_cracker/cracker1.c:30-35 | `recovered` counts the finished and found lines that crack |
| Cracker.NoPullBlocks | password_cracker/cracker1.c:46-50 | in every reachable state every live worker can step, and no pull finds the queue empty |
| Cracker.StepUsesUp | password_cracker/cracker1.c:45-85 | every step uses up part of a finite supply |
| Cracker.AllDone | password_cracker/cracker1.c:111-118 | at the end each worker took one NULL, every line was processed once, and `recovered` is the number of lines that crack, in any order |
| Cracker.StartCracking | password_cracker/cracker1.c:96-118 | under any scheduler the pool ends and reports how many lines crack, 0 without threads, and how many are left |
| Sockets.HeaderRoundTrip | charming_chatroom/utils.c:33-40 | the four header bytes give back the size modulo 2^32 |
| Sockets.NetworkOrder | charming_chatroom/utils.c:33-40 | the header holds the most significant byte first |
| Sockets.DeliveredIff | charming_chatroom/utils.c:26-41 | a sequence of messages comes out of the wire unchanged exactly when every length is between 1 and 2^32-1 |
| Sockets.CutDelivers | charming_chatroom/client.c:161-172 | from a stream that ends inside a frame come the messages before it, and of its message the part that is there |
| Sockets.Socket.ReadAll | charming_chatroom/utils.c:43-59 | returns exactly what is asked for or left, in order, unless the last call made failed, and -1 exactly then |
| Sockets.Socket.WriteAll | charming_chatroom/utils.c:61-77 | what it reports was written, in order; -1 exactly if the last call made failed, less than everything exactly if it found the socket closed |
| Sockets.Socket.SendMessage | charming_chatroom/client.c:134-136 | -1 exactly if the last call failed; what went out of header and message; without faults all of both |
| Sockets.Socket.GetMessageSize | charming_chatroom/utils.c:26-34 | -1 exactly if the last call failed; otherwise the size sent, 0 at the end of the stream, and after a header cut short the value of what came and the stale rest |
| Sockets.Socket.ReceiveMessage | charming_chatroom/client.c:162-168 | one turn of the receiving loop takes the next delivered message, or ends it, with -1 exactly if the last call failed |
| Sockets.Socket.ReceiveMessages | charming_chatroom/client.c:161-172 | on any stream the loop takes the delivered messages in order, and all of them unless the last call failed |
| Sockets.Socket.SendMessages | charming_chatroom/client.c:126-140 | without faults the stream is the framed messages; it stops early only after an empty message or a call that failed or found the socket closed |
| Sockets.Chat | charming_chatroom/client.c:126-172 | sent without faults and received without failure, however the kernel splits the calls, the messages arrive unchanged exactly when every length is between 1 and 2^32-1 |
| Sockets.Socket.SendFile | nonstop_networking/common.c:77-97 | fails exactly if the last call failed or found the socket closed; otherwise `size` bytes went out, the file's as far as it reaches |
| Sockets.Socket.ReceiveFile | nonstop_networking/common.c:98-112 | the file is a prefix of the stream, of length the lesser of what came and `size` plus 1024 unless the last call failed |
| Sockets.Socket.PutFile | nonstop_networking/server.c:80-93 | the comparison with `size` says too little, exact or too much exactly when that is so |
| MiniMemcheck.Ledger.Malloc | mini_memcheck/mini_memcheck.c:16-31 | adds one block of the size in front, or changes nothing |
| MiniMemcheck.Ledger.Calloc | mini_memcheck/mini_memcheck.c:33-49 | likewise for the product of its arguments, with zeroed bytes |
| MiniMemcheck.Ledger.Find | mini_memcheck/mini_memcheck.c:62-69 | finds exactly the live blocks, and the node before |
| MiniMemcheck.Ledger.Unlink | mini_memcheck/mini_memcheck.c:106-110 | takes one node out of the list |
| MiniMemcheck.Ledger.Free | mini_memcheck/mini_memcheck.c:99-119 | removes exactly that block and counts its size as freed; any other address only counts as invalid; sizes and bytes of all blocks stay |
| MiniMemcheck.Ledger.Relink | mini_memcheck/mini_memcheck.c:78-83 | links a block that stayed or moved in the old one's place |
| MiniMemcheck.Ledger.Resize | mini_memcheck/mini_memcheck.c:74-95 | the totals change by the difference of the sizes, requested minus freed stays the sum of the live sizes, the bytes that fit are carried over, and the other blocks keep size and bytes |
| MiniMemcheck.Ledger.Realloc | mini_memcheck/mini_memcheck.c:51-96 | is malloc for null, free for size 0, an invalid address for strangers, no change where memory is short, and a resize otherwise; all totals are given, and all blocks but the resized one keep size and bytes |
| Vectors.GetNewCapacity | vector/vector.c:76-87 | the least power of two that is at least the target |
| Vectors.Vector.constructor | vector/vector.c:89-112 | starts empty with capacity 8 |
| Vectors.Vector.Grow | vector/vector.c:262-263 | keeps the elements, and the capacity a power of two |
| Vectors.Vector.Reserve | vector/vector.c:205-213 | reallocates exactly when the target exceeds the capacity |
| Vectors.Vector.PushBack | vector/vector.c:253-267 | appends; grows exactly when full, to the least power that has room |
| Vectors.Vector.Insert | vector/vector.c:278-318 | inserts at the position, or in front of an empty vector; past the end it is out of bounds exactly from the capacity on, and otherwise grows the size by one only |
| Vectors.Vector.Place | vector/vector.c:303-317 | inserts before the end, with room to do it |
| Vectors.Vector.MakeRoom | vector/vector.c:303-314 | the shifting loop moves the tail up by one |
| Vectors.Vector.Erase | vector/vector.c:320-329 | stays inside the array exactly when the vector is not full, and then removes the element |
| Vectors.Vector.Resize | vector/vector.c:150-188 | cuts, or fills up with defaults; reallocates exactly when needed |
| Vectors.Vector.PushAll | vector/vector.c:253-267 | n pushes onto an empty vector copy fewer than 2n elements in reallocations |
| Vectors.Vector.NextPower | vector/vector.c:262 | growing a full vector doubles it |
| ParReduce.ChunkCountInRange | teaching_threads/par_reduce.c:42-43 | there are between 1 and `num_threads` chunks |
| ParReduce.ChunksTile | teaching_threads/par_reduce.c:48-57 | the chunks are not empty and tile the list |
| ParReduce.ParallelMeans | teaching_threads/par_reduce.c:42-68 | for any reducer the list is cut into parts of the least length for which `num_threads` parts are enough, and the result folds the folds of the parts |
| ParReduce.JoinedIsFold | teaching_threads/par_reduce.c:64-68 | for an associative reducer whose base vanishes the joined value is the fold of the elements so far |
| ParReduce.AgreesIffBaseVanishes | teaching_threads/par_reduce.c:36-74 | for an associative reducer, all lists and all thread counts from 2 agree with the sequential fold exactly when the base vanishes in front of a chunk |
| ParReduce.RightUnitVanishes | teaching_threads/par_reduce.c:64-68 | a base that is a right unit vanishes |
| ParReduce.SumJoined | teaching_threads/par_reduce.c:64-68 | for sums the base is counted once more per chunk |
| ParReduce.SumIffZeroBase | teaching_threads/par_reduce.c:36-74 | for sums the parallel result is the sequential one exactly when the base is 0 |
| ParReduce.Helper | teaching_threads/par_reduce.c:26-34 | a thread computes the fold of its chunk |
| ParReduce.ParReduce | teaching_threads/par_reduce.c:36-74 | whatever order the threads finish in, the result is the joined value; it is the sequential fold for an associative reducer whose base vanishes, and always for one thread or an empty list |

## Left out

- Mmu.Mmu.ReadFromVirtualAddress: for a process that exists, as the source looks its segments up; and not for a page whose own TLB entry is stale, after the current process was added again, which would reach the frames it had before.
- Mmu.Mmu.WriteToVirtualAddress: the same.
- Allocator.Allocator.Malloc: for a sound list. On one that `split_helper` has broken, `find_fit` may take the next block in memory for the one before it in the list when it splits, and merge across a live block (`BlockList.CollisionsAreExact`).
- Allocator.Allocator.Calloc: the same.
- Allocator.Allocator.Relocate: the same.
- Allocator.Allocator.Realloc: the same.
- Mmu.Mmu.Evict: for pages of live tables; evicting a lost page, which no walk finds, is not modelled, nor are the accessed, dirty, permission and user bits of entries.
- Allocator.Allocator.Free: covers null, addresses from the break on, and blocks the allocator gave out; other pointers make the program read an arbitrary header.
- MakePool.RunsAreBounded: spurious wakeups are in every safety result, but termination assumes there are finitely many; it is stated for none.
- Barriers.CallsReturnAfterAllEntered: for runs without spurious wakeups, since the code has no loop around its wait.
- Integer widths: counters, sizes and `times_used` are unbounded, so wrap-around is not modelled, except in the four-byte message header.
- Graph, set, dictionary and TLB libraries, the kernel and the segment lookup: not part of the repository; modelled by adjacency maps, sets, maps and the behaviour their callers rely on.
- DRMs: `drm_destroy`, waiting on a DRM that was never created, and out-of-memory paths.
- Allocator: `prev` is never read and not modelled; `sbrk` always succeeds and nobody else moves the break; alignment.
- Parallel make: the branch for goals that name an existing file, the cycle check and removal of cyclic goals; graphs are acyclic.
- Password cracker: the search through the candidate passwords is one step whose result is a parameter; the second cracker.
- Parallel reduction: each thread's loop is one step, as it shares nothing with the others.
- Semaphores, barriers and queues: destruction.
- Memcheck: file names and instructions of the blocks; an address that malloc hands out again after a free counts as a new block.
- Chat and file server: sockets, signals, epoll, user interface, file names; only the byte-stream loops are modelled.
- Scheduler, file system, shell, MapReduce and the smaller assignments.
