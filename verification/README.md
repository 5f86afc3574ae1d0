# Verified models of the operating-systems laboratory

The laboratory is a set of small multi-process and multi-threaded C programs. This project models
six of them, with the two generators that feed them, and proves what each is for over all inputs,
all interleavings and whole runs.

* **Demand paging** (`Assgn8`). `PageTable` and `Memory` say what a request does to one page-table
  row and to all of memory, `Astray` what page numbers outside the row do; `Mmu` is the MMU's own
  code on the flat `k*m` table, proved against them; `Master` is the initial layout. `lastUsedAt`
  turns out to be the position in an LRU stack, and `Belady` uses that. `PagingSystem` and
  `PagingRuns` run scheduler, processes and MMU together; `PagingServed` says what each process gets.
* **Concurrent topological sort** (`Assgn5`). `TopoSort` interleaves the workers and the boss,
  `Boss` is the boss's final check, `Graphs` the facts about cycles, and `GenGraph` (with `Shuffle`)
  the graph generator.
* **User-level threads and the tree sum** (`Assgn7`). `Barrier` and `Join` are the thread library,
  `Trees` the totals to be computed, `TreeSum` and `TreeSumRuns` the node threads and the leader,
  `TreeSumJoin` their use of the library's join, and `GenTree` the tree generator with the reader of its
  file; `TreeShapes` says which trees the generator can grow.
* **Clinic simulation** (`Assgn6`). `EventHeap` is the array heap. `Clinic` is the simulation as a
  function on states and `Session` the main loop with the program's own counters, proved against
  it. `ClinicThreads` and `ClinicAdmission` interleave main, doctor and visitors, and
  `ClinicRefinement` shows that what the simulation takes as one call-in is what the threads do.
* **Directory mirror** (`Assgn9`). `Mirror`: the content pass, the metadata pass and whole runs;
  `MirrorPaths` says path by path what a run leaves and prints.
* **Role-swapping shells** (`Assgn3`). `RoleSwap`: both shells and the two pipes between them.

Code that works in place on arrays and counters is written as methods on arrays and classes, each
proved against a function on values. Protocols of several processes are state machines: `Enabled`
and `Apply` give the steps, `Inv` is what every step keeps, and a run is a function from step
numbers to states or a list of steps.

Some properties one would like are not true of the code as it stands; what holds instead is
stated exactly:

* the illegal-page test is `>` and not `>=`, and no test keeps out negative numbers. For every page
  number whose index lies inside the table, which branches leave every frame owned and every order of
  use intact is stated exactly in `Astray.ServeKeepsOwnedExactly`, and which pages become resident in
  `Astray.ResidencyStaysWithinExactly`, with an input in `Astray.PageBeyondTheRequiredOnes`;
* the paging system ends exactly when every process enqueues itself and there is a frame or every
  process quits by itself (`PagingRuns.RunEndsExactlyWhenItCan`);
* a waiting leader of the threads may leave before some joinable thread has posted exactly when
  joinable threads were created after its call to exit and have not all posted, and nobody has posted
  if it waits for zero (`Join.LeavesEarlyExactly`, a run in `Join.LateThreadReleasesLeader`); if it
  called with no joinable thread and a late one posts first, it hangs for ever, and that is the only way
  in which it cannot return (`Join.ReturnsUnlessHanging`, `Join.HangingPersists`, a run in
  `Join.LateThreadHangsLeader`);
* a barrier may be called again only when everybody has come through: a caller that does so earlier passes
  by itself, and only then (`Barrier.CallingAgainPassesExactlyWhenTooEarly`);
* the tree generator cannot grow every tree; which ones it can is stated exactly in
  `TreeShapes.ExactlyTheseTreesGrow`, with a tree it cannot in `TreeShapes.SomeTreeNeverGrows`;
* the mirror keeps a stale file of equal time and size; destination equals source exactly when there is
  none (`Mirror.BothPasses`, `MirrorPaths.EqualsSourceByPath`).

The boss's check of the listing is insensitive to edges from a vertex to itself, but is never reached
on such a graph, and passes whenever it is reached (`Boss.CheckOverlooksSelfLoops`,
`Boss.SelfLoopIsNeverChecked`, `Boss.BossAlwaysApproves`).

## Model

| member | source | states |
|---|---|---|
| PageTable.StackIsUnique | Assgn8/MMU.c:101-110 | the `lastUsedAt` values of a row determine one LRU order of its valid pages, so "least recently used" is well defined |
| PageTable.TouchIsMoveToFront | Assgn8/MMU.c:269-277 | a hit moves the page to the front of the LRU stack and leaves valid bits and frames alone |
| PageTable.FirstInvalid | Assgn8/MMU.c:59-61 | the index found is the first invalid entry, or the end when every entry is valid |
| PageTable.InstallPrepends | Assgn8/MMU.c:59-72 | a fault with a free frame puts the first invalid page, not the one asked for, on top of the LRU stack |
| PageTable.ReplaceDropsLast | Assgn8/MMU.c:101-123 | with no free frame a victim exists, is the bottom of the LRU stack, passes on its frame, and the requested page goes on top |
| PageTable.MasterRowIsAscending | Assgn8/Master.c:100-111 | the initial row is the LRU stack 0..c-1 |
| Memory.ReleaseKeepsOwned | Assgn8/MMU.c:199-206 | after a process ends, every frame is free or held by one valid entry of one of the others, although its own row is not cleared |
| Memory.TouchKeepsOwned | Assgn8/MMU.c:269-277 | a hit keeps the ownership discipline |
| Memory.InstallKeepsOwned | Assgn8/MMU.c:48-74 | taking the first free frame keeps the ownership discipline |
| Memory.ReplaceKeepsOwned | Assgn8/MMU.c:101-123 | a replacement keeps the ownership discipline |
| Memory.VictimExists | Assgn8/MMU.c:102-110 | the search for the highest time always finds a page, so the index is never -1 |
| Astray.HarmlessHit | Assgn8/MMU.c:269-277 | a hit on a cell of another process's row keeps the ownership discipline when that row is in use and the cell was its latest page, or is out of use and the requester's stamps do not move |
| Astray.HarmfulHit | Assgn8/MMU.c:269-277 | and breaks it otherwise |
| Astray.TakenFrameIsLost | Assgn8/MMU.c:59-74 | with a free frame and a full row the frame is marked taken and nobody owns it |
| Astray.HarmlessReplace | Assgn8/MMU.c:101-123 | with no free frame the victim's frame goes to the other row; that is harmless for a live row without pages and a requester with one page |
| Astray.HarmfulReplace | Assgn8/MMU.c:101-123 | and harmful otherwise |
| Astray.AstrayKeepsOwnedExactly | Assgn8/MMU.c:227-307 | a request that leads to another row keeps the ownership discipline if and only if its branch is one of the harmless ones |
| Astray.ServeKeepsOwnedExactly | Assgn8/MMU.c:199-307 | every request, with any page number that is refused or whose index lies inside the table, keeps the ownership discipline for the surviving processes if and only if it stays in the process's own row or is harmless |
| Astray.AnsweredByPageNumber | Assgn8/MMU.c:199-307 | no reply goes to the closing message -9 and only to it; a page above the limit, and only such, is illegal; otherwise the cell decides between its frame and a fault; the scheduler hears of an end, of a fault, or nothing |
| Astray.PastTheRowIsTheNextRow | Assgn8/MMU.c:269 | page m, accepted from a process that requires all m pages, is the next row's page 0, and lies outside the table for the last process only |
| Astray.ResidencyStaysWithinExactly | Assgn8/MMU.c:227-307 | for every such page number, only the process's own required pages stay resident if and only if the request is refused, hits, or its fault brings in an own page or nothing |
| Astray.PageBeyondTheRequiredOnes | Assgn8/MMU.c:227-307 | from a layout of the master's, a process that requires one page asks for the second and gets it |
| Memory.ResidentPagesFillUsedFrames | Assgn8/MMU.c:48-74 | resident pages of live processes and frames in use are equally many |
| Memory.FramesAreConserved | Assgn8/MMU.c:199-234 | free frames plus resident pages of live processes always equal f |
| Memory.AllFreeAtTheEnd | Assgn8/MMU.c:199-206 | with no live process every frame is free |
| Belady.HitIsOneAccess | Assgn8/MMU.c:269-277 | with no free frame, a hit is one access to an LRU stack of fixed size and no fault |
| Belady.MissIsOneAccess | Assgn8/MMU.c:100-123 | with no free frame, a fault and its retry together are one access to that stack and count one fault |
| Belady.ReferenceIsOneAccess | Assgn8/Process.c:77-83 | a reference, retried after a fault, faults exactly when its page is not in the stack and ends as one access |
| Belady.AccessKeepsPrefix | Assgn8/MMU.c:269-277 | an access keeps a smaller stack the top of a larger one |
| Belady.InclusionAlongTrace | Assgn8/MMU.c:100-123 | along any reference trace the smaller resident set stays inside the larger and never faults less |
| Belady.NoBeladyAnomaly | Assgn8/Master.c:103-107 | from the master's layouts with c and d >= c frames, for every trace, more frames never mean more faults |
| FlatTable.RowsAreDisjoint | Assgn8/Master.c:70-80 | rows of the one-dimensional table share no cell |
| FlatTable.RowWritten | Assgn8/Master.c:70-80 | writing within one row changes that row only |
| FlatTable.CellOfPage | Assgn8/MMU.c:269 | a page number whose index lies inside the table names one cell, of the process's own row exactly when it is in range |
| Master.Share | Assgn8/Master.c:102-103 | a process gets what it requires, or the largest whole number of frames within its proportion |
| Master.SharesFit | Assgn8/Master.c:100-111 | the floors of the proportions never need more than f frames |
| Master.FrameHasOwner | Assgn8/Master.c:100-111 | every frame below the next free number lies in exactly the interval of some process |
| Master.InitialIsOwned | Assgn8/Master.c:70-115 | the layout meets the ownership discipline |
| Master.LayOut | Assgn8/Master.c:74-115 | the master's loops produce exactly that layout in the flat table and the free-frame array |
| Master.ClearTables | Assgn8/Master.c:74-80 | the first loops leave every row blank |
| Master.FillRow | Assgn8/Master.c:101-110 | the inner loop fills one row with consecutive frames and leaves the other rows alone |
| Master.FreeRest | Assgn8/Master.c:113-115 | frames not handed out become free, the others keep their mark |
| Master.SumUp | Assgn8/Master.c:95-98 | the loop totals the required pages |
| Mmu.Mmu.PutCell | Assgn8/MMU.c:277 | writing entry m*pid+page changes exactly the cell that page number leads to, in whichever row |
| Mmu.Mmu.RecordHit | Assgn8/MMU.c:269-277 | the loop on the flat array is the move-to-front of that row, and for a page number outside the row the stray hit |
| Mmu.Mmu.FindFreeFrame | Assgn8/MMU.c:47-54 | the first free frame, or -1 exactly when there is none |
| Mmu.Mmu.InstallFrame | Assgn8/MMU.c:59-74 | the loops with their early exit are the free-frame step on that row and take the frame off the free list |
| Mmu.Mmu.IsEmptySet | Assgn8/MMU.c:84-91 | the flag says whether the process has no valid page |
| Mmu.Mmu.FindOldest | Assgn8/MMU.c:101-110 | the page of highest time other than the requested one, the first of equals, or -1 |
| Mmu.Mmu.ReplacePage | Assgn8/MMU.c:112-123 | the assignments in their order are the replacement step on that row, and for a page number outside the row the stray one |
| Mmu.Mmu.PageFaultHandler | Assgn8/MMU.c:42-132 | the handler's three branches together are the fault step on memory, for every page number inside the table |
| Mmu.Mmu.FreeFramesOf | Assgn8/MMU.c:199-206 | exactly the frames of the row's valid entries become free |
| Mmu.Mmu.HandleRequest | Assgn8/MMU.c:172-307 | one turn of the loop is the request step on memory, for every page number that is refused or leads into the table, and keeps ownership exactly when that is safe; reply, message to the scheduler and both counters are stated by page number, limit and cell |
| PagingSystem.TokenIsUnique | Assgn8/sched.c:44-76 | the CPU token is in one place: scheduler, one raised semaphore, one running process, or one message on the notification queue |
| PagingSystem.StartHasInvariant | Assgn8/sched.c:40-44 | with memory owned and nothing queued the system's invariant holds |
| PagingSystem.LayoutHasInvariant | Assgn8/Master.c:74-115 | the master's own layout is such a start |
| PagingSystem.RequestKeepsMemory | Assgn8/MMU.c:199-307 | a request by the running process keeps memory well shaped and owned by the live processes |
| PagingSystem.RequestKeepsInv | Assgn8/Process.c:56-95 | a request and its reply keep the whole invariant, whichever branch the MMU takes; the process moves on by the page served, or asks for the same one again, or is gone |
| PagingSystem.StepKeepsInv | Assgn8/sched.c:44-76 | every step of scheduler, processes and MMU keeps it: one token, each enqueued live process queued once or holding the token, the counter equal to the finished processes, memory owned |
| PagingSystem.ReleasedMeansAllDone | Assgn8/sched.c:44-76 | the master is released only when every process has ended and every frame is free |
| PagingSystem.NoDeadlock | Assgn8/sched.c:44-76 | until then some step is possible |
| PagingRuns.FreeFaultDescends | Assgn8/MMU.c:55-81 | a fault with a free frame lowers the termination measure |
| PagingRuns.ReplacementDescends | Assgn8/MMU.c:100-130 | a replacement lowers it: the process's page is now present |
| PagingRuns.StuckFaultDescends | Assgn8/MMU.c:92-99 | a process without frames goes to the back of the queue and a process with frames comes closer to its turn |
| PagingRuns.StepDescends | Assgn8/Process.c:56-95 | every step lowers a lexicographic measure while the system can still finish |
| PagingRuns.StarvationPersists | Assgn8/MMU.c:92-99 | without any frame, a process that needs one never gets past its reference |
| PagingRuns.RunEndsExactlyWhenItCan | Assgn8/sched.c:44-76 | a run releases the master if and only if every process gets as far as enqueueing itself and there is a frame or every process quits without one; then all have ended and all frames are free |
| PagingRuns.LaidOutSystemEnds | Assgn8/sched.c:44-76 | from the master's layout with f >= 1, every run in which all processes enqueue, in any order and at any time, ends with all frames free |
| PagingSystem.AnswerTakesFirstReference | Assgn8/Process.c:56-89 | a page answered with a frame is the first of the references left and the others stay; a fault leaves them all; an illegal page or the closing message ends the process |
| PagingServed.RunHasActions | Assgn8/sched.c:44-76 | every run of the system comes from some list of actions, so what follows holds of all of them |
| PagingServed.ServedAlongRun | Assgn8/Process.c:56-89 | over any run, the pages a process has been served followed by those it has still to ask for are its reference string |
| PagingServed.ReferencesAreServedInOrder | Assgn8/Process.c:56-95 | by the release every process has been served its references in order: all of them, or exactly those before the first illegal one |
| PagingServed.StepKeepsLine | Assgn8/sched.c:44-76 | a step takes at most the first off the waiting line and puts whoever joins at its end |
| PagingServed.FirstComeFirstServed | Assgn8/sched.c:44-76 | over any run processes get the CPU in exactly the order in which they have joined the ready queue, first message or fault |
| Graphs.RankedOrTrapped | Assgn5/worker.c:67-71 | any vertex set has a rank increasing along its edges or a non-empty part in which everybody waits for somebody |
| Graphs.AcyclicMeansNoTrap | Assgn5/worker.c:67-71 | a graph is acyclic if and only if it has no such part |
| Graphs.AcyclicExactlyWithoutClosedWalks | Assgn5/worker.c:67-71 | a graph is acyclic if and only if no walk along its edges comes back to its start |
| TopoSort.StartHasInvariant | Assgn5/boss.c:59-73 | the boss's set-up meets the invariant |
| TopoSort.WorkKeepsTokens | Assgn5/worker.c:67-84 | semaphore j always holds the tokens j has sent less those taken by distinct successors |
| TopoSort.PredecessorsAreListed | Assgn5/worker.c:67-75 | when a worker writes itself into T, all its predecessors stand there already |
| TopoSort.WorkKeepsExclusive | Assgn5/worker.c:73-77 | at most one worker is between the two semaphore operations |
| TopoSort.WorkKeepsListing | Assgn5/worker.c:73-77 | T[0..idx) lists, without repetition, exactly the workers past their increment of idx |
| TopoSort.WorkKeepsOrdered | Assgn5/worker.c:73-77 | every listed vertex has its predecessors listed before it |
| TopoSort.StepKeepsInv | Assgn5/worker.c:67-87 | every step of workers and boss keeps all of this |
| TopoSort.BossSeesTopologicalListing | Assgn5/boss.c:77-80 | once the boss has had n notifications, T is a permutation sorted topologically |
| TopoSort.NoDeadlockOnAcyclicGraphs | Assgn5/worker.c:67-87 | on an acyclic graph somebody can move until all is done |
| TopoSort.StepDescends | Assgn5/worker.c:67-87 | every step lowers a measure |
| TopoSort.TrapStaysShut | Assgn5/worker.c:67-71 | workers that all wait for one another keep waiting |
| TopoSort.BossWaitsForTrap | Assgn5/boss.c:78-80 | as long as they wait the boss does not get past its loop |
| TopoSort.BossFinishesExactlyOnAcyclicGraphs | Assgn5/boss.c:78-80 | every run lets the boss finish if and only if the graph is acyclic, and then with a topological listing |
| TopoSort.BossFinishesExactlyWithoutClosedWalks | Assgn5/boss.c:78-80 | every run lets the boss finish if and only if no chain of dependencies comes back to its start |
| Boss.GraphOf | Assgn5/boss.c:53-57 | an edge leads from u to v exactly when cell n*u+v of the shared array is not 0 |
| Boss.CheckListing | Assgn5/boss.c:88-96 | f is 1 exactly when no edge leads from a later to an earlier entry of T, that is when A[n*T[j]+T[i]] is 0 for all i < j |
| Boss.CheckAcceptsExactlySortedListings | Assgn5/boss.c:88-96 | a permutation passing the check is a topological order if and only if no vertex points to itself |
| Boss.CheckOverlooksSelfLoops | Assgn5/boss.c:88-96 | taken by itself, the check passes a listing of a graph with an edge from a vertex to itself, which has no topological order |
| Boss.SelfLoopIsNeverChecked | Assgn5/boss.c:77-96 | on such a graph no run of workers and boss gets to the check |
| Boss.BossAlwaysApproves | Assgn5/boss.c:77-96 | whenever a run gets to the check, the check passes |
| Shuffle.SwapKeepsPermutation | Assgn5/gengraph.c:18-21 | swapping two cells keeps a permutation |
| Shuffle.Permute | Assgn5/gengraph.c:17-21 | the loop is the shuffle by the numbers drawn, and PERM ends as a permutation whatever they are |
| Shuffle.EveryPermutationIsDrawnOnce | Assgn5/gengraph.c:17-21 | every permutation comes from exactly one list of reduced draws, so the shuffle favours none |
| GenGraph.FillRound | Assgn5/gengraph.c:22-28 | one round extends what is written by a diagonal cell and all pairs with the i-th vertex, each by its own draw |
| GenGraph.Generate | Assgn5/gengraph.c:14-28 | every cell is written with 0 or 1; the edges are exactly the forward pairs of PERM whose draw says so, so the graph is acyclic with PERM as a topological order |
| GenGraph.SortedIsAcyclic | Assgn5/gengraph.c:22-28 | a graph with a topological order is acyclic, so the generator meets what the workers need |
| GenGraph.ExactlyAcyclicGraphsAreDrawn | Assgn5/gengraph.c:14-28 | the graphs that can come out are exactly the acyclic ones |
| Barrier.InitHasInvariant | Assgn7/foothread.c:193-216 | a fresh barrier of n with n callers meets the invariant |
| Barrier.ArrivalKeepsInv | Assgn7/foothread.c:230-247 | an arrival keeps it, whether it is the last or not |
| Barrier.ReleaseKeepsInv | Assgn7/foothread.c:236-238 | raising the semaphore by n-1 keeps it |
| Barrier.ReturnKeepsInv | Assgn7/foothread.c:247 | a waiter's return keeps it |
| Barrier.StepKeepsInv | Assgn7/foothread.c:218-249 | so does every step of any caller |
| Barrier.NoEarlyReturn | Assgn7/foothread.c:218-249 | nobody is through before the last has arrived and opened |
| Barrier.UnitsPlusReturnedIsConstant | Assgn7/foothread.c:235-248 | after the release, semaphore value plus returned waiters is n-1 |
| Barrier.BlockedOnlyForAReason | Assgn7/foothread.c:243-248 | a blocked caller is a waiter, and another caller that can move is still to come or to open |
| Barrier.FullBarrierDrains | Assgn7/foothread.c:218-249 | when nobody can move any more, everybody is through |
| Barrier.DrainedIsFresh | Assgn7/foothread.c:235-248 | once everybody is through, count and semaphore are as the barrier was made, so it can serve again |
| Barrier.CallingAgainPassesExactlyWhenTooEarly | Assgn7/foothread.c:230-248 | a caller that calls again gets through with nobody else moving if and only if somebody has not yet come through the first time |
| Join.CreateKeepsInv | Assgn7/foothread.c:31-64 | creating a joinable or detached thread, by the leader or by another thread, keeps the join invariant |
| Join.ThreadFindsItself | Assgn7/foothread.c:103-112 | an exiting thread's search finds its own slot and type |
| Join.StepKeepsInv | Assgn7/foothread.c:16-120 | every create by anybody, exit and return keeps the invariant |
| Join.ReturnMeansAllPosted | Assgn7/foothread.c:90-102 | with no joinable thread created after its call, the leader's exit returns only after every joinable thread has posted |
| Join.LeaderIsReleased | Assgn7/foothread.c:90-102 | the leader can return exactly when as many have posted as there were joinable threads at its call, which without late threads are all of them, for any mix with detached ones |
| Join.LeavesEarlyExactly | Assgn7/foothread.c:90-117 | from any waiting state, some sequence of exits lets the leader return before all joinable threads have posted if and only if joinable threads were created after its call, not all have posted, and none has if it waits for zero |
| Join.WaitsForAllExactlyWithoutLateThreads | Assgn7/foothread.c:90-117 | as long as no more have posted than the leader waits for, it may leave early if and only if a joinable thread was created after its call |
| Join.CallKeepsCount | Assgn7/foothread.c:91-95 | at the call itself that is so: the count read is that of all joinable threads, and no more have posted |
| Join.ReturnsUnlessHanging | Assgn7/foothread.c:90-96 | some sequence of exits lets a waiting leader return if and only if it does not wait for zero with a post already made |
| Join.HangingPersists | Assgn7/foothread.c:90-96 | a leader in that state stays there whatever anybody does |
| Join.LateThreadHangsLeader | Assgn7/foothread.c:90-117 | a run into that state |
| Join.LateThreadReleasesLeader | Assgn7/foothread.c:90-117 | a run in which a late thread's post releases the leader before an earlier thread has posted |
| Trees.TotalFromChildren | Assgn7/computesum.c:18-23 | a node's total is its own initial value plus its children's totals |
| Trees.RootTotalIsEverything | Assgn7/computesum.c:75-76 | the root's total is the sum of all initial values |
| TreeSum.StartHasInvariant | Assgn7/computesum.c:52-75 | with barriers of numOfChildren+1 the start meets the invariant |
| TreeSum.CallerKeepsBarrier | Assgn7/computesum.c:12-22 | a node waiting at its own or its parent's barrier keeps that barrier's invariant |
| TreeSum.PastOwnBarrier | Assgn7/computesum.c:12-17 | past its own barrier a node's children have all added and sum[i] is the total of its subtree |
| TreeSum.StoreKeepsSums | Assgn7/computesum.c:19-21 | the locked addition, in two steps, loses no contribution |
| TreeSum.StepKeepsInv | Assgn7/computesum.c:10-25 | every step of every thread and the leader keeps barriers, locks, sums and join count right |
| TreeSum.JoinSeesTheTotal | Assgn7/computesum.c:75-76 | when the leader's exit can return, all threads have posted and sum[root] is the sum of all initial values |
| TreeSumRuns.NoDeadlock | Assgn7/computesum.c:10-25 | on any tree, somebody can move until the leader has printed |
| TreeSumRuns.StepDescends | Assgn7/computesum.c:10-25 | every step lowers a measure |
| TreeSumRuns.EveryRunPrintsTheTotal | Assgn7/computesum.c:52-76 | every interleaving prints, after all threads have posted, the sum of all initial values; the sum of the leaves when inner nodes start at 0 |
| TreeSumRuns.SubtreeTotalAfterOwnBarrier | Assgn7/computesum.c:12-17 | in every run, the partial sum a node shows after its barrier is its subtree's total |
| TreeSumJoin.StepIsLibraryStep | Assgn7/computesum.c:69-76 | every step of the tree sum is a step of the library's join or leaves it alone: creates, posts and the leader's return are the library's |
| GenTree.Attach | Assgn7/gentree.c:30-33 | the inner loop gives the next t nodes one parent listed before them and nothing else |
| GenTree.Generate | Assgn7/gentree.c:14-35 | for any random numbers the growth ends, every node but the root gets one parent listed before it, and the tree is the one those numbers stand for |
| GenTree.DrawChildren | Assgn7/gentree.c:25-28 | the number of children drawn: at most five and at most what remains, at least one when nobody else waits for children, and fewer than remain otherwise |
| TreeShapes.GrowsOnlyShapes | Assgn7/gentree.c:23-35 | parents get their children in order of listing, none more than five, and the last of them when no other node waits for children |
| TreeShapes.AllShapesGrow | Assgn7/gentree.c:23-35 | every tree of that shape grows from the right numbers, round by round |
| TreeShapes.ExactlyTheseTreesGrow | Assgn7/gentree.c:23-35 | the trees that can be grown are exactly those |
| TreeShapes.SomeTreeNeverGrows | Assgn7/gentree.c:27-28 | a fourth node never hangs on the first of the root's two children |
| GenTree.LinksAreThoseRead | Assgn7/computesum.c:38-50 | P holds exactly the links of the lines read |
| GenTree.ChildrenAreCounted | Assgn7/computesum.c:38-50 | numOfChildren counts the children under those links |
| GenTree.RootIsSelfParented | Assgn7/computesum.c:44-47 | root is the node read as its own parent |
| GenTree.ReadTree | Assgn7/computesum.c:38-50 | the reading loop on the two arrays is that reading |
| GenTree.ReadBack | Assgn7/gentree.c:38-39 | the generator's file is read back as the same links, with children counted |
| GenTree.RootIsReadBack | Assgn7/computesum.c:44-47 | the root read back is the node the generator began with |
| GenTree.GeneratedIsTree | Assgn7/gentree.c:14-35 | all parent chains of a generated tree reach its one root, so it meets what the summing threads need |
| EventHeap.CmpIsOrder | Assgn6/event.c:5-16 | a comparison that is at most 0 means not later in (time, rank) order, with reporters before patients before sales representatives before the rest at one time; two equal R, P or S events compare as -1 both ways |
| EventHeap.TopIsMinimum | Assgn6/event.c:98-102 | nothing in a heap comes before its top |
| EventHeap.SiftDownStep | Assgn6/event.c:46-53 | one swap downwards moves the only place where heap order may fail |
| EventHeap.SiftUpStep | Assgn6/event.c:66-72 | one swap upwards does the same |
| EventHeap.SunkIsHeap | Assgn6/event.c:44-54 | sifting down makes a heap from index j on out of one from j+1 on and keeps the events |
| EventHeap.RisenIsHeap | Assgn6/event.c:64-72 | sifting up makes a heap again and keeps the events |
| EventHeap.ToppedHeap | Assgn6/event.c:82-84 | putting the last event on top loses exactly the old top and disturbs order only there |
| EventHeap.EventQueue.constructor | Assgn6/event.c:44-54 | bottom-up heapify yields a heap of exactly the arrivals |
| EventHeap.EventQueue.SiftDown | Assgn6/event.c:45-53 | the loop on the array is the sifting function |
| EventHeap.EventQueue.AddEvent | Assgn6/event.c:59-75 | the queue stays a heap and gains exactly the event |
| EventHeap.EventQueue.DelEvent | Assgn6/event.c:77-96 | the queue stays a heap and loses exactly its top; an empty queue stays empty |
| EventHeap.EventQueue.NextEvent | Assgn6/event.c:98-102 | an event nothing in the queue comes before, or the closing mark when empty |
| EventHeap.EventQueue.Drain | Assgn6/session.c:225-227 | taking the next event and deleting it until the queue is empty yields exactly its events, sorted |
| Clinic.InitialHasInvariant | Assgn6/session.c:193-213 | the start, with the doctor's event queued, meets the invariant |
| Clinic.CallInKeepsInv | Assgn6/session.c:397-430 | calling somebody in keeps it |
| Clinic.ArrivalKeepsInv | Assgn6/session.c:249-370 | an arrival keeps it: admitted, turned away, late or called in at once |
| Clinic.DoctorKeepsInv | Assgn6/session.c:371-431 | the doctor's arrival keeps it |
| Clinic.DepartureKeepsInv | Assgn6/session.c:375-431 | a departure keeps it |
| Clinic.HandleKeepsInv | Assgn6/session.c:225-432 | every event keeps it: with the doctor in, a departure is queued exactly when somebody waits or is served; services do not overlap; each class is called in number order for the duration asked |
| Clinic.HandleQueue | Assgn6/session.c:225-432 | an event leaves the queue and at most one departure enters it |
| Clinic.HandleDescends | Assgn6/session.c:225-432 | every event lowers a measure, so the loop ends |
| Clinic.QueueIsBounded | Assgn6/session.c:193-194 | the queue never holds more than the arrivals to come and one event |
| Clinic.TimesDoNotDecrease | Assgn6/session.c:225-227 | the next event is never before the last one |
| Clinic.CalledInOrder | Assgn6/session.c:406-429 | whoever is called in is the next number of the class; no patient while a reporter waits, no sales representative while either waits |
| Clinic.HandleKeepsRules | Assgn6/session.c:228-395 | every event keeps it that the session is over exactly then, and that 25 patients, 3 sales representatives and all reporters before the end are admitted |
| Clinic.WholeRunInOrder | Assgn6/session.c:225-432 | over any sequence of events taken in queue order the invariant holds, times never decrease, and the session is over exactly when the doctor is in, nobody waits, and 25 patients and 3 sales representatives have come |
| Clinic.FirstComersAreAdmitted | Assgn6/session.c:225-370 | in every run from the start everybody who comes is counted, and those admitted are the first 25 patients, the first 3 sales representatives and the reporters before the end, with the durations they asked for |
| Clinic.AllServedAtTheEnd | Assgn6/session.c:225-432 | when the queue is empty every admitted visitor has been called in once, in number order, one at a time |
| Session.Session.constructor | Assgn6/session.c:193-213 | the program's start is the simulation's start |
| Session.Woken | Assgn6/session.c:88-93 | exactly one thread has the number that has come up, and its duration is the one read |
| Session.Session.CallReporter | Assgn6/session.c:406-413 | turn, duration of the thread with that number, and departure event are those of a call-in |
| Session.Session.CallPatient | Assgn6/session.c:414-421 | turn, duration of the thread with that number, and departure event are those of a call-in |
| Session.Session.CallSalesrep | Assgn6/session.c:422-429 | turn, duration of the thread with that number, and departure event are those of a call-in |
| Session.Session.PatientArrives | Assgn6/session.c:249-290 | the branch is the simulation's arrival of a patient, and the n-th admitted patient's thread is handed number n; the clock moves to the end of the service if somebody is called in |
| Session.Session.ReporterArrives | Assgn6/session.c:291-327 | the branch is the simulation's arrival of a reporter, who has no quota, and the n-th reporter's thread is handed number n; the clock moves to the end of the service if somebody is called in |
| Session.Session.SalesrepArrives | Assgn6/session.c:328-370 | the branch is the simulation's arrival of a sales representative, and the n-th admitted one's thread is handed number n; the clock moves to the end of the service if somebody is called in |
| Session.Session.Decide | Assgn6/session.c:385-430 | the doctor leaves, calls the next visitor by class, or waits, as in the simulation; the clock is set to the event or to the end of the service |
| Session.Session.HandleEvent | Assgn6/session.c:228-431 | the loop's body is one event of the simulation |
| Session.Session.Turn | Assgn6/session.c:225-432 | one turn takes the simulation's next event off the heap and handles it, and the heap again holds exactly the simulation's queue |
| Session.Session.Run | Assgn6/session.c:225-432 | the loop ends; its run is the simulation's run, every admitted visitor has been served once, one at a time, 25 patients and 3 sales representatives at most are admitted, and the doctor has left exactly when both quotas had come |
| ClinicThreads.StartHasInvariant | Assgn6/session.c:210-221 | the start meets the threads' invariant |
| ClinicThreads.StepKeepsInv | Assgn6/session.c:62-137 | every step of main, doctor and visitors keeps it, spurious wake-ups included |
| ClinicThreads.MeetingsAreIntended | Assgn6/session.c:73-96 | at each two-party barrier main meets the doctor, or the visitor whose turn it is, and nobody else |
| ClinicThreads.TurnsStayBehindArrivals | Assgn6/session.c:282-286 | turns never outrun created visitors, and the durations read are the visitors' durations in number order |
| ClinicThreads.DurationBelongsToVisitor | Assgn6/session.c:286-287 | the duration main reads is that of the visitor just admitted |
| ClinicThreads.NoDeadlock | Assgn6/session.c:275-289 | while main is inside an admission some thread can move without a spurious wake-up: no wake-up is lost |
| ClinicAdmission.RealStepDescends | Assgn6/session.c:275-289 | during an admission every step but a spurious wake-up comes closer to its end |
| ClinicAdmission.AdmissionIsOneCallIn | Assgn6/session.c:397-430 | every admission ends, having advanced exactly one turn by one and read that visitor's duration |
| ClinicAdmission.StopSendsTheDoctorHome | Assgn6/session.c:386-395 | the end of service completes in every interleaving: the doctor has left and no turn has moved |
| ClinicRefinement.StartsMatch | Assgn6/session.c:193-221 | the threads and the simulation start with the same turns and durations |
| ClinicRefinement.AdmissionIsCallIn | Assgn6/session.c:397-430 | an admission begun with the simulation's turns and durations ends with those of the simulation's call-in, having read the duration the simulation uses |
| ClinicRefinement.CreationIsAdmission | Assgn6/session.c:259-270 | creating a visitor's thread is the simulation's admission of the arrival |
| ClinicRefinement.CallInCanBegin | Assgn6/session.c:275-289 | whenever the simulation has somebody to call in the threads can begin that admission |
| Mirror.StampedAgrees | Assgn9/toyrsync.c:194-204 | after both passes the destination has the source's names, kinds, sizes, modes and times |
| Mirror.StampedEqualsSource | Assgn9/toyrsync.c:194-204 | it equals the source if and only if no file of equal time and size had other content |
| Mirror.AgreeingIsLeftAlone | Assgn9/toyrsync.c:81-140 | the content pass leaves a tree that agrees with the source as it is |
| Mirror.StampOfAgreeing | Assgn9/toyrsync.c:142-192 | the metadata pass leaves a tree that agrees with the source as it is |
| Mirror.AgreeingPrintsNothing | Assgn9/toyrsync.c:44-192 | neither pass has a line to print about a tree that agrees |
| Mirror.FileIsCopiedOrKept | Assgn9/toyrsync.c:53-58 | what the content pass may do to one file: the source's content and one line exactly when time or size differs, nothing otherwise |
| Mirror.SecondRunIsIdle | Assgn9/toyrsync.c:194-204 | whatever a first run left, a second one changes nothing and prints nothing, stale files or not |
| Mirror.DeletePath | Assgn9/toyrsync.c:10-42 | deleting a tree prints exactly its regular files, each once |
| Mirror.SyncFile | Assgn9/toyrsync.c:44-79 | a missing file is made and announced with +, one that differs in time or size is overwritten with the source's content, keeps its mode and is announced with o, any other is left alone in silence |
| Mirror.SyncEntries | Assgn9/toyrsync.c:91-118 | the first loop syncs every name of the source, leaves the other names alone, and prints exactly the changes within, each once |
| Mirror.DropExtra | Assgn9/toyrsync.c:120-136 | the second loop removes exactly the names the source lacks and prints exactly the files under them, each once |
| Mirror.SyncDirectory | Assgn9/toyrsync.c:81-140 | the content pass leaves exactly the source's names, each file kept or copied, and prints exactly the new, overwritten and extra files, each once |
| Mirror.SyncPermissionsAndTimestamps | Assgn9/toyrsync.c:142-192 | the pass puts the source's modes and times on the whole tree and prints one line for exactly every mode and every time that differed |
| Mirror.BothPasses | Assgn9/toyrsync.c:194-204 | the destination agrees with the source, equals it exactly when no stale file passed the quick test, and the output is the changes and then the differing modes and times, each once |
| Mirror.Destination.Run | Assgn9/toyrsync.c:194-204 | a run does this to the destination in place and appends that output; without a source the destination is gone and its files are listed |
| MirrorPaths.ContentByPath | Assgn9/toyrsync.c:44-140 | after the content pass exactly the source's paths exist, with its kinds; a file of equal time and size is the old one, any other has the source's content |
| MirrorPaths.ResultByPath | Assgn9/toyrsync.c:194-204 | after both passes every path of the source, and no other, is there with the source's kind, mode and time, and its content unless the file was kept |
| MirrorPaths.EqualsSourceByPath | Assgn9/toyrsync.c:53-55 | the result equals the source if and only if at every path a file of equal time and size had equal content |
| MirrorPaths.DeletedByPath | Assgn9/toyrsync.c:10-42 | deleting prints one - for every path with a file and nothing else |
| MirrorPaths.ChangesByPath | Assgn9/toyrsync.c:44-140 | the content pass prints + for exactly the paths of new files, o for those of files that differ in time or size, - for those of files the source lacks |
| MirrorPaths.TouchesByPath | Assgn9/toyrsync.c:142-192 | the metadata pass prints p for exactly the paths whose mode differs, t for those whose time does |
| MirrorPaths.LinesByPath | Assgn9/toyrsync.c:194-204 | a whole run prints exactly these lines |
| RoleSwap.StartHasInvariant | Assgn3/CSE.c:59-147 | one shell starts with input, the other executing, both pipes empty |
| RoleSwap.StepKeepsInv | Assgn3/CSE.c:59-227 | every typed line and every read keeps the protocol's invariant |
| RoleSwap.OneInputToken | Assgn3/CSE.c:111-137 | shells taking input plus swap lines in the pipes are one until an exit has been typed, and none after |
| RoleSwap.ReadInTypingOrder | Assgn3/CSE.c:166-194 | lines are read in the order typed, whoever typed them; a shell taking input has an empty pipe, and only its own commands are still unread |
| RoleSwap.TypedHereIsReadThere | Assgn3/CSE.c:68-77 | the lines one shell has read, followed by those in its pipe, are the lines typed into the other, in order |
| RoleSwap.ExitIsLast | Assgn3/CSE.c:129-132 | nothing is typed after an exit |
| RoleSwap.NoDeadlock | Assgn3/CSE.c:60-138 | somebody can move exactly until both shells have gone, and then every line has been read |
| RoleSwap.ReadsAreBounded | Assgn3/CSE.c:61-110 | while nobody types, each read shortens what waits by one |
| RoleSwap.ExitStopsBoth | Assgn3/CSE.c:69-71 | after an exit every run has exactly as many steps as lines are waiting and ends with both shells gone and every line read |

## Left out

- Request and reply on mq3: replies carry no addressee, so two waiting processes could take each other's reply; request, MMU and reply are one step here.
- Mmu.Mmu.HandleRequest: page numbers whose index lies outside the whole table, such as page m of the last process, are undefined behaviour and not modelled.
- PagingSystem.StepKeepsInv: whole runs assume reference strings of page numbers below m or above the process's limit; what a single other request does is in `Astray`.
- Fairness of start-up: a process that never enqueues itself keeps the master waiting, as `PagingRuns.RunEndsExactlyWhenItCan` says.
- Random draws: the master's required pages and reference strings are arbitrary values, the generators' random numbers are their inputs; probabilities are not modelled.
- System calls: keys, shared-memory and message-queue creation, fork, clone stacks, terminals, cleanup and their failures.
- Printing, argument and file parsing; `printTime`.
- Machine integers: counters, times and products are unbounded.
- Barrier.StepKeepsInv: one generation of callers, which is how the tree sum uses each barrier; what a second call meets is in `Barrier.CallingAgainPassesExactlyWhenTooEarly`.
- Library mutexes: the semaphore operation of lock and unlock together with the fields around it is one step; each section under the library's global mutex is one step.
- Thread creation: clone and the table entry are one step; a thread that exits before its entry is written would be taken for joinable. The table's fixed size and its error returns are not modelled.
- Shared key generator of mutexes and barriers: possible collisions of keys are not modelled.
- The mutex around printing in the node threads.
- Clinic arrivals: kinds R, P and S, non-negative durations, and fewer than 128 of them, the size of the array.
- ClinicThreads: one section under a pthread mutex is one step, and a broadcast or signal takes effect in it.
- ClinicAdmission.RealStepDescends: spurious wake-ups are not counted, since unlimited ones could delay an admission for ever.
- Join.StepKeepsInv: no thread is created after the leader's exit has returned and removed the library's semaphores.
- Mirror: the tree is a value that each method returns anew, so update in place, hard links and aliasing are not captured; `Destination` holds it across runs.
- Mirror.SyncDirectory: symbolic links, special files, a file and a directory of one name, refused permissions, paths over the buffer and changes by others meanwhile; modes and times the system gives to new entries are arbitrary values, and directory listings come in any order.
- RoleSwap: splitting and running a command, buffered output, and lines longer than the buffer; each write of one line is one message.
- `Assgn4/prodcons.c`, `Assgn2`, `Assgn1`, `Assgn6/arrival.c` and the demonstration programs: they would add only counting arguments smaller than those above.
