# BugInsight monitor models

Dafny models of the stateful parts of BugInsight, a monitor that is loaded into a process to find potential
deadlocks, long-held locks and memory leaks, with proofs of what these parts promise.

Check everything with `dafny verify dfyconfig.toml`.

## The modules

* **Lock-order graph.** `NodeSets` (open-addressing hash set), `GraphNodes` (node records and the pointer map whose
  chains run through them), `GraphIds` (versioned ids), `PearceKelly` (the theory of the rank reassignment), `Searches`
  (both depth-first searches and the reassignment itself), `NeighbourLinks`, `PathSearch`, and `Cycles` with the class
  `GraphCycles`. Ghost fields hold the edges between nodes, the ids of live pointers and all ids ever issued; the
  contracts of the public methods speak of edges between ids only. `Digraphs` has the graph theory.
* **Deadlock monitor.** `HeldLocks` (the bounded table of a thread), `LockOrder` (the monitor's calls as a specification
  over values), `Monitor` (the calls themselves, proved to refine that specification), `Protocol` (any number of threads
  interleaving these calls with the real enter, leave and try operations), `Lifetimes` (how
  long places in tables and ids last), and `Overflow` and `Incidents`, which use `Scenarios` to construct particular runs.
* **Arena allocator.** `BlockMaps` (blocks as maps from addresses to sizes), `SkipLists` (the free list), `BlockSizes`
  (rounding and levels) and `Arenas`.
* **Smaller parts.** `LeakGroups` (leak report), `Watchdog` (long-held locks), `Wildcards` (module name patterns).

## Main results

1. `InsertEdge` refuses an edge exactly if it would close a cycle, in every reachable state, and a refusal leaves no trace:
   edges, ranks and marks are as before. The Pearce-Kelly reordering moves only nodes ranked between the ends of the edge.
2. Ids are never confused: an id whose pointer was removed is nobody's id in any later state, also when its node is
   recycled and also when the version has reached its maximum. Once a lock is deleted, no later state of any run has its id
   on an edge, in a table or in a thread's hand (`DeletedForGood`).
3. In every run, a circular wait is preceded by the report of a potential deadlock, or the full table of one of its members,
   or of the member it waits for, has kept the monitor from noting what that member waits for. Overflow cannot be left out:
   trying a lock does not check the capacity of the table, and `OverflowHidesDeadlock` constructs a run in which that hides a
   deadlock. A potential deadlock is reported exactly when an unrefused request meets the condition of `ReportsAt`
   (`PotentialDeadlockExact`). The threads have then really requested locks they did not own in a circular order, unless a
   request for a lock already owned has met another lock first in the table; in that case a report can be spurious, and
   `SpuriousReport` constructs such a run of a single thread. The first lock of a table stays first until it is given up, so
   that requesting it again is never reported (`ReentryUnreported`). As long as no full table has dropped a lock, other errors are
   reported exactly for refused requests, for leaving a lock that is not owned, and by the watchdog.
4. The arena's blocks exactly partition the memory obtained; the free list is canonical; the level-accelerated search
   is the plain first fit; freeing what was just allocated restores the free list exactly.
5. The ten call stacks kept per function are those with the largest blocks, for every visiting order.
6. A continuous hold is reported once at most. That every overdue hold is reported is false: a hold that begins between
   two ticks after the previous one was reported is missed, and so is one that ends while ticks stop at earlier threads.
   `OverdueReported` says exactly when an overdue hold is reported: iff its thread is not flagged when it becomes overdue and
   some tick while it is overdue finds no thread before it due. `FlagExact` says exactly when a thread is flagged.
7. The regular expression made from a module name means what the name means.

Where code and documentation disagree the code is followed: `FindPath` from a node to itself returns a path of one node, and
never one that comes back to its start, since the graph is acyclic.

## Model

| member | source | states |
|---|---|---|
| GraphIds.UnpackPacked | buginsight_dll/graphcycles/graphcycles.cc:268-282 | Packing a 31-bit index and a 32-bit version into an id loses neither; the id fits 64 bits and is not 0 when the version is not |
| GraphIds.PackUnpacked | buginsight_dll/graphcycles/graphcycles.cc:268-282 | Every 64-bit number is the packing of what it unpacks to |
| MachineInts.MaskIsRemainder | buginsight_dll/graphcycles/graphcycles.cc:219-240 | Masking with a power of two minus one, as the probe sequence does, is the remainder |
| NodeSets.NodeSet.constructor | buginsight_dll/graphcycles/graphcycles.cc:242-248 | A new set stands for the empty set |
| NodeSets.NodeSet.Reset | buginsight_dll/graphcycles/graphcycles.cc:162 | Clearing makes the set empty whatever it was |
| NodeSets.NodeSet.FindIndex | buginsight_dll/graphcycles/graphcycles.cc:219-240 | Probing ends for every table that has an empty slot; the slot found holds the value exactly if it is a member, and otherwise is one where storing it keeps every member findable |
| NodeSets.NodeSet.Contains | buginsight_dll/graphcycles/graphcycles.cc:163 | Membership test agrees with the mathematical set |
| NodeSets.NodeSet.Insert | buginsight_dll/graphcycles/graphcycles.cc:165-180 | The set gains exactly the value and the result says whether it is new; below the threshold the table neither grows nor gains more than one occupied slot |
| NodeSets.NodeSet.Grow | buginsight_dll/graphcycles/graphcycles.cc:250-261 | Growing keeps the members, doubles the table, and the insertions it makes never grow the table again |
| NodeSets.NodeSet.Erase | buginsight_dll/graphcycles/graphcycles.cc:182-188 | The set loses exactly the value, tombstones notwithstanding |
| NodeSets.NodeSet.Next | buginsight_dll/graphcycles/graphcycles.cc:195-206 | An iteration produces each member exactly once and ends when all have been produced |
| NodeSets.OccupiedBound | buginsight_dll/graphcycles/graphcycles.cc:165-180 | As long as fewer slots are occupied than there are, an empty one remains |
| NodeSets.ProbeStep | buginsight_dll/graphcycles/graphcycles.cc:219-240 | One probe step moves to the next slot of the cyclic order and does not wrap past the start before an empty slot is met |
| NodeSets.StoreAt | buginsight_dll/graphcycles/graphcycles.cc:165-180 | Storing an absent value in the slot that probing found keeps the table well formed |
| GraphNodes.TableAdd | buginsight_dll/graphcycles/graphcycles.cc:321-327 | Putting a node with a new pointer at the head of its chain keeps all chains finite, disjoint and complete |
| GraphNodes.TableRemove | buginsight_dll/graphcycles/graphcycles.cc:328-343 | Pointing the predecessor past a node keeps all chains finite, disjoint and complete for the remaining nodes |
| GraphNodes.PointerMap.Find | buginsight_dll/graphcycles/graphcycles.cc:311-319 | The lookup ends and returns the member with this pointer, or -1 exactly if there is none |
| GraphNodes.PointerMap.Add | buginsight_dll/graphcycles/graphcycles.cc:321-327 | The members gain exactly this node and only hash links change |
| GraphNodes.PointerMap.Remove | buginsight_dll/graphcycles/graphcycles.cc:328-343 | The node with this pointer, if any, leaves its chain; no other node leaves one and only hash links change |
| Digraphs.ReachIsPath | buginsight_dll/graphcycles/graphcycles.h:81-100 | Reachability, defined by closed sets, is the existence of a path |
| Digraphs.AcyclicAddEdge | buginsight_dll/graphcycles/graphcycles.h:67-70 | Adding an edge to an acyclic graph keeps it acyclic if and only if its target does not already reach its source |
| Digraphs.AcyclicPathSimple | buginsight_dll/graphcycles/graphcycles.h:87-100 | In an acyclic graph no path visits a node twice |
| PearceKelly.ForwardComplete | buginsight_dll/graphcycles/graphcycles.cc:593-621 | A forward search bounded by the rank of x that met no node of that rank has found exactly what y reaches below x, and y does not reach x |
| PearceKelly.BackwardComplete | buginsight_dll/graphcycles/graphcycles.cc:623-645 | A bounded backward search finds exactly what reaches x from above the rank of y |
| PearceKelly.SortAscending | buginsight_dll/graphcycles/graphcycles.cc:669-683 | Sorting distinct nodes by rank orders them strictly |
| PearceKelly.MergeAscending | buginsight_dll/graphcycles/graphcycles.cc:657-661 | Merging two strictly ascending lists without common elements gives a strictly ascending list |
| PearceKelly.EdgeOrdered | buginsight_dll/graphcycles/graphcycles.cc:647-667 | No old edge points down in rank after the ranks are dealt out again |
| PearceKelly.DealtOutOnce | buginsight_dll/graphcycles/graphcycles.cc:647-667 | The new ranks are again each of 0..n-1 once |
| PearceKelly.ReorderCorrect | buginsight_dll/graphcycles/graphcycles.cc:647-667 | After reordering all edges and the new one go up in rank, the ranks are a permutation, and nodes ranked outside the range from y to x have not moved |
| Searches.ForwardDFS | buginsight_dll/graphcycles/graphcycles.cc:593-621 | Ends; fails exactly if y reaches x; otherwise returns, each once, the nodes y reaches below the bound; marks exactly what it returns |
| Searches.PushSuccessors | buginsight_dll/graphcycles/graphcycles.cc:609-618 | Expanding a node pushes its unvisited successors below the bound, and notices exactly a successor that has the rank of the bound |
| Searches.ForwardVisit | buginsight_dll/graphcycles/graphcycles.cc:606-618 | Marking and expanding one node keeps what the forward search knows, or shows that y reaches x |
| Searches.BackwardDFS | buginsight_dll/graphcycles/graphcycles.cc:623-645 | Ends although marks of the forward search are still set; returns, each once, the nodes that reach x from above the bound, and marks exactly these in addition |
| Searches.PushPredecessors | buginsight_dll/graphcycles/graphcycles.cc:637-643 | Expanding a node backwards pushes its unmarked predecessors above the bound |
| Searches.BackwardVisit | buginsight_dll/graphcycles/graphcycles.cc:634-643 | Marking and expanding one node backwards keeps what the search knows, although nodes of the forward search are skipped |
| Searches.MoveToList | buginsight_dll/graphcycles/graphcycles.cc:685-696 | Nodes are appended in order, the list becomes the list of their ranks, and exactly their marks are cleared |
| Searches.ListAffected | buginsight_dll/graphcycles/graphcycles.cc:647-661 | Lists backward nodes before forward ones, both by rank, pools the ranks, and leaves no mark |
| Searches.AssignRanks | buginsight_dll/graphcycles/graphcycles.cc:663-666 | The pooled ranks go to the listed nodes in order; nothing else changes |
| Searches.Reorder | buginsight_dll/graphcycles/graphcycles.cc:647-667 | The whole reordering establishes topological ranks for the graph with the new edge and leaves no mark |
| Searches.ClearMarks | buginsight_dll/graphcycles/graphcycles.cc:583-585 | Exactly the marks of the listed nodes are cleared |
| Searches.RestoreOrder | buginsight_dll/graphcycles/graphcycles.cc:577-590 | Rejects exactly if y reaches x and then leaves all nodes as they were; otherwise only ranks between those of y and x change, and they become topological |
| NeighbourLinks.Link | buginsight_dll/graphcycles/graphcycles.cc:564-569 | The edge is stored at both ends and the result says whether it is new |
| NeighbourLinks.Unlink | buginsight_dll/graphcycles/graphcycles.cc:579-580 | The edge is removed at both ends |
| NeighbourLinks.ForgetAsPredecessor | buginsight_dll/graphcycles/graphcycles.cc:480-483 | Every successor forgets the node as its predecessor, and nothing else changes |
| NeighbourLinks.ForgetAsSuccessor | buginsight_dll/graphcycles/graphcycles.cc:484-487 | Every predecessor forgets the node as its successor, and nothing else changes |
| NeighbourLinks.Isolate | buginsight_dll/graphcycles/graphcycles.cc:473-497 | All edges at a node disappear at both of their ends and no others |
| PathSearch.MarkersCounted | buginsight_dll/graphcycles/graphcycles.cc:704-743 | The number of markers on the stack always equals the length of the path |
| PathSearch.Left | buginsight_dll/graphcycles/graphcycles.cc:717-721 | Popping a marker takes the last node off the path and keeps what the search knows |
| PathSearch.Entered | buginsight_dll/graphcycles/graphcycles.cc:723-734 | Popping a node extends the path by it along an edge, and no node is entered twice |
| PathSearch.Search | buginsight_dll/graphcycles/graphcycles.cc:706-743 | Ends; returns 0 exactly if there is no path, otherwise the length of a path whose first nodes are recorded |
| PathSearch.PushUnseen | buginsight_dll/graphcycles/graphcycles.cc:736-741 | Expanding a node pushes exactly its successors not seen before |
| PathSearch.Record | buginsight_dll/graphcycles/graphcycles.cc:723-727 | A node is recorded only while there is room |
| Cycles.IdsInjective | buginsight_dll/graphcycles/graphcycles.cc:431-471 | Present ids of different nodes differ, and none is 0 |
| Cycles.NextIdFresh | buginsight_dll/graphcycles/graphcycles.cc:489-495 | The version a node moves on to makes an id that was never issued |
| Cycles.Unregister | buginsight_dll/graphcycles/graphcycles.cc:473-497 | Giving up a pointer keeps the registry of ids; a node whose versions are exhausted is not reused |
| Cycles.ViewInserted | buginsight_dll/graphcycles/graphcycles.cc:553-591 | The outcome of an insertion is the same over node indices and over ids |
| Cycles.LiveNotExpired | buginsight_dll/graphcycles/graphcycles.cc:376-381 | An id that a pointer has is issued and valid |
| Cycles.InsertedLive | buginsight_dll/graphcycles/graphcycles.cc:553-591 | Between two live ids an insertion is refused exactly for a self edge or a cycle, and then changes nothing; otherwise it adds the edge, and no node ranked outside the range between the ends moves |
| Cycles.GraphCycles.constructor | buginsight_dll/graphcycles/graphcycles.cc:382-388 | A new graph is empty |
| Cycles.GraphCycles.FindNode | buginsight_dll/graphcycles/graphcycles.cc:376-380 | An issued id finds its node exactly while the version it was issued for lasts |
| Cycles.GraphCycles.Ptr | buginsight_dll/graphcycles/graphcycles.cc:499-503 | Returns the pointer whose id this is, or null exactly if it is nobody's id now |
| Cycles.GraphCycles.GetId | buginsight_dll/graphcycles/graphcycles.cc:431-471 | A known pointer keeps its id; a new one gets an id never issued before; edges over ids do not change |
| Cycles.GraphCycles.NewId | buginsight_dll/graphcycles/graphcycles.cc:440-470 | A new pointer gets an id never issued before, and a new node only if none is free |
| Cycles.GraphCycles.AppendNode | buginsight_dll/graphcycles/graphcycles.cc:439-457 | A new node takes the next index and rank, version 1 and no edges |
| Cycles.GraphCycles.ReuseNode | buginsight_dll/graphcycles/graphcycles.cc:459-470 | A recycled node keeps its rank and gets an id never issued |
| Cycles.GraphCycles.RemoveNode | buginsight_dll/graphcycles/graphcycles.cc:473-497 | Exactly this pointer and the edges at its id disappear; unknown pointers change nothing |
| Cycles.GraphCycles.Detach | buginsight_dll/graphcycles/graphcycles.cc:479-497 | The node loses its edges, its pointer and, unless exhausted, its version |
| Cycles.GraphCycles.Retire | buginsight_dll/graphcycles/graphcycles.cc:490-496 | The node gives up its pointer; its version rises by one and it joins the free list, unless its version is the last one |
| Cycles.GraphCycles.InsertEdge | buginsight_dll/graphcycles/graphcycles.cc:553-591 | Expired ids change nothing; otherwise the edge is refused exactly if it is a self edge or its target reaches its source, and then nothing at all has changed; an accepted edge is the only one added, only ranks change, and only between the ranks of its ends |
| Cycles.GraphCycles.Connect | buginsight_dll/graphcycles/graphcycles.cc:562-590 | The same over node indices, in every reachable state |
| Cycles.GraphCycles.Settle | buginsight_dll/graphcycles/graphcycles.cc:571-590 | With the edge stored, either the ranks already agree, or they are restored, or the edge is taken back |
| Cycles.GraphCycles.HasEdge | buginsight_dll/graphcycles/graphcycles.cc:528-532 | Tells whether the edge is in the graph, for ids that are still valid |
| Cycles.GraphCycles.RemoveEdge | buginsight_dll/graphcycles/graphcycles.cc:534-544 | Exactly this edge disappears; the ranks stay a valid order |
| Cycles.GraphCycles.FindPath | buginsight_dll/graphcycles/graphcycles.cc:698-743 | Returns 0 exactly if an id has expired or there is no path; otherwise the length of a simple path between the ids, the first of which are in the buffer |
| Cycles.GraphCycles.IsReachable | buginsight_dll/graphcycles/graphcycles.cc:745-748 | Decides reachability between ids that are still valid |
| Cycles.GraphCycles.LookUp | buginsight_dll/graphcycles/graphcycles.cc:406-411 | Looking a live node up by its pointer finds the node itself |
| Cycles.GraphCycles.CheckInvariants | buginsight_dll/graphcycles/graphcycles.cc:400-429 | The self-check decides whether marks are clear, ranks distinct and all edges ascending; so it passes in every valid state |
| HeldLocks.AcquireCounts | buginsight_dll/thread_history/thread_history_helper.cpp:76-108 | An acquisition is counted for its lock and no other, unless a full table drops it |
| HeldLocks.ReleaseCounts | buginsight_dll/thread_history/thread_history_helper.cpp:26-74 | A release is counted for its lock and no other; releasing what is not held changes nothing |
| HeldLocks.ReleaseKeeps | buginsight_dll/thread_history/thread_history_helper.cpp:57-71 | Swap-removal loses no other entry and invents none |
| HeldLocks.AcquireInPlace | buginsight_dll/thread_history/thread_history_helper.cpp:76-108 | An acquisition leaves every entry at its position: a lock that has one is counted there, any other goes behind the last unless there are twenty |
| HeldLocks.ReleaseInPlace | buginsight_dll/thread_history/thread_history_helper.cpp:26-74 | A release of a lock held more than once leaves every entry at its position; at the last release the last entry takes the place of the one that goes |
| HeldLocks.RunCounts | buginsight_dll/thread_history/thread_history_helper.cpp:26-108 | Over any run below capacity the table counts acquisitions minus releases for every lock |
| HeldLocks.SynchLocksHeld.constructor | buginsight_dll/synch_locks_held.hpp:37-48 | A new table is empty and cleared |
| HeldLocks.SynchLocksHeld.Find | buginsight_dll/thread_history/thread_history_helper.cpp:28-33 | The search stops at the first entry with this id |
| HeldLocks.SynchLocksHeld.FindLock | buginsight_dll/thread_history/thread_history_helper.cpp:39-43 | The search stops at the first entry for this lock |
| HeldLocks.SynchLocksHeld.UpdateInLock | buginsight_dll/thread_history/thread_history_helper.cpp:76-108 | Every entry keeps its position, lock and id; a lock that has an entry is counted once more there and no other is, a new one goes behind the last unless there are twenty; unused slots stay cleared |
| HeldLocks.SynchLocksHeld.UpdateAfterLock | buginsight_dll/thread_history/thread_history_helper.cpp:26-74 | While its count stays positive the entry is counted down in place and nothing moves; otherwise the last entry takes its place; the outcome tells a missing id from a lock deleted meanwhile |
| HeldLocks.SynchLocksHeld.CountDown | buginsight_dll/thread_history/thread_history_helper.cpp:59-71 | One slot is counted down, or given to the last entry when it reaches zero, and the slot that becomes unused is cleared |
| LockOrder.IdentifiedNamed | buginsight_dll/deadlock_monitor.cpp:116 | Looking up a lock keeps ids of different locks different and never changes the id of a known lock |
| LockOrder.ReportExact | buginsight_dll/deadlock_monitor.cpp:131-158 | A request is reported if and only if, in the graph before it, the requested lock reaches a live held lock that the scan gets to; edges added by the same scan make no difference |
| LockOrder.ReportWhenNotHeld | buginsight_dll/deadlock_monitor.cpp:131-158 | For a lock the thread does not hold, a request is reported if and only if the lock already leads to some live held lock |
| LockOrder.UnreportedEdges | buginsight_dll/deadlock_monitor.cpp:131-158 | An unreported request adds exactly the edges from the live held locks the scan gets to |
| LockOrder.ScanAddsOrder | buginsight_dll/deadlock_monitor.cpp:131-158 | Reported or not, a scan keeps the graph acyclic and adds edges from held locks only |
| LockOrder.ScanExact | buginsight_dll/deadlock_monitor.cpp:131-158 | The scan stops at the first live entry that is for the requested lock or that the requested lock leads to in the graph before it; exactly the live entries before are ordered, and it reports exactly if it stopped at another lock |
| LockOrder.BeforeLockExact | buginsight_dll/deadlock_monitor.cpp:93-159 | A request field by field: refused with an error at twenty entries, otherwise the id of the lock, a new one only if it had none, and exactly the edges and the report of the scan |
| LockOrder.InLockExact | buginsight_dll/deadlock_monitor.cpp:162-172 | Recording an acquisition changes one table only, and there no entry moves |
| LockOrder.AfterLockExact | buginsight_dll/deadlock_monitor.cpp:174-206 | A release changes the table of the thread only, and is an error exactly if the table has no entry for the id of the lock |
| LockOrder.TryLockExact | buginsight_dll/deadlock_monitor.cpp:208-228 | A try hands out the id of the lock and changes nothing else |
| LockOrder.DeleteLockExact | buginsight_dll/deadlock_monitor.cpp:230-238 | A deleted lock has no id, its former id is nobody's, and exactly the edges at that id are gone; all else stays |
| LockOrder.CallsAreRegistrySteps | buginsight_dll/deadlock_monitor.cpp:93-261 | Each monitor call changes the ids of locks only by giving a lock without id a new one, or by taking the id of one lock away |
| LockOrder.IdNeverReturns | buginsight_dll/graphcycles/graphcycles.cc:431-503 | Over any run of calls an issued id that no lock has never becomes the id of a lock again, and ids of different locks differ |
| Monitor.OrderBefore | buginsight_dll/deadlock_monitor.cpp:148-149 | Ordering a live held lock before the requested one adds the edge exactly if the requested lock does not reach the held one |
| Monitor.CheckOrder | buginsight_dll/deadlock_monitor.cpp:130-158 | The loop over the held-lock table computes the specified scan on the shared graph |
| Monitor.BuildCircle | buginsight_dll/helper/log_helper.cpp:139-189 | The ids printed for a rejected edge are a non-empty simple path from the requested lock towards the held one, complete unless cut off at ten |
| Monitor.DeadlockMonitor.constructor | buginsight_dll/deadlock_monitor.cpp:63-68 | A new monitor knows no locks and has found nothing |
| Monitor.DeadlockMonitor.Order | buginsight_dll/deadlock_monitor.cpp:130-158 | The scan of the thread's table sets the deadlock flag exactly when it prints a circle |
| Monitor.Unrecord | buginsight_dll/deadlock_monitor.cpp:189-204 | The release is recorded, failure is told, and the start time is cleared when the table is empty |
| Monitor.DeadlockMonitor.Forget | buginsight_dll/deadlock_monitor.cpp:189-205 | A failed release sets the error flag and nothing else |
| Monitor.DeadlockMonitor.BeforeLock | buginsight_dll/deadlock_monitor.cpp:93-159 | The call refines the specified request step, sets the start time exactly for a first lock, and prints a circle exactly when it reports |
| Monitor.DeadlockMonitor.InLock | buginsight_dll/deadlock_monitor.cpp:162-172 | The call refines the specified recording of an acquisition; in the table every entry keeps its position and only the count of this lock rises |
| Monitor.DeadlockMonitor.AfterLock | buginsight_dll/deadlock_monitor.cpp:174-206 | The call refines the specified release; the start time is cleared exactly when no lock remains |
| Monitor.DeadlockMonitor.BeforeTryLock | buginsight_dll/deadlock_monitor.cpp:208-228 | The call hands out the id of the lock, without a capacity check, and orders nothing |
| Monitor.DeadlockMonitor.ProcessWatchdogError | buginsight_dll/deadlock_monitor.cpp:274-293 | A report by the watchdog sets the error flag and changes nothing else |
| Monitor.DeadlockMonitor.DeleteLock | buginsight_dll/deadlock_monitor.cpp:230-261 | The lock has no id afterwards, its former id is nobody's, and exactly the edges at that id leave the graph; the result says whether the calling thread still has an entry for it |
| Protocol.ScanSound | buginsight_dll/deadlock_monitor.cpp:131-158 | A scan keeps the graph acyclic and within any history that has the scanned pairs, and reports only if that history contains a cycle |
| Protocol.ReportJustified | buginsight_dll/deadlock_monitor.cpp:149-157 | A scan reports only if every history that has the graph and the scanned pairs contains a cycle |
| Protocol.ReentryIgnored | buginsight_dll/deadlock_monitor.cpp:142-146 | A request for a lock that is the first in the thread's table adds no edge and is not reported |
| Protocol.UnrecordFinds | buginsight_dll/thread_history/thread_history_helper.cpp:26-57 | A thread whose table is complete is reported for leaving a lock exactly if it does not own it; a lock it does not own is never in its table |
| Protocol.RefusalReported | buginsight_dll/deadlock_monitor.cpp:103-110 | A request refused at a full table is always reported as an error |
| Protocol.RequestOrders | buginsight_dll/api_monitors/critical_section_monitor.cpp:52-71 | After an unreported and unrefused request for a lock not yet owned every lock in the table is ordered before it |
| Protocol.StepErrors | buginsight_dll/deadlock_monitor.cpp:93-277 | Every step keeps the account of the error flag: refused requests, leaving a lock not owned and the watchdog have set it, and nothing else has unless a full table has dropped a lock |
| Protocol.StepKeepsInvariant | buginsight_dll/api_monitors/critical_section_monitor.cpp:52-114 | Every step of every thread, leaving locks it does not own included, keeps the invariant: the graph is acyclic and within the history, no table says more than its thread owns, blocked threads are ordered while nothing is reported, the table of a thread that has met no full table is complete, and the error flag is accounted for |
| Protocol.RunKeepsInvariant | buginsight_dll/api_monitors/critical_section_monitor.cpp:52-114 | The invariant holds in every state of every run of any number of threads |
| Protocol.WaitOrdered | buginsight_dll/deadlock_monitor.cpp:93-206 | When a thread waits for another that waits too, and the monitor misses neither wait, the two awaited locks are ordered in the graph |
| Protocol.MissedByOverflow | buginsight_dll/deadlock_monitor.cpp:93-206 | The monitor misses a wait for a blocked thread only if the waiting thread or that blocked thread has itself met a full table |
| Protocol.CircularWaitMissed | buginsight_dll/deadlock_monitor.cpp:93-206 | While no potential deadlock is reported, every circular wait has a member whose wait the monitor misses because its own table, or that of the next member, was full |
| Protocol.NoCircularWait | buginsight_dll/deadlock_monitor.cpp:93-206 | While no potential deadlock is reported there is no circular wait among threads that have met no full table, whatever happened to other threads |
| Protocol.DetectorSound | buginsight_dll/deadlock_monitor.cpp:93-206 | In every state of every run: an unreported circular wait has a member missed because its own or the next member's table was full; a potential deadlock is reported only if the requests contain a cycle, and only if those for locks not owned do unless a re-entrant request has met another lock first; refused requests, leaving locks not owned and the watchdog set the error flag, and apart from a lock dropped by a full table nothing else does |
| Protocol.StepReports | buginsight_dll/deadlock_monitor.cpp:131-158 | A step makes the monitor report a potential deadlock if and only if it is an unrefused request for a lock that leads to a live lock the scan gets to |
| Protocol.PotentialDeadlockExact | buginsight_dll/deadlock_monitor.cpp:131-158 | In any state of any run a potential deadlock has been reported if and only if an earlier step was such a request |
| Protocol.UnownedRequestReports | buginsight_dll/deadlock_monitor.cpp:131-158 | An unrefused request for a lock the thread does not own is reported if and only if the graph leads from that lock to any lock in its table |
| Protocol.EdgesJustified | buginsight_dll/deadlock_monitor.cpp:131-158 | Every edge ever present goes back to a step in which a thread requested its target while its table held its source |
| Protocol.OrdersJustified | buginsight_dll/deadlock_monitor.cpp:131-158 | Every pair of the history of lock orders goes back to a step in which a thread requested the second lock, which it did not own, while its table held the first |
| Overflow.OverflowHidesDeadlock | buginsight_dll/deadlock_monitor.cpp:208-228 | A run exists that ends in a circular wait without any report, because trying a lock is not refused when the table is full; nothing else unusual happens in it |
| Lifetimes.FirstStays | buginsight_dll/thread_history/thread_history_helper.cpp:26-108 | No step of any thread moves the first entry of a table as long as its lock is not given up |
| Lifetimes.ReentryUnreported | buginsight_dll/deadlock_monitor.cpp:142-146 | Over any run, a thread that has not given up the first lock of its table can request it again without a report and without a new edge |
| Lifetimes.StepIsRegistryStep | buginsight_dll/deadlock_monitor.cpp:93-261 | Every step of a run changes the ids of locks only by a lookup or a deletion |
| Lifetimes.StaysOffEdges | buginsight_dll/deadlock_monitor.cpp:131-158 | No step puts an edge at an id that no lock has |
| Lifetimes.DeletedForGood | buginsight_dll/deadlock_monitor.cpp:230-238 | In every state after the deletion of a lock, its former id is on no edge, in no table, in no thread's hand and the id of no lock, whatever has been created at its address |
| Incidents.SpuriousReport | buginsight_dll/deadlock_monitor.cpp:131-158 | A run of one thread exists that is reported as a potential deadlock although it has taken all locks in ascending order: it enters 1, 2 and 3, leaves 1, which moves 3 before 2 in its table, and enters 2 again |
| Incidents.DoubleLeave | tests/buginsight_tests_lock_unit_tests_md/test_std_mutex_bad.cpp:37-43 | Leaving a lock twice sets the error flag with the second leave, without any overflow |
| Incidents.ForeignLeave | tests/buginsight_tests_lock_unit_tests_md/test_std_mutex_bad.cpp:45-58 | Leaving a lock that another thread has entered sets the error flag, without any overflow |
| Incidents.LongHold | tests/buginsight_tests_lock_unit_tests_md/test_thread_watchdog_bad.cpp:28-38 | The watchdog's report of a thread that holds one lock sets the error flag, without any overflow |
| BlockMaps.CanonicalUnique | buginsight_dll/helper/low_level_alloc.cc:404-439 | Non-overlapping blocks no two of which are adjacent are determined by the set of their bytes |
| BlockMaps.CoalescedBytes | buginsight_dll/helper/low_level_alloc.cc:404-420 | Coalescing keeps the bytes and the separation of blocks |
| BlockMaps.FreedCanonical | buginsight_dll/helper/low_level_alloc.cc:424-439 | Adding a block and coalescing it with both neighbours leaves no adjacent blocks |
| BlockMaps.FreedBytes | buginsight_dll/helper/low_level_alloc.cc:424-439 | Freeing adds exactly the bytes of the block, and some free block is at least as large |
| SkipLists.LevelInserted | buginsight_dll/helper/low_level_alloc.cc:163-174 | Linking an element in behind its predecessor keeps a level the ascending list of its elements |
| SkipLists.LevelRemoved | buginsight_dll/helper/low_level_alloc.cc:179-192 | Linking an element out keeps a level the ascending list of the others |
| SkipLists.SkipList.constructor | buginsight_dll/helper/low_level_alloc.cc:283-297 | A new list is empty, with all head links null |
| SkipLists.SkipList.Search | buginsight_dll/helper/low_level_alloc.cc:148-158 | Returns the first element not below the address, and per level in use the last element below it |
| SkipLists.SkipList.Descend | buginsight_dll/helper/low_level_alloc.cc:153-155 | The walk on one level stops at its last element below the address |
| SkipLists.SkipList.Insert | buginsight_dll/helper/low_level_alloc.cc:163-174 | The list gains exactly this element on exactly its levels; sizes, states and other levels stay; the head level count stays tight |
| SkipLists.SkipList.Extend | buginsight_dll/helper/low_level_alloc.cc:167-169 | The head uses as many levels as the new element, and is its predecessor on the new ones |
| SkipLists.SkipList.Splice | buginsight_dll/helper/low_level_alloc.cc:170-173 | The element is linked in behind its predecessor on each of its levels and on no other |
| SkipLists.SkipList.Delete | buginsight_dll/helper/low_level_alloc.cc:179-192 | The element searched for is the one removed; the list loses exactly it; the head level count is lowered to the tallest remaining element |
| SkipLists.SkipList.Unlink | buginsight_dll/helper/low_level_alloc.cc:185-187 | The unlinking loop reaches every level of the element |
| SkipLists.SkipList.Lower | buginsight_dll/helper/low_level_alloc.cc:188-190 | The head ends up with as many levels as the tallest element |
| MachineInts.ClearLowBits | buginsight_dll/helper/low_level_alloc.cc:374-377 | Masking the low bits off a 64-bit number rounds it down to a multiple of the power of two |
| BlockSizes.RoundedUpBlockSize | buginsight_dll/helper/low_level_alloc.cc:271-279 | The doubling loop ends at a power of two that covers the header |
| BlockSizes.RoundsUp | buginsight_dll/helper/low_level_alloc.cc:374-377 | Rounding up gives the least multiple that is not smaller |
| BlockSizes.IntLog2 | buginsight_dll/helper/low_level_alloc.cc:99-109 | The shifting loop computes the recursive logarithm |
| BlockSizes.Log2Bounds | buginsight_dll/helper/low_level_alloc.cc:99-109 | Halving that often gets down to the base and once less does not |
| BlockSizes.Log2Monotone | buginsight_dll/helper/low_level_alloc.cc:99-109 | A larger size does not have a smaller logarithm |
| BlockSizes.LevelsMonotone | buginsight_dll/helper/low_level_alloc.cc:131-142 | A larger block has at least the levels that a smaller one must have, whatever the random parts |
| BlockSizes.SkiplistLevels | buginsight_dll/helper/low_level_alloc.cc:131-142 | At least one level, fewer than the maximum, never more links than fit into the block, never fewer levels than a search for its size uses |
| Arenas.TiledSplit | buginsight_dll/helper/low_level_alloc.cc:532-540 | Splitting keeps free and used blocks an exact partition of the obtained bytes, on the rounding grid |
| Arenas.TiledMapped | buginsight_dll/helper/low_level_alloc.cc:483-526 | A fresh region extends the partition by its bytes |
| Arenas.TiledCoalesced | buginsight_dll/helper/low_level_alloc.cc:404-420 | Coalescing keeps the partition |
| Arenas.FitsAreHigh | buginsight_dll/helper/low_level_alloc.cc:470-481 | Every free block that is large enough is linked on the level that the search walks |
| Arenas.NoneHigh | buginsight_dll/helper/low_level_alloc.cc:470-472 | When the list does not use that level, no free block is large enough |
| Arenas.RestAlone | buginsight_dll/helper/low_level_alloc.cc:532-540 | The remainder of a split never coalesces with anything |
| Arenas.FreeUndoesAlloc | buginsight_dll/helper/low_level_alloc.cc:404-439 | Giving a taken block back restores the free list exactly |
| Arenas.AllocThenFree | buginsight_dll/helper/low_level_alloc.cc:443-549 | An allocation that needs no new region followed by its free restores all blocks |
| Arenas.TakenBytes | buginsight_dll/helper/low_level_alloc.cc:528-543 | An allocation takes exactly the bytes of its block from the free ones |
| Arenas.SizesExact | buginsight_dll/helper/low_level_alloc.cc:464-483 | A block is the least multiple of 32 with room for 32 bytes and the request, and a region the least multiple of sixteen pages with room for the block |
| Arenas.FreedExact | buginsight_dll/helper/low_level_alloc.cc:404-439 | A freed block is joined with the free block that ends where it begins and with the one that begins where it ends, and nothing else changes |
| Arenas.MappedExact | buginsight_dll/helper/low_level_alloc.cc:467-527 | A region is mapped exactly if no free block is large enough, and is joined with its free neighbours |
| Arenas.AllocatedExact | buginsight_dll/helper/low_level_alloc.cc:528-545 | The lowest-addressed block with room gives up the bytes needed; what is left of it stays free exactly if it is at least 64 bytes |
| Arenas.Arena.constructor | buginsight_dll/helper/low_level_alloc.cc:283-297 | A new arena owns nothing |
| Arenas.Arena.Next | buginsight_dll/helper/low_level_alloc.cc:384-401 | Returns the next element of the level; the sanity checks on order, state and adjacency never fail |
| Arenas.Arena.Coalesce | buginsight_dll/helper/low_level_alloc.cc:404-420 | Merges a block with its list successor exactly if they are adjacent, and changes no other block |
| Arenas.Arena.Merge | buginsight_dll/helper/low_level_alloc.cc:408-418 | The block takes over its neighbour's size and is listed again with levels for the new size; the neighbour's header is gone; other blocks stay |
| Arenas.Arena.PutOnList | buginsight_dll/helper/low_level_alloc.cc:431-436 | The block is listed with levels that suit its size and is marked free |
| Arenas.Arena.AddToFreelist | buginsight_dll/helper/low_level_alloc.cc:424-439 | The free blocks become those with the block added and coalesced on both sides; they stay canonical and the partition holds |
| Arenas.Arena.Free | buginsight_dll/helper/low_level_alloc.cc:443-454 | Null is ignored; otherwise exactly this block is freed, its bytes become free, other used blocks stay, and the count stays exact |
| Arenas.Arena.FirstFit | buginsight_dll/helper/low_level_alloc.cc:473-481 | The walk on one level finds the lowest-addressed free block of sufficient size on the whole list, or that there is none |
| Arenas.Arena.FindBlock | buginsight_dll/helper/low_level_alloc.cc:467-527 | At most one region is mapped, exactly if nothing fits, and the loop ends within two passes; the region is the least multiple of sixteen pages with room, and no block below the one found has room |
| Arenas.Arena.MapRegion | buginsight_dll/helper/low_level_alloc.cc:482-526 | The region joins the owned bytes and, coalesced, the free list; some free block then covers the request |
| Arenas.Arena.Take | buginsight_dll/helper/low_level_alloc.cc:528-543 | The block leaves the free list for the used ones; only a remainder of at least the least size goes back |
| Arenas.Arena.Split | buginsight_dll/helper/low_level_alloc.cc:532-540 | The block is cut to the request and the rest is freed |
| Arenas.Arena.Alloc | buginsight_dll/helper/low_level_alloc.cc:458-549 | Nothing for no bytes; otherwise the first fit, with room for the request behind its header, on the grid, not used before; all other blocks stay; the count of used blocks stays exact; the bytes needed are the least multiple of 32 with room for header and request, a region mapped is the least multiple of sixteen pages with room for them, and one allocation more is counted |
| LeakGroups.Place | buginsight_dll/leak_check/memory_leak_map_with_callstack.cpp:177-205 | The loop over the slots raises the known call stack or replaces the first smallest slot |
| LeakGroups.PlacedTop | buginsight_dll/leak_check/memory_leak_map_with_callstack.cpp:177-205 | One more block keeps the slots the ten call stacks with the largest blocks, also for hash 0 |
| LeakGroups.Count | buginsight_dll/leak_check/memory_leak_map_with_callstack.cpp:167-206 | One record updates hits, bytes and slots of its function and of no other |
| LeakGroups.SortByBytes | buginsight_dll/leak_check/memory_leak_map_with_callstack.cpp:208-211 | The entries are permuted into descending order of bytes |
| LeakGroups.GroupLeaks | buginsight_dll/leak_check/memory_leak_map_with_callstack.cpp:165-214 | For any visiting order every function ends with its hits, its bytes and its true top ten, sorted by bytes; true exactly if there was a record; a function with at most ten call stacks with non-empty blocks keeps all of them |
| LeakGroups.LargestIs | buginsight_dll/leak_check/memory_leak_map_with_callstack.cpp:186-192 | The maximum of a call stack bounds its blocks and is one of them |
| LeakGroups.NoRoom | buginsight_dll/leak_check/memory_leak_map_with_callstack.cpp:177-205 | If a call stack with a non-empty block has no slot, the function has more than ten such call stacks |
| LeakGroups.KeepsAll | buginsight_dll/leak_check/memory_leak_map_with_callstack.cpp:177-205 | A function with at most ten call stacks with non-empty blocks has a slot for each of them, with the size of its largest block |
| LeakGroups.Additive | buginsight_dll/leak_check/memory_leak_map_with_callstack.cpp:173-175 | Hits and bytes are sums with one hit, and its bytes, for each record of the function |
| LeakGroups.Totals | buginsight_dll/leak_check/memory_leak_map_with_callstack.cpp:173-175 | Hits over all functions add up to the number of records, bytes to the total |
| LeakGroups.OrderIrrelevant | buginsight_dll/leak_check/memory_leak_map_with_callstack.cpp:165-206 | Different visiting orders store equally many call stacks above every size |
| LeakGroups.AllocatedBytes | buginsight_dll/leak_check/memory_leak_map_with_callstack.cpp:216-241 | Sums the bytes of all records or of one function |
| Watchdog.ThreadWatchdog.AddThread | buginsight_dll/thread_watchdog/thread_watchdog.cpp:44-61 | The thread is appended unless the watchdog is off; the first one starts the timer, for five seconds if the limit is at least ten and for one otherwise |
| Watchdog.ThreadWatchdog.Position | buginsight_dll/thread_watchdog/thread_watchdog.cpp:73 | The first entry of the thread, or the end of the list |
| Watchdog.ThreadWatchdog.RemoveThread | buginsight_dll/thread_watchdog/thread_watchdog.cpp:63-87 | The first entry of the thread disappears and the last one takes its place; no other moves |
| Watchdog.ThreadWatchdog.OneShotTimerCallback | buginsight_dll/thread_watchdog/thread_watchdog.cpp:89-145 | A tick reports the first thread that is due and no other; flags before it are cleared at rest, flags behind it stay; some thread is reported exactly if one that is not flagged and does not rest has held a lock for the limit, and under a debugger for 120 seconds as well; the timer is started again while threads are watched |
| Watchdog.ThreadWatchdog.FindLongLocked | buginsight_dll/thread_watchdog/thread_watchdog.cpp:94-131 | The loop stops at the first thread that is due and flags it; flags of resting threads before it are cleared, all others stay |
| Watchdog.TickExact | buginsight_dll/thread_watchdog/thread_watchdog.cpp:102-131 | The thread reported is the first that is not flagged, does not rest and has held a lock for the limit, and under a debugger for 120 seconds as well; flags of resting threads before it are cleared, its own is set, all others stay |
| Watchdog.FlagExact | buginsight_dll/thread_watchdog/thread_watchdog.cpp:102-131 | Over any run of ticks a thread is flagged exactly if it has been reported and no tick has seen it at rest since |
| Watchdog.ReportedOncePerRest | buginsight_dll/thread_watchdog/thread_watchdog.cpp:102-131 | Between two reports of a thread some tick has seen it at rest |
| Watchdog.HoldReportedOnce | buginsight_dll/thread_watchdog/thread_watchdog.cpp:102-131 | A continuous hold is reported at most once |
| Watchdog.TickReports | buginsight_dll/thread_watchdog/thread_watchdog.cpp:102-131 | A tick reports an overdue thread if and only if it is not flagged and no thread before it is due |
| Watchdog.FlagWhileOverdue | buginsight_dll/thread_watchdog/thread_watchdog.cpp:102-131 | While a thread is overdue its flag says whether it was flagged at the beginning or has been reported since |
| Watchdog.OverdueReported | buginsight_dll/thread_watchdog/thread_watchdog.cpp:102-131 | Throughout any stretch of ticks at which a thread is overdue, it is reported if and only if it was not flagged at the beginning and some tick of the stretch finds no thread before it due |
| Watchdog.OverdueReportedSince | buginsight_dll/thread_watchdog/thread_watchdog.cpp:102-131 | The same with the flag replaced by its history: no report without a rest seen since |
| Watchdog.SecondHoldMissed | buginsight_dll/thread_watchdog/thread_watchdog.cpp:107-116 | With one-second ticks, a second hold that begins between two ticks after a report is not reported by any number of later ticks |
| Watchdog.StarvedHold | buginsight_dll/thread_watchdog/thread_watchdog.cpp:121-131 | A hold that is overdue at a tick which stops at an earlier thread, and that ends before the next tick, is never reported although its thread was never flagged |
| Watchdog.DueIsReported | buginsight_dll/thread_watchdog/thread_watchdog.cpp:102-131 | While the start times of a due thread and of those before it stay, it is reported within as many ticks as these threads are |
| Wildcards.Translate | buginsight/options_parser.cpp:294-323 | The loop emits the translation of every character in order |
| Wildcards.TranslationParses | buginsight/options_parser.cpp:294-323 | Read by the pattern grammar of ECMA-262 the translation is the list of what the characters stand for |
| Wildcards.MatchesMeansGlob | buginsight/options_parser.cpp:294-323 | That list matches a whole name free of line terminators exactly if the wildcards do |
| Wildcards.TranslationMeans | buginsight/options_parser.cpp:294-323 | For every name the translation, read as a regular expression, matches exactly the texts free of line terminators that the wildcards match |
| Wildcards.TranslatedPlain | buginsight/options_parser.cpp:294-323 | A name without special characters is its own pattern |
| Wildcards.GlobLiteral | buginsight/options_parser.cpp:294-323 | A name without a star matches itself only |
| Wildcards.GlobStar | buginsight/options_parser.cpp:298 | A star matches whatever stands between a match of what is before it and a match of what is behind it |
| Wildcards.LowerExact | buginsight/options_parser.cpp:250 | A capital becomes the small letter at its place in the alphabet, no capital remains, and nothing else changes |
| Wildcards.CaseIrrelevant | buginsight/options_parser.cpp:250 | Texts that differ only in case are translated alike |
| Wildcards.OptionsBetween | buginsight/options_parser.cpp:250-262 | The extracted options run to the end of the text when the closing brace comes before the opening one |
| Wildcards.OptionsExact | buginsight/options_parser.cpp:252-277 | The options are the characters behind the first opening brace, and before the first closing one unless that comes earlier |
| Wildcards.ParseToBlacklistInfo | buginsight/options_parser.cpp:245-325 | Fails exactly for a missing brace or empty options; otherwise the name is what stands before the first brace, without capitals, each of them replaced by its small letter and all else unchanged, with its options and a pattern that means the name |

## Left out

- Cycles.GraphCycles.GetId: needs a free node or fewer than 2^31 nodes; the source does not check its 32-bit node count.
- Cycles.GraphCycles.FindNode: takes issued ids only, because the source indexes the node vector without a bounds check.
- Monitor.DeadlockMonitor.BeforeLock: the ignore counter is taken to be 0, and the printed circle is modelled as with call stacks enabled.
- Monitor.DeadlockMonitor.AfterLock: the ignore counter is taken to be 0.
- Monitor.DeadlockMonitor.BeforeTryLock: the ignore counter, which this call lowers but does not obey, is not modelled.
- Protocol.DetectorSound: assumes that no lock is deleted while it is held or awaited and that ignore counters are 0; locks may be re-entered by their owner, as critical sections may, so that a thread that blocks on its own non-recursive mutex is not a circular wait; the real leave of a lock the thread does not own is taken to change no owner, where the system leaves it undefined.
- Protocol.StepErrors: the watchdog's step may happen at any time and for any thread; when it does happen is the subject of `Watchdog`.
- Watchdog.OverdueReported: speaks of ticks over a fixed list of watched threads; threads that are added or removed between ticks are in the contracts of the calls only.
- Arenas.Arena.Alloc: requests whose rounded size exceeds 64 bits are excluded, since the source only asserts against overflow.
- Arenas.Arena.Free: takes pointers that the arena has handed out and not taken back, as the source asserts with its magic numbers.
- LeakGroups.GroupLeaks: byte and hit counters do not wrap around at 64 bits.
- Searches.MoveToList: returns the list of ranks instead of overwriting its argument; all scratch vectors of the graph are parameters and results instead of fields.
- Node records are updated in place in the vector that the graph and its pointer map share, but are not separately allocated objects; their neighbour sets are objects.
- The growable vector `Vec` with its inline storage is a sequence; sorting and merging by the C++ library are functions with the same guarantee.
- Memory inside an arena block is represented by its header fields; the header magic is a flag, and the list head is the entry at address 0 with its size of 0.
- Block sizes are those for 8-byte pointers, and the random generator is any integer that is at least 1.
- Held-lock counts are unbounded, and start times are not limited to 64 bits.
- Diagnostic fields and texts: call stacks, priorities, thread ids, copies of held locks, log output and the summary.
- Debug-only assertions about start times, which a failed try can violate, and waiting on condition variables.
- The mutexes: each monitor call is one atomic step of the protocol, which is what the graph mutex makes of it.
- `DeleteArena`, `NewArena` and the global arena, which is built anew at each call.
- How timers run (the intervals they are started for are modelled), process termination and the debugger check beyond its effect on the time limit of the watchdog.
- Allocation wrappers, module enumeration, import patching, process start and inter-process plumbing: thin code over system calls.
- `parse_options` for the other options, and the locale: lower-casing is that of ASCII letters.
- The pattern grammar covers what the translation can emit and rejects the rest; of identity escapes it admits every character that is not a letter, digit or underscore, as C++ does, where ECMA-262 also excludes the dollar sign.
