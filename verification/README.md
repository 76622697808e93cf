# Verified models of the Cangjie runtime's native layer

The runtime keeps its native memory in pools of pages and units whose free runs live in a
Cartesian tree: ordered by index, heap-ordered by size. Around it stand a reader/writer lock
built on one 32-bit word, a layer that takes signals over without user code noticing, the
Windows unwinder's decoders, the size classes of the small-object allocator, and the gate
scripts that check call graphs. This project models these pieces and proves what they are for.

The files, in reading order:

| file | models |
|---|---|
| `Common.dfy`, `Intervals.dfy` | small shared types; runs of blocks, and canonical lists of intervals |
| `Treap.dfy`, `TreeOps.dfy`, `TreeInsert.dfy`, `TreeSlots.dfy`, `BestFit.dfy` | the tree as a value: insertion with coalescing and rotation, lowering, joining, paths, walks, best fit |
| `WalkOrder.dfy` | the order of the level iterator by depth and index, and the run that a request is taken from |
| `NodeMemory.dfy`, `CartesianTree.dfy` | the memory behind the nodes; the tree object and its loops |
| `IntervalModel.dfy`, `InsertOrder.dfy`, `TreeParity.dfy` | the parity driver's in-place reference list, many insertions in any order, the structural check, and tree and list in lockstep |
| `FreeRegions.dfy`, `FreeRegionProtocol.dfy` | dirty and released units, releasing the largest runs first, and any number of threads doing so |
| `Words.dfy` | 64-bit wrap-around, masks and shifts |
| `PagePool.dfy`, `PoolProtocol.dfy` | the page pool object, and any number of threads using it |
| `RwLock.dfy`, `RwLockThreads.dfy` | the lock's loops against arbitrary interference, and any number of threads, one atomic access at a time |
| `SignalTable.dfy`, `SignalDelivery.dfy`, `SignalStack.dfy`, `SignalRuns.dfy` | plain dispositions and masks, trees of nested deliveries, the runtime's layer, and runs over both |
| `WinModule.dfy`, `UnwindWin.dfy` | function-table search and unwind codes |
| `MemCommon.dfy` | size classes |
| `Reachability.dfy`, `Closure.dfy`, `Taint.dfy`, `UnlockOrder.dfy` | the worklists of the closure gates |

`dafny verify dfyconfig.toml` checks everything.

Things the proofs brought out, each with its exact condition:

- A request gets a page at all exactly when it is not zero and rounding does not wrap, that is
  from 1 byte to 2^64 minus a page (`PagePool.RoundingCovers`). Any other request gets an
  address with no memory behind it, and returning a block of no pages aborts if the free set is
  not empty and spoils it otherwise (`PagePool.PagePool.Merge`).
- `Fini` and `Init` leave `usedZone` alone: pages below the mark at the last `Init` are never
  handed out again (`PoolProtocol.LostPages`).
- `Fini` unmaps the memory of the tree's nodes and `Init` maps new memory, but the list of free
  node slots outlives both. So a pool is in order after `Fini` and `Init` exactly if no block was
  ever merged (`PagePool.PagePool.Restart`); otherwise the next node gets a slot in unmapped
  memory (`NodeMemory.Restarted`), or, should the new mapping land on the old place, a slot that
  is served a second time (`NodeMemory.ServedTwice`). In a run that is exactly a merge, then a
  re-initialisation, then a merge (`PoolProtocol.CorruptExactly`, with `PoolProtocol.TroubleIsRun`
  as the witness); the protocol's results are for the runs without it. A second `Init` without
  `Fini` keeps node memory, and is in order exactly if the free pages fit the new page count
  (`PagePool.PagePool.Init`).
- The parity driver's `CheckHeap` accepts touching runs; it accepts exactly the well-formed
  trees once the in-order list is also compared (`TreeParity.CheckHeapExact`,
  `TreeParity.CheckHeapAllowsTouching`).
- The read-write lock is sound for up to 2^31 - 1 threads that hold it at most once each
  (`RwLockThreads.ModestRunSafe`), and in general until the word counts 2^31 - 1 read holds; the
  next one, which a run can reach, turns it negative (`RwLockThreads.OneTooMany`,
  `RwLockThreads.LimitReached`).
- Against the modelled table of dispositions, user code cannot tell by any call that signals are
  interposed, at any point of a run, exactly when the run marks no signal that cannot be taken
  over (SIGKILL, SIGSTOP and the two that the C library reserves) and gives no marked signal a
  mask with SIGKILL or SIGSTOP in it, which a kernel would drop and the runtime hands back
  (`SignalRuns.RunExactly`, `SignalRuns.FullMaskShows`). Whatever is passed, nothing but those
  two signals in a returned mask can differ (`SignalRuns.RunUpToMasks`). A defaulted marked
  signal that the process survives leaves the kernel's entry at the default for good
  (`SignalRuns.DefaultSticks`). A marked signal that no runtime handler accepts is delivered as a
  kernel would exactly if its disposition does not ignore or default with `SA_SIGINFO` set, which
  would call address 0 or 1, and its handler's mask leaves out the library's two signals
  (`SignalRuns.DeliveryExactly`). A handler that accepts a signal leaves its own mask in place
  (`SignalDelivery.Searched`).
- The table search reads past the table exactly when the table is empty or the program counter
  is below the first entry. With exclusive ends and no empty functions it names the owner
  except exactly at the first byte of a function that touches the one before, if halving the
  table comes to that one first (`WinModule.WinModule.GetRuntimeFunction`, with
  `WinModule.TouchingMisleads` as the witness).
- `GetStackOffset` is the frame size exactly when the prologue allocates at most once and
  pushes no machine frame (`UnwindWin.OffsetExact`).
- Above 64K a size rounds to the largest of its class exactly when it lies less than 32 bytes
  below a multiple of 16K, since 8 * 1028 is not a power of two; farther below it rounds past its
  class (`MemCommon.LargeAgrees`, with `MemCommon.LargeDisagrees` as the witness).

The page-pool protocol rests on these contracts of the system: the mutex excludes, a fresh
mapping is zero and overlaps nothing in use, decommitting zeroes the pages. Clients write only
to blocks they hold and give back what they hold, with the size they asked for; `Fini` and
`Init` run when no block of the pool is out.

## Model

| member | source | states |
|---|---|---|
| `CartesianTree.CartesianTree.constructor` | src/rt.heap.allocator/CartesianTree.cj:80-95 | a new tree is well formed, empty and holds no units; its node budget is half the blocks and one |
| `CartesianTree.CartesianTree.Again` | src/rt.heap.allocator/CartesianTree.cj:80-95 | a later `Init` keeps root, total and list of free slots; alone, well formed exactly if the runs fit the new number of blocks; after `Fini`, exactly if no slot was cut from the memory unmapped |
| `CartesianTree.CartesianTree.Fini` | src/rt.heap.allocator/CartesianTree.cj:99-105 | every node given back, node memory unmapped, and the list of free slots still there |
| `CartesianTree.CartesianTree.AllocateNode` | src/rt.heap.allocator/LocalDeque.cj:289-302 | while the budget lasts, one more live slot and sound memory |
| `CartesianTree.CartesianTree.DeallocateNode` | src/rt.heap.allocator/LocalDeque.cj:305-311 | one live slot fewer and sound memory |
| `NodeMemory.AllocateSound` | src/rt.heap.allocator/LocalDeque.cj:289-302 | on sound memory below capacity the slot served is mapped and no other node's, and the memory stays sound |
| `NodeMemory.FreeSound` | src/rt.heap.allocator/LocalDeque.cj:305-311 | giving back a live slot keeps every slot in exactly one place |
| `NodeMemory.InitKeepsSound` | src/rt.heap.allocator/LocalDeque.cj:267-279 | a second `Init` alone loses no memory |
| `NodeMemory.FiniInitExactly` | src/rt.heap.allocator/LocalDeque.cj:267-285 | after `Fini` and `Init` the allocator is sound exactly if no slot was cut from the mapping that was unmapped |
| `NodeMemory.Restarted` | src/rt.heap.allocator/LocalDeque.cj:267-302 | with one mapping: sound exactly if never touched, and else the next slot served is in unmapped memory |
| `NodeMemory.ServedTwice` | src/rt.heap.allocator/LocalDeque.cj:267-302 | a new mapping on the old place serves a stale slot now and again later, while it is alive |
| `CartesianTree.CartesianTree.MergeInsert` | src/rt.heap.allocator/CartesianTree.cj:293-309 | succeeds exactly when no unit of the run is free already (or the tree is empty); adds exactly the run's units and its count; an empty run into an empty tree is the one way to spoil it |
| `CartesianTree.CartesianTree.MergeInsertInternal` | src/rt.heap.allocator/CartesianTree.cj:469-532 | the two loops, descent and rotation back, together keep the tree well formed and insert exactly the run, or change nothing |
| `CartesianTree.CartesianTree.Descend` | src/rt.heap.allocator/CartesianTree.cj:469-506 | the descent finds the place where insertion acts, fails exactly when the run overlaps, and stays within the node budget computed at `Init` |
| `CartesianTree.CartesianTree.Rise` | src/rt.heap.allocator/CartesianTree.cj:507-560 | rotating on the way up yields the heap-ordered tree that insertion is to give |
| `CartesianTree.CartesianTree.MergeAt` | src/rt.heap.allocator/CartesianTree.cj:372-382 | misses exactly when the run touches neither end of the node; otherwise grows the node or reports the overlap |
| `CartesianTree.CartesianTree.MergeToRight` | src/rt.heap.allocator/CartesianTree.cj:385-422 | swallows the right neighbour when the run closes the gap to it; errs exactly on overlap |
| `CartesianTree.CartesianTree.MergeToLeft` | src/rt.heap.allocator/CartesianTree.cj:425-466 | the mirror image on the left |
| `CartesianTree.CartesianTree.TakeUnits` | src/rt.heap.allocator/CartesianTree.cj:312-321 | succeeds exactly when some free run is large enough; by depth, and at each depth from high to low index, takes the low end of the last of the leading runs that are all large enough, and nothing else; the total falls by the request |
| `CartesianTree.CartesianTree.TakeUnitsImpl` | src/rt.heap.allocator/CartesianTree.cj:685-717 | comparing with the root decides; the run taken from is the same one, which is also the last of the leading fits in level order |
| `CartesianTree.CartesianTree.Next` | src/rt.heap.allocator/CartesianTree.cj:158-194 | one iterator step serves the level order, right child before left, and terminates |
| `WalkOrder.LevelOrderSorted` | src/rt.heap.allocator/CartesianTree.cj:158-194 | of two places in the level order the earlier node is less deep, measured by a search from the root, or as deep with the higher index |
| `WalkOrder.StopIsPicked` | src/rt.heap.allocator/CartesianTree.cj:696-706 | where the walk stops: that run and all that come before it by depth and index are large enough, and every later one comes after, or is, one that is too small |
| `WalkOrder.PickedOnce` | src/rt.heap.allocator/CartesianTree.cj:685-717 | depth and index determine that run |
| `WalkOrder.TwoLeaves` | src/rt.heap.allocator/CartesianTree.cj:685-717 | for a large enough root over two leaves: the left leaf if both are large enough, the right one if it alone is, else the root |
| `CartesianTree.CartesianTree.TakeUnitsLowAddr` | src/rt.heap.allocator/CartesianTree.cj:324-333 | takes from the smallest sufficient run, the lowest-addressed of equals |
| `CartesianTree.CartesianTree.TakeFrom` | src/rt.heap.allocator/CartesianTree.cj:777-799 | shrinking one node from below and sinking or dropping it keeps the tree well formed and removes exactly the units taken |
| `CartesianTree.CartesianTree.FindBestFitLowAddrPtr` | src/rt.heap.allocator/CartesianTree.cj:720-774 | the pruned search returns the best run of the whole tree, or none exactly when none fits |
| `CartesianTree.CartesianTree.DecTotalCount` | src/rt.heap.allocator/CartesianTree.cj:284-290 | aborts exactly below zero; unreachable from the callers |
| `CartesianTree.CartesianTree.RemoveZeroNode` | src/rt.heap.allocator/CartesianTree.cj:656-669 | rotating an empty node to a leaf and cutting it off joins its subtrees |
| `CartesianTree.CartesianTree.MaintainHeapPropertyForNonZeroNode` | src/rt.heap.allocator/CartesianTree.cj:647-653 | repeated rotation lowers the node to where heap order wants it |
| `CartesianTree.CartesianTree.LowerImproperNodeOnce` | src/rt.heap.allocator/CartesianTree.cj:596-624 | a leaf's slot comes back as it is; otherwise one rotation makes progress and changes neither what lowering nor what removal will give |
| `CartesianTree.CartesianTree.ReleaseRootNode` | src/rt.heap.allocator/CartesianTree.cj:353-360 | removes exactly the root's run and keeps the tree well formed |
| `CartesianTree.CartesianTree.ClearTree` | src/rt.heap.allocator/CartesianTree.cj:257-271 | the walk gives back every node, each exactly once, and leaves an empty well-formed tree |
| `CartesianTree.CartesianTree.GetNodeCount` | src/rt.heap.allocator/CartesianTree.cj:343-350 | the iterator visits every node exactly once, and the result counts the intervals |
| `CartesianTree.EachOnce` | src/rt.heap.allocator/CartesianTree.cj:158-194 | no two nodes of an ordered tree hold the same run |
| `TreeParity.InsertSound` | src/rt.heap.allocator/CartesianTree.cj:469-532 | insertion goes through exactly when the run misses all free units, and then keeps search order, gaps and heap order and adds exactly the run |
| `TreeInsert.InsertHeap` | src/rt.heap.allocator/CartesianTree.cj:507-560 | the rotations restore heap order after a node has grown |
| `TreeInsert.InsertOrdered` | src/rt.heap.allocator/CartesianTree.cj:372-532 | coalescing and rotation keep search order and a gap between neighbours |
| `TreeInsert.InsertShape` | src/rt.heap.allocator/CartesianTree.cj:469-532 | the tree after an insertion: it differs below the root on one side, the child comes up exactly when it is strictly larger, and a root that touches the run grows by it and by the neighbour it closes up to |
| `TreeOps.LowerHeap` | src/rt.heap.allocator/CartesianTree.cj:596-653 | lowering one node restores heap order |
| `TreeOps.JoinUnits` | src/rt.heap.allocator/CartesianTree.cj:627-669 | removing a node loses none of its children's units |
| `TreeOps.LowerShape` | src/rt.heap.allocator/CartesianTree.cj:596-653 | a shrunk node stays exactly while no child is larger; else the larger child comes up with its outer subtree, the right one on equal counts |
| `TreeSlots.GrownBudget` | src/rt.heap.allocator/CartesianTree.cj:80-95 | before every insertion that needs a node, one is left in the budget computed at `Init` |
| `Treap.NodeBudget` | src/rt.heap.allocator/CartesianTree.cj:80-95 | a well-formed tree over n blocks has at most half as many nodes, rounded up |
| `TreeSlots.LevelOrderComplete` | src/rt.heap.allocator/CartesianTree.cj:158-194 | the level order lists exactly the runs of the queued subtrees, each as often as it occurs there |
| `Treap.RootIsMax` | src/rt.heap.allocator/CartesianTree.cj:233-242 | the root of a heap-ordered tree has the largest count |
| `Treap.SameUnitsSameRuns` | test/parity/heap/cartesian_tree_ref.cpp:174-206 | the free units determine the intervals, whatever the tree's shape |
| `IntervalModel.Model.Insert` | test/parity/heap/cartesian_tree_ref.cpp:57-100 | refuses exactly on overlap or, in a list that is not empty, on no blocks; else the in-place array covers exactly the old blocks and the run, sorted, positive and with gaps |
| `IntervalModel.Model.TakeAt` | test/parity/heap/cartesian_tree_ref.cpp:102-118 | succeeds exactly when an interval starts there and is long enough; removes exactly those blocks |
| `IntervalModel.Model.Total` | test/parity/heap/cartesian_tree_ref.cpp:38-45 | the sum over the list is the number of blocks covered |
| `IntervalModel.Model.AnyFit` | test/parity/heap/cartesian_tree_ref.cpp:47-55 | true exactly when some interval is long enough |
| `IntervalModel.Model.BestFit` | test/parity/heap/cartesian_tree_ref.cpp:120-134 | finds the shortest sufficient interval, the lowest of equals, exactly when one exists |
| `Intervals.CanonicalUnique` | test/parity/heap/cartesian_tree_ref.cpp:57-118 | the blocks covered determine the list element for element |
| `TreeParity.CheckHeapMeans` | test/parity/heap/cartesian_tree_ref.cpp:154-172 | an accepted tree flattens to sorted disjoint intervals within bounds and its root is a maximum |
| `TreeParity.RootDecidesAnyFit` | test/parity/heap/cartesian_tree_ref.cpp:343-345 | for an accepted tree the root alone decides whether a request fits anywhere |
| `TreeParity.CheckHeapExact` | test/parity/heap/cartesian_tree_ref.cpp:154-206 | check and list comparison together accept exactly the well-formed trees within bounds |
| `TreeParity.CheckHeapAllowsTouching` | test/parity/heap/cartesian_tree_ref.cpp:154-172 | a tree with touching runs that the check alone accepts |
| `TreeParity.InsertBoth` | test/parity/heap/cartesian_tree_ref.cpp:338-342 | tree and list answer an insertion alike and agree afterwards |
| `TreeParity.TakeBoth` | test/parity/heap/cartesian_tree_ref.cpp:343-349 | tree and list answer a request alike, the tree's choice is legal for the list, and they agree afterwards |
| `TreeParity.TakeLowAddrBoth` | test/parity/heap/cartesian_tree_ref.cpp:350-359 | best fit picks the same place on both sides |
| `TreeParity.InsertCommutes` | src/rt.heap.allocator/CartesianTree.cj:293-309 | two insertions into a tree succeed in one order exactly when they do in the other, and leave the same intervals |
| `InsertOrder.InsertAll` | test/parity/heap/cartesian_tree_ref.cpp:57-100 | any number of insertions into the list all succeed exactly when the runs miss the list and each other, and then cover exactly the old blocks and the runs |
| `InsertOrder.InsertOrders` | test/parity/heap/cartesian_tree_ref.cpp:57-100 | the same runs in any two orders succeed or fail alike, and on success leave the same list element for element |
| `InsertOrder.Reordered` | test/parity/heap/cartesian_tree_ref.cpp:57-100 | order matters neither to whether runs fit nor to what they cover |
| `TreeParity.TakeThenInsert` | test/parity/heap/cartesian_tree_ref.cpp:57-118 | taking a run and putting it back restores the array's contents element for element |
| `FreeRegions.FreeRegionManager.ReleaseGarbageRegions` | src/rt.heap.allocator/FreeRegionManager.cj:306-335 | terminates at or below the target, returns the bytes moved at 4096 each unit, keeps the union and disjointness of dirty and released units, never hits the merge check, moves the fewest runs of any choice, and moves none that is smaller than one it keeps |
| `FreeRegions.FreeRegionManager.MoveRoot` | test/parity/heap/freeregionmanager_ref.cpp:29-41 | one round moves the largest dirty run to the released tree and never fails to merge |
| `FreeRegions.FreeRegionManager.PopRoot` | src/rt.heap.allocator/FreeRegionManager.cj:314-323 | under the dirty lock exactly the units of a largest run leave the dirty tree |
| `FreeRegions.FreeRegionManager.PushReleased` | src/rt.heap.allocator/FreeRegionManager.cj:325-329 | under the released lock the units join the released tree; fatal exactly when one is there |
| `FreeRegionProtocol.NextKeeps` | src/rt.heap.allocator/FreeRegionManager.cj:189-335 | every critical section of every thread keeps each unit in exactly one place |
| `FreeRegionProtocol.RunSafe` | src/rt.heap.allocator/FreeRegionManager.cj:189-335 | in every interleaving of taking, adding and releasing no merge is fatal, and each unit is dirty, released, in use, or under way with exactly one thread |
| `FreeRegionProtocol.Conservation` | src/rt.heap.allocator/FreeRegionManager.cj:189-335 | with nothing under way the dirty, released and used units add up |
| `FreeRegions.FreeRegionManager.ReleaseAmidOthers` | src/rt.heap.allocator/FreeRegionManager.cj:306-335 | among other threads the loop returns exactly the bytes it moved and stops exactly at the first reading at or below the target or at an empty tree |
| `FreeRegions.GreedyIsLeast` | test/parity/heap/freeregionmanager_ref.cpp:29-41 | any collection of dirty runs whose removal meets the target has at least as many members as the greedy choice |
| `FreeRegions.LargestGo` | src/rt.heap.allocator/FreeRegionManager.cj:306-335 | the runs that go are no smaller than those that stay, are enough for the target, and are as many as the least number, which is so attained |
| `FreeRegions.Exchange` | test/parity/heap/freeregionmanager_ref.cpp:29-41 | giving up the root instead of another run of a sufficient collection stays sufficient |
| `FreeRegions.FreeRegionManager.TakeRegion` | src/rt.heap.allocator/FreeRegionManager.cj:189-224 | for any outcomes of the lock tries: the best run of the first tree whose lock is had and that has a fit, dirty before released in a round; nothing only if neither fits |
| `FreeRegions.FreeRegionManager.AddGarbageUnits` | src/rt.heap.allocator/FreeRegionManager.cj:228-238 | fatal exactly when a unit is dirty already, or no units go into a tree that is not empty; the two trees stay apart exactly when the units are not released ones |
| `FreeRegions.FreeRegionManager.AddReleaseUnits` | src/rt.heap.allocator/FreeRegionManager.cj:241-251 | the same for released units |
| `PagePool.RoundingAgrees` | src/rt.common/PagePool.cj:134-135 | the mask form of page rounding equals the division form times the page size, on every request |
| `PagePool.RoundingCovers` | src/rt.common/PagePool.cj:134-135 | the rounded size covers the request, by less than a page, exactly when the sum does not wrap; there is a page at all exactly from 1 byte to 2^64 minus a page |
| `PagePool.FitsIffNode` | src/rt.common/PagePool.cj:141 | consecutive free pages of some length exist exactly when one tree node is that long |
| `PagePool.PagePool.Init` | src/rt.common/PagePool.cj:107-118 | a new mapping under the old high-water mark and the old nodes; in order exactly if the free pages fit (without `Fini`) or no node slot was ever cut (after it), and else the next node's slot is unmapped |
| `PagePool.PagePool.Restart` | src/rt.common/PagePool.cj:107-129 | `Fini` and then `Init`: in order exactly if nothing was ever merged; the protocol's step on the pool's fields |
| `PagePool.PagePool.Fini` | src/rt.common/PagePool.cj:121-129 | unmaps the whole pool and the node memory and empties the free set; the list of free node slots and all other fields stay |
| `PagePool.PagePool.GetPage` | src/rt.common/PagePool.cj:132-167 | aborts exactly at 2^32 - 1 pages or more; else in the run of free pages that `TakeUnits` picks if one fits, else at the unused end if the pool is mapped and has that many bytes left, else at the fresh mapping with the pool unchanged; byte and page arithmetic agree |
| `PagePool.PagePool.Prepare` | src/rt.common/PagePool.cj:171-185 | unmap exactly outside the pool, abort exactly on too many pages, else decommit the whole rounded block and name its first page |
| `PagePool.PagePool.Merge` | src/rt.common/PagePool.cj:186-192 | the block becomes free, aborting exactly when one of its pages is free; a block of no pages aborts or spoils an empty set |
| `PagePool.PagePool.ReturnPage` | src/rt.common/PagePool.cj:170-193 | both halves composed, for addresses inside or outside the pool, aligned or not, and for blocks of no pages |
| `PagePool.CallsAreSteps` | src/rt.common/PagePool.cj:132-193 | the effects promised by the calls are the protocol's steps |
| `PagePool.TreeWhenAllReturned` | src/rt.common/PagePool.cj:107-193 | without a merge after a re-initialisation after a merge: with every in-pool block back the tree is empty or one node spanning all that was handed out since `Init` |
| `PoolProtocol.NextKeeps` | src/rt.common/PagePool.cj:107-193 | every step of every thread, up to a merge on stale node memory, keeps the pool's invariant |
| `PoolProtocol.CorruptExactly` | src/rt.common/PagePool.cj:107-193 | a run uses unmapped node memory exactly by merging, re-initialising the pool, and merging again |
| `PoolProtocol.TroubleIsRun` | src/rt.common/PagePool.cj:107-193 | such a run exists with no client at fault: one page out and back, re-initialisation, one page out and back |
| `PoolProtocol.ReturnedKeeps` | src/rt.common/PagePool.cj:186-192 | publishing a decommitted block on node memory in order keeps the invariant and is never refused |
| `PoolProtocol.RunSafe` | src/rt.common/PagePool.cj:132-193 | in every interleaving, node memory fails exactly by a merge after a re-initialisation after a merge; without it the abort is unreachable, in-pool blocks held or being returned are disjoint from all blocks and all free pages, and lie below the high-water mark |
| `PoolProtocol.HandedOutZero` | src/rt.common/PagePool.cj:132-193 | every block handed out before node memory fails, from any source, reads as zero and overlaps nothing in use |
| `PoolProtocol.Partition` | src/rt.common/PagePool.cj:132-193 | free pages and in-pool blocks partition what has been handed out since `Init` |
| `PoolProtocol.Conservation` | src/rt.common/PagePool.cj:107-193 | in every reachable state with node memory in order the growth of the high-water mark is the free pages plus the pages held |
| `PoolProtocol.AllReturned` | src/rt.common/PagePool.cj:107-193 | in such a state with every in-pool block back the free set is exactly one interval, or empty |
| `PoolProtocol.UsedNeverFalls` | src/rt.common/PagePool.cj:107-129 | the high-water mark never falls, across `Fini` and `Init` included |
| `PoolProtocol.LostPages` | src/rt.common/PagePool.cj:107-118 | pages below the mark at the last `Init` are never handed out again |
| `RwLock.RwLock.LockRead` | src/rt.base/RwLock.cj:43-57 | whatever the other threads do and for as long as they do it: once over, it has added one reader to a value met that was not write-locked; it cannot keep waiting on one such value; every access is the machine's move |
| `RwLock.RwLock.TryLockRead` | src/rt.base/RwLock.cj:81-95 | gives up exactly when a load meets a writer; else adds one reader; every access is the machine's move |
| `RwLock.RwLock.LockWrite` | src/rt.base/RwLock.cj:61-67 | waits exactly through values that are not free, and turns the first free one into write-locked |
| `RwLock.RwLock.TryLockWrite` | src/rt.base/RwLock.cj:70-77 | one attempt that succeeds exactly on a free word |
| `RwLock.RwLock.UnlockRead` | src/rt.base/RwLock.cj:99-105 | takes one off and aborts exactly when the value met was negative |
| `RwLock.RwLock.UnlockWrite` | src/rt.base/RwLock.cj:109-116 | fatal exactly on a word that is not write-locked; else stores zero over whatever has come since |
| `RwLockThreads.NextKeeps` | src/rt.base/RwLock.cj:43-116 | every atomic access of every thread keeps: -1 with one writer and no reader, else the number of read holds |
| `RwLockThreads.RunSafe` | src/rt.base/RwLock.cj:43-116 | in every run that stays within the word's range, the word tells exactly who holds the lock and neither abort is reachable |
| `RwLockThreads.Exclusive` | src/rt.base/RwLock.cj:43-116 | in such a run, while a thread writes nobody else writes and nobody reads |
| `RwLockThreads.Refines` | src/rt.base/RwLock.cj:43-116 | each atomic access is one event of an abstract reader/writer lock or invisible |
| `RwLockThreads.FailureIsProgress` | src/rt.base/RwLock.cj:52-55 | a failed reader swap is due to another thread's change after that reader's last load |
| `RwLockThreads.TryReadRefusal` | src/rt.base/RwLock.cj:86-88 | `TryLockRead` returns false only if some thread was writing at its last load |
| `RwLockThreads.TryWriteRefusal` | src/rt.base/RwLock.cj:70-77 | a write attempt fails exactly when some thread holds the lock at that moment |
| `RwLockThreads.ModestRunSafe` | src/rt.base/RwLock.cj:32-116 | runs of fewer than 2^31 threads that never ask for a second read hold are safe, with nothing assumed about the count |
| `RwLockThreads.EnoughRoom` | src/rt.base/RwLock.cj:32-34 | such threads never take a read hold more than the word counts |
| `RwLockThreads.LimitReached` | src/rt.base/RwLock.cj:52 | a run that takes 2^31 - 1 read holds and then one more, which turns the word negative |
| `RwLockThreads.OneTooMany` | src/rt.base/RwLock.cj:52 | with 2^31 - 1 read holds the next one wraps the word and breaks the invariant |
| `SignalStack.SignalStacks.MarkSig` | rt0/signal/SignalStack.h:31-37 | saves the disposition and installs the runtime's, once |
| `SignalStack.SignalStacks.Register` | rt0/signal/SignalStack.cpp:257-270 | the installed entry and the saved action; for the four signals that cannot be taken over nothing changes |
| `SignalStack.SignalStacks.SigactionImpl` | rt0/signal/SignalStack.cpp:282-302 | the answer and the records after a user's `sigaction`, invalid and refused signals included |
| `SignalStack.SignalStacks.Signal` | rt0/signal/SignalStack.cpp:313-339 | the same for `signal` |
| `SignalStack.SignalStacks.AddHandler` | rt0/signal/SignalStack.cpp:78-81 | the new handler becomes the newest |
| `SignalStack.SignalStacks.RemoveHandler` | rt0/signal/SignalStack.cpp:83-91 | the oldest registration of the function goes, the others keep their order |
| `SignalStack.SignalStacks.AdjustSignalMask` | rt0/signal/SignalStack.cpp:341-348 | drops exactly the marked signals |
| `SignalStack.SignalStacks.SigProcMask` | rt0/signal/SignalStack.cpp:350-371 | signal by signal, the thread's mask and the caller's own set afterwards: unblocking opens what the caller names, marked or not, and leaves the set alone; blocking and setting leave marked signals out of both, outside handlers only |
| `SignalStack.SignalStacks.HandlerImpl` | rt0/signal/SignalStack.cpp:139-221 | for a whole tree of nested deliveries and any response of each invocation: the report tells what ran, which handlers and in which order, with flag restored at the end, and only defaulting touches the kernel's entry |
| `SignalStack.SignalStacks.RunChain` | rt0/signal/SignalStack.cpp:148-175 | handlers run from the latest registration back, each under its own mask, up to the first acceptance or null entry |
| `SignalDelivery.LatestFirst` | rt0/signal/SignalStack.cpp:148-175 | in places of the list: the i-th handler to run is the i-th from the end of the registrations; all but the last decline; the search ends at an acceptance, before a null entry, or at the list's beginning; runs are flagged exactly for synchronous signals |
| `SignalStack.SignalStacks.AddThenDeliver` | rt0/signal/SignalStack.cpp:78-175 | a handler just registered runs first on the next delivery, and the earlier ones after it from the latest back |
| `SignalStack.SignalStacks.RunOne` | rt0/signal/SignalStack.cpp:155-173 | a synchronous handler runs flagged; flag and, unless it accepts, mask are restored |
| `SignalStack.SignalStacks.UserAction` | rt0/signal/SignalStack.cpp:176-220 | the saved action under the interrupted mask, its own and the signal, as the kernel allows them |
| `SignalDelivery.NoHandlerInside` | rt0/signal/SignalStack.cpp:146-175 | while a synchronous handler runs no runtime handler starts on the thread, at any depth of signals that arrive meanwhile |
| `SignalDelivery.EveryDelivery` | rt0/signal/SignalStack.cpp:139-221 | at every depth: flag restored at the end, search newest first and stopped as it should be, user's action reached with its own delivery's mask and flag |
| `SignalRuns.CallTransparent` | rt0/signal/SignalStack.cpp:282-339 | one user call changes what user code sees as on a plain table, whatever is passed, and leaves runtime handlers in place |
| `SignalRuns.QueryAfter` | rt0/signal/SignalStack.cpp:282-339 | after a call that is not refused a query returns the handler, flags and mask asked for, after `signal` exactly restart and alternate stack as flags and an empty mask; the call returned what a query would have; nothing else changes |
| `SignalRuns.RefusedCalls` | rt0/signal/SignalStack.cpp:282-339 | the calls that fail on unmarked signals, by number |
| `SignalRuns.MarkInstalls` | rt0/signal/SignalStack.cpp:257-270 | the flags and the mask that marking installs, and that the old action is saved |
| `SignalRuns.TransparentExactly` | rt0/signal/SignalStack.cpp:282-339 | every possible call is answered as by a plain table exactly when only signals that can be taken over are marked and no saved mask holds SIGKILL or SIGSTOP |
| `SignalRuns.RunExactly` | rt0/signal/SignalStack.cpp:257-339 | at all points of a run all questions are answered plainly exactly when no event marks a signal that cannot be taken over or gives a marked signal a mask with SIGKILL or SIGSTOP |
| `SignalRuns.FullMaskShows` | rt0/signal/SignalStack.cpp:290-299 | a full mask given to a marked signal comes back as no kernel would return it |
| `SignalRuns.RunUpToMasks` | rt0/signal/SignalStack.cpp:257-339 | whatever masks are passed, answers differ from the plain table's at most in those two signals, and the visible state not at all |
| `SignalRuns.RunTransparent` | rt0/signal/SignalStack.cpp:257-339 | for every interleaving of harmless user calls and markings, answers and visible state are those of the plain table and no runtime handler is displaced |
| `SignalRuns.EntryStays` | rt0/signal/SignalStack.cpp:290-299 | no run changes the kernel's entry of a marked signal |
| `SignalRuns.DefaultSticks` | rt0/signal/SignalStack.cpp:204-211 | after delivery of a defaulted marked signal no later user call reaches the kernel, though user code sees its own setting |
| `SignalRuns.MaskRun` | rt0/signal/SignalStack.cpp:341-371 | no run of mask calls outside handlers blocks an open marked signal; other signals behave as without the runtime |
| `SignalRuns.MarkedRun` | rt0/signal/SignalStack.cpp:341-371 | a marked signal is blocked after a run of such calls exactly if it was before and no call unblocked it or set a whole mask |
| `SignalRuns.DeliveryExactly` | rt0/signal/SignalStack.cpp:176-219 | the runtime's way with a saved disposition is the kernel's exactly if it does not ignore or default with `SA_SIGINFO`, and its handler's mask leaves out the library's two signals |
| `SignalRuns.DeliveryTransparent` | rt0/signal/SignalStack.cpp:139-221 | for marked signals at every depth that no handler accepts, user code meets the kernel's delivery of the disposition it sees exactly under that condition |
| `SignalRuns.ActionSeen` | rt0/signal/SignalStack.cpp:176-219 | which saved actions run, ignore or default, by handler word and flag, and signal by signal under which mask |
| `WinModule.WinModule.GetRuntimeFunction` | rt0/os/Windows/WinModuleManager.cpp:38-54 | in addresses: returns an entry that holds the program counter exactly when there is one; reads out of bounds exactly on an empty table or below the first entry; below the image finds nothing unless the image ends past the address space; with exclusive ends names the owner except exactly where the search is misled |
| `WinModule.WinModule.InAddresses` | rt0/os/Windows/WinModuleManager.h:36-40 | what the search's answer means between image base plus an entry's start and image base plus its end |
| `WinModule.WinModule.BelowImage` | rt0/os/Windows/WinModuleManager.h:36-40 | below the image the difference wraps: no entry is found unless the image ends past the address space |
| `WinModule.WinModule.Search` | rt0/os/Windows/WinModuleManager.cpp:40-53 | at a boundary of two functions the answer is the one that halving the table comes to first, whatever the entries are |
| `WinModule.OwnerFound` | rt0/os/Windows/WinModuleManager.h:36-40 | the owner of an address under exclusive ends is missed exactly at its first byte, behind a touching function that halving meets first |
| `WinModule.TouchingMisleads` | rt0/os/Windows/WinModuleManager.cpp:40-53 | a table of two touching functions is already a case |
| `UnwindWin.GetStackOffset` | rt0/os/Windows/UnwindWin.cpp:46-74 | for any slots, the offset is the pushes plus the last allocation of the decoded operations, modulo 2^32; fatal exactly on an invalid code |
| `UnwindWin.CodeMeaning` | rt0/os/Windows/UnwindWin.cpp:24-74 | every operation code by its number: the slots it takes and the bytes it adds or allocates, the codes without effect, the invalid ones, and operands past the end |
| `UnwindWin.FortyBytes` | rt0/os/Windows/UnwindWin.cpp:46-74 | slot 0x4204 alone, the prologue that takes 40 bytes, gives 40 |
| `UnwindWin.RoundTrip` | rt0/os/Windows/UnwindWin.h:18-47 | decoding the slots of an encoded prologue, which `EncodedSlots` gives by number, visits exactly the operation boundaries and gives the operations back |
| `UnwindWin.OneOp` | rt0/os/Windows/UnwindWin.cpp:24-44 | an encoded operation takes as many slots as are skipped for it, whatever surrounds it |
| `UnwindWin.EncodedSlots` | rt0/os/Windows/UnwindWin.h:18-47 | the slots of each prologue operation by number |
| `UnwindWin.PrologueOffset` | rt0/os/Windows/UnwindWin.cpp:46-74 | for every prologue with at most one allocation, in any encoding, the result is the frame size |
| `UnwindWin.OffsetExact` | rt0/os/Windows/UnwindWin.cpp:52-73 | the result is the frame size exactly when there is at most one allocation and no machine frame |
| `MemCommon.IndexMonotoneOnto` | src/rt.common/MemCommon.cj:32-39 | the index is monotone, below 208, and takes every value |
| `MemCommon.Bands` | src/rt.common/MemCommon.cj:22-39 | by number for each band: how a size lies in the class of its index, and up to 64K the size of its block |
| `MemCommon.OutsideTable` | src/rt.common/MemCommon.cj:22-39 | the empty request has the all-ones index and size 0; above 256K index and size are all ones |
| `MemCommon.IndexSplits` | src/rt.common/MemCommon.cj:32-39 | sizes fall into consecutive classes with a known largest size |
| `MemCommon.RoundUpIsLargest` | src/rt.common/MemCommon.cj:22-29 | up to 64K the rounded size is the largest of its class and wastes under an eighth from 129 bytes on |
| `MemCommon.SameListSameSize` | src/rt.common/MemCommon.cj:22-39 | up to 64K two sizes share a list exactly when they round alike |
| `MemCommon.LargeRoundUp` | src/rt.common/MemCommon.cj:27 | above 64K the rounded size lies within 8223 bytes above the request |
| `MemCommon.LargeAgrees` | src/rt.common/MemCommon.cj:22-39 | above 64K a size rounds to the largest of its class exactly when it lies less than 32 bytes below a multiple of 16K, and past it exactly from 32 to 8223 bytes below |
| `MemCommon.LargeAlike` | src/rt.common/MemCommon.cj:22-39 | above 64K two sizes on one list round alike exactly when they need as many 32-byte granules |
| `MemCommon.LargeDisagrees` | src/rt.common/MemCommon.cj:27 | on the last list smaller sizes round to larger blocks than 256K itself does |
| `MemCommon.AndSplit` | src/rt.common/MemCommon.cj:12-14 | masking with a complement takes away exactly the masked bits |
| `Closure.TraverseIr` | test/parity/base/atomicspinlock_closure.py:254-272 | reached is exactly what is reachable from the seeds, external exactly the undefined targets called from there; refuses exactly undefined seeds and undefined project targets |
| `Closure.ReachedMeans` | test/parity/base/atomicspinlock_closure.py:254-272 | reachable are the seeds and the definitions called from what is reachable |
| `Closure.ProjectMeans` | test/parity/base/atomicspinlock_closure.py:254-272 | a project symbol is one of the prefixes followed by something |
| `Reachability.ClosedExact` | test/parity/base/atomicspinlock_closure.py:254-272 | a closed set of reachable symbols that holds the seeds is exactly what is reachable |
| `Reachability.ReachableLeast` | test/parity/base/atomicspinlock_closure.py:254-272 | any set that holds the seeds and that no edge leaves holds all that is reachable |
| `Taint.CheckEscapes` | test/parity/base/rwlock_closure.py:247-292 | accepts exactly the bodies whose casts are all bound and whose uses of derived values are all allowed |
| `Taint.Fixpoint` | test/parity/base/rwlock_closure.py:267-279 | the taint is exactly what derives from a cast, and the loop terminates |
| `Taint.TaintedMeans` | test/parity/base/rwlock_closure.py:247-279 | tainted are the names bound to casts and those bound on a deriving line with a tainted name on its right |
| `Taint.TaintedLeast` | test/parity/base/rwlock_closure.py:267-279 | and nothing else is |
| `Taint.CastsCounted` | test/parity/base/rwlock_closure.py:247-266 | the count reported is the number of cast lines |
| `UnlockOrder.StoreReachable` | test/parity/base/rwlock_closure.py:331-340 | refuses exactly when a block that stores the release is reachable from the failing block |

## Left out

- The tree's nodes are values reached by paths, not heap cells: writes through a slot are modelled as replacing the subtree there, so aliasing between nodes is not captured.
- CartesianTree.CartesianTree.MergeInsert: asks for a run within the blocks given at `Init`, as every caller passes; beyond that, 32-bit ends could wrap.
- `LowerNode` (src/rt.heap.allocator/CartesianTree.cj:563-592) has no caller; refreshing region information is not modelled.
- CartesianTree.CartesianTree.DeallocateNode: which live slot belongs to which node is not tracked, nor are the words in which the free list is linked.
- `AllocateLowestAddressFromNode` (src/rt.heap.allocator/CartesianTree.cj:802-819) repeats the take of `TakeFrom`.
- The deques behind the walks (`SingleUseDeque`, `LocalDeque`) are sequences; their spilling is not modelled.
- FreeRegions.FreeRegionManager.TakeRegion: the trees do not change between its rounds; interference is in `FreeRegionProtocol`.
- FreeRegions.FreeRegionManager.ReleaseGarbageRegions: models the loop without interference, as the least-moves result needs; `ReleaseAmidOthers` has the loop, and `FreeRegionProtocol` the units, among other threads.
- PagePool.PagePool.ReturnPage: asks for a block that ends inside the pool, as `Merge` does; beyond that, pages that are not there would become free.
- PagePool.PagePool.Init: models the Linux pool; `MapMemory` and its failure on other systems are not part of this model.
- PoolProtocol.NextKeeps: takes `Fini` followed by `Init` as one step, since calls between the two would use an unmapped base; what a pool does after a merge on unmapped node memory is not described.
- InsertOrder.InsertAll: asks for an array with room for every run as an entry of its own, also where runs would join.
- RwLock.RwLock.LockRead: fairness between threads is not modelled; a call may wait for ever if the word keeps changing.
- Weak memory orders: all atomics are sequentially consistent, as the bridge makes them (rt0/Atomic.cpp:17-26).
- SignalStack.SignalStacks.HandlerImpl: foreign code may change its mask and be interrupted, to any depth; handlers that edit the runtime's records or leave by a non-local jump, and `SA_RESETHAND`, are not modelled.
- `SignalStack::Handler` (rt0/signal/SignalStack.cpp:100-137) only chooses between a synchronous and an asynchronous run, which is a parameter here.
- Frame walking (rt0/os/Windows/UnwindWin.cpp:76 on), module lists and loaders: raw memory and system calls.
- `traverse_final` (test/parity/base/rwlock_closure.py:343-381) runs the same worklist as `traverse_ir`; parsing, counting of symbols in texts, manifests and fault injection are not modelled.
- `SetUserSigHandler`, layouts, tags and logging: no logic beyond a store. Flag bits that a C library adds to a disposition by itself are not part of the table.
