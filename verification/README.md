# Verified models of the durable C containers

A Dafny 4.11 model of eleven data structures under `src/C/FingerTree/src`. Each of them has a fast form that must
agree with a simple one over every run, and that agreement is what is proved here.

* **Lazy heaps.** The persistent monotone-action heap is a bootstrapped skew-binomial heap with a pending action on
  every tree and spine cell. Its runs refine eager multisets that apply each action to every entry at once. The
  Brodal-Okasaki heap is the same kernel over the trivial action.
* **DABA Lite.** A mutable sliding-window aggregate with six cursors over a chain of 64-slot blocks. The aggregate is
  the ordered product of the window for any monoid.
* **Canonical sorted set.** Insertion by split, removal by merge and the bulk build along the right spine all yield the
  one tree that the contents dictate, so equality by digest and lock-step walk is exact.
* **Level-ancestor arena.** Skew-binary jump links over an odd-block store, and the slice queue and bilateral deque
  that view its paths as immutable sequences.
* **Checkpoint differentials.** The delta map's net-change index and the run-delta vector's maximal dirty runs, over
  one size-balanced tree with parameters (3, 2).
* **Priority search queue.** A persistent AVL tree with cached winners and a pruned range query.
* **Contextual rank measure.** All-start-state tables with saturation and a sticky overflow flag.

Immutable reference-counted nodes are datatypes; the DABA window and the arena are classes; sorting, linking, bucket
filing, path rebuilding and stack walks are loops proved against recursive specifications. Callbacks (comparison,
rank, action, monoid, transition, equality) are function parameters, and the laws the containers ask of them are
explicit `Lawful`-style predicates. Machine limits are modelled on a 64-bit target.

Where the code and its comments part, the model follows the code:

* The overflow flag of the contextual measure (comment at `contextual_rank_sequence.c:12-17`) is not exact for the true
  totals: line 229 also adopts the right operand's flag for states that the left operand never reaches.
  `ContextualRank.GroupingsDisagree` is the example. `FlagTellsExactly` gives the exact condition on the elements alone,
  and `FlagIsBurst` the one on a given grouping.
* Without a change record the delta map's current value is the checkpoint value only modulo value equality (comment at
  `persistent_delta_map.c:1796-1797`). `DeltaMap.CancelledValueDrifts` is a run where it is another value. `Drifts` is the
  guard of the writes at fault, and `SetItemStrict` and `RunIsStrict` show that it shuts out exactly the failing runs.
* `SliceQueue.Slice` reports overflow for every proper window of a queue whose tail sits at the deepest representable
  level, even when the window's own depths fit; the contract says exactly when.

`dafny verify dfyconfig.toml` checks the whole project.

## Model

| member | source | states |
|---|---|---|
| `ClampFamily.ComposeIsExact` | src/C/FingerTree/src/persistent_monotone_action_heap.c:2363-2456 | Applying a composed clamp returns the very representative that applying inner then outer returns, also when the comparison ties distinct values. |
| `ClampFamily.ComposeBoundsIsExact` | src/C/FingerTree/src/persistent_monotone_action_heap.c:2271-2305 | The general two-bound case of exact composition, through the selection of the bound that replaces a priority. |
| `ClampFamily.ComposeStaysWellFormed` | src/C/FingerTree/src/persistent_monotone_action_heap.c:2363-2456 | Composing well-formed clamps keeps lower <= upper. |
| `ClampFamily.ApplyIsMonotone` | src/C/FingerTree/src/persistent_monotone_action_heap.c:2458-2479 | A well-formed clamp never reverses two priorities. |
| `ClampFamily.ClampFamilyIsLawful` | src/C/FingerTree/src/persistent_monotone_action_heap.c:2564-2589 | The shipped clamp family meets every law the heap assumes: identity, closure, composition, monotonicity. |
| `ClampFamily.ApplyClamps` | src/C/FingerTree/src/persistent_monotone_action_heap.c:2271-2305 | Applying a clamp gives its constant, or else the violated bound itself, or else the priority unchanged, and always a priority within the bounds. |
| `ClampFamily.ConstructorsBuildWellFormed` | src/C/FingerTree/src/persistent_monotone_action_heap.c:2590-2696 | The constructors build exactly the well-formed clamps; crossed bounds are refused. |
| `ClampedHeap.TransformClamps` | src/C/FingerTree/src/persistent_monotone_action_heap.c:1560-1611 | Clamping a whole heap moves every priority into the bounds, keeps those already within them, and keeps every element. |
| `ActionEntries.ActPermutation` | src/C/FingerTree/src/persistent_monotone_action_heap.c:1560-1611 | Acting on every entry sees the entries only as a multiset. |
| `ActionHeapKernel.TagTreeFacts` | src/C/FingerTree/src/persistent_monotone_action_heap.c:578-602 | Tagging a tree acts on every logical entry below it and keeps its structure good. |
| `ActionHeapKernel.TagForestFacts` | src/C/FingerTree/src/persistent_monotone_action_heap.c:605-628 | Tagging a spine cell acts on every entry of the forest and keeps the ranks. |
| `ActionHeapKernel.ExposeFacts` | src/C/FingerTree/src/persistent_monotone_action_heap.c:631-659 | Exposing a root pushes its pending action down without changing a logical entry. |
| `ActionHeapKernel.HeadTailFacts` | src/C/FingerTree/src/persistent_monotone_action_heap.c:671-689 | The head and tail views of a tagged forest together denote the forest. |
| `ActionHeapKernel.HeadTailRoots` | src/C/FingerTree/src/persistent_monotone_action_heap.c:671-689 | The views keep the logical root entries and their order. |
| `ActionHeapKernel.RootIsLeast` | src/C/FingerTree/src/persistent_monotone_action_heap.c:517-571 | The root of a good tree has the least logical priority of all its entries. |
| `ActionHeapKernel.LinkFacts` | src/C/FingerTree/src/persistent_monotone_action_heap.c:880-916 | Linking two trees of one rank keeps all entries, heap order and the fused child encoding, one rank higher; its inconsistency exit is unreachable. |
| `ActionHeapKernel.LinkWinner` | src/C/FingerTree/src/persistent_monotone_action_heap.c:880-916 | The smaller root becomes the root, and on a tie the first. |
| `ActionHeapKernel.SkewLinkFacts` | src/C/FingerTree/src/persistent_monotone_action_heap.c:807-878 | Skew-linking a rank-0 tree with two trees of one rank does the same for all three possible winners. |
| `ActionHeapKernel.SkewLinkWinner` | src/C/FingerTree/src/persistent_monotone_action_heap.c:807-878 | The least root becomes the root; on a tie the first before the second and both before the rank-0 tree. |
| `ActionHeapKernel.SkewInsertFacts` | src/C/FingerTree/src/persistent_monotone_action_heap.c:920-958 | Skew insertion keeps the entries and the skew rank order (only the first two ranks may tie). |
| `ActionHeapKernel.FusedWeight` | src/C/FingerTree/src/brodal_okasaki_heap.c:1514-1566 | The fused child list of a rank-r tree weighs at least 2^r - 1. |
| `ActionHeapKernel.RankBoundsSize` | src/C/FingerTree/src/brodal_okasaki_heap.c:405-522 | A rank-r tree holds at least 2^r entries. |
| `ActionHeapKernel.RankFitsMachine` | src/C/FingerTree/src/persistent_monotone_action_heap.c:807-916 | No tree whose entries fit a machine word reaches the maximal rank, so the rank checks never fire. |
| `ActionHeapLists.ForestToList` | src/C/FingerTree/src/persistent_monotone_action_heap.c:746-780 | Walking a tagged forest yields its trees in spine order with the pending actions applied, and trips the length bound exactly when the spine is longer. |
| `ActionHeapLists.ListToForest` | src/C/FingerTree/src/persistent_monotone_action_heap.c:782-801 | Rebuilding a forest from a list keeps entries and ranks. |
| `ActionHeapLists.FusedStep` | src/C/FingerTree/src/brodal_okasaki_heap.c:1514-1566 | How one step of a fused child list decodes in each of the five cases, including the rank-zero ambiguity. |
| `ActionHeapLists.SplitForest` | src/C/FingerTree/src/persistent_monotone_action_heap.c:1047-1114 | Splitting any well-formed fused child list partitions its entries into rank-0 trees, at most `rank` structural trees and a skew forest; the trees are one of every lower rank from the top down, or a descent that ends early with two trees of one rank. None of its inconsistency exits is reachable. |
| `ActionHeapLists.BucketAdd` | src/C/FingerTree/src/persistent_monotone_action_heap.c:960-987 | Filing a tree links it upward through occupied buckets, conserves the entries, and never runs past the bucket array. |
| `ActionHeapLists.FileAll` | src/C/FingerTree/src/persistent_monotone_action_heap.c:992-1043 | Filing a whole list conserves the entries of the buckets and the list. |
| `ActionHeapLists.CollectBuckets` | src/C/FingerTree/src/persistent_monotone_action_heap.c:992-1043 | Collecting the buckets yields strictly increasing ranks and all their entries. |
| `ActionHeapLists.SkewMeld` | src/C/FingerTree/src/persistent_monotone_action_heap.c:992-1043 | Melding two lists of good trees yields one strictly increasing forest with exactly both lists' entries; it never runs past its buckets and overflows exactly when they cannot be sized. |
| `MonotoneActionHeap.MinimumIsLeast` | src/C/FingerTree/src/persistent_monotone_action_heap.c:1388-1406 | The minimum accessor returns an entry of the heap, and the comparison puts no entry before it. |
| `MonotoneActionHeap.InsertFacts` | src/C/FingerTree/src/persistent_monotone_action_heap.c:1440-1533 | Insertion adds exactly one entry and fails only when the count is exhausted. |
| `MonotoneActionHeap.InsertMinimum` | src/C/FingerTree/src/persistent_monotone_action_heap.c:1440-1533 | The new entry becomes the minimum exactly when the old minimum is not smaller. |
| `MonotoneActionHeap.TransformAllFacts` | src/C/FingerTree/src/persistent_monotone_action_heap.c:1560-1611 | A whole-heap transformation acts on every entry at once. |
| `MonotoneActionHeap.MeldFacts` | src/C/FingerTree/src/persistent_monotone_action_heap.c:1613-1671 | Melding adds the two multisets; neither operand's pending actions reach the other's entries; it fails only when the counts do not fit. |
| `MonotoneActionHeap.MeldMinimum` | src/C/FingerTree/src/persistent_monotone_action_heap.c:1613-1671 | The smaller minimum becomes the minimum, and on a tie the left one. |
| `MonotoneActionHeap.FindMinimum` | src/C/FingerTree/src/persistent_monotone_action_heap.c:1673-1797 | The scan over the root's children finds the first tree with the least logical priority. |
| `MonotoneActionHeap.RebuildForest` | src/C/FingerTree/src/persistent_monotone_action_heap.c:1673-1797 | The parts of a split tree and the remaining trees are melded and the rank-0 trees reinserted, with all entries and a valid skew forest. |
| `MonotoneActionHeap.DeleteMinimum` | src/C/FingerTree/src/persistent_monotone_action_heap.c:1799-1816 | Deletion reports an empty heap, or removes exactly the reported minimum, keeps everything else and restores every invariant; the next minimum is the first least root of the spine; no internal inconsistency is reachable. |
| `MonotoneActionHeap.Perform` | src/C/FingerTree/src/persistent_monotone_action_heap.c:1440-1816 | Any operation on any version of a pool returns exactly the status its counts and emptiness dictate, and otherwise a valid version whose contents are the eager step on multisets. |
| `MonotoneActionHeap.RunAll` | src/C/FingerTree/src/persistent_monotone_action_heap.c:1440-1816 | Executing any run of insert, meld, transform and delete on a growing pool of persistent versions keeps every version valid and refines the eager multisets that apply each action to every entry at once; it stops exactly at the first refused operation. |
| `MonotoneActionHeap.EagerTransformIsDetermined` | src/C/FingerTree/src/persistent_monotone_action_heap.c:1560-1611 | The eager reading of a transformation does not depend on how the entries are listed. |
| `MonotoneActionHeap.DrainIsSortedPermutation` | src/C/FingerTree/src/persistent_monotone_action_heap.c:1673-1816 | Repeated deletion reports a sorted permutation of the contents. |
| `MonotoneActionHeap.RootForestBound` | src/C/FingerTree/src/brodal_okasaki_heap.c:1485-1512 | A nonempty root forest of length m satisfies 2^(m-1) <= count - 1. |
| `BrodalOkasakiHeap.UntaggedIsLawful` | src/C/FingerTree/src/brodal_okasaki_heap.c:364-389 | The tagless heap is the kernel over the trivial action family. |
| `BrodalOkasakiHeap.FromArray` | src/C/FingerTree/src/brodal_okasaki_heap.c:1122-1149 | Inserting an array yields a valid heap with exactly its values, and is refused exactly when its bytes do not fit a machine word. |
| `BrodalOkasakiHeap.Drain` | src/C/FingerTree/src/brodal_okasaki_heap.c:1214-1332 | Deleting until empty returns the contents in ascending order. |
| `DabaRegions.ProductConcat` | src/C/FingerTree/src/daba_lite.c:174-181 | Ordered products of adjacent runs multiply, for any monoid, commutative or not. |
| `DabaRegions.BalancedLengths` | src/C/FingerTree/src/daba_lite.c:967-992 | left = right and left + right + accumulator + 1 = front - back, spelled out from the region invariant. |
| `DabaRegions.FixupRestoresBalance` | src/C/FingerTree/src/daba_lite.c:404-515 | The one-step fixup restores the region balance after any insertion or eviction. |
| `DabaRegions.AppendKeepsSlots` | src/C/FingerTree/src/daba_lite.c:655-731 | Appending a value leaves every stored partial product right. |
| `DabaRegions.DropKeepsSlots` | src/C/FingerTree/src/daba_lite.c:733-774 | Dropping the front value leaves every stored partial product right. |
| `DabaRegions.FlipKeepsSlots` | src/C/FingerTree/src/daba_lite.c:404-515 | The flip reinterprets the back list as the new left and right regions without touching a slot. |
| `DabaRegions.ShiftKeepsSlots` | src/C/FingerTree/src/daba_lite.c:404-515 | The shift branch, which sets the right aggregate to the identity, keeps every slot right. |
| `DabaRegions.ShrinkRewritesTwoSlots` | src/C/FingerTree/src/daba_lite.c:404-515 | The shrink branch rewrites exactly two slots to the partial products their new regions demand. |
| `DabaRegions.QueryIsWindowProduct` | src/C/FingerTree/src/daba_lite.c:635-653 | The front slot times the back aggregate is the ordered product of the window. |
| `DabaLite.Window.constructor` | src/C/FingerTree/src/daba_lite.c:555-599 | A new window is empty and valid on one block. |
| `DabaLite.Window.AdvanceFacts` | src/C/FingerTree/src/daba_lite.c:213-229 | Advancing a cursor moves it one position, across a block boundary when needed. |
| `DabaLite.Window.RetreatFacts` | src/C/FingerTree/src/daba_lite.c:231-247 | Retreating undoes one advance. |
| `DabaLite.Window.Aggregate` | src/C/FingerTree/src/daba_lite.c:635-653 | The aggregate is the ordered product of exactly the values in the window. |
| `DabaLite.Window.BlockCount` | src/C/FingerTree/src/daba_lite.c:994-1005 | The chain always has (f.index + count) / 64 + 1 blocks. |
| `DabaLite.PoolCopy` | src/C/FingerTree/src/daba_lite.c:302-321 | Copying a value takes the next scratch slot, and fails exactly when all eight are taken. |
| `DabaLite.PoolIdentity` | src/C/FingerTree/src/daba_lite.c:323-331 | The same for the identity. |
| `DabaLite.PoolCombine` | src/C/FingerTree/src/daba_lite.c:333-341 | The same for a product; this is the one place that calls the combine callback of an update, and it logs the call. |
| `DabaLite.Window.ComputeFixup` | src/C/FingerTree/src/daba_lite.c:404-515 | From every valid state the fixup plan succeeds, describes the fixed regions and calls combine exactly twice or not at all; running out of scratch slots is unreachable. |
| `DabaLite.Window.ApplyFixup` | src/C/FingerTree/src/daba_lite.c:517-534 | Applying the plan writes just the planned slots, cursors and aggregates. |
| `DabaLite.Window.RunFixup` | src/C/FingerTree/src/daba_lite.c:404-534 | Planning and applying restores the six-cursor invariant, with the combine calls and scratch slots logged on the way. |
| `DabaLite.Window.ExtendChain` | src/C/FingerTree/src/daba_lite.c:655-731 | Crossing the end of the last block links one fresh block. |
| `DabaLite.Window.Insert` | src/C/FingerTree/src/daba_lite.c:655-731 | Insertion appends the value with at most three logged combine calls and seven scratch slots, and fails exactly at the size limit. |
| `DabaLite.Window.TryEvict` | src/C/FingerTree/src/daba_lite.c:733-774 | Eviction drops the front value with at most two logged combine calls and five scratch slots, and reports an empty window. |
| `DabaLite.Window.Evict` | src/C/FingerTree/src/daba_lite.c:776-784 | Eviction from an empty window is an error and changes nothing. |
| `DabaLite.Window.Clear` | src/C/FingerTree/src/daba_lite.c:786-831 | Clearing leaves a valid empty window; its scratch slots never run out. |
| `DabaLite.Window.TrimBefore` | src/C/FingerTree/src/daba_lite.c:393-402 | Trimming frees exactly the blocks before the front cursor and keeps all cursors on the chain. |
| `CanonicalTree.AboveFacts` | src/C/FingerTree/src/canonical_sorted_set.c:1299-1322 | The heap order of nodes is a strict order that ignores representatives and separates unrelated values. |
| `CanonicalOrder.CanonicalMeans` | src/C/FingerTree/src/canonical_sorted_set.c:1299-1322 | Canonical trees are exactly those whose listing ascends by the comparison and whose every node has the greatest geometric rank of its subtree, on a tie the greatest secondary rank, and on both ties the smallest value. |
| `CanonicalTree.CanonicalIsUnique` | src/C/FingerTree/src/canonical_sorted_set.c:1299-1322 | Contents dictate the tree: canonical trees with the same classes have the same shape, node by node tied. |
| `CanonicalTree.SameContents` | src/C/FingerTree/src/canonical_sorted_set.c:2388-2448 | Trees of the same shape hold the same classes. |
| `CanonicalSet.Find` | src/C/FingerTree/src/canonical_sorted_set.c:1344-1372 | The search loop finds the node of a class exactly when there is one. |
| `CanonicalSet.SplitFacts` | src/C/FingerTree/src/canonical_sorted_set.c:1570-1633 | Splitting at an absent value yields canonical halves with exactly the smaller and the greater values. |
| `CanonicalSet.InsertFacts` | src/C/FingerTree/src/canonical_sorted_set.c:1635-1718 | Inserting yields the canonical tree with exactly one value more. |
| `CanonicalSet.MergeFacts` | src/C/FingerTree/src/canonical_sorted_set.c:1788-1848 | Merging two ordered canonical trees yields the canonical tree of both. |
| `CanonicalSet.RemoveFacts` | src/C/FingerTree/src/canonical_sorted_set.c:1850-1937 | Removing yields the canonical tree without the class. |
| `CanonicalSet.SplitLoop` | src/C/FingerTree/src/canonical_sorted_set.c:1570-1633 | The path-array loop computes the split; the path never outgrows the height. |
| `CanonicalSet.InsertLoop` | src/C/FingerTree/src/canonical_sorted_set.c:1635-1718 | The path-array loop computes the insertion. |
| `CanonicalSet.MergeLoop` | src/C/FingerTree/src/canonical_sorted_set.c:1788-1848 | The zipping loop computes the merge within its path capacity. |
| `CanonicalSet.RemoveLoop` | src/C/FingerTree/src/canonical_sorted_set.c:1850-1937 | The removal loop computes the removal; its overflow exits are unreachable. |
| `CanonicalSet.Add` | src/C/FingerTree/src/canonical_sorted_set.c:1720-1786 | Adding keeps a present representative, else inserts; a lawful policy is never reported inconsistent. |
| `CanonicalSet.RunFacts` | src/C/FingerTree/src/canonical_sorted_set.c:1720-1937 | After every run of additions and removals the tree is canonical and holds exactly the classes last added. |
| `CanonicalSet.HistoryIndependence` | src/C/FingerTree/src/canonical_sorted_set.c:1720-1937 | Any two runs that leave the same classes present leave the same tree. |
| `CanonicalOrder.RunMeans` | src/C/FingerTree/src/canonical_sorted_set.c:1720-1937 | After every run the tree lists, in ascending order and led by the greatest ranks, exactly the representatives first added since their class was last removed. |
| `CanonicalOrder.SameKeptSameTree` | src/C/FingerTree/src/canonical_sorted_set.c:1720-1937 | Runs that keep the same representatives leave the very same tree. |
| `CanonicalEquality.SameDigests` | src/C/FingerTree/src/canonical_sorted_set.c:2303-2372 | Equal sets have equal sizes and content hashes, for any digest mix. |
| `CanonicalEquality.DigestTells` | src/C/FingerTree/src/canonical_sorted_set.c:2303-2386 | With a collision-free mix two hashes agree exactly when the trees have the same content words node by node. |
| `CanonicalEquality.DigestNode` | src/C/FingerTree/src/canonical_sorted_set.c:2303-2372 | From any honest cache the stack loop publishes the true digest and keeps the cache honest; its capacity exit is unreachable. |
| `CanonicalEquality.NodesEqual` | src/C/FingerTree/src/canonical_sorted_set.c:2388-2448 | The lock-step walk, whatever shared nodes it recognises, decides sameness of shape and never exceeds its stack. |
| `CanonicalEquality.SamePolicyEquals` | src/C/FingerTree/src/canonical_sorted_set.c:2450-2479 | Identity, size, digest and walk together are true exactly when both sets hold the same classes. |
| `BulkSort.MergedIsSorted` | src/C/FingerTree/src/canonical_sorted_set.c:1969-2022 | Merging sorted runs by (comparison, arrival) yields a sorted run. |
| `BulkSort.PassDoublesRuns` | src/C/FingerTree/src/canonical_sorted_set.c:1969-2022 | One pass over sorted runs leaves sorted runs of double the width. |
| `BulkSort.SortItems` | src/C/FingerTree/src/canonical_sorted_set.c:1969-2022 | The bottom-up sort leaves the items sorted and a permutation of the input, whichever buffer it ends in. |
| `CanonicalBuild.KeepFirst` | src/C/FingerTree/src/canonical_sorted_set.c:2091-2145 | One pass over the sorted items keeps the first arrival of every class; the rank check never fails. |
| `CanonicalBuild.PopSpine` | src/C/FingerTree/src/canonical_sorted_set.c:2146-2173 | Popping the right spine leaves the popped part as one complete heap below the new node. |
| `CanonicalBuild.LinkSpine` | src/C/FingerTree/src/canonical_sorted_set.c:2146-2173 | Linking ascending nodes along the right spine yields one heap-ordered tree over all of them. |
| `CanonicalBuild.FreezeFacts` | src/C/FingerTree/src/canonical_sorted_set.c:2146-2173 | The linked nodes denote a canonical tree with exactly their values. |
| `CanonicalOrder.CanonicalIsExact` | src/C/FingerTree/src/canonical_sorted_set.c:1299-1322 | Canonical trees with the same representatives are equal. |
| `BulkMeasures.MeasureNode` | src/C/FingerTree/src/canonical_sorted_set.c:2181-2194 | A node whose children are done gets the count and height of its subtree; the count never overflows. |
| `BulkMeasures.FillMeasures` | src/C/FingerTree/src/canonical_sorted_set.c:2174-2209 | The stack loop fills in the root and everything below it and never leaves its 2 * count + 1 frames. |
| `CanonicalBuild.Assemble` | src/C/FingerTree/src/canonical_sorted_set.c:2146-2213 | Linking and filling in yield a canonical tree of exactly the values, in which every node carries the count and height of its subtree. |
| `CanonicalBuild.FromArray` | src/C/FingerTree/src/canonical_sorted_set.c:2039-2225 | The bulk build yields the very tree that adding the values one by one yields: the first arrivals, ascending, led by the greatest ranks. It is refused exactly when the values or the frame stack cannot be sized. |
| `SquareRoot.IntegerSquareRoot` | src/C/FingerTree/src/incremental_ancestor.c:175-193 | The bit-by-bit loop returns the exact floor root of every 64-bit word; no addition wraps. |
| `SquareRoot.TryBit` | src/C/FingerTree/src/incremental_ancestor.c:175-193 | One trial of the loop, taken or not, halves the uncertainty of the root. |
| `SkewBinary.CanonicalIsUnique` | src/C/FingerTree/src/incremental_ancestor.c:349-414 | Every number has exactly one canonical skew-binary form. |
| `SkewBinary.HopBound` | src/C/FingerTree/src/incremental_ancestor.c:442-480 | A walk of any length from level n takes at most 3 * floor(log2(n + 1)) hops. |
| `AncestorLinks.ChainIsCanonical` | src/C/FingerTree/src/incremental_ancestor.c:349-414 | In every reachable arena the jump chain of a node is the canonical skew-binary form of depth + 1. |
| `AncestorLinks.JumpIsAncestor` | src/C/FingerTree/src/incremental_ancestor.c:349-414 | Every jump link is the true ancestor skip_distance levels up. |
| `AncestorLinks.QueryBound` | src/C/FingerTree/src/incremental_ancestor.c:442-480 | Any query from a node takes at most 3 * floor(log2(depth + 2)) hops. |
| `AncestorLinks.LeafStaysLinked` | src/C/FingerTree/src/incremental_ancestor.c:349-414 | Adding a leaf keeps every link rule and every published record. |
| `MyersArena.OneAddress` | src/C/FingerTree/src/incremental_ancestor.c:241-247 | No two slots of the odd blocks hold the same node. |
| `MyersArena.Arena.constructor` | src/C/FingerTree/src/incremental_ancestor.c:661-708 | A new arena holds just the bottom node at depth -1. |
| `MyersArena.Arena.ReadSlot` | src/C/FingerTree/src/incremental_ancestor.c:241-247 | Addressing by square root reads exactly the published record. |
| `MyersArena.Arena.GrowDirectory` | src/C/FingerTree/src/incremental_ancestor.c:252-310 | Doubling the directory moves no block and never reaches an overflow exit. |
| `MyersArena.Arena.Reserve` | src/C/FingerTree/src/incremental_ancestor.c:252-310 | Room for the next record is made without moving any published block. |
| `MyersArena.Arena.AddLeaf` | src/C/FingerTree/src/incremental_ancestor.c:349-414 | A leaf is appended with the right links, or refused exactly for an unknown parent, a full depth or a full arena; the jump length cannot overflow. |
| `MyersArena.Arena.Walk` | src/C/FingerTree/src/incremental_ancestor.c:442-480 | The query loop reaches the node that repeated parent steps reach, in exactly the hops of the greedy walk, within the hop bound. |
| `MyersArena.Arena.AncestorAtDepth` | src/C/FingerTree/src/incremental_ancestor.c:442-480 | The ancestor query answers exactly the depths from -1 to the node's own, and adds its hops to the last, total and maximum counters. |
| `AncestralLabels.LabelsSlice` | src/C/FingerTree/src/bilateral_ancestral_deque.c:299-455 | A window of a path is the path of an ancestor, cut to length. |
| `AncestralLabels.LabelsAreStable` | src/C/FingerTree/src/incremental_ancestor.c:349-414 | Later leaves never change what an older path denotes. |
| `AncestralLabels.GrowthKeepsPaths` | src/C/FingerTree/src/incremental_ancestor.c:349-414 | However any branches interleave their additions, links stay right and published paths keep their values. |
| `SliceQueue.HandleIsStable` | src/C/FingerTree/src/ancestral_slice_queue.c:402-433 | A queue handle keeps its contents while other branches grow the arena. |
| `SliceQueue.NodeAt` | src/C/FingerTree/src/ancestral_slice_queue.c:105-125 | The node of an index holds that element of the contents; at most one query. |
| `SliceQueue.AddLast` | src/C/FingerTree/src/ancestral_slice_queue.c:402-433 | Appending appends, and reports overflow exactly when the arena has no room for the leaf or its depth. |
| `SliceQueue.RemoveFirst` | src/C/FingerTree/src/ancestral_slice_queue.c:435-464 | Removing the first value drops it; overflow exactly when the last value sits at the deepest level. |
| `SliceQueue.RemoveLast` | src/C/FingerTree/src/ancestral_slice_queue.c:466-495 | Removing the last value drops it. |
| `SliceQueue.Drop` | src/C/FingerTree/src/ancestral_slice_queue.c:609-642 | Dropping a prefix, with its exact error cases. |
| `SliceQueue.Slice` | src/C/FingerTree/src/ancestral_slice_queue.c:644-702 | Any window, by at most one query, with its exact error cases. |
| `SliceQueue.SplitAt` | src/C/FingerTree/src/ancestral_slice_queue.c:704-740 | Splitting gives the two halves of the contents by at most one query, with its exact error cases. |
| `BilateralDeque.RemoveTail` | src/C/FingerTree/src/bilateral_ancestral_deque.c:242-257 | Dropping the newest value of an arm without a query. |
| `BilateralDeque.RemoveBase` | src/C/FingerTree/src/bilateral_ancestral_deque.c:261-295 | Dropping the oldest value of an arm by at most one query; overflow exactly for an arm of PTRDIFF_MAX + 1 values. |
| `BilateralDeque.SliceLeft` | src/C/FingerTree/src/bilateral_ancestral_deque.c:299-377 | A window of the reversed arm; a query only for an end that is not cached; overflow exactly for a proper window of an arm of PTRDIFF_MAX + 1 values. |
| `BilateralDeque.SliceRight` | src/C/FingerTree/src/bilateral_ancestral_deque.c:381-455 | A window of the forward arm; a query only for an end that is not cached; overflow exactly for a proper suffix whose tail is at depth PTRDIFF_MAX. |
| `BilateralDeque.NodeAt` | src/C/FingerTree/src/bilateral_ancestral_deque.c:470-518 | The node of an index holds that element; at most one query and no error. |
| `BilateralDeque.HandleIsStable` | src/C/FingerTree/src/bilateral_ancestral_deque.c:221-239 | A deque handle keeps its contents while other branches grow the arena. |
| `BilateralDeque.PushFront` | src/C/FingerTree/src/bilateral_ancestral_deque.c:765-796 | Pushing at the front prepends, with its exact error cases. |
| `BilateralDeque.PushBack` | src/C/FingerTree/src/bilateral_ancestral_deque.c:798-827 | Pushing at the back appends, with its exact error cases. |
| `BilateralDeque.RemoveFirst` | src/C/FingerTree/src/bilateral_ancestral_deque.c:830-899 | Removing the first value drops it by at most one query, with its exact error cases. |
| `BilateralDeque.RemoveLast` | src/C/FingerTree/src/bilateral_ancestral_deque.c:856-920 | Removing the last value drops it by at most one query, with its exact error cases. |
| `BilateralDeque.Slice` | src/C/FingerTree/src/bilateral_ancestral_deque.c:996-1052 | Any window of the contents by at most two queries, with its exact error cases. |
| `BilateralDeque.SplitAt` | src/C/FingerTree/src/bilateral_ancestral_deque.c:1122-1151 | Both halves of the contents by at most two queries together, with its exact error cases. |
| `BilateralDeque.Reverse` | src/C/FingerTree/src/bilateral_ancestral_deque.c:1153-1174 | Swapping the arms reverses the contents. |
| `WeightBalanced.InnerIsNode` | src/C/FingerTree/src/persistent_run_delta_vector.c:317-453 | A double rotation never meets an empty inner subtree. |
| `WeightBalanced.BalanceIsBalanced` | src/C/FingerTree/src/persistent_delta_map.c:367-452 | One rotation, single or double, restores the (3, 2) size balance after one insertion or deletion. |
| `WeightBalanced.BalancedMeans` | src/C/FingerTree/src/persistent_delta_map.c:367-452 | Balanced says of every node that its subtrees hold at most one entry together or differ at most by the factor 3. |
| `WeightBalanced.HeightIsLogarithmic` | src/C/FingerTree/src/persistent_delta_map.c:367-452 | A balanced tree of n entries and height h satisfies (4 / 3)^h <= n + 1. |
| `WeightBalanced.BalanceFlat` | src/C/FingerTree/src/persistent_delta_map.c:367-452 | Balancing keeps the entries in order. |
| `WeightBalanced.Set` | src/C/FingerTree/src/persistent_delta_map.c:584-625 | Setting keeps the balance at every node and adds at most one entry. |
| `WeightBalanced.DeleteLeast` | src/C/FingerTree/src/persistent_delta_map.c:627-649 | Deleting the least entry keeps the balance. |
| `WeightBalanced.DeleteGreatest` | src/C/FingerTree/src/persistent_run_delta_vector.c:526-552 | Deleting the greatest entry keeps the balance. |
| `WeightBalanced.Glue` | src/C/FingerTree/src/persistent_run_delta_vector.c:583-619 | Gluing the subtrees of a removed node keeps the balance, whether it takes from the larger side or always from the right. |
| `WeightBalanced.GlueFlat` | src/C/FingerTree/src/persistent_delta_map.c:651-681 | Gluing keeps the entries in order. |
| `WeightBalanced.Remove` | src/C/FingerTree/src/persistent_delta_map.c:683-724 | Removing keeps the balance at every node and drops at most one entry. |
| `OrderedIndex.EditCut` | src/C/FingerTree/src/persistent_delta_map.c:584-724 | Setting replaces the one tied entry or adds one, removing drops it, and all other entries stay in order. |
| `OrderedIndex.FindLoop` | src/C/FingerTree/src/persistent_delta_map.c:456-477 | The search loop is the recursive search. |
| `OrderedIndex.FindFacts` | src/C/FingerTree/src/persistent_delta_map.c:456-477 | A search finds an entry exactly when it is the tree's entry of the key's class. |
| `OrderedIndex.FindAfterSet` | src/C/FingerTree/src/persistent_delta_map.c:584-625 | A set is seen by its own class and by no other. |
| `OrderedIndex.FindAfterRemove` | src/C/FingerTree/src/persistent_delta_map.c:683-724 | A removal is seen by its own class and by no other. |
| `RangeWalk.VisitRangeIsExact` | src/C/FingerTree/src/persistent_delta_map.c:760-830 | The pruned walk visits exactly the in-range entries in ascending order. |
| `RangeWalk.VisitRangeIsCheap` | src/C/FingerTree/src/persistent_delta_map.c:760-830 | Including the check of the bounds it makes at most 2 * height + 1 key comparisons, and the height is logarithmic. |
| `RangeWalk.VisitRangeListsAll` | src/C/FingerTree/src/persistent_delta_map.c:760-830 | The listed comparisons are all there are: any comparison that answers them alike leads to the same walk. |
| `DeltaMap.SetItemIsExact` | src/C/FingerTree/src/persistent_delta_map.c:1742-1855 | A write keeps the change index exact and is read back, modulo value equality, by its own class only. |
| `DeltaMap.SetItemStores` | src/C/FingerTree/src/persistent_delta_map.c:1742-1855 | A write of an equal value changes nothing; any other stores the supplied value unless the index empties. A present class keeps its stored key, an absent one takes the key of its record, else the supplied key. |
| `DeltaMap.RemoveItemIsExact` | src/C/FingerTree/src/persistent_delta_map.c:1887-1942 | A removal keeps the change index exact and is seen by its own class only. |
| `DeltaMap.AdoptIsExact` | src/C/FingerTree/src/persistent_delta_map.c:1722-1740 | Snapping back to the checkpoint root when the index empties keeps it exact. |
| `DeltaMap.RootsAreExact` | src/C/FingerTree/src/persistent_delta_map.c:1949-1989 | Checkpoint and rollback start from an exact empty index. |
| `DeltaMap.RunRefinesReplay` | src/C/FingerTree/src/persistent_delta_map.c:1722-1989 | After every run, current and checkpoint agree with replaying the run, modulo value equality. |
| `DeltaMap.ChangesAreTheDifference` | src/C/FingerTree/src/persistent_delta_map.c:1722-1989 | After every run the change index holds exactly the keys whose checkpoint and current values differ, with matching endpoints; an empty index means the same root; a checkpointed class keeps its representative. |
| `DeltaMap.RunKeepsKeys` | src/C/FingerTree/src/persistent_delta_map.c:1783-1786 | After every run each class is stored, now and at the checkpoint, under the key of the replay: the first key of its episode, or the checkpoint's. |
| `DeltaMap.SetItemStrict` | src/C/FingerTree/src/persistent_delta_map.c:1742-1855 | A class that holds or records the checkpoint's own value still does after a write exactly when the write does not cancel that class's record with an equal but different value while other records remain. |
| `DeltaMap.RemoveItemStrict` | src/C/FingerTree/src/persistent_delta_map.c:1887-1942 | A removal never makes a class lose the checkpoint's own value. |
| `DeltaMap.StepStrict` | src/C/FingerTree/src/persistent_delta_map.c:1722-1989 | One operation on a map without drift leaves one without drift exactly when it is not such a write. |
| `DeltaMap.RunIsStrict` | src/C/FingerTree/src/persistent_delta_map.c:1722-1989 | Along any run, every version holds and records the checkpoint's own values exactly when no write of the run drifts. |
| `DeltaMap.CancelledValueDrifts` | src/C/FingerTree/src/persistent_delta_map.c:1742-1855 | A concrete run in which a cancelled change leaves an equal but different value behind, so endpoints are exact only modulo equality. |
| `DirtyRuns.RunsAreUnique` | src/C/FingerTree/src/persistent_run_delta_vector.c:779-865 | A list of gapped runs is determined by the positions it covers. |
| `DirtyRuns.MarkedFacts` | src/C/FingerTree/src/persistent_run_delta_vector.c:782-820 | Marking a clean position merges, extends or starts a run, covers just that position more, and adds one to the total. |
| `DirtyRuns.ClearedFacts` | src/C/FingerTree/src/persistent_run_delta_vector.c:824-865 | Clearing a position deletes, shrinks or splits its run and uncovers just that position. |
| `RunIndex.FloorLoop` | src/C/FingerTree/src/persistent_run_delta_vector.c:668-682 | The floor loop is the recursive search. |
| `RunIndex.CeilingLoop` | src/C/FingerTree/src/persistent_run_delta_vector.c:685-699 | The ceiling loop is the recursive search. |
| `RunIndex.SearchFacts` | src/C/FingerTree/src/persistent_run_delta_vector.c:668-699 | Floor and ceiling are the neighbours of the key in the ordered list. |
| `RunIndex.ContainingFacts` | src/C/FingerTree/src/persistent_run_delta_vector.c:721-727 | The containing run is found exactly when the position is covered. |
| `RunIndex.AddDirtyFacts` | src/C/FingerTree/src/persistent_run_delta_vector.c:782-820 | The tree edits for a newly dirty position keep balance, order and maximality. |
| `RunIndex.RemoveDirtyFacts` | src/C/FingerTree/src/persistent_run_delta_vector.c:824-865 | The tree edits for a cleaned position always find its run and keep balance, order and maximality. |
| `RunIndex.NodeAtFacts` | src/C/FingerTree/src/persistent_run_delta_vector.c:702-718 | Selection by rank returns the run at that place of the ordered list. |
| `RunIndex.DropRunFacts` | src/C/FingerTree/src/persistent_run_delta_vector.c:622-665 | Dropping a run uncovers exactly its positions. |
| `RunDeltaVector.NextRunsFacts` | src/C/FingerTree/src/persistent_run_delta_vector.c:1474-1525 | Settling one position's dirtiness never reports an inconsistency and leaves an exact index. |
| `RunDeltaVector.SetCellIsExact` | src/C/FingerTree/src/persistent_run_delta_vector.c:1527-1582 | A write equal to the current value changes nothing; one equal to the checkpoint puts its cell back; any other puts a new cell. Only that position changes, and the index stays exact. |
| `RunDeltaVector.ResetIsExact` | src/C/FingerTree/src/persistent_run_delta_vector.c:1584-1623 | A reset restores the checkpoint cell of one position and keeps the index exact. |
| `RunDeltaVector.SpliceAt` | src/C/FingerTree/src/persistent_run_delta_vector.c:982-1038 | Splicing a run takes exactly its positions from the source. |
| `RunDeltaVector.AcceptIsExact` | src/C/FingerTree/src/persistent_run_delta_vector.c:1657-1694 | Accepting a run copies exactly that run into the checkpoint and keeps the index exact. |
| `RunDeltaVector.RevertIsExact` | src/C/FingerTree/src/persistent_run_delta_vector.c:1698-1735 | Reverting a run copies exactly that run back into current and keeps the index exact. |
| `RunDeltaVector.VersionsAreExact` | src/C/FingerTree/src/persistent_run_delta_vector.c:1629-1653 | Checkpoint and rollback share one clean root. |
| `RunDeltaVector.RunsAreTheDifference` | src/C/FingerTree/src/persistent_run_delta_vector.c:779-865 | An exact index is the one ordered list of maximal runs where the versions differ. |
| `RunDeltaVector.EveryRunIsExact` | src/C/FingerTree/src/persistent_run_delta_vector.c:1472-1735 | After every run of operations the index is that list, the dirty count its total length, and every clean position shares its checkpoint cell. |
| `RunDeltaReplay.ScanLists` | src/C/FingerTree/src/persistent_run_delta_vector.c:1472-1735 | A scan over all positions lists the maximal runs of differing positions and counts them. |
| `RunDeltaReplay.StepRefines` | src/C/FingerTree/src/persistent_run_delta_vector.c:1472-1735 | Every operation does to the two versions what it does to a plain pair of cell sequences. |
| `RunDeltaReplay.RunRefinesScan` | src/C/FingerTree/src/persistent_run_delta_vector.c:1472-1735 | After every run the vector holds the very cells of the plain pair, its index is the list a scan finds, and its dirty count the number of differing positions. |
| `PsqTree.BalanceIsSound` | src/C/FingerTree/src/priority_search_queue.c:575-643 | A rotation restores the height balance after one insertion or deletion and keeps every cached field. |
| `PsqTree.BalanceInOrder` | src/C/FingerTree/src/priority_search_queue.c:575-643 | Balancing keeps the entries in key order. |
| `PsqTree.CachedSizes` | src/C/FingerTree/src/priority_search_queue.c:532-573 | The cached count and height are those of the tree. |
| `PsqTree.HeightIsLogarithmic` | src/C/FingerTree/src/priority_search_queue.c:575-643 | A balanced tree of n entries and height h satisfies 2^(h / 2) <= n + 1. |
| `PsqTree.WinnerIsFirst` | src/C/FingerTree/src/priority_search_queue.c:500-530 | The cached winner has the least priority of its subtree and, among those that tie, the least key. |
| `PrioritySearchQueue.SetTree` | src/C/FingerTree/src/priority_search_queue.c:689-821 | Setting keeps the cached fields and the height balance and grows the height by at most one. |
| `PrioritySearchQueue.DeleteMin` | src/C/FingerTree/src/priority_search_queue.c:823-848 | Taking out the least key keeps the balance and shrinks the height by at most one. |
| `PrioritySearchQueue.RemoveTree` | src/C/FingerTree/src/priority_search_queue.c:850-928 | Removing keeps the balance and shrinks the height by at most one. |
| `PrioritySearchQueue.EditsRefineList` | src/C/FingerTree/src/priority_search_queue.c:689-928 | Set, remove and lookup agree with a plain sorted list and keep key order. |
| `PrioritySearchQueue.EditsAreRead` | src/C/FingerTree/src/priority_search_queue.c:689-928 | A set is read back by its own class, under the stored key, and by no other; a removal likewise. |
| `PsqEdits.UnwindPath` | src/C/FingerTree/src/priority_search_queue.c:662-687 | The unwinding loop rebalances every frame of the path. |
| `PsqEdits.SetNode` | src/C/FingerTree/src/priority_search_queue.c:689-821 | The set reports no change exactly when the key is present and either overwriting is off or the priorities compare 0 and both equalities hold, and then returns the root itself; otherwise the key reads the supplied priority and value. The path never overflows. |
| `PsqEdits.RemoveMinNode` | src/C/FingerTree/src/priority_search_queue.c:823-848 | The loop takes out the least key. |
| `PsqEdits.RemoveNode` | src/C/FingerTree/src/priority_search_queue.c:850-928 | The removal loop returns the removed entry and never exceeds its path. |
| `PsqEdits.RunAll` | src/C/FingerTree/src/priority_search_queue.c:689-928 | Any run holds exactly what the plain list holds, with the first entry by priority and key cached at the root, its count, and a logarithmic height. |
| `PsqQuery.QueryIsExact` | src/C/FingerTree/src/priority_search_queue.c:1570-1680 | Pruning by winners and bounds loses nothing: exactly the entries within all bounds, ascending. |
| `PsqQuery.PushIf` | src/C/FingerTree/src/priority_search_queue.c:1570-1680 | The capacity test in front of each push never fires. |
| `PsqQuery.VisitAtMost` | src/C/FingerTree/src/priority_search_queue.c:1570-1680 | The stack loop emits exactly those entries with at most 2 * height + 1 frames; reversed bounds are refused. |
| `ContextualMeasure.Combine` | src/C/FingerTree/src/contextual_rank_sequence.c:198-253 | Combining composes the state and saturating event tables and sets the flag exactly when an operand is flagged or an addition saturates. |
| `ContextualMeasure.FillIdentity` | src/C/FingerTree/src/contextual_rank_sequence.c:176-189 | The identity table. |
| `ContextualMeasure.ElementCreate` | src/C/FingerTree/src/contextual_rank_sequence.c:293-361 | An element is created exactly when the machine answers every state within its contract, with the full table; otherwise the first failing state decides the error. |
| `ContextualMeasure.CompositionIsAssociative` | src/C/FingerTree/src/contextual_rank_sequence.c:198-253 | Grouping does not change the saturated tables. |
| `ContextualMeasure.IdentityIsNeutral` | src/C/FingerTree/src/contextual_rank_sequence.c:176-189 | Composing with the identity changes nothing. |
| `ContextualRank.SummaryIsSaturatedRun` | src/C/FingerTree/src/contextual_rank_sequence.c:198-253 | However the elements are grouped, the root summary is the machine's run with totals cut off at INT64_MAX. |
| `ContextualRank.FlagIsBurst` | src/C/FingerTree/src/contextual_rank_sequence.c:198-253 | The flag is set exactly when some group of the tree exceeds from some state, reached or not. |
| `ContextualRank.ClearIsExact` | src/C/FingerTree/src/contextual_rank_sequence.c:418-441 | A clear flag makes every total, state and count exact. |
| `ContextualRank.PublishIsSafe` | src/C/FingerTree/src/contextual_rank_sequence.c:417-441 | A published version has a clear flag and no prefix total that exceeds INT64_MAX; a refused one holds a slice of at least two elements that exceeds. |
| `ContextualRank.FlagTellsExactly` | src/C/FingerTree/src/contextual_rank_sequence.c:198-253 | The flag says for every grouping whether the true totals exceed, exactly when every contiguous slice of at least two elements that exceeds makes the whole sequence exceed. |
| `ContextualRank.OntoFlagIsExact` | src/C/FingerTree/src/contextual_rank_sequence.c:198-253 | When every element permutes the states, the flag says exactly whether the true totals exceed. |
| `ContextualRank.GroupingsDisagree` | src/C/FingerTree/src/contextual_rank_sequence.c:198-253 | Two groupings of the same three elements with equal tables and different flags, though no start state overflows. |
| `ContextualRank.LocateFacts` | src/C/FingerTree/src/contextual_rank_sequence.c:965-966 | Locating finds the element at which the predicate first holds, with the summary of what precedes it. |
| `ContextualRank.SelectIsExact` | src/C/FingerTree/src/contextual_rank_sequence.c:921-991 | Event selection refuses a state out of range, succeeds exactly for existing events and returns the element and offset that agree with the event rank. |
| `ContextualRank.SelectionIsUnique` | src/C/FingerTree/src/contextual_rank_sequence.c:921-991 | Only one element can hold an event. |
| `ContextualRank.PrefixAnswerIsExact` | src/C/FingerTree/src/contextual_rank_sequence.c:856-900 | Prefix evaluation refuses a state or length out of range, and otherwise equals running the machine over that prefix. |

## Left out

- Reference counting, atomics, allocator callbacks, copy and destroy hooks, allocation failure and result aliasing: values are immutable and allocation succeeds.
- HMAC-SHA256 (section 2 of RFC 2104), random keys and the digest's bit mixing: the rank is any function that ties respect and the mix any function.
- The finger tree and RRB vector internals: the run-delta vector works on plain sequences of cells, and the contextual rank sequence on any binary grouping of its elements.
- Cached counts and heights of the canonical and weight-balanced trees are functions of the tree; the bulk build proves that it fills them in so, and the priority search queue stores them.
- The count-overflow exits of the priority search queue and the weight-balanced trees: their counts are unbounded here, as a tree of 2^64 - 1 nodes does not fit memory.
- Cursor families, floor, ceiling, lower and higher lookups of the delta map, visits, copies and statistics: position arithmetic on operations covered here.
- Set algebra (union, intersect, except, subset relations) of the canonical set and cross-policy equality: folds over the modelled operations.
- `persistent_interval_map.c`, `persistent_bi_map.c` and `persistent_chunked_bit_set.c`: facades over code that is not part of this model.
- BrodalOkasakiHeap.FromArray: models the tagless heap as the action heap over the trivial action, so its own array of spine pointers in get_minimum_tree is the action heap's list.
- WeightBalanced.Set: one tree serves the delta map and the run index, so the key comparison is a parameter and the two glue rules a flag.
- DeltaMap.ChangesAreTheDifference: endpoints are stated modulo value equality, because the exact statement is false; DeltaMap.RunIsStrict says exactly when they are the checkpoint's own values.
- ContextualMeasure.ElementCreate: the transition's event count is assumed to be at most INT64_MAX, as its C type makes it.
