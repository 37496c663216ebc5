# Fast-BVH flat hierarchy (ABVH) in Dafny

This project models the core of the Fast-BVH ray-tracing acceleration
structure, the class `ABVH`:

- **The flat node layout** (`ABVHFlatNode`, ABVH.h). Each node holds:
  - a box;
  - a primitive range `[start, start + nPrims)`;
  - `rightOffset`, which is 0 for a leaf and otherwise the distance to the right child (the left child is always the next node);
  - a cache of the node's most recent ray/box test.
- **The build** (`ABVH::build`). It is an explicit work stack of ranges:
  - pop a range and append its node;
  - let the node "touch" its parent, counting the parent's `rightOffset` down from the sentinel `0xffffffff` to `0xfffffffd`, then replacing it with the real offset;
  - for an internal node, partition the range in place about the middle of the centroid box's longest axis, then push the right half followed by the left half.
- **The ray query** (`ABVH::getIntersection`). It is an explicit stack of `(node, entry distance)`:
  - prune an entry beyond both the nearest hit and its `ft`;
  - scan a leaf's primitives (stopping at the first hit in occlusion mode);
  - at an internal node, refresh the children's cached box tests, clear the node's own cached hit when both children miss, and push the children that were hit, the nearer one last.

## Files

- **`geometry.dfy`** (module `Geometry`):
  - integer boxes, and primitives reduced to a box and a centroid;
  - `Hull` and `CentroidHull`, the left folds of `expandToInclude`;
  - the split test `centroid < .5 * (min + max)`, written as `2 * centroid < min + max`;
  - lemmas that the hull is the least enclosing box and ignores order, and that a degenerate partition happens only when all centroids coincide on the split axis.
- **`flat_tree.dfy`** (module `FlatTree`):
  - the node datatype and the sentinel constants;
  - `WellFormed`, the shape every built array has: nodes in pre-order, each child range splitting its parent's range, leaves tiling the primitive array, and the split rule (`SplitOk`: the left child's range holds exactly the centroids below the middle of the centroid box's longest axis, or, when all centroids coincide on that axis, the first half of the range);
  - the leaf test.
- **`build_invariant.dfy`** (module `BuildInvariant`):
  - `BuildInv`, the invariant of the build loop (stack ranges, node soundness, the pre-order chain, what each sentinel in `rightOffset` means, parent bookkeeping, laminarity of ranges, node/leaf counts, and the split rule for every internal node);
  - `BuildStep`, the lemma that one iteration keeps it;
  - `BuildInvDone`: when the stack empties, the array is `WellFormed` and has `2 * nLeafs - 1` nodes.
- **`traversal.dfy`** (module `Traversal`):
  - the pure rules of one query step: `LeafScan`, the cache `Refresh` and `ChildEntries`;
  - `Walk`, the query loop's invariant;
  - a decreasing measure (the total subtree size of the stack);
  - the reference query: `QueryStep`, one pass of the loop as a function of the query's state, and `Query`, which repeats it until the query ends; `QueryAnswers` proves what the reference query returns.
- **`hierarchy.dfy`** (module `Hierarchy`):
  - the class `ABVH`, with the counters `nNodes` and `nLeafs`, the caller's primitive array `buildPrims` (reordered in place by the build) and the node array `flatTree`;
  - the build as imperative methods with loops;
  - the query as a method that writes the cache fields of `flatTree` in place, proved to compute the reference query `Query`.

### Abstractions

- **Box and primitive tests.** The ray/box slab test and the primitive intersection are oracles, passed as function parameters:
  - `boxTest: BBox -> BoxHit`;
  - `primTest: Prim -> PrimHit`.
- **Objects.** A primitive carries the object's identity (`id`, standing for the `Object*`) with its box and centroid. The primitive test may answer differently for two objects with the same box and centroid. A primitive reached by a query is named by its index in the (reordered) primitive array.
- **Incoming `ft`.** `intersection->ft` on entry is the parameter `ft0`.
- **Distances** are `real`.
- **Coordinates** are integers, and the split coordinate `.5f * (min + max)` is the exact midpoint (see "## Left out").

### Behaviour of the code a reader may not expect

- **Which children are re-tested.** A child is re-tested when it is a leaf or its cached hit is false. Internal children with a cached hit are trusted. The code (ABVH.cpp:71-72) re-tests leaves every time.
- **The secondary re-test.** Only the left child is ever re-tested a second time. The right child's second re-test (ABVH.cpp:80, 83-84) can never fire: its condition needs `ur` both false and true. `Hierarchy.ABVH.RefreshChildren` shows this with `assert false` in that branch.
- **`ft` in the prune test.** The `ft` used in the prune test is the `tfar` of the leaf that produced the current nearest hit, or the caller's `ft0` before any hit. It is not the `tfar` of the last leaf visited.
- **`leafSize == 0`.** The code's leaf test does not make `leafSize == 0` mean one primitive per leaf. The build never ends in that case (see Findings).

## Model

| member | source | states |
|---|---|---|
| Geometry.MaxDimension | ABVH.cpp:218 | the split axis has the largest extent of the centroid box, and every lower axis is strictly shorter (ties go to the lower axis) |
| Geometry.HullContains | ABVH.cpp:184-190 | every primitive's box of the range lies inside the node's box |
| Geometry.HullLeast | ABVH.cpp:184-190 | the node's box lies inside every box that holds all boxes of the range |
| Geometry.HullPermutation | ABVH.cpp:224-230 | reordering a range keeps its box |
| Geometry.CentroidHullContains | ABVH.cpp:185-188 | every centroid of the range lies inside the centroid box |
| Geometry.CentroidHullAttained | ABVH.cpp:185-188 | both ends of the centroid box on every axis are reached by some centroid |
| Geometry.CentroidHullLeast | ABVH.cpp:185-188 | the centroid box lies inside every box that holds all centroids of the range |
| Geometry.CentroidHullPermutation | ABVH.cpp:224-230 | reordering a range keeps its centroid box |
| Geometry.CoincidentNoneBelow | ABVH.cpp:221-235 | when the centroid box has no extent on an axis, no centroid is below its middle there, so the partition puts everything on the right |
| Geometry.DegenerateSplitMeansCoincident | ABVH.cpp:221-235 | with integer coordinates and the exact midpoint, a partition with one side empty happens only when every centroid has the same coordinate on the split axis |
| FlatTree.LeafTestAgrees | ABVH.cpp:194 | for `leafSize >= 1` the model's leaf test is the code's; a range it refuses to make a leaf has at least two primitives |
| FlatTree.SplitIndex | ABVH.cpp:232-235 | for a range of two or more, the split leaves both halves non-empty and keeps the partition's split when that one is proper |
| BuildInvariant.ZeroLeafSizeRepeatsRange | ABVH.cpp:194-247 | with `leafSize == 0` the node over a one-primitive range is made internal and split at its start, so the items pushed are the empty range and, beneath it, that same one-primitive range again |
| FlatTree.WellFormedIgnoresCache | ABVH.h:12-19 | the tree shape depends only on box, range and offset, not on the cache fields the query writes |
| FlatTree.SplitsIgnoreCache | ABVH.h:12-19 | the split rule of every internal node depends only on the node shapes, not on the cache fields |
| FlatTree.LeavesTile | ABVH.cpp:171-248 | in a built array every node starts where the leaves before it end, and the leaves together cover exactly all primitives |
| BuildInvariant.PermutedRangeSwap | ABVH.cpp:227 | swapping two primitives inside the range keeps the array equal outside it and a permutation inside it |
| BuildInvariant.PermutedRangeWhole | ABVH.cpp:224-230 | reordering one range reorders the whole array |
| BuildInvariant.BuildInvInit | ABVH.cpp:161-169 | the root's item `[0, N)` with the "no parent" marker `0xfffffffc` and no nodes satisfy the loop invariant |
| BuildInvariant.PopReady | ABVH.cpp:173-176 | the popped item is a non-empty range, its parent is an existing node or the marker, and one more node still fits below `2N - 1` |
| BuildInvariant.PoppedBound | ABVH.cpp:178 | the node count never exceeds `2N - 1`, so no index reaches the sentinels |
| BuildInvariant.BuildStep | ABVH.cpp:171-248 | one iteration (pop, append, touch parent, partition, push halves) keeps the whole loop invariant and the node bound |
| BuildInvariant.StepEntries | ABVH.cpp:237-247 | after the push the stack's ranges stay non-empty, adjacent, ordered right to left and ending at `N`, with existing parents |
| BuildInvariant.EntriesSplit | ABVH.cpp:237-247 | replacing the top range by its right half and then its left half keeps the stack ordered and adjacent |
| BuildInvariant.SplitOrdered | ABVH.cpp:237-247 | the two halves continue the stack's sequence of adjacent ranges, ordered right to left |
| BuildInvariant.StepNodes | ABVH.cpp:178-230 | after the node is appended and its range partitioned, every node still has its range's hull as box and the right leaf status |
| BuildInvariant.HullKept | ABVH.cpp:224-230 | partitioning a range keeps the box of every node whose range contains it or is disjoint from it |
| BuildInvariant.StepChain | ABVH.cpp:199 | nodes stay in pre-order: each starts where its predecessor's leaf range ends or where its parent starts |
| BuildInvariant.StepOffsets | ABVH.cpp:201-211 | every `rightOffset` stays 0, `Untouched` on the newest internal node, `Untouched - 1` on a node with its left child done, or a real offset whose children split the range |
| BuildInvariant.TouchedParentOffset | ABVH.cpp:203-211 | the second touch writes the offset of the node just appended, whose range is the right half of the parent's |
| BuildInvariant.StepParents | ABVH.cpp:201-247 | every pending range's parent is still waiting for it, and only the top two items share a parent |
| BuildInvariant.StepLaminar | ABVH.cpp:224-247 | every pending range lies inside or apart from every node's range |
| BuildInvariant.StepCounts | ABVH.cpp:178-197 | `nLeafs` counts the leaves, `2 * (nodes - leaves) + 1 == nodes + pending`, and nodes plus pending weight stay within `2N - 1` |
| BuildInvariant.WeightNext | ABVH.cpp:213-247 | popping a leaf's range or splitting an internal node's range changes the stack's weight by the stated amount |
| BuildInvariant.RangeKept | ABVH.cpp:224-230 | after a range is partitioned, a range containing it holds the same multiset of primitives and a range apart from it is unchanged |
| BuildInvariant.BelowKept | ABVH.cpp:224-230 | reordering a range keeps "every centroid of the range is below (or not below) the split" |
| BuildInvariant.SplitKept | ABVH.cpp:224-230 | a later partition of a range inside one half of an earlier split, or apart from it, keeps that earlier split correct |
| BuildInvariant.NestedSplitKept | ABVH.cpp:224-247 | the same for an older node, given that the partitioned range lies inside one of its halves or apart from it |
| BuildInvariant.OldSplitKept | ABVH.cpp:224-247 | every internal node created earlier still satisfies the split rule after the newest range is partitioned |
| BuildInvariant.PartitionSplits | ABVH.cpp:217-235 | the partition about the middle of the centroid box's longest axis, with the middle-index fallback, meets the split rule |
| BuildInvariant.PartitionCoincident | ABVH.cpp:221-235 | when all centroids coincide on the axis the partition point is the range's start, so the fallback applies |
| BuildInvariant.PartitionNonEmpty | ABVH.cpp:221-235 | with integer coordinates and the exact midpoint, when the centroids have extent on the axis both sides of the partition are non-empty, so the partition point is used |
| BuildInvariant.StepSplits | ABVH.cpp:171-247 | one iteration keeps the split rule for every internal node, the newest one's split being the top of the stack |
| BuildInvariant.LeafCountAppend | ABVH.cpp:194-199 | appending a node adds one leaf exactly when it is a leaf |
| BuildInvariant.BuildInvDone | ABVH.cpp:171-248 | with the stack empty the array is well formed and has `2 * nLeafs - 1` nodes |
| Traversal.Closer | ABVH.cpp:54-63 | the result changes exactly when the primitive is hit strictly nearer than the current result, and then becomes that hit with the leaf's `tfar` |
| Traversal.LeafScan | ABVH.cpp:47-64 | the scan's result is never farther than before, is no farther than any hit in the leaf, and is either unchanged or a strictly closer hit of the leaf with `ft` the leaf's `tfar` |
| Traversal.LeafScanNoHit | ABVH.cpp:54 | a leaf with no hit leaves the result unchanged |
| Traversal.LeafScanKeepsFirst | ABVH.cpp:61-63 | among equally near hits the first one in the leaf is kept |
| Traversal.NearestLeafStep | ABVH.cpp:46-64 | after a leaf scan the result is the nearest hit over all primitives reached so far, or the initial result when none was hit |
| Traversal.Refresh | ABVH.cpp:71-84 | children keep their shape; the right child is re-tested exactly when it is a leaf or its cached hit is false; the left child is re-tested exactly when it is a leaf, its cached hit is false, or the right child was re-tested and its hit changed; a child left as a miss truly misses |
| Traversal.InternalVisit | ABVH.cpp:66-113 | visiting an internal node changes only the node and its two children: the children become their refresh, the node's hit is cleared exactly when both children miss, and the pushed entries are those of the children hit |
| Traversal.CoherentCacheIsFresh | ABVH.cpp:71-84 | when every cached hit agrees with a fresh test, the refresh equals testing both children afresh |
| Traversal.ChildEntries | ABVH.cpp:89-113 | exactly the children hit are pushed with their near distance; with two, the nearer is on top and ties keep the left child on top |
| Traversal.PushWeight | ABVH.cpp:105-112 | replacing a node's entry by entries for some of its children lowers the total subtree size of the stack |
| Traversal.InternalWeight | ABVH.cpp:67-113 | visiting an internal node lowers the stack's total subtree size (the query ends) |
| Traversal.CoverSkip | ABVH.cpp:42-43 | the primitives under a pruned entry are accounted for by that entry, recorded with the `ft` of the moment |
| Traversal.CoverInternal | ABVH.cpp:89-113 | every primitive under an internal node is under a pushed child or under a child whose box test missed |
| Traversal.WalkInit | ABVH.cpp:22-32 | the query starts with the root on the stack covering every primitive, and nothing found |
| Traversal.WalkSkip | ABVH.cpp:42-43 | pruning an entry whose distance exceeds both the nearest hit and the current `ft` keeps the loop invariant, with the entry recorded with that `ft`, and lowers the measure |
| Traversal.WalkLeaf | ABVH.cpp:46-64 | visiting a leaf keeps the loop invariant, with its primitives now reached, and lowers the measure |
| Traversal.WalkInternal | ABVH.cpp:67-113 | visiting an internal node keeps the loop invariant, with missed children recorded, and lowers the measure |
| Traversal.MissedKept | ABVH.cpp:71-84 | a child recorded as missed fails a fresh box test |
| Traversal.QueryStep | ABVH.cpp:35-114 | the reference pass: an empty stack ends the query; a pass that continues leaves a state the query can run from, with a strictly smaller total subtree size on the stack, so `Query` terminates |
| Traversal.StepSkip | ABVH.cpp:42-43 | a pruned entry is popped and recorded with the current `ft`; array, result and other records are unchanged |
| Traversal.StepLeaf | ABVH.cpp:46-64 | a leaf's primitives become reached; an occlusion query ends exactly when one of them is hit; otherwise the pass continues with the leaf scan (nearest mode) and the leaf popped |
| Traversal.StepInternal | ABVH.cpp:66-113 | an internal node's pass continues with the array and pushed entries of `InternalVisit` and the children whose refresh missed added to the missed set |
| Traversal.PassIsStep | ABVH.cpp:35-114 | a pass described case by case (prune, leaf scan, internal visit) is exactly one `QueryStep`, ending the query on an occlusion hit |
| Traversal.StepSound | ABVH.cpp:35-114 | one pass from a state meeting the loop invariant either keeps the invariant or ends with an answer meeting the query's promise |
| Traversal.QuerySound | ABVH.cpp:35-114 | from any state meeting the loop invariant, `Query` returns an answer meeting the query's promise (induction on the stack's subtree size) |
| Traversal.QueryAnswers | ABVH.cpp:21-122 | on a well-formed tree, `Query` from the start state (root pushed at `-9999999`, result at `999999999` and `ft0`) returns true exactly when a reached primitive is hit, the nearest reached hit, and every primitive reached, under a missed box or under a dropped entry |
| Hierarchy.ABVH.constructor | ABVH.cpp:128-138 | the object holds the caller's array and leaf size, is a valid built hierarchy (including the split rule at every internal node), and the array is only reordered |
| Hierarchy.ABVH.RangeBounds | ABVH.cpp:184-189 | the loop computes the box and the centroid box of the range |
| Hierarchy.ABVH.Partition | ABVH.cpp:224-230 | primitives below the split end up before `mid` and the rest from `mid` on, the range is a permutation of before, and nothing outside it moves |
| Hierarchy.ABVH.Swap | ABVH.cpp:227 | the two primitives trade places and nothing else changes |
| Hierarchy.ABVH.AddNode | ABVH.cpp:173-211 | pops the top item, appends the node built for its range, touches its parent, and counts a node and possibly a leaf |
| Hierarchy.ABVH.SplitRange | ABVH.cpp:217-235 | the split axis is the centroid box's longest, the partition is correct, the split used is the partition's or the middle fallback, strictly inside the range, and the reordered range meets the split rule |
| Hierarchy.ABVH.BuildIteration | ABVH.cpp:171-248 | one iteration adds the node built for the popped range and touches its parent; after a leaf the stack is the rest, after an internal node the right then the left half are pushed and the split rule holds; the loop invariant is kept and the primitives are only reordered |
| Hierarchy.ABVH.Subdivide | ABVH.cpp:194-247 | a leaf pushes nothing and moves nothing; an internal node's range is split by the split rule and its two halves are pushed; the loop invariant is kept |
| Hierarchy.ABVH.LeafAdded | ABVH.cpp:213-215 | after a leaf nothing is pushed and the invariant holds for the rest of the stack |
| Hierarchy.ABVH.PushHalves | ABVH.cpp:217-247 | the stack becomes the rest with the right half and then the left half pushed, the split meets the split rule, and the invariant is kept |
| Hierarchy.ABVH.CopyNodes | ABVH.cpp:250-253 | the flat array is fresh and equal to the built nodes |
| Hierarchy.ABVH.Build | ABVH.cpp:155-254 | the result is a valid hierarchy (well formed, with the split rule at every internal node, `2 * nLeafs - 1` nodes) over a permutation of the primitives |
| Hierarchy.ABVH.IntersectLeaf | ABVH.cpp:46-64 | in occlusion mode it stops exactly when some primitive of the leaf is hit, result untouched; otherwise the result is the leaf scan |
| Hierarchy.ABVH.RefreshChildren | ABVH.cpp:71-84 | the two children's caches become `Refresh` of their old values and nothing else in the array changes |
| Hierarchy.ABVH.VisitInternal | ABVH.cpp:66-113 | children refreshed, the node's own hit cleared exactly when both children miss, and the hit children pushed: the array and the stack are `InternalVisit` of the old array |
| Hierarchy.ABVH.LeafStep | ABVH.cpp:46-64 | the leaf's primitives become reached; an occlusion exit happens exactly when one of them is hit; otherwise the result is the leaf scan with the leaf's cached `tfar`; the loop invariant holds with the leaf popped |
| Hierarchy.ABVH.InternalStep | ABVH.cpp:67-113 | the array and the stack become `InternalVisit` of the old array with the node popped, the node shapes are unchanged, and the loop invariant holds with the children pushed or recorded as missed |
| Hierarchy.ABVH.Visit | ABVH.cpp:35-114 | an entry farther than both the nearest hit and `ft` is dropped and nothing else changes; otherwise a leaf is scanned or an internal node visited as stated by `LeafStep` and `InternalVisit`; the loop invariant is kept and the measure lowered, or an occlusion query ends on a real hit |
| Hierarchy.ABVH.Pass | ABVH.cpp:35-114 | one pass of the loop changes the array, the stack, the result and the records exactly as one `QueryStep`, and ends the query only on an occlusion hit |
| Hierarchy.ABVH.Traverse | ABVH.cpp:23-114 | the loop ends with the array, the result and the records that `Query` computes from the start state |
| Hierarchy.ABVH.ValidAfterQuery | ABVH.cpp:68-89 | a query changes only cache fields, so the hierarchy stays valid |
| Hierarchy.ABVH.GetIntersection | ABVH.cpp:21-122 | the returned flag and result, the new cache array and the records are exactly those of the reference query `Query` from the start state; it returns true exactly when a reached primitive is hit (nearer than `999999999` unless in occlusion mode); the result is the nearest reached hit; every primitive is reached, under a missed box, or under an entry whose recorded distance exceeds the result and the `ft` at the moment it was dropped; the tree keeps its shape |

## Left out

- **Ray/box slab test and primitive intersection.** Both are oracles, so floating-point geometry is not modelled.
- **Distances.** They are exact `real`s, so `float` rounding of `t`, `tnear` and `tfar` is not modelled.
- **Hit point** (ABVH.cpp:116-121). It is vector arithmetic on the ray and is not computed. `GetIntersection` returns `found` and the result `Info` without it.
- **Build stack capacity.** The build's fixed `todo[128]` is modelled as an unbounded sequence.
- **Query stack capacity.** The query's fixed `todo[64]` is modelled as an unbounded sequence. Overflow on deep trees is not modelled.
- **Unsigned 32-bit counters and offsets.** They are unbounded integers. `N <= 0x7ffffffe` (`MaxPrims`) keeps every node index below the sentinels, so no wrap-around can occur within the model.
- **Empty primitive array.** `Hierarchy.ABVH.constructor`: requires `N >= 1`. For `N == 0` the code reads `(*build_prims)[0]`, which is undefined behaviour.
- **Timing and logging** in the constructor (ABVH.cpp:130-137), and the destructor (ABVH.cpp:124-126).
- **`const` on `getIntersection`.** The query writes cache fields through `flatTree` although declared `const`. The model says so with `modifies flatTree`.
- **`ft` on entry.** The caller's `intersection->ft` is the parameter `ft0`, and the result `t` starts at `999999999`.
- **Scratch node cache.** The scratch `node` used by the build has uninitialised cache fields. The model starts them at an arbitrary value.
- Geometry.MaxDimension: the axis rule (largest extent, ties to the lower axis) is assumed, because `BBox::maxDimension` (BBox.h) is not part of this model.
- Hierarchy.ABVH.GetIntersection: does not promise the nearest hit among all primitives the ray hits. An internal child whose cached hit is true from an earlier query is not re-tested, and its cached `tnear` orders and prunes entries (ABVH.cpp:71-72, 105-112). The contract therefore speaks of the primitives reached and the distances recorded.
- Hierarchy.ABVH.GetIntersection: the query's node indices are signed 32-bit in the code (`int ni`, `int32_t closer, other` and the `int` constructor argument of `ABVHTraversal`, ABVH.cpp:13, 24, 36). For `N > 2^30` a node index `2N - 2` can exceed `2^31 - 1`, and `flatTree[ni]` is then undefined behaviour. The model uses unbounded indices and proves the query for every `N <= MaxPrims`, which includes that range where the code overflows.
- Geometry.DegenerateSplitMeansCoincident: holds for integer coordinates and the exact midpoint only. The code computes `.5f * (min + max)` in `float` (ABVH.cpp:220-221). When the lowest and highest centroid coordinates on the axis are adjacent floats the midpoint can round onto one of them, and `min + max` can overflow to infinity. Then every centroid, or none, is below the split, and the code takes the middle fallback (ABVH.cpp:232-234) although the extent is positive. The split rule `FlatTree.SplitOk` (`Geometry.Below`) allows the fallback only at zero extent, so it does not describe that output.
- BuildInvariant.PartitionNonEmpty: exact arithmetic, as for `Geometry.DegenerateSplitMeansCoincident` above; with the `float` midpoint a positive extent can still leave one side empty.
- BuildInvariant.PartitionSplits: the split rule it establishes, and so the split rule in `Hierarchy.ABVH.Build` and the constructor, is that of the exact midpoint; the `float` cases above are not covered.
- **The rest of the repository.** Object types, ray, box, vector and the test scene.
- **`leafSize == 0`.** The build uses the corrected leaf test `nPrims <= leafSize || nPrims <= 1`, so it terminates. This differs from the code only when `leafSize == 0` (see Findings).

## Findings

| source | as written | input that shows it | evidently intended | confidence | as-written member | corrected member |
|---|---|---|---|---|---|---|
| ABVH.cpp:194 | leaf test `nPrims <= leafSize`; with `leafSize == 0` a one-primitive range is internal, its split falls back to `start`, and the pushed right half `[start, start+1)` is the same range again, so the build never ends | any `N >= 1` with `leafSize == 0` | `leafSize == 0` means one primitive per leaf (every range of one primitive is a leaf) | not executed | BuildInvariant.ZeroLeafSizeRepeatsRange | FlatTree.LeafTestAgrees |
