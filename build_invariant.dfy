/** The invariant of the builder's work-stack loop (ABVH.cpp:171-248) and
    the proof that one iteration keeps it.  The builder pops a range,
    appends a node for it, lets the new node "touch" its parent's
    `rightOffset` (Untouched, then Untouched-1, then the real offset), and
    for an internal node partitions the range and pushes the right half
    followed by the left half. */
module BuildInvariant {
  import opened Geometry
  import opened FlatTree

  /** `ABVHBuildEntry`: a range still to be turned into a node, and the
      index of the node that will be its parent. */
  datatype BuildEntry = BuildEntry(parent: int, start: int, end: int)

  function Top(todo: seq<BuildEntry>): BuildEntry
    requires |todo| > 0
  {
    todo[|todo| - 1]
  }

  /** Each pending range of n primitives can still produce at most 2n - 1
      nodes. */
  function Weight(todo: seq<BuildEntry>): int {
    if todo == [] then 0
    else Weight(todo[..|todo| - 1]) + 2 * (Top(todo).end - Top(todo).start) - 1
  }

  lemma {:induction false} WeightAtLeastCount(todo: seq<BuildEntry>)
    requires forall k :: 0 <= k < |todo| ==> todo[k].start < todo[k].end
    ensures Weight(todo) >= |todo|
  {
    if todo != [] {
      WeightAtLeastCount(todo[..|todo| - 1]);
    }
  }

  /** The parents of the pending ranges. */
  function Parents(todo: seq<BuildEntry>): set<int> {
    set k | 0 <= k < |todo| :: todo[k].parent
  }

  /** The range of `e` lies inside the range of node `n` or apart from it. */
  predicate Nested(e: BuildEntry, n: FlatNode) {
    (n.start <= e.start && e.end <= n.End()) || e.end <= n.start || n.End() <= e.start
  }

  /** The parent bookkeeping at ABVH.cpp:201-211, applied after the new node
      was appended: one touch lowers the sentinel, the second touch
      replaces it with the offset of the node just created. */
  function TouchParent(nodes: seq<FlatNode>, parent: int): (r: seq<FlatNode>)
    requires parent == RootMarker || 0 <= parent < |nodes|
    ensures |r| == |nodes|
  {
    if parent == RootMarker then nodes
    else
      var dec := nodes[parent].rightOffset - 1;
      nodes[parent := nodes[parent].(rightOffset := if dec == TouchedTwice then |nodes| - 1 - parent else dec)]
  }

  /** The work items pushed after creating internal node `n` over `c`'s
      range split at `mid`: right half first, then the left half on top. */
  function Pushed(c: FlatNode, n: int, mid: int): seq<BuildEntry> {
    if c.IsLeaf() then [] else [BuildEntry(n, mid, c.End()), BuildEntry(n, c.start, mid)]
  }

  /** With `leafSize == 0`, the source's leaf test makes the node `c` over a
      one-primitive range internal; whichever way its partition comes out,
      the split falls at `c.start`, so the items pushed are the empty range
      on top and, under it, `c`'s own range again: the build repeats
      forever. */
  lemma ZeroLeafSizeRepeatsRange(c: FlatNode, n: int, mid0: int)
    requires c.nPrims == 1
    requires c.rightOffset == (if IsLeafSizeAsWritten(c.nPrims, 0) then 0 else Untouched)
    requires c.start <= mid0 <= c.End()
    ensures !c.IsLeaf() && !IsLeafSizeAsWritten(1, 0) && IsLeafSize(1, 0)
    ensures Pushed(c, n, SplitIndex(c.start, c.End(), mid0))
            == [BuildEntry(n, c.start, c.End()), BuildEntry(n, c.start, c.start)]
  {
  }

  /** `p2` equals `p` except that `[s, t)` holds the same primitives in
      another order. */
  ghost predicate PermutedRange(p: seq<Prim>, p2: seq<Prim>, s: int, t: int) {
    && 0 <= s <= t <= |p| == |p2|
    && p2[..s] == p[..s] && p2[t..] == p[t..]
    && multiset(p2[s..t]) == multiset(p[s..t])
  }

  /** The range `[s, t)` in its original order. */
  lemma PermutedRangeRefl(p: seq<Prim>, s: int, t: int)
    requires 0 <= s <= t <= |p|
    ensures PermutedRange(p, p, s, t)
  {
  }

  /** Swapping two entries inside `[s, t)`, as the partition does, keeps
      the range a reordering of the original. */
  lemma PermutedRangeSwap(p: seq<Prim>, p1: seq<Prim>, s: int, t: int, i: int, j: int)
    requires PermutedRange(p, p1, s, t) && s <= i < t && s <= j < t
    ensures PermutedRange(p, p1[i := p1[j]][j := p1[i]], s, t)
  {
    var p2 := p1[i := p1[j]][j := p1[i]];
    assert p2[..s] == p1[..s];
    assert p2[t..] == p1[t..];
    assert p2[s..t] == p1[s..t][i - s := p1[j]][j - s := p1[i]];
  }

  /** Reordering one range reorders the whole array. */
  lemma PermutedRangeWhole(p: seq<Prim>, p2: seq<Prim>, s: int, t: int)
    requires PermutedRange(p, p2, s, t)
    ensures multiset(p2) == multiset(p)
  {
    assert p == p[..s] + p[s..t] + p[t..];
    assert p2 == p2[..s] + p2[s..t] + p2[t..];
  }

  // ---------------------------------------------------------------------
  // The invariant, conjunct by conjunct.

  ghost predicate EntriesOk(nodes: seq<FlatNode>, todo: seq<BuildEntry>, n: int) {
    && (|nodes| == 0 ==> todo == [BuildEntry(RootMarker, 0, n)])
    && (|nodes| > 0 ==> forall k :: 0 <= k < |todo| ==> 0 <= todo[k].parent < |nodes|)
    && (forall k :: 0 <= k < |todo| ==> 0 <= todo[k].start < todo[k].end <= n)
    && (forall k :: 0 <= k < |todo| - 1 ==> todo[k + 1].end == todo[k].start)
    && (forall j, k :: 0 <= j < k < |todo| ==> todo[k].end <= todo[j].start)
    && (|todo| > 0 ==> todo[0].end == n)
  }

  ghost predicate NodesOk(nodes: seq<FlatNode>, prims: seq<Prim>, leafSize: nat) {
    && (|nodes| > 0 ==> nodes[0].start == 0 && nodes[0].nPrims == |prims|)
    && (forall i :: 0 <= i < |nodes| ==> NodeOk(nodes[i], prims, leafSize))
  }

  ghost predicate ChainOk(nodes: seq<FlatNode>, todo: seq<BuildEntry>, n: int) {
    && Chained(nodes)
    && (|nodes| > 0 && |todo| > 0 ==> Top(todo).start == NextStart(nodes[|nodes| - 1]))
    && (|nodes| > 0 && |todo| == 0 ==> nodes[|nodes| - 1].IsLeaf() && nodes[|nodes| - 1].End() == n)
  }

  /** What `rightOffset` of node `i` says: a leaf; a node whose children
      are the top two work items; a node whose left child exists at `i+1`
      and whose right child is still pending; or the real offset. */
  ghost predicate OffsetOk(nodes: seq<FlatNode>, todo: seq<BuildEntry>, i: nat)
    requires i < |nodes|
  {
    var ro := nodes[i].rightOffset;
    if ro == 0 then true
    else if ro == Untouched then
      && i == |nodes| - 1 && |todo| >= 2
      && Top(todo).parent == i && todo[|todo| - 2].parent == i
      && Top(todo).start == nodes[i].start && todo[|todo| - 2].end == nodes[i].End()
    else if ro == Untouched - 1 then
      && i + 1 < |nodes| && nodes[i + 1].start == nodes[i].start
      && nodes[i + 1].End() < nodes[i].End()
      && i in Parents(todo)
    else
      2 <= ro && i + ro < |nodes| && ChildrenSplit(nodes, i)
  }

  ghost predicate OffsetsOk(nodes: seq<FlatNode>, todo: seq<BuildEntry>) {
    forall i :: 0 <= i < |nodes| ==> OffsetOk(nodes, todo, i)
  }

  /** A pending range's parent is still waiting for a child; if it already
      has its left child, the range is exactly its right half. */
  ghost predicate ParentWaits(nodes: seq<FlatNode>, e: BuildEntry)
    requires 0 <= e.parent < |nodes|
  {
    var p := e.parent;
    || nodes[p].rightOffset == Untouched
    || (&& nodes[p].rightOffset == Untouched - 1 && p + 1 < |nodes|
        && e.start == nodes[p + 1].End() && e.end == nodes[p].End())
  }

  /** Every pending range's parent is still waiting for it. */
  ghost predicate ParentsWait(nodes: seq<FlatNode>, todo: seq<BuildEntry>) {
    forall k :: 0 <= k < |todo| && 0 <= todo[k].parent < |nodes| ==> ParentWaits(nodes, todo[k])
  }

  /** Only the top two ranges can be siblings. */
  ghost predicate ParentsPaired(todo: seq<BuildEntry>) {
    forall j, k :: 0 <= j < k < |todo| && todo[j].parent == todo[k].parent ==> j == |todo| - 2 && k == |todo| - 1
  }

  /** Sibling ranges on top belong to a node with no child yet. */
  ghost predicate TopPairUntouched(nodes: seq<FlatNode>, todo: seq<BuildEntry>) {
    (|todo| >= 2 && Top(todo).parent == todo[|todo| - 2].parent && 0 <= Top(todo).parent < |nodes|)
      ==> nodes[Top(todo).parent].rightOffset == Untouched
  }

  ghost predicate ParentsOk(nodes: seq<FlatNode>, todo: seq<BuildEntry>) {
    |nodes| > 0 ==> ParentsWait(nodes, todo) && ParentsPaired(todo) && TopPairUntouched(nodes, todo)
  }

  ghost predicate Laminar(nodes: seq<FlatNode>, todo: seq<BuildEntry>) {
    forall i, k :: 0 <= i < |nodes| && 0 <= k < |todo| ==> Nested(todo[k], nodes[i])
  }

  /** Every internal node so far split its range the builder's way: at
      its left child's end, or, for the newest node whose children are
      still to come, at the end of the top item (its left half). */
  ghost predicate SplitsOk(nodes: seq<FlatNode>, todo: seq<BuildEntry>, prims: seq<Prim>) {
    forall i {:trigger NodeSplitOk(nodes, todo, prims, i)} ::
      0 <= i < |nodes| && !nodes[i].IsLeaf() ==> NodeSplitOk(nodes, todo, prims, i)
  }

  ghost predicate NodeSplitOk(nodes: seq<FlatNode>, todo: seq<BuildEntry>, prims: seq<Prim>, i: nat)
    requires i < |nodes|
  {
    if i + 1 < |nodes| then SplitAt(nodes, prims, i)
    else |todo| > 0 && SplitOk(prims, nodes[i].start, Top(todo).end, nodes[i].End())
  }

  ghost predicate Counts(nodes: seq<FlatNode>, todo: seq<BuildEntry>, n: int, nLeafs: int) {
    && nLeafs == LeafCount(nodes)
    && 2 * (|nodes| - nLeafs) + 1 == |nodes| + |todo|
    && |nodes| + Weight(todo) <= 2 * n - 1
  }

  ghost predicate BuildInv(nodes: seq<FlatNode>, todo: seq<BuildEntry>, prims: seq<Prim>, leafSize: nat, nLeafs: int) {
    && 1 <= |prims| <= MaxPrims
    && EntriesOk(nodes, todo, |prims|)
    && NodesOk(nodes, prims, leafSize)
    && ChainOk(nodes, todo, |prims|)
    && OffsetsOk(nodes, todo)
    && ParentsOk(nodes, todo)
    && Laminar(nodes, todo)
    && Counts(nodes, todo, |prims|, nLeafs)
    && SplitsOk(nodes, todo, prims)
  }

  /** The loop starts with the whole range `[0, N)` as the root's work item. */
  lemma BuildInvInit(prims: seq<Prim>, leafSize: nat)
    requires 1 <= |prims| <= MaxPrims
    ensures BuildInv([], [BuildEntry(RootMarker, 0, |prims|)], prims, leafSize, 0)
  {
    assert Weight([BuildEntry(RootMarker, 0, |prims|)]) == 2 * |prims| - 1 by {
      assert [BuildEntry(RootMarker, 0, |prims|)][..0] == [];
    }
  }

  /** When the stack is empty the array has the shape every built tree has,
      and, a binary tree, exactly one node fewer than twice its leaves. */
  lemma BuildInvDone(nodes: seq<FlatNode>, prims: seq<Prim>, leafSize: nat, nLeafs: int)
    requires BuildInv(nodes, [], prims, leafSize, nLeafs)
    ensures WellFormed(nodes, prims, leafSize)
    ensures nLeafs == LeafCount(nodes) && |nodes| == 2 * nLeafs - 1
  {
    assert |nodes| > 0;
    forall i | 0 <= i < |nodes|
      ensures Linked(nodes, i) && (!nodes[i].IsLeaf() ==> ChildrenSplit(nodes, i))
    {
      assert OffsetOk(nodes, [], i);
      assert Parents([]) == {};
    }
    forall i | 0 <= i < |nodes| - 1 && !nodes[i].IsLeaf() ensures SplitAt(nodes, prims, i) {
      assert NodeSplitOk(nodes, [], prims, i);
    }
  }

  // ---------------------------------------------------------------------
  // One iteration.

  /** Node `c` as the builder makes it for work item `e` (ABVH.cpp:178-199):
      its range, the hull of the boxes in it, and the leaf marker or the
      first sentinel. */
  ghost predicate NodeFor(e: BuildEntry, prims: seq<Prim>, leafSize: nat, c: FlatNode) {
    && 0 <= e.start < e.end <= |prims|
    && c.start == e.start && c.nPrims == e.end - e.start
    && c.bbox == Hull(prims[e.start..e.end])
    && c.rightOffset == (if IsLeafSize(c.nPrims, leafSize) then 0 else Untouched)
  }

  /** The node built for a range is sound and covers exactly that range. */
  lemma NodeForOk(e: BuildEntry, prims: seq<Prim>, leafSize: nat, c: FlatNode)
    requires NodeFor(e, prims, leafSize, c)
    ensures c.start == e.start && c.End() == e.end
    ensures NodeOk(c, prims, leafSize)
  {
  }

  /** The state right after popping the top work item `Top(todo)` and
      building node `c` for it; `mid` is where an internal node's range is
      split. */
  ghost predicate PopShape(todo: seq<BuildEntry>, prims: seq<Prim>, leafSize: nat, c: FlatNode, mid: int) {
    && |todo| > 0
    && NodeFor(Top(todo), prims, leafSize, c)
    && (!c.IsLeaf() ==> c.start < mid < c.End())
  }

  /** The invariant as it was before the pop, together with the new node. */
  ghost predicate Popped(nodes: seq<FlatNode>, todo: seq<BuildEntry>, prims: seq<Prim>, leafSize: nat,
                         nLeafs: int, c: FlatNode, mid: int)
  {
    BuildInv(nodes, todo, prims, leafSize, nLeafs) && PopShape(todo, prims, leafSize, c, mid)
  }

  /** The stack after the iteration: the popped item replaced by the
      children's items. */
  function NextTodo(todo: seq<BuildEntry>, c: FlatNode, n: int, mid: int): seq<BuildEntry>
    requires |todo| > 0
  {
    todo[..|todo| - 1] + Pushed(c, n, mid)
  }

  /** Whenever the stack is not empty, its top item is a non-empty range
      of the array whose parent, unless it is the root's item, is a node
      already created, and there is room for one more node. */
  lemma PopReady(nodes: seq<FlatNode>, todo: seq<BuildEntry>, prims: seq<Prim>, leafSize: nat, nLeafs: int)
    requires BuildInv(nodes, todo, prims, leafSize, nLeafs) && |todo| > 0
    ensures 0 <= Top(todo).start < Top(todo).end <= |prims|
    ensures Top(todo).parent == RootMarker || 0 <= Top(todo).parent < |nodes|
    ensures |nodes| + 1 <= 2 * |prims| - 1
  {
    PoppedBound(nodes, todo, |prims|, nLeafs);
    assert 0 <= Top(todo).start < Top(todo).end <= |prims| by {
      assert todo[|todo| - 1] == Top(todo);
    }
  }

  /** The new node still fits below the sentinels. */
  lemma PoppedBound(nodes: seq<FlatNode>, todo: seq<BuildEntry>, n: int, nLeafs: int)
    requires EntriesOk(nodes, todo, n) && Counts(nodes, todo, n, nLeafs) && |todo| > 0
    ensures |nodes| + 1 <= 2 * n - 1
  {
    var rest := todo[..|todo| - 1];
    assert forall k :: 0 <= k < |rest| ==> rest[k] == todo[k];
    WeightAtLeastCount(rest);
  }

  /** The parent's touch changes only its `rightOffset`, never its leaf
      status; the new node sits at the end. */
  lemma TouchFacts(nodes: seq<FlatNode>, todo: seq<BuildEntry>, n: int, c: FlatNode)
    requires EntriesOk(nodes, todo, n) && ParentsOk(nodes, todo) && |todo| > 0
    requires |nodes| < RootMarker
    ensures |nodes| == 0 <==> Top(todo).parent == RootMarker
    ensures |nodes| == 0 ==> todo == [Top(todo)]
    ensures var nodes2 := TouchParent(nodes + [c], Top(todo).parent);
      && |nodes2| == |nodes| + 1 && nodes2[|nodes|] == c
      && (forall i :: 0 <= i < |nodes| ==>
            && nodes2[i].start == nodes[i].start && nodes2[i].nPrims == nodes[i].nPrims
            && nodes2[i].bbox == nodes[i].bbox && (nodes2[i].IsLeaf() <==> nodes[i].IsLeaf()))
      && (forall i :: 0 <= i < |nodes| && i != Top(todo).parent ==> nodes2[i] == nodes[i])
  {
    if |nodes| > 0 {
      assert 0 <= todo[|todo| - 1].parent < |nodes|;
      assert ParentWaits(nodes, todo[|todo| - 1]);
    }
  }

  lemma StepEntries(nodes: seq<FlatNode>, todo: seq<BuildEntry>, prims: seq<Prim>, leafSize: nat,
                    c: FlatNode, mid: int)
    requires EntriesOk(nodes, todo, |prims|) && PopShape(todo, prims, leafSize, c, mid)
    ensures EntriesOk(TouchParent(nodes + [c], Top(todo).parent), NextTodo(todo, c, |nodes|, mid), |prims|)
  {
    var nodes2 := TouchParent(nodes + [c], Top(todo).parent);
    if c.IsLeaf() {
      EntriesPopped(nodes, nodes2, todo, |prims|, c, mid);
    } else {
      EntriesSplit(nodes, nodes2, todo, |prims|, c, mid);
    }
  }

  /** Popping a leaf's item keeps the stack's ranges ordered. */
  lemma EntriesPopped(nodes: seq<FlatNode>, nodes2: seq<FlatNode>, todo: seq<BuildEntry>, n: int,
                      c: FlatNode, mid: int)
    requires EntriesOk(nodes, todo, n) && |todo| > 0 && |nodes2| == |nodes| + 1 && c.IsLeaf()
    ensures EntriesOk(nodes2, NextTodo(todo, c, |nodes|, mid), n)
  {
    var rest := todo[..|todo| - 1];
    assert NextTodo(todo, c, |nodes|, mid) == rest;
    assert forall k :: 0 <= k < |rest| ==> rest[k] == todo[k];
  }

  /** Replacing the top item by its two halves, the right one below the
      left one, keeps the stack's ranges ordered and adjacent. */
  lemma EntriesSplit(nodes: seq<FlatNode>, nodes2: seq<FlatNode>, todo: seq<BuildEntry>, n: int,
                     c: FlatNode, mid: int)
    requires EntriesOk(nodes, todo, n) && |todo| > 0 && |nodes2| == |nodes| + 1 && !c.IsLeaf()
    requires c.start == Top(todo).start && c.End() == Top(todo).end && c.start < mid < c.End()
    ensures EntriesOk(nodes2, NextTodo(todo, c, |nodes|, mid), n)
  {
    var e := Top(todo);
    var rest := todo[..|todo| - 1];
    var todo2 := rest + [BuildEntry(|nodes|, mid, e.end), BuildEntry(|nodes|, e.start, mid)];
    assert NextTodo(todo, c, |nodes|, mid) == todo2;
    assert forall k :: 0 <= k < |rest| ==> todo2[k] == todo[k];
    if |rest| == 0 {
      assert todo == [e];
    }
    SplitOrdered(todo, |nodes|, mid);
  }

  /** The halves of the top item's range, right one first, continue the
      stack's sequence of adjacent, right-to-left ordered ranges. */
  lemma SplitOrdered(todo: seq<BuildEntry>, p: int, mid: int)
    requires |todo| > 0 && Top(todo).start < mid < Top(todo).end
    requires forall k :: 0 <= k < |todo| - 1 ==> todo[k + 1].end == todo[k].start
    requires forall j, k :: 0 <= j < k < |todo| ==> todo[k].end <= todo[j].start
    ensures var todo2 := todo[..|todo| - 1] + [BuildEntry(p, mid, Top(todo).end), BuildEntry(p, Top(todo).start, mid)];
      && (forall k :: 0 <= k < |todo2| - 1 ==> todo2[k + 1].end == todo2[k].start)
      && (forall j, k :: 0 <= j < k < |todo2| ==> todo2[k].end <= todo2[j].start)
  {
    var e := Top(todo);
    var rest := todo[..|todo| - 1];
    var todo2 := rest + [BuildEntry(p, mid, e.end), BuildEntry(p, e.start, mid)];
    assert forall k :: 0 <= k < |rest| ==> todo2[k] == todo[k];
    forall j, k | 0 <= j < k < |todo2| ensures todo2[k].end <= todo2[j].start {
      if k >= |rest| && j < |rest| {
        assert todo[|todo| - 1].end <= todo[j].start;
      }
    }
    if |rest| > 0 {
      assert todo[|todo| - 1].end == todo[|todo| - 2].start;
    }
  }

  lemma StepNodes(nodes: seq<FlatNode>, todo: seq<BuildEntry>, prims: seq<Prim>, leafSize: nat,
                  c: FlatNode, mid: int, prims2: seq<Prim>)
    requires EntriesOk(nodes, todo, |prims|) && ParentsOk(nodes, todo) && NodesOk(nodes, prims, leafSize)
    requires Laminar(nodes, todo) && |nodes| < RootMarker
    requires PopShape(todo, prims, leafSize, c, mid)
    requires PermutedRange(prims, prims2, c.start, c.End())
    ensures NodesOk(TouchParent(nodes + [c], Top(todo).parent), prims2, leafSize)
  {
    var nodes2 := TouchParent(nodes + [c], Top(todo).parent);
    NodeForOk(Top(todo), prims, leafSize, c);
    TouchedNodesOk(nodes, todo, prims, leafSize, c, mid);
    HullsKept(nodes2, prims, prims2, leafSize, Top(todo));
  }

  /** Before the partition, every node including the new one is sound, and
      each one's range holds the popped range or lies apart from it. */
  lemma TouchedNodesOk(nodes: seq<FlatNode>, todo: seq<BuildEntry>, prims: seq<Prim>, leafSize: nat,
                       c: FlatNode, mid: int)
    requires EntriesOk(nodes, todo, |prims|) && ParentsOk(nodes, todo) && NodesOk(nodes, prims, leafSize)
    requires Laminar(nodes, todo) && |nodes| < RootMarker
    requires PopShape(todo, prims, leafSize, c, mid)
    ensures var nodes2 := TouchParent(nodes + [c], Top(todo).parent);
      && nodes2[0].start == 0 && nodes2[0].nPrims == |prims|
      && forall i :: 0 <= i < |nodes2| ==> NodeOk(nodes2[i], prims, leafSize) && Nested(Top(todo), nodes2[i])
  {
    TouchFacts(nodes, todo, |prims|, c);
    var nodes2 := TouchParent(nodes + [c], Top(todo).parent);
    var e := Top(todo);
    NodeForOk(e, prims, leafSize, c);
    forall i | 0 <= i < |nodes| ensures NodeOk(nodes[i], prims, leafSize) && Nested(e, nodes[i]) {
      assert Nested(todo[|todo| - 1], nodes[i]);
    }
    OldNodesOk(nodes, nodes2, prims, leafSize, e);
    assert forall i :: 0 <= i < |nodes2| ==> nodes2[i] == c || i < |nodes|;
  }

  lemma OldNodesOk(nodes: seq<FlatNode>, nodes2: seq<FlatNode>, prims: seq<Prim>, leafSize: nat, e: BuildEntry)
    requires forall i :: 0 <= i < |nodes| ==> NodeOk(nodes[i], prims, leafSize) && Nested(e, nodes[i])
    requires |nodes| < |nodes2|
    requires forall i :: 0 <= i < |nodes| ==>
            && nodes2[i].start == nodes[i].start && nodes2[i].nPrims == nodes[i].nPrims
            && nodes2[i].bbox == nodes[i].bbox && (nodes2[i].IsLeaf() <==> nodes[i].IsLeaf())
    ensures forall i :: 0 <= i < |nodes| ==> NodeOk(nodes2[i], prims, leafSize) && Nested(e, nodes2[i])
  {
  }

  /** Reordering the primitives of one pending range keeps the box of every
      node whose range contains it or lies apart from it. */
  lemma HullsKept(nodes: seq<FlatNode>, prims: seq<Prim>, prims2: seq<Prim>, leafSize: nat, e: BuildEntry)
    requires forall i :: 0 <= i < |nodes| ==> NodeOk(nodes[i], prims, leafSize) && Nested(e, nodes[i])
    requires PermutedRange(prims, prims2, e.start, e.end)
    ensures forall i :: 0 <= i < |nodes| ==> NodeOk(nodes[i], prims2, leafSize)
  {
    forall i | 0 <= i < |nodes| ensures NodeOk(nodes[i], prims2, leafSize) {
      assert NodeOk(nodes[i], prims, leafSize) && Nested(e, nodes[i]);
      HullKept(prims, prims2, nodes[i].start, nodes[i].End(), e.start, e.end);
    }
  }

  lemma HullKept(prims: seq<Prim>, prims2: seq<Prim>, a: int, b: int, s: int, t: int)
    requires 0 <= a < b <= |prims|
    requires PermutedRange(prims, prims2, s, t)
    requires (a <= s && t <= b) || t <= a || b <= s
    ensures Hull(prims2[a..b]) == Hull(prims[a..b])
  {
    RangeKept(prims, prims2, a, b, s, t);
    HullPermutation(prims[a..b], prims2[a..b]);
  }

  /** Reordering `[s, t)` keeps the primitives of a range `[a, b)` that
      holds it, and keeps a range apart from it outright. */
  lemma RangeKept(prims: seq<Prim>, prims2: seq<Prim>, a: int, b: int, s: int, t: int)
    requires 0 <= a <= b <= |prims|
    requires PermutedRange(prims, prims2, s, t)
    requires (a <= s && t <= b) || t <= a || b <= s
    ensures multiset(prims2[a..b]) == multiset(prims[a..b])
    ensures (t <= a || b <= s) ==> prims2[a..b] == prims[a..b]
  {
    if a <= s && t <= b {
      calc {
        multiset(prims2[a..b]);
        { assert prims2[a..b] == prims2[a..s] + prims2[s..t] + prims2[t..b]; }
        multiset(prims2[a..s]) + multiset(prims2[s..t]) + multiset(prims2[t..b]);
        { assert prims2[a..s] == prims2[..s][a..] == prims[..s][a..] == prims[a..s];
          assert prims2[t..b] == prims2[t..][..b - t] == prims[t..][..b - t] == prims[t..b]; }
        multiset(prims[a..s]) + multiset(prims[s..t]) + multiset(prims[t..b]);
        { assert prims[a..b] == prims[a..s] + prims[s..t] + prims[t..b]; }
        multiset(prims[a..b]);
      }
    } else if b <= s {
      assert prims2[a..b] == prims2[..s][a..b] == prims[..s][a..b] == prims[a..b];
    } else {
      assert t <= a && prims2[t..] == prims[t..];
      forall k | a <= k < b ensures prims2[k] == prims[k] {
        assert prims2[k] == prims2[t..][k - t] && prims[k] == prims[t..][k - t];
      }
      assert prims2[a..b] == prims[a..b];
    }
  }

  /** Reordering `[s, t)` inside or apart from `[a, b)` keeps which side of
      a split every primitive of `[a, b)` falls on. */
  lemma BelowKept(prims: seq<Prim>, prims2: seq<Prim>, a: int, b: int, s: int, t: int,
                  d: Axis, split2: int, below: bool)
    requires 0 <= a <= b <= |prims|
    requires PermutedRange(prims, prims2, s, t)
    requires (a <= s && t <= b) || t <= a || b <= s
    requires forall k :: a <= k < b ==> Below(prims[k], d, split2) == below
    ensures forall k :: a <= k < b ==> Below(prims2[k], d, split2) == below
  {
    RangeKept(prims, prims2, a, b, s, t);
    forall k | a <= k < b ensures Below(prims2[k], d, split2) == below {
      assert prims2[k] == prims2[a..b][k - a];
      assert prims2[k] in multiset(prims[a..b]);
      var j :| 0 <= j < b - a && prims[a..b][j] == prims2[k];
      assert prims[a + j] == prims2[k];
    }
  }

  /** A later partition of a range inside one side of a split, or apart
      from the split range, keeps the split. */
  lemma SplitKept(prims: seq<Prim>, prims2: seq<Prim>, a: int, m: int, b: int, s: int, t: int)
    requires SplitOk(prims, a, m, b)
    requires PermutedRange(prims, prims2, s, t)
    requires (a <= s && t <= m) || (m <= s && t <= b) || t <= a || b <= s
    ensures SplitOk(prims2, a, m, b)
  {
    RangeKept(prims, prims2, a, b, s, t);
    CentroidHullPermutation(prims[a..b], prims2[a..b]);
    var h := CentroidHull(prims[a..b]);
    var d := MaxDimension(h);
    if Extent(h, d) != 0 {
      BelowKept(prims, prims2, a, m, s, t, d, h.min.At(d) + h.max.At(d), true);
      BelowKept(prims, prims2, m, b, s, t, d, h.min.At(d) + h.max.At(d), false);
    }
  }

  /** The partition of `[s, e)` on the longest axis `d` of its centroid box,
      with the middle-of-range fallback, splits the range the builder's
      way. */
  lemma PartitionSplits(prims0: seq<Prim>, prims: seq<Prim>, s: int, e: int, bc: BBox, d: Axis, mid0: int, mid: int)
    requires 0 <= s && s + 2 <= e <= |prims0|
    requires PermutedRange(prims0, prims, s, e)
    requires bc == CentroidHull(prims0[s..e]) && d == MaxDimension(bc) && s <= mid0 <= e
    requires forall k :: s <= k < mid0 ==> Below(prims[k], d, bc.min.At(d) + bc.max.At(d))
    requires forall k :: mid0 <= k < e ==> !Below(prims[k], d, bc.min.At(d) + bc.max.At(d))
    requires mid == SplitIndex(s, e, mid0)
    ensures SplitOk(prims, s, mid, e)
  {
    CentroidHullPermutation(prims0[s..e], prims[s..e]);
    if Extent(bc, d) == 0 {
      PartitionCoincident(prims, s, e, d, mid0);
    } else {
      PartitionNonEmpty(prims, s, e, d, mid0);
    }
  }

  /** When all centroids of `[s, e)` share their `d` coordinate, the
      partition leaves the front part empty. */
  lemma PartitionCoincident(prims: seq<Prim>, s: int, e: int, d: Axis, mid0: int)
    requires 0 <= s < e <= |prims| && s <= mid0 <= e
    requires Extent(CentroidHull(prims[s..e]), d) == 0
    requires var h := CentroidHull(prims[s..e]);
      forall k :: s <= k < mid0 ==> Below(prims[k], d, h.min.At(d) + h.max.At(d))
    ensures mid0 == s
  {
    CoincidentNoneBelow(prims[s..e], d);
    assert prims[s..e][0] == prims[s];
  }

  /** When the centroids of `[s, e)` spread along `d`, the partition at the
      middle of their box leaves neither part empty. */
  lemma PartitionNonEmpty(prims: seq<Prim>, s: int, e: int, d: Axis, mid0: int)
    requires 0 <= s < e <= |prims| && s <= mid0 <= e
    requires Extent(CentroidHull(prims[s..e]), d) != 0
    requires var h := CentroidHull(prims[s..e]);
      && (forall k :: s <= k < mid0 ==> Below(prims[k], d, h.min.At(d) + h.max.At(d)))
      && (forall k :: mid0 <= k < e ==> !Below(prims[k], d, h.min.At(d) + h.max.At(d)))
    ensures s < mid0 < e
  {
    var run := prims[s..e];
    var h := CentroidHull(run);
    var split2 := h.min.At(d) + h.max.At(d);
    forall k | 0 <= k < mid0 - s ensures Below(run[k], d, split2) {
      assert run[k] == prims[s + k];
    }
    forall k | mid0 - s <= k < |run| ensures !Below(run[k], d, split2) {
      assert run[k] == prims[s + k];
    }
    if mid0 == s || mid0 == e {
      DegenerateSplitMeansCoincident(run, d, mid0 - s);
    }
  }

  lemma StepSplits(nodes: seq<FlatNode>, todo: seq<BuildEntry>, prims: seq<Prim>, leafSize: nat,
                   c: FlatNode, mid: int, prims2: seq<Prim>)
    requires EntriesOk(nodes, todo, |prims|) && ParentsOk(nodes, todo) && Laminar(nodes, todo)
    requires NodesOk(nodes, prims, leafSize) && SplitsOk(nodes, todo, prims)
    requires |nodes| < RootMarker
    requires PopShape(todo, prims, leafSize, c, mid)
    requires PermutedRange(prims, prims2, c.start, c.End())
    requires !c.IsLeaf() ==> SplitOk(prims2, c.start, mid, c.End())
    ensures SplitsOk(TouchParent(nodes + [c], Top(todo).parent), NextTodo(todo, c, |nodes|, mid), prims2)
  {
    TouchFacts(nodes, todo, |prims|, c);
    var nodes2 := TouchParent(nodes + [c], Top(todo).parent);
    var todo2 := NextTodo(todo, c, |nodes|, mid);
    forall i | 0 <= i < |nodes2| && !nodes2[i].IsLeaf() ensures NodeSplitOk(nodes2, todo2, prims2, i) {
      if i == |nodes| {
        assert Top(todo2) == BuildEntry(|nodes|, c.start, mid);
      } else {
        assert NodeSplitOk(nodes, todo, prims, i) && Nested(todo[|todo| - 1], nodes[i]);
        assert i + 1 < |nodes| ==> Nested(todo[|todo| - 1], nodes[i + 1]) && NodeOk(nodes[i + 1], prims, leafSize);
        OldSplitKept(nodes, nodes2, todo, prims, prims2, c, i);
      }
    }
  }

  /** An older internal node keeps its split through the partition of the
      popped range, which lies inside one of its halves or apart from it. */
  lemma OldSplitKept(nodes: seq<FlatNode>, nodes2: seq<FlatNode>, todo: seq<BuildEntry>, prims: seq<Prim>,
                     prims2: seq<Prim>, c: FlatNode, i: nat)
    requires |todo| > 0 && i < |nodes| && NodeSplitOk(nodes, todo, prims, i)
    requires Nested(Top(todo), nodes[i])
    requires i + 1 < |nodes| ==> Nested(Top(todo), nodes[i + 1]) && nodes[i + 1].nPrims >= 0
    requires |nodes2| == |nodes| + 1 && nodes2[|nodes|] == c
    requires forall j :: 0 <= j < |nodes| ==> nodes2[j].start == nodes[j].start && nodes2[j].nPrims == nodes[j].nPrims
    requires c.start == Top(todo).start && c.End() == Top(todo).end && c.start < c.End()
    requires PermutedRange(prims, prims2, c.start, c.End())
    ensures SplitOk(prims2, nodes2[i].start, nodes2[i + 1].End(), nodes2[i].End())
  {
    var s, e := nodes[i].start, nodes[i].End();
    var m := if i + 1 < |nodes| then nodes[i + 1].End() else Top(todo).end;
    var ls := if i + 1 < |nodes| then nodes[i + 1].start else s;
    assert nodes2[i].start == s && nodes2[i].End() == e && nodes2[i + 1].End() == m;
    assert SplitOk(prims, s, m, e);
    NestedSplitKept(prims, prims2, s, m, e, ls, c.start, c.End());
  }

  /** The split of `[s, e)` at `m` survives the partition of `[a, b)` when
      `[a, b)` is nested in `[s, e)` and in the left half's part `[ls, m)`,
      or lies apart from them. */
  lemma NestedSplitKept(prims: seq<Prim>, prims2: seq<Prim>, s: int, m: int, e: int, ls: int, a: int, b: int)
    requires SplitOk(prims, s, m, e)
    requires PermutedRange(prims, prims2, a, b) && a < b
    requires (s <= a && b <= e) || b <= s || e <= a
    requires ls <= m && ((ls <= a && b <= m) || b <= ls || m <= a)
    ensures SplitOk(prims2, s, m, e)
  {
    SplitKept(prims, prims2, s, m, e, a, b);
  }

  lemma StepChain(nodes: seq<FlatNode>, todo: seq<BuildEntry>, prims: seq<Prim>, leafSize: nat,
                  c: FlatNode, mid: int)
    requires EntriesOk(nodes, todo, |prims|) && ParentsOk(nodes, todo) && ChainOk(nodes, todo, |prims|)
    requires |nodes| < RootMarker
    requires PopShape(todo, prims, leafSize, c, mid)
    ensures ChainOk(TouchParent(nodes + [c], Top(todo).parent), NextTodo(todo, c, |nodes|, mid), |prims|)
  {
    TouchFacts(nodes, todo, |prims|, c);
    var nodes2 := TouchParent(nodes + [c], Top(todo).parent);
    var rest := todo[..|todo| - 1];
    var todo2 := NextTodo(todo, c, |nodes|, mid);
    forall i | 0 <= i < |nodes2| - 1 ensures nodes2[i + 1].start == NextStart(nodes2[i]) {
      if i < |nodes| - 1 {
        assert nodes[i + 1].start == NextStart(nodes[i]);
      }
    }
    if c.IsLeaf() {
      assert todo2 == rest;
      if |rest| > 0 {
        assert todo[|todo| - 1].end == todo[|todo| - 2].start;
      } else {
        assert todo == [todo[0]];
      }
    } else {
      assert Top(todo2) == BuildEntry(|nodes|, c.start, mid);
    }
  }

  lemma StepOffsets(nodes: seq<FlatNode>, todo: seq<BuildEntry>, prims: seq<Prim>, leafSize: nat,
                    c: FlatNode, mid: int)
    requires EntriesOk(nodes, todo, |prims|) && ParentsOk(nodes, todo) && OffsetsOk(nodes, todo)
    requires |prims| <= MaxPrims && |nodes| + 1 <= 2 * |prims| - 1
    requires PopShape(todo, prims, leafSize, c, mid)
    ensures OffsetsOk(TouchParent(nodes + [c], Top(todo).parent), NextTodo(todo, c, |nodes|, mid))
  {
    TouchFacts(nodes, todo, |prims|, c);
    var nodes2 := TouchParent(nodes + [c], Top(todo).parent);
    var todo2 := NextTodo(todo, c, |nodes|, mid);
    forall i | 0 <= i < |nodes2| ensures OffsetOk(nodes2, todo2, i) {
      if i == |nodes| {
        NewNodeOffset(nodes, todo, prims, leafSize, c, mid);
      } else if i == Top(todo).parent {
        TouchedParentOffset(nodes, todo, prims, leafSize, c, mid);
      } else {
        OtherOffset(nodes, todo, prims, leafSize, c, mid, i);
      }
    }
  }

  lemma NewNodeOffset(nodes: seq<FlatNode>, todo: seq<BuildEntry>, prims: seq<Prim>, leafSize: nat,
                      c: FlatNode, mid: int)
    requires EntriesOk(nodes, todo, |prims|) && ParentsOk(nodes, todo)
    requires |nodes| < RootMarker
    requires PopShape(todo, prims, leafSize, c, mid)
    ensures |nodes| < |TouchParent(nodes + [c], Top(todo).parent)|
    ensures OffsetOk(TouchParent(nodes + [c], Top(todo).parent), NextTodo(todo, c, |nodes|, mid), |nodes|)
  {
    TouchFacts(nodes, todo, |prims|, c);
    var todo2 := NextTodo(todo, c, |nodes|, mid);
    if !c.IsLeaf() {
      assert todo2 == todo[..|todo| - 1] + [BuildEntry(|nodes|, mid, c.End()), BuildEntry(|nodes|, c.start, mid)];
    }
  }

  lemma TouchedParentOffset(nodes: seq<FlatNode>, todo: seq<BuildEntry>, prims: seq<Prim>, leafSize: nat,
                            c: FlatNode, mid: int)
    requires EntriesOk(nodes, todo, |prims|) && ParentsOk(nodes, todo) && OffsetsOk(nodes, todo)
    requires |prims| <= MaxPrims && |nodes| + 1 <= 2 * |prims| - 1
    requires PopShape(todo, prims, leafSize, c, mid)
    requires |nodes| > 0
    ensures 0 <= Top(todo).parent < |nodes|
    ensures OffsetOk(TouchParent(nodes + [c], Top(todo).parent), NextTodo(todo, c, |nodes|, mid), Top(todo).parent)
  {
    TouchFacts(nodes, todo, |prims|, c);
    var nodes2 := TouchParent(nodes + [c], Top(todo).parent);
    var rest := todo[..|todo| - 1];
    var todo2 := NextTodo(todo, c, |nodes|, mid);
    var p := Top(todo).parent;
    assert 0 <= todo[|todo| - 1].parent < |nodes|;
    assert ParentWaits(nodes, todo[|todo| - 1]);
    if nodes[p].rightOffset == Untouched {
      assert OffsetOk(nodes, todo, p);
      assert nodes2[p].rightOffset == Untouched - 1;
      assert todo[|todo| - 1].end == todo[|todo| - 2].start;
      assert todo2[|todo| - 2] == todo[|todo| - 2];
      assert p in Parents(todo2);
    } else {
      assert nodes2[p].rightOffset == |nodes| - p;
      assert nodes2[p + 1] == nodes[p + 1] && nodes2[|nodes|] == c;
      assert nodes2[p].start == nodes[p].start && nodes2[p].End() == nodes[p].End();
      assert ChildrenSplit(nodes2, p);
    }
  }

  lemma OtherOffset(nodes: seq<FlatNode>, todo: seq<BuildEntry>, prims: seq<Prim>, leafSize: nat,
                    c: FlatNode, mid: int, i: nat)
    requires EntriesOk(nodes, todo, |prims|) && ParentsOk(nodes, todo) && OffsetsOk(nodes, todo)
    requires |nodes| < RootMarker
    requires PopShape(todo, prims, leafSize, c, mid)
    requires i < |nodes| && i != Top(todo).parent
    ensures i < |TouchParent(nodes + [c], Top(todo).parent)|
    ensures OffsetOk(TouchParent(nodes + [c], Top(todo).parent), NextTodo(todo, c, |nodes|, mid), i)
  {
    TouchFacts(nodes, todo, |prims|, c);
    var nodes2 := TouchParent(nodes + [c], Top(todo).parent);
    var rest := todo[..|todo| - 1];
    var todo2 := NextTodo(todo, c, |nodes|, mid);
    assert OffsetOk(nodes, todo, i);
    var ro := nodes[i].rightOffset;
    if ro == Untouched - 1 {
      var k :| 0 <= k < |todo| && todo[k].parent == i;
      assert k < |rest| && todo2[k] == todo[k];
      assert i in Parents(todo2);
    } else if ro != 0 && ro != Untouched {
      assert ChildrenSplit(nodes, i);
    }
  }

  lemma StepParents(nodes: seq<FlatNode>, todo: seq<BuildEntry>, prims: seq<Prim>, leafSize: nat,
                    c: FlatNode, mid: int)
    requires EntriesOk(nodes, todo, |prims|) && ParentsOk(nodes, todo) && OffsetsOk(nodes, todo)
    requires |nodes| < RootMarker
    requires PopShape(todo, prims, leafSize, c, mid)
    ensures ParentsOk(TouchParent(nodes + [c], Top(todo).parent), NextTodo(todo, c, |nodes|, mid))
  {
    StepParentsWait(nodes, todo, prims, leafSize, c, mid);
    StepParentsPaired(nodes, todo, prims, leafSize, c, mid);
  }

  lemma StepParentsWait(nodes: seq<FlatNode>, todo: seq<BuildEntry>, prims: seq<Prim>, leafSize: nat,
                        c: FlatNode, mid: int)
    requires EntriesOk(nodes, todo, |prims|) && ParentsOk(nodes, todo) && OffsetsOk(nodes, todo)
    requires |nodes| < RootMarker
    requires PopShape(todo, prims, leafSize, c, mid)
    ensures |TouchParent(nodes + [c], Top(todo).parent)| > 0
    ensures ParentsWait(TouchParent(nodes + [c], Top(todo).parent), NextTodo(todo, c, |nodes|, mid))
  {
    TouchFacts(nodes, todo, |prims|, c);
    var nodes2 := TouchParent(nodes + [c], Top(todo).parent);
    var todo2 := NextTodo(todo, c, |nodes|, mid);
    forall k | 0 <= k < |todo| - 1 ensures 0 <= todo2[k].parent < |nodes2| && ParentWaits(nodes2, todo2[k]) {
      assert todo2[k] == todo[k];
      RestParentWaits(nodes, todo, prims, leafSize, c, mid, k);
    }
    if !c.IsLeaf() {
      assert todo2 == todo[..|todo| - 1] + [BuildEntry(|nodes|, mid, c.End()), BuildEntry(|nodes|, c.start, mid)];
    }
  }

  lemma StepParentsPaired(nodes: seq<FlatNode>, todo: seq<BuildEntry>, prims: seq<Prim>, leafSize: nat,
                          c: FlatNode, mid: int)
    requires EntriesOk(nodes, todo, |prims|) && ParentsOk(nodes, todo)
    requires |nodes| < RootMarker
    requires PopShape(todo, prims, leafSize, c, mid)
    ensures ParentsPaired(NextTodo(todo, c, |nodes|, mid))
    ensures TopPairUntouched(TouchParent(nodes + [c], Top(todo).parent), NextTodo(todo, c, |nodes|, mid))
  {
    TouchFacts(nodes, todo, |prims|, c);
    var rest := todo[..|todo| - 1];
    var todo2 := NextTodo(todo, c, |nodes|, mid);
    assert forall k :: 0 <= k < |rest| ==> rest[k] == todo[k];
    PairedPop(todo);
    if c.IsLeaf() {
      assert todo2 == rest;
      if |rest| >= 2 {
        assert todo2[|todo2| - 1] == todo[|todo| - 2] && todo2[|todo2| - 2] == todo[|todo| - 3];
      }
    } else {
      var r, l := BuildEntry(|nodes|, mid, c.End()), BuildEntry(|nodes|, c.start, mid);
      assert todo2 == rest + [r, l];
      PairedPush(rest, r, l);
    }
  }

  /** Below the top item, no two items share a parent. */
  lemma PairedPop(todo: seq<BuildEntry>)
    requires ParentsPaired(todo) && |todo| > 0
    ensures var rest := todo[..|todo| - 1];
      && ParentsPaired(rest)
      && forall j, k :: 0 <= j < k < |rest| ==> rest[j].parent != rest[k].parent
  {
    var rest := todo[..|todo| - 1];
    assert forall k :: 0 <= k < |rest| ==> rest[k] == todo[k];
  }

  /** Pushing two halves with a parent no older item has keeps the only
      shared parent at the top of the stack. */
  lemma PairedPush(rest: seq<BuildEntry>, r: BuildEntry, l: BuildEntry)
    requires forall j, k :: 0 <= j < k < |rest| ==> rest[j].parent != rest[k].parent
    requires forall k :: 0 <= k < |rest| ==> rest[k].parent != r.parent
    requires l.parent == r.parent
    ensures ParentsPaired(rest + [r, l])
  {
    var todo2 := rest + [r, l];
    assert forall k :: 0 <= k < |rest| ==> todo2[k] == rest[k];
  }

  lemma RestParentWaits(nodes: seq<FlatNode>, todo: seq<BuildEntry>, prims: seq<Prim>, leafSize: nat,
                        c: FlatNode, mid: int, k: nat)
    requires EntriesOk(nodes, todo, |prims|) && ParentsOk(nodes, todo) && OffsetsOk(nodes, todo)
    requires |nodes| < RootMarker
    requires PopShape(todo, prims, leafSize, c, mid)
    requires k < |todo| - 1
    ensures 0 <= todo[k].parent < |nodes|
    ensures ParentWaits(TouchParent(nodes + [c], Top(todo).parent), todo[k])
  {
    TouchFacts(nodes, todo, |prims|, c);
    var nodes2 := TouchParent(nodes + [c], Top(todo).parent);
    var q := todo[k].parent;
    var p := Top(todo).parent;
    assert |nodes| > 0;
    assert ParentWaits(nodes, todo[k]);
    if q == p {
      assert k == |todo| - 2;
      assert nodes[p].rightOffset == Untouched;
      assert OffsetOk(nodes, todo, p);
      assert todo[k + 1].end == todo[k].start;
      assert nodes2[p].rightOffset == Untouched - 1;
    } else {
      assert OffsetOk(nodes, todo, q);
      assert nodes2[q] == nodes[q];
    }
  }

  lemma StepLaminar(nodes: seq<FlatNode>, todo: seq<BuildEntry>, prims: seq<Prim>, leafSize: nat,
                    c: FlatNode, mid: int)
    requires EntriesOk(nodes, todo, |prims|) && ParentsOk(nodes, todo) && Laminar(nodes, todo)
    requires |nodes| < RootMarker
    requires PopShape(todo, prims, leafSize, c, mid)
    ensures Laminar(TouchParent(nodes + [c], Top(todo).parent), NextTodo(todo, c, |nodes|, mid))
  {
    TouchFacts(nodes, todo, |prims|, c);
    var nodes2 := TouchParent(nodes + [c], Top(todo).parent);
    var rest := todo[..|todo| - 1];
    var todo2 := NextTodo(todo, c, |nodes|, mid);
    forall i, k | 0 <= i < |nodes2| && 0 <= k < |todo2| ensures Nested(todo2[k], nodes2[i]) {
      if k < |rest| {
        assert todo2[k] == todo[k];
        if i == |nodes| {
          assert todo[|todo| - 1].end <= todo[k].start;
        } else {
          assert Nested(todo[k], nodes[i]);
        }
      } else {
        assert todo2[k].start >= c.start && todo2[k].end <= c.End();
        if i < |nodes| {
          assert Nested(todo[|todo| - 1], nodes[i]);
        }
      }
    }
  }

  lemma StepCounts(nodes: seq<FlatNode>, todo: seq<BuildEntry>, prims: seq<Prim>, leafSize: nat,
                   nLeafs: int, c: FlatNode, mid: int)
    requires EntriesOk(nodes, todo, |prims|) && ParentsOk(nodes, todo) && Counts(nodes, todo, |prims|, nLeafs)
    requires |nodes| < RootMarker
    requires PopShape(todo, prims, leafSize, c, mid)
    ensures Counts(TouchParent(nodes + [c], Top(todo).parent), NextTodo(todo, c, |nodes|, mid), |prims|,
                   nLeafs + (if c.IsLeaf() then 1 else 0))
  {
    TouchFacts(nodes, todo, |prims|, c);
    LeafCountAppend(nodes, TouchParent(nodes + [c], Top(todo).parent), c);
    WeightNext(todo, c, |nodes|, mid);
  }

  /** Appending node `c` (and re-marking earlier nodes without changing
      which of them are leaves) adds one leaf exactly when `c` is one. */
  lemma LeafCountAppend(nodes: seq<FlatNode>, nodes2: seq<FlatNode>, c: FlatNode)
    requires |nodes2| == |nodes| + 1 && nodes2[|nodes|] == c
    requires forall i :: 0 <= i < |nodes| ==> (nodes2[i].IsLeaf() <==> nodes[i].IsLeaf())
    ensures LeafCount(nodes2) == LeafCount(nodes) + (if c.IsLeaf() then 1 else 0)
  {
    LeafCountSameLeaves(nodes2[..|nodes|], nodes);
  }

  /** Popping the top item and pushing the halves of its range changes
      the stack's weight by one less than twice the range's length for a
      leaf, and by one for an internal node. */
  lemma WeightNext(todo: seq<BuildEntry>, c: FlatNode, n: int, mid: int)
    requires |todo| > 0 && (!c.IsLeaf() ==> c.start < mid < c.End())
    ensures Weight(NextTodo(todo, c, n, mid)) == Weight(todo[..|todo| - 1]) + (if c.IsLeaf() then 0 else 2 * (c.End() - c.start) - 2)
  {
    var rest := todo[..|todo| - 1];
    if c.IsLeaf() {
      assert NextTodo(todo, c, n, mid) == rest;
    } else {
      var r, l := BuildEntry(n, mid, c.End()), BuildEntry(n, c.start, mid);
      assert NextTodo(todo, c, n, mid) == rest + [r, l];
      assert (rest + [r, l])[..|rest| + 1] == rest + [r];
      assert (rest + [r])[..|rest|] == rest;
    }
  }

  /** One iteration of the builder's loop keeps the invariant, with the
      primitives of the popped range reordered by the partition. */
  lemma BuildStep(nodes: seq<FlatNode>, todo: seq<BuildEntry>, prims: seq<Prim>, leafSize: nat,
                  nLeafs: int, c: FlatNode, mid: int, nodes2: seq<FlatNode>, todo2: seq<BuildEntry>,
                  prims2: seq<Prim>, nLeafs2: int)
    requires Popped(nodes, todo, prims, leafSize, nLeafs, c, mid)
    requires PermutedRange(prims, prims2, c.start, c.End())
    requires !c.IsLeaf() ==> SplitOk(prims2, c.start, mid, c.End())
    requires nodes2 == TouchParent(nodes + [c], Top(todo).parent)
    requires todo2 == NextTodo(todo, c, |nodes|, mid)
    requires nLeafs2 == nLeafs + (if c.IsLeaf() then 1 else 0)
    ensures BuildInv(nodes2, todo2, prims2, leafSize, nLeafs2)
    ensures |nodes2| <= 2 * |prims2| - 1
  {
    PoppedBound(nodes, todo, |prims|, nLeafs);
    StepEntries(nodes, todo, prims, leafSize, c, mid);
    StepNodes(nodes, todo, prims, leafSize, c, mid, prims2);
    StepChain(nodes, todo, prims, leafSize, c, mid);
    StepOffsets(nodes, todo, prims, leafSize, c, mid);
    StepParents(nodes, todo, prims, leafSize, c, mid);
    StepLaminar(nodes, todo, prims, leafSize, c, mid);
    StepCounts(nodes, todo, prims, leafSize, nLeafs, c, mid);
    StepSplits(nodes, todo, prims, leafSize, c, mid, prims2);
  }

  /** The stack after pushing the right and then the left half. */
  lemma PushedBoth(todo: seq<BuildEntry>, c: FlatNode, n: int, mid: int, rest: seq<BuildEntry>)
    requires |todo| > 0 && rest == todo[..|todo| - 1] && !c.IsLeaf()
    ensures rest + [BuildEntry(n, mid, c.End())] + [BuildEntry(n, c.start, mid)] == NextTodo(todo, c, n, mid)
  {
  }

  /** The two writes of the parent's touch, as the builder performs them. */
  lemma TouchInTwoWrites(nodes: seq<FlatNode>, p: int, nNodes: int)
    requires 0 <= p < |nodes| && p != RootMarker && nNodes == |nodes|
    ensures var once := nodes[p := nodes[p].(rightOffset := nodes[p].rightOffset - 1)];
      TouchParent(nodes, p)
        == if once[p].rightOffset == TouchedTwice then once[p := once[p].(rightOffset := nNodes - 1 - p)] else once
  {
    var once := nodes[p := nodes[p].(rightOffset := nodes[p].rightOffset - 1)];
    var v := nodes[p].(rightOffset := nNodes - 1 - p);
    assert once[p := v] == nodes[p := v];
  }
}
