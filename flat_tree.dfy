/** The flat node array of the hierarchy (ABVH.h): node layout, the
    builder's sentinel constants, the shape every built array has, and the
    facts about that shape that the traversal relies on. */
module FlatTree {
  import opened Geometry

  /** `rightOffset` of a freshly created internal node. */
  const Untouched: int := 0xffff_ffff
  /** `rightOffset` once both children have been created; it is replaced
      by the real offset at once. */
  const TouchedTwice: int := 0xffff_fffd
  /** The `parent` of the root's work item: "no parent to touch". */
  const RootMarker: int := 0xffff_fffc
  /** Largest primitive count for which every node index (at most 2N - 2)
      stays below the 32-bit sentinels above. */
  const MaxPrims: int := 0x7fff_fffe
  /** `leafSize` when the constructor is called without one. */
  const DefaultLeafSize: nat := 4

  /** Outcome of a ray/box slab test: hit flag, entry and exit distance. */
  datatype BoxHit = BoxHit(hit: bool, tnear: real, tfar: real)

  /** `ABVHFlatNode`: the box, the primitive range `[start, start+nPrims)`,
      the offset of the right child (0 for a leaf), and the cache of the
      node's most recent box test. */
  datatype FlatNode = FlatNode(bbox: BBox, start: int, nPrims: int, rightOffset: int,
                               hit: bool, tnear: real, tfar: real)
  {
    predicate IsLeaf() { rightOffset == 0 }

    function End(): int { start + nPrims }

    /** Same node apart from the traversal cache: what the build fixes. */
    predicate SameShape(other: FlatNode) {
      bbox == other.bbox && start == other.start && nPrims == other.nPrims
      && rightOffset == other.rightOffset
    }

    /** The node after storing a box test in its cache. */
    function WithBox(b: BoxHit): (n: FlatNode)
      ensures n.SameShape(this)
      ensures n.hit == b.hit && n.tnear == b.tnear && n.tfar == b.tfar
    {
      this.(hit := b.hit, tnear := b.tnear, tfar := b.tfar)
    }
  }

  /** The builder's leaf test as written at ABVH.cpp:194. */
  predicate IsLeafSizeAsWritten(nPrims: int, leafSize: nat) {
    nPrims <= leafSize
  }

  /** The leaf test the model uses: the source's test, except that a run of
      a single primitive is always a leaf, so that `leafSize == 0` means
      "one primitive per leaf" instead of a build that never ends. */
  predicate IsLeafSize(nPrims: int, leafSize: nat) {
    nPrims <= leafSize || nPrims <= 1
  }

  /** The leaf test agrees with the source whenever `leafSize >= 1`, and
      every run it refuses to make a leaf can be split into two non-empty
      parts. */
  lemma LeafTestAgrees(nPrims: int, leafSize: nat)
    requires nPrims >= 1
    ensures leafSize >= 1 ==> (IsLeafSize(nPrims, leafSize) <==> IsLeafSizeAsWritten(nPrims, leafSize))
    ensures !IsLeafSize(nPrims, leafSize) ==> nPrims >= 2
  {
  }

  /** The split index after the partition put its split at `mid0`: when
      every primitive landed on one side, the fallback middle split. */
  function SplitIndex(start: int, end: int, mid0: int): (mid: int)
    requires start <= mid0 <= end
    ensures end - start >= 2 ==> start < mid < end
    ensures start < mid0 < end ==> mid == mid0
  {
    if mid0 == start || mid0 == end then start + (end - start) / 2 else mid0
  }

  /** The range `[s, e)` is split at `m` the builder's way
      (ABVH.cpp:217-235): on the axis `d` along which the box of the
      range's centroids is longest, every primitive of `[s, m)` has its
      centroid below the middle of that box and every primitive of
      `[m, e)` does not; when all the centroids share their `d` coordinate,
      `m` is the middle of the range. */
  ghost predicate SplitOk(prims: seq<Prim>, s: int, m: int, e: int) {
    && 0 <= s < m < e <= |prims|
    && var h := CentroidHull(prims[s..e]);
       var d := MaxDimension(h);
       if Extent(h, d) == 0 then m == s + (e - s) / 2
       else
         && (forall k :: s <= k < m ==> Below(prims[k], d, h.min.At(d) + h.max.At(d)))
         && (forall k :: m <= k < e ==> !Below(prims[k], d, h.min.At(d) + h.max.At(d)))
  }

  /** Node `i`'s range is split the builder's way at the end of its left
      child, the node after it. */
  ghost predicate SplitAt(nodes: seq<FlatNode>, prims: seq<Prim>, i: nat)
    requires i + 1 < |nodes|
  {
    SplitOk(prims, nodes[i].start, nodes[i + 1].End(), nodes[i].End())
  }

  /** Every internal node's range is split the builder's way. */
  ghost predicate CentroidSplits(nodes: seq<FlatNode>, prims: seq<Prim>) {
    forall i {:trigger SplitAt(nodes, prims, i)} ::
      0 <= i < |nodes| - 1 && !nodes[i].IsLeaf() ==> SplitAt(nodes, prims, i)
  }

  /** Where the next node in array order starts: a leaf is followed by the
      primitives after its own, an internal node by its left child. */
  function NextStart(n: FlatNode): int {
    if n.IsLeaf() then n.End() else n.start
  }

  /** Node `i` has a well-defined primitive range and box. */
  ghost predicate NodeOk(n: FlatNode, prims: seq<Prim>, leafSize: nat) {
    && 1 <= n.nPrims && 0 <= n.start && n.End() <= |prims|
    && (n.IsLeaf() <==> IsLeafSize(n.nPrims, leafSize))
    && n.bbox == Hull(prims[n.start..n.End()])
  }

  /** The right child of node `i` is inside the array, after the left one. */
  predicate Linked(nodes: seq<FlatNode>, i: nat)
    requires i < |nodes|
  {
    nodes[i].IsLeaf() || (2 <= nodes[i].rightOffset && i + nodes[i].rightOffset < |nodes|)
  }

  predicate AllLinked(nodes: seq<FlatNode>) {
    forall i :: 0 <= i < |nodes| ==> Linked(nodes, i)
  }

  /** The children of internal node `i` split its range: the left child
      (at `i+1`) takes the front, the right child (at `i+rightOffset`)
      the rest. */
  predicate ChildrenSplit(nodes: seq<FlatNode>, i: nat)
    requires i < |nodes| && Linked(nodes, i) && !nodes[i].IsLeaf()
  {
    var l, r := nodes[i + 1], nodes[i + nodes[i].rightOffset];
    && l.start == nodes[i].start
    && r.start == l.End()
    && r.End() == nodes[i].End()
  }

  /** Consecutive nodes follow pre-order: each node starts at `NextStart`
      of the one before it. */
  predicate Chained(nodes: seq<FlatNode>) {
    forall i :: 0 <= i < |nodes| - 1 ==> nodes[i + 1].start == NextStart(nodes[i])
  }

  /** The shape of every array the builder produces over `prims`. */
  ghost predicate WellFormed(nodes: seq<FlatNode>, prims: seq<Prim>, leafSize: nat) {
    && |nodes| >= 1
    && nodes[0].start == 0 && nodes[0].nPrims == |prims|
    && (forall i :: 0 <= i < |nodes| ==> NodeOk(nodes[i], prims, leafSize))
    && AllLinked(nodes)
    && (forall i :: 0 <= i < |nodes| && !nodes[i].IsLeaf() ==> ChildrenSplit(nodes, i))
    && Chained(nodes)
    && nodes[|nodes| - 1].IsLeaf() && nodes[|nodes| - 1].End() == |prims|
    && CentroidSplits(nodes, prims)
  }

  /** Arrays that agree on every node's shape, that is, on everything but
      the traversal cache. */
  predicate SameShapes(a: seq<FlatNode>, b: seq<FlatNode>) {
    |a| == |b| && forall i :: 0 <= i < |a| ==> a[i].SameShape(b[i])
  }

  /** Being well formed is a property of the shapes alone: traversal, which
      writes only cache fields, cannot break it. */
  lemma WellFormedIgnoresCache(a: seq<FlatNode>, b: seq<FlatNode>, prims: seq<Prim>, leafSize: nat)
    requires SameShapes(a, b)
    requires WellFormed(a, prims, leafSize)
    ensures WellFormed(b, prims, leafSize)
  {
    NodesIgnoreCache(a, b, prims, leafSize);
    LinksIgnoreCache(a, b);
    assert Chained(b);
    SplitsIgnoreCache(a, b, prims);
  }

  lemma SplitsIgnoreCache(a: seq<FlatNode>, b: seq<FlatNode>, prims: seq<Prim>)
    requires SameShapes(a, b)
    requires CentroidSplits(a, prims)
    ensures CentroidSplits(b, prims)
  {
    forall i | 0 <= i < |b| - 1 && !b[i].IsLeaf() ensures SplitAt(b, prims, i) {
      assert SplitAt(a, prims, i);
      assert a[i].SameShape(b[i]) && a[i + 1].SameShape(b[i + 1]);
    }
  }

  lemma NodesIgnoreCache(a: seq<FlatNode>, b: seq<FlatNode>, prims: seq<Prim>, leafSize: nat)
    requires SameShapes(a, b)
    requires forall i :: 0 <= i < |a| ==> NodeOk(a[i], prims, leafSize)
    ensures forall i :: 0 <= i < |b| ==> NodeOk(b[i], prims, leafSize)
  {
  }

  lemma LinksIgnoreCache(a: seq<FlatNode>, b: seq<FlatNode>)
    requires SameShapes(a, b)
    requires AllLinked(a)
    requires forall i :: 0 <= i < |a| && !a[i].IsLeaf() ==> ChildrenSplit(a, i)
    ensures AllLinked(b)
    ensures forall i :: 0 <= i < |b| && !b[i].IsLeaf() ==> ChildrenSplit(b, i)
  {
    forall i | 0 <= i < |b| ensures Linked(b, i) {
      assert Linked(a, i);
    }
    forall i | 0 <= i < |b| && !b[i].IsLeaf() ensures ChildrenSplit(b, i) {
      assert Linked(a, i) && ChildrenSplit(a, i);
    }
  }

  /** Storing a new cache into one node keeps every shape. */
  lemma SameShapesUpdate(a: seq<FlatNode>, b: seq<FlatNode>, j: nat, n: FlatNode)
    requires SameShapes(a, b) && j < |a| && n.SameShape(a[j])
    ensures SameShapes(a[j := n], b)
  {
  }

  /** Number of leaves among `nodes`. */
  function LeafCount(nodes: seq<FlatNode>): nat {
    if nodes == [] then 0
    else LeafCount(nodes[..|nodes| - 1]) + (if nodes[|nodes| - 1].IsLeaf() then 1 else 0)
  }

  /** Arrays whose nodes are leaves at the same places have as many leaves. */
  lemma {:induction false} LeafCountSameLeaves(a: seq<FlatNode>, b: seq<FlatNode>)
    requires |a| == |b|
    requires forall i :: 0 <= i < |a| ==> (a[i].IsLeaf() <==> b[i].IsLeaf())
    ensures LeafCount(a) == LeafCount(b)
  {
    if a != [] {
      LeafCountSameLeaves(a[..|a| - 1], b[..|b| - 1]);
    }
  }

  /** Total primitive count of the leaves among `nodes[..i]`. */
  function LeafPrims(nodes: seq<FlatNode>, i: nat): int
    requires i <= |nodes|
  {
    if i == 0 then 0
    else LeafPrims(nodes, i - 1) + (if nodes[i - 1].IsLeaf() then nodes[i - 1].nPrims else 0)
  }

  /** The leaves tile the primitive array in array order: every node starts
      where the leaves before it end, and all leaves together cover exactly
      `[0, |prims|)`. */
  lemma LeavesTile(nodes: seq<FlatNode>, prims: seq<Prim>, leafSize: nat)
    requires WellFormed(nodes, prims, leafSize)
    ensures forall i :: 0 <= i < |nodes| ==> nodes[i].start == LeafPrims(nodes, i)
    ensures LeafPrims(nodes, |nodes|) == |prims|
  {
    forall i | 0 <= i < |nodes| ensures nodes[i].start == LeafPrims(nodes, i) {
      LeafStart(nodes, i);
    }
  }

  lemma {:induction false} LeafStart(nodes: seq<FlatNode>, i: nat)
    requires i < |nodes| && nodes[0].start == 0 && Chained(nodes)
    ensures nodes[i].start == LeafPrims(nodes, i)
  {
    if i > 0 {
      LeafStart(nodes, i - 1);
    }
  }

  /** Number of nodes in the subtree rooted at `i`. */
  ghost function SubtreeSize(nodes: seq<FlatNode>, i: nat): (n: nat)
    requires AllLinked(nodes) && i < |nodes|
    ensures n >= 1
    decreases |nodes| - i
  {
    assert Linked(nodes, i);
    if nodes[i].IsLeaf() then 1
    else 1 + SubtreeSize(nodes, i + 1) + SubtreeSize(nodes, i + nodes[i].rightOffset)
  }
}
