/** The hierarchy object (ABVH.h:23-38): the primitive array it was built
    over (not owned, reordered by the build), the flat node array it owns,
    its counters, and its two operations, the build (ABVH.cpp:128-254) and
    the ray query (ABVH.cpp:21-122). */
module Hierarchy {
  import opened Geometry
  import opened FlatTree
  import opened BuildInvariant
  import opened Traversal

  class ABVH {
    var nNodes: int
    var nLeafs: int
    const leafSize: nat
    /** The caller's primitive vector; the build reorders it in place. */
    const buildPrims: array<Prim>
    /** The flat node array, `null` until the build has run. */
    var flatTree: array?<FlatNode>

    /** A built hierarchy: `nNodes` nodes, all of the shape the builder
        produces, `nLeafs` of them leaves. */
    ghost predicate Valid()
      reads this, buildPrims, flatTree
    {
      && flatTree != null
      && flatTree.Length == nNodes
      && 1 <= buildPrims.Length <= MaxPrims
      && WellFormed(flatTree[..], buildPrims[..], leafSize)
      && nLeafs == LeafCount(flatTree[..])
      && nNodes == 2 * nLeafs - 1
    }

    /** ABVH.cpp:128-138: store the arguments, then build. */
    constructor(objects: array<Prim>, leafSize: nat := DefaultLeafSize)
      requires 1 <= objects.Length <= MaxPrims
      modifies objects
      ensures Valid()
      ensures buildPrims == objects && this.leafSize == leafSize
      ensures multiset(objects[..]) == multiset(old(objects[..]))
      ensures fresh(flatTree)
    {
      nNodes, nLeafs := 0, 0;
      this.leafSize := leafSize;
      buildPrims := objects;
      flatTree := null;
      new;
      Build();
    }

    /** ABVH.cpp:184-189: the box of the primitives in `[start, end)` and
        the box of their centroids. */
    method RangeBounds(start: int, end: int) returns (bb: BBox, bc: BBox)
      requires 0 <= start < end <= buildPrims.Length
      ensures bb == Hull(buildPrims[start..end])
      ensures bc == CentroidHull(buildPrims[start..end])
    {
      bb := buildPrims[start].box;
      bc := PointBox(buildPrims[start].centroid);
      var p := start + 1;
      while p < end
        invariant start + 1 <= p <= end
        invariant bb == Hull(buildPrims[start..p])
        invariant bc == CentroidHull(buildPrims[start..p])
      {
        assert buildPrims[start..p + 1][..p - start] == buildPrims[start..p];
        bb := Union(bb, buildPrims[p].box);
        bc := Union(bc, PointBox(buildPrims[p].centroid));
        p := p + 1;
      }
    }

    /** ABVH.cpp:224-230: move the primitives of `[start, end)` whose
        centroid lies below the split to the front; `mid` is where the rest
        begins. */
    method Partition(start: int, end: int, dim: Axis, split2: int) returns (mid: int)
      requires 0 <= start <= end <= buildPrims.Length
      modifies buildPrims
      ensures start <= mid <= end
      ensures forall k :: start <= k < mid ==> Below(buildPrims[k], dim, split2)
      ensures forall k :: mid <= k < end ==> !Below(buildPrims[k], dim, split2)
      ensures PermutedRange(old(buildPrims[..]), buildPrims[..], start, end)
    {
      PermutedRangeRefl(buildPrims[..], start, end);
      mid := start;
      var i := start;
      while i < end
        invariant start <= mid <= i <= end
        invariant forall k :: start <= k < mid ==> Below(buildPrims[k], dim, split2)
        invariant forall k :: mid <= k < i ==> !Below(buildPrims[k], dim, split2)
        invariant PermutedRange(old(buildPrims[..]), buildPrims[..], start, end)
      {
        if Below(buildPrims[i], dim, split2) {
          Swap(i, mid, old(buildPrims[..]), start, end);
          mid := mid + 1;
        }
        i := i + 1;
      }
    }

    /** `std::swap` of two primitives inside the range being partitioned. */
    method Swap(i: int, j: int, ghost p0: seq<Prim>, ghost s: int, ghost t: int)
      requires s <= i < t && s <= j < t && PermutedRange(p0, buildPrims[..], s, t)
      modifies buildPrims
      ensures buildPrims[i] == old(buildPrims[j]) && buildPrims[j] == old(buildPrims[i])
      ensures forall k :: 0 <= k < buildPrims.Length && k != i && k != j ==> buildPrims[k] == old(buildPrims[k])
      ensures PermutedRange(p0, buildPrims[..], s, t)
    {
      PermutedRangeSwap(p0, buildPrims[..], s, t, i, j);
      buildPrims[i], buildPrims[j] := buildPrims[j], buildPrims[i];
    }

    /** ABVH.cpp:173-211: pop the top work item, count and build its node
        (the scratch `node` keeps its cache fields), append it, and let it
        touch its parent. */
    method AddNode(todo: seq<BuildEntry>, buildnodes: seq<FlatNode>, node: FlatNode)
      returns (bnode: BuildEntry, rest: seq<BuildEntry>, nodes2: seq<FlatNode>, c: FlatNode, bc: BBox)
      requires |todo| > 0 && 0 <= Top(todo).start < Top(todo).end <= buildPrims.Length
      requires Top(todo).parent == RootMarker || 0 <= Top(todo).parent < |buildnodes|
      requires nNodes == |buildnodes|
      modifies this`nNodes, this`nLeafs
      ensures bnode == Top(todo) && rest == todo[..|todo| - 1]
      ensures NodeFor(bnode, buildPrims[..], leafSize, c)
      ensures bc == CentroidHull(buildPrims[c.start..c.End()])
      ensures nodes2 == TouchParent(buildnodes + [c], bnode.parent)
      ensures nNodes == old(nNodes) + 1 && buildPrims[..] == old(buildPrims[..])
      ensures nLeafs == old(nLeafs) + (if c.IsLeaf() then 1 else 0)
    {
      bnode := todo[|todo| - 1];
      rest := todo[..|todo| - 1];
      var start, end := bnode.start, bnode.end;
      var nPrims := end - start;

      nNodes := nNodes + 1;
      c := node.(start := start, nPrims := nPrims, rightOffset := Untouched);
      var bb;
      bb, bc := RangeBounds(start, end);
      c := c.(bbox := bb);
      if IsLeafSize(nPrims, leafSize) {
        c := c.(rightOffset := 0);
        nLeafs := nLeafs + 1;
      }
      nodes2 := buildnodes + [c];

      // The new node touches its parent; the root has none.
      if bnode.parent != RootMarker {
        var p := bnode.parent;
        TouchInTwoWrites(nodes2, p, nNodes);
        nodes2 := nodes2[p := nodes2[p].(rightOffset := nodes2[p].rightOffset - 1)];
        if nodes2[p].rightOffset == TouchedTwice {
          nodes2 := nodes2[p := nodes2[p].(rightOffset := nNodes - 1 - p)];
        }
      }
    }

    /** ABVH.cpp:217-235: split an internal node's range `[start, end)` at
        the middle of its centroid box `bc` along the box's longest axis;
        `mid0` is where the partition put the split and `mid` the split
        used, the middle of the range when the partition left one side
        empty. */
    method SplitRange(start: int, end: int, bc: BBox) returns (dim: Axis, mid0: int, mid: int)
      requires 0 <= start && start + 2 <= end <= buildPrims.Length
      requires bc == CentroidHull(buildPrims[start..end])
      modifies buildPrims
      ensures dim == MaxDimension(bc)
      ensures start <= mid0 <= end
      ensures forall k :: start <= k < mid0 ==> Below(buildPrims[k], dim, bc.min.At(dim) + bc.max.At(dim))
      ensures forall k :: mid0 <= k < end ==> !Below(buildPrims[k], dim, bc.min.At(dim) + bc.max.At(dim))
      ensures mid == SplitIndex(start, end, mid0) && start < mid < end
      ensures PermutedRange(old(buildPrims[..]), buildPrims[..], start, end)
      ensures SplitOk(buildPrims[..], start, mid, end)
    {
      ghost var prims0 := buildPrims[..];
      dim := MaxDimension(bc);
      var split2 := bc.min.At(dim) + bc.max.At(dim);
      mid0 := Partition(start, end, dim, split2);
      mid := mid0;
      if mid == start || mid == end {
        mid := start + (end - start) / 2;
      }
      PartitionSplits(prims0, buildPrims[..], start, end, bc, dim, mid0, mid);
    }

    /** One pass of the build loop (ABVH.cpp:171-248): pop a range, add its
        node, and for an internal node split the range and push both
        halves.  The loop's invariant holds again afterwards, with one
        more node. */
    method BuildIteration(todo: seq<BuildEntry>, buildnodes: seq<FlatNode>, node: FlatNode)
      returns (todo2: seq<BuildEntry>, nodes2: seq<FlatNode>, node2: FlatNode)
      requires BuildInv(buildnodes, todo, buildPrims[..], leafSize, nLeafs) && |todo| > 0
      requires nNodes == |buildnodes|
      modifies this`nNodes, this`nLeafs, buildPrims
      ensures NodeFor(Top(todo), old(buildPrims[..]), leafSize, node2)
      ensures nodes2 == TouchParent(buildnodes + [node2], Top(todo).parent)
      ensures node2.IsLeaf() ==> todo2 == todo[..|todo| - 1] && buildPrims[..] == old(buildPrims[..])
      ensures !node2.IsLeaf() ==>
        && |todo2| > 0 && todo2 == NextTodo(todo, node2, |buildnodes|, Top(todo2).end)
        && SplitOk(buildPrims[..], node2.start, Top(todo2).end, node2.End())
      ensures BuildInv(nodes2, todo2, buildPrims[..], leafSize, nLeafs)
      ensures nNodes == |nodes2| == |buildnodes| + 1 && |nodes2| <= 2 * buildPrims.Length - 1
      ensures multiset(buildPrims[..]) == multiset(old(buildPrims[..]))
    {
      ghost var prims0, nLeafs0 := buildPrims[..], nLeafs;
      PopReady(buildnodes, todo, prims0, leafSize, nLeafs);
      var bnode, rest, bc;
      bnode, rest, nodes2, node2, bc := AddNode(todo, buildnodes, node);
      assert nNodes == |nodes2| == |buildnodes| + 1;
      todo2 := Subdivide(todo, rest, buildnodes, nodes2, node2, bc, prims0, nLeafs0);
    }

    /** ABVH.cpp:194-247: a leaf ends its range; an internal node's range is
        split and both halves are pushed. */
    method Subdivide(todo: seq<BuildEntry>, rest: seq<BuildEntry>, buildnodes: seq<FlatNode>, nodes2: seq<FlatNode>,
                     c: FlatNode, bc: BBox, ghost prims0: seq<Prim>, ghost nLeafs0: int)
      returns (todo2: seq<BuildEntry>)
      requires BuildInv(buildnodes, todo, prims0, leafSize, nLeafs0) && |todo| > 0 && rest == todo[..|todo| - 1]
      requires NodeFor(Top(todo), prims0, leafSize, c)
      requires bc == CentroidHull(prims0[c.start..c.End()])
      requires buildPrims[..] == prims0 && nNodes == |buildnodes| + 1
      requires nLeafs == nLeafs0 + (if c.IsLeaf() then 1 else 0)
      requires nodes2 == TouchParent(buildnodes + [c], Top(todo).parent)
      modifies buildPrims
      ensures c.IsLeaf() ==> todo2 == rest && buildPrims[..] == prims0
      ensures !c.IsLeaf() ==>
        && |todo2| > 0 && todo2 == NextTodo(todo, c, |buildnodes|, Top(todo2).end)
        && SplitOk(buildPrims[..], c.start, Top(todo2).end, c.End())
      ensures BuildInv(nodes2, todo2, buildPrims[..], leafSize, nLeafs)
      ensures |nodes2| <= 2 * buildPrims.Length - 1
      ensures multiset(buildPrims[..]) == multiset(prims0)
    {
      if c.rightOffset == 0 {
        todo2 := rest;
        LeafAdded(todo, buildnodes, nodes2, c, nLeafs0);
      } else {
        var mid;
        todo2, mid := PushHalves(todo, buildnodes, nodes2, c, bc, prims0, nLeafs0);
        assert Top(todo2) == BuildEntry(|buildnodes|, c.start, mid);
      }
    }

    /** ABVH.cpp:194-197: the new node `c` is a leaf; nothing is pushed. */
    lemma LeafAdded(todo: seq<BuildEntry>, buildnodes: seq<FlatNode>, nodes2: seq<FlatNode>, c: FlatNode,
                    nLeafs0: int)
      requires BuildInv(buildnodes, todo, buildPrims[..], leafSize, nLeafs0) && |todo| > 0
      requires NodeFor(Top(todo), buildPrims[..], leafSize, c) && c.IsLeaf()
      requires nLeafs == nLeafs0 + 1
      requires nodes2 == TouchParent(buildnodes + [c], Top(todo).parent)
      ensures BuildInv(nodes2, todo[..|todo| - 1], buildPrims[..], leafSize, nLeafs)
      ensures |nodes2| <= 2 * buildPrims.Length - 1
    {
      ghost var prims := buildPrims[..];
      PermutedRangeRefl(prims, c.start, c.End());
      BuildStep(buildnodes, todo, prims, leafSize, nLeafs0, c, c.start, nodes2, todo[..|todo| - 1], prims, nLeafs);
    }

    /** ABVH.cpp:213-247: the new node `c` is internal; split its range and
        push the right half, then the left half, with `c` as their parent. */
    method PushHalves(todo: seq<BuildEntry>, buildnodes: seq<FlatNode>, nodes2: seq<FlatNode>, c: FlatNode,
                      bc: BBox, ghost prims0: seq<Prim>, ghost nLeafs0: int)
      returns (todo2: seq<BuildEntry>, mid: int)
      requires BuildInv(buildnodes, todo, prims0, leafSize, nLeafs0) && |todo| > 0
      requires NodeFor(Top(todo), prims0, leafSize, c) && !c.IsLeaf()
      requires bc == CentroidHull(prims0[c.start..c.End()])
      requires buildPrims[..] == prims0 && nLeafs == nLeafs0 && nNodes == |buildnodes| + 1
      requires nodes2 == TouchParent(buildnodes + [c], Top(todo).parent)
      modifies buildPrims
      ensures todo2 == NextTodo(todo, c, |buildnodes|, mid)
      ensures SplitOk(buildPrims[..], c.start, mid, c.End())
      ensures BuildInv(nodes2, todo2, buildPrims[..], leafSize, nLeafs)
      ensures |nodes2| <= 2 * buildPrims.Length - 1
      ensures multiset(buildPrims[..]) == multiset(prims0)
    {
      LeafTestAgrees(c.nPrims, leafSize);
      var parent := nNodes - 1;
      var _, _, mid1 := SplitRange(c.start, c.End(), bc);
      mid := mid1;
      ghost var prims1 := buildPrims[..];
      PermutedRangeWhole(prims0, prims1, c.start, c.End());
      todo2 := todo[..|todo| - 1] + [BuildEntry(parent, mid, c.End())];
      todo2 := todo2 + [BuildEntry(parent, c.start, mid)];
      PushedBoth(todo, c, parent, mid, todo[..|todo| - 1]);
      BuildStep(buildnodes, todo, prims0, leafSize, nLeafs0, c, mid, nodes2, todo2, prims1, nLeafs);
    }

    /** ABVH.cpp:250-253: copy the nodes into a fresh array of exactly
        their number. */
    static method CopyNodes(buildnodes: seq<FlatNode>) returns (ft: array<FlatNode>)
      ensures fresh(ft) && ft[..] == buildnodes
    {
      ft := new FlatNode[|buildnodes|];
      var n := 0;
      while n < |buildnodes|
        invariant 0 <= n <= |buildnodes| == ft.Length
        invariant ft[..n] == buildnodes[..n]
      {
        ft[n] := buildnodes[n];
        n := n + 1;
      }
    }

    /** ABVH.cpp:155-254: the work-stack build, then the copy into a fresh
        array of exactly `nNodes` nodes. */
    method Build()
      requires 1 <= buildPrims.Length <= MaxPrims
      requires nNodes == 0 && nLeafs == 0
      modifies this, buildPrims
      ensures Valid()
      ensures multiset(buildPrims[..]) == multiset(old(buildPrims[..]))
      ensures fresh(flatTree)
    {
      var todo := [BuildEntry(RootMarker, 0, buildPrims.Length)];
      // The cache fields of the scratch node are never set by the build.
      var node: FlatNode := *;
      var buildnodes: seq<FlatNode> := [];
      BuildInvInit(buildPrims[..], leafSize);
      while |todo| > 0
        invariant BuildInv(buildnodes, todo, buildPrims[..], leafSize, nLeafs)
        invariant nNodes == |buildnodes| <= 2 * buildPrims.Length
        invariant multiset(buildPrims[..]) == multiset(old(buildPrims[..]))
        decreases 2 * buildPrims.Length - |buildnodes|
      {
        todo, buildnodes, node := BuildIteration(todo, buildnodes, node);
      }
      ghost var prims := buildPrims[..];
      BuildInvDone(buildnodes, prims, leafSize, nLeafs);

      flatTree := CopyNodes(buildnodes);
      assert flatTree[..] == buildnodes && buildPrims[..] == prims;
    }

    /** ABVH.cpp:46-64: intersect the primitives of leaf `node` in order.
        In occlusion mode the first hit ends the query; otherwise a hit
        replaces the result when it is strictly closer, with `ft` set to
        the leaf's cached exit distance. */
    method IntersectLeaf(node: FlatNode, primTest: Prim -> PrimHit, occlusion: bool, info0: Info)
      returns (occluded: bool, info: Info)
      requires 0 <= node.start && 0 <= node.nPrims && node.End() <= buildPrims.Length
      ensures occluded <==> occlusion && exists k :: node.start <= k < node.End() && primTest(buildPrims[k]).hit
      ensures occlusion ==> info == info0
      ensures !occlusion ==> info == LeafScan(buildPrims[node.start..node.End()], node.start, primTest, node.tfar, info0)
    {
      info := info0;
      var o := 0;
      while o < node.nPrims
        invariant 0 <= o <= node.nPrims
        invariant occlusion ==> info == info0
        invariant occlusion ==> forall k :: node.start <= k < node.start + o ==> !primTest(buildPrims[k]).hit
        invariant !occlusion ==>
          info == LeafScan(buildPrims[node.start..node.start + o], node.start, primTest, node.tfar, info0)
      {
        var current := primTest(buildPrims[node.start + o]);
        assert buildPrims[node.start..node.start + o + 1][..o] == buildPrims[node.start..node.start + o];
        if current.hit {
          if occlusion {
            return true, info;
          }
          if current.t < info.t {
            info := Info(current.t, node.tfar, Some(node.start + o));
          }
        }
        o := o + 1;
      }
      return false, info;
    }

    /** ABVH.cpp:71-84: refresh the cached box tests of the children at
        `li` and `ri` in place. */
    method RefreshChildren(li: int, ri: int, boxTest: BBox -> BoxHit, ghost shape: seq<FlatNode>)
      requires flatTree != null && 0 <= li < flatTree.Length && 0 <= ri < flatTree.Length && li != ri
      requires SameShapes(flatTree[..], shape)
      modifies flatTree
      ensures var r := Refresh(old(flatTree[li]), old(flatTree[ri]), boxTest);
        flatTree[..] == old(flatTree[..])[li := r.0][ri := r.1]
      ensures SameShapes(flatTree[..], shape)
    {
      var ur := flatTree[ri].IsLeaf() || !flatTree[ri].hit;
      var ul := flatTree[li].IsLeaf() || !flatTree[li].hit;
      var lp, rp := flatTree[li].hit, flatTree[ri].hit;
      if ul {
        flatTree[li] := flatTree[li].WithBox(boxTest(flatTree[li].bbox));
      }
      if ur {
        flatTree[ri] := flatTree[ri].WithBox(boxTest(flatTree[ri].bbox));
      }
      var lhit, rhit := flatTree[li].hit, flatTree[ri].hit;
      ul := !ul && (ur && rhit != rp);
      ur := !ur && (ul && lhit != lp);
      if ul {
        flatTree[li] := flatTree[li].WithBox(boxTest(flatTree[li].bbox));
      }
      // The second re-test of the right child needs `ur` both false and
      // true before the flip: it can never fire.
      if ur {
        assert false;
      }
      assert forall j :: 0 <= j < flatTree.Length ==> flatTree[j].SameShape(old(flatTree[j]));
    }

    /** ABVH.cpp:66-113: at internal node `ni`, refresh the children's
        cached box tests, clear the node's own cached hit when both
        children miss, and push the children that were hit, the nearer
        one last. */
    method VisitInternal(ni: nat, li: int, ri: int, boxTest: BBox -> BoxHit, todo: seq<Work>, ghost shape: seq<FlatNode>)
      returns (todo2: seq<Work>, left: FlatNode, right: FlatNode)
      requires flatTree != null && SameShapes(flatTree[..], shape)
      requires ni < |shape| && !shape[ni].IsLeaf() && Linked(shape, ni)
      requires li == ni + 1 && ri == ni + shape[ni].rightOffset
      modifies flatTree
      ensures SameShapes(flatTree[..], shape)
      ensures (left, right) == Refresh(old(flatTree[li]), old(flatTree[ri]), boxTest)
      ensures todo2 == todo + ChildEntries(li, ri, left, right)
      ensures flatTree[..] == old(flatTree[..])[li := left][ri := right]
                                [ni := if !left.hit && !right.hit then old(flatTree[ni]).(hit := false) else old(flatTree[ni])]
      ensures flatTree[..] == InternalVisit(old(flatTree[..]), ni, boxTest).0
      ensures todo2 == todo + InternalVisit(old(flatTree[..]), ni, boxTest).1
      ensures left == flatTree[li] && right == flatTree[ri]
    {
      RefreshChildren(li, ri, boxTest, shape);
      left, right := flatTree[li], flatTree[ri];
      // Both children missed: clear the node's own cached hit so that its
      // parent re-tests it next time.
      if !left.hit && !right.hit {
        SameShapesUpdate(flatTree[..], shape, ni, flatTree[ni].(hit := false));
        flatTree[ni] := flatTree[ni].(hit := false);
      }
      todo2 := todo + ChildEntries(li, ri, left, right);
    }

    /** A leaf popped from the stack and not pruned (ABVH.cpp:46-64): its
        primitives are intersected; in occlusion mode the first hit ends
        the query. */
    method LeafStep(boxTest: BBox -> BoxHit, primTest: Prim -> PrimHit, occlusion: bool, ft0: real,
                    todo: seq<Work>, info: Info, ghost shape: seq<FlatNode>,
                    ghost reached: set<int>, ghost missed: set<int>, ghost skipped: set<Skip>)
      returns (occluded: bool, info2: Info, ghost reached2: set<int>)
      requires flatTree != null && SameShapes(flatTree[..], shape) && WellFormed(shape, buildPrims[..], leafSize)
      requires Walk(shape, buildPrims[..], primTest, boxTest, occlusion, ft0, todo, info, reached, missed, skipped)
      requires |todo| > 0 && shape[todo[|todo| - 1].i].IsLeaf()
      ensures var n := shape[todo[|todo| - 1].i];
        && reached2 == reached + Range(n) && 0 <= n.start <= n.End() <= buildPrims.Length
        && (occluded <==> occlusion && exists k :: n.start <= k < n.End() && primTest(buildPrims[k]).hit)
        && info2 == (if occlusion then info
                     else LeafScan(buildPrims[n.start..n.End()], n.start, primTest, flatTree[todo[|todo| - 1].i].tfar, info))
      ensures occluded ==> occlusion && info2 == info
      ensures occluded ==> (forall k :: k in reached2 ==> 0 <= k < buildPrims.Length)
                           && exists k :: k in reached2 && primTest(buildPrims[k]).hit
      ensures !occluded ==>
        && Walk(shape, buildPrims[..], primTest, boxTest, occlusion, ft0, todo[..|todo| - 1], info2, reached2, missed, skipped)
        && StackOk(shape, todo[..|todo| - 1]) && StackWeight(shape, todo[..|todo| - 1]) < StackWeight(shape, todo)
    {
      ghost var prims := buildPrims[..];
      var ni := todo[|todo| - 1].i;
      var node := flatTree[ni];
      assert node.SameShape(shape[ni]) && NodeOk(shape[ni], prims, leafSize);
      assert node.start == shape[ni].start && node.End() == shape[ni].End();
      occluded, info2 := IntersectLeaf(node, primTest, occlusion, info);
      reached2 := reached + Range(shape[ni]);
      if occluded {
        ghost var k :| node.start <= k < node.End() && primTest(buildPrims[k]).hit;
        assert k in reached2;
        return;
      }
      WalkLeaf(shape, prims, primTest, boxTest, occlusion, ft0, todo, info, reached, missed, skipped,
               node.tfar, todo[..|todo| - 1], info2, reached2);
    }

    /** An internal node popped from the stack and not pruned
        (ABVH.cpp:65-113): its children's boxes are tested and the
        children that were hit are pushed. */
    method InternalStep(boxTest: BBox -> BoxHit, primTest: Prim -> PrimHit, occlusion: bool, ft0: real,
                        todo: seq<Work>, info: Info, ni: nat, li: int, ri: int, ghost shape: seq<FlatNode>,
                        ghost reached: set<int>, ghost missed: set<int>, ghost skipped: set<Skip>)
      returns (todo2: seq<Work>, ghost missed2: set<int>)
      requires flatTree != null && SameShapes(flatTree[..], shape) && WellFormed(shape, buildPrims[..], leafSize)
      requires Walk(shape, buildPrims[..], primTest, boxTest, occlusion, ft0, todo, info, reached, missed, skipped)
      requires |todo| > 0 && ni == todo[|todo| - 1].i && !shape[ni].IsLeaf()
      requires li == ni + 1 && ri == ni + shape[ni].rightOffset
      modifies flatTree
      ensures SameShapes(flatTree[..], shape)
      ensures Linked(old(flatTree[..]), ni) && 0 <= li < flatTree.Length && 0 <= ri < flatTree.Length
      ensures flatTree[..] == InternalVisit(old(flatTree[..]), ni, boxTest).0
      ensures todo2 == todo[..|todo| - 1] + InternalVisit(old(flatTree[..]), ni, boxTest).1
      ensures missed2 == MissedBy(missed, old(flatTree[..]), ni, boxTest)
      ensures Walk(shape, buildPrims[..], primTest, boxTest, occlusion, ft0, todo2, info, reached, missed2, skipped)
      ensures StackOk(shape, todo2) && StackWeight(shape, todo2) < StackWeight(shape, todo)
    {
      ghost var prims := buildPrims[..];
      assert flatTree[ni].SameShape(shape[ni]) && Linked(shape, ni) && ChildrenSplit(shape, ni);
      ghost var c1, c2 := flatTree[li], flatTree[ri];
      assert c1.SameShape(shape[li]) && c2.SameShape(shape[ri]);
      ghost var before := flatTree[..];
      assert Linked(before, ni) && ri == ni + before[ni].rightOffset;
      var left, right;
      todo2, left, right := VisitInternal(ni, li, ri, boxTest, todo[..|todo| - 1], shape);
      ghost var after := flatTree[..];
      assert after == InternalVisit(before, ni, boxTest).0;
      assert buildPrims[..] == prims;
      assert after[li] == flatTree[li] && after[ri] == flatTree[ri];
      MissedByChildren(missed, before, ni, boxTest, li, ri, after);
      missed2 := MissedAfter(missed, li, ri, flatTree[li], flatTree[ri]);
      WalkInternal(shape, prims, primTest, boxTest, occlusion, ft0, todo, info, reached, missed, skipped,
                   ni, li, ri, c1, c2, flatTree[li], flatTree[ri], todo2);
    }

    /** One pass of the query loop (ABVH.cpp:35-114): pop an entry, drop
        it when it lies beyond the nearest hit, otherwise visit the leaf or
        internal node it names.  `occluded` is the early exit of occlusion
        mode on the first hit. */
    method Visit(boxTest: BBox -> BoxHit, primTest: Prim -> PrimHit, occlusion: bool, ft0: real,
                 todo: seq<Work>, info: Info, ghost shape: seq<FlatNode>,
                 ghost reached: set<int>, ghost missed: set<int>, ghost skipped: set<Skip>)
      returns (occluded: bool, todo2: seq<Work>, info2: Info,
               ghost reached2: set<int>, ghost missed2: set<int>, ghost skipped2: set<Skip>)
      requires flatTree != null && SameShapes(flatTree[..], shape) && WellFormed(shape, buildPrims[..], leafSize)
      requires Walk(shape, buildPrims[..], primTest, boxTest, occlusion, ft0, todo, info, reached, missed, skipped)
      requires |todo| > 0
      modifies flatTree
      ensures SameShapes(flatTree[..], shape)
      ensures var e := todo[|todo| - 1];
        Pruned(e, info) ==>
          && !occluded && todo2 == todo[..|todo| - 1] && info2 == info && flatTree[..] == old(flatTree[..])
          && reached2 == reached && missed2 == missed && skipped2 == skipped + {Skip(e, info.ft)}
      ensures var e := todo[|todo| - 1]; var n := shape[e.i];
        !Pruned(e, info) && n.IsLeaf() ==>
          && todo2 == todo[..|todo| - 1] && flatTree[..] == old(flatTree[..])
          && reached2 == reached + Range(n) && missed2 == missed && skipped2 == skipped
          && 0 <= n.start <= n.End() <= buildPrims.Length
          && (occluded <==> occlusion && exists k :: n.start <= k < n.End() && primTest(buildPrims[k]).hit)
          && info2 == (if occlusion then info
                       else LeafScan(buildPrims[n.start..n.End()], n.start, primTest, old(flatTree[e.i]).tfar, info))
      ensures var e := todo[|todo| - 1];
        !Pruned(e, info) && !shape[e.i].IsLeaf() ==>
          && !occluded && info2 == info && reached2 == reached && skipped2 == skipped
          && Linked(old(flatTree[..]), e.i)
          && flatTree[..] == InternalVisit(old(flatTree[..]), e.i, boxTest).0
          && todo2 == todo[..|todo| - 1] + InternalVisit(old(flatTree[..]), e.i, boxTest).1
          && missed2 == MissedBy(missed, old(flatTree[..]), e.i, boxTest)
      ensures occluded ==> occlusion && info2 == info && missed2 == missed && skipped2 == skipped
      ensures occluded ==> (forall k :: k in reached2 ==> 0 <= k < buildPrims.Length)
                           && exists k :: k in reached2 && primTest(buildPrims[k]).hit
      ensures !occluded ==>
        && Walk(shape, buildPrims[..], primTest, boxTest, occlusion, ft0, todo2, info2, reached2, missed2, skipped2)
        && StackOk(shape, todo2) && StackWeight(shape, todo2) < StackWeight(shape, todo)
    {
      var ni, near := todo[|todo| - 1].i, todo[|todo| - 1].mint;
      todo2 := todo[..|todo| - 1];
      occluded, info2, reached2, missed2, skipped2 := false, info, reached, missed, skipped;
      if near > info.t && near > info.ft {
        skipped2 := skipped + {Skip(todo[|todo| - 1], info.ft)};
        WalkSkip(shape, buildPrims[..], primTest, boxTest, occlusion, ft0, todo, info, reached, missed, skipped,
                 todo2, skipped2);
      } else if flatTree[ni].rightOffset == 0 {
        assert flatTree[ni].SameShape(shape[ni]);
        occluded, info2, reached2 := LeafStep(boxTest, primTest, occlusion, ft0, todo, info, shape, reached, missed, skipped);
      } else {
        assert flatTree[ni].SameShape(shape[ni]) && Linked(shape, ni);
        var li, ri := ni + 1, ni + flatTree[ni].rightOffset;
        todo2, missed2 := InternalStep(boxTest, primTest, occlusion, ft0, todo, info, ni, li, ri, shape, reached, missed, skipped);
      }
    }

    /** One pass of the query loop (ABVH.cpp:35-114) is one step of the
        reference query `Query`. */
    method Pass(boxTest: BBox -> BoxHit, primTest: Prim -> PrimHit, occlusion: bool, ft0: real,
                todo: seq<Work>, info: Info, ghost shape: seq<FlatNode>,
                ghost reached: set<int>, ghost missed: set<int>, ghost skipped: set<Skip>)
      returns (occluded: bool, todo2: seq<Work>, info2: Info,
               ghost reached2: set<int>, ghost missed2: set<int>, ghost skipped2: set<Skip>)
      requires flatTree != null && SameShapes(flatTree[..], shape) && WellFormed(shape, buildPrims[..], leafSize)
      requires Walk(shape, buildPrims[..], primTest, boxTest, occlusion, ft0, todo, info, reached, missed, skipped)
      requires |todo| > 0
      modifies flatTree
      ensures SameShapes(flatTree[..], shape)
      ensures !occluded ==>
        Walk(shape, buildPrims[..], primTest, boxTest, occlusion, ft0, todo2, info2, reached2, missed2, skipped2)
      ensures Runs(shape, buildPrims[..], State(old(flatTree[..]), todo, info, reached, missed, skipped))
      ensures QueryStep(shape, buildPrims[..], primTest, boxTest, occlusion, State(old(flatTree[..]), todo, info, reached, missed, skipped))
           == if occluded then Done(Outcome(true, info2, flatTree[..], reached2, missed2, skipped2))
              else Next(State(flatTree[..], todo2, info2, reached2, missed2, skipped2))
    {
      ghost var st := State(flatTree[..], todo, info, reached, missed, skipped);
      WellFormedWalkable(shape, buildPrims[..], leafSize);
      occluded, todo2, info2, reached2, missed2, skipped2 :=
        Visit(boxTest, primTest, occlusion, ft0, todo, info, shape, reached, missed, skipped);
      PassIsStep(shape, buildPrims[..], primTest, boxTest, occlusion, st, occluded,
                 State(flatTree[..], todo2, info2, reached2, missed2, skipped2));
    }

    /** A query changes only the traversal cache, so the hierarchy stays
        valid. */
    lemma ValidAfterQuery(shape: seq<FlatNode>)
      requires flatTree != null && SameShapes(flatTree[..], shape) && WellFormed(shape, buildPrims[..], leafSize)
      requires 1 <= buildPrims.Length <= MaxPrims
      requires nLeafs == LeafCount(shape) && |shape| == nNodes == 2 * nLeafs - 1
      ensures Valid()
    {
      WellFormedIgnoresCache(shape, flatTree[..], buildPrims[..], leafSize);
      LeafCountSameLeaves(shape, flatTree[..]);
    }

    /** ABVH.cpp:21-122: the ray query.  The box test and the primitive
        test are the oracles `boxTest` and `primTest`; `ft0` is the `ft`
        the caller's result held.  Besides the answer, the ghost outputs
        tell which primitives were intersected (`reached`), which nodes
        were passed over because their box test missed (`missed`), and
        which stack entries were pruned by distance (`skipped`). */
    method GetIntersection(boxTest: BBox -> BoxHit, primTest: Prim -> PrimHit, occlusion: bool, ft0: real)
      returns (found: bool, info: Info, ghost reached: set<int>, ghost missed: set<int>, ghost skipped: set<Skip>)
      requires Valid()
      modifies flatTree
      ensures Valid() && SameShapes(flatTree[..], old(flatTree[..]))
      ensures forall k :: k in reached ==> 0 <= k < buildPrims.Length
      ensures found <==> exists k :: k in reached && primTest(buildPrims[k]).hit && (occlusion || primTest(buildPrims[k]).t < Far)
      ensures occlusion ==> info == Initial(ft0)
      ensures !occlusion ==> (found <==> info.obj.Some?) && NearestSoFar(buildPrims[..], primTest, reached, info, ft0)
      ensures forall j :: j in missed ==> 0 <= j < nNodes && !boxTest(old(flatTree[..])[j].bbox).hit
      ensures forall s :: s in skipped ==> 0 <= s.e.i < nNodes && s.e.mint > info.t && s.e.mint > s.ft
      ensures !(occlusion && found) ==>
        forall k :: 0 <= k < buildPrims.Length ==> Accounted(old(flatTree[..]), reached, missed, skipped, k)
      ensures Runs(old(flatTree[..]), buildPrims[..], Start(old(flatTree[..]), ft0))
      ensures Outcome(found, info, flatTree[..], reached, missed, skipped)
           == Query(old(flatTree[..]), buildPrims[..], primTest, boxTest, occlusion, Start(old(flatTree[..]), ft0))
    {
      ghost var shape := flatTree[..];
      var occluded;
      occluded, info, reached, missed, skipped := Traverse(boxTest, primTest, occlusion, ft0, shape);
      QueryAnswers(shape, buildPrims[..], leafSize, primTest, boxTest, occlusion, ft0);
      ValidAfterQuery(shape);
      if occluded {
        return true, info, reached, missed, skipped;
      }
      found := info.obj.Some?;
    }

    /** The loop of the ray query (ABVH.cpp:23-114), from the root entry to
        an empty stack or, in occlusion mode, to the first hit: it computes
        `Query` from the start state. */
    method Traverse(boxTest: BBox -> BoxHit, primTest: Prim -> PrimHit, occlusion: bool, ft0: real, ghost shape: seq<FlatNode>)
      returns (occluded: bool, info: Info, ghost reached: set<int>, ghost missed: set<int>, ghost skipped: set<Skip>)
      requires flatTree != null && flatTree[..] == shape && WellFormed(shape, buildPrims[..], leafSize)
      modifies flatTree
      ensures SameShapes(flatTree[..], shape)
      ensures Runs(shape, buildPrims[..], Start(shape, ft0))
      ensures Outcome(occluded || info.obj.Some?, info, flatTree[..], reached, missed, skipped)
           == Query(shape, buildPrims[..], primTest, boxTest, occlusion, Start(shape, ft0))
    {
      WellFormedWalkable(shape, buildPrims[..], leafSize);
      ghost var whole := Query(shape, buildPrims[..], primTest, boxTest, occlusion, Start(shape, ft0));
      occluded, info := false, Initial(ft0);
      reached, missed, skipped := {}, {}, {};
      var todo := [Work(0, NearInit)];
      WalkInit(shape, buildPrims[..], leafSize, primTest, boxTest, occlusion, ft0);
      while |todo| > 0
        invariant SameShapes(flatTree[..], shape) && !occluded
        invariant Walk(shape, buildPrims[..], primTest, boxTest, occlusion, ft0, todo, info, reached, missed, skipped)
        invariant Query(shape, buildPrims[..], primTest, boxTest, occlusion, State(flatTree[..], todo, info, reached, missed, skipped))
               == whole
        decreases StackWeight(shape, todo)
      {
        ghost var st := State(flatTree[..], todo, info, reached, missed, skipped);
        QueryUnfold(shape, buildPrims[..], primTest, boxTest, occlusion, st);
        occluded, todo, info, reached, missed, skipped :=
          Pass(boxTest, primTest, occlusion, ft0, todo, info, shape, reached, missed, skipped);
        if occluded {
          return;
        }
      }
      QueryUnfold(shape, buildPrims[..], primTest, boxTest, occlusion, State(flatTree[..], todo, info, reached, missed, skipped));
    }
  }
}
