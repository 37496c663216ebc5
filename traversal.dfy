/** The pure rules of the stack traversal (ABVH.cpp:21-122): how a leaf's
    primitives update the nearest hit, how the cached box tests of two
    children are refreshed, which children are pushed and in what order,
    and the bookkeeping that shows no primitive is lost on the way. */
module Traversal {
  import opened Geometry
  import opened FlatTree

  datatype Option<T> = None | Some(value: T)

  /** `t` of the first hit handed out before any primitive was hit. */
  const Far: real := 999999999.0
  /** `mint` of the root's entry: the root is never pruned by distance. */
  const NearInit: real := -9999999.0

  /** `ABVHTraversal`: a node still to visit and its entry distance. */
  datatype Work = Work(i: int, mint: real)

  /** An entry dropped by distance, with the `ft` of the result at the time
      it was dropped. */
  datatype Skip = Skip(e: Work, ft: real)

  /** Outcome of intersecting one primitive: hit flag and distance. */
  datatype PrimHit = PrimHit(hit: bool, t: real)

  /** `IntersectionInfo` without the hit point: the distance of the nearest
      hit so far, the `tfar` of the leaf it came from, and the index into
      the primitive array of the object hit (`None` for NULL). */
  datatype Info = Info(t: real, ft: real, obj: Option<int>)

  /** The result before any primitive is hit; `ft0` is whatever the caller
      left in `ft`. */
  function Initial(ft0: real): Info {
    Info(Far, ft0, None)
  }

  /** Primitive `k` with test result `h`, found in a leaf with exit distance
      `tfar`, replaces `info` only when it is strictly closer. */
  function Closer(info: Info, k: int, h: PrimHit, tfar: real): (r: Info)
    ensures r.t <= info.t && (h.hit ==> r.t <= h.t)
    ensures r != info <==> h.hit && h.t < info.t
    ensures r != info ==> r == Info(h.t, tfar, Some(k))
  {
    if h.hit && h.t < info.t then Info(h.t, tfar, Some(k)) else info
  }

  /** The nearest-hit scan over a leaf's primitives `ps`, which sit at
      `base, base+1, ...` of the primitive array. */
  function LeafScan(ps: seq<Prim>, base: int, primTest: Prim -> PrimHit, tfar: real, info: Info): (r: Info)
    ensures r.t <= info.t
    ensures forall o :: 0 <= o < |ps| && primTest(ps[o]).hit ==> r.t <= primTest(ps[o]).t
    ensures r == info || (r.t < info.t && exists o :: 0 <= o < |ps| && primTest(ps[o]).hit
                                             && r == Info(primTest(ps[o]).t, tfar, Some(base + o)))
    decreases |ps|
  {
    if ps == [] then info
    else
      var r0 := LeafScan(ps[..|ps| - 1], base, primTest, tfar, info);
      assert forall o :: 0 <= o < |ps| - 1 ==> ps[..|ps| - 1][o] == ps[o];
      Closer(r0, base + |ps| - 1, primTest(ps[|ps| - 1]), tfar)
  }

  /** A scan over primitives none of which is hit changes nothing. */
  lemma {:induction false} LeafScanNoHit(ps: seq<Prim>, base: int, primTest: Prim -> PrimHit, tfar: real, info: Info)
    requires forall o :: 0 <= o < |ps| ==> !primTest(ps[o]).hit
    ensures LeafScan(ps, base, primTest, tfar, info) == info
  {
    if ps != [] {
      assert forall o :: 0 <= o < |ps| - 1 ==> ps[..|ps| - 1][o] == ps[o];
      LeafScanNoHit(ps[..|ps| - 1], base, primTest, tfar, info);
    }
  }

  /** `LeafScan` over the slice `p[s..e]`, stated with indices into `p`. */
  lemma LeafScanIn(p: seq<Prim>, s: int, e: int, primTest: Prim -> PrimHit, tfar: real, info: Info)
    requires 0 <= s <= e <= |p|
    ensures var r := LeafScan(p[s..e], s, primTest, tfar, info);
      && r.t <= info.t
      && (forall k :: s <= k < e && primTest(p[k]).hit ==> r.t <= primTest(p[k]).t)
      && (r == info || (r.t < info.t && exists k :: s <= k < e && primTest(p[k]).hit
                                           && r == Info(primTest(p[k]).t, tfar, Some(k))))
  {
    var r := LeafScan(p[s..e], s, primTest, tfar, info);
    forall k | s <= k < e && primTest(p[k]).hit ensures r.t <= primTest(p[k]).t {
      assert p[s..e][k - s] == p[k];
    }
    if r != info {
      var o :| 0 <= o < e - s && primTest(p[s..e][o]).hit && r == Info(primTest(p[s..e][o]).t, tfar, Some(s + o));
      assert p[s..e][o] == p[s + o];
    }
  }

  /** Among hits at the same distance the scan keeps the earliest one. */
  lemma {:induction false} LeafScanKeepsFirst(ps: seq<Prim>, base: int, primTest: Prim -> PrimHit, tfar: real,
                                              info: Info, o: int)
    requires LeafScan(ps, base, primTest, tfar, info).obj == Some(base + o)
    requires LeafScan(ps, base, primTest, tfar, info) != info
    requires 0 <= o < |ps|
    ensures forall p :: 0 <= p < o && primTest(ps[p]).hit ==> primTest(ps[o]).t < primTest(ps[p]).t
  {
    var r0 := LeafScan(ps[..|ps| - 1], base, primTest, tfar, info);
    assert forall q :: 0 <= q < |ps| - 1 ==> ps[..|ps| - 1][q] == ps[q];
    if o < |ps| - 1 {
      LeafScanKeepsFirst(ps[..|ps| - 1], base, primTest, tfar, info, o);
    }
  }

  /** What the nearest-hit search knows after scanning the primitives
      `reached`: the result is the initial one exactly when nothing was
      recorded, a recorded object is a reached primitive that is hit at the
      recorded distance, and no reached hit is closer. */
  ghost predicate NearestSoFar(prims: seq<Prim>, primTest: Prim -> PrimHit, reached: set<int>, info: Info, ft0: real) {
    && (info.obj == None ==> info == Initial(ft0))
    && (info.obj.Some? ==>
          && info.obj.value in reached && 0 <= info.obj.value < |prims|
          && primTest(prims[info.obj.value]).hit && info.t == primTest(prims[info.obj.value]).t
          && info.t < Far)
    && (forall k :: k in reached && 0 <= k < |prims| && primTest(prims[k]).hit ==> info.t <= primTest(prims[k]).t)
  }

  /** Scanning one more leaf, starting from what was known, leaves the
      search knowing as much about the larger set of primitives. */
  lemma NearestLeafStep(prims: seq<Prim>, primTest: Prim -> PrimHit, reached: set<int>, info: Info, ft0: real,
                        n: FlatNode, tfar: real)
    requires NearestSoFar(prims, primTest, reached, info, ft0)
    requires 0 <= n.start <= n.End() <= |prims|
    ensures NearestSoFar(prims, primTest, reached + Range(n),
                         LeafScan(prims[n.start..n.End()], n.start, primTest, tfar, info), ft0)
  {
    var r := LeafScan(prims[n.start..n.End()], n.start, primTest, tfar, info);
    LeafScanIn(prims, n.start, n.End(), primTest, tfar, info);
    if r != info {
      var k :| n.start <= k < n.End() && primTest(prims[k]).hit && r == Info(primTest(prims[k]).t, tfar, Some(k));
      assert k in Range(n);
    }
  }

  // ---------------------------------------------------------------------
  // The children of an internal node.

  /** Lines 71-84: re-test the box of a child whose cached test is a miss
      or which is a leaf; then, when the right child's fresh test flipped
      while the left one kept a cached hit, re-test the left one as well.
      The matching second re-test of the right child is written in the
      source but can never fire. */
  function Refresh(left: FlatNode, right: FlatNode, boxTest: BBox -> BoxHit): (r: (FlatNode, FlatNode))
    ensures r.0.SameShape(left) && r.1.SameShape(right)
    ensures r.1 == (if right.IsLeaf() || !right.hit then right.WithBox(boxTest(right.bbox)) else right)
    ensures (left.IsLeaf() || !left.hit) ==> r.0 == left.WithBox(boxTest(left.bbox))
    ensures r.0 == left.WithBox(boxTest(left.bbox)) || (r.0 == left && left.hit)
    ensures r.0 == (if left.IsLeaf() || !left.hit
                       || ((right.IsLeaf() || !right.hit) && boxTest(right.bbox).hit != right.hit)
                    then left.WithBox(boxTest(left.bbox)) else left)
    ensures !r.0.hit ==> !boxTest(left.bbox).hit
    ensures !r.1.hit ==> !boxTest(right.bbox).hit
  {
    var ur := right.IsLeaf() || !right.hit;
    var ul := left.IsLeaf() || !left.hit;
    var lp, rp := left.hit, right.hit;
    var l1 := if ul then left.WithBox(boxTest(left.bbox)) else left;
    var r1 := if ur then right.WithBox(boxTest(right.bbox)) else right;
    var ul2 := !ul && (ur && r1.hit != rp);
    var ur2 := !ur && (ul2 && l1.hit != lp);
    var l2 := if ul2 then l1.WithBox(boxTest(l1.bbox)) else l1;
    var r2 := if ur2 then r1.WithBox(boxTest(r1.bbox)) else r1;
    (l2, r2)
  }

  /** When every cached hit of an internal child agrees with a fresh box
      test, the refresh amounts to testing both children afresh. */
  lemma CoherentCacheIsFresh(left: FlatNode, right: FlatNode, boxTest: BBox -> BoxHit)
    requires left.hit && !left.IsLeaf() ==> left == left.WithBox(boxTest(left.bbox))
    requires right.hit && !right.IsLeaf() ==> right == right.WithBox(boxTest(right.bbox))
    ensures Refresh(left, right, boxTest) == (left.WithBox(boxTest(left.bbox)), right.WithBox(boxTest(right.bbox)))
  {
  }

  /** Lines 86-113: the entries pushed for children `l` (at `li`) and `r`
      (at `ri`) after their refresh, the one to visit first last. */
  function ChildEntries(li: int, ri: int, l: FlatNode, r: FlatNode): (s: seq<Work>)
    requires li != ri
    ensures |s| == (if l.hit then 1 else 0) + (if r.hit then 1 else 0)
    ensures l.hit ==> Work(li, l.tnear) in s
    ensures r.hit ==> Work(ri, r.tnear) in s
    ensures forall e :: e in s ==> (e == Work(li, l.tnear) && l.hit) || (e == Work(ri, r.tnear) && r.hit)
    ensures |s| == 2 ==> s[1].mint <= s[0].mint && s[0].i != s[1].i
    ensures |s| == 2 && l.tnear == r.tnear ==> s[1].i == li
  {
    if !l.hit && !r.hit then []
    else if l.hit && r.hit then
      if r.tnear < l.tnear then [Work(li, l.tnear), Work(ri, r.tnear)]
      else [Work(ri, r.tnear), Work(li, l.tnear)]
    else if l.hit then [Work(li, l.tnear)]
    else [Work(ri, r.tnear)]
  }

  /** The missed set after visiting an internal node whose children `li`
      and `ri` were refreshed into `l` and `r`: each child that now misses
      is added. */
  function MissedAfter(missed: set<int>, li: int, ri: int, l: FlatNode, r: FlatNode): set<int>
  {
    missed + (if l.hit then {} else {li}) + (if r.hit then {} else {ri})
  }

  /** Lines 66-113 on the node array `nodes`: the children of internal node
      `ni` refreshed, the node's own cached hit cleared when both children
      now miss, and the entries to push for the children that were hit. */
  function InternalVisit(nodes: seq<FlatNode>, ni: int, boxTest: BBox -> BoxHit): (r: (seq<FlatNode>, seq<Work>))
    requires 0 <= ni < |nodes| && !nodes[ni].IsLeaf() && Linked(nodes, ni)
    ensures var li, ri := ni + 1, ni + nodes[ni].rightOffset;
      && |r.0| == |nodes|
      && (forall j :: 0 <= j < |nodes| ==> r.0[j].SameShape(nodes[j]))
      && (forall j :: 0 <= j < |nodes| && j != ni && j != li && j != ri ==> r.0[j] == nodes[j])
      && (r.0[li], r.0[ri]) == Refresh(nodes[li], nodes[ri], boxTest)
      && r.0[ni] == nodes[ni].(hit := nodes[ni].hit && (r.0[li].hit || r.0[ri].hit))
      && r.1 == ChildEntries(li, ri, r.0[li], r.0[ri])
  {
    var li, ri := ni + 1, ni + nodes[ni].rightOffset;
    var lr := Refresh(nodes[li], nodes[ri], boxTest);
    var n := if !lr.0.hit && !lr.1.hit then nodes[ni].(hit := false) else nodes[ni];
    (nodes[li := lr.0][ri := lr.1][ni := n], ChildEntries(li, ri, lr.0, lr.1))
  }

  /** The missed set after `InternalVisit` of node `ni`: each child whose
      refreshed box test failed is added. */
  function MissedBy(missed: set<int>, nodes: seq<FlatNode>, ni: int, boxTest: BBox -> BoxHit): set<int>
    requires 0 <= ni < |nodes| && !nodes[ni].IsLeaf() && Linked(nodes, ni)
  {
    var li, ri := ni + 1, ni + nodes[ni].rightOffset;
    var nodes2 := InternalVisit(nodes, ni, boxTest).0;
    MissedAfter(missed, li, ri, nodes2[li], nodes2[ri])
  }

  /** `MissedBy` read off the refreshed array `nodes2` and the children
      `li`, `ri`. */
  lemma MissedByChildren(missed: set<int>, nodes: seq<FlatNode>, ni: int, boxTest: BBox -> BoxHit,
                         li: int, ri: int, nodes2: seq<FlatNode>)
    requires 0 <= ni < |nodes| && !nodes[ni].IsLeaf() && Linked(nodes, ni)
    requires li == ni + 1 && ri == ni + nodes[ni].rightOffset && nodes2 == InternalVisit(nodes, ni, boxTest).0
    ensures 0 <= li < |nodes2| && 0 <= ri < |nodes2|
    ensures MissedBy(missed, nodes, ni, boxTest) == MissedAfter(missed, li, ri, nodes2[li], nodes2[ri])
  {
  }

  /** Line 42: an entry is dropped when it lies beyond both the nearest hit
      and the `ft` of the result. */
  predicate Pruned(e: Work, info: Info) {
    e.mint > info.t && e.mint > info.ft
  }

  // ---------------------------------------------------------------------
  // Bookkeeping for the traversal loop.

  /** Every entry names a node of `shape`. */
  predicate StackOk(shape: seq<FlatNode>, todo: seq<Work>) {
    forall j :: 0 <= j < |todo| ==> 0 <= todo[j].i < |shape|
  }

  /** Total size of the subtrees still to visit: the loop's variant. */
  ghost function StackWeight(shape: seq<FlatNode>, todo: seq<Work>): nat
    requires AllLinked(shape) && StackOk(shape, todo)
  {
    if todo == [] then 0
    else StackWeight(shape, todo[..|todo| - 1]) + SubtreeSize(shape, todo[|todo| - 1].i)
  }

  /** Popping the top entry takes its subtree's size off the weight. */
  lemma PopWeight(shape: seq<FlatNode>, todo: seq<Work>)
    requires AllLinked(shape) && StackOk(shape, todo) && |todo| > 0
    ensures StackOk(shape, todo[..|todo| - 1])
    ensures StackWeight(shape, todo) == StackWeight(shape, todo[..|todo| - 1]) + SubtreeSize(shape, todo[|todo| - 1].i)
  {
  }

  /** Replacing an internal node's entry by entries for some of its two
      children lowers the weight. */
  lemma PushWeight(shape: seq<FlatNode>, rest: seq<Work>, ni: nat, s: seq<Work>)
    requires AllLinked(shape) && ni < |shape| && !shape[ni].IsLeaf() && StackOk(shape, rest)
    requires |s| <= 2 && (|s| == 2 ==> s[0].i != s[1].i)
    requires forall e :: e in s ==> e.i == ni + 1 || e.i == ni + shape[ni].rightOffset
    ensures Linked(shape, ni) && StackOk(shape, rest + s)
    ensures StackWeight(shape, rest + s) < StackWeight(shape, rest) + SubtreeSize(shape, ni)
  {
    assert Linked(shape, ni);
    var a, b := ni + 1, ni + shape[ni].rightOffset;
    var sa, sb := SubtreeSize(shape, a), SubtreeSize(shape, b);
    assert SubtreeSize(shape, ni) == 1 + sa + sb;
    if |s| == 1 {
      assert s[0] in s && rest + s == rest + [s[0]];
      assert s[0].i == a || s[0].i == b;
      PushOne(shape, rest, s[0]);
    } else if |s| == 2 {
      assert s[0] in s && s[1] in s && rest + s == rest + [s[0]] + [s[1]];
      assert (s[0].i == a && s[1].i == b) || (s[0].i == b && s[1].i == a);
      assert SubtreeSize(shape, s[0].i) + SubtreeSize(shape, s[1].i) == sa + sb;
      PushOne(shape, rest, s[0]);
      PushOne(shape, rest + [s[0]], s[1]);
    } else {
      assert rest + s == rest;
    }
  }

  /** Pushing one entry adds its subtree's size to the weight. */
  lemma PushOne(shape: seq<FlatNode>, rest: seq<Work>, e: Work)
    requires AllLinked(shape) && StackOk(shape, rest) && 0 <= e.i < |shape|
    ensures StackOk(shape, rest + [e])
    ensures StackWeight(shape, rest + [e]) == StackWeight(shape, rest) + SubtreeSize(shape, e.i)
  {
    assert (rest + [e])[..|rest|] == rest;
  }

  /** Replacing the top entry, an internal node, by entries for some of
      its children lowers the weight of the whole stack. */
  lemma InternalWeight(shape: seq<FlatNode>, todo: seq<Work>, ni: nat, s: seq<Work>)
    requires AllLinked(shape) && StackOk(shape, todo) && |todo| > 0 && ni == todo[|todo| - 1].i
    requires ni < |shape| && !shape[ni].IsLeaf() && |s| <= 2 && (|s| == 2 ==> s[0].i != s[1].i)
    requires forall e :: e in s ==> e.i == ni + 1 || e.i == ni + shape[ni].rightOffset
    ensures StackOk(shape, todo[..|todo| - 1] + s)
    ensures StackWeight(shape, todo[..|todo| - 1] + s) < StackWeight(shape, todo)
  {
    PopWeight(shape, todo);
    PushWeight(shape, todo[..|todo| - 1], ni, s);
  }

  predicate InRange(n: FlatNode, k: int) {
    n.start <= k < n.End()
  }

  /** Primitive `k` lies under some entry still on the stack. */
  ghost predicate OnStack(shape: seq<FlatNode>, todo: seq<Work>, k: int) {
    exists j :: 0 <= j < |todo| && 0 <= todo[j].i < |shape| && InRange(shape[todo[j].i], k)
  }

  /** Primitive `k` was dealt with: it lies in a leaf that was reached, under
      a child whose box test missed, or under an entry that was pruned. */
  ghost predicate Accounted(shape: seq<FlatNode>, reached: set<int>, missed: set<int>, skipped: set<Skip>, k: int) {
    || k in reached
    || (exists j :: j in missed && 0 <= j < |shape| && InRange(shape[j], k))
    || (exists s :: s in skipped && 0 <= s.e.i < |shape| && InRange(shape[s.e.i], k))
  }

  ghost predicate Covered(shape: seq<FlatNode>, todo: seq<Work>, reached: set<int>, missed: set<int>,
                          skipped: set<Skip>, n: int)
  {
    forall k :: 0 <= k < n ==> Accounted(shape, reached, missed, skipped, k) || OnStack(shape, todo, k)
  }

  ghost function Range(n: FlatNode): set<int> {
    set k | n.start <= k < n.End() && InRange(n, k)
  }

  /** What was accounted for stays accounted for as the sets grow. */
  lemma AccountedGrows(shape: seq<FlatNode>, reached: set<int>, missed: set<int>, skipped: set<Skip>,
                       reached2: set<int>, missed2: set<int>, skipped2: set<Skip>, k: int)
    requires reached <= reached2 && missed <= missed2 && skipped <= skipped2
    requires Accounted(shape, reached, missed, skipped, k)
    ensures Accounted(shape, reached2, missed2, skipped2, k)
  {
  }

  /** Popping the top entry: what lies under it must now be accounted for
      or lie under one of the new entries `s`. */
  lemma CoverPop(shape: seq<FlatNode>, todo: seq<Work>, reached: set<int>, missed: set<int>, skipped: set<Skip>, n: int,
                 s: seq<Work>, reached2: set<int>, missed2: set<int>, skipped2: set<Skip>)
    requires Covered(shape, todo, reached, missed, skipped, n) && |todo| > 0 && StackOk(shape, todo)
    requires reached <= reached2 && missed <= missed2 && skipped <= skipped2
    requires forall k :: InRange(shape[todo[|todo| - 1].i], k) ==>
               Accounted(shape, reached2, missed2, skipped2, k) || OnStack(shape, todo[..|todo| - 1] + s, k)
    ensures Covered(shape, todo[..|todo| - 1] + s, reached2, missed2, skipped2, n)
  {
    var rest := todo[..|todo| - 1];
    forall k | 0 <= k < n
      ensures Accounted(shape, reached2, missed2, skipped2, k) || OnStack(shape, rest + s, k)
    {
      if Accounted(shape, reached, missed, skipped, k) {
        AccountedGrows(shape, reached, missed, skipped, reached2, missed2, skipped2, k);
      } else {
        var j :| 0 <= j < |todo| && 0 <= todo[j].i < |shape| && InRange(shape[todo[j].i], k);
        if j < |rest| {
          assert (rest + s)[j] == todo[j];
        }
      }
    }
  }

  /** A pruned entry: everything under it is accounted for by `skipped`. */
  lemma CoverSkip(shape: seq<FlatNode>, todo: seq<Work>, reached: set<int>, missed: set<int>, skipped: set<Skip>,
                  n: int, ft: real)
    requires Covered(shape, todo, reached, missed, skipped, n) && |todo| > 0 && StackOk(shape, todo)
    ensures Covered(shape, todo[..|todo| - 1], reached, missed, skipped + {Skip(todo[|todo| - 1], ft)}, n)
  {
    var sk := Skip(todo[|todo| - 1], ft);
    assert todo[..|todo| - 1] + [] == todo[..|todo| - 1];
    forall k | InRange(shape[sk.e.i], k) ensures Accounted(shape, reached, missed, skipped + {sk}, k) {
      assert sk in skipped + {sk};
    }
    CoverPop(shape, todo, reached, missed, skipped, n, [], reached, missed, skipped + {sk});
  }

  /** A leaf: everything under it is now reached. */
  lemma CoverLeaf(shape: seq<FlatNode>, todo: seq<Work>, reached: set<int>, missed: set<int>, skipped: set<Skip>, n: int)
    requires Covered(shape, todo, reached, missed, skipped, n) && |todo| > 0 && StackOk(shape, todo)
    ensures Covered(shape, todo[..|todo| - 1], reached + Range(shape[todo[|todo| - 1].i]), missed, skipped, n)
  {
    var e := todo[|todo| - 1];
    assert todo[..|todo| - 1] + [] == todo[..|todo| - 1];
    CoverPop(shape, todo, reached, missed, skipped, n, [], reached + Range(shape[e.i]), missed, skipped);
  }

  /** An internal node: each child is either pushed or recorded as missed,
      and together the children cover the node's range. */
  lemma CoverInternal(shape: seq<FlatNode>, todo: seq<Work>, reached: set<int>, missed: set<int>, skipped: set<Skip>,
                      n: int, l: FlatNode, r: FlatNode)
    requires Covered(shape, todo, reached, missed, skipped, n) && |todo| > 0 && StackOk(shape, todo)
    requires AllLinked(shape)
    requires var ni := todo[|todo| - 1].i;
      && !shape[ni].IsLeaf() && Linked(shape, ni) && ChildrenSplit(shape, ni)
      && l.SameShape(shape[ni + 1]) && r.SameShape(shape[ni + shape[ni].rightOffset])
    ensures var ni := todo[|todo| - 1].i;
      var li, ri := ni + 1, ni + shape[ni].rightOffset;
      Covered(shape, todo[..|todo| - 1] + ChildEntries(li, ri, l, r), reached, MissedAfter(missed, li, ri, l, r), skipped, n)
  {
    var ni := todo[|todo| - 1].i;
    var li, ri := ni + 1, ni + shape[ni].rightOffset;
    var s := ChildEntries(li, ri, l, r);
    var rest := todo[..|todo| - 1];
    var missed2 := MissedAfter(missed, li, ri, l, r);
    forall k | InRange(shape[ni], k)
      ensures Accounted(shape, reached, missed2, skipped, k) || OnStack(shape, rest + s, k)
    {
      if InRange(shape[li], k) {
        if l.hit {
          var j :| 0 <= j < |s| && s[j] == Work(li, l.tnear);
          assert (rest + s)[|rest| + j] == Work(li, l.tnear);
        } else {
          assert li in missed2;
        }
      } else {
        assert InRange(shape[ri], k);
        if r.hit {
          var j :| 0 <= j < |s| && s[j] == Work(ri, r.tnear);
          assert (rest + s)[|rest| + j] == Work(ri, r.tnear);
        } else {
          assert ri in missed2;
        }
      }
    }
    CoverPop(shape, todo, reached, missed, skipped, n, s, reached, missed2, skipped);
  }

  // ---------------------------------------------------------------------
  // The traversal loop's invariant and its three kinds of step.

  /** What the query knows about the primitives it has intersected: in
      occlusion mode none of them was hit and the result is untouched,
      otherwise the nearest-hit facts. */
  ghost predicate SearchOk(prims: seq<Prim>, primTest: Prim -> PrimHit, occlusion: bool, ft0: real,
                           reached: set<int>, info: Info)
  {
    && (forall k :: k in reached ==> 0 <= k < |prims|)
    && (occlusion ==> info == Initial(ft0) && forall k :: k in reached ==> !primTest(prims[k]).hit)
    && (!occlusion ==> NearestSoFar(prims, primTest, reached, info, ft0))
  }

  /** The loop invariant of the traversal over the node shapes `shape`:
      the stack names nodes, the search facts hold, every missed node's box
      test misses, every pruned entry lies beyond the current nearest
      distance and beyond the `ft` it was pruned under, and every primitive is accounted for or still under the
      stack. */
  ghost predicate Walk(shape: seq<FlatNode>, prims: seq<Prim>, primTest: Prim -> PrimHit, boxTest: BBox -> BoxHit,
                       occlusion: bool, ft0: real, todo: seq<Work>, info: Info,
                       reached: set<int>, missed: set<int>, skipped: set<Skip>)
  {
    && AllLinked(shape) && StackOk(shape, todo)
    && SearchOk(prims, primTest, occlusion, ft0, reached, info)
    && (forall j :: j in missed ==> 0 <= j < |shape| && !boxTest(shape[j].bbox).hit)
    && (forall s :: s in skipped ==> 0 <= s.e.i < |shape| && s.e.mint > info.t && s.e.mint > s.ft)
    && Covered(shape, todo, reached, missed, skipped, |prims|)
  }

  /** The query starts with the root on the stack and nothing found. */
  lemma WalkInit(shape: seq<FlatNode>, prims: seq<Prim>, leafSize: nat, primTest: Prim -> PrimHit,
                 boxTest: BBox -> BoxHit, occlusion: bool, ft0: real)
    requires WellFormed(shape, prims, leafSize)
    ensures Walk(shape, prims, primTest, boxTest, occlusion, ft0, [Work(0, NearInit)], Initial(ft0), {}, {}, {})
  {
    var todo := [Work(0, NearInit)];
    forall k | 0 <= k < |prims| ensures OnStack(shape, todo, k) {
      assert InRange(shape[todo[0].i], k);
    }
  }

  /** Popping an entry beyond both the nearest distance and its `ft` and
      dropping it. */
  lemma WalkSkip(shape: seq<FlatNode>, prims: seq<Prim>, primTest: Prim -> PrimHit, boxTest: BBox -> BoxHit,
                 occlusion: bool, ft0: real, todo: seq<Work>, info: Info,
                 reached: set<int>, missed: set<int>, skipped: set<Skip>, todo2: seq<Work>, skipped2: set<Skip>)
    requires Walk(shape, prims, primTest, boxTest, occlusion, ft0, todo, info, reached, missed, skipped)
    requires |todo| > 0 && Pruned(todo[|todo| - 1], info)
    requires todo2 == todo[..|todo| - 1] && skipped2 == skipped + {Skip(todo[|todo| - 1], info.ft)}
    ensures Walk(shape, prims, primTest, boxTest, occlusion, ft0, todo2, info, reached, missed, skipped2)
    ensures StackOk(shape, todo2) && StackWeight(shape, todo2) < StackWeight(shape, todo)
  {
    CoverSkip(shape, todo, reached, missed, skipped, |prims|, info.ft);
  }

  /** Popping a leaf and intersecting its primitives: in occlusion mode
      without a hit, otherwise with the nearest-hit scan. */
  lemma WalkLeaf(shape: seq<FlatNode>, prims: seq<Prim>, primTest: Prim -> PrimHit, boxTest: BBox -> BoxHit,
                 occlusion: bool, ft0: real, todo: seq<Work>, info: Info,
                 reached: set<int>, missed: set<int>, skipped: set<Skip>, tfar: real,
                 todo2: seq<Work>, info2: Info, reached2: set<int>)
    requires Walk(shape, prims, primTest, boxTest, occlusion, ft0, todo, info, reached, missed, skipped)
    requires |todo| > 0 && StackOk(shape, todo)
    requires todo2 == todo[..|todo| - 1] && reached2 == reached + Range(shape[todo[|todo| - 1].i])
    requires var n := shape[todo[|todo| - 1].i];
      && 0 <= n.start <= n.End() <= |prims|
      && (occlusion ==> info2 == info && forall k :: n.start <= k < n.End() ==> !primTest(prims[k]).hit)
      && (!occlusion ==> info2 == LeafScan(prims[n.start..n.End()], n.start, primTest, tfar, info))
    ensures Walk(shape, prims, primTest, boxTest, occlusion, ft0, todo2, info2, reached2, missed, skipped)
    ensures StackOk(shape, todo2) && StackWeight(shape, todo2) < StackWeight(shape, todo)
  {
    var n := shape[todo[|todo| - 1].i];
    if !occlusion {
      NearestLeafStep(prims, primTest, reached, info, ft0, n, tfar);
    }
    CoverLeaf(shape, todo, reached, missed, skipped, |prims|);
  }

  /** Popping an internal node at `ni`, refreshing the box tests of its
      children `c1` (at `li`) and `c2` (at `ri`) into `l` and `r`, pushing
      those that were hit and recording those that were missed. */
  lemma WalkInternal(shape: seq<FlatNode>, prims: seq<Prim>, primTest: Prim -> PrimHit, boxTest: BBox -> BoxHit,
                     occlusion: bool, ft0: real, todo: seq<Work>, info: Info,
                     reached: set<int>, missed: set<int>, skipped: set<Skip>,
                     ni: nat, li: int, ri: int, c1: FlatNode, c2: FlatNode, l: FlatNode, r: FlatNode,
                     todo2: seq<Work>)
    requires Walk(shape, prims, primTest, boxTest, occlusion, ft0, todo, info, reached, missed, skipped)
    requires |todo| > 0 && ni == todo[|todo| - 1].i && ni < |shape| && !shape[ni].IsLeaf()
    requires Linked(shape, ni) && ChildrenSplit(shape, ni)
    requires li == ni + 1 && ri == ni + shape[ni].rightOffset
    requires c1.SameShape(shape[li]) && c2.SameShape(shape[ri])
    requires (l, r) == Refresh(c1, c2, boxTest)
    requires todo2 == todo[..|todo| - 1] + ChildEntries(li, ri, l, r)
    ensures Walk(shape, prims, primTest, boxTest, occlusion, ft0, todo2, info, reached, MissedAfter(missed, li, ri, l, r), skipped)
    ensures StackOk(shape, todo2) && StackWeight(shape, todo2) < StackWeight(shape, todo)
  {
    CoverInternal(shape, todo, reached, missed, skipped, |prims|, l, r);
    InternalWeight(shape, todo, ni, ChildEntries(li, ri, l, r));
    MissedKept(shape, boxTest, missed, li, ri, c1, c2, l, r);
  }

  /** A child recorded as missed failed its box test, whether the test was
      fresh or a cached miss. */
  lemma MissedKept(shape: seq<FlatNode>, boxTest: BBox -> BoxHit, missed: set<int>,
                   li: int, ri: int, c1: FlatNode, c2: FlatNode, l: FlatNode, r: FlatNode)
    requires forall j :: j in missed ==> 0 <= j < |shape| && !boxTest(shape[j].bbox).hit
    requires 0 <= li < |shape| && 0 <= ri < |shape|
    requires c1.SameShape(shape[li]) && c2.SameShape(shape[ri])
    requires (l, r) == Refresh(c1, c2, boxTest)
    ensures forall j :: j in MissedAfter(missed, li, ri, l, r) ==> 0 <= j < |shape| && !boxTest(shape[j].bbox).hit
  {
  }

  /** What a query returns: the answer, the result, the node array with
      the caches the query left in it, and which primitives were
      intersected, which nodes were passed over on a missed box test and
      which entries were dropped by distance. */
  datatype Outcome = Outcome(found: bool, info: Info, nodes: seq<FlatNode>,
                             reached: set<int>, missed: set<int>, skipped: set<Skip>)

  /** A query between two passes of its loop: the node array with its
      caches, the stack, the result so far and the ghost records. */
  datatype State = State(nodes: seq<FlatNode>, todo: seq<Work>, info: Info,
                         reached: set<int>, missed: set<int>, skipped: set<Skip>)

  /** One pass of the loop ends the query or leads to the next state. */
  datatype Step = Done(o: Outcome) | Next(s: State)

  /** A query starts with the root on the stack, at the distance
      `NearInit`, and nothing found (ABVH.cpp:23-33). */
  function Start(nodes: seq<FlatNode>, ft0: real): (s: State)
    ensures s.nodes == nodes && s.info == Initial(ft0) && s.info.obj == None
    ensures s.todo == [Work(0, NearInit)] && s.reached == {} && s.missed == {} && s.skipped == {}
  {
    State(nodes, [Work(0, NearInit)], Initial(ft0), {}, {}, {})
  }

  /** The states a query over the built tree `shape` can be in. */
  ghost predicate Runs(shape: seq<FlatNode>, prims: seq<Prim>, s: State)
  {
    Walkable(shape, |prims|) && SameShapes(s.nodes, shape) && StackOk(shape, s.todo)
  }

  /** What a traversal needs of the tree: its links, and leaves within the
      `n` primitives. */
  ghost predicate Walkable(shape: seq<FlatNode>, n: int) {
    AllLinked(shape) && forall i :: 0 <= i < |shape| ==> 0 <= shape[i].start <= shape[i].End() <= n
  }

  /** Every array the builder produces can be traversed. */
  lemma WellFormedWalkable(shape: seq<FlatNode>, prims: seq<Prim>, leafSize: nat)
    requires WellFormed(shape, prims, leafSize)
    ensures Walkable(shape, |prims|)
  {
    forall i | 0 <= i < |shape| ensures 0 <= shape[i].start <= shape[i].End() <= |prims| {
      assert NodeOk(shape[i], prims, leafSize);
    }
  }

  /** One pass of the query loop (ABVH.cpp:35-114): with the stack empty
      the query ends; otherwise it pops an entry and drops it by distance,
      scans a leaf (ending an occlusion query on its first hit) or visits an
      internal node.  The tree itself is `shape`, which the caches never
      change.  Each pass that does not end the query lowers the stack's
      weight. */
  ghost function QueryStep(shape: seq<FlatNode>, prims: seq<Prim>,
                           primTest: Prim -> PrimHit, boxTest: BBox -> BoxHit, occlusion: bool, s: State): (r: Step)
    requires Runs(shape, prims, s)
    ensures s.todo == [] ==> r.Done?
    ensures r.Next? ==> Runs(shape, prims, r.s) && StackWeight(shape, r.s.todo) < StackWeight(shape, s.todo)
  {
    if s.todo == [] then Done(Outcome(s.info.obj.Some?, s.info, s.nodes, s.reached, s.missed, s.skipped))
    else
      var e, rest := s.todo[|s.todo| - 1], s.todo[..|s.todo| - 1];
      PopWeight(shape, s.todo);
      if Pruned(e, s.info) then
        Next(State(s.nodes, rest, s.info, s.reached, s.missed, s.skipped + {Skip(e, s.info.ft)}))
      else if shape[e.i].IsLeaf() then
        var n := shape[e.i];
        if occlusion && exists k :: n.start <= k < n.End() && primTest(prims[k]).hit then
          Done(Outcome(true, s.info, s.nodes, s.reached + Range(n), s.missed, s.skipped))
        else
          var info2 := if occlusion then s.info
                       else LeafScan(prims[n.start..n.End()], n.start, primTest, s.nodes[e.i].tfar, s.info);
          Next(State(s.nodes, rest, info2, s.reached + Range(n), s.missed, s.skipped))
      else
        assert Linked(shape, e.i);
        LinkedKept(shape, s.nodes, e.i);
        var v := InternalVisit(s.nodes, e.i, boxTest);
        var li, ri := e.i + 1, e.i + shape[e.i].rightOffset;
        InternalVisitShapes(shape, s.nodes, e.i, boxTest, v, li, ri);
        InternalWeight(shape, s.todo, e.i, v.1);
        Next(State(v.0, rest + v.1, s.info, s.reached, MissedAfter(s.missed, li, ri, v.0[li], v.0[ri]), s.skipped))
  }

  /** The query loop run to its end from state `s`. */
  ghost function Query(shape: seq<FlatNode>, prims: seq<Prim>,
                       primTest: Prim -> PrimHit, boxTest: BBox -> BoxHit, occlusion: bool, s: State): Outcome
    requires Runs(shape, prims, s)
    decreases StackWeight(shape, s.todo)
  {
    match QueryStep(shape, prims, primTest, boxTest, occlusion, s)
    case Done(o) => o
    case Next(s2) => Query(shape, prims, primTest, boxTest, occlusion, s2)
  }

  /** Running the query from `s` is running it from the state one pass
      later, or is the outcome of that pass. */
  lemma QueryUnfold(shape: seq<FlatNode>, prims: seq<Prim>,
                    primTest: Prim -> PrimHit, boxTest: BBox -> BoxHit, occlusion: bool, s: State)
    requires Runs(shape, prims, s)
    ensures QueryStep(shape, prims, primTest, boxTest, occlusion, s).Next? ==>
      Query(shape, prims, primTest, boxTest, occlusion, s)
      == Query(shape, prims, primTest, boxTest, occlusion, QueryStep(shape, prims, primTest, boxTest, occlusion, s).s)
    ensures QueryStep(shape, prims, primTest, boxTest, occlusion, s).Done? ==>
      Query(shape, prims, primTest, boxTest, occlusion, s)
      == QueryStep(shape, prims, primTest, boxTest, occlusion, s).o
  {
  }

  /** The answer promised for `getIntersection` (ABVH.cpp:16-20), for the
      outcome `o` of a query over `shape` that started from `Initial(ft0)`:
      found exactly when a reached primitive is hit (nearer than `Far`
      unless in occlusion mode), the nearest reached hit in nearest mode,
      missed nodes truly missed, dropped entries beyond the final result and
      the `ft` they were dropped under, and, unless an occlusion query ended
      on a hit, every primitive reached, under a missed node or under a
      dropped entry. */
  ghost predicate Answers(shape: seq<FlatNode>, prims: seq<Prim>, primTest: Prim -> PrimHit, boxTest: BBox -> BoxHit,
                          occlusion: bool, ft0: real, o: Outcome)
  {
    && SameShapes(o.nodes, shape)
    && (forall k :: k in o.reached ==> 0 <= k < |prims|)
    && (o.found <==> exists k :: k in o.reached && primTest(prims[k]).hit && (occlusion || primTest(prims[k]).t < Far))
    && (occlusion ==> o.info == Initial(ft0))
    && (!occlusion ==> (o.found <==> o.info.obj.Some?) && NearestSoFar(prims, primTest, o.reached, o.info, ft0))
    && (forall j :: j in o.missed ==> 0 <= j < |shape| && !boxTest(shape[j].bbox).hit)
    && (forall s :: s in o.skipped ==> 0 <= s.e.i < |shape| && s.e.mint > o.info.t && s.e.mint > s.ft)
    && (!(occlusion && o.found) ==> forall k :: 0 <= k < |prims| ==> Accounted(shape, o.reached, o.missed, o.skipped, k))
  }

  /** The answer is what a query over the built tree returns. */
  lemma QueryAnswers(shape: seq<FlatNode>, prims: seq<Prim>, leafSize: nat,
                     primTest: Prim -> PrimHit, boxTest: BBox -> BoxHit, occlusion: bool, ft0: real)
    requires WellFormed(shape, prims, leafSize)
    ensures Runs(shape, prims, Start(shape, ft0))
    ensures Answers(shape, prims, primTest, boxTest, occlusion, ft0,
                    Query(shape, prims, primTest, boxTest, occlusion, Start(shape, ft0)))
  {
    WellFormedWalkable(shape, prims, leafSize);
    WalkInit(shape, prims, leafSize, primTest, boxTest, occlusion, ft0);
    QuerySound(shape, prims, leafSize, primTest, boxTest, occlusion, ft0, Start(shape, ft0));
  }

  /** Whatever the query has established so far (`Walk`), running it to
      the end gives the promised answer. */
  lemma {:induction false} QuerySound(shape: seq<FlatNode>, prims: seq<Prim>, leafSize: nat,
                                      primTest: Prim -> PrimHit, boxTest: BBox -> BoxHit, occlusion: bool, ft0: real,
                                      s: State)
    requires WellFormed(shape, prims, leafSize) && SameShapes(s.nodes, shape)
    requires Walk(shape, prims, primTest, boxTest, occlusion, ft0, s.todo, s.info, s.reached, s.missed, s.skipped)
    ensures Runs(shape, prims, s)
    ensures Answers(shape, prims, primTest, boxTest, occlusion, ft0, Query(shape, prims, primTest, boxTest, occlusion, s))
    decreases StackWeight(shape, s.todo)
  {
    StepSound(shape, prims, leafSize, primTest, boxTest, occlusion, ft0, s);
    QueryUnfold(shape, prims, primTest, boxTest, occlusion, s);
    var r := QueryStep(shape, prims, primTest, boxTest, occlusion, s);
    if r.Next? {
      QuerySound(shape, prims, leafSize, primTest, boxTest, occlusion, ft0, r.s);
    }
  }

  /** A pass that drops the top entry by distance. */
  lemma StepSkip(shape: seq<FlatNode>, prims: seq<Prim>,
                 primTest: Prim -> PrimHit, boxTest: BBox -> BoxHit, occlusion: bool, s: State)
    requires Runs(shape, prims, s) && |s.todo| > 0 && Pruned(s.todo[|s.todo| - 1], s.info)
    ensures QueryStep(shape, prims, primTest, boxTest, occlusion, s)
         == Next(State(s.nodes, s.todo[..|s.todo| - 1], s.info, s.reached, s.missed,
                       s.skipped + {Skip(s.todo[|s.todo| - 1], s.info.ft)}))
  {
  }

  /** A pass that scans leaf `n` on top of the stack: an occlusion query
      ends on a hit; otherwise the leaf's primitives are reached and, in
      nearest mode, scanned into the result. */
  lemma StepLeaf(shape: seq<FlatNode>, prims: seq<Prim>,
                 primTest: Prim -> PrimHit, boxTest: BBox -> BoxHit, occlusion: bool, s: State, n: FlatNode)
    requires Runs(shape, prims, s) && |s.todo| > 0 && !Pruned(s.todo[|s.todo| - 1], s.info)
    requires n == shape[s.todo[|s.todo| - 1].i] && n.IsLeaf()
    ensures 0 <= n.start <= n.End() <= |prims|
    ensures occlusion && (exists k :: n.start <= k < n.End() && primTest(prims[k]).hit) ==>
      QueryStep(shape, prims, primTest, boxTest, occlusion, s)
      == Done(Outcome(true, s.info, s.nodes, s.reached + Range(n), s.missed, s.skipped))
    ensures !(occlusion && exists k :: n.start <= k < n.End() && primTest(prims[k]).hit) ==>
      QueryStep(shape, prims, primTest, boxTest, occlusion, s)
      == Next(State(s.nodes, s.todo[..|s.todo| - 1],
                    if occlusion then s.info
                    else LeafScan(prims[n.start..n.End()], n.start, primTest, s.nodes[s.todo[|s.todo| - 1].i].tfar, s.info),
                    s.reached + Range(n), s.missed, s.skipped))
  {
  }

  /** A pass that visits internal node `ni` (children `li`, `ri`) on top
      of the stack, leaving the refreshed array `nodes2`, the stack `todo2`
      and the missed set `missed2`. */
  lemma StepInternal(shape: seq<FlatNode>, prims: seq<Prim>,
                     primTest: Prim -> PrimHit, boxTest: BBox -> BoxHit, occlusion: bool, s: State,
                     ni: nat, li: int, ri: int, nodes2: seq<FlatNode>, todo2: seq<Work>, missed2: set<int>)
    requires Runs(shape, prims, s) && |s.todo| > 0 && !Pruned(s.todo[|s.todo| - 1], s.info)
    requires ni == s.todo[|s.todo| - 1].i && !shape[ni].IsLeaf()
    requires Linked(s.nodes, ni) && li == ni + 1 && ri == ni + shape[ni].rightOffset
    requires nodes2 == InternalVisit(s.nodes, ni, boxTest).0
    requires todo2 == s.todo[..|s.todo| - 1] + InternalVisit(s.nodes, ni, boxTest).1
    requires 0 <= li < |nodes2| && 0 <= ri < |nodes2| && missed2 == MissedAfter(s.missed, li, ri, nodes2[li], nodes2[ri])
    ensures QueryStep(shape, prims, primTest, boxTest, occlusion, s)
         == Next(State(nodes2, todo2, s.info, s.reached, missed2, s.skipped))
  {
    var e := s.todo[|s.todo| - 1];
    assert e.i == ni && s.todo != [] && !Pruned(e, s.info) && !shape[e.i].IsLeaf();
  }

  /** A pass described case by case, as the loop of the query performs it
      (drop the top entry, scan a leaf, or visit an internal node), is one
      `QueryStep`: `occluded` ends the query, anything else continues from
      `s2`. */
  lemma PassIsStep(shape: seq<FlatNode>, prims: seq<Prim>,
                   primTest: Prim -> PrimHit, boxTest: BBox -> BoxHit, occlusion: bool,
                   s: State, occluded: bool, s2: State)
    requires Runs(shape, prims, s) && |s.todo| > 0
    requires var e := s.todo[|s.todo| - 1];
      Pruned(e, s.info) ==>
        !occluded && s2 == State(s.nodes, s.todo[..|s.todo| - 1], s.info, s.reached, s.missed, s.skipped + {Skip(e, s.info.ft)})
    requires var e := s.todo[|s.todo| - 1]; var n := shape[e.i];
      !Pruned(e, s.info) && n.IsLeaf() ==>
        && s2.todo == s.todo[..|s.todo| - 1] && s2.nodes == s.nodes
        && s2.reached == s.reached + Range(n) && s2.missed == s.missed && s2.skipped == s.skipped
        && (occluded <==> occlusion && exists k :: n.start <= k < n.End() && primTest(prims[k]).hit)
        && s2.info == (if occlusion then s.info
                       else LeafScan(prims[n.start..n.End()], n.start, primTest, s.nodes[e.i].tfar, s.info))
    requires var e := s.todo[|s.todo| - 1];
      !Pruned(e, s.info) && !shape[e.i].IsLeaf() ==>
        && !occluded && s2.info == s.info && s2.reached == s.reached && s2.skipped == s.skipped
        && Linked(s.nodes, e.i) && s2.nodes == InternalVisit(s.nodes, e.i, boxTest).0
        && s2.todo == s.todo[..|s.todo| - 1] + InternalVisit(s.nodes, e.i, boxTest).1
        && s2.missed == MissedBy(s.missed, s.nodes, e.i, boxTest)
    ensures QueryStep(shape, prims, primTest, boxTest, occlusion, s)
         == if occluded then Done(Outcome(true, s2.info, s2.nodes, s2.reached, s2.missed, s2.skipped))
            else Next(s2)
  {
    var e := s.todo[|s.todo| - 1];
    if Pruned(e, s.info) {
      StepSkip(shape, prims, primTest, boxTest, occlusion, s);
    } else if shape[e.i].IsLeaf() {
      StepLeaf(shape, prims, primTest, boxTest, occlusion, s, shape[e.i]);
    } else {
      LinkedKept(shape, s.nodes, e.i);
      StepInternal(shape, prims, primTest, boxTest, occlusion, s, e.i, e.i + 1, e.i + shape[e.i].rightOffset,
                   s2.nodes, s2.todo, s2.missed);
    }
  }

  /** One pass keeps what the query has established, or ends it with the
      promised answer. */
  lemma StepSound(shape: seq<FlatNode>, prims: seq<Prim>, leafSize: nat,
                  primTest: Prim -> PrimHit, boxTest: BBox -> BoxHit, occlusion: bool, ft0: real, s: State)
    requires WellFormed(shape, prims, leafSize) && SameShapes(s.nodes, shape)
    requires Walk(shape, prims, primTest, boxTest, occlusion, ft0, s.todo, s.info, s.reached, s.missed, s.skipped)
    ensures Runs(shape, prims, s)
    ensures QueryStep(shape, prims, primTest, boxTest, occlusion, s).Done? ==>
      Answers(shape, prims, primTest, boxTest, occlusion, ft0, QueryStep(shape, prims, primTest, boxTest, occlusion, s).o)
    ensures QueryStep(shape, prims, primTest, boxTest, occlusion, s).Next? ==>
      var s2 := QueryStep(shape, prims, primTest, boxTest, occlusion, s).s;
      Walk(shape, prims, primTest, boxTest, occlusion, ft0, s2.todo, s2.info, s2.reached, s2.missed, s2.skipped)
  {
    WellFormedWalkable(shape, prims, leafSize);
    var todo := s.todo;
    if todo == [] {
      QueryDone(shape, s.nodes, prims, primTest, boxTest, occlusion, ft0, s.info, s.reached, s.missed, s.skipped);
      return;
    }
    var e, rest := todo[|todo| - 1], todo[..|todo| - 1];
    if Pruned(e, s.info) {
      StepSkip(shape, prims, primTest, boxTest, occlusion, s);
      WalkSkip(shape, prims, primTest, boxTest, occlusion, ft0, todo, s.info, s.reached, s.missed, s.skipped,
               rest, s.skipped + {Skip(e, s.info.ft)});
    } else if shape[e.i].IsLeaf() {
      var n := shape[e.i];
      StepLeaf(shape, prims, primTest, boxTest, occlusion, s, n);
      if occlusion && exists k :: n.start <= k < n.End() && primTest(prims[k]).hit {
        QueryOccluded(shape, s.nodes, prims, primTest, boxTest, ft0, todo, s.info, s.reached, s.missed, s.skipped, n);
      } else {
        var info2 := if occlusion then s.info
                     else LeafScan(prims[n.start..n.End()], n.start, primTest, s.nodes[e.i].tfar, s.info);
        WalkLeaf(shape, prims, primTest, boxTest, occlusion, ft0, todo, s.info, s.reached, s.missed, s.skipped,
                 s.nodes[e.i].tfar, rest, info2, s.reached + Range(n));
      }
    } else {
      var ni := e.i;
      assert Linked(shape, ni) && ChildrenSplit(shape, ni);
      LinkedKept(shape, s.nodes, ni);
      var v := InternalVisit(s.nodes, ni, boxTest);
      var li, ri := ni + 1, ni + shape[ni].rightOffset;
      InternalVisitShapes(shape, s.nodes, ni, boxTest, v, li, ri);
      StepInternal(shape, prims, primTest, boxTest, occlusion, s, ni, li, ri,
                   v.0, rest + v.1, MissedAfter(s.missed, li, ri, v.0[li], v.0[ri]));
      WalkInternal(shape, prims, primTest, boxTest, occlusion, ft0, todo, s.info, s.reached, s.missed, s.skipped,
                   ni, li, ri, s.nodes[li], s.nodes[ri], v.0[li], v.0[ri], rest + v.1);
    }
  }

  /** The loop ends with the stack empty: nothing is left on the stack, so
      every primitive is accounted for. */
  lemma QueryDone(shape: seq<FlatNode>, nodes: seq<FlatNode>, prims: seq<Prim>, primTest: Prim -> PrimHit,
                  boxTest: BBox -> BoxHit, occlusion: bool, ft0: real,
                  info: Info, reached: set<int>, missed: set<int>, skipped: set<Skip>)
    requires SameShapes(nodes, shape)
    requires Walk(shape, prims, primTest, boxTest, occlusion, ft0, [], info, reached, missed, skipped)
    ensures Answers(shape, prims, primTest, boxTest, occlusion, ft0, Outcome(info.obj.Some?, info, nodes, reached, missed, skipped))
  {
    forall k | 0 <= k < |prims| ensures Accounted(shape, reached, missed, skipped, k) {
      assert !OnStack(shape, [], k);
    }
    if !occlusion && info.obj.Some? {
      assert info.obj.value in reached && primTest(prims[info.obj.value]).hit;
    }
  }

  /** An occlusion query ends on the first hit in leaf `n`. */
  lemma QueryOccluded(shape: seq<FlatNode>, nodes: seq<FlatNode>, prims: seq<Prim>, primTest: Prim -> PrimHit,
                      boxTest: BBox -> BoxHit, ft0: real, todo: seq<Work>,
                      info: Info, reached: set<int>, missed: set<int>, skipped: set<Skip>, n: FlatNode)
    requires SameShapes(nodes, shape) && 0 <= n.start <= n.End() <= |prims|
    requires Walk(shape, prims, primTest, boxTest, true, ft0, todo, info, reached, missed, skipped)
    requires exists k :: n.start <= k < n.End() && primTest(prims[k]).hit
    ensures Answers(shape, prims, primTest, boxTest, true, ft0, Outcome(true, info, nodes, reached + Range(n), missed, skipped))
  {
    var k :| n.start <= k < n.End() && primTest(prims[k]).hit;
    assert k in reached + Range(n);
  }

  /** A node cache with the shape of the built tree has its links. */
  lemma LinkedKept(shape: seq<FlatNode>, nodes: seq<FlatNode>, ni: int)
    requires SameShapes(nodes, shape) && 0 <= ni < |shape| && !shape[ni].IsLeaf() && Linked(shape, ni)
    ensures !nodes[ni].IsLeaf() && Linked(nodes, ni) && nodes[ni].rightOffset == shape[ni].rightOffset
  {
    assert nodes[ni].SameShape(shape[ni]);
  }

  /** Visiting internal node `ni` (children `li`, `ri`) keeps every node's
      shape; its children are refreshed from their old caches and those hit
      are pushed. */
  lemma InternalVisitShapes(shape: seq<FlatNode>, nodes: seq<FlatNode>, ni: int, boxTest: BBox -> BoxHit,
                            v: (seq<FlatNode>, seq<Work>), li: int, ri: int)
    requires SameShapes(nodes, shape) && 0 <= ni < |shape| && !shape[ni].IsLeaf() && Linked(shape, ni)
    requires !nodes[ni].IsLeaf() && Linked(nodes, ni) && v == InternalVisit(nodes, ni, boxTest)
    requires li == ni + 1 && ri == ni + shape[ni].rightOffset
    ensures SameShapes(v.0, shape)
    ensures nodes[li].SameShape(shape[li]) && nodes[ri].SameShape(shape[ri])
    ensures (v.0[li], v.0[ri]) == Refresh(nodes[li], nodes[ri], boxTest)
    ensures v.1 == ChildEntries(li, ri, v.0[li], v.0[ri])
  {
    assert nodes[ni].SameShape(shape[ni]);
    forall j | 0 <= j < |v.0| ensures v.0[j].SameShape(shape[j]) {
      assert v.0[j].SameShape(nodes[j]) && nodes[j].SameShape(shape[j]);
    }
  }
}
