/** Geometry seen by the hierarchy: axis-aligned boxes over integer
    coordinates, primitives reduced to their bounding box and centroid, and
    the union ("hull") of the boxes or centroids of a run of primitives.
    The ray/box slab test and the primitive intersection are not modelled
    here; the traversal receives them as oracles. */
module Geometry {

  /** An axis index: 0 = x, 1 = y, 2 = z. */
  type Axis = d: nat | d < 3

  datatype Vec3 = Vec3(x: int, y: int, z: int) {
    function At(d: Axis): int {
      if d == 0 then x else if d == 1 then y else z
    }
  }

  /** Axis-aligned bounding box with corners `min` and `max`. */
  datatype BBox = BBox(min: Vec3, max: Vec3)

  /** A primitive: the object's identity (its `Object*`), which the
      primitive test may depend on, and the box and centroid the builder
      sees.  The build moves whole primitives, so identities move with
      their boxes. */
  datatype Prim = Prim(id: nat, box: BBox, centroid: Vec3)

  function Min(a: int, b: int): int { if a <= b then a else b }
  function Max(a: int, b: int): int { if a <= b then b else a }

  /** The box holding a single point. */
  function PointBox(p: Vec3): BBox { BBox(p, p) }

  /** `a.expandToInclude(b)`: the smallest box holding both. */
  function Union(a: BBox, b: BBox): BBox {
    BBox(Vec3(Min(a.min.x, b.min.x), Min(a.min.y, b.min.y), Min(a.min.z, b.min.z)),
         Vec3(Max(a.max.x, b.max.x), Max(a.max.y, b.max.y), Max(a.max.z, b.max.z)))
  }

  /** Box `outer` holds box `inner`. */
  predicate Contains(outer: BBox, inner: BBox) {
    && outer.min.x <= inner.min.x && outer.min.y <= inner.min.y && outer.min.z <= inner.min.z
    && inner.max.x <= outer.max.x && inner.max.y <= outer.max.y && inner.max.z <= outer.max.z
  }

  function Extent(b: BBox, d: Axis): int { b.max.At(d) - b.min.At(d) }

  /** `BBox::maxDimension`: the axis along which the box is longest
      (ties go to the lower axis). */
  function MaxDimension(b: BBox): (d: Axis)
    ensures forall a: Axis :: Extent(b, a) <= Extent(b, d)
    ensures forall a: Axis :: a < d ==> Extent(b, a) < Extent(b, d)
  {
    if Extent(b, 0) >= Extent(b, 1) && Extent(b, 0) >= Extent(b, 2) then 0
    else if Extent(b, 1) >= Extent(b, 2) then 1
    else 2
  }

  /** The partition test `centroid[d] < .5 * (min[d] + max[d])`, stated
      without the halving: `split2` is twice the split coordinate. */
  predicate Below(p: Prim, d: Axis, split2: int) {
    2 * p.centroid.At(d) < split2
  }

  /** Union of the boxes of `s`, folded left to right as the builder does. */
  function Hull(s: seq<Prim>): BBox
    requires |s| > 0
  {
    if |s| == 1 then s[0].box else Union(Hull(s[..|s| - 1]), s[|s| - 1].box)
  }

  /** Union of the centroids of `s`, folded left to right. */
  function CentroidHull(s: seq<Prim>): BBox
    requires |s| > 0
  {
    if |s| == 1 then PointBox(s[0].centroid)
    else Union(CentroidHull(s[..|s| - 1]), PointBox(s[|s| - 1].centroid))
  }

  /** Every box of `s` lies inside `Hull(s)`. */
  lemma {:induction false} HullContains(s: seq<Prim>, k: nat)
    requires k < |s|
    ensures Contains(Hull(s), s[k].box)
  {
    if |s| > 1 && k < |s| - 1 {
      HullContains(s[..|s| - 1], k);
    }
  }

  /** `Hull(s)` is the least box holding every box of `s`. */
  lemma {:induction false} HullLeast(s: seq<Prim>, c: BBox)
    requires |s| > 0
    requires forall k :: 0 <= k < |s| ==> Contains(c, s[k].box)
    ensures Contains(c, Hull(s))
  {
    if |s| > 1 {
      HullLeast(s[..|s| - 1], c);
    }
  }

  /** The hull depends only on which primitives the run holds, not on their
      order: reordering a run (as the partition does) keeps its hull. */
  lemma HullPermutation(s: seq<Prim>, t: seq<Prim>)
    requires |s| > 0
    requires multiset(s) == multiset(t)
    ensures |t| > 0 && Hull(s) == Hull(t)
  {
    assert s[0] in multiset(t);
    forall j | 0 <= j < |t| ensures Contains(Hull(s), t[j].box) {
      assert t[j] in multiset(s);
      var k :| 0 <= k < |s| && s[k] == t[j];
      HullContains(s, k);
    }
    forall k | 0 <= k < |s| ensures Contains(Hull(t), s[k].box) {
      assert s[k] in multiset(t);
      var j :| 0 <= j < |t| && t[j] == s[k];
      HullContains(t, j);
    }
    HullLeast(t, Hull(s));
    HullLeast(s, Hull(t));
  }

  /** Every centroid of `s` lies inside `CentroidHull(s)`. */
  lemma {:induction false} CentroidHullContains(s: seq<Prim>, k: nat, d: Axis)
    requires k < |s|
    ensures CentroidHull(s).min.At(d) <= s[k].centroid.At(d) <= CentroidHull(s).max.At(d)
  {
    if |s| > 1 && k < |s| - 1 {
      CentroidHullContains(s[..|s| - 1], k, d);
    }
  }

  /** `CentroidHull(s)` is the least box holding every centroid of `s`. */
  lemma {:induction false} CentroidHullLeast(s: seq<Prim>, c: BBox)
    requires |s| > 0
    requires forall k :: 0 <= k < |s| ==> Contains(c, PointBox(s[k].centroid))
    ensures Contains(c, CentroidHull(s))
  {
    if |s| > 1 {
      CentroidHullLeast(s[..|s| - 1], c);
    }
  }

  /** The centroid hull, like the hull, depends only on which primitives
      the run holds, so the partition's reordering keeps it. */
  lemma CentroidHullPermutation(s: seq<Prim>, t: seq<Prim>)
    requires |s| > 0
    requires multiset(s) == multiset(t)
    ensures |t| > 0 && CentroidHull(s) == CentroidHull(t)
  {
    assert s[0] in multiset(t);
    forall j | 0 <= j < |t| ensures Contains(CentroidHull(s), PointBox(t[j].centroid)) {
      assert t[j] in multiset(s);
      var k :| 0 <= k < |s| && s[k] == t[j];
      CentroidHullContains(s, k, 0);
      CentroidHullContains(s, k, 1);
      CentroidHullContains(s, k, 2);
    }
    forall k | 0 <= k < |s| ensures Contains(CentroidHull(t), PointBox(s[k].centroid)) {
      assert s[k] in multiset(t);
      var j :| 0 <= j < |t| && t[j] == s[k];
      CentroidHullContains(t, j, 0);
      CentroidHullContains(t, j, 1);
      CentroidHullContains(t, j, 2);
    }
    CentroidHullLeast(t, CentroidHull(s));
    CentroidHullLeast(s, CentroidHull(t));
  }

  /** When every centroid shares its `d` coordinate, none of them is below
      the middle of the centroid hull along `d`. */
  lemma CoincidentNoneBelow(s: seq<Prim>, d: Axis)
    requires |s| > 0 && Extent(CentroidHull(s), d) == 0
    ensures forall k :: 0 <= k < |s| ==> !Below(s[k], d, CentroidHull(s).min.At(d) + CentroidHull(s).max.At(d))
  {
    forall k | 0 <= k < |s| ensures !Below(s[k], d, CentroidHull(s).min.At(d) + CentroidHull(s).max.At(d)) {
      CentroidHullContains(s, k, d);
    }
  }

  /** Both ends of the centroid hull along axis `d` are reached by some
      centroid of `s`. */
  lemma {:induction false} CentroidHullAttained(s: seq<Prim>, d: Axis)
    requires |s| > 0
    ensures exists k :: 0 <= k < |s| && s[k].centroid.At(d) == CentroidHull(s).min.At(d)
    ensures exists k :: 0 <= k < |s| && s[k].centroid.At(d) == CentroidHull(s).max.At(d)
  {
    if |s| == 1 {
      assert s[0].centroid.At(d) == CentroidHull(s).min.At(d) == CentroidHull(s).max.At(d);
    } else {
      var init := s[..|s| - 1];
      CentroidHullAttained(init, d);
      var last := |s| - 1;
      var i :| 0 <= i < |init| && init[i].centroid.At(d) == CentroidHull(init).min.At(d);
      var j :| 0 <= j < |init| && init[j].centroid.At(d) == CentroidHull(init).max.At(d);
      assert s[i] == init[i] && s[j] == init[j];
      if s[last].centroid.At(d) < CentroidHull(init).min.At(d) {
        assert s[last].centroid.At(d) == CentroidHull(s).min.At(d);
      } else {
        assert s[i].centroid.At(d) == CentroidHull(s).min.At(d);
      }
      if s[last].centroid.At(d) > CentroidHull(init).max.At(d) {
        assert s[last].centroid.At(d) == CentroidHull(s).max.At(d);
      } else {
        assert s[j].centroid.At(d) == CentroidHull(s).max.At(d);
      }
    }
  }

  /** The partition at the midpoint of the centroid hull along `d` can only
      come out degenerate (everything on one side) when every centroid of
      the run has the same `d` coordinate: as soon as the hull has positive
      extent, the lowest centroid falls below the split and the highest
      does not. */
  lemma DegenerateSplitMeansCoincident(s: seq<Prim>, d: Axis, m: nat)
    requires |s| > 0 && m <= |s|
    requires forall k :: 0 <= k < m ==> Below(s[k], d, CentroidHull(s).min.At(d) + CentroidHull(s).max.At(d))
    requires forall k :: m <= k < |s| ==> !Below(s[k], d, CentroidHull(s).min.At(d) + CentroidHull(s).max.At(d))
    requires m == 0 || m == |s|
    ensures Extent(CentroidHull(s), d) == 0
    ensures forall k :: 0 <= k < |s| ==> s[k].centroid.At(d) == CentroidHull(s).min.At(d)
  {
    var h := CentroidHull(s);
    CentroidHullAttained(s, d);
    var i :| 0 <= i < |s| && s[i].centroid.At(d) == h.min.At(d);
    var j :| 0 <= j < |s| && s[j].centroid.At(d) == h.max.At(d);
    // The lowest centroid is below the split and the highest is not, so
    // with positive extent neither side of the partition can be empty.
    if h.min.At(d) < h.max.At(d) {
      assert false;
    }
    forall k | 0 <= k < |s| ensures s[k].centroid.At(d) == h.min.At(d) {
      CentroidHullContains(s, k, d);
    }
  }
}
