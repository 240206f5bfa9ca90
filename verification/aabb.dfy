/**
 Axis-aligned bounding boxes (src/AABB.h) and `transformAABB`
 (src/AABB.cpp): the eight corners of a box are mapped through a model
 matrix and a new box is fitted around the images.
 */
module Aabb {
  import opened Linear

  datatype AABB = AABB(min: Vec3, max: Vec3)

  /** A box with `min <= max` on every axis. Boxes built from no points at
      all are inverted (`min > max`) and fail this. */
  predicate WellFormed(box: AABB) {
    LessEq(box.min, box.max)
  }

  /** Closed containment of a point in a box. */
  predicate Contains(box: AABB, p: Vec3) {
    LessEq(box.min, p) && LessEq(p, box.max)
  }

  /** Every point of `pts` lies in `box`. */
  predicate Encloses(box: AABB, pts: seq<Vec3>) {
    forall i :: 0 <= i < |pts| ==> Contains(box, pts[i])
  }

  /** Each of the six bounds of `box` is a coordinate of some point of `pts`. */
  predicate Attained(box: AABB, pts: seq<Vec3>) {
    && (exists i :: 0 <= i < |pts| && pts[i].x == box.min.x)
    && (exists i :: 0 <= i < |pts| && pts[i].y == box.min.y)
    && (exists i :: 0 <= i < |pts| && pts[i].z == box.min.z)
    && (exists i :: 0 <= i < |pts| && pts[i].x == box.max.x)
    && (exists i :: 0 <= i < |pts| && pts[i].y == box.max.y)
    && (exists i :: 0 <= i < |pts| && pts[i].z == box.max.z)
  }

  /** Running componentwise minimum of a non-empty sequence, folded from the
      left with `glm::min` as the source's loops do. */
  function Lower(pts: seq<Vec3>): (r: Vec3)
    requires |pts| > 0
    ensures forall i :: 0 <= i < |pts| ==> LessEq(r, pts[i])
    ensures exists i :: 0 <= i < |pts| && pts[i].x == r.x
    ensures exists i :: 0 <= i < |pts| && pts[i].y == r.y
    ensures exists i :: 0 <= i < |pts| && pts[i].z == r.z
  {
    if |pts| == 1 then pts[0]
    else
      var init := pts[..|pts| - 1];
      assert forall i :: 0 <= i < |init| ==> init[i] == pts[i];
      Min(Lower(init), pts[|pts| - 1])
  }

  /** Running componentwise maximum of a non-empty sequence. */
  function Upper(pts: seq<Vec3>): (r: Vec3)
    requires |pts| > 0
    ensures forall i :: 0 <= i < |pts| ==> LessEq(pts[i], r)
    ensures exists i :: 0 <= i < |pts| && pts[i].x == r.x
    ensures exists i :: 0 <= i < |pts| && pts[i].y == r.y
    ensures exists i :: 0 <= i < |pts| && pts[i].z == r.z
  {
    if |pts| == 1 then pts[0]
    else
      var init := pts[..|pts| - 1];
      assert forall i :: 0 <= i < |init| ==> init[i] == pts[i];
      Max(Upper(init), pts[|pts| - 1])
  }

  /** The tightest box around a non-empty set of points. */
  function Fit(pts: seq<Vec3>): (r: AABB)
    requires |pts| > 0
    ensures Encloses(r, pts) && Attained(r, pts) && WellFormed(r)
  {
    var r := AABB(Lower(pts), Upper(pts));
    assert Contains(r, pts[0]);
    r
  }

  /** The eight corners in the order the source lists them: bit 0 of the
      index selects `max.x`, bit 1 `max.y`, bit 2 `max.z`. */
  function Corners(box: AABB): (cs: seq<Vec3>)
    ensures |cs| == 8
  {
    var lo := box.min;
    var hi := box.max;
    [Vec3(lo.x, lo.y, lo.z), Vec3(hi.x, lo.y, lo.z), Vec3(lo.x, hi.y, lo.z), Vec3(hi.x, hi.y, lo.z),
     Vec3(lo.x, lo.y, hi.z), Vec3(hi.x, lo.y, hi.z), Vec3(lo.x, hi.y, hi.z), Vec3(hi.x, hi.y, hi.z)]
  }

  function TransformAll(m: Mat4, pts: seq<Vec3>): (r: seq<Vec3>)
    ensures |r| == |pts|
    ensures forall i :: 0 <= i < |pts| ==> r[i] == Transform(m, pts[i])
  {
    seq(|pts|, i requires 0 <= i < |pts| => Transform(m, pts[i]))
  }

  /** `transformAABB`: fit a box around the images of the eight corners.
      The source seeds its running bounds with the `FLT_MAX` sentinels; over
      the reals the first corner replaces them, so the fold starts there. */
  function TransformAABB(box: AABB, m: Mat4): (r: AABB)
    ensures forall i :: 0 <= i < 8 ==> Contains(r, Transform(m, Corners(box)[i]))
    ensures Attained(r, TransformAll(m, Corners(box)))
    ensures WellFormed(r)
  {
    Fit(TransformAll(m, Corners(box)))
  }

  /** The end `c` of `[lo, hi]` at which `k * c` is smallest. */
  lemma LowEnd(k: real, lo: real, v: real, hi: real) returns (c: real)
    requires lo <= v <= hi
    ensures c == (if k >= 0.0 then lo else hi)
    ensures k * c <= k * v
  {
    c := if k >= 0.0 then lo else hi;
    if k >= 0.0 {
      assert k * v - k * c == k * (v - lo);
    } else {
      assert k * c - k * v == (-k) * (v - hi);
    }
  }

  /** The end `c` of `[lo, hi]` at which `k * c` is largest. */
  lemma HighEnd(k: real, lo: real, v: real, hi: real) returns (c: real)
    requires lo <= v <= hi
    ensures c == (if k >= 0.0 then hi else lo)
    ensures k * v <= k * c
  {
    c := if k >= 0.0 then hi else lo;
    if k >= 0.0 {
      assert k * c - k * v == k * (hi - v);
    } else {
      assert k * v - k * c == (-k) * (lo - v);
    }
  }

  lemma SumLe(a1: real, a2: real, a3: real, b1: real, b2: real, b3: real, w: real)
    requires a1 <= b1 && a2 <= b2 && a3 <= b3
    ensures a1 + a2 + a3 + w <= b1 + b2 + b3 + w
  {
  }

  /** For one row of the matrix, some corner of the box gives the row's
      smallest value over the whole box: pick, per axis, the low bound where
      the coefficient is non-negative and the high bound otherwise. */
  lemma RowMinAtCorner(box: AABB, row: Vec4, p: Vec3) returns (i: nat)
    requires Contains(box, p)
    ensures i < 8
    ensures Dot4(row, Point4(Corners(box)[i])) <= Dot4(row, Point4(p))
  {
    var cx := LowEnd(row.x, box.min.x, p.x, box.max.x);
    var cy := LowEnd(row.y, box.min.y, p.y, box.max.y);
    var cz := LowEnd(row.z, box.min.z, p.z, box.max.z);
    i := (if row.x >= 0.0 then 0 else 1) + (if row.y >= 0.0 then 0 else 2) + (if row.z >= 0.0 then 0 else 4);
    assert Corners(box)[i] == Vec3(cx, cy, cz);
    SumLe(row.x * cx, row.y * cy, row.z * cz, row.x * p.x, row.y * p.y, row.z * p.z, row.w * 1.0);
  }

  /** The mirror image of `RowMinAtCorner` for the row's largest value. */
  lemma RowMaxAtCorner(box: AABB, row: Vec4, p: Vec3) returns (i: nat)
    requires Contains(box, p)
    ensures i < 8
    ensures Dot4(row, Point4(p)) <= Dot4(row, Point4(Corners(box)[i]))
  {
    var cx := HighEnd(row.x, box.min.x, p.x, box.max.x);
    var cy := HighEnd(row.y, box.min.y, p.y, box.max.y);
    var cz := HighEnd(row.z, box.min.z, p.z, box.max.z);
    i := (if row.x >= 0.0 then 1 else 0) + (if row.y >= 0.0 then 2 else 0) + (if row.z >= 0.0 then 4 else 0);
    assert Corners(box)[i] == Vec3(cx, cy, cz);
    SumLe(row.x * p.x, row.y * p.y, row.z * p.z, row.x * cx, row.y * cy, row.z * cz, row.w * 1.0);
  }

  /** The promise of src/AABB.h: the image of every point of a well-formed
      box lies in the transformed box, whatever rotation, scaling and
      translation the matrix carries. */
  lemma TransformAABBContainsImage(box: AABB, m: Mat4, p: Vec3)
    requires Contains(box, p)
    ensures Contains(TransformAABB(box, m), Transform(m, p))
  {
    var r := TransformAABB(box, m);
    var cs := Corners(box);
    var q := Transform(m, p);
    var i0 := RowMinAtCorner(box, m.row0, p);
    var j0 := RowMaxAtCorner(box, m.row0, p);
    var i1 := RowMinAtCorner(box, m.row1, p);
    var j1 := RowMaxAtCorner(box, m.row1, p);
    var i2 := RowMinAtCorner(box, m.row2, p);
    var j2 := RowMaxAtCorner(box, m.row2, p);
    assert Contains(r, Transform(m, cs[i0])) && Contains(r, Transform(m, cs[j0]));
    assert Contains(r, Transform(m, cs[i1])) && Contains(r, Transform(m, cs[j1]));
    assert Contains(r, Transform(m, cs[i2])) && Contains(r, Transform(m, cs[j2]));
  }

  /** No smaller box encloses the eight transformed corners: any box that
      does encloses the result of `transformAABB`. */
  lemma TransformAABBTightest(box: AABB, m: Mat4, other: AABB)
    requires forall i :: 0 <= i < 8 ==> Contains(other, Transform(m, Corners(box)[i]))
    ensures LessEq(other.min, TransformAABB(box, m).min)
    ensures LessEq(TransformAABB(box, m).max, other.max)
  {
    var r := TransformAABB(box, m);
    var ts := TransformAll(m, Corners(box));
    assert Attained(r, ts);
    assert forall i :: 0 <= i < 8 ==> Contains(other, ts[i]);
  }

  /** A box that encloses the points and has both of its corners among them
      is the fitted box. */
  lemma FitUnique(r: AABB, pts: seq<Vec3>, b: AABB)
    requires Encloses(r, pts) && Attained(r, pts)
    requires Encloses(b, pts)
    requires b.min in pts && b.max in pts
    ensures r == b
  {
    var i :| 0 <= i < |pts| && pts[i] == b.min;
    var j :| 0 <= j < |pts| && pts[j] == b.max;
    assert Contains(r, pts[i]) && Contains(r, pts[j]);
  }

  /** The identity matrix maps a well-formed box onto itself. */
  lemma TransformAABBIdentity(box: AABB)
    requires WellFormed(box)
    ensures TransformAABB(box, Identity) == box
  {
    var cs := Corners(box);
    TransformAllIdentity(cs);
    CornersEnclosed(box);
    FitUnique(TransformAABB(box, Identity), cs, box);
  }

  lemma TransformAllIdentity(pts: seq<Vec3>)
    ensures TransformAll(Identity, pts) == pts
  {
    forall i | 0 <= i < |pts|
      ensures TransformAll(Identity, pts)[i] == pts[i]
    {
      TransformIdentity(pts[i]);
    }
  }

  /** A well-formed box contains its own corners, and its two bounds are
      the first and the last of them. */
  lemma CornersEnclosed(box: AABB)
    requires WellFormed(box)
    ensures Encloses(box, Corners(box))
    ensures box.min == Corners(box)[0] && box.max == Corners(box)[7]
  {
  }

  /** A pure translation shifts both bounds of a well-formed box. */
  lemma TransformAABBTranslation(box: AABB, t: Vec3)
    requires WellFormed(box)
    ensures TransformAABB(box, Translation(t)) == AABB(Add(box.min, t), Add(box.max, t))
  {
    var cs := Corners(box);
    var ts := TransformAll(Translation(t), cs);
    var b := AABB(Add(box.min, t), Add(box.max, t));
    forall i | 0 <= i < 8
      ensures ts[i] == Add(cs[i], t) && Contains(b, ts[i])
    {
      TransformTranslation(t, cs[i]);
    }
    assert ts[0] == b.min && ts[7] == b.max;
    FitUnique(TransformAABB(box, Translation(t)), ts, b);
  }
}
