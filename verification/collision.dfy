/**
 The collision queries of src/Camera.cpp: the closest point of a triangle
 to a point (the Voronoi-region case analysis of Ericson's "Real-Time
 Collision Detection", section 5.1.5), the proximity test of a point
 against a mesh's cached world triangles, and the inflated-box
 containment test.

 Distances are compared squared: `glm::distance(p, q) < r` holds exactly
 when `r > 0` and `Dist2(p, q) < r * r`.
 */
module Collision {
  import opened Linear
  import opened Aabb
  import opened Meshes

  /** The triangle spans a plane: `|ab x ac|^2 > 0`. Every division of the
      algorithm has a positive denominator exactly under this condition. */
  predicate NonDegenerate(a: Vec3, b: Vec3, c: Vec3) {
    Norm2(Cross(Sub(b, a), Sub(c, a))) > 0.0
  }

  /** The point `a + s (b - a) + t (c - a)`. */
  function PointAt(a: Vec3, b: Vec3, c: Vec3, s: real, t: real): Vec3 {
    Add(Add(a, Scale(s, Sub(b, a))), Scale(t, Sub(c, a)))
  }

  /** `(s, t)` are the coordinates of a point of the closed triangle. */
  predicate Feasible(s: real, t: real) {
    0.0 <= s && 0.0 <= t && s + t <= 1.0
  }

  /** `q` lies in the closed triangle `abc`. */
  ghost predicate InTriangle(q: Vec3, a: Vec3, b: Vec3, c: Vec3) {
    exists s: real, t: real :: Feasible(s, t) && q == PointAt(a, b, c, s, t)
  }

  /** The six dot products of the algorithm:
      d1 = ab.ap, d2 = ac.ap, d3 = ab.bp, d4 = ac.bp, d5 = ab.cp, d6 = ac.cp. */
  datatype Dots = Dots(d1: real, d2: real, d3: real, d4: real, d5: real, d6: real)

  function DotsOf(p: Vec3, a: Vec3, b: Vec3, c: Vec3): Dots {
    var ab := Sub(b, a);
    var ac := Sub(c, a);
    Dots(Dot(ab, Sub(p, a)), Dot(ac, Sub(p, a)),
         Dot(ab, Sub(p, b)), Dot(ac, Sub(p, b)),
         Dot(ab, Sub(p, c)), Dot(ac, Sub(p, c)))
  }

  /** The three barycentric numerators `va`, `vb`, `vc`. */
  function Va(ds: Dots): real { ds.d3 * ds.d6 - ds.d5 * ds.d4 }
  function Vb(ds: Dots): real { ds.d5 * ds.d2 - ds.d1 * ds.d6 }
  function Vc(ds: Dots): real { ds.d1 * ds.d4 - ds.d3 * ds.d2 }

  /** The four quantities the algorithm divides by are all positive. */
  predicate DenominatorsPositive(ds: Dots) {
    && ds.d1 - ds.d3 > 0.0
    && ds.d2 - ds.d6 > 0.0
    && (ds.d4 - ds.d3) + (ds.d5 - ds.d6) > 0.0
    && Va(ds) + Vb(ds) + Vc(ds) > 0.0
  }

  /** The Voronoi region the point falls in, with the parameters the source
      computes for it. */
  datatype Region =
    | AtA
    | AtB
    | OnAB(v: real)
    | AtC
    | OnAC(w: real)
    | OnBC(w: real)
    | InFace(v: real, w: real)

  /** The six region tests of `closestPointOnTriangle`, with the source's
      non-strict comparisons. */
  predicate BehindA(ds: Dots) { ds.d1 <= 0.0 && ds.d2 <= 0.0 }
  predicate BeyondB(ds: Dots) { ds.d3 >= 0.0 && ds.d4 <= ds.d3 }
  predicate OverAB(ds: Dots) { Vc(ds) <= 0.0 && ds.d1 >= 0.0 && ds.d3 <= 0.0 }
  predicate BeyondC(ds: Dots) { ds.d6 >= 0.0 && ds.d5 <= ds.d6 }
  predicate OverAC(ds: Dots) { Vb(ds) <= 0.0 && ds.d2 >= 0.0 && ds.d6 <= 0.0 }
  predicate OverBC(ds: Dots) { Va(ds) <= 0.0 && ds.d4 - ds.d3 >= 0.0 && ds.d5 - ds.d6 >= 0.0 }

  /** The tests in the source's order: the first that matches decides, and
      each edge or face case divides as the source does. */
  function Classify(ds: Dots): Region
    requires DenominatorsPositive(ds)
  {
    var d1, d2, d3, d4, d5, d6 := ds.d1, ds.d2, ds.d3, ds.d4, ds.d5, ds.d6;
    if BehindA(ds) then AtA
    else if BeyondB(ds) then AtB
    else if OverAB(ds) then OnAB(d1 / (d1 - d3))
    else if BeyondC(ds) then AtC
    else if OverAC(ds) then OnAC(d2 / (d2 - d6))
    else if OverBC(ds) then OnBC((d4 - d3) / ((d4 - d3) + (d5 - d6)))
    else InFace(Vb(ds) * FaceScale(ds), Vc(ds) * FaceScale(ds))
  }

  /** The conditions under which the source returns region `r`: its own
      test holds, every earlier test failed, and the parameters are the
      quotients the source computes. */
  predicate Selected(ds: Dots, r: Region)
    requires DenominatorsPositive(ds)
  {
    var d1, d2, d3, d4, d5, d6 := ds.d1, ds.d2, ds.d3, ds.d4, ds.d5, ds.d6;
    match r
    case AtA => BehindA(ds)
    case AtB => !BehindA(ds) && BeyondB(ds)
    case OnAB(v) => !BehindA(ds) && !BeyondB(ds) && OverAB(ds) && v == d1 / (d1 - d3)
    case AtC => !BehindA(ds) && !BeyondB(ds) && !OverAB(ds) && BeyondC(ds)
    case OnAC(w) =>
      && !BehindA(ds) && !BeyondB(ds) && !OverAB(ds) && !BeyondC(ds) && OverAC(ds)
      && w == d2 / (d2 - d6)
    case OnBC(w) =>
      && !BehindA(ds) && !BeyondB(ds) && !OverAB(ds) && !BeyondC(ds) && !OverAC(ds) && OverBC(ds)
      && w == (d4 - d3) / ((d4 - d3) + (d5 - d6))
    case InFace(v, w) =>
      && !BehindA(ds) && !BeyondB(ds) && !OverAB(ds) && !BeyondC(ds) && !OverAC(ds) && !OverBC(ds)
      && v == Vb(ds) * FaceScale(ds) && w == Vc(ds) * FaceScale(ds)
  }

  /** `Classify` returns exactly the region whose conditions hold: the
      selected region, and no other. */
  lemma ClassifySelected(ds: Dots, r: Region)
    requires DenominatorsPositive(ds)
    ensures Selected(ds, Classify(ds))
    ensures Selected(ds, r) <==> r == Classify(ds)
  {
  }

  /** The source's `denom`, the reciprocal of `va + vb + vc`. */
  function FaceScale(ds: Dots): real
    requires Va(ds) + Vb(ds) + Vc(ds) > 0.0
  {
    1.0 / (Va(ds) + Vb(ds) + Vc(ds))
  }

  /** The Gram entries of the triangle: `e = |ab|^2`, `f = ab.ac`,
      `g = |ac|^2`, and `D = e g - f^2`, the squared area term. */
  datatype Gram = Gram(e: real, f: real, g: real)

  function GramOf(a: Vec3, b: Vec3, c: Vec3): Gram {
    Gram(Norm2(Sub(b, a)), Dot(Sub(b, a), Sub(c, a)), Norm2(Sub(c, a)))
  }

  function Det(gr: Gram): real {
    gr.e * gr.g - gr.f * gr.f
  }

  /** The later dot products follow from the first two and the Gram
      entries, and the triangle is non-degenerate. */
  predicate Consistent(gr: Gram, ds: Dots) {
    && Det(gr) > 0.0 && gr.e > 0.0 && gr.g > 0.0
    && ds.d3 == ds.d1 - gr.e && ds.d4 == ds.d2 - gr.f
    && ds.d5 == ds.d1 - gr.f && ds.d6 == ds.d2 - gr.g
  }

  /** A positive Gram determinant makes both diagonal entries and
      `e - 2f + g` positive. */
  lemma GramPositive(e: real, f: real, g: real)
    requires e >= 0.0 && g >= 0.0 && e * g - f * f > 0.0
    ensures e > 0.0 && g > 0.0 && e - 2.0 * f + g > 0.0
  {
    assert e != 0.0 && g != 0.0;
    assert (e + g - 2.0 * f) * (e + g + 2.0 * f) == (e - g) * (e - g) + 4.0 * (e * g - f * f);
  }

  /** The dot products of any query point are consistent with the Gram
      entries of a non-degenerate triangle. */
  lemma DotsConsistent(p: Vec3, a: Vec3, b: Vec3, c: Vec3)
    requires NonDegenerate(a, b, c)
    ensures Consistent(GramOf(a, b, c), DotsOf(p, a, b, c))
  {
    DotsShift(p, a, b, c);
    GramOfPositive(a, b, c);
  }

  /** `d3 = d1 - e`, `d4 = d2 - f`, `d5 = d1 - f` and `d6 = d2 - g`: moving
      the base point from `a` to `b` or `c` subtracts an edge. */
  lemma DotsShift(p: Vec3, a: Vec3, b: Vec3, c: Vec3)
    ensures var gr, ds := GramOf(a, b, c), DotsOf(p, a, b, c);
      && ds.d3 == ds.d1 - gr.e && ds.d4 == ds.d2 - gr.f
      && ds.d5 == ds.d1 - gr.f && ds.d6 == ds.d2 - gr.g
  {
    var ab, ac, ap := Sub(b, a), Sub(c, a), Sub(p, a);
    assert Sub(p, b) == Sub(ap, ab) && Sub(p, c) == Sub(ap, ac);
    DotSub(ab, ap, ab);
    DotSub(ac, ap, ab);
    DotSub(ab, ap, ac);
    DotSub(ac, ap, ac);
    DotSymmetric(ab, ac);
  }

  /** A non-degenerate triangle has a positive Gram determinant and
      positive squared edge lengths. */
  lemma GramOfPositive(a: Vec3, b: Vec3, c: Vec3)
    requires NonDegenerate(a, b, c)
    ensures var gr := GramOf(a, b, c); Det(gr) > 0.0 && gr.e > 0.0 && gr.g > 0.0
  {
    var ab, ac := Sub(b, a), Sub(c, a);
    DetIsAreaTerm(a, b, c);
    NormNonNegative(ab);
    NormNonNegative(ac);
    GramPositive(Norm2(ab), Dot(ab, ac), Norm2(ac));
  }

  /** The Gram determinant is the squared norm of `ab x ac`. */
  lemma DetIsAreaTerm(a: Vec3, b: Vec3, c: Vec3)
    ensures Det(GramOf(a, b, c)) == Norm2(Cross(Sub(b, a), Sub(c, a)))
  {
    CrossNorm2(Sub(b, a), Sub(c, a));
  }

  /** In terms of the Gram entries: `d1 - d3 = e`, `d2 - d6 = g`,
      `(d4 - d3) + (d5 - d6) = e - 2f + g = |bc|^2` and
      `va + vb + vc = D`; all four are positive. */
  lemma ConsistentDenominators(gr: Gram, ds: Dots)
    requires Consistent(gr, ds)
    ensures ds.d1 - ds.d3 == gr.e && ds.d2 - ds.d6 == gr.g
    ensures (ds.d4 - ds.d3) + (ds.d5 - ds.d6) == gr.e - 2.0 * gr.f + gr.g
    ensures Va(ds) + Vb(ds) + Vc(ds) == Det(gr)
    ensures DenominatorsPositive(ds)
  {
    GramPositive(gr.e, gr.f, gr.g);
    NumeratorsInGram(gr, ds);
  }

  /** The barycentric numerators in terms of `d1`, `d2` and the Gram
      entries: `vb = g d1 - f d2`, `vc = e d2 - f d1`, and
      `va + vb + vc = D`. */
  lemma NumeratorsInGram(gr: Gram, ds: Dots)
    requires ds.d3 == ds.d1 - gr.e && ds.d4 == ds.d2 - gr.f
    requires ds.d5 == ds.d1 - gr.f && ds.d6 == ds.d2 - gr.g
    ensures Vb(ds) == gr.g * ds.d1 - gr.f * ds.d2
    ensures Vc(ds) == gr.e * ds.d2 - gr.f * ds.d1
    ensures Va(ds) + Vb(ds) + Vc(ds) == Det(gr)
  {
    var e, f, g, d1, d2 := gr.e, gr.f, gr.g, ds.d1, ds.d2;
    assert Va(ds) == (d1 - e) * (d2 - g) - (d1 - f) * (d2 - f);
  }

  /** Every denominator the algorithm divides by is a squared length or the
      squared area term: `d1 - d3 = |ab|^2`, `d2 - d6 = |ac|^2`,
      `(d4 - d3) + (d5 - d6) = |bc|^2` and `va + vb + vc = |ab x ac|^2`.
      For a non-degenerate triangle each is positive, whichever branch
      runs. */
  lemma Denominators(p: Vec3, a: Vec3, b: Vec3, c: Vec3)
    requires NonDegenerate(a, b, c)
    ensures var ds := DotsOf(p, a, b, c);
      && ds.d1 - ds.d3 == Norm2(Sub(b, a))
      && ds.d2 - ds.d6 == Norm2(Sub(c, a))
      && (ds.d4 - ds.d3) + (ds.d5 - ds.d6) == Norm2(Sub(c, b))
      && Va(ds) + Vb(ds) + Vc(ds) == Norm2(Cross(Sub(b, a), Sub(c, a)))
    ensures DenominatorsPositive(DotsOf(p, a, b, c))
  {
    DotsConsistent(p, a, b, c);
    ConsistentDenominators(GramOf(a, b, c), DotsOf(p, a, b, c));
    DetIsAreaTerm(a, b, c);
    ThirdSide(a, b, c);
  }

  /** `|bc|^2 = |ab|^2 - 2 ab.ac + |ac|^2`. */
  lemma ThirdSide(a: Vec3, b: Vec3, c: Vec3)
    ensures var gr := GramOf(a, b, c);
      Norm2(Sub(c, b)) == gr.e - 2.0 * gr.f + gr.g
  {
    var ab, ac := Sub(b, a), Sub(c, a);
    assert Sub(c, b) == Sub(ac, ab);
    Norm2Sub(ac, ab);
    DotSymmetric(ab, ac);
  }

  /** `closestPointOnTriangle`: classify `p` by region, then build the point
      of that region as the source does. */
  function ClosestPointOnTriangle(p: Vec3, a: Vec3, b: Vec3, c: Vec3): Vec3
    requires NonDegenerate(a, b, c)
  {
    var ab := Sub(b, a);
    var ac := Sub(c, a);
    Denominators(p, a, b, c);
    match Classify(DotsOf(p, a, b, c))
    case AtA => a
    case AtB => b
    case OnAB(v) => Add(a, Scale(v, ab))
    case AtC => c
    case OnAC(w) => Add(a, Scale(w, ac))
    case OnBC(w) => Add(b, Scale(w, Sub(c, b)))
    case InFace(v, w) => Add(Add(a, Scale(v, ab)), Scale(w, ac))
  }

  /** When every earlier region test has failed, the three barycentric
      numerators are non-negative, so the face branch returns a point of
      the triangle. With `D = e g - f^2`, the corner inequalities hand the
      case analysis to `FaceWeightsAtCorners`. */
  lemma FaceWeightsNonNegative(gr: Gram, ds: Dots)
    requires Consistent(gr, ds)
    requires !(ds.d1 <= 0.0 && ds.d2 <= 0.0)
    requires !(ds.d3 >= 0.0 && ds.d4 <= ds.d3)
    requires !(Vc(ds) <= 0.0 && ds.d1 >= 0.0 && ds.d3 <= 0.0)
    requires !(ds.d6 >= 0.0 && ds.d5 <= ds.d6)
    requires !(Vb(ds) <= 0.0 && ds.d2 >= 0.0 && ds.d6 <= 0.0)
    requires !(Va(ds) <= 0.0 && ds.d4 - ds.d3 >= 0.0 && ds.d5 - ds.d6 >= 0.0)
    ensures Va(ds) >= 0.0 && Vb(ds) >= 0.0 && Vc(ds) >= 0.0
  {
    var D, va, vb, vc := FaceSetup(gr, ds);
    FaceWeightsAtCorners(D, va, vb, vc, ds.d1, ds.d2, ds.d3, ds.d4, ds.d5, ds.d6);
  }

  /** The numerators, `D`, and the corner inequalities between them. */
  lemma FaceSetup(gr: Gram, ds: Dots) returns (D: real, va: real, vb: real, vc: real)
    requires Consistent(gr, ds)
    ensures va == Va(ds) && vb == Vb(ds) && vc == Vc(ds)
    ensures D > 0.0 && va == D - vb - vc
    ensures CornerFacts(D, vb, vc, ds.d1, ds.d2, ds.d3, ds.d4, ds.d5, ds.d6)
  {
    ConsistentDenominators(gr, ds);
    CornerA(gr, ds);
    CornerB(gr, ds);
    CornerC(gr, ds);
    D, va, vb, vc := Det(gr), Va(ds), Vb(ds), Vc(ds);
  }

  /** The corner inequality at `a`: `vb d1 + vc d2 >= 0`. */
  lemma CornerA(gr: Gram, ds: Dots)
    requires Consistent(gr, ds)
    ensures NotDownhill(Vb(ds), Vc(ds), ds.d1, ds.d2)
  {
    var e, f, g, d1, d2 := gr.e, gr.f, gr.g, ds.d1, ds.d2;
    var u, w := Vb(ds), Vc(ds);
    assert u == g * d1 - f * d2 && w == e * d2 - f * d1;
    CornerNonNegative(e, f, g, d1, d2, u, w);
  }

  /** The corner inequality at `b`: `(vb - D) d3 + vc d4 >= 0`. */
  lemma CornerB(gr: Gram, ds: Dots)
    requires Consistent(gr, ds)
    ensures NotDownhill(Vb(ds) - Det(gr), Vc(ds), ds.d3, ds.d4)
  {
    var e, f, g, d3, d4 := gr.e, gr.f, gr.g, ds.d3, ds.d4;
    var u, w := Vb(ds) - Det(gr), Vc(ds);
    assert u == g * d3 - f * d4 && w == e * d4 - f * d3;
    CornerNonNegative(e, f, g, d3, d4, u, w);
  }

  /** The corner inequality at `c`: `vb d5 + (vc - D) d6 >= 0`. */
  lemma CornerC(gr: Gram, ds: Dots)
    requires Consistent(gr, ds)
    ensures NotDownhill(Vb(ds), Vc(ds) - Det(gr), ds.d5, ds.d6)
  {
    var e, f, g, d5, d6 := gr.e, gr.f, gr.g, ds.d5, ds.d6;
    var u, w := Vb(ds), Vc(ds) - Det(gr);
    assert u == g * d5 - f * d6 && w == e * d6 - f * d5;
    CornerNonNegative(e, f, g, d5, d6, u, w);
  }

  /** None of the six region tests that come before the face case holds. */
  predicate PastEarlierTests(va: real, vb: real, vc: real,
                             d1: real, d2: real, d3: real, d4: real, d5: real, d6: real) {
    && !(d1 <= 0.0 && d2 <= 0.0)
    && !(d3 >= 0.0 && d4 <= d3)
    && !(vc <= 0.0 && d1 >= 0.0 && d3 <= 0.0)
    && !(d6 >= 0.0 && d5 <= d6)
    && !(vb <= 0.0 && d2 >= 0.0 && d6 <= 0.0)
    && !(va <= 0.0 && d4 - d3 >= 0.0 && d5 - d6 >= 0.0)
  }

  /** The three corner inequalities. */
  predicate CornerFacts(D: real, vb: real, vc: real,
                        d1: real, d2: real, d3: real, d4: real, d5: real, d6: real) {
    && NotDownhill(vb, vc, d1, d2)
    && NotDownhill(vb - D, vc, d3, d4)
    && NotDownhill(vb, vc - D, d5, d6)
  }

  /** The displacement `(u, w)` does not point against the gradient `(x, y)`. */
  predicate NotDownhill(u: real, w: real, x: real, y: real) {
    u * x + w * y >= 0.0
  }

  /** Writing `(vb, vc) = D (s, t)` for the coordinates of the projection of
      `p` on the plane, the pair `(d1, d2)` is the gradient seen from corner
      `a`, `(d3, d4)` from `b` and `(d5, d6)` from `c`, and the displacement
      from each corner to the projection is never downhill
      (`CornerNonNegative`). Each negative numerator, together with the
      failed region tests, would make one of them downhill. */
  lemma FaceWeightsAtCorners(D: real, va: real, vb: real, vc: real,
                             d1: real, d2: real, d3: real, d4: real, d5: real, d6: real)
    requires D > 0.0 && va == D - vb - vc
    requires CornerFacts(D, vb, vc, d1, d2, d3, d4, d5, d6)
    requires PastEarlierTests(va, vb, vc, d1, d2, d3, d4, d5, d6)
    ensures vb >= 0.0 && vc >= 0.0 && va >= 0.0
  {
    VbNotNegative(D, va, vb, vc, d1, d2, d3, d4, d5, d6);
    VcNotNegative(D, va, vb, vc, d1, d2, d3, d4, d5, d6);
    VaNotNegative(D, va, vb, vc, d1, d2, d3, d4, d5, d6);
  }

  lemma VbNotNegative(D: real, va: real, vb: real, vc: real,
                             d1: real, d2: real, d3: real, d4: real, d5: real, d6: real)
    requires D > 0.0 && va == D - vb - vc
    requires CornerFacts(D, vb, vc, d1, d2, d3, d4, d5, d6)
    requires PastEarlierTests(va, vb, vc, d1, d2, d3, d4, d5, d6)
    ensures vb >= 0.0
  {
    if vb < 0.0 {
      if d2 < 0.0 {
        if vc >= 0.0 {
          NegativeProduct(vb, d1);
          NonPositiveProduct(vc, d2);
          assert false;
        } else {
          NegativeProduct(vb - D, d3);
          NegativeProduct(vc, d4);
          assert false;
        }
      } else if vc <= D {
        NegativeProduct(vb, d5);
        NonPositiveProduct(vc - D, d6);
        assert false;
      } else if va > 0.0 {
        SplitSum(vb, vc - D, d5, d6);
        NegativeProduct(vb + (vc - D), d6);
        NegativeProduct(vb, d5 - d6);
        assert false;
      } else {
        SplitSum(vb - D, vc, d3, d4);
        NonPositiveProduct((vb - D) + vc, d3);
        NegativeProduct(vc, d4 - d3);
        assert false;
      }
    }
  }

  lemma VcNotNegative(D: real, va: real, vb: real, vc: real,
                             d1: real, d2: real, d3: real, d4: real, d5: real, d6: real)
    requires D > 0.0 && va == D - vb - vc
    requires CornerFacts(D, vb, vc, d1, d2, d3, d4, d5, d6)
    requires PastEarlierTests(va, vb, vc, d1, d2, d3, d4, d5, d6)
    ensures vc >= 0.0
  {
    if vc < 0.0 {
      if d1 < 0.0 {
        NonPositiveProduct(vb, d1);
        NegativeProduct(vc, d2);
        assert false;
      } else if vb <= D {
        NonPositiveProduct(vb - D, d3);
        NegativeProduct(vc, d4);
        assert false;
      } else if va > 0.0 {
        SplitSum(vb - D, vc, d3, d4);
        NegativeProduct((vb - D) + vc, d3);
        NegativeProduct(vc, d4 - d3);
        assert false;
      } else {
        SplitSum(vb, vc - D, d5, d6);
        NonPositiveProduct(vb + (vc - D), d6);
        NegativeProduct(vb, d5 - d6);
        assert false;
      }
    }
  }

  lemma VaNotNegative(D: real, va: real, vb: real, vc: real,
                             d1: real, d2: real, d3: real, d4: real, d5: real, d6: real)
    requires D > 0.0 && va == D - vb - vc
    requires CornerFacts(D, vb, vc, d1, d2, d3, d4, d5, d6)
    requires PastEarlierTests(va, vb, vc, d1, d2, d3, d4, d5, d6)
    ensures va >= 0.0
  {
    if va < 0.0 {
      if d4 < d3 {
        SplitSum(vb - D, vc, d3, d4);
        NegativeProduct((vb - D) + vc, d3);
        NonPositiveProduct(vc, d4 - d3);
        assert false;
      } else {
        SplitSum(vb, vc - D, d5, d6);
        NegativeProduct(vb + (vc - D), d6);
        NonPositiveProduct(vb, d5 - d6);
        assert false;
      }
    }
  }

  /** Seen from any point, the displacement `(u, w)` to the minimiser of the
      quadratic has `u x + w y >= 0`, where `(x, y) = G(u, w) / D` is the
      gradient there: `D (u x + w y)` is the positive semi-definite form. */
  lemma CornerNonNegative(e: real, f: real, g: real, x: real, y: real, u: real, w: real)
    requires e > 0.0 && g > 0.0 && e * g - f * f > 0.0
    requires u == g * x - f * y && w == e * y - f * x
    ensures u * x + w * y >= 0.0
  {
    QuadraticPart(Gram(g, -f, e), x, y);
    assert u * x + w * y == Quadratic(Gram(g, -f, e), x, y);
  }

  /** `u x + w y` split along the gradient difference, both ways. */
  lemma SplitSum(u: real, w: real, x: real, y: real)
    ensures u * x + w * y == (u + w) * y + u * (x - y)
    ensures u * x + w * y == (u + w) * x + w * (y - x)
  {
  }

  lemma NegativeProduct(x: real, y: real)
    requires (x < 0.0 && y > 0.0) || (x > 0.0 && y < 0.0)
    ensures x * y < 0.0
  {
    if x < 0.0 {
      MulPositive(-x, y);
    } else {
      MulPositive(x, -y);
    }
  }

  lemma NonPositiveProduct(x: real, y: real)
    requires (x <= 0.0 && y >= 0.0) || (x >= 0.0 && y <= 0.0)
    ensures x * y <= 0.0
  {
    if x <= 0.0 && y >= 0.0 {
      MulNonNegative(-x, y);
    } else {
      MulNonNegative(x, -y);
    }
  }

  /** Triangle coordinates `(s, t)` of the point a region stands for. */
  function Coordinates(r: Region): (real, real) {
    match r
    case AtA => (0.0, 0.0)
    case AtB => (1.0, 0.0)
    case OnAB(v) => (v, 0.0)
    case AtC => (0.0, 1.0)
    case OnAC(w) => (0.0, w)
    case OnBC(w) => (1.0 - w, w)
    case InFace(v, w) => (v, w)
  }

  /** Half the gradient of the squared distance, in triangle coordinates,
      is `(e s + f t - d1, f s + g t - d2)`. The point `(s, t)` is
      stationary when moving from it towards any corner of the triangle does
      not decrease the squared distance to first order. */
  predicate Stationary(gr: Gram, d1: real, d2: real, s: real, t: real) {
    NoDescentToCorners(GradS(gr, d1, s, t), GradT(gr, d2, s, t), s, t)
  }

  /** The two components of half the gradient at `(s, t)`. */
  function GradS(gr: Gram, d1: real, s: real, t: real): real {
    gr.e * s + gr.f * t - d1
  }

  function GradT(gr: Gram, d2: real, s: real, t: real): real {
    gr.f * s + gr.g * t - d2
  }

  /** With gradient `(g1, g2)` at `(s, t)`, the steps towards the corners
      `(0, 0)`, `(1, 0)` and `(0, 1)` are not downhill. */
  predicate NoDescentToCorners(g1: real, g2: real, s: real, t: real) {
    && NotDownhill(-s, -t, g1, g2)
    && NotDownhill(1.0 - s, -t, g1, g2)
    && NotDownhill(-s, 1.0 - t, g1, g2)
  }

  lemma StationaryAtA(gr: Gram, ds: Dots)
    requires ds.d1 <= 0.0 && ds.d2 <= 0.0
    ensures Optimal(gr, ds, AtA)
  {
  }

  lemma StationaryAtB(gr: Gram, ds: Dots)
    requires Consistent(gr, ds)
    requires ds.d3 >= 0.0 && ds.d4 <= ds.d3
    ensures Optimal(gr, ds, AtB)
  {
  }

  lemma StationaryAtC(gr: Gram, ds: Dots)
    requires Consistent(gr, ds)
    requires ds.d6 >= 0.0 && ds.d5 <= ds.d6
    ensures Optimal(gr, ds, AtC)
  {
  }

  /** A quotient `n / d` with `0 <= n <= d` lies in `[0, 1]`. */
  lemma Fraction(n: real, d: real)
    requires 0.0 <= n <= d && d > 0.0
    ensures 0.0 <= n / d <= 1.0
  {
  }

  /** On edge `ab` the parameter is `v = d1 / e`; the distance does not
      grow towards `c` because `e (f v - d2) = -vc >= 0`. */
  lemma StationaryOnAB(gr: Gram, ds: Dots, v: real)
    requires Consistent(gr, ds)
    requires Vc(ds) <= 0.0 && ds.d1 >= 0.0 && ds.d3 <= 0.0
    requires v == ds.d1 / (ds.d1 - ds.d3)
    ensures Optimal(gr, ds, OnAB(v))
  {
    var e, f, d1, d2 := gr.e, gr.f, ds.d1, ds.d2;
    Fraction(d1, d1 - ds.d3);
    assert v * e == d1;
    assert Vc(ds) == e * d2 - f * d1;
    assert e * (f * v - d2) == -Vc(ds);
  }

  /** On edge `ac` the parameter is `w = d2 / g`, and
      `g (f w - d1) = -vb >= 0`. */
  lemma StationaryOnAC(gr: Gram, ds: Dots, w: real)
    requires Consistent(gr, ds)
    requires Vb(ds) <= 0.0 && ds.d2 >= 0.0 && ds.d6 <= 0.0
    requires w == ds.d2 / (ds.d2 - ds.d6)
    ensures Optimal(gr, ds, OnAC(w))
  {
    var f, g, d1, d2 := gr.f, gr.g, ds.d1, ds.d2;
    Fraction(d2, d2 - ds.d6);
    assert w * g == d2;
    assert Vb(ds) == g * d1 - f * d2;
    assert g * (f * w - d1) == -Vb(ds);
  }

  /** On edge `bc` both gradient components equal `va / |bc|^2 <= 0`. */
  lemma StationaryOnBC(gr: Gram, ds: Dots, w: real)
    requires Consistent(gr, ds)
    requires Va(ds) <= 0.0 && ds.d4 - ds.d3 >= 0.0 && ds.d5 - ds.d6 >= 0.0
    requires (ds.d4 - ds.d3) + (ds.d5 - ds.d6) > 0.0
    requires w == (ds.d4 - ds.d3) / ((ds.d4 - ds.d3) + (ds.d5 - ds.d6))
    ensures Optimal(gr, ds, OnBC(w))
  {
    var L := (ds.d4 - ds.d3) + (ds.d5 - ds.d6);
    Fraction(ds.d4 - ds.d3, L);
    assert w * L == ds.d4 - ds.d3;
    assert Va(ds) == (ds.d1 - gr.e) * (ds.d2 - gr.g) - (ds.d1 - gr.f) * (ds.d2 - gr.f);
    var g1 := EdgeGradient(gr, ds.d1, ds.d2, w, Va(ds));
    EqualGradient(g1, 1.0 - w, w);
  }

  /** Along `bc`, at `(1 - w, w)` with `w |bc|^2 = d4 - d3`, both gradient
      components equal `va / |bc|^2`, which is not positive. */
  lemma EdgeGradient(gr: Gram, d1: real, d2: real, w: real, va: real) returns (g1: real)
    requires gr.e - 2.0 * gr.f + gr.g > 0.0
    requires w * (gr.e - 2.0 * gr.f + gr.g) == (d2 - gr.f) - (d1 - gr.e)
    requires va == (d1 - gr.e) * (d2 - gr.g) - (d1 - gr.f) * (d2 - gr.f) && va <= 0.0
    ensures g1 == GradS(gr, d1, 1.0 - w, w) && g1 == GradT(gr, d2, 1.0 - w, w)
    ensures g1 <= 0.0
  {
    var L := gr.e - 2.0 * gr.f + gr.g;
    g1 := GradS(gr, d1, 1.0 - w, w);
    var g2 := GradT(gr, d2, 1.0 - w, w);
    assert g1 * L == va;
    assert g2 * L == va;
    SignOfFactor(L, -g1);
    assert g1 * L == g2 * L;
  }

  /** A gradient `(g, g)` with `g <= 0` at a point of edge `bc` shows no
      descent towards the corners. */
  lemma EqualGradient(g: real, s: real, t: real)
    requires g <= 0.0 && s + t == 1.0
    ensures NoDescentToCorners(g, g, s, t)
  {
    assert (-s) * g + (-t) * g == -g;
  }

  /** In the face the gradient vanishes: `(vb, vc) / D` solves the normal
      equations. */
  lemma StationaryInFace(gr: Gram, ds: Dots, v: real, w: real)
    requires Consistent(gr, ds)
    requires Va(ds) >= 0.0 && Vb(ds) >= 0.0 && Vc(ds) >= 0.0
    requires Va(ds) + Vb(ds) + Vc(ds) == Det(gr)
    requires v == Vb(ds) * FaceScale(ds) && w == Vc(ds) * FaceScale(ds)
    ensures Optimal(gr, ds, InFace(v, w))
  {
    var k, vb, vc := FaceParameters(gr, ds);
    ZeroGradient(gr, ds.d1, ds.d2, k, vb, vc, v, w);
  }

  /** The face parameters `(vb k, vc k)` with `k = 1 / D` are barycentric
      coordinates, and the numerators in Gram form. */
  lemma FaceParameters(gr: Gram, ds: Dots) returns (k: real, vb: real, vc: real)
    requires Consistent(gr, ds)
    requires Va(ds) >= 0.0 && Vb(ds) >= 0.0 && Vc(ds) >= 0.0
    requires Va(ds) + Vb(ds) + Vc(ds) == Det(gr)
    ensures k == FaceScale(ds) && vb == Vb(ds) && vc == Vc(ds)
    ensures k * Det(gr) == 1.0 && Feasible(vb * k, vc * k)
    ensures vb == gr.g * ds.d1 - gr.f * ds.d2 && vc == gr.e * ds.d2 - gr.f * ds.d1
  {
    k, vb, vc := FaceScale(ds), Vb(ds), Vc(ds);
    Reciprocal(Va(ds) + Vb(ds) + Vc(ds));
    FaceFeasible(Va(ds), vb, vc, k);
    NumeratorsInGram(gr, ds);
  }

  lemma Reciprocal(x: real)
    requires x > 0.0
    ensures (1.0 / x) * x == 1.0 && 1.0 / x > 0.0
  {
  }

  /** Weights `va k, vb k, vc k` that sum to one are barycentric coordinates. */
  lemma FaceFeasible(va: real, vb: real, vc: real, k: real)
    requires va >= 0.0 && vb >= 0.0 && vc >= 0.0 && k > 0.0
    requires k * (va + vb + vc) == 1.0
    ensures Feasible(vb * k, vc * k)
  {
    MulNonNegative(va, k);
    MulNonNegative(vb, k);
    MulNonNegative(vc, k);
    assert va * k + vb * k + vc * k == k * (va + vb + vc);
  }

  /** `(s, t) = (g d1 - f d2, e d2 - f d1) / D` solves `e s + f t = d1`,
      `f s + g t = d2`, and a point with zero gradient is stationary. */
  lemma ZeroGradient(gr: Gram, d1: real, d2: real, k: real, vb: real, vc: real, s: real, t: real)
    requires k * Det(gr) == 1.0
    requires vb == gr.g * d1 - gr.f * d2 && vc == gr.e * d2 - gr.f * d1
    requires s == vb * k && t == vc * k
    ensures Stationary(gr, d1, d2, s, t)
  {
    var e, f, g := gr.e, gr.f, gr.g;
    assert e * s + f * t == d1 * (k * Det(gr));
    assert f * s + g * t == d2 * (k * Det(gr));
    assert GradS(gr, d1, s, t) == 0.0 && GradT(gr, d2, s, t) == 0.0;
  }

  /** The point region `r` stands for lies in the closed triangle and the
      squared distance is stationary there. */
  predicate Optimal(gr: Gram, ds: Dots, r: Region) {
    var st := Coordinates(r);
    Feasible(st.0, st.1) && Stationary(gr, ds.d1, ds.d2, st.0, st.1)
  }

  /** The region the algorithm selects gives a point of the closed
      triangle at which the squared distance is stationary. */
  lemma RegionStationary(gr: Gram, ds: Dots, r: Region)
    requires Consistent(gr, ds)
    requires DenominatorsPositive(ds) && Selected(ds, r)
    ensures Optimal(gr, ds, r)
  {
    match r
    case AtA => StationaryAtA(gr, ds);
    case AtB => StationaryAtB(gr, ds);
    case OnAB(v) => StationaryOnAB(gr, ds, v);
    case AtC => StationaryAtC(gr, ds);
    case OnAC(w) => StationaryOnAC(gr, ds, w);
    case OnBC(w) => StationaryOnBC(gr, ds, w);
    case InFace(v, w) =>
      ConsistentDenominators(gr, ds);
      FaceWeightsNonNegative(gr, ds);
      StationaryInFace(gr, ds, v, w);
  }

  /** The point each region stands for, written in triangle coordinates. */
  lemma PointAtForms(a: Vec3, b: Vec3, c: Vec3, v: real)
    ensures PointAt(a, b, c, 0.0, 0.0) == a
    ensures PointAt(a, b, c, 1.0, 0.0) == b
    ensures PointAt(a, b, c, 0.0, 1.0) == c
    ensures PointAt(a, b, c, v, 0.0) == Add(a, Scale(v, Sub(b, a)))
    ensures PointAt(a, b, c, 0.0, v) == Add(a, Scale(v, Sub(c, a)))
    ensures PointAt(a, b, c, 1.0 - v, v) == Add(b, Scale(v, Sub(c, b)))
  {
  }

  /** The returned point, in triangle coordinates: it lies in the closed
      triangle and the squared distance is stationary there. */
  lemma ClosestPointCoordinates(p: Vec3, a: Vec3, b: Vec3, c: Vec3) returns (s: real, t: real)
    requires NonDegenerate(a, b, c)
    ensures Feasible(s, t)
    ensures ClosestPointOnTriangle(p, a, b, c) == PointAt(a, b, c, s, t)
    ensures var ds := DotsOf(p, a, b, c);
      Stationary(GramOf(a, b, c), ds.d1, ds.d2, s, t)
  {
    var ds := DotsOf(p, a, b, c);
    DotsConsistent(p, a, b, c);
    ConsistentDenominators(GramOf(a, b, c), ds);
    var r := Classify(ds);
    ClassifySelected(ds, r);
    RegionStationary(GramOf(a, b, c), ds, r);
    s, t := Coordinates(r).0, Coordinates(r).1;
    match r
    case OnAB(v) => PointAtForms(a, b, c, v);
    case OnAC(w) => PointAtForms(a, b, c, w);
    case OnBC(w) => PointAtForms(a, b, c, w);
    case _ => PointAtForms(a, b, c, 0.0);
  }

  /** The returned point lies in the closed triangle: it is
      `a + s (b - a) + t (c - a)` with `s, t >= 0` and `s + t <= 1`. */
  lemma ClosestPointInTriangle(p: Vec3, a: Vec3, b: Vec3, c: Vec3)
    requires NonDegenerate(a, b, c)
    ensures InTriangle(ClosestPointOnTriangle(p, a, b, c), a, b, c)
  {
    var s, t := ClosestPointCoordinates(p, a, b, c);
  }

  /** The squared distance from `p` to `PointAt(a, b, c, s, t)`, less
      `|ap|^2`, as a quadratic in `(s, t)`. */
  function Objective(gr: Gram, d1: real, d2: real, s: real, t: real): real {
    gr.e * s * s + 2.0 * gr.f * s * t + gr.g * t * t - 2.0 * d1 * s - 2.0 * d2 * t
  }

  lemma DistInCoordinates(p: Vec3, a: Vec3, b: Vec3, c: Vec3, s: real, t: real)
    ensures var ds := DotsOf(p, a, b, c);
      Dist2(p, PointAt(a, b, c, s, t)) == Norm2(Sub(p, a)) + Objective(GramOf(a, b, c), ds.d1, ds.d2, s, t)
  {
    var ab, ac, ap := Sub(b, a), Sub(c, a), Sub(p, a);
    var z := Add(Scale(s, ab), Scale(t, ac));
    assert Sub(p, PointAt(a, b, c, s, t)) == Sub(ap, z);
    Norm2Sub(ap, z);
    DotCombination(ap, ab, ac, s, t);
    Norm2Combination(ab, ac, s, t);
    DotSymmetric(ap, ab);
    DotSymmetric(ap, ac);
    ObjectiveExpanded(GramOf(a, b, c), Dot(ab, ap), Dot(ac, ap), s, t, Dot(ap, z), Norm2(z));
  }

  /** The objective is what remains of `|ap - z|^2 - |ap|^2` once `ap.z` and
      `|z|^2` are written in triangle coordinates. */
  lemma ObjectiveExpanded(gr: Gram, d1: real, d2: real, s: real, t: real, cross: real, square: real)
    requires cross == s * d1 + t * d2
    requires square == s * s * gr.e + 2.0 * s * t * gr.f + t * t * gr.g
    ensures -2.0 * cross + square == Objective(gr, d1, d2, s, t)
  {
  }

  /** The first-order change of the objective along any feasible direction
      is a non-negative mix of the changes towards the three corners. */
  lemma TowardsCorners(g1: real, g2: real, s: real, t: real, s': real, t': real)
    ensures (s' - s) * g1 + (t' - t) * g2
         == (1.0 - s' - t') * ((-s) * g1 + (-t) * g2) + s' * ((1.0 - s) * g1 + (-t) * g2) + t' * ((-s) * g1 + (1.0 - t) * g2)
  {
  }

  /** The quadratic form of the Gram matrix. */
  function Quadratic(gr: Gram, u: real, w: real): real {
    gr.e * u * u + 2.0 * gr.f * u * w + gr.g * w * w
  }

  lemma MulNonNegative(x: real, y: real)
    requires x >= 0.0 && y >= 0.0
    ensures x * y >= 0.0
  {
  }

  /** The quadratic part of the objective is positive semi-definite:
      `e q = (e u + f w)^2 + D w^2`. */
  lemma QuadraticPart(gr: Gram, u: real, w: real)
    requires gr.e > 0.0 && Det(gr) > 0.0
    ensures Quadratic(gr, u, w) >= 0.0
  {
    var q := Quadratic(gr, u, w);
    var h := gr.e * u + gr.f * w;
    assert gr.e * q == h * h + Det(gr) * (w * w);
    Square(h);
    Square(w);
    MulNonNegative(Det(gr), w * w);
    SignOfFactor(gr.e, q);
  }

  lemma MulPositive(x: real, y: real)
    requires x > 0.0 && y > 0.0
    ensures x * y > 0.0
  {
  }

  /** With a positive factor `x`, `y` has the sign of `x y`. */
  lemma SignOfFactor(x: real, y: real)
    requires x > 0.0
    ensures x * y >= 0.0 ==> y >= 0.0
    ensures x * y > 0.0 ==> y > 0.0
  {
    if y < 0.0 {
      MulPositive(x, -y);
    }
  }

  lemma Square(x: real)
    ensures x * x >= 0.0
  {
    if x < 0.0 {
      assert x * x == (-x) * (-x);
    }
  }

  /** The objective at `(s', t')` is its value at `(s, t)`, plus twice the
      first-order change, plus the quadratic part of the step. */
  lemma ObjectiveStep(gr: Gram, d1: real, d2: real, s: real, t: real, s': real, t': real)
    ensures var u, w := s' - s, t' - t;
      Objective(gr, d1, d2, s', t')
        == Objective(gr, d1, d2, s, t) + 2.0 * (u * GradS(gr, d1, s, t) + w * GradT(gr, d2, s, t)) + Quadratic(gr, u, w)
  {
  }

  /** A stationary point of the convex quadratic is its minimum over the
      triangle. */
  lemma StationaryIsMinimum(gr: Gram, d1: real, d2: real, s: real, t: real, s': real, t': real)
    requires gr.e > 0.0 && Det(gr) > 0.0
    requires Stationary(gr, d1, d2, s, t)
    requires Feasible(s', t')
    ensures Objective(gr, d1, d2, s, t) <= Objective(gr, d1, d2, s', t')
  {
    FirstOrderNonNegative(GradS(gr, d1, s, t), GradT(gr, d2, s, t), s, t, s', t');
    QuadraticPart(gr, s' - s, t' - t);
    ObjectiveStep(gr, d1, d2, s, t, s', t');
  }

  /** With no descent towards the corners, there is none towards any point
      of the triangle. */
  lemma FirstOrderNonNegative(g1: real, g2: real, s: real, t: real, s': real, t': real)
    requires NoDescentToCorners(g1, g2, s, t)
    requires Feasible(s', t')
    ensures NotDownhill(s' - s, t' - t, g1, g2)
  {
    TowardsCorners(g1, g2, s, t, s', t');
    MulNonNegative(1.0 - s' - t', (-s) * g1 + (-t) * g2);
    MulNonNegative(s', (1.0 - s) * g1 + (-t) * g2);
    MulNonNegative(t', (-s) * g1 + (1.0 - t) * g2);
  }

  /** No point of the closed triangle is strictly closer to `p` than the
      returned point. */
  lemma ClosestPointIsNearest(p: Vec3, a: Vec3, b: Vec3, c: Vec3, s': real, t': real)
    requires NonDegenerate(a, b, c)
    requires Feasible(s', t')
    ensures Dist2(p, ClosestPointOnTriangle(p, a, b, c)) <= Dist2(p, PointAt(a, b, c, s', t'))
  {
    var ds := DotsOf(p, a, b, c);
    var s, t := ClosestPointCoordinates(p, a, b, c);
    DotsConsistent(p, a, b, c);
    StationaryIsMinimum(GramOf(a, b, c), ds.d1, ds.d2, s, t, s', t');
    DistInCoordinates(p, a, b, c, s, t);
    DistInCoordinates(p, a, b, c, s', t');
  }

  /** The first region test: when `p` lies behind `a` along both edges the
      answer is `a` itself, in particular when `p == a`. */
  lemma ClosestPointVertexA(p: Vec3, a: Vec3, b: Vec3, c: Vec3)
    requires NonDegenerate(a, b, c)
    requires Dot(Sub(b, a), Sub(p, a)) <= 0.0 && Dot(Sub(c, a), Sub(p, a)) <= 0.0
    ensures ClosestPointOnTriangle(p, a, b, c) == a
  {
  }

  /** For a point at height `k` straight above a point `x` of the closed
      triangle, along the normal `n = ab x ac`, the returned point is `x`
      itself and the squared distance is exactly that of the offset `k n`. */
  lemma DistanceAboveTriangle(a: Vec3, b: Vec3, c: Vec3, s: real, t: real, k: real)
    requires NonDegenerate(a, b, c)
    requires Feasible(s, t)
    ensures var n := Cross(Sub(b, a), Sub(c, a));
      var p := Add(PointAt(a, b, c, s, t), Scale(k, n));
      Dist2(p, ClosestPointOnTriangle(p, a, b, c)) == Norm2(Scale(k, n))
    ensures var n := Cross(Sub(b, a), Sub(c, a));
      var p := Add(PointAt(a, b, c, s, t), Scale(k, n));
      ClosestPointOnTriangle(p, a, b, c) == PointAt(a, b, c, s, t)
  {
    var n := Cross(Sub(b, a), Sub(c, a));
    var x := PointAt(a, b, c, s, t);
    var p := Add(x, Scale(k, n));
    var s', t' := ClosestPointInPlane(p, a, b, c);
    var q := PointAt(a, b, c, s', t');
    ClosestPointIsNearest(p, a, b, c, s, t);
    AboveSplit(a, b, c, s, t, k, s', t');
    assert Sub(p, x) == Scale(k, n);
    NearestAbove(p, x, q, Scale(k, n));
  }

  /** If `q` is no farther from `p` than `x` is, and the distance to `q`
      splits into an in-plane part seen from `x` plus the squared distance
      `|h|^2` from `p` to `x`, then `q` is `x` and lies at distance `|h|`. */
  lemma NearestAbove(p: Vec3, x: Vec3, q: Vec3, h: Vec3)
    requires Dist2(p, q) <= Dist2(p, x)
    requires Dist2(p, q) == Dist2(x, q) + Norm2(h)
    requires Dist2(p, x) == Norm2(h)
    ensures q == x && Dist2(p, q) == Norm2(h)
  {
    NormNonNegative(Sub(x, q));
    SamePoint(x, q);
  }

  /** The returned point lies in the plane of the triangle. */
  lemma ClosestPointInPlane(p: Vec3, a: Vec3, b: Vec3, c: Vec3) returns (s: real, t: real)
    requires NonDegenerate(a, b, c)
    ensures ClosestPointOnTriangle(p, a, b, c) == PointAt(a, b, c, s, t)
  {
    s, t := ClosestPointCoordinates(p, a, b, c);
  }

  /** Seen from a point at height `k` above `x`, the squared distance to
      any point `q` of the plane splits into the in-plane part `|x - q|^2`
      and the height part `k^2 |n|^2`. */
  lemma AboveSplit(a: Vec3, b: Vec3, c: Vec3, s: real, t: real, k: real, s': real, t': real)
    ensures var x := PointAt(a, b, c, s, t);
      var h := Scale(k, Cross(Sub(b, a), Sub(c, a)));
      Dist2(Add(x, h), PointAt(a, b, c, s', t')) == Dist2(x, PointAt(a, b, c, s', t')) + Norm2(h)
  {
    var ab, ac := Sub(b, a), Sub(c, a);
    var n := Cross(ab, ac);
    var x := PointAt(a, b, c, s, t);
    var q := PointAt(a, b, c, s', t');
    var xq := Sub(x, q);
    assert xq == Add(Scale(s - s', ab), Scale(t - t', ac));
    CrossOrthogonal(ab, ac);
    DotCombination(n, ab, ac, s - s', t - t');
    DotSymmetric(n, xq);
    assert Sub(Add(x, Scale(k, n)), q) == Add(Scale(1.0, xq), Scale(k, n));
    Norm2Combination(xq, n, 1.0, k);
    Norm2Scale(k, n);
  }

  /** Two points at squared distance zero coincide. */
  lemma SamePoint(x: Vec3, q: Vec3)
    requires Norm2(Sub(x, q)) <= 0.0
    ensures x == q
  {
    var v := Sub(x, q);
    Square(v.x);
    Square(v.y);
    Square(v.z);
    ZeroSquare(v.x);
    ZeroSquare(v.y);
    ZeroSquare(v.z);
  }

  lemma ZeroSquare(x: real)
    requires x * x <= 0.0
    ensures x == 0.0
  {
    ZeroProduct(x, x);
  }

  /** Stated for a product of two equal factors rather than a square,
      which keeps the solver's rewriting of squares out of the way. */
  lemma ZeroProduct(x: real, y: real)
    requires x == y && x * y <= 0.0
    ensures x == 0.0
  {
    if x > 0.0 {
      MulPositive(x, y);
    } else if x < 0.0 {
      MulPositive(-x, -y);
    }
  }



  /** `glm::distance(pos, ClosestPoint) < radius` for one triangle. */
  predicate NearTriangle(pos: Vec3, tri: Triangle, radius: real)
    requires NonDegenerate(tri.a, tri.b, tri.c)
  {
    radius > 0.0 && Dist2(pos, ClosestPointOnTriangle(pos, tri.a, tri.b, tri.c)) < radius * radius
  }

  /** The test on one triangle is exact: it holds precisely when some point
      of the closed triangle is strictly within `radius` of `pos`. */
  lemma NearTriangleIffPointWithinRadius(pos: Vec3, tri: Triangle, radius: real)
    requires NonDegenerate(tri.a, tri.b, tri.c)
    ensures NearTriangle(pos, tri, radius) <==>
      exists s: real, t: real :: Feasible(s, t) && radius > 0.0
        && Dist2(pos, PointAt(tri.a, tri.b, tri.c, s, t)) < radius * radius
  {
    var s0, t0 := ClosestPointCoordinates(pos, tri.a, tri.b, tri.c);
    if exists s: real, t: real :: Feasible(s, t) && radius > 0.0
         && Dist2(pos, PointAt(tri.a, tri.b, tri.c, s, t)) < radius * radius {
      var s: real, t: real :| Feasible(s, t) && radius > 0.0
         && Dist2(pos, PointAt(tri.a, tri.b, tri.c, s, t)) < radius * radius;
      ClosestPointIsNearest(pos, tri.a, tri.b, tri.c, s, t);
    }
  }

  predicate AllNonDegenerate(tris: seq<Triangle>) {
    forall i :: 0 <= i < |tris| ==> NonDegenerate(tris[i].a, tris[i].b, tris[i].c)
  }

  /** Some cached triangle of the mesh is near `pos`. */
  predicate NearMesh(pos: Vec3, mesh: Mesh, radius: real)
    requires AllNonDegenerate(mesh.worldTriangles)
  {
    exists i :: 0 <= i < |mesh.worldTriangles| && NearTriangle(pos, mesh.worldTriangles[i], radius)
  }

  /** `isPointNearPrecomputedMesh`: scan the cached world triangles in order
      and stop at the first one whose closest point is within `radius`. */
  method IsPointNearPrecomputedMesh(pos: Vec3, mesh: Mesh, radius: real) returns (near: bool)
    requires AllNonDegenerate(mesh.worldTriangles)
    ensures near <==> exists i :: 0 <= i < |mesh.worldTriangles| && NearTriangle(pos, mesh.worldTriangles[i], radius)
    ensures |mesh.worldTriangles| == 0 ==> !near
  {
    var tris := mesh.worldTriangles;
    for k := 0 to |tris|
      invariant forall i :: 0 <= i < k ==> !NearTriangle(pos, tris[i], radius)
    {
      var tri := tris[k];
      var closest := ClosestPointOnTriangle(pos, tri.a, tri.b, tri.c);
      if radius > 0.0 && Dist2(pos, closest) < radius * radius {
        return true;
      }
    }
    return false;
  }

  /** `isInsideAABB`: inflate the box by `radius` on every axis and test
      strict containment on all three axes. */
  function IsInsideAABB(pos: Vec3, box: AABB, radius: real): bool {
    var lo := Sub(box.min, Splat(radius));
    var hi := Add(box.max, Splat(radius));
    pos.x > lo.x && pos.x < hi.x && pos.y > lo.y && pos.y < hi.y && pos.z > lo.z && pos.z < hi.z
  }

  /** Strictly inside the inflated box on each axis, and nowhere else: a
      point on an inflated face is outside. */
  lemma IsInsideAABBBoundary(pos: Vec3, box: AABB, radius: real)
    ensures IsInsideAABB(pos, box, radius) <==>
      && box.min.x - radius < pos.x < box.max.x + radius
      && box.min.y - radius < pos.y < box.max.y + radius
      && box.min.z - radius < pos.z < box.max.z + radius
    ensures pos.x == box.min.x - radius || pos.x == box.max.x + radius ==> !IsInsideAABB(pos, box, radius)
    ensures pos.y == box.min.y - radius || pos.y == box.max.y + radius ==> !IsInsideAABB(pos, box, radius)
    ensures pos.z == box.min.z - radius || pos.z == box.max.z + radius ==> !IsInsideAABB(pos, box, radius)
  {
  }

  /** An inverted box, such as the local box of a mesh with no vertices,
      contains nothing when not inflated. */
  lemma IsInsideInvertedAABB(pos: Vec3, box: AABB)
    requires !WellFormed(box)
    ensures !IsInsideAABB(pos, box, 0.0)
  {
  }

  /** Against the closed box: with no inflation the test implies closed
      containment, and any positive inflation accepts every point of the
      closed box. Inflating more never rejects a point. */
  lemma IsInsideAABBAndContains(pos: Vec3, box: AABB, radius: real, larger: real)
    requires radius <= larger
    ensures IsInsideAABB(pos, box, 0.0) ==> Contains(box, pos)
    ensures radius > 0.0 && Contains(box, pos) ==> IsInsideAABB(pos, box, radius)
    ensures IsInsideAABB(pos, box, radius) ==> IsInsideAABB(pos, box, larger)
  {
  }
}
