/**
 Exact-arithmetic stand-ins for the small part of glm the collision code
 uses: 3-vectors, homogeneous 4-vectors, 4x4 matrices and the map
 `p |-> vec3(M * vec4(p, 1))`. Every coordinate is a `real`, so none of
 the rounding of the single-precision glm arithmetic is modelled.
 */
module Linear {

  datatype Vec3 = Vec3(x: real, y: real, z: real)

  /** A homogeneous vector; also used for one row of a matrix. */
  datatype Vec4 = Vec4(x: real, y: real, z: real, w: real)

  /** A 4x4 matrix stored by rows: `row0.w` is the entry in row 0, column 3. */
  datatype Mat4 = Mat4(row0: Vec4, row1: Vec4, row2: Vec4, row3: Vec4)

  function Add(u: Vec3, v: Vec3): Vec3 {
    Vec3(u.x + v.x, u.y + v.y, u.z + v.z)
  }

  function Sub(u: Vec3, v: Vec3): Vec3 {
    Vec3(u.x - v.x, u.y - v.y, u.z - v.z)
  }

  function Neg(v: Vec3): Vec3 {
    Vec3(-v.x, -v.y, -v.z)
  }

  function Scale(k: real, v: Vec3): Vec3 {
    Vec3(k * v.x, k * v.y, k * v.z)
  }

  /** `glm::vec3(k)`: the vector with all three components equal to `k`. */
  function Splat(k: real): Vec3 {
    Vec3(k, k, k)
  }

  function Dot(u: Vec3, v: Vec3): real {
    u.x * v.x + u.y * v.y + u.z * v.z
  }

  function Cross(u: Vec3, v: Vec3): Vec3 {
    Vec3(u.y * v.z - u.z * v.y, u.z * v.x - u.x * v.z, u.x * v.y - u.y * v.x)
  }

  function Norm2(v: Vec3): real {
    Dot(v, v)
  }

  /** Squared Euclidean distance; `glm::distance` is its square root. */
  function Dist2(p: Vec3, q: Vec3): real {
    Norm2(Sub(p, q))
  }

  function MinR(a: real, b: real): real {
    if b < a then b else a
  }

  function MaxR(a: real, b: real): real {
    if a < b then b else a
  }

  /** `glm::min` on vectors: the componentwise minimum. */
  function Min(u: Vec3, v: Vec3): Vec3 {
    Vec3(MinR(u.x, v.x), MinR(u.y, v.y), MinR(u.z, v.z))
  }

  /** `glm::max` on vectors: the componentwise maximum. */
  function Max(u: Vec3, v: Vec3): Vec3 {
    Vec3(MaxR(u.x, v.x), MaxR(u.y, v.y), MaxR(u.z, v.z))
  }

  /** Componentwise `<=`. */
  predicate LessEq(u: Vec3, v: Vec3) {
    u.x <= v.x && u.y <= v.y && u.z <= v.z
  }

  function Dot4(u: Vec4, v: Vec4): real {
    u.x * v.x + u.y * v.y + u.z * v.z + u.w * v.w
  }

  /** `glm::vec4(p, 1.0f)`. */
  function Point4(p: Vec3): Vec4 {
    Vec4(p.x, p.y, p.z, 1.0)
  }

  function MulVec(m: Mat4, v: Vec4): Vec4 {
    Vec4(Dot4(m.row0, v), Dot4(m.row1, v), Dot4(m.row2, v), Dot4(m.row3, v))
  }

  /** `glm::vec3(m * glm::vec4(p, 1.0f))`: the fourth output row is computed
      and dropped, so no perspective division takes place. */
  function Transform(m: Mat4, p: Vec3): Vec3 {
    var h := MulVec(m, Point4(p));
    Vec3(h.x, h.y, h.z)
  }

  /** Column `j` of a matrix, as a vector. */
  function Column(m: Mat4, j: nat): Vec4
    requires j < 4
  {
    if j == 0 then Vec4(m.row0.x, m.row1.x, m.row2.x, m.row3.x)
    else if j == 1 then Vec4(m.row0.y, m.row1.y, m.row2.y, m.row3.y)
    else if j == 2 then Vec4(m.row0.z, m.row1.z, m.row2.z, m.row3.z)
    else Vec4(m.row0.w, m.row1.w, m.row2.w, m.row3.w)
  }

  function RowTimes(r: Vec4, m: Mat4): Vec4 {
    Vec4(Dot4(r, Column(m, 0)), Dot4(r, Column(m, 1)), Dot4(r, Column(m, 2)), Dot4(r, Column(m, 3)))
  }

  /** The matrix product `a * b`. */
  function MatMul(a: Mat4, b: Mat4): Mat4 {
    Mat4(RowTimes(a.row0, b), RowTimes(a.row1, b), RowTimes(a.row2, b), RowTimes(a.row3, b))
  }

  /** `glm::mat4(1.0f)`. */
  const Identity: Mat4 :=
    Mat4(Vec4(1.0, 0.0, 0.0, 0.0), Vec4(0.0, 1.0, 0.0, 0.0),
         Vec4(0.0, 0.0, 1.0, 0.0), Vec4(0.0, 0.0, 0.0, 1.0))

  /** The matrix `glm::translate(glm::mat4(1.0f), t)`. */
  function Translation(t: Vec3): Mat4 {
    Mat4(Vec4(1.0, 0.0, 0.0, t.x), Vec4(0.0, 1.0, 0.0, t.y),
         Vec4(0.0, 0.0, 1.0, t.z), Vec4(0.0, 0.0, 0.0, 1.0))
  }

  /** The matrix `glm::scale(glm::mat4(1.0f), s)`. */
  function Scaling(s: Vec3): Mat4 {
    Mat4(Vec4(s.x, 0.0, 0.0, 0.0), Vec4(0.0, s.y, 0.0, 0.0),
         Vec4(0.0, 0.0, s.z, 0.0), Vec4(0.0, 0.0, 0.0, 1.0))
  }

  /** `glm::translate(m, t)` post-multiplies `m` by a translation. */
  function Translate(m: Mat4, t: Vec3): Mat4 {
    MatMul(m, Translation(t))
  }

  /** `glm::scale(m, s)` post-multiplies `m` by a scaling. */
  function ScaleBy(m: Mat4, s: Vec3): Mat4 {
    MatMul(m, Scaling(s))
  }

  lemma TransformIdentity(p: Vec3)
    ensures Transform(Identity, p) == p
  {
  }

  lemma TransformTranslation(t: Vec3, p: Vec3)
    ensures Transform(Translation(t), p) == Add(p, t)
  {
  }

  /** Lagrange's identity: the squared area term of two vectors is their
      Gram determinant. */
  lemma CrossNorm2(u: Vec3, v: Vec3)
    ensures Norm2(Cross(u, v)) == Norm2(u) * Norm2(v) - Dot(u, v) * Dot(u, v)
  {
  }

  lemma DotSymmetric(u: Vec3, v: Vec3)
    ensures Dot(u, v) == Dot(v, u)
  {
  }

  lemma DotSub(u: Vec3, v: Vec3, w: Vec3)
    ensures Dot(u, Sub(v, w)) == Dot(u, v) - Dot(u, w)
  {
  }

  lemma Norm2Sub(u: Vec3, z: Vec3)
    ensures Norm2(Sub(u, z)) == Norm2(u) - 2.0 * Dot(u, z) + Norm2(z)
  {
  }

  lemma DotCombination(u: Vec3, v: Vec3, w: Vec3, s: real, t: real)
    ensures Dot(u, Add(Scale(s, v), Scale(t, w))) == s * Dot(u, v) + t * Dot(u, w)
  {
  }

  lemma Norm2Combination(v: Vec3, w: Vec3, s: real, t: real)
    ensures Norm2(Add(Scale(s, v), Scale(t, w))) == s * s * Norm2(v) + 2.0 * s * t * Dot(v, w) + t * t * Norm2(w)
  {
  }

  /** The cross product is orthogonal to both factors. */
  lemma CrossOrthogonal(u: Vec3, v: Vec3)
    ensures Dot(Cross(u, v), u) == 0.0 && Dot(Cross(u, v), v) == 0.0
  {
  }

  lemma Norm2Scale(k: real, v: Vec3)
    ensures Norm2(Scale(k, v)) == k * k * Norm2(v)
  {
  }

  /** `glm::mat4(1.0f)` is a left unit of the product. */
  lemma IdentityLeft(m: Mat4)
    ensures MatMul(Identity, m) == m
  {
  }

  /** A translation followed (on the right) by a scaling. */
  lemma TranslationTimesScaling(t: Vec3, s: Vec3)
    ensures MatMul(Translation(t), Scaling(s))
         == Mat4(Vec4(s.x, 0.0, 0.0, t.x), Vec4(0.0, s.y, 0.0, t.y),
                 Vec4(0.0, 0.0, s.z, t.z), Vec4(0.0, 0.0, 0.0, 1.0))
  {
  }

  /** `scale(translate(I, t), s)` written out entry by entry. */
  lemma TranslateThenScale(t: Vec3, s: Vec3)
    ensures ScaleBy(Translate(Identity, t), s)
         == Mat4(Vec4(s.x, 0.0, 0.0, t.x), Vec4(0.0, s.y, 0.0, t.y),
                 Vec4(0.0, 0.0, s.z, t.z), Vec4(0.0, 0.0, 0.0, 1.0))
  {
    IdentityLeft(Translation(t));
    assert Translate(Identity, t) == Translation(t);
    TranslationTimesScaling(t, s);
  }

  /** `scale(translate(I, t), s)` maps `p` to `s * p + t`: glm post-multiplies,
      so the scaling acts first and the translation second. */
  lemma TransformTranslateScale(t: Vec3, s: Vec3, p: Vec3)
    ensures Transform(ScaleBy(Translate(Identity, t), s), p) == Add(Vec3(s.x * p.x, s.y * p.y, s.z * p.z), t)
  {
    TranslateThenScale(t, s);
    TransformScaledTranslation(t, s, p);
  }

  /** The uniform case: `scale(translate(I, t), vec3(k))` maps `p` to `k p + t`. */
  lemma TransformUniform(t: Vec3, k: real, p: Vec3)
    ensures Transform(ScaleBy(Translate(Identity, t), Splat(k)), p) == Add(Scale(k, p), t)
  {
    TransformTranslateScale(t, Splat(k), p);
    UniformScale(k, p);
  }

  lemma UniformScale(k: real, p: Vec3)
    ensures Vec3(Splat(k).x * p.x, Splat(k).y * p.y, Splat(k).z * p.z) == Scale(k, p)
  {
  }

  lemma TransformScaledTranslation(t: Vec3, s: Vec3, p: Vec3)
    ensures Transform(Mat4(Vec4(s.x, 0.0, 0.0, t.x), Vec4(0.0, s.y, 0.0, t.y),
                           Vec4(0.0, 0.0, s.z, t.z), Vec4(0.0, 0.0, 0.0, 1.0)), p)
         == Add(Vec3(s.x * p.x, s.y * p.y, s.z * p.z), t)
  {
  }

  lemma NormNonNegative(v: Vec3)
    ensures Norm2(v) >= 0.0
  {
  }
}
