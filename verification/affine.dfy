/**
 * The `Affine` trait implemented for `Affine2 = Matrix3` (src/math.rs):
 * homogeneous 3x3 matrices built from a 2x2 linear part and a translation.
 */
module Affine {
  import opened Numerics
  import opened LinearAlgebra

  /** A homogeneous matrix whose bottom row is (0, 0, 1). */
  predicate IsAffine(a: Mat3) {
    a.m31 == 0.0 && a.m32 == 0.0 && a.m33 == 1.0
  }

  function LinearPart(a: Mat3): Mat2 {
    Mat2(a.m11, a.m12, a.m21, a.m22)
  }

  function TranslationPart(a: Mat3): Vec2 {
    Vec2(a.m13, a.m23)
  }

  function Homogeneous(p: Vec2): Vec3 {
    Vec3(p.x, p.y, 1.0)
  }

  /** Where the map sends the point p: its linear part applied, then the translation added. */
  function Apply(a: Mat3, p: Vec2): Vec2 {
    Add2(MulVec2(LinearPart(a), p), TranslationPart(a))
  }

  /** On an affine matrix, the homogeneous product is the point map. */
  lemma ApplyHomogeneous(a: Mat3, p: Vec2)
    requires IsAffine(a)
    ensures MulVec(a, Homogeneous(p)) == Homogeneous(Apply(a, p))
  {
  }

  /** `new(l, t)`: l in the top-left block, (t.x, t.y, 1) as the last column. */
  function New(l: Mat2, t: Vec2): (r: Mat3)
    ensures IsAffine(r)
    ensures LinearPart(r) == l && TranslationPart(r) == t
  {
    Mat3(l.m11, l.m12, t.x,
         l.m21, l.m22, t.y,
         0.0, 0.0, 1.0)
  }

  /** Every affine matrix is `new` of its own parts. */
  lemma NewOfParts(a: Mat3)
    requires IsAffine(a)
    ensures New(LinearPart(a), TranslationPart(a)) == a
  {
  }

  /** `new(l, t)` maps p to l p + t. */
  lemma ApplyNew(l: Mat2, t: Vec2, p: Vec2)
    ensures Apply(New(l, t), p) == Add2(MulVec2(l, p), t)
  {
  }

  /** `id()`: the map that fixes every point. */
  function Id(): (r: Mat3)
    ensures IsAffine(r)
  {
    Identity()
  }

  lemma ApplyId(p: Vec2)
    ensures Apply(Id(), p) == p
  {
  }

  /** `id()` is neutral for composition. */
  lemma IdNeutral(a: Mat3)
    ensures Mul(Id(), a) == a && Mul(a, Id()) == a
  {
    MulIdentity(a);
  }

  /** `inv(m)`: `expect` panics on a singular matrix, so callers must pass an invertible one. */
  function Inv(a: Mat3): (r: Mat3)
    requires Det(a) != 0.0
    ensures Mul(a, r) == Identity() && Mul(r, a) == Identity()
  {
    Inverse(a).value
  }

  /** The inverse of an affine map is affine and undoes it point by point. */
  lemma InvUndoes(a: Mat3, p: Vec2)
    requires IsAffine(a) && Det(a) != 0.0
    ensures IsAffine(Inv(a))
    ensures Apply(Inv(a), Apply(a, p)) == p
  {
    var d := Det(a);
    var adj := Adjugate(a);
    AdjugateRows(a);
    assert Row3(adj) == Vec3(0.0, 0.0, d);
    assert Row3(Inv(a)) == Row3(ScaleBy(1.0 / d, adj));
    assert Row3(ScaleBy(1.0 / d, adj)) == Vec3(0.0, 0.0, (1.0 / d) * d);
    ApplyHomogeneous(a, p);
    ApplyHomogeneous(Inv(a), Apply(a, p));
    MulVecMul(Inv(a), a, Homogeneous(p));
    assert MulVec(Identity(), Homogeneous(p)) == Homogeneous(p);
  }

  /** `translate(x)`: identity linear part, translation x. */
  function Translate(x: Vec2): (r: Mat3)
    ensures IsAffine(r) && LinearPart(r) == Mat2(1.0, 0.0, 0.0, 1.0) && TranslationPart(r) == x
  {
    New(Mat2(1.0, 0.0, 0.0, 1.0), x)
  }

  /** `translate(x)` moves every point by x. */
  lemma ApplyTranslate(x: Vec2, p: Vec2)
    ensures Apply(Translate(x), p) == Add2(p, x)
  {
  }

  /** `scale(s)`: diag(s.x, s.y, 1). */
  function Scale(s: Vec2): (r: Mat3)
    ensures IsAffine(r) && LinearPart(r) == Mat2(s.x, 0.0, 0.0, s.y) && TranslationPart(r) == Vec2(0.0, 0.0)
  {
    New(Mat2(s.x, 0.0, 0.0, s.y), Vec2(0.0, 0.0))
  }

  /** `scale(s)` stretches each coordinate by its own factor. */
  lemma ApplyScale(s: Vec2, p: Vec2)
    ensures Apply(Scale(s), p) == Vec2(s.x * p.x, s.y * p.y)
  {
  }

  /** `rotate(theta)`: the `Rotation2` matrix as linear part, no translation. */
  function Rotate(m: Libm, theta: real): (r: Mat3)
    ensures IsAffine(r) && TranslationPart(r) == Vec2(0.0, 0.0)
    ensures LinearPart(r) == Mat2(m.cos(theta), -m.sin(theta), m.sin(theta), m.cos(theta))
  {
    var c, s := m.cos(theta), m.sin(theta);
    New(Mat2(c, -s, s, c), Vec2(0.0, 0.0))
  }

  /** `id()` is both `translate((0, 0))` and `scale((1, 1))`. */
  lemma IdIsTrivialTranslateAndScale()
    ensures Id() == Translate(Vec2(0.0, 0.0)) == Scale(Vec2(1.0, 1.0))
  {
  }

  /** The inverse of `translate(x)` is `translate(-x)`. */
  lemma InvTranslate(x: Vec2)
    ensures Det(Translate(x)) == 1.0
    ensures Inv(Translate(x)) == Translate(Vec2(-x.x, -x.y))
  {
    var t := Translate(x);
    assert Adjugate(t) == Translate(Vec2(-x.x, -x.y));
  }

  /** A rotation is never singular. */
  lemma RotateDet(m: Libm, theta: real)
    requires Lawful(m)
    ensures Det(Rotate(m, theta)) == 1.0
  {
    var c, s := m.cos(theta), m.sin(theta);
    var r := Rotate(m, theta);
    assert Row1(r) == Vec3(c, -s, 0.0) && Row2(r) == Vec3(s, c, 0.0) && Row3(r) == Vec3(0.0, 0.0, 1.0);
    assert Cross(Row2(r), Row3(r)) == Vec3(c, -s, 0.0);
    assert Det(r) == c * c + s * s;
  }

  /** A rotation keeps every point's distance to the origin. */
  lemma RotateKeepsNorm(m: Libm, theta: real, p: Vec2)
    requires Lawful(m)
    ensures Norm2Squared(Apply(Rotate(m, theta), p)) == Norm2Squared(p)
  {
    var c, s := m.cos(theta), m.sin(theta);
    var q := Apply(Rotate(m, theta), p);
    RotationNormReal(c, s, p.x, p.y, q.x, q.y);
  }

  lemma RotationNormReal(c: real, s: real, x: real, y: real, qx: real, qy: real)
    requires s * s + c * c == 1.0
    requires qx == c * x - s * y && qy == s * x + c * y
    ensures qx * qx + qy * qy == x * x + y * y
  {
    assert qx * qx + qy * qy == (s * s + c * c) * (x * x + y * y);
  }
}
