/**
 * The small part of the `nalgebra` crate the orbit code relies on: 2- and
 * 3-dimensional vectors, 2x2 and 3x3 matrices, their products, the
 * determinant and `Matrix3::inverse()`.
 *
 * Products are written through rows, columns, dot and cross products; the
 * polynomial identities behind them are proved once on plain reals.
 */
module LinearAlgebra {
  import opened Wrappers

  /** `Vector2` and `Point2` alike. */
  datatype Vec2 = Vec2(x: real, y: real)

  datatype Vec3 = Vec3(x: real, y: real, z: real)

  /** Row-major 2x2 matrix. */
  datatype Mat2 = Mat2(m11: real, m12: real, m21: real, m22: real)

  /** Row-major 3x3 matrix, entries named as `nalgebra` names them. */
  datatype Mat3 = Mat3(
    m11: real, m12: real, m13: real,
    m21: real, m22: real, m23: real,
    m31: real, m32: real, m33: real)

  function Add2(u: Vec2, v: Vec2): Vec2 {
    Vec2(u.x + v.x, u.y + v.y)
  }

  function Norm2Squared(v: Vec2): real {
    v.x * v.x + v.y * v.y
  }

  function MulVec2(l: Mat2, v: Vec2): Vec2 {
    Vec2(l.m11 * v.x + l.m12 * v.y, l.m21 * v.x + l.m22 * v.y)
  }

  function Dot(u: Vec3, v: Vec3): real {
    u.x * v.x + u.y * v.y + u.z * v.z
  }

  function Cross(u: Vec3, v: Vec3): Vec3 {
    Vec3(u.y * v.z - u.z * v.y, u.z * v.x - u.x * v.z, u.x * v.y - u.y * v.x)
  }

  function Scale3(k: real, v: Vec3): Vec3 {
    Vec3(k * v.x, k * v.y, k * v.z)
  }

  function Row1(a: Mat3): Vec3 { Vec3(a.m11, a.m12, a.m13) }
  function Row2(a: Mat3): Vec3 { Vec3(a.m21, a.m22, a.m23) }
  function Row3(a: Mat3): Vec3 { Vec3(a.m31, a.m32, a.m33) }
  function Col1(a: Mat3): Vec3 { Vec3(a.m11, a.m21, a.m31) }
  function Col2(a: Mat3): Vec3 { Vec3(a.m12, a.m22, a.m32) }
  function Col3(a: Mat3): Vec3 { Vec3(a.m13, a.m23, a.m33) }

  function FromRows(r1: Vec3, r2: Vec3, r3: Vec3): Mat3 {
    Mat3(r1.x, r1.y, r1.z, r2.x, r2.y, r2.z, r3.x, r3.y, r3.z)
  }

  function FromCols(c1: Vec3, c2: Vec3, c3: Vec3): Mat3 {
    Mat3(c1.x, c2.x, c3.x, c1.y, c2.y, c3.y, c1.z, c2.z, c3.z)
  }

  /** `Matrix3::one()`. */
  function Identity(): Mat3 {
    Mat3(1.0, 0.0, 0.0,
         0.0, 1.0, 0.0,
         0.0, 0.0, 1.0)
  }

  function Transpose(a: Mat3): Mat3 {
    FromRows(Col1(a), Col2(a), Col3(a))
  }

  function ScaleBy(k: real, a: Mat3): Mat3 {
    FromCols(Scale3(k, Col1(a)), Scale3(k, Col2(a)), Scale3(k, Col3(a)))
  }

  function Mul(a: Mat3, b: Mat3): Mat3 {
    var r1, r2, r3 := Row1(a), Row2(a), Row3(a);
    var c1, c2, c3 := Col1(b), Col2(b), Col3(b);
    Mat3(Dot(r1, c1), Dot(r1, c2), Dot(r1, c3),
         Dot(r2, c1), Dot(r2, c2), Dot(r2, c3),
         Dot(r3, c1), Dot(r3, c2), Dot(r3, c3))
  }

  function MulVec(a: Mat3, v: Vec3): Vec3 {
    Vec3(Dot(Row1(a), v), Dot(Row2(a), v), Dot(Row3(a), v))
  }

  /** The quadratic form v^T a v. */
  function QuadForm(a: Mat3, v: Vec3): real {
    Dot(v, MulVec(a, v))
  }

  /** The determinant, as the triple product of the rows. */
  function Det(a: Mat3): real {
    Dot(Row1(a), Cross(Row2(a), Row3(a)))
  }

  /** The transposed cofactor matrix: its columns are cross products of rows. */
  function Adjugate(a: Mat3): Mat3 {
    FromCols(Cross(Row2(a), Row3(a)), Cross(Row3(a), Row1(a)), Cross(Row1(a), Row2(a)))
  }

  /**
   * `Matrix3::inverse()`: no result exactly when the matrix is singular;
   * otherwise a two-sided inverse.
   */
  function Inverse(a: Mat3): (r: Option<Mat3>)
    ensures r.None? <==> Det(a) == 0.0
    ensures r.Some? ==> Mul(a, r.value) == Identity() && Mul(r.value, a) == Identity()
  {
    var d := Det(a);
    if d == 0.0 then None
    else
      InverseProducts(a);
      Some(ScaleBy(1.0 / d, Adjugate(a)))
  }

  // ---------------------------------------------------------------------
  // Polynomial identities on plain reals.

  lemma CyclicReal(ux: real, uy: real, uz: real, vx: real, vy: real, vz: real, wx: real, wy: real, wz: real)
    ensures ux * (vy * wz - vz * wy) + uy * (vz * wx - vx * wz) + uz * (vx * wy - vy * wx)
         == vx * (wy * uz - wz * uy) + vy * (wz * ux - wx * uz) + vz * (wx * uy - wy * ux)
  {
  }

  lemma RepeatReal(ux: real, uy: real, uz: real, vx: real, vy: real, vz: real)
    ensures ux * (uy * vz - uz * vy) + uy * (uz * vx - ux * vz) + uz * (ux * vy - uy * vx) == 0.0
  {
  }

  lemma DetColumnsReal(m11: real, m12: real, m13: real, m21: real, m22: real, m23: real, m31: real, m32: real, m33: real)
    ensures m11 * (m22 * m33 - m23 * m32) + m12 * (m23 * m31 - m21 * m33) + m13 * (m21 * m32 - m22 * m31)
         == m11 * (m22 * m33 - m32 * m23) + m21 * (m32 * m13 - m12 * m33) + m31 * (m12 * m23 - m22 * m13)
  {
  }

  lemma DotScaleReal(k: real, ux: real, uy: real, uz: real, vx: real, vy: real, vz: real)
    ensures ux * (k * vx) + uy * (k * vy) + uz * (k * vz) == k * (ux * vx + uy * vy + uz * vz)
  {
  }

  lemma RowColumnReal(r1: real, r2: real, r3: real,
                      b11: real, b12: real, b13: real, b21: real, b22: real, b23: real, b31: real, b32: real, b33: real,
                      v1: real, v2: real, v3: real)
    ensures (r1 * b11 + r2 * b21 + r3 * b31) * v1 + (r1 * b12 + r2 * b22 + r3 * b32) * v2 + (r1 * b13 + r2 * b23 + r3 * b33) * v3
         == r1 * (b11 * v1 + b12 * v2 + b13 * v3) + r2 * (b21 * v1 + b22 * v2 + b23 * v3) + r3 * (b31 * v1 + b32 * v2 + b33 * v3)
  {
  }

  // ---------------------------------------------------------------------
  // Vector identities.

  lemma TripleCyclic(u: Vec3, v: Vec3, w: Vec3)
    ensures Dot(u, Cross(v, w)) == Dot(v, Cross(w, u))
  {
    CyclicReal(u.x, u.y, u.z, v.x, v.y, v.z, w.x, w.y, w.z);
  }

  lemma TripleRepeat(u: Vec3, v: Vec3)
    ensures Dot(u, Cross(u, v)) == 0.0
  {
    RepeatReal(u.x, u.y, u.z, v.x, v.y, v.z);
  }

  lemma TripleRepeatLast(u: Vec3, v: Vec3)
    ensures Dot(u, Cross(v, u)) == 0.0
  {
    RepeatReal(u.x, u.y, u.z, v.x, v.y, v.z);
    assert Cross(v, u) == Vec3(-(u.y * v.z - u.z * v.y), -(u.z * v.x - u.x * v.z), -(u.x * v.y - u.y * v.x));
  }

  lemma DotScale(k: real, u: Vec3, v: Vec3)
    ensures Dot(u, Scale3(k, v)) == k * Dot(u, v)
  {
    DotScaleReal(k, u.x, u.y, u.z, v.x, v.y, v.z);
  }

  lemma DotCommutes(u: Vec3, v: Vec3)
    ensures Dot(u, v) == Dot(v, u)
  {
  }

  /** One row of the associativity of matrix-vector products. */
  lemma RowOfMulVec(r: Vec3, b: Mat3, v: Vec3)
    ensures Dot(Vec3(Dot(r, Col1(b)), Dot(r, Col2(b)), Dot(r, Col3(b))), v) == Dot(r, MulVec(b, v))
  {
    RowColumnReal(r.x, r.y, r.z, b.m11, b.m12, b.m13, b.m21, b.m22, b.m23, b.m31, b.m32, b.m33, v.x, v.y, v.z);
    assert Dot(r, Col1(b)) == r.x * b.m11 + r.y * b.m21 + r.z * b.m31;
    assert Dot(r, Col2(b)) == r.x * b.m12 + r.y * b.m22 + r.z * b.m32;
    assert Dot(r, Col3(b)) == r.x * b.m13 + r.y * b.m23 + r.z * b.m33;
    assert MulVec(b, v) == Vec3(b.m11 * v.x + b.m12 * v.y + b.m13 * v.z,
                                b.m21 * v.x + b.m22 * v.y + b.m23 * v.z,
                                b.m31 * v.x + b.m32 * v.y + b.m33 * v.z);
  }

  // ---------------------------------------------------------------------
  // Matrix identities.

  lemma MulAdjugateRight(a: Mat3)
    ensures Mul(a, Adjugate(a)) == ScaleBy(Det(a), Identity())
  {
    var r1, r2, r3 := Row1(a), Row2(a), Row3(a);
    TripleCyclic(r1, r2, r3);
    TripleCyclic(r2, r3, r1);
    TripleRepeat(r1, r2);
    TripleRepeat(r2, r3);
    TripleRepeat(r3, r1);
    TripleRepeatLast(r1, r3);
    TripleRepeatLast(r2, r1);
    TripleRepeatLast(r3, r2);
  }

  /** The rows of the adjugate are cross products of columns. */
  lemma AdjugateRows(a: Mat3)
    ensures Row1(Adjugate(a)) == Cross(Col2(a), Col3(a))
    ensures Row2(Adjugate(a)) == Cross(Col3(a), Col1(a))
    ensures Row3(Adjugate(a)) == Cross(Col1(a), Col2(a))
  {
    AdjugateRow1(a);
    AdjugateRow2(a);
    AdjugateRow3(a);
  }

  lemma AdjugateRow1(a: Mat3)
    ensures Row1(Adjugate(a)) == Cross(Col2(a), Col3(a))
  {
    assert Row1(Adjugate(a)) == Vec3(a.m22 * a.m33 - a.m23 * a.m32, a.m32 * a.m13 - a.m33 * a.m12, a.m12 * a.m23 - a.m13 * a.m22);
  }

  lemma AdjugateRow2(a: Mat3)
    ensures Row2(Adjugate(a)) == Cross(Col3(a), Col1(a))
  {
    assert Row2(Adjugate(a)) == Vec3(a.m23 * a.m31 - a.m21 * a.m33, a.m33 * a.m11 - a.m31 * a.m13, a.m13 * a.m21 - a.m11 * a.m23);
  }

  lemma AdjugateRow3(a: Mat3)
    ensures Row3(Adjugate(a)) == Cross(Col1(a), Col2(a))
  {
    assert Row3(Adjugate(a)) == Vec3(a.m21 * a.m32 - a.m22 * a.m31, a.m31 * a.m12 - a.m32 * a.m11, a.m11 * a.m22 - a.m12 * a.m21);
  }

  lemma DetByColumns(a: Mat3)
    ensures Det(a) == Dot(Col1(a), Cross(Col2(a), Col3(a)))
  {
    DetColumnsReal(a.m11, a.m12, a.m13, a.m21, a.m22, a.m23, a.m31, a.m32, a.m33);
  }

  lemma MulAdjugateLeft(a: Mat3)
    ensures Mul(Adjugate(a), a) == ScaleBy(Det(a), Identity())
  {
    var c1, c2, c3 := Col1(a), Col2(a), Col3(a);
    AdjugateRows(a);
    DetByColumns(a);
    DotCommutes(Cross(c2, c3), c1);
    DotCommutes(Cross(c2, c3), c2);
    DotCommutes(Cross(c2, c3), c3);
    DotCommutes(Cross(c3, c1), c1);
    DotCommutes(Cross(c3, c1), c2);
    DotCommutes(Cross(c3, c1), c3);
    DotCommutes(Cross(c1, c2), c1);
    DotCommutes(Cross(c1, c2), c2);
    DotCommutes(Cross(c1, c2), c3);
    TripleCyclic(c1, c2, c3);
    TripleCyclic(c2, c3, c1);
    TripleRepeat(c1, c2);
    TripleRepeat(c2, c3);
    TripleRepeat(c3, c1);
    TripleRepeatLast(c1, c3);
    TripleRepeatLast(c2, c1);
    TripleRepeatLast(c3, c2);
  }

  lemma ColumnScale(k: real, a: Mat3, c: Vec3)
    ensures MulVec(a, Scale3(k, c)) == Scale3(k, MulVec(a, c))
  {
    DotScale(k, Row1(a), c);
    DotScale(k, Row2(a), c);
    DotScale(k, Row3(a), c);
  }
  lemma ColumnsOfMul(a: Mat3, b: Mat3)
    ensures Col1(Mul(a, b)) == MulVec(a, Col1(b))
    ensures Col2(Mul(a, b)) == MulVec(a, Col2(b))
    ensures Col3(Mul(a, b)) == MulVec(a, Col3(b))
  {
  }
  lemma MulScaleRight(k: real, a: Mat3, b: Mat3)
    ensures Mul(a, ScaleBy(k, b)) == ScaleBy(k, Mul(a, b))
  {
    var sb := ScaleBy(k, b);
    ColumnsOfMul(a, b);
    ColumnsOfMul(a, sb);
    assert Col1(sb) == Scale3(k, Col1(b));
    assert Col2(sb) == Scale3(k, Col2(b));
    assert Col3(sb) == Scale3(k, Col3(b));
    ColumnScale(k, a, Col1(b));
    ColumnScale(k, a, Col2(b));
    ColumnScale(k, a, Col3(b));
    var l, r := Mul(a, sb), ScaleBy(k, Mul(a, b));
    assert Col1(l) == Col1(r) && Col2(l) == Col2(r) && Col3(l) == Col3(r);
  }

  /** A scaled row times b is the scaled row of products. */
  lemma RowTimesScaled(k: real, r: Vec3, b: Mat3)
    ensures Vec3(Dot(Scale3(k, r), Col1(b)), Dot(Scale3(k, r), Col2(b)), Dot(Scale3(k, r), Col3(b)))
         == Scale3(k, Vec3(Dot(r, Col1(b)), Dot(r, Col2(b)), Dot(r, Col3(b))))
  {
    DotCommutes(Scale3(k, r), Col1(b)); DotScale(k, Col1(b), r); DotCommutes(r, Col1(b));
    DotCommutes(Scale3(k, r), Col2(b)); DotScale(k, Col2(b), r); DotCommutes(r, Col2(b));
    DotCommutes(Scale3(k, r), Col3(b)); DotScale(k, Col3(b), r); DotCommutes(r, Col3(b));
  }

  /** Row i of a product is row i of the left factor against the right factor's columns. */
  lemma RowsOfMul(a: Mat3, b: Mat3)
    ensures Row1(Mul(a, b)) == Vec3(Dot(Row1(a), Col1(b)), Dot(Row1(a), Col2(b)), Dot(Row1(a), Col3(b)))
    ensures Row2(Mul(a, b)) == Vec3(Dot(Row2(a), Col1(b)), Dot(Row2(a), Col2(b)), Dot(Row2(a), Col3(b)))
    ensures Row3(Mul(a, b)) == Vec3(Dot(Row3(a), Col1(b)), Dot(Row3(a), Col2(b)), Dot(Row3(a), Col3(b)))
  {
  }

  lemma RowsOfScale(k: real, a: Mat3)
    ensures Row1(ScaleBy(k, a)) == Scale3(k, Row1(a))
    ensures Row2(ScaleBy(k, a)) == Scale3(k, Row2(a))
    ensures Row3(ScaleBy(k, a)) == Scale3(k, Row3(a))
  {
  }

  /** Matrices with equal rows are equal. */
  lemma EqualRows(a: Mat3, b: Mat3)
    requires Row1(a) == Row1(b) && Row2(a) == Row2(b) && Row3(a) == Row3(b)
    ensures a == b
  {
    assert a == FromRows(Row1(a), Row2(a), Row3(a));
    assert b == FromRows(Row1(b), Row2(b), Row3(b));
  }

  lemma MulScaleLeft(k: real, a: Mat3, b: Mat3)
    ensures Mul(ScaleBy(k, a), b) == ScaleBy(k, Mul(a, b))
  {
    var sa := ScaleBy(k, a);
    var l, r := Mul(sa, b), ScaleBy(k, Mul(a, b));
    RowsOfScale(k, a);
    RowsOfScale(k, Mul(a, b));
    RowsOfMul(sa, b);
    RowsOfMul(a, b);
    RowTimesScaled(k, Row1(a), b);
    RowTimesScaled(k, Row2(a), b);
    RowTimesScaled(k, Row3(a), b);
    EqualRows(l, r);
  }

  lemma ScaleIdentity(k: real, d: real)
    requires k * d == 1.0
    ensures ScaleBy(k, ScaleBy(d, Identity())) == Identity()
  {
  }

  lemma InverseProducts(a: Mat3)
    requires Det(a) != 0.0
    ensures Mul(a, ScaleBy(1.0 / Det(a), Adjugate(a))) == Identity()
    ensures Mul(ScaleBy(1.0 / Det(a), Adjugate(a)), a) == Identity()
  {
    var d := Det(a);
    MulAdjugateRight(a);
    MulAdjugateLeft(a);
    MulScaleRight(1.0 / d, a, Adjugate(a));
    MulScaleLeft(1.0 / d, Adjugate(a), a);
    ScaleIdentity(1.0 / d, d);
  }

  // The identity comes in as a parameter `a` rather than as `Identity()` itself:
  // a literal argument makes the solver unfold the nine entries eagerly and
  // run out of resource.

  /** The identity is its own inverse. */
  lemma InverseIdentity(a: Mat3)
    requires a == Identity()
    ensures Inverse(a) == Some(a)
  {
    DetIdentity(a);
    InverseOfUnitDet(a);
    AdjugateIdentity(a);
    ScaleOne(a);
  }

  /** With determinant one, the inverse is the adjugate itself. */
  lemma InverseOfUnitDet(a: Mat3)
    requires Det(a) == 1.0
    ensures Inverse(a) == Some(ScaleBy(1.0, Adjugate(a)))
  {
  }

  lemma ScaleOne(a: Mat3)
    ensures ScaleBy(1.0, a) == a
  {
  }

  lemma AdjugateIdentity(a: Mat3)
    requires a == Identity()
    ensures Adjugate(a) == a
  {
  }

  lemma DetIdentity(a: Mat3)
    requires a == Identity()
    ensures Det(a) == 1.0
  {
  }

  lemma MulIdentity(a: Mat3)
    ensures Mul(Identity(), a) == a && Mul(a, Identity()) == a
  {
  }

  lemma TransposeIdentity(a: Mat3)
    requires a == Identity()
    ensures Transpose(a) == a
  {
  }

  /** Matrix-vector products compose like the matrix product. */
  lemma MulVecMul(a: Mat3, b: Mat3, v: Vec3)
    ensures MulVec(Mul(a, b), v) == MulVec(a, MulVec(b, v))
  {
    var ab := Mul(a, b);
    assert Row1(ab) == Vec3(Dot(Row1(a), Col1(b)), Dot(Row1(a), Col2(b)), Dot(Row1(a), Col3(b)));
    assert Row2(ab) == Vec3(Dot(Row2(a), Col1(b)), Dot(Row2(a), Col2(b)), Dot(Row2(a), Col3(b)));
    assert Row3(ab) == Vec3(Dot(Row3(a), Col1(b)), Dot(Row3(a), Col2(b)), Dot(Row3(a), Col3(b)));
    RowOfMulVec(Row1(a), b, v);
    RowOfMulVec(Row2(a), b, v);
    RowOfMulVec(Row3(a), b, v);
  }

  /** u . (a^T v) == (a u) . v */
  lemma DotTranspose(a: Mat3, u: Vec3, v: Vec3)
    ensures Dot(u, MulVec(Transpose(a), v)) == Dot(MulVec(a, u), v)
  {
    var t := Transpose(a);
    RowOfMulVec(u, t, v);
    assert Vec3(Dot(u, Col1(t)), Dot(u, Col2(t)), Dot(u, Col3(t))) == MulVec(a, u) by {
      DotCommutes(u, Row1(a));
      DotCommutes(u, Row2(a));
      DotCommutes(u, Row3(a));
    }
  }

  /**
   * The congruence a^T q a of a quadratic form q is q read in the
   * coordinates that a maps into q's.
   */
  lemma Congruence(a: Mat3, q: Mat3, v: Vec3)
    ensures QuadForm(Mul(Mul(Transpose(a), q), a), v) == QuadForm(q, MulVec(a, v))
  {
    var av := MulVec(a, v);
    calc {
      QuadForm(Mul(Mul(Transpose(a), q), a), v);
      Dot(v, MulVec(Mul(Mul(Transpose(a), q), a), v));
      { MulVecMul(Mul(Transpose(a), q), a, v); }
      Dot(v, MulVec(Mul(Transpose(a), q), av));
      { MulVecMul(Transpose(a), q, av); }
      Dot(v, MulVec(Transpose(a), MulVec(q, av)));
      { DotTranspose(a, v, MulVec(q, av)); }
      Dot(av, MulVec(q, av));
    }
  }
}
