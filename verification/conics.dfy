/**
 * Ellipses in the two representations of src/conics.rs: canonical
 * (semi-axes, centre, rotation) and implicit (the six coefficients of
 * A x^2 + B xy + C y^2 + D x + E y + F = 0), the conversions between them,
 * the symmetric-matrix form of a conic and its image under an affine map.
 */
module Conics {
  import opened Wrappers
  import opened Numerics
  import opened LinearAlgebra
  import opened Affine

  /** `CanonicalEllipseRepr`: semi-axes along the rotated axes, centre, rotation angle. */
  datatype CanonicalEllipse = CanonicalEllipse(semiAxes: Vec2, center: Vec2, rotation: real)
  {
    /**
     * `CanonicalEllipseRepr::to_implicit`: expands the equation of the
     * ellipse; the centre becomes the stationary point of the quadratic.
     */
    function ToImplicit(m: Libm): (r: ImplicitConic)
      ensures r.IsCentre(center)
      ensures r.f == r.a * center.x * center.x + r.b * center.x * center.y + r.c * center.y * center.y
                     - semiAxes.x * semiAxes.x * semiAxes.y * semiAxes.y
    {
      var s, c := m.sin(rotation), m.cos(rotation);
      var ea, eb := semiAxes.x, semiAxes.y;
      var h, k := center.x, center.y;
      var pa := (ea * s) * (ea * s) + (eb * c) * (eb * c);
      var pc := (ea * c) * (ea * c) + (eb * s) * (eb * s);
      var pb := 2.0 * (eb * eb - ea * ea) * s * c;
      var pd := -2.0 * pa * h - pb * k;
      var pe := -pb * h - 2.0 * pc * k;
      var pf := pa * h * h + pb * h * k + pc * k * k - ea * ea * eb * eb;
      ImplicitConic(pa, pb, pc, pd, pe, pf)
    }

    /** The offset of p from the centre, in the ellipse's own rotated axes. */
    function AxisCoordinates(m: Libm, p: Vec2): Vec2 {
      var s, c := m.sin(rotation), m.cos(rotation);
      var x, y := p.x - center.x, p.y - center.y;
      Vec2(c * x + s * y, -s * x + c * y)
    }

    /**
     * b^2 u^2 + a^2 v^2 - a^2 b^2 at axis coordinates (u, v): zero exactly
     * on the ellipse, negative inside it when both semi-axes are non-zero.
     */
    function Residual(w: Vec2): real {
      var ea, eb := semiAxes.x, semiAxes.y;
      eb * eb * w.x * w.x + ea * ea * w.y * w.y - ea * ea * eb * eb
    }

    /**
     * The point at parameter t of the ellipse: the centre plus the rotated
     * (a cos t, b sin t).
     */
    function PointAt(m: Libm, t: real): Vec2 {
      var s, c := m.sin(rotation), m.cos(rotation);
      var u, v := semiAxes.x * m.cos(t), semiAxes.y * m.sin(t);
      Vec2(center.x + c * u - s * v, center.y + s * u + c * v)
    }
  }

  /** `ImplicitConicSectionRepr(A, B, C, D, E, F)`. */
  datatype ImplicitConic = ImplicitConic(a: real, b: real, c: real, d: real, e: real, f: real)
  {
    /** B^2 - 4AC: negative for an ellipse. */
    function Discriminant(): real {
      b * b - 4.0 * a * c
    }

    /** The left-hand side of the conic's equation at p. */
    function Eval(p: Vec2): real {
      a * p.x * p.x + b * p.x * p.y + c * p.y * p.y + d * p.x + e * p.y + f
    }

    /** The quadratic part of `Eval`: A x^2 + B xy + C y^2. */
    function Quad(w: Vec2): real {
      a * w.x * w.x + b * w.x * w.y + c * w.y * w.y
    }

    /** Both partial derivatives of `Eval` vanish at p. */
    predicate IsCentre(p: Vec2) {
      2.0 * a * p.x + b * p.y + d == 0.0 && b * p.x + 2.0 * c * p.y + e == 0.0
    }

    /**
     * `ImplicitConicSectionRepr::to_canonical`, written for ellipses: the
     * centre solves the two linear equations of `IsCentre`; the semi-axes and
     * the rotation are recovered through `sqrt` and `atan2`.
     */
    function ToCanonical(m: Libm): (r: CanonicalEllipse)
      requires Discriminant() != 0.0
      ensures IsCentre(r.center)
    {
      var discr := Discriminant();
      var ec := Vec2((2.0 * c * d - b * e) / discr, (2.0 * a * e - b * d) / discr);
      CentreSolves(a, b, c, d, e, discr, ec.x, ec.y);
      var tmp1 := 2.0 * (a * e * e + c * d * d - b * d * e + discr * f);
      var tmp2 := m.sqrt((a - c) * (a - c) + b * b);
      var ea := Vec2(-m.sqrt(tmp1 * (a + c + tmp2)) / discr, -m.sqrt(tmp1 * (a + c - tmp2)) / discr);
      var theta := m.atan2(-b, c - a) / 2.0;
      CanonicalEllipse(ea, ec, theta)
    }

    /** `to_matrix`: the symmetric matrix of the quadratic form, B, D and E halved off the diagonal. */
    function ToMatrix(): (r: Mat3)
      ensures Transpose(r) == r
      ensures FromMatrix(r) == this
    {
      Mat3(a, b / 2.0, d / 2.0,
           b / 2.0, c, e / 2.0,
           d / 2.0, e / 2.0, f)
    }

    /** `from_matrix`: reads a conic off any matrix, summing the off-diagonal pairs. */
    static function FromMatrix(n: Mat3): (r: ImplicitConic)
      ensures Transpose(n) == n ==> n == Mat3(r.a, r.b / 2.0, r.d / 2.0,
                                                r.b / 2.0, r.c, r.e / 2.0,
                                                r.d / 2.0, r.e / 2.0, r.f)
    {
      ImplicitConic(n.m11, n.m12 + n.m21, n.m22, n.m13 + n.m31, n.m23 + n.m32, n.m33)
    }
  }

  /** `Ellipse`: either representation. */
  datatype Ellipse = Canonical(canonical: CanonicalEllipse) | Implicit(implicit: ImplicitConic)
  {
    /**
     * `Ellipse::from_orbital`: the ellipse of an orbit with the given
     * periapsis distance and eccentricity, focus at the origin and periapsis
     * on the positive x axis.
     */
    static function FromOrbital(m: Libm, periapsis: real, eccentricity: real): (r: Ellipse)
      requires eccentricity != 1.0
      ensures r.Canonical? && r.canonical.rotation == 0.0 && r.canonical.center.y == 0.0
      ensures r.canonical.center.x + r.canonical.semiAxes.x == periapsis
      ensures r.canonical.semiAxes.x * (1.0 - eccentricity) == periapsis
    {
      var sa := periapsis / (1.0 - eccentricity);
      var sb := sa * m.sqrt(1.0 - eccentricity * eccentricity);
      Canonical(CanonicalEllipse(Vec2(sa, sb), Vec2(periapsis - sa, 0.0), 0.0))
    }

    /** The implicit form, however the ellipse is held. */
    function ToImplicit(m: Libm): (r: ImplicitConic)
      ensures Implicit? ==> r == implicit
      ensures Canonical? ==> r.IsCentre(canonical.center)
    {
      match this
      case Canonical(x) => x.ToImplicit(m)
      case Implicit(x) => x
    }

    /**
     * The canonical form, however the ellipse is held; its centre is the
     * centre of the implicit form, so both representations agree on it.
     */
    function ToCanonical(m: Libm): (r: CanonicalEllipse)
      requires Implicit? ==> implicit.Discriminant() != 0.0
      ensures Canonical? ==> r == canonical
      ensures ToImplicit(m).IsCentre(r.center)
    {
      match this
      case Canonical(x) => x
      case Implicit(x) => x.ToCanonical(m)
    }

    /**
     * `Ellipse::transform`: the image of the ellipse under the map `a`. An
     * invertible map gives the implicit conic whose matrix is
     * inv(a)^T M inv(a); a singular one gives the all-zero canonical ellipse.
     */
    function Transform(m: Libm, a: Mat3): (r: Ellipse)
      ensures Det(a) == 0.0 <==> r == Canonical(ZeroEllipse())
      ensures Det(a) != 0.0 ==> r.Implicit?
    {
      match Inverse(a)
      case Some(inv) =>
        var n := Mul(Mul(Transpose(inv), ToImplicit(m).ToMatrix()), inv);
        Implicit(ImplicitConic.FromMatrix(n))
      case None =>
        Canonical(ZeroEllipse())
    }
  }

  /** What `transform` falls back to on a singular map. */
  function ZeroEllipse(): CanonicalEllipse {
    CanonicalEllipse(Vec2(0.0, 0.0), Vec2(0.0, 0.0), 0.0)
  }

  // ---------------------------------------------------------------------
  // Identities on plain reals behind the lemmas below.

  /** The formula of `to_canonical` solves the centre equations. */
  lemma CentreSolves(a: real, b: real, c: real, d: real, e: real, discr: real, x: real, y: real)
    requires discr == b * b - 4.0 * a * c && discr != 0.0
    requires x == (2.0 * c * d - b * e) / discr && y == (2.0 * a * e - b * d) / discr
    ensures 2.0 * a * x + b * y + d == 0.0 && b * x + 2.0 * c * y + e == 0.0
  {
    assert x * discr == 2.0 * c * d - b * e;
    assert y * discr == 2.0 * a * e - b * d;
    var g1 := 2.0 * a * x + b * y + d;
    var g2 := b * x + 2.0 * c * y + e;
    assert g1 * discr == 2.0 * a * (x * discr) + b * (y * discr) + d * discr;
    assert g2 * discr == b * (x * discr) + 2.0 * c * (y * discr) + e * discr;
  }

  /** With a non-zero discriminant the centre equations have one solution. */
  lemma CentreUniqueReal(a: real, b: real, c: real, dx: real, dy: real)
    requires b * b - 4.0 * a * c != 0.0
    requires 2.0 * a * dx + b * dy == 0.0 && b * dx + 2.0 * c * dy == 0.0
    ensures dx == 0.0 && dy == 0.0
  {
    assert (4.0 * a * c - b * b) * dx == 2.0 * c * (2.0 * a * dx + b * dy) - b * (b * dx + 2.0 * c * dy);
    assert (4.0 * a * c - b * b) * dy == 2.0 * a * (b * dx + 2.0 * c * dy) - b * (2.0 * a * dx + b * dy);
  }

  /** A conic centred at (h, k) is its quadratic part read from the centre. */
  lemma FromCentreReal(a: real, b: real, c: real, d: real, e: real, f: real,
                       h: real, k: real, x: real, y: real, dx: real, dy: real)
    requires d == -2.0 * a * h - b * k && e == -b * h - 2.0 * c * k
    requires dx == x - h && dy == y - k
    ensures a * x * x + b * x * y + c * y * y + d * x + e * y + f
         == a * dx * dx + b * dx * dy + c * dy * dy + (a * h * h + b * h * k + c * k * k + d * h + e * k + f)
  {
  }

  /** The quadratic part of the expanded ellipse, in rotated coordinates u, v. */
  lemma QuadPartReal(ea: real, eb: real, s: real, c: real, pa: real, pb: real, pc: real,
                     x: real, y: real, u: real, v: real)
    requires pa == (ea * s) * (ea * s) + (eb * c) * (eb * c)
    requires pc == (ea * c) * (ea * c) + (eb * s) * (eb * s)
    requires pb == 2.0 * (eb * eb - ea * ea) * s * c
    requires u == c * x + s * y && v == -s * x + c * y
    ensures pa * x * x + pb * x * y + pc * y * y == eb * eb * u * u + ea * ea * v * v
  {
    assert u * u == c * c * x * x + 2.0 * c * s * x * y + s * s * y * y;
    assert v * v == s * s * x * x - 2.0 * c * s * x * y + c * c * y * y;
    assert eb * eb * (u * u) == eb * eb * c * c * x * x + 2.0 * eb * eb * c * s * x * y + eb * eb * s * s * y * y;
    assert ea * ea * (v * v) == ea * ea * s * s * x * x - 2.0 * ea * ea * c * s * x * y + ea * ea * c * c * y * y;
  }

  /** The discriminant of the expanded ellipse, given sin^2 + cos^2 = 1. */
  lemma DiscriminantReal(ea: real, eb: real, s: real, c: real, pa: real, pb: real, pc: real)
    requires s * s + c * c == 1.0
    requires pa == (ea * s) * (ea * s) + (eb * c) * (eb * c)
    requires pc == (ea * c) * (ea * c) + (eb * s) * (eb * s)
    requires pb == 2.0 * (eb * eb - ea * ea) * s * c
    ensures pb * pb - 4.0 * pa * pc == -4.0 * ea * ea * eb * eb
  {
    var p, q, ss, cc := ea * ea, eb * eb, s * s, c * c;
    assert pa == p * ss + q * cc && pc == p * cc + q * ss;
    assert pb * pb == 4.0 * (q - p) * (q - p) * ss * cc;
    assert pa * pc == p * p * ss * cc + p * q * ss * ss + p * q * cc * cc + q * q * ss * cc;
    assert pb * pb - 4.0 * pa * pc == -4.0 * p * q * (ss + cc) * (ss + cc);
  }

  /** -4 a^2 b^2 is negative when neither a nor b is zero. */
  lemma NegativeReal(ea: real, eb: real, disc: real)
    requires ea != 0.0 && eb != 0.0
    requires disc == -4.0 * ea * ea * eb * eb
    ensures disc < 0.0
  {
    SquarePositive(ea, ea * ea);
    SquarePositive(eb, eb * eb);
    ProductPositive(ea * ea, eb * eb, ea * ea * eb * eb);
  }

  /** A parametrised point of the ellipse satisfies its equation. */
  lemma OnEllipseReal(ea: real, eb: real, ct: real, st: real, u: real, v: real)
    requires ct * ct + st * st == 1.0
    requires u == ea * ct && v == eb * st
    ensures eb * eb * u * u + ea * ea * v * v - ea * ea * eb * eb == 0.0
  {
    assert eb * eb * u * u + ea * ea * v * v == ea * ea * eb * eb * (ct * ct + st * st);
  }

  /** Rotating (u, v) by the angle with cosine c and sine s, then back. */
  lemma RotateBackReal(s: real, c: real, u: real, v: real, x: real, y: real)
    requires s * s + c * c == 1.0
    requires x == c * u - s * v && y == s * u + c * v
    ensures c * x + s * y == u && -s * x + c * y == v
  {
    assert c * x + s * y == (c * c + s * s) * u;
    assert -s * x + c * y == (s * s + c * c) * v;
  }

  /** The matrix quadratic form at (x, y, 1) of a conic's matrix. */
  lemma QuadFormReal(n11: real, n12: real, n13: real, n21: real, n22: real, n23: real,
                     n31: real, n32: real, n33: real, x: real, y: real)
    ensures x * (n11 * x + n12 * y + n13) + y * (n21 * x + n22 * y + n23) + 1.0 * (n31 * x + n32 * y + n33)
         == n11 * x * x + (n12 + n21) * x * y + n22 * y * y + (n13 + n31) * x + (n23 + n32) * y + n33
  {
  }

  // ---------------------------------------------------------------------
  // Properties of the representations.

  /** The equation of a conic is the quadratic form of its matrix at (x, y, 1). */
  lemma EvalAsQuadForm(q: ImplicitConic, p: Vec2)
    ensures QuadForm(q.ToMatrix(), Homogeneous(p)) == q.Eval(p)
  {
    var n := q.ToMatrix();
    QuadFormReal(n.m11, n.m12, n.m13, n.m21, n.m22, n.m23, n.m31, n.m32, n.m33, p.x, p.y);
  }

  /** `from_matrix` reads the quadratic form of any matrix, symmetric or not. */
  lemma EvalFromMatrix(n: Mat3, p: Vec2)
    ensures ImplicitConic.FromMatrix(n).Eval(p) == QuadForm(n, Homogeneous(p))
  {
    QuadFormReal(n.m11, n.m12, n.m13, n.m21, n.m22, n.m23, n.m31, n.m32, n.m33, p.x, p.y);
  }

  /**
   * Around its centre a conic is its quadratic part plus its value at the
   * centre: the linear terms cancel.
   */
  lemma EvalFromCentre(q: ImplicitConic, h: Vec2, p: Vec2)
    requires q.IsCentre(h)
    ensures q.Eval(p) == q.Quad(Vec2(p.x - h.x, p.y - h.y)) + q.Eval(h)
  {
    assert q.d == -2.0 * q.a * h.x - q.b * h.y && q.e == -q.b * h.x - 2.0 * q.c * h.y;
    FromCentreReal(q.a, q.b, q.c, q.d, q.e, q.f, h.x, h.y, p.x, p.y, p.x - h.x, p.y - h.y);
  }

  /** The expanded ellipse at its own centre has the value -a^2 b^2. */
  lemma ImplicitAtCentre(m: Libm, ce: CanonicalEllipse)
    ensures ce.ToImplicit(m).Eval(ce.center) == -(ce.semiAxes.x * ce.semiAxes.x * ce.semiAxes.y * ce.semiAxes.y)
  {
    var q := ce.ToImplicit(m);
    var h, k := ce.center.x, ce.center.y;
    assert q.d * h + q.e * k == -2.0 * (q.a * h * h + q.b * h * k + q.c * k * k);
  }

  /** The quadratic part of the expanded ellipse, read in the ellipse's own axes. */
  lemma ImplicitQuad(m: Libm, ce: CanonicalEllipse, p: Vec2)
    ensures var w := ce.AxisCoordinates(m, p);
            ce.ToImplicit(m).Quad(Vec2(p.x - ce.center.x, p.y - ce.center.y))
            == ce.semiAxes.y * ce.semiAxes.y * w.x * w.x + ce.semiAxes.x * ce.semiAxes.x * w.y * w.y
  {
    var q := ce.ToImplicit(m);
    var s, c := m.sin(ce.rotation), m.cos(ce.rotation);
    var x, y := p.x - ce.center.x, p.y - ce.center.y;
    var w := ce.AxisCoordinates(m, p);
    QuadPartReal(ce.semiAxes.x, ce.semiAxes.y, s, c, q.a, q.b, q.c, x, y, w.x, w.y);
  }

  /**
   * The expanded equation of a canonical ellipse, read in the ellipse's own
   * axes, is b^2 u^2 + a^2 v^2 - a^2 b^2.
   */
  lemma ImplicitEval(m: Libm, ce: CanonicalEllipse, p: Vec2)
    ensures ce.ToImplicit(m).Eval(p) == ce.Residual(ce.AxisCoordinates(m, p))
  {
    EvalFromCentre(ce.ToImplicit(m), ce.center, p);
    ImplicitAtCentre(m, ce);
    ImplicitQuad(m, ce, p);
  }

  /** Every point of the parametrised ellipse satisfies the expanded equation. */
  lemma PointAtOnEllipse(m: Libm, ce: CanonicalEllipse, t: real)
    requires Lawful(m)
    ensures ce.ToImplicit(m).Eval(ce.PointAt(m, t)) == 0.0
  {
    var p := ce.PointAt(m, t);
    ImplicitEval(m, ce, p);
    PointAtAxes(m, ce, t);
    ParametricResidual(m, ce, t);
  }

  /** In the ellipse's own axes, the point at parameter t is (a cos t, b sin t). */
  lemma PointAtAxes(m: Libm, ce: CanonicalEllipse, t: real)
    requires Lawful(m)
    ensures ce.AxisCoordinates(m, ce.PointAt(m, t)) == Vec2(ce.semiAxes.x * m.cos(t), ce.semiAxes.y * m.sin(t))
  {
    var p := ce.PointAt(m, t);
    var s, c := m.sin(ce.rotation), m.cos(ce.rotation);
    RotateBackReal(s, c, ce.semiAxes.x * m.cos(t), ce.semiAxes.y * m.sin(t), p.x - ce.center.x, p.y - ce.center.y);
  }

  /** (a cos t, b sin t) is a root of the residual. */
  lemma ParametricResidual(m: Libm, ce: CanonicalEllipse, t: real)
    requires Lawful(m)
    ensures ce.Residual(Vec2(ce.semiAxes.x * m.cos(t), ce.semiAxes.y * m.sin(t))) == 0.0
  {
    OnEllipseReal(ce.semiAxes.x, ce.semiAxes.y, m.cos(t), m.sin(t), ce.semiAxes.x * m.cos(t), ce.semiAxes.y * m.sin(t));
  }

  /** The expanded equation of a canonical ellipse has discriminant -4 a^2 b^2. */
  lemma ImplicitDiscriminant(m: Libm, ce: CanonicalEllipse)
    requires Lawful(m)
    ensures ce.ToImplicit(m).Discriminant() == -4.0 * ce.semiAxes.x * ce.semiAxes.x * ce.semiAxes.y * ce.semiAxes.y
  {
    var q := ce.ToImplicit(m);
    DiscriminantReal(ce.semiAxes.x, ce.semiAxes.y, m.sin(ce.rotation), m.cos(ce.rotation), q.a, q.b, q.c);
  }

  /**
   * So a proper ellipse (both semi-axes non-zero) expands to a conic of
   * negative discriminant, the only kind `to_canonical` is written for.
   */
  lemma ProperDiscriminant(m: Libm, ce: CanonicalEllipse)
    requires Lawful(m) && ce.semiAxes.x != 0.0 && ce.semiAxes.y != 0.0
    ensures ce.ToImplicit(m).Discriminant() < 0.0
  {
    ImplicitDiscriminant(m, ce);
    NegativeReal(ce.semiAxes.x, ce.semiAxes.y, ce.ToImplicit(m).Discriminant());
  }

  /** A conic with non-zero discriminant has at most one centre. */
  lemma CentreUnique(q: ImplicitConic, p1: Vec2, p2: Vec2)
    requires q.Discriminant() != 0.0
    requires q.IsCentre(p1) && q.IsCentre(p2)
    ensures p1 == p2
  {
    CentreUniqueReal(q.a, q.b, q.c, p1.x - p2.x, p1.y - p2.y);
  }

  /**
   * Centre round trip: a canonical ellipse taken to implicit form and back
   * keeps its centre.
   */
  lemma CentreRoundTrip(m: Libm, ce: CanonicalEllipse)
    requires ce.ToImplicit(m).Discriminant() != 0.0
    ensures Implicit(ce.ToImplicit(m)).ToCanonical(m).center == ce.center
  {
    var q := ce.ToImplicit(m);
    CentreUnique(q, q.ToCanonical(m).center, ce.center);
  }

  /** For every proper ellipse (both semi-axes non-zero) the centre round trip applies. */
  lemma ProperCentreRoundTrip(m: Libm, ce: CanonicalEllipse)
    requires Lawful(m) && ce.semiAxes.x != 0.0 && ce.semiAxes.y != 0.0
    ensures ce.ToImplicit(m).Discriminant() < 0.0
    ensures Implicit(ce.ToImplicit(m)).ToCanonical(m).center == ce.center
  {
    ProperDiscriminant(m, ce);
    CentreRoundTrip(m, ce);
  }

  // ---------------------------------------------------------------------
  // Properties of `transform`.

  /**
   * The identity map gives back the implicit form unchanged. The identity is
   * the parameter `a`, for the reason given at `LinearAlgebra.InverseIdentity`.
   */
  lemma TransformIdentity(m: Libm, el: Ellipse, a: Mat3)
    requires a == Identity()
    ensures el.Transform(m, a) == Implicit(el.ToImplicit(m))
  {
    var n := el.ToImplicit(m).ToMatrix();
    InverseIdentity(a);
    TransposeIdentity(a);
    MulIdentity(n);
    assert Mul(Mul(Transpose(a), n), a) == n;
  }

  /**
   * The transformed conic holds exactly the images of the original's
   * points: its equation at a(p) has the value the original's has at p.
   */
  lemma TransformImage(m: Libm, el: Ellipse, a: Mat3, p: Vec2)
    requires IsAffine(a) && Det(a) != 0.0
    ensures el.Transform(m, a).ToImplicit(m).Eval(Apply(a, p)) == el.ToImplicit(m).Eval(p)
  {
    var inv := Inverse(a).value;
    var q := el.ToImplicit(m);
    var mq := q.ToMatrix();
    var n := Mul(Mul(Transpose(inv), mq), inv);
    var ap := Apply(a, p);
    assert el.Transform(m, a).ToImplicit(m) == ImplicitConic.FromMatrix(n);
    EvalFromMatrix(n, ap);
    Congruence(inv, mq, Homogeneous(ap));
    ApplyHomogeneous(a, p);
    MulVecMul(inv, a, Homogeneous(p));
    assert MulVec(Identity(), Homogeneous(p)) == Homogeneous(p);
    EvalAsQuadForm(q, p);
  }
}
