/**
 * The orbit shape of src/orbits.rs: a planar Keplerian trajectory given by
 * its periapsis distance and eccentricity, with the focus at the origin and
 * the periapsis on the positive x-axis.
 */
module Orbits {
  import opened Wrappers
  import opened Numerics
  import opened LinearAlgebra
  import Conics

  /** `PlanarTrajectory`: periapsis distance (km) and eccentricity. */
  datatype PlanarTrajectory = PlanarTrajectory(periapsis: real, eccentr: real)
  {
    /**
     * `apoapsis()`: the far apsis, on the negative x-axis at distance
     * periapsis (1 + e) / (1 - e); only a closed orbit has one.
     */
    function Apoapsis(): (r: Option<Vec2>)
      ensures r.Some? <==> eccentr < 1.0
      ensures r.Some? ==> r.value.y == 0.0 && r.value.x * (1.0 - eccentr) == -periapsis * (1.0 + eccentr)
    {
      if eccentr < 1.0 then
        var a := periapsis / (1.0 - eccentr);
        ApoapsisReal(periapsis, eccentr, a);
        Some(Vec2(periapsis - 2.0 * a, 0.0))
      else
        None
    }

    /** `periapsis()`: the near apsis, on the positive x-axis. */
    function Periapsis(): Vec2 {
      Vec2(periapsis, 0.0)
    }

    /**
     * `to_ellipse()`: the orbit as a canonical ellipse, for a closed orbit
     * only (the `assert!` on the eccentricity is the precondition). The
     * periapsis is the end of the major axis nearest the origin.
     */
    function ToEllipse(m: Libm): (r: Conics.Ellipse)
      requires eccentr < 1.0
      ensures r.Canonical? && r.canonical.rotation == 0.0 && r.canonical.center.y == 0.0
      ensures r.canonical.center.x + r.canonical.semiAxes.x == periapsis
      ensures r.canonical.semiAxes.x * (1.0 - eccentr) == periapsis
    {
      var a := periapsis / (1.0 - eccentr);
      var b := periapsis * m.sqrt((1.0 + eccentr) / (1.0 - eccentr));
      Conics.Canonical(Conics.CanonicalEllipse(Vec2(a, b), Vec2(periapsis - a, 0.0), 0.0))
    }

    /** `semi_latus_rectum()`. */
    function SemiLatusRectum(): real {
      periapsis * (1.0 + eccentr)
    }

    /**
     * `point(true_anom)`: the point of the orbit at true anomaly nu, at
     * distance p / (1 + e cos nu) from the focus; there is none where
     * that denominator is not positive (beyond the asymptotes of a
     * hyperbola).
     */
    function Point(m: Libm, trueAnom: real): (r: Option<Vec2>)
      ensures r.None? <==> 1.0 + eccentr * m.cos(trueAnom) <= 0.0
      ensures r.Some? ==> r.value.x * (1.0 + eccentr * m.cos(trueAnom)) == SemiLatusRectum() * m.cos(trueAnom)
      ensures r.Some? ==> r.value.y * (1.0 + eccentr * m.cos(trueAnom)) == SemiLatusRectum() * m.sin(trueAnom)
    {
      var d := 1.0 + eccentr * m.cos(trueAnom);
      if d <= 0.0 then
        None
      else
        var r := SemiLatusRectum() / d;
        ScaledQuotient(SemiLatusRectum(), d, r, m.cos(trueAnom));
        ScaledQuotient(SemiLatusRectum(), d, r, m.sin(trueAnom));
        Some(Vec2(r * m.cos(trueAnom), r * m.sin(trueAnom)))
    }
  }

  // ---------------------------------------------------------------------
  // Identities on plain reals behind the lemmas below.

  lemma ApoapsisReal(pe: real, e: real, a: real)
    requires e < 1.0 && a == pe / (1.0 - e)
    ensures (pe - 2.0 * a) * (1.0 - e) == -pe * (1.0 + e)
  {
    assert a * (1.0 - e) == pe;
  }

  /** r = p / d, so (r k) d = p k. */
  lemma ScaledQuotient(p: real, d: real, r: real, k: real)
    requires d != 0.0 && r == p / d
    ensures r * k * d == p * k
  {
    assert r * d == p;
    assert r * k * d == (r * d) * k;
  }

  /**
   * On the x-axis (cos = c = +-1, sin = 0) the polar equation x (1 + e c) = l c
   * pins x to the apsis value a, given a d = l c with d = 1 + e c non-zero.
   */
  lemma ApsisReal(x: real, y: real, e: real, c: real, s: real, l: real, a: real, d: real)
    requires (c == 1.0 || c == -1.0) && s == 0.0 && d == 1.0 + e * c && d != 0.0
    requires x * (1.0 + e * c) == l * c && y * (1.0 + e * c) == l * s
    requires a * d == l * c
    ensures x == a && y == 0.0
  {
    CancelFactor(x, a, d);
    CancelFactor(y, 0.0, d);
  }

  /** A factor that is not zero cancels. */
  lemma CancelFactor(x: real, y: real, d: real)
    requires d != 0.0 && x * d == y * d
    ensures x == y
  {
    assert (x - y) * d == 0.0;
    ProductZero(x - y, d);
  }

  /** With s^2 = (1 + e) / (1 - e), the minor semi-axis b = p s has b^2 = p (1 + e) a. */
  lemma MinorAxisReal(pe: real, e: real, a: real, s: real, b: real)
    requires e < 1.0 && a == pe / (1.0 - e)
    requires s * s == (1.0 + e) / (1.0 - e) && b == pe * s
    ensures b * b == pe * (1.0 + e) * a
  {
    assert b * b == pe * pe * (s * s);
    assert pe * (1.0 + e) * a == pe * pe * ((1.0 + e) / (1.0 - e));
  }

  /** The major-axis end p - a ... the centre lies at distance sqrt(a^2 - b^2) from the origin. */
  lemma FocusReal(pe: real, e: real, a: real, bb: real)
    requires a * (1.0 - e) == pe && bb == pe * (1.0 + e) * a
    ensures (pe - a) * (pe - a) == a * a - bb
  {
    assert (pe - a) * (pe - a) - (a * a - bb) == pe * (pe - a * (1.0 - e));
  }

  /** sqrt(1 - e^2) = (1 - e) sqrt((1 + e) / (1 - e)) for -1 <= e < 1. */
  lemma RootFactorReal(e: real, s: real)
    requires -1.0 <= e < 1.0 && s >= 0.0 && s * s == (1.0 + e) / (1.0 - e)
    ensures (1.0 - e) * s >= 0.0
    ensures ((1.0 - e) * s) * ((1.0 - e) * s) == 1.0 - e * e
  {
    assert ((1.0 - e) * s) * ((1.0 - e) * s) == (1.0 - e) * (1.0 - e) * (s * s);
    assert (1.0 - e) * (1.0 - e) * ((1.0 + e) / (1.0 - e)) == (1.0 - e) * (1.0 + e);
  }

  /** a sqrt(1 - e^2) = p sqrt((1 + e) / (1 - e)) once sqrt(1 - e^2) = (1 - e) sqrt((1 + e) / (1 - e)). */
  lemma MinorAxisAgreesReal(pe: real, e: real, sa: real, s: real, r: real, fromOrbital: real, toEllipse: real)
    requires e < 1.0 && sa == pe / (1.0 - e) && r == (1.0 - e) * s
    requires fromOrbital == sa * r && toEllipse == pe * s
    ensures fromOrbital == toEllipse
  {
    assert sa * (1.0 - e) == pe;
    assert sa * r == (sa * (1.0 - e)) * s;
  }

  /**
   * A point at distance l - e x from the focus (x^2 + y^2 = (l - e x)^2),
   * with l = p (1 + e), a (1 - e) = p and b^2 = l a, satisfies the
   * ellipse equation centred at (p - a, 0).
   */
  lemma OrbitEllipseReal(pe: real, e: real, a: real, b: real, l: real, x: real, y: real, u: real, v: real)
    requires a * (1.0 - e) == pe && l == pe * (1.0 + e) && b * b == l * a
    requires x * x + y * y == (l - e * x) * (l - e * x)
    requires u == x - (pe - a) && v == y
    ensures b * b * u * u + a * a * v * v - a * a * b * b == 0.0
  {
    var k := 1.0 - e * e;
    assert l == a * k by {
      assert l == a * (1.0 - e) * (1.0 + e);
    }
    assert u == x + e * a;
    assert y * y == (l - e * x) * (l - e * x) - x * x;
    assert a * a * (v * v) == a * a * ((a * k - e * x) * (a * k - e * x) - x * x);
    assert b * b * u * u == a * k * a * (x + e * a) * (x + e * a);
    assert a * a * b * b == a * a * (a * k * a);
    assert a * k * a * (x + e * a) * (x + e * a) + a * a * ((a * k - e * x) * (a * k - e * x) - x * x) - a * a * (a * k * a)
        == a * a * (x * x * (k + e * e - 1.0) + a * a * k * (e * e + k - 1.0));
  }

  // ---------------------------------------------------------------------
  // Properties of the trajectory.

  /** For -1 <= e < 1 the minor semi-axis squared is the semi-latus rectum times the major one. */
  lemma SemiLatusRectumOfEllipse(m: Libm, t: PlanarTrajectory)
    requires Lawful(m) && -1.0 <= t.eccentr < 1.0
    ensures t.SemiLatusRectum() * t.ToEllipse(m).canonical.semiAxes.x
         == t.ToEllipse(m).canonical.semiAxes.y * t.ToEllipse(m).canonical.semiAxes.y
  {
    var e := t.eccentr;
    var q := (1.0 + e) / (1.0 - e);
    assert q >= 0.0;
    var ce := t.ToEllipse(m).canonical;
    MinorAxisReal(t.periapsis, e, ce.semiAxes.x, m.sqrt(q), ce.semiAxes.y);
  }

  /** The focus of `to_ellipse()` is the origin: the centre is sqrt(a^2 - b^2) from it, on the major axis. */
  lemma ToEllipseFocus(m: Libm, t: PlanarTrajectory)
    requires Lawful(m) && -1.0 <= t.eccentr < 1.0
    ensures t.ToEllipse(m).canonical.center.x * t.ToEllipse(m).canonical.center.x
         == t.ToEllipse(m).canonical.semiAxes.x * t.ToEllipse(m).canonical.semiAxes.x
          - t.ToEllipse(m).canonical.semiAxes.y * t.ToEllipse(m).canonical.semiAxes.y
  {
    var ce := t.ToEllipse(m).canonical;
    SemiLatusRectumOfEllipse(m, t);
    FocusReal(t.periapsis, t.eccentr, ce.semiAxes.x, ce.semiAxes.y * ce.semiAxes.y);
  }

  /** `to_ellipse()` and `Ellipse::from_orbital` build the same ellipse. */
  lemma ToEllipseIsFromOrbital(m: Libm, t: PlanarTrajectory)
    requires Lawful(m) && -1.0 <= t.eccentr < 1.0
    ensures t.ToEllipse(m) == Conics.Ellipse.FromOrbital(m, t.periapsis, t.eccentr)
  {
    var e := t.eccentr;
    var q := (1.0 + e) / (1.0 - e);
    assert q >= 0.0;
    var s := m.sqrt(q);
    RootFactorReal(e, s);
    SqrtUnique(m, 1.0 - e * e, (1.0 - e) * s);
    SameMinorAxis(m, t.periapsis, e);
    SameCanonical(t.ToEllipse(m), Conics.Ellipse.FromOrbital(m, t.periapsis, t.eccentr));
  }

  /** The two constructions differ only in how they write the minor semi-axis. */
  lemma SameMinorAxis(m: Libm, pe: real, e: real)
    requires e < 1.0
    requires m.sqrt(1.0 - e * e) == (1.0 - e) * m.sqrt((1.0 + e) / (1.0 - e))
    ensures PlanarTrajectory(pe, e).ToEllipse(m).canonical.semiAxes.y == Conics.Ellipse.FromOrbital(m, pe, e).canonical.semiAxes.y
  {
    var sa, s, r := pe / (1.0 - e), m.sqrt((1.0 + e) / (1.0 - e)), m.sqrt(1.0 - e * e);
    MinorAxisAgreesReal(pe, e, sa, s, r, Conics.Ellipse.FromOrbital(m, pe, e).canonical.semiAxes.y,
                        PlanarTrajectory(pe, e).ToEllipse(m).canonical.semiAxes.y);
  }

  /** Two canonical ellipses with the same parts are the same. */
  lemma SameCanonical(x: Conics.Ellipse, y: Conics.Ellipse)
    requires x.Canonical? && y.Canonical?
    requires x.canonical.semiAxes.x == y.canonical.semiAxes.x && x.canonical.semiAxes.y == y.canonical.semiAxes.y
    requires x.canonical.center.x == y.canonical.center.x && x.canonical.center.y == y.canonical.center.y
    requires x.canonical.rotation == y.canonical.rotation
    ensures x == y
  {
  }

  /** Where `point` is defined, it is at distance l - e x from the focus: the focus-directrix equation of the conic. */
  lemma PointFocusDirectrix(m: Libm, t: PlanarTrajectory, trueAnom: real)
    requires Lawful(m) && t.Point(m, trueAnom).Some?
    ensures var p := t.Point(m, trueAnom).value;
      Norm2Squared(p) == (t.SemiLatusRectum() - t.eccentr * p.x) * (t.SemiLatusRectum() - t.eccentr * p.x)
  {
    var p := t.Point(m, trueAnom).value;
    var c, s := m.cos(trueAnom), m.sin(trueAnom);
    var d := 1.0 + t.eccentr * c;
    var r := t.SemiLatusRectum() / d;
    assert r * d == t.SemiLatusRectum();
    assert t.SemiLatusRectum() - t.eccentr * p.x == r * d - t.eccentr * (r * c);
    assert t.SemiLatusRectum() - t.eccentr * p.x == r;
    assert Norm2Squared(p) == r * r * (c * c + s * s);
  }

  /** Where `point` is defined, its distance from the focus is p / (1 + e cos nu). */
  lemma PointDistance(m: Libm, t: PlanarTrajectory, trueAnom: real)
    requires Lawful(m) && t.Point(m, trueAnom).Some?
    ensures Norm2Squared(t.Point(m, trueAnom).value) * ((1.0 + t.eccentr * m.cos(trueAnom)) * (1.0 + t.eccentr * m.cos(trueAnom)))
         == t.SemiLatusRectum() * t.SemiLatusRectum()
  {
    var p := t.Point(m, trueAnom).value;
    var c, s := m.cos(trueAnom), m.sin(trueAnom);
    var d := 1.0 + t.eccentr * c;
    DistanceReal(Norm2Squared(p), p.x, p.y, d, t.SemiLatusRectum(), c, s);
  }

  lemma DistanceReal(n: real, x: real, y: real, d: real, l: real, c: real, s: real)
    requires s * s + c * c == 1.0
    requires x * d == l * c && y * d == l * s && n == x * x + y * y
    ensures n * (d * d) == l * l
  {
    assert (x * x + y * y) * (d * d) == (x * d) * (x * d) + (y * d) * (y * d);
    assert l * l == (l * c) * (l * c) + (l * s) * (l * s);
  }

  /** For e >= 0, `periapsis()` is the nearest point of the orbit to the focus. */
  lemma PeriapsisNearest(m: Libm, t: PlanarTrajectory, trueAnom: real)
    requires Lawful(m) && t.eccentr >= 0.0 && t.Point(m, trueAnom).Some?
    ensures Norm2Squared(t.Point(m, trueAnom).value) >= Norm2Squared(t.Periapsis())
  {
    var p := t.Point(m, trueAnom).value;
    PointDistance(m, t, trueAnom);
    ScaledAtMost(t.eccentr, m.cos(trueAnom), t.eccentr * m.cos(trueAnom));
    NearestReal(Norm2Squared(p), 1.0 + t.eccentr * m.cos(trueAnom), t.periapsis, t.eccentr, t.SemiLatusRectum());
  }

  /** From n d^2 = l^2 with l = p (1 + e) and 0 < d <= 1 + e: n >= p^2. */
  lemma NearestReal(n: real, d: real, pe: real, e: real, l: real)
    requires 0.0 < d <= 1.0 + e && l == pe * (1.0 + e)
    requires n * (d * d) == l * l
    ensures n >= pe * pe
  {
    var u := 1.0 + e;
    assert l * l == (pe * pe) * (u * u);
    SquareAtMost(d, u);
    ScaleAtMost(pe * pe, d * d, u * u);
    SquarePositive(d, d * d);
    if n < pe * pe {
      ScaleBelow(n, pe * pe, d * d);
    }
  }

  /** For 0 <= e < 1, `apoapsis()` is the farthest point of the orbit from the focus. */
  lemma ApoapsisFarthest(m: Libm, t: PlanarTrajectory, trueAnom: real)
    requires Lawful(m) && 0.0 <= t.eccentr < 1.0 && t.Point(m, trueAnom).Some?
    ensures Norm2Squared(t.Point(m, trueAnom).value) <= Norm2Squared(t.Apoapsis().value)
  {
    PointWithinAxis(m, t, trueAnom, t.Apoapsis().value);
  }

  /** A point of the orbit is no farther from the focus than q, where q.y = 0 and q.x (1 - e) = -p (1 + e). */
  lemma PointWithinAxis(m: Libm, t: PlanarTrajectory, trueAnom: real, q: Vec2)
    requires Lawful(m) && 0.0 <= t.eccentr < 1.0 && t.Point(m, trueAnom).Some?
    requires q.y == 0.0 && q.x * (1.0 - t.eccentr) == -t.periapsis * (1.0 + t.eccentr)
    ensures Norm2Squared(t.Point(m, trueAnom).value) <= Norm2Squared(q)
  {
    PointWithin(m, t, trueAnom, q.x);
    NormOnAxis(q);
  }

  /** A point of the orbit is within |qx| of the focus, where qx (1 - e) = -p (1 + e). */
  lemma PointWithin(m: Libm, t: PlanarTrajectory, trueAnom: real, qx: real)
    requires Lawful(m) && 0.0 <= t.eccentr < 1.0 && t.Point(m, trueAnom).Some?
    requires qx * (1.0 - t.eccentr) == -t.periapsis * (1.0 + t.eccentr)
    ensures Norm2Squared(t.Point(m, trueAnom).value) <= qx * qx
  {
    var p := t.Point(m, trueAnom).value;
    PointDistance(m, t, trueAnom);
    ScaledAtLeast(t.eccentr, m.cos(trueAnom), t.eccentr * m.cos(trueAnom));
    FarthestReal(Norm2Squared(p), 1.0 + t.eccentr * m.cos(trueAnom), qx, t.periapsis, t.eccentr, t.SemiLatusRectum());
  }

  /**
   * A point at focal distance l / d with 0 < 1 - e <= d is no farther out
   * than the apsis x (1 - e) = -l on the x axis.
   */
  lemma FarthestReal(n: real, d: real, qx: real, pe: real, e: real, l: real)
    requires 0.0 < 1.0 - e <= d && n * (d * d) == l * l
    requires l == pe * (1.0 + e) && qx * (1.0 - e) == -pe * (1.0 + e)
    ensures n <= qx * qx
  {
    var u := 1.0 - e;
    SquarePositive(d, d * d);
    if n < 0.0 {
      ScaleBelow(n, 0.0, d * d);
      if l != 0.0 {
        SquarePositive(l, l * l);
      }
      assert false;
    }
    SquareAtMost(u, d);
    ScaleAtMost(n, u * u, d * d);
    assert l * l == (qx * qx) * (u * u);
    SquarePositive(u, u * u);
    if n > qx * qx {
      ScaleBelow(qx * qx, n, u * u);
    }
  }

  /** 0 < d <= u gives d^2 <= u^2. */
  lemma SquareAtMost(d: real, u: real)
    requires 0.0 < d <= u
    ensures d * d <= u * u
  {
    assert u * u - d * d == (u - d) * (u + d);
  }

  /** k >= 0 and x <= y give k x <= k y. */
  lemma ScaleAtMost(k: real, x: real, y: real)
    requires k >= 0.0 && x <= y
    ensures k * x <= k * y
  {
    assert k * y - k * x == k * (y - x);
  }

  /** x < y and k > 0 give x k < y k. */
  lemma ScaleBelow(x: real, y: real, k: real)
    requires x < y && k > 0.0
    ensures x * k < y * k
  {
    assert y * k - x * k == (y - x) * k;
    ProductPositive(y - x, k, (y - x) * k);
  }

  /**
   * `semi_latus_rectum()` is the focal distance a quarter turn from the
   * periapsis, where cos nu = 0: half the chord through the focus
   * perpendicular to the major axis.
   */
  lemma SemiLatusRectumAtQuarterTurn(m: Libm, t: PlanarTrajectory, trueAnom: real)
    requires Lawful(m) && m.cos(trueAnom) == 0.0
    ensures t.Point(m, trueAnom).Some?
    ensures Norm2Squared(t.Point(m, trueAnom).value) == t.SemiLatusRectum() * t.SemiLatusRectum()
  {
    PointDistance(m, t, trueAnom);
    assert 1.0 + t.eccentr * m.cos(trueAnom) == 1.0;
  }

  /** At true anomaly 0 the orbit is at its periapsis, unless 1 + e <= 0. */
  lemma PointAtZero(m: Libm, t: PlanarTrajectory)
    requires Lawful(m)
    ensures t.Point(m, 0.0) == if t.eccentr > -1.0 then Some(t.Periapsis()) else None
  {
    if t.eccentr > -1.0 {
      var p := t.Point(m, 0.0).value;
      ApsisReal(p.x, p.y, t.eccentr, m.cos(0.0), m.sin(0.0), t.SemiLatusRectum(), t.periapsis, 1.0 + t.eccentr);
    }
  }

  /** At true anomaly pi the orbit is at its apoapsis, and both exist for exactly the same eccentricities. */
  lemma PointAtPi(m: Libm, t: PlanarTrajectory)
    requires Lawful(m) && ExactHalfTurn(m)
    ensures t.Point(m, PI) == t.Apoapsis()
  {
    if t.eccentr < 1.0 {
      var p := t.Point(m, PI).value;
      var q := t.Apoapsis().value;
      ApsisReal(p.x, p.y, t.eccentr, m.cos(PI), m.sin(PI), t.SemiLatusRectum(), q.x, 1.0 - t.eccentr);
    }
  }

  /** For -1 <= e < 1 every point of the orbit lies on `to_ellipse()`. */
  lemma PointOnEllipse(m: Libm, t: PlanarTrajectory, trueAnom: real)
    requires Lawful(m) && -1.0 <= t.eccentr < 1.0 && t.Point(m, trueAnom).Some?
    ensures t.ToEllipse(m).ToImplicit(m).Eval(t.Point(m, trueAnom).value) == 0.0
  {
    var p := t.Point(m, trueAnom).value;
    var ce := t.ToEllipse(m).canonical;
    Conics.ImplicitEval(m, ce, p);
    UnrotatedAxes(m, ce, p);
    PointResidual(m, t, trueAnom);
  }

  /** Read from the centre of `to_ellipse()`, a point of the orbit is a root of the ellipse's residual. */
  lemma PointResidual(m: Libm, t: PlanarTrajectory, trueAnom: real)
    requires Lawful(m) && -1.0 <= t.eccentr < 1.0 && t.Point(m, trueAnom).Some?
    ensures var p := t.Point(m, trueAnom).value;
      var ce := t.ToEllipse(m).canonical;
      ce.Residual(Vec2(p.x - ce.center.x, p.y - ce.center.y)) == 0.0
  {
    PointFocusDirectrix(m, t, trueAnom);
    SemiLatusRectumOfEllipse(m, t);
    FocalResidual(m, t, t.Point(m, trueAnom).value);
  }

  /** An ellipse with rotation 0 has its own axes parallel to x and y. */
  lemma UnrotatedAxes(m: Libm, ce: Conics.CanonicalEllipse, p: Vec2)
    requires Lawful(m) && ce.rotation == 0.0
    ensures ce.AxisCoordinates(m, p) == Vec2(p.x - ce.center.x, p.y - ce.center.y)
  {
  }

  /**
   * A point satisfying the focus-directrix equation of the orbit is, read
   * from the centre of `to_ellipse()`, a root of the ellipse's residual.
   */
  lemma FocalResidual(m: Libm, t: PlanarTrajectory, p: Vec2)
    requires t.eccentr < 1.0
    requires t.SemiLatusRectum() * t.ToEllipse(m).canonical.semiAxes.x
          == t.ToEllipse(m).canonical.semiAxes.y * t.ToEllipse(m).canonical.semiAxes.y
    requires Norm2Squared(p) == (t.SemiLatusRectum() - t.eccentr * p.x) * (t.SemiLatusRectum() - t.eccentr * p.x)
    ensures var ce := t.ToEllipse(m).canonical;
      ce.Residual(Vec2(p.x - ce.center.x, p.y - ce.center.y)) == 0.0
  {
    var ce := t.ToEllipse(m).canonical;
    OrbitEllipseReal(t.periapsis, t.eccentr, ce.semiAxes.x, ce.semiAxes.y, t.SemiLatusRectum(),
                     p.x, p.y, p.x - ce.center.x, p.y - ce.center.y);
  }

  /** The orbit's periapsis and apoapsis are the two ends of the ellipse's major axis. */
  lemma ApsidesOnEllipse(m: Libm, t: PlanarTrajectory)
    requires Lawful(m) && ExactHalfTurn(m) && t.eccentr < 1.0
    ensures t.ToEllipse(m).canonical.PointAt(m, 0.0) == t.Periapsis()
    ensures Some(t.ToEllipse(m).canonical.PointAt(m, PI)) == t.Apoapsis()
  {
    var ce := t.ToEllipse(m).canonical;
    assert ce.PointAt(m, 0.0).x == ce.center.x + 1.0 * (ce.semiAxes.x * 1.0) - 0.0 * (ce.semiAxes.y * 0.0);
    assert ce.PointAt(m, PI).x == ce.center.x + 1.0 * (ce.semiAxes.x * -1.0) - 0.0 * (ce.semiAxes.y * 0.0);
  }

  // ---------------------------------------------------------------------
  // Kepler's equation and its Newton solver.

  /** `MAX_ITERATIONS`: Newton steps tried before giving up. */
  const MAX_ITERATIONS: nat := 20

  /** `ACCURACY`: 1e-15, the residual below which an eccentric anomaly is accepted. */
  const ACCURACY: real := 0.000000000000001

  /** Why `approx_inv_kepler` panics: the mean anomaly is outside [-TAU, TAU], or Newton's method did not converge. */
  datatype KeplerFailure = OutOfRange | DidNotConverge

  /** What `approx_inv_kepler` ends with: an eccentric anomaly, or the panic it raises instead. */
  datatype KeplerResult = Solved(eccAnom: real) | Failed(reason: KeplerFailure)

  /** `kepler(ecc, ecc_anom)`: the mean anomaly E - e sin E of the eccentric anomaly E. */
  function Kepler(m: Libm, ecc: real, eccAnom: real): real {
    eccAnom - ecc * m.sin(eccAnom)
  }

  /** Kepler's equation is solved to within `ACCURACY`. */
  predicate Converged(m: Libm, ecc: real, meanAnom: real, eccAnom: real) {
    Abs(Kepler(m, ecc, eccAnom) - meanAnom) < ACCURACY
  }

  /** `f64::signum` on the reals: zero counts as positive. */
  function Signum(x: real): real {
    if x < 0.0 then -1.0 else 1.0
  }

  /**
   * The starting point of the iteration: the mean anomaly itself for a
   * nearly circular orbit, otherwise half a turn on the mean anomaly's side.
   */
  function InitialGuess(ecc: real, meanAnom: real): (r: real)
    ensures ecc < 0.8 ==> r == meanAnom
    ensures -TAU <= meanAnom <= TAU ==> -TAU <= r <= TAU
    ensures ecc >= 0.8 ==> (r == PI || r == -PI) && (r == PI <==> meanAnom >= 0.0)
  {
    if ecc < 0.8 then meanAnom else Signum(meanAnom) * TAU / 2.0
  }

  /** 1 - e cos E is positive for 0 <= e < 1, so the Newton step never divides by zero. */
  lemma DenominatorPositive(m: Libm, ecc: real, eccAnom: real)
    requires Lawful(m) && 0.0 <= ecc < 1.0
    ensures 1.0 - ecc * m.cos(eccAnom) > 0.0
  {
    ScaledAtMost(ecc, m.cos(eccAnom), ecc * m.cos(eccAnom));
  }

  /** k x <= k for 0 <= k and x <= 1; the product is named d. */
  lemma ScaledAtMost(k: real, x: real, d: real)
    requires k >= 0.0 && x <= 1.0 && d == k * x
    ensures d <= k
  {
    assert k - d == k * (1.0 - x);
  }

  /** A vector on the x-axis has squared norm x^2. */
  lemma NormOnAxis(v: Vec2)
    requires v.y == 0.0
    ensures Norm2Squared(v) == v.x * v.x
  {
  }

  /** k >= 0 and x >= -1 give k x >= -k. */
  lemma ScaledAtLeast(k: real, x: real, d: real)
    requires k >= 0.0 && -1.0 <= x && d == k * x
    ensures d >= -k
  {
    assert d + k == k * (x + 1.0);
  }

  /** A quotient by a non-zero number is zero exactly when the dividend is. */
  lemma QuotientZero(f: real, d: real)
    requires d != 0.0
    ensures f / d == 0.0 <==> f == 0.0
  {
    if f / d == 0.0 {
      assert f == (f / d) * d;
    }
  }

  /**
   * One Newton step E - (E - e sin E - M) / (1 - e cos E) for Kepler's
   * equation; it leaves E where it is exactly when E solves the equation.
   */
  function NewtonStep(m: Libm, ecc: real, meanAnom: real, eccAnom: real): (r: real)
    requires Lawful(m) && 0.0 <= ecc < 1.0
    ensures r == eccAnom <==> Kepler(m, ecc, eccAnom) == meanAnom
  {
    DenominatorPositive(m, ecc, eccAnom);
    QuotientZero(Kepler(m, ecc, eccAnom) - meanAnom, 1.0 - ecc * m.cos(eccAnom));
    eccAnom - (Kepler(m, ecc, eccAnom) - meanAnom) / (1.0 - ecc * m.cos(eccAnom))
  }

  /**
   * The loop of `approx_inv_kepler` from the estimate `eccAnom` with `fuel`
   * passes left: accept a converged estimate, otherwise take a Newton
   * step and accept it if it did not move, otherwise go on; with no
   * passes left, fail.
   */
  function Iterate(m: Libm, ecc: real, meanAnom: real, eccAnom: real, fuel: nat): (r: KeplerResult)
    requires Lawful(m) && 0.0 <= ecc < 1.0
    ensures r.Solved? ==> Converged(m, ecc, meanAnom, r.eccAnom)
    ensures r.Failed? ==> r.reason == DidNotConverge
    decreases fuel
  {
    if fuel == 0 then
      Failed(DidNotConverge)
    else if Converged(m, ecc, meanAnom, eccAnom) then
      Solved(eccAnom)
    else
      var next := NewtonStep(m, ecc, meanAnom, eccAnom);
      if next == eccAnom then Solved(next)
      else Iterate(m, ecc, meanAnom, next, fuel - 1)
  }

  /**
   * `approx_inv_kepler(ecc, mean_anom)` as a value: the eccentric anomaly
   * whose mean anomaly is within `ACCURACY` of the given one, or the
   * reason it panics.
   */
  function InvKepler(m: Libm, ecc: real, meanAnom: real): (r: KeplerResult)
    requires Lawful(m) && 0.0 <= ecc < 1.0
    ensures r == Failed(OutOfRange) <==> !(-TAU <= meanAnom <= TAU)
    ensures r.Solved? ==> -TAU <= meanAnom <= TAU && Converged(m, ecc, meanAnom, r.eccAnom)
  {
    if !(-TAU <= meanAnom <= TAU) then Failed(OutOfRange)
    else Iterate(m, ecc, meanAnom, InitialGuess(ecc, meanAnom), MAX_ITERATIONS)
  }

  /** `approx_inv_kepler`: the bounded Newton loop, updating its estimate in place. */
  method ApproxInvKepler(m: Libm, ecc: real, meanAnom: real) returns (r: KeplerResult)
    requires Lawful(m) && 0.0 <= ecc < 1.0
    ensures r == InvKepler(m, ecc, meanAnom)
  {
    if !(-TAU <= meanAnom <= TAU) {
      return Failed(OutOfRange);
    }
    var ecAn := InitialGuess(ecc, meanAnom);
    for i := 0 to MAX_ITERATIONS
      invariant Iterate(m, ecc, meanAnom, ecAn, MAX_ITERATIONS - i) == InvKepler(m, ecc, meanAnom)
    {
      var f := ecAn - ecc * m.sin(ecAn) - meanAnom;
      LoopPass(m, ecc, meanAnom, ecAn, f, MAX_ITERATIONS - i);
      if Abs(f) < ACCURACY {
        return Solved(ecAn);
      }
      var prevEcAn := ecAn;
      ecAn := NewtonStep(m, ecc, meanAnom, ecAn);
      if prevEcAn == ecAn {
        return Solved(ecAn);
      }
    }
    return Failed(DidNotConverge);
  }

  /** What one pass of the loop does, in terms of `Iterate`, with f the residual it computes. */
  lemma LoopPass(m: Libm, ecc: real, meanAnom: real, eccAnom: real, f: real, fuel: nat)
    requires Lawful(m) && 0.0 <= ecc < 1.0 && fuel > 0
    requires f == eccAnom - ecc * m.sin(eccAnom) - meanAnom
    ensures Abs(f) < ACCURACY ==> Iterate(m, ecc, meanAnom, eccAnom, fuel) == Solved(eccAnom)
    ensures var next := NewtonStep(m, ecc, meanAnom, eccAnom);
      !(Abs(f) < ACCURACY) ==>
        Iterate(m, ecc, meanAnom, eccAnom, fuel)
        == if next == eccAnom then Solved(next) else Iterate(m, ecc, meanAnom, next, fuel - 1)
  {
    assert Converged(m, ecc, meanAnom, eccAnom) <==> Abs(f) < ACCURACY;
  }

  /** The k-th Newton iterate from E. */
  function Iterates(m: Libm, ecc: real, meanAnom: real, eccAnom: real, k: nat): real
    requires Lawful(m) && 0.0 <= ecc < 1.0
    decreases k
  {
    if k == 0 then eccAnom else Iterates(m, ecc, meanAnom, NewtonStep(m, ecc, meanAnom, eccAnom), k - 1)
  }

  /** The loop returns the first of its iterates that converges, if one does within its passes. */
  lemma {:induction false} IterateFirstConverged(m: Libm, ecc: real, meanAnom: real, eccAnom: real, fuel: nat, k: nat)
    requires Lawful(m) && 0.0 <= ecc < 1.0
    requires k < fuel && Converged(m, ecc, meanAnom, Iterates(m, ecc, meanAnom, eccAnom, k))
    requires forall j :: 0 <= j < k ==> !Converged(m, ecc, meanAnom, Iterates(m, ecc, meanAnom, eccAnom, j))
    ensures Iterate(m, ecc, meanAnom, eccAnom, fuel) == Solved(Iterates(m, ecc, meanAnom, eccAnom, k))
    decreases k
  {
    if k > 0 {
      assert !Converged(m, ecc, meanAnom, Iterates(m, ecc, meanAnom, eccAnom, 0));
      var next := NewtonStep(m, ecc, meanAnom, eccAnom);
      assert next != eccAnom;
      forall j | 0 <= j < k - 1
        ensures !Converged(m, ecc, meanAnom, Iterates(m, ecc, meanAnom, next, j))
      {
        assert Iterates(m, ecc, meanAnom, eccAnom, j + 1) == Iterates(m, ecc, meanAnom, next, j);
      }
      IterateFirstConverged(m, ecc, meanAnom, next, fuel - 1, k - 1);
    }
  }

  /** With none of its iterates converging, the loop fails after its last pass. */
  lemma {:induction false} IterateNoneConverged(m: Libm, ecc: real, meanAnom: real, eccAnom: real, fuel: nat)
    requires Lawful(m) && 0.0 <= ecc < 1.0
    requires forall j :: 0 <= j < fuel ==> !Converged(m, ecc, meanAnom, Iterates(m, ecc, meanAnom, eccAnom, j))
    ensures Iterate(m, ecc, meanAnom, eccAnom, fuel) == Failed(DidNotConverge)
    decreases fuel
  {
    if fuel > 0 {
      assert !Converged(m, ecc, meanAnom, Iterates(m, ecc, meanAnom, eccAnom, 0));
      var next := NewtonStep(m, ecc, meanAnom, eccAnom);
      assert next != eccAnom;
      forall j | 0 <= j < fuel - 1
        ensures !Converged(m, ecc, meanAnom, Iterates(m, ecc, meanAnom, next, j))
      {
        assert Iterates(m, ecc, meanAnom, eccAnom, j + 1) == Iterates(m, ecc, meanAnom, next, j);
      }
      IterateNoneConverged(m, ecc, meanAnom, next, fuel - 1);
    }
  }

  /**
   * Within its range, `approx_inv_kepler` panics for non-convergence
   * exactly when none of the first `MAX_ITERATIONS` iterates from the
   * initial guess converges (which one it returns otherwise is
   * `IterateFirstConverged`).
   */
  lemma InvKeplerOutcome(m: Libm, ecc: real, meanAnom: real)
    requires Lawful(m) && 0.0 <= ecc < 1.0 && -TAU <= meanAnom <= TAU
    ensures var e0 := InitialGuess(ecc, meanAnom);
      InvKepler(m, ecc, meanAnom) == Failed(DidNotConverge)
      <==> forall j :: 0 <= j < MAX_ITERATIONS ==> !Converged(m, ecc, meanAnom, Iterates(m, ecc, meanAnom, e0, j))
  {
    var e0 := InitialGuess(ecc, meanAnom);
    if forall j :: 0 <= j < MAX_ITERATIONS ==> !Converged(m, ecc, meanAnom, Iterates(m, ecc, meanAnom, e0, j)) {
      IterateNoneConverged(m, ecc, meanAnom, e0, MAX_ITERATIONS);
    } else {
      var k := FirstConverged(m, ecc, meanAnom, e0, MAX_ITERATIONS, 0);
      IterateFirstConverged(m, ecc, meanAnom, e0, MAX_ITERATIONS, k);
    }
  }

  /** The first index from `from` on whose iterate converges, given that one below `fuel` does. */
  lemma FirstConverged(m: Libm, ecc: real, meanAnom: real, eccAnom: real, fuel: nat, from: nat) returns (k: nat)
    requires Lawful(m) && 0.0 <= ecc < 1.0
    requires forall j :: 0 <= j < from ==> !Converged(m, ecc, meanAnom, Iterates(m, ecc, meanAnom, eccAnom, j))
    requires exists j :: from <= j < fuel && Converged(m, ecc, meanAnom, Iterates(m, ecc, meanAnom, eccAnom, j))
    ensures k < fuel && Converged(m, ecc, meanAnom, Iterates(m, ecc, meanAnom, eccAnom, k))
    ensures forall j :: 0 <= j < k ==> !Converged(m, ecc, meanAnom, Iterates(m, ecc, meanAnom, eccAnom, j))
    decreases fuel - from
  {
    if Converged(m, ecc, meanAnom, Iterates(m, ecc, meanAnom, eccAnom, from)) {
      k := from;
    } else {
      k := FirstConverged(m, ecc, meanAnom, eccAnom, fuel, from + 1);
    }
  }

  /**
   * `kepler` fixes the periapsis (E = 0 gives M = 0) and moves any eccentric
   * anomaly by at most the eccentricity: |M - E| <= |e|.
   */
  lemma KeplerNearIdentity(m: Libm, ecc: real, eccAnom: real)
    requires Lawful(m)
    ensures Kepler(m, ecc, 0.0) == 0.0
    ensures Abs(Kepler(m, ecc, eccAnom) - eccAnom) <= Abs(ecc)
  {
    var s := m.sin(eccAnom);
    SineBound(s, m.cos(eccAnom));
    ScaledBound(ecc, s, ecc * s);
    assert Kepler(m, ecc, eccAnom) - eccAnom == -(ecc * s);
  }

  /** s^2 + c^2 = 1 keeps s within [-1, 1]. */
  lemma SineBound(s: real, c: real)
    requires s * s + c * c == 1.0
    ensures -1.0 <= s <= 1.0
  {
    assert (1.0 - s) * (1.0 + s) == c * c;
  }

  /** |k s| <= |k| for s in [-1, 1]; the product is named ks. */
  lemma ScaledBound(k: real, s: real, ks: real)
    requires -1.0 <= s <= 1.0 && ks == k * s
    ensures Abs(-ks) <= Abs(k)
  {
    if k >= 0.0 {
      ScaledAtMost(k, s, ks);
      ScaledAtMost(k, -s, -ks);
    } else {
      ScaledAtMost(-k, s, -ks);
      ScaledAtMost(-k, -s, ks);
    }
  }

  /** A circular orbit needs no Newton step: the eccentric anomaly is the mean anomaly. */
  lemma CircularInvKepler(m: Libm, meanAnom: real)
    requires Lawful(m)
    ensures InvKepler(m, 0.0, meanAnom) == if -TAU <= meanAnom <= TAU then Solved(meanAnom) else Failed(OutOfRange)
  {
    if -TAU <= meanAnom <= TAU {
      assert Kepler(m, 0.0, meanAnom) == meanAnom;
    }
  }
}
