# orbit-sim: orbit geometry in Dafny

This project models the geometric core of orbit-sim, a small Rust orbit
simulator, and proves properties of that model. The core has three parts.

- **Affine maps of the plane** (`src/math.rs`). The `Affine` trait for
  `Affine2 = Matrix3` builds homogeneous 3x3 matrices: `new`, `id`, `inv`,
  `translate`, `scale` and `rotate`. These are modelled in module `Affine`,
  on top of the 3x3 matrix algebra in module `LinearAlgebra`. That module
  includes `Matrix3::inverse`, built from the adjugate and the determinant.
- **Ellipses in two representations** (`src/conics.rs`), modelled in module
  `Conics`:
  - canonical: semi-axes, centre and rotation (`CanonicalEllipseRepr`);
  - implicit: the six coefficients of
    `A x^2 + B xy + C y^2 + D x + E y + F = 0` (`ImplicitConicSectionRepr`).

  Also modelled: the conversions between the two forms, the symmetric-matrix
  form of a conic, `Ellipse::from_orbital`, and `Ellipse::transform`. The
  last gives the image of an ellipse under an affine map as the conic with
  matrix `inv(a)^T M inv(a)`.
- **The planar trajectory and Kepler's equation** (`src/orbits.rs`),
  modelled in module `Orbits`:
  - `PlanarTrajectory`, given by its periapsis distance and eccentricity,
    with its apsides, its ellipse, its semi-latus rectum and the point at a
    given true anomaly;
  - `kepler`;
  - `approx_inv_kepler`, the bounded Newton iteration that solves
    `E - e sin E = M`. It is modelled as a method with the source's loop,
    proved equal to a recursive specification.

Floating-point numbers are modelled as mathematical reals. The primitives
`sin`, `cos`, `sqrt` and `atan2` cannot be defined over the reals in Dafny,
so they travel as a `Libm` value passed as a parameter (module `Numerics`).
The ghost predicate `Lawful` lists the identities the proofs use:
- `sin^2 + cos^2 = 1`;
- `-1 <= cos <= 1`;
- the values of `sin` and `cos` at 0;
- `sqrt` is the non-negative square root of a non-negative number.

Any lemma that needs these identities requires `Lawful(m)`. A true sine and
cosine satisfy all of them. A second predicate, `ExactHalfTurn`, takes
`cos(PI) = -1` and `sin(PI) = 0` as exact for `PI = TAU / 2`. Only the two
lemmas about the apoapsis require it.

The source panics in two places:
- `inv` panics through `expect`, and `to_ellipse` through `assert!`. These
  become preconditions.
- `approx_inv_kepler` has an `assert!` and a `panic!`. These become the
  `Failed(OutOfRange)` and `Failed(DidNotConverge)` results of a
  `KeplerResult`. The result therefore says in which case the source
  panics.

## Model

| member | source | states |
|---|---|---|
| LinearAlgebra.Inverse | src/conics.rs:38 | no inverse exactly when the determinant is zero; otherwise a two-sided inverse |
| LinearAlgebra.InverseIdentity | src/math.rs:21-26 | the identity matrix is invertible and is its own inverse |
| Affine.New | src/math.rs:16-20 | `new(l, t)` is affine, with linear part `l` and translation `t` |
| Affine.NewOfParts | src/math.rs:16-20 | every affine matrix is `new` of its own linear part and translation |
| Affine.ApplyNew | src/math.rs:16-20 | `new(l, t)` maps a point p to `l p + t` |
| Affine.ApplyHomogeneous | src/math.rs:4 | on an affine matrix, multiplying homogeneous coordinates is the point map |
| Affine.Id | src/math.rs:21-23 | `id()` is an affine matrix |
| Affine.ApplyId | src/math.rs:21-23 | `id()` fixes every point |
| Affine.IdNeutral | src/math.rs:21-23 | `id()` is a two-sided neutral element for composition |
| Affine.Inv | src/math.rs:24-26 | `inv` of a non-singular matrix is its two-sided inverse |
| Affine.InvUndoes | src/math.rs:24-26 | the inverse of an invertible affine map is affine and sends every image point back to where it came from |
| Affine.Translate | src/math.rs:27-29 | `translate(x)` is affine, with identity linear part and translation x |
| Affine.ApplyTranslate | src/math.rs:27-29 | `translate(x)` moves every point by x |
| Affine.InvTranslate | src/math.rs:24-29 | `translate(x)` has determinant 1 and its inverse is `translate(-x)` |
| Affine.Scale | src/math.rs:30-33 | `scale(s)` is affine, with linear part diag(s.x, s.y) and no translation |
| Affine.ApplyScale | src/math.rs:30-33 | `scale(s)` multiplies each coordinate by its own factor |
| Affine.IdIsTrivialTranslateAndScale | src/math.rs:21-33 | `id()` equals `translate((0,0))` and `scale((1,1))` |
| Affine.Rotate | src/math.rs:34-37 | `rotate(theta)` is affine, with linear part the rotation by theta and no translation |
| Affine.RotateDet | src/math.rs:34-37 | a rotation has determinant 1, so `inv` accepts it |
| Affine.RotateKeepsNorm | src/math.rs:34-37 | a rotation keeps every point's distance from the origin |
| Conics.CanonicalEllipse.ToImplicit | src/conics.rs:105-115 | the ellipse's centre is the stationary point of the implicit quadratic; the constant term is the quadratic part at the centre minus a^2 b^2 |
| Conics.ImplicitEval | src/conics.rs:105-115 | the implicit form at any point p equals b^2 u^2 + a^2 v^2 - a^2 b^2, where (u, v) is p's offset from the centre in the ellipse's own axes |
| Conics.PointAtOnEllipse | src/conics.rs:105-115 | every point centre + R(theta)(a cos t, b sin t) of the canonical ellipse satisfies its implicit equation |
| Conics.ImplicitAtCentre | src/conics.rs:105-115 | the implicit form at the centre is -a^2 b^2 |
| Conics.ImplicitDiscriminant | src/conics.rs:105-115 | the implicit form's B^2 - 4AC is -4 a^2 b^2, whatever the rotation |
| Conics.ProperDiscriminant | src/conics.rs:105-115 | a canonical ellipse with non-zero semi-axes becomes a conic with negative discriminant, i.e. an ellipse |
| Conics.ImplicitConic.ToCanonical | src/conics.rs:62-76 | the centre computed by `to_canonical` satisfies both centre equations of the conic |
| Conics.CentreUnique | src/conics.rs:62-65 | a conic with non-zero discriminant has at most one centre |
| Conics.CentreRoundTrip | src/conics.rs:62-65 | converting canonical to implicit and back keeps the centre, whenever the discriminant is non-zero |
| Conics.ProperCentreRoundTrip | src/conics.rs:62-65 | for non-zero semi-axes, the round trip is defined (negative discriminant) and keeps the centre |
| Conics.EvalFromCentre | src/conics.rs:62-65 | about a centre h, the conic is its quadratic part at p - h plus its value at h |
| Conics.ImplicitConic.ToMatrix | src/conics.rs:79-84 | the conic's matrix is symmetric, and `from_matrix` reads the same conic back from it |
| Conics.EvalAsQuadForm | src/conics.rs:79-84 | the quadratic form of that matrix on (x, y, 1) is the conic's equation at (x, y) |
| Conics.ImplicitConic.FromMatrix | src/conics.rs:86-93 | on a symmetric matrix, `from_matrix` is the inverse of `to_matrix` |
| Conics.EvalFromMatrix | src/conics.rs:86-93 | on any matrix, the conic read off it evaluates to the matrix's quadratic form on (x, y, 1) |
| Conics.Ellipse.FromOrbital | src/conics.rs:11-19 | an unrotated canonical ellipse, centre on the x axis, major semi-axis periapsis / (1 - e), with the periapsis at the near end of the major axis |
| Conics.Ellipse.ToImplicit | src/conics.rs:30-35 | an implicit ellipse is kept; a canonical one becomes a conic centred at its centre |
| Conics.Ellipse.ToCanonical | src/conics.rs:22-27 | a canonical ellipse is kept; in both cases the result's centre is the centre of the implicit form |
| Conics.Ellipse.Transform | src/conics.rs:37-53 | the result is the zero canonical ellipse exactly when the map is singular, and an implicit conic otherwise |
| Conics.TransformImage | src/conics.rs:37-43 | for an invertible affine map a, the transformed conic takes at a(p) the value the original takes at p, so its zero set is the image of the ellipse |
| Conics.TransformIdentity | src/conics.rs:37-43 | transforming by the identity gives the ellipse's own implicit form |
| Orbits.PlanarTrajectory.Apoapsis | src/orbits.rs:44-51 | an apoapsis exists exactly when e < 1; it lies on the negative x axis at x = -periapsis (1 + e) / (1 - e) |
| Orbits.PlanarTrajectory.ToEllipse | src/orbits.rs:58-67 | an unrotated canonical ellipse, centre on the x axis, major semi-axis periapsis / (1 - e); the periapsis is the near end of its major axis |
| Orbits.SemiLatusRectumOfEllipse | src/orbits.rs:58-71 | for -1 <= e < 1 the semi-latus rectum times the major semi-axis is the square of the minor one |
| Orbits.ToEllipseFocus | src/orbits.rs:58-67 | the origin is a focus of `to_ellipse()`: centre distance squared = a^2 - b^2 |
| Orbits.ToEllipseIsFromOrbital | src/orbits.rs:58-67 | for -1 <= e < 1, `to_ellipse()` builds the same ellipse as `Ellipse::from_orbital(periapsis, e)` |
| Orbits.PlanarTrajectory.Point | src/orbits.rs:73-81 | no point exactly when 1 + e cos(nu) <= 0; otherwise the point (r cos nu, r sin nu) with r (1 + e cos nu) = semi-latus rectum |
| Orbits.PointDistance | src/orbits.rs:69-81 | where `point(nu)` is defined, its distance from the focus is semi-latus rectum / (1 + e cos nu) (stated squared, multiplied out) |
| Orbits.PointFocusDirectrix | src/orbits.rs:69-81 | every point of the orbit is at distance l - e x from the focus (focus-directrix property of the conic) |
| Orbits.PointAtZero | src/orbits.rs:54-81 | at true anomaly 0 the orbit is at `periapsis()`, whenever e > -1 |
| Orbits.PointAtPi | src/orbits.rs:44-81 | with an exact half turn, the point at true anomaly pi is `apoapsis()`; both are absent for exactly the same eccentricities |
| Orbits.PointOnEllipse | src/orbits.rs:58-81 | for -1 <= e < 1, every point of the orbit satisfies the implicit equation of `to_ellipse()` |
| Orbits.ApsidesOnEllipse | src/orbits.rs:44-67 | with an exact half turn, periapsis and apoapsis are the two ends of the major axis of `to_ellipse()` |
| Orbits.PeriapsisNearest | src/orbits.rs:54-56 | for e >= 0, no point of the orbit is closer to the focus than `periapsis()` |
| Orbits.ApoapsisFarthest | src/orbits.rs:44-51 | for 0 <= e < 1, no point of the orbit is farther from the focus than `apoapsis()` |
| Orbits.SemiLatusRectumAtQuarterTurn | src/orbits.rs:69-71 | where cos nu = 0 the orbit has a point, and its distance from the focus is `semi_latus_rectum()` |
| Orbits.KeplerNearIdentity | src/orbits.rs:116-118 | `kepler` sends eccentric anomaly 0 to mean anomaly 0, and differs from the identity by at most the eccentricity |
| Orbits.InitialGuess | src/orbits.rs:93-97 | for e < 0.8 the starting estimate is the mean anomaly itself; for e >= 0.8 it is +-TAU/2, on the side of the mean anomaly's sign (zero counting as positive); either way it stays in [-TAU, TAU] |
| Orbits.NewtonStep | src/orbits.rs:99-104 | a Newton step leaves the estimate unchanged exactly when the estimate solves Kepler's equation; its denominator is never zero for 0 <= e < 1 |
| Orbits.Iterate | src/orbits.rs:98-113 | the loop only returns an estimate whose Kepler residual is below `ACCURACY`, and otherwise fails by non-convergence |
| Orbits.InvKepler | src/orbits.rs:86-114 | out-of-range failure exactly when M is outside [-TAU, TAU]; any returned E satisfies abs(E - e sin E - M) < 1e-15 |
| Orbits.ApproxInvKepler | src/orbits.rs:86-114 | the method with the source's loop returns exactly the specified `InvKepler` result |
| Orbits.IterateFirstConverged | src/orbits.rs:98-108 | the loop returns the first Newton iterate that converges, if one does within the remaining passes |
| Orbits.IterateNoneConverged | src/orbits.rs:98-113 | the loop fails exactly at the end of its passes when no iterate converges |
| Orbits.InvKeplerOutcome | src/orbits.rs:84-114 | within range, `approx_inv_kepler` panics for non-convergence if and only if none of the first 20 iterates from the initial guess converges |
| Orbits.CircularInvKepler | src/orbits.rs:86-118 | for a circular orbit (e = 0) the eccentric anomaly returned is the mean anomaly itself |

## Left out

- IEEE 754 behaviour: rounding, infinities and NaN. Every `f64` is a real
  number. Division by zero is excluded by a precondition, or by the branch
  that guards it, rather than producing an infinity.
- The NaN guard on the rotation angle in `to_canonical`
  (src/conics.rs:70). Over the reals `atan2` never returns NaN.
- Conics.ImplicitConic.ToCanonical: only the centre is proved. The semi-axes
  and rotation are computed as in the source through `sqrt` and `atan2`.
  `Lawful` gives no law for `atan2`, and none for `sqrt` of a negative
  number, so their round trip is not proved.
- Conics.ImplicitConic.ToCanonical and Conics.Ellipse.ToCanonical require a
  non-zero discriminant. The source divides by it unguarded and produces
  infinities or NaN.
- Conics.Ellipse.FromOrbital requires an eccentricity other than 1. The
  source divides by 1 - e unguarded.
- Conics.Ellipse.Transform: the singularity test is an exact comparison
  of the determinant with zero. The nalgebra release the crate builds
  against is not part of this model. Older nalgebra releases treat a
  determinant within a small tolerance of zero (about 1e-6) as singular. If
  this release does, the model inverts a map with 0 < |det| below that
  tolerance, where the source returns the zero ellipse.
- Conics.Ellipse.Transform: a singular map is not reported as a missing
  result. The code returns the all-zero canonical ellipse instead (its own
  comment marks this as a stopgap), and the model follows the code.
- Affine.Inv requires a non-singular matrix, where the source panics
  through `expect`.
- Orbits.PlanarTrajectory.ToEllipse requires e < 1, where the source
  panics through `assert!`.
- Orbits.ApproxInvKepler, Orbits.InvKepler, Orbits.Iterate and
  Orbits.NewtonStep require 0 <= e < 1. That is the range where the Newton
  denominator 1 - e cos E is provably positive. The source accepts any
  eccentricity.
- Orbits.InvKepler: no convergence rate is proved, and neither is the
  existence of a solution within 20 steps. What is proved is what is
  returned, and exactly when each failure happens.
- Orbits.Iterate: the "estimate did not move" exit of the loop
  (src/orbits.rs:105-107) is modelled as written. Over the reals it can
  only fire once the residual is exactly zero, which the accuracy exit
  already catches, so its floating-point role is not captured.
- Orbits.ToEllipseIsFromOrbital, Orbits.PointOnEllipse,
  Orbits.SemiLatusRectumOfEllipse and Orbits.ToEllipseFocus require
  e >= -1. Negative eccentricities below -1 make both square roots
  undefined over the reals.
- The trigonometric and square-root functions are a `Libm` parameter,
  constrained by `Lawful`.
- Orbits.PointAtPi and Orbits.ApsidesOnEllipse also require
  `ExactHalfTurn`: `cos(PI) = -1` and `sin(PI) = 0` exactly. No true cosine
  meets this at the rational `PI = TAU / 2`, whose true sine is about
  2.4e-16. The two lemmas therefore describe the idealised half turn, not
  the `f64` result at true anomaly `TAU / 2`.
- `TAU` is the real number written as `6.283185307179586` in the source.
  The `f64` it denotes is about 2.3e-16 larger, so the range test of
  `approx_inv_kepler` rejects a mean anomaly of exactly that `f64` in the
  model but accepts it in the source.
- `Plane::to_matrix` and `PlanarTrajectory::period` (src/orbits.rs:23-41)
  are left out. They are 3D rotation and period formulas, outside the
  planar geometry modelled here.
- `Trajectory` (src/orbits.rs:7-10) is left out. It is plain data that
  pairs a plane with a planar trajectory.
- src/render.rs, src/main.rs and src/gui/ are not part of this model. They
  hold drawing, windowing and the event loop.
