/**
 * The floating-point primitives the orbit code calls (`sin`, `cos`, `sqrt`,
 * `atan2`) and the constants it uses. The primitives are not definable over
 * the reals in Dafny, so they are carried by a `Libm` value that every
 * operation needing them takes as a parameter; `Lawful` states the identities
 * the proofs rely on.
 */
module Numerics {

  /**
   * `TAU` from the `tau` crate, written as the shortest decimal that rounds to
   * that f64; the real literal lies about 2.3e-16 below the f64 value itself.
   */
  const TAU: real := 6.283185307179586

  /** Half a turn; only `ExactHalfTurn` takes `cos(PI) == -1` and `sin(PI) == 0` as exact. */
  const PI: real := TAU / 2.0

  datatype Libm = Libm(
    sin: real -> real,
    cos: real -> real,
    sqrt: real -> real,
    atan2: (real, real) -> real)

  /** The facts about the primitives that the properties below need. */
  ghost predicate Lawful(m: Libm) {
    && (forall x :: m.sin(x) * m.sin(x) + m.cos(x) * m.cos(x) == 1.0)
    && (forall x :: -1.0 <= m.cos(x) <= 1.0)
    && m.cos(0.0) == 1.0 && m.sin(0.0) == 0.0
    && (forall x :: x >= 0.0 ==> m.sqrt(x) >= 0.0 && m.sqrt(x) * m.sqrt(x) == x)
  }

  /**
   * The primitives treat `PI` as an exact half turn. The true sine of the
   * rational `PI` is about 2.4e-16, not 0, so this idealisation is kept apart
   * from `Lawful` and required only by the statements about the apoapsis.
   */
  ghost predicate ExactHalfTurn(m: Libm) {
    m.cos(PI) == -1.0 && m.sin(PI) == 0.0
  }

  function Abs(x: real): real {
    if x < 0.0 then -x else x
  }

  /** The square root is the unique non-negative root. */
  lemma SqrtUnique(m: Libm, x: real, y: real)
    requires Lawful(m)
    requires y >= 0.0 && y * y == x
    ensures m.sqrt(x) == y
  {
    var s := m.sqrt(x);
    assert s >= 0.0 && s * s == x;
    RootUnique(s, y, x);
  }

  lemma RootUnique(s: real, y: real, x: real)
    requires s >= 0.0 && s * s == x && y >= 0.0 && y * y == x
    ensures s == y
  {
    assert (s - y) * (s + y) == 0.0;
    if s + y != 0.0 {
      ProductZero(s - y, s + y);
    }
  }

  lemma ProductZero(a: real, b: real)
    requires a * b == 0.0 && b != 0.0
    ensures a == 0.0
  {
  }

  /** A product of two positive numbers, named d, is positive. */
  lemma ProductPositive(a: real, b: real, d: real)
    requires a > 0.0 && b > 0.0 && d == a * b
    ensures d > 0.0
  {
  }

  /** The square of a non-zero number, named d, is positive. */
  lemma SquarePositive(x: real, d: real)
    requires x != 0.0 && d == x * x
    ensures d > 0.0
  {
    if x > 0.0 {
      ProductPositive(x, x, d);
    } else {
      ProductPositive(-x, -x, d);
    }
  }
}
