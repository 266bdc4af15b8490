/**
 * Arithmetic in the circle group R/pR (Euclidean mod, clamping, counterclockwise
 * interpolation and signed difference of angles), polar coordinates, and the two 3x3
 * matrix products the converters need. As in the library, no operation counts laps:
 * angles are only ever compared after reduction into [0, p).
 */
module Arithmetic {
  import opened JsBuiltins

  datatype Vec2 = Vec2(x0: real, x1: real)
  datatype Vec3 = Vec3(x0: real, x1: real, x2: real)
  datatype Mat33 = Mat33(r0: Vec3, r1: Vec3, r2: Vec3)

  /** Math.PI * 2, as the double it evaluates to. */
  const TWO_PI: real := 6.283185307179586

  /** a and b denote the same point of R/dR. */
  ghost predicate Congruent(a: real, b: real, d: real)
  {
    exists k: int :: a - b == Times(k, d)
  }

  /**
   * Euclidean modulo: the remainder of JavaScript's truncating `%`, shifted up by the
   * divisor when it is negative. (A zero divisor gives NaN in the source and is excluded.)
   */
  function Mod(dividend: real, divisor: real): (r: real)
    requires divisor != 0.0
    ensures divisor > 0.0 ==> 0.0 <= r < divisor
  {
    var x := JsRem(dividend, divisor);
    JsRemBounds(dividend, divisor);
    if x >= 0.0 then x else x + divisor
  }

  /** Laps add like their counts. */
  lemma LapsAdd(j: int, k: int, d: real)
    ensures Times(j, d) + Times(k, d) == Times(j + k, d)
  {
  }

  /** Mod stays in the class of its dividend: the two differ by whole laps. */
  lemma ModCongruent(dividend: real, divisor: real)
    requires divisor != 0.0
    ensures Congruent(dividend, Mod(dividend, divisor), divisor)
  {
    var x := JsRem(dividend, divisor);
    var k := Trunc(dividend / divisor);
    if x >= 0.0 {
      assert dividend - Mod(dividend, divisor) == Times(k, divisor);
    } else {
      LapsAdd(k - 1, 1, divisor);
      assert dividend - Mod(dividend, divisor) == Times(k - 1, divisor);
    }
  }

  lemma IntegerMultipleBelowOneLap(j: int, d: real)
    requires d > 0.0 && -d < Times(j, d) < d
    ensures j == 0
  {
    WholeLaps(j, d);
  }

  lemma WholeLaps(j: int, d: real)
    requires d > 0.0
    ensures j >= 1 ==> Times(j, d) >= d
    ensures j <= -1 ==> Times(j, d) <= -d
  {
    if j >= 1 {
      assert Times(j, d) == d + (j - 1) as real * d;
      NonNegativeProduct((j - 1) as real, d);
    } else if j <= -1 {
      assert Times(j, d) == -d - (-j - 1) as real * d;
      NonNegativeProduct((-j - 1) as real, d);
    }
  }

  lemma NonNegativeProduct(a: real, b: real)
    requires a >= 0.0 && b >= 0.0
    ensures a * b >= 0.0
  {
  }

  /** The representative in [0, d) of a class of R/dR is unique. */
  lemma ModUnique(a: real, r: real, d: real)
    requires d > 0.0 && 0.0 <= r < d && Congruent(a, r, d)
    ensures Mod(a, d) == r
  {
    var m := Mod(a, d);
    ModCongruent(a, d);
    var k1: int :| a - r == Times(k1, d);
    var k2: int :| a - m == Times(k2, d);
    LapsAdd(k1 - k2, k2, d);
    assert m - r == Times(k1 - k2, d);
    IntegerMultipleBelowOneLap(k1 - k2, d);
  }

  /** Congruent points have the same reduction. */
  lemma {:induction false} ModOfCongruent(a: real, b: real, d: real)
    requires d > 0.0 && Congruent(a, b, d)
    ensures Mod(a, d) == Mod(b, d)
  {
    var k: int :| a - b == Times(k, d);
    var m := Mod(b, d);
    ModCongruent(b, d);
    var j: int :| b - m == Times(j, d);
    LapsAdd(k, j, d);
    assert a - m == Times(k + j, d);
    ModUnique(a, m, d);
  }

  /** Mod is periodic: adding whole laps does not change it. */
  lemma ModPeriodic(a: real, k: int, d: real)
    requires d > 0.0
    ensures Mod(a + Times(k, d), d) == Mod(a, d)
  {
    assert (a + Times(k, d)) - a == Times(k, d);
    ModOfCongruent(a + Times(k, d), a, d);
  }

  /** Mod leaves a value already in [0, d) alone. */
  lemma ModOfReduced(a: real, d: real)
    requires 0.0 <= a < d
    ensures Mod(a, d) == a
  {
    assert a - a == Times(0, d);
    ModUnique(a, a, d);
  }

  /** Math.min(Math.max(x, min), max) */
  function Clamp(x: real, min: real, max: real): (r: real)
    ensures min <= max ==> min <= r <= max
    ensures min <= x <= max ==> r == x
    ensures x < min <= max ==> r == min
    ensures min <= max < x ==> r == max
  {
    Min(Max(x, min), max)
  }

  /** [sqrt(x² + y²), atan2(y, x)] with the angle scaled to the given perimeter and reduced into [0, perimeter). */
  function CartesianToPolar(m: Transcendental, x: real, y: real, perimeter: real := TWO_PI): (r: Vec2)
    requires perimeter > 0.0
    ensures 0.0 <= r.x1 < perimeter
  {
    var factor := perimeter / TWO_PI;
    Vec2(m.sqrt(x * x + y * y), Mod(m.atan2(y, x) * factor, perimeter))
  }

  /** [r cos θ, r sin θ] with θ measured on a circle of the given perimeter. */
  function PolarToCartesian(m: Transcendental, r: real, theta: real, perimeter: real := TWO_PI): (v: Vec2)
    requires perimeter != 0.0
    ensures r == 0.0 ==> v == Vec2(0.0, 0.0)
  {
    var factor := TWO_PI / perimeter;
    var hueRad := theta * factor;
    Vec2(r * m.cos(hueRad), r * m.sin(hueRad))
  }

  /**
   * x lies on the counterclockwise arc that starts at `from` and ends at `to`, all three
   * being reduced angles.
   */
  predicate OnArc(x: real, from: real, to: real)
  {
    if from <= to then from <= x <= to else from <= x || x <= to
  }

  /**
   * Counterclockwise linear interpolation from theta1 to theta2. amount = 1 returns the
   * reduced theta2 itself, and the final Math.min guards against rounding past theta2.
   */
  function CircularLerp(amount: real, theta1: real, theta2: real, perimeter: real := TWO_PI): (r: real)
    requires perimeter > 0.0
    ensures amount == 1.0 ==> r == Mod(theta2, perimeter)
    ensures amount == 0.0 ==> r == Mod(theta1, perimeter)
    ensures Mod(theta1, perimeter) == Mod(theta2, perimeter) ==> r == Mod(theta1, perimeter)
  {
    LerpReduced(amount, Mod(theta1, perimeter), Mod(theta2, perimeter), perimeter)
  }

  /** The body of CircularLerp once both endpoints are reduced into [0, perimeter). */
  function LerpReduced(amount: real, theta1Mod: real, theta2Mod: real, perimeter: real): (r: real)
    ensures amount == 1.0 ==> r == theta2Mod
  {
    if amount == 1.0 then theta2Mod
    else
      var res := Convex(theta1Mod, if theta1Mod > theta2Mod then theta2Mod + perimeter else theta2Mod, amount);
      if res >= perimeter then Min(res - perimeter, theta2Mod) else res
  }

  /** The point `amount` of the way from c1 to c2. */
  function Convex(c1: real, c2: real, amount: real): real
  {
    c1 * (1.0 - amount) + c2 * amount
  }

  /** The part `amount` of a span. */
  function Fraction(amount: real, span: real): real
  {
    amount * span
  }

  /** The blend of a and b (or of a and b + p when the arc wraps) moves `amount` of the way along the arc. */
  lemma LerpAlongSpan(amount: real, a: real, c: real)
    requires 0.0 <= amount <= 1.0 && a <= c
    ensures var res := Convex(a, c, amount);
      a <= res <= c && res - a == Fraction(amount, c - a)
  {
    var res := Convex(a, c, amount);
    assert res - a == amount * (c - a);
    NonNegativeProduct(amount, c - a);
    NonNegativeProduct(1.0 - amount, c - a);
    assert c - res == (1.0 - amount) * (c - a);
  }

  /**
   * CircularLerp on already reduced endpoints a and b: span is the counterclockwise arc
   * length from a to b, and r lies `amount` of that span past a, possibly one lap back.
   */
  lemma ReducedLerp(amount: real, a: real, b: real, p: real, r: real) returns (span: real, step: real)
    requires p > 0.0 && 0.0 <= a < p && 0.0 <= b < p && 0.0 <= amount <= 1.0
    requires r == LerpReduced(amount, a, b, p)
    ensures 0.0 <= r < p && OnArc(r, a, b)
    ensures span == (if a > b then b + p - a else b - a) && step == Fraction(amount, span)
    ensures 0.0 <= step < p && (r - a - step == 0.0 || r - a - step == -p)
  {
    var c := if a > b then b + p else b;
    span := c - a;
    step := Fraction(amount, span);
    LerpAlongSpan(amount, a, c);
    if amount == 1.0 {
      assert step == span;
    } else {
      var res := Convex(a, c, amount);
      assert res - a == step;
      if res >= p {
        assert a > b && r == res - p;
      } else {
        assert r == res;
      }
    }
  }

  lemma LerpDistances(a: real, b: real, r: real, p: real, span: real, step: real)
    requires p > 0.0 && 0.0 <= a < p && 0.0 <= b < p
    requires span == (if a > b then b + p - a else b - a)
    requires 0.0 <= step < p && (r - a - step == 0.0 || r - a - step == -p)
    ensures Mod(r - a, p) == step && Mod(b - a, p) == span
  {
    if r - a - step == 0.0 {
      assert r - a - step == Times(0, p);
    } else {
      assert r - a - step == Times(-1, p);
    }
    ModUnique(r - a, step, p);
    if a > b {
      assert (b - a) - span == Times(-1, p);
    } else {
      assert (b - a) - span == Times(0, p);
    }
    ModUnique(b - a, span, p);
  }

  /**
   * For amount in [0, 1] the interpolated angle is reduced, lies on the counterclockwise
   * arc from theta1 to theta2, and its counterclockwise distance from theta1 is `amount`
   * times the distance from theta1 to theta2.
   */
  lemma CircularLerpOnArc(amount: real, theta1: real, theta2: real, perimeter: real)
    requires perimeter > 0.0 && 0.0 <= amount <= 1.0
    ensures 0.0 <= CircularLerp(amount, theta1, theta2, perimeter) < perimeter
    ensures OnArc(CircularLerp(amount, theta1, theta2, perimeter), Mod(theta1, perimeter), Mod(theta2, perimeter))
    ensures Mod(CircularLerp(amount, theta1, theta2, perimeter) - Mod(theta1, perimeter), perimeter)
      == Fraction(amount, Mod(Mod(theta2, perimeter) - Mod(theta1, perimeter), perimeter))
  {
    LerpOnArcReduced(amount, Mod(theta1, perimeter), Mod(theta2, perimeter), perimeter,
                     CircularLerp(amount, theta1, theta2, perimeter));
  }

  lemma LerpOnArcReduced(amount: real, a: real, b: real, p: real, r: real)
    requires p > 0.0 && 0.0 <= a < p && 0.0 <= b < p && 0.0 <= amount <= 1.0
    requires r == LerpReduced(amount, a, b, p)
    ensures 0.0 <= r < p && OnArc(r, a, b) && Mod(r - a, p) == Fraction(amount, Mod(b - a, p))
  {
    var span, step := ReducedLerp(amount, a, b, p, r);
    LerpDistances(a, b, r, p, span, step);
  }

  /**
   * For amount in [0, 1] the interpolated angle splits the arc: the counterclockwise
   * distances theta1 to it and it to theta2 add up to the distance theta1 to theta2.
   */
  lemma CircularLerpSplitsArc(amount: real, theta1: real, theta2: real, perimeter: real)
    requires perimeter > 0.0 && 0.0 <= amount <= 1.0
    ensures var r := CircularLerp(amount, theta1, theta2, perimeter);
      var a := Mod(theta1, perimeter); var b := Mod(theta2, perimeter);
      Mod(r - a, perimeter) + Mod(b - r, perimeter) == Mod(b - a, perimeter)
  {
    var r := CircularLerp(amount, theta1, theta2, perimeter);
    var a, b := Mod(theta1, perimeter), Mod(theta2, perimeter);
    var span, step := ReducedLerp(amount, a, b, perimeter, r);
    LerpDistances(a, b, r, perimeter, span, step);
    NonNegativeProduct(1.0 - amount, span);
    ArcRemainder(a, b, r, perimeter, span, step);
  }

  lemma ArcRemainder(a: real, b: real, r: real, p: real, span: real, step: real)
    requires p > 0.0 && 0.0 <= a < p && 0.0 <= b < p
    requires span == (if a > b then b + p - a else b - a) && 0.0 <= step <= span
    requires r - a - step == 0.0 || r - a - step == -p
    ensures Mod(b - r, p) == span - step
  {
    var d := (b - r) - (span - step);
    assert d == (b - a - span) - (r - a - step);
    if d == 0.0 {
      assert d == Times(0, p);
    } else if d == p {
      assert d == Times(1, p);
    } else {
      assert d == Times(-1, p);
    }
    ModUnique(b - r, span - step, p);
  }

  /**
   * The signed difference Δ of theta1 and theta2 in R/pR: theta2 + Δ ≡ theta1 and
   * -p/2 < Δ <= p/2.
   */
  function CircularDelta(theta1: real, theta2: real, perimeter: real := TWO_PI): (r: real)
    requires perimeter > 0.0
    ensures -perimeter / 2.0 < r <= perimeter / 2.0
    ensures Congruent(theta2 + r, theta1, perimeter)
  {
    var d := Mod(theta1 - theta2, perimeter);
    ModCongruent(theta1 - theta2, perimeter);
    var k: int :| theta1 - theta2 - d == Times(k, perimeter);
    if d <= perimeter / 2.0 then
      LapsAdd(k, -k, perimeter);
      assert theta2 + d - theta1 == Times(-k, perimeter);
      d
    else
      LapsAdd(k, -k, perimeter);
      LapsAdd(-k, -1, perimeter);
      assert theta2 + (d - perimeter) - theta1 == Times(-k - 1, perimeter);
      d - perimeter
  }

  /** Any Δ with the two properties of CircularDelta is CircularDelta. */
  lemma {:induction false} CircularDeltaUnique(theta1: real, theta2: real, perimeter: real, delta: real)
    requires perimeter > 0.0
    requires -perimeter / 2.0 < delta <= perimeter / 2.0
    requires Congruent(theta2 + delta, theta1, perimeter)
    ensures delta == CircularDelta(theta1, theta2, perimeter)
  {
    var r := CircularDelta(theta1, theta2, perimeter);
    var k1: int :| theta2 + delta - theta1 == Times(k1, perimeter);
    var k2: int :| theta2 + r - theta1 == Times(k2, perimeter);
    LapsAdd(k1 - k2, k2, perimeter);
    assert delta - r == Times(k1 - k2, perimeter);
    IntegerMultipleBelowOneLap(k1 - k2, perimeter);
  }

  function MultMatrixVector(A: Mat33, x: Vec3): Vec3
  {
    Vec3(
      A.r0.x0 * x.x0 + A.r0.x1 * x.x1 + A.r0.x2 * x.x2,
      A.r1.x0 * x.x0 + A.r1.x1 * x.x1 + A.r1.x2 * x.x2,
      A.r2.x0 * x.x0 + A.r2.x1 * x.x1 + A.r2.x2 * x.x2)
  }

  function Dot(u: Vec3, v: Vec3): real
  {
    u.x0 * v.x0 + u.x1 * v.x1 + u.x2 * v.x2
  }

  function MultMatrixMatrix(A: Mat33, B: Mat33): Mat33
  {
    Mat33(
      Vec3(
        A.r0.x0 * B.r0.x0 + A.r0.x1 * B.r1.x0 + A.r0.x2 * B.r2.x0,
        A.r0.x0 * B.r0.x1 + A.r0.x1 * B.r1.x1 + A.r0.x2 * B.r2.x1,
        A.r0.x0 * B.r0.x2 + A.r0.x1 * B.r1.x2 + A.r0.x2 * B.r2.x2),
      Vec3(
        A.r1.x0 * B.r0.x0 + A.r1.x1 * B.r1.x0 + A.r1.x2 * B.r2.x0,
        A.r1.x0 * B.r0.x1 + A.r1.x1 * B.r1.x1 + A.r1.x2 * B.r2.x1,
        A.r1.x0 * B.r0.x2 + A.r1.x1 * B.r1.x2 + A.r1.x2 * B.r2.x2),
      Vec3(
        A.r2.x0 * B.r0.x0 + A.r2.x1 * B.r1.x0 + A.r2.x2 * B.r2.x0,
        A.r2.x0 * B.r0.x1 + A.r2.x1 * B.r1.x1 + A.r2.x2 * B.r2.x1,
        A.r2.x0 * B.r0.x2 + A.r2.x1 * B.r1.x2 + A.r2.x2 * B.r2.x2))
  }

  const IDENTITY: Mat33 := Mat33(Vec3(1.0, 0.0, 0.0), Vec3(0.0, 1.0, 0.0), Vec3(0.0, 0.0, 1.0))

  /** (A·B)·x = A·(B·x): applying a product matrix is applying its factors in turn. */
  lemma MultMatrixMatrixVector(A: Mat33, B: Mat33, x: Vec3)
    ensures MultMatrixVector(MultMatrixMatrix(A, B), x) == MultMatrixVector(A, MultMatrixVector(B, x))
  {
    var y := MultMatrixVector(B, x);
    var lhs := MultMatrixVector(MultMatrixMatrix(A, B), x);
    var rhs := MultMatrixVector(A, y);
    assert y == Vec3(Dot(B.r0, x), Dot(B.r1, x), Dot(B.r2, x));
    RowTimesProduct(A.r0, B, x);
    assert lhs.x0 == rhs.x0;
    RowTimesProduct(A.r1, B, x);
    assert lhs.x1 == rhs.x1;
    RowTimesProduct(A.r2, B, x);
    assert lhs.x2 == rhs.x2;
  }

  lemma RowTimesProduct(a: Vec3, B: Mat33, x: Vec3)
    ensures (a.x0 * B.r0.x0 + a.x1 * B.r1.x0 + a.x2 * B.r2.x0) * x.x0
          + (a.x0 * B.r0.x1 + a.x1 * B.r1.x1 + a.x2 * B.r2.x1) * x.x1
          + (a.x0 * B.r0.x2 + a.x1 * B.r1.x2 + a.x2 * B.r2.x2) * x.x2
         == a.x0 * Dot(B.r0, x) + a.x1 * Dot(B.r1, x) + a.x2 * Dot(B.r2, x)
  {
  }

  /** The identity matrix leaves vectors and matrices unchanged. */
  lemma IdentityNeutral(x: Vec3, A: Mat33)
    ensures MultMatrixVector(IDENTITY, x) == x
    ensures MultMatrixMatrix(IDENTITY, A) == A
    ensures MultMatrixMatrix(A, IDENTITY) == A
  {
  }
}
