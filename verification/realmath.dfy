/** Real-number stand-ins for the float helpers of core/tracer.h.

    Every `float` of the renderer is modelled as a Dafny `real`: rounding,
    NaN and the IEEE infinities are not modelled. The renderer's INFINITY is
    the macro FLT_MAX, the largest finite float, so it is a plain constant here.
 */
module RealMath {

  /** FLT_MAX, which the renderer calls INFINITY. */
  const Infinity: real := 340282346638528859811704183484516925440.0

  /** True when a finite float could hold a value of this magnitude
      (only the range is modelled, not the precision). */
  predicate IsFloat(x: real) {
    -Infinity <= x <= Infinity
  }

  /** `sqrtf` has no definition over Dafny's reals, so every operation that
      takes a square root receives one as a parameter obeying this law. */
  ghost predicate IsSqrt(sqrt: real -> real) {
    forall x: real {:trigger sqrt(x)} :: 0.0 <= x ==> 0.0 <= sqrt(x) && sqrt(x) * sqrt(x) == x
  }

  /** fabsf */
  function Abs(x: real): (r: real)
    ensures 0.0 <= r
    ensures r == x || r == -x
  {
    if x < 0.0 then -x else x
  }

  /** std::min, which returns its first argument unless the second is smaller. */
  function Min(a: real, b: real): (r: real)
    ensures r <= a && r <= b
    ensures r == a || r == b
  {
    if b < a then b else a
  }

  /** std::max, which returns its first argument unless the second is larger. */
  function Max(a: real, b: real): (r: real)
    ensures a <= r && b <= r
    ensures r == a || r == b
  {
    if a < b then b else a
  }

  /** Linear interpolation between v1 (at t = 0) and v2 (at t = 1). */
  function Lerp(t: real, v1: real, v2: real): (r: real)
    ensures t == 0.0 ==> r == v1
    ensures t == 1.0 ==> r == v2
    ensures v1 != v2 ==> (r - v1) / (v2 - v1) == t
  {
    v1 + t * (v2 - v1)
  }

  /** a·b behind a function symbol. The solver rewrites comparisons of a raw
      square with zero in ways that lose information, so sign facts about
      products are stated on Mul. */
  function Mul(a: real, b: real): real {
    a * b
  }

  lemma MulPositive(a: real, b: real)
    requires 0.0 < a && 0.0 < b
    ensures 0.0 < Mul(a, b)
  {
  }

  /** A square is non-negative, and positive unless its root is zero. */
  lemma SquareSign(a: real)
    ensures 0.0 <= Mul(a, a)
    ensures a != 0.0 ==> 0.0 < Mul(a, a)
  {
    if 0.0 < a {
      MulPositive(a, a);
    } else if a < 0.0 {
      MulPositive(-a, -a);
      assert Mul(-a, -a) == Mul(a, a);
    }
  }

  lemma ZeroQuotient(x: real, y: real)
    requires x == 0.0 && y != 0.0
    ensures x / y == 0.0
  {
  }

  /** The square root of a positive number is positive, so it can divide. */
  lemma SqrtPositive(sqrt: real -> real, x: real)
    requires IsSqrt(sqrt)
    requires 0.0 < x
    ensures 0.0 < sqrt(x)
  {
    assert 0.0 <= sqrt(x) && sqrt(x) * sqrt(x) == x;
  }

  /** A non-negative square root is the one `sqrt` returns. */
  lemma SqrtUnique(sqrt: real -> real, x: real, s: real)
    requires IsSqrt(sqrt)
    requires 0.0 <= s && s * s == x
    ensures sqrt(x) == s
  {
    var q := sqrt(x);
    assert 0.0 <= q && q * q == x;
    assert (q - s) * (q + s) == 0.0;
    if q + s != 0.0 {
      assert q - s == ((q - s) * (q + s)) / (q + s);
    }
  }
}
