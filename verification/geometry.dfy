/** Vectors, points, normals and rays of core/geometry.h and core/geometry.cpp.

    The three triples are kept as distinct types, as in the renderer: a point
    minus a point is a vector, a point plus a vector is a point, and a normal
    converts to or from a vector only explicitly. Operations that need a square
    root receive `sqrt` as a parameter (see RealMath.IsSqrt).
 */
module Geometry {
  import opened RealMath

  datatype Vector = Vector(x: real, y: real, z: real)
  datatype Point = Point(x: real, y: real, z: real)
  datatype Normal = Normal(x: real, y: real, z: real)

  /** A ray segment o + t·d for t in [mint, maxt], with the time it was cast
      and the number of bounces that produced it. */
  datatype Ray = Ray(o: Point, d: Vector, mint: real, maxt: real, time: real, depth: nat)

  /** The default-constructed values: all coordinates zero. */
  const ZeroVector := Vector(0.0, 0.0, 0.0)
  const Origin := Point(0.0, 0.0, 0.0)
  const ZeroNormal := Normal(0.0, 0.0, 0.0)

  // ---------------------------------------------------------------------------
  // Conversions

  /** The explicit Vector(const Normal&) constructor. */
  function VectorOfNormal(n: Normal): Vector {
    Vector(n.x, n.y, n.z)
  }

  /** The explicit Normal(const Vector&) constructor. */
  function NormalOfVector(v: Vector): Normal {
    Normal(v.x, v.y, v.z)
  }

  /** Vector(p.x, p.y, p.z): the position of a point relative to the origin. */
  function VectorOfPoint(p: Point): Vector {
    Vector(p.x, p.y, p.z)
  }

  lemma NormalVectorRoundTrip(v: Vector, n: Normal)
    ensures VectorOfNormal(NormalOfVector(v)) == v
    ensures NormalOfVector(VectorOfNormal(n)) == n
  {
  }

  // ---------------------------------------------------------------------------
  // Vector arithmetic (the compound forms +=, -=, *=, /= compute the same values)

  function Add(a: Vector, b: Vector): Vector {
    Vector(a.x + b.x, a.y + b.y, a.z + b.z)
  }

  function Sub(a: Vector, b: Vector): Vector {
    Vector(a.x - b.x, a.y - b.y, a.z - b.z)
  }

  /** v * f, and also f * v, which the renderer defines as v * f. */
  function Scale(v: Vector, f: real): Vector {
    Vector(v.x * f, v.y * f, v.z * f)
  }

  /** v / f multiplies by the reciprocal; the renderer asserts f != 0. */
  function Div(v: Vector, f: real): (r: Vector)
    requires f != 0.0
    ensures Scale(r, f) == v
  {
    var inv := 1.0 / f;
    Vector(v.x * inv, v.y * inv, v.z * inv)
  }

  function Neg(v: Vector): Vector {
    Vector(-v.x, -v.y, -v.z)
  }

  /** operator[]: coordinate i of v, for i in 0..2 (the renderer asserts i <= 2). */
  function Index(v: Vector, i: nat): (r: real)
    requires i <= 2
    ensures i == 0 ==> r == v.x
    ensures i == 1 ==> r == v.y
    ensures i == 2 ==> r == v.z
  {
    if i == 0 then v.x else if i == 1 then v.y else v.z
  }

  function LengthSquared(v: Vector): (r: real)
    ensures 0.0 <= r
    ensures r == 0.0 <==> v == ZeroVector
  {
    SquareSign(v.x);
    SquareSign(v.y);
    SquareSign(v.z);
    v.x * v.x + v.y * v.y + v.z * v.z
  }

  function Length(v: Vector, sqrt: real -> real): (r: real)
    requires IsSqrt(sqrt)
    ensures 0.0 <= r && r * r == LengthSquared(v)
    ensures r == 0.0 <==> v == ZeroVector
  {
    var s := LengthSquared(v);
    assert 0.0 <= sqrt(s) && sqrt(s) * sqrt(s) == s;
    SquareSign(sqrt(s));
    sqrt(s)
  }

  lemma VectorRoundTrips(a: Vector, b: Vector, f: real)
    ensures Sub(Add(a, b), b) == a
    ensures Add(Sub(a, b), b) == a
    ensures Add(a, Neg(a)) == ZeroVector
    ensures Neg(Neg(a)) == a
    ensures f != 0.0 ==> Div(Scale(a, f), f) == a
  {
    if f != 0.0 {
      var r := Div(Scale(a, f), f);
      assert r.x == (a.x * f) * (1.0 / f);
    }
  }

  // ---------------------------------------------------------------------------
  // Point arithmetic

  /** p + v */
  function PointAdd(p: Point, v: Vector): Point {
    Point(p.x + v.x, p.y + v.y, p.z + v.z)
  }

  /** p - v */
  function PointSub(p: Point, v: Vector): Point {
    Point(p.x - v.x, p.y - v.y, p.z - v.z)
  }

  /** p - q, the vector leading from q to p. */
  function PointDiff(p: Point, q: Point): Vector {
    Vector(p.x - q.x, p.y - q.y, p.z - q.z)
  }

  /** p + q, used for weighted sums of points. */
  function PointSum(p: Point, q: Point): Point {
    Point(p.x + q.x, p.y + q.y, p.z + q.z)
  }

  function PointScale(p: Point, f: real): Point {
    Point(p.x * f, p.y * f, p.z * f)
  }

  /** p / f divides each coordinate; the renderer asserts f != 0. */
  function PointDiv(p: Point, f: real): (r: Point)
    requires f != 0.0
    ensures PointScale(r, f) == p
  {
    Point(p.x / f, p.y / f, p.z / f)
  }

  function PointIndex(p: Point, i: nat): (r: real)
    requires i <= 2
    ensures i == 0 ==> r == p.x
    ensures i == 1 ==> r == p.y
    ensures i == 2 ==> r == p.z
  {
    if i == 0 then p.x else if i == 1 then p.y else p.z
  }

  /** Points and vectors form an affine space. */
  lemma AffineRoundTrip(p: Point, q: Point, v: Vector)
    ensures PointAdd(p, PointDiff(q, p)) == q
    ensures PointDiff(PointAdd(p, v), p) == v
    ensures PointSub(PointAdd(p, v), v) == p
    ensures PointDiff(p, q) == Neg(PointDiff(q, p))
  {
  }

  // ---------------------------------------------------------------------------
  // Normal arithmetic

  function NormalAdd(a: Normal, b: Normal): Normal {
    Normal(a.x + b.x, a.y + b.y, a.z + b.z)
  }

  function NormalSub(a: Normal, b: Normal): Normal {
    Normal(a.x - b.x, a.y - b.y, a.z - b.z)
  }

  /** n * f, and also f * n. */
  function NormalScale(n: Normal, f: real): Normal {
    Normal(n.x * f, n.y * f, n.z * f)
  }

  /** n / f multiplies by the reciprocal; the renderer asserts f != 0. */
  function NormalDiv(n: Normal, f: real): (r: Normal)
    requires f != 0.0
    ensures NormalScale(r, f) == n
  {
    var inv := 1.0 / f;
    Normal(n.x * inv, n.y * inv, n.z * inv)
  }

  function NormalNeg(n: Normal): Normal {
    Normal(-n.x, -n.y, -n.z)
  }

  function NormalIndex(n: Normal, i: nat): (r: real)
    requires i <= 2
    ensures i == 0 ==> r == n.x
    ensures i == 1 ==> r == n.y
    ensures i == 2 ==> r == n.z
  {
    if i == 0 then n.x else if i == 1 then n.y else n.z
  }

  function NormalLengthSquared(n: Normal): (r: real)
    ensures r == LengthSquared(VectorOfNormal(n))
  {
    n.x * n.x + n.y * n.y + n.z * n.z
  }

  function NormalLength(n: Normal, sqrt: real -> real): (r: real)
    requires IsSqrt(sqrt)
    ensures r == Length(VectorOfNormal(n), sqrt)
  {
    sqrt(NormalLengthSquared(n))
  }

  /** Normal arithmetic is vector arithmetic under the explicit conversion. */
  lemma NormalArithmeticIsVectorArithmetic(a: Normal, b: Normal, f: real)
    ensures VectorOfNormal(NormalAdd(a, b)) == Add(VectorOfNormal(a), VectorOfNormal(b))
    ensures VectorOfNormal(NormalSub(a, b)) == Sub(VectorOfNormal(a), VectorOfNormal(b))
    ensures VectorOfNormal(NormalScale(a, f)) == Scale(VectorOfNormal(a), f)
    ensures VectorOfNormal(NormalNeg(a)) == Neg(VectorOfNormal(a))
    ensures f != 0.0 ==> VectorOfNormal(NormalDiv(a, f)) == Div(VectorOfNormal(a), f)
  {
  }

  // ---------------------------------------------------------------------------
  // Products

  function Dot(a: Vector, b: Vector): real {
    a.x * b.x + a.y * b.y + a.z * b.z
  }

  /** Dot(Normal, Normal) */
  function DotNN(a: Normal, b: Normal): (r: real)
    ensures r == Dot(VectorOfNormal(a), VectorOfNormal(b))
  {
    a.x * b.x + a.y * b.y + a.z * b.z
  }

  /** Dot(Normal, Vector) */
  function DotNV(n: Normal, v: Vector): (r: real)
    ensures r == Dot(VectorOfNormal(n), v)
  {
    n.x * v.x + n.y * v.y + n.z * v.z
  }

  /** Dot(Vector, Normal) */
  function DotVN(v: Vector, n: Normal): (r: real)
    ensures r == Dot(v, VectorOfNormal(n))
    ensures r == DotNV(n, v)
  {
    v.x * n.x + v.y * n.y + v.z * n.z
  }

  function AbsDot(a: Vector, b: Vector): (r: real)
    ensures 0.0 <= r
    ensures r == Dot(a, b) || r == -Dot(a, b)
  {
    Abs(Dot(a, b))
  }

  function AbsDotNN(a: Normal, b: Normal): (r: real)
    ensures r == AbsDot(VectorOfNormal(a), VectorOfNormal(b))
  {
    Abs(DotNN(a, b))
  }

  function AbsDotNV(n: Normal, v: Vector): (r: real)
    ensures r == AbsDot(VectorOfNormal(n), v)
  {
    Abs(DotNV(n, v))
  }

  function AbsDotVN(v: Vector, n: Normal): (r: real)
    ensures r == AbsDot(v, VectorOfNormal(n))
  {
    Abs(DotVN(v, n))
  }

  /** Right-handed cross product: Cross((1,0,0), (0,1,0)) = (0,0,1). */
  function Cross(a: Vector, b: Vector): Vector {
    Vector(a.y * b.z - a.z * b.y,
           a.z * b.x - a.x * b.z,
           a.x * b.y - a.y * b.x)
  }

  /** Dot is symmetric, and every Normal/Vector overload computes the same value. */
  lemma DotSymmetric(a: Vector, b: Vector, m: Normal, n: Normal)
    ensures Dot(a, b) == Dot(b, a)
    ensures DotNN(m, n) == DotNN(n, m)
    ensures DotNV(n, a) == DotVN(a, n) == Dot(VectorOfNormal(n), a)
    ensures 0.0 <= AbsDot(a, b) && 0.0 <= AbsDotNN(m, n)
    ensures 0.0 <= AbsDotNV(n, a) && 0.0 <= AbsDotVN(a, n)
  {
  }

  /** Negating either argument negates the dot product. */
  lemma DotNeg(a: Vector, b: Vector)
    ensures Dot(Neg(a), b) == -Dot(a, b)
    ensures Dot(a, Neg(b)) == -Dot(a, b)
  {
    assert (-a.x) * b.x == -(a.x * b.x);
    assert (-a.y) * b.y == -(a.y * b.y);
    assert (-a.z) * b.z == -(a.z * b.z);
    assert a.x * (-b.x) == -(a.x * b.x);
    assert a.y * (-b.y) == -(a.y * b.y);
    assert a.z * (-b.z) == -(a.z * b.z);
  }

  /** The cross product is orthogonal to both of its arguments. */
  lemma CrossOrthogonal(a: Vector, b: Vector)
    ensures Dot(a, Cross(a, b)) == 0.0
    ensures Dot(b, Cross(a, b)) == 0.0
  {
  }

  lemma CrossAntiCommutative(a: Vector, b: Vector)
    ensures Cross(a, b) == Neg(Cross(b, a))
  {
  }

  /** |a × b|² = |a|²·|b|² − (a·b)², the identity behind the unit length of
      the third basis vector built by CoordinateSystem. */
  lemma {:induction false} CrossLengthSquared(a: Vector, b: Vector)
    ensures LengthSquared(Cross(a, b)) == LengthSquared(a) * LengthSquared(b) - Dot(a, b) * Dot(a, b)
  {
    var c := Cross(a, b);
    calc {
      LengthSquared(c);
      c.x * c.x + c.y * c.y + c.z * c.z;
      (a.y * b.z - a.z * b.y) * (a.y * b.z - a.z * b.y)
        + (a.z * b.x - a.x * b.z) * (a.z * b.x - a.x * b.z)
        + (a.x * b.y - a.y * b.x) * (a.x * b.y - a.y * b.x);
      (a.x * a.x + a.y * a.y + a.z * a.z) * (b.x * b.x + b.y * b.y + b.z * b.z)
        - (a.x * b.x + a.y * b.y + a.z * b.z) * (a.x * b.x + a.y * b.y + a.z * b.z);
    }
  }

  lemma CrossNeg(a: Vector, b: Vector)
    ensures Cross(a, Neg(b)) == Neg(Cross(a, b))
  {
  }

  lemma CrossSub(a: Vector, b: Vector, c: Vector)
    ensures Cross(a, Sub(b, c)) == Sub(Cross(a, b), Cross(a, c))
  {
  }

  /** Bilinearity of the cross product, used by the triangle edge tests. */
  lemma CrossLinear(a: Vector, b: Vector, c: Vector, s: real, t: real)
    ensures Cross(Add(Scale(a, s), Scale(b, t)), c) == Add(Scale(Cross(a, c), s), Scale(Cross(b, c), t))
  {
    CrossAddLeft(Scale(a, s), Scale(b, t), c);
    CrossScaleLeft(a, c, s);
    CrossScaleLeft(b, c, t);
  }

  lemma CrossAddLeft(a: Vector, b: Vector, c: Vector)
    ensures Cross(Add(a, b), c) == Add(Cross(a, c), Cross(b, c))
  {
  }

  lemma CrossScaleLeft(a: Vector, c: Vector, s: real)
    ensures Cross(Scale(a, s), c) == Scale(Cross(a, c), s)
  {
  }

  // ---------------------------------------------------------------------------
  // Normalisation, bases, distances

  /** v / |v|: the unit vector pointing the same way as v. */
  function Normalize(v: Vector, sqrt: real -> real): (r: Vector)
    requires IsSqrt(sqrt)
    requires v != ZeroVector
    ensures LengthSquared(r) == 1.0
    ensures Scale(r, Length(v, sqrt)) == v
  {
    var len := Length(v, sqrt);
    var r := Div(v, len);
    assert LengthSquared(r) * (len * len) == LengthSquared(v) by {
      assert Scale(r, len) == v;
    }
    r
  }

  lemma NormalizeIsScale(v: Vector, sqrt: real -> real)
    requires IsSqrt(sqrt)
    requires v != ZeroVector
    ensures Normalize(v, sqrt) == Scale(v, 1.0 / Length(v, sqrt))
  {
  }

  /** Dotting with a normalised vector divides the dot product by the length. */
  lemma NormalizeDot(v: Vector, w: Vector, sqrt: real -> real)
    requires IsSqrt(sqrt)
    requires v != ZeroVector
    ensures Dot(Normalize(v, sqrt), w) == Dot(v, w) / Length(v, sqrt)
  {
    var len := Length(v, sqrt);
    NormalizeIsScale(v, sqrt);
    ScaleDot(v, w, 1.0 / len);
  }

  /** n / |n| */
  function NormalizeNormal(n: Normal, sqrt: real -> real): (r: Normal)
    requires IsSqrt(sqrt)
    requires n != ZeroNormal
    ensures VectorOfNormal(r) == Normalize(VectorOfNormal(n), sqrt)
  {
    NormalDiv(n, NormalLength(n, sqrt))
  }

  /** Scaling multiplies the squared length by the square of the factor. */
  lemma LengthSquaredScale(v: Vector, k: real)
    ensures LengthSquared(Scale(v, k)) == Mul(k, k) * LengthSquared(v)
  {
    assert (v.x * k) * (v.x * k) == Mul(k, k) * (v.x * v.x);
    assert (v.y * k) * (v.y * k) == Mul(k, k) * (v.y * v.y);
    assert (v.z * k) * (v.z * k) == Mul(k, k) * (v.z * v.z);
  }

  lemma ScaleDot(v: Vector, w: Vector, k: real)
    ensures Dot(Scale(v, k), w) == k * Dot(v, w)
  {
    assert (v.x * k) * w.x + (v.y * k) * w.y + (v.z * k) * w.z == k * (v.x * w.x + v.y * w.y + v.z * w.z);
  }

  lemma DotScale(a: Vector, b: Vector, k: real)
    ensures Dot(a, Scale(b, k)) == k * Dot(a, b)
  {
    assert a.x * (b.x * k) + a.y * (b.y * k) + a.z * (b.z * k) == k * (a.x * b.x + a.y * b.y + a.z * b.z);
  }

  /** Dividing a non-zero vector by its length gives a unit vector. */
  lemma ScaledToUnit(w: Vector, k: real, sqrt: real -> real)
    requires IsSqrt(sqrt)
    requires 0.0 < LengthSquared(w)
    requires k == 1.0 / sqrt(LengthSquared(w))
    ensures LengthSquared(Scale(w, k)) == 1.0
  {
    var s := LengthSquared(w);
    var q := sqrt(s);
    SqrtPositive(sqrt, s);
    assert q * q == s;
    assert Mul(k, k) * s == (1.0 / q) * (1.0 / q) * (q * q);
    LengthSquaredScale(w, k);
  }

  /** Dropping one axis' component and turning the other two a quarter turn
      gives a vector orthogonal to the original. */
  lemma QuarterTurnsOrthogonal(v: Vector, w: Vector)
    requires w == Vector(-v.z, 0.0, v.x) || w == Vector(0.0, v.z, -v.y)
    ensures Dot(v, w) == 0.0
  {
    assert v.x * (-v.z) == -(v.z * v.x);
    assert v.y * (-v.y) == -(v.y * v.y);
    assert v.z * (-v.y) == -(v.y * v.z);
  }

  /** The vector CoordinateSystem scales to unit length: v1 turned a quarter
      turn about the y axis (or the x axis) with that axis' component dropped. */
  function QuarterTurn(v1: Vector): (w: Vector)
    ensures Dot(v1, w) == 0.0
  {
    if Abs(v1.x) > Abs(v1.y) then
      QuarterTurnsOrthogonal(v1, Vector(-v1.z, 0.0, v1.x));
      Vector(-v1.z, 0.0, v1.x)
    else
      QuarterTurnsOrthogonal(v1, Vector(0.0, v1.z, -v1.y));
      Vector(0.0, v1.z, -v1.y)
  }

  /** The squared length of the quarter-turned vector, which CoordinateSystem
      takes the root of and divides by, is positive for a vector of (nearly)
      unit length, in either branch. */
  lemma CoordinateSystemDivisor(v1: Vector, sqrt: real -> real)
    requires IsSqrt(sqrt)
    requires Abs(Length(v1, sqrt) - 1.0) < 0.001
    ensures 0.0 < LengthSquared(QuarterTurn(v1))
  {
    var len := Length(v1, sqrt);
    MulPositive(len, len);
    assert 0.0 < LengthSquared(v1);
    SquareSign(v1.x);
    SquareSign(v1.y);
    SquareSign(v1.z);
    var w := QuarterTurn(v1);
    if Abs(v1.x) > Abs(v1.y) {
      assert LengthSquared(w) == v1.z * v1.z + v1.x * v1.x;
    } else {
      assert LengthSquared(w) == v1.z * v1.z + v1.y * v1.y;
      if v1.y == 0.0 {
        assert v1.x == 0.0;
      }
    }
  }

  /** Builds two vectors completing the unit vector v1 to a basis: v2 is
      orthogonal to v1 with a zero y (or x) component, and v3 = v1 × v2.
      The renderer asserts that |v1| is within 0.001 of 1, which keeps the
      divisor positive in either branch. */
  function CoordinateSystem(v1: Vector, sqrt: real -> real): (r: (Vector, Vector))
    requires IsSqrt(sqrt)
    requires Abs(Length(v1, sqrt) - 1.0) < 0.001
    ensures Dot(v1, r.0) == 0.0
    ensures Abs(v1.x) > Abs(v1.y) ==> r.0.y == 0.0
    ensures Abs(v1.x) <= Abs(v1.y) ==> r.0.x == 0.0
    ensures r.1 == Cross(v1, r.0)
  {
    CoordinateSystemDivisor(v1, sqrt);
    var w := QuarterTurn(v1);
    SqrtPositive(sqrt, LengthSquared(w));
    var invLen := 1.0 / sqrt(LengthSquared(w));
    // (-z·invLen, 0, x·invLen) or (0, z·invLen, -y·invLen)
    var v2 := Scale(w, invLen);
    DotScale(v1, w, invLen);
    (v2, Cross(v1, v2))
  }

  /** The basis CoordinateSystem builds is orthonormal: v2 has unit length,
      v3 is orthogonal to v1 and v2, and v3 has unit length too when v1 has
      exactly unit length. */
  lemma CoordinateSystemOrthonormal(v1: Vector, sqrt: real -> real)
    requires IsSqrt(sqrt)
    requires Abs(Length(v1, sqrt) - 1.0) < 0.001
    ensures LengthSquared(CoordinateSystem(v1, sqrt).0) == 1.0
    ensures Dot(v1, CoordinateSystem(v1, sqrt).1) == 0.0
    ensures Dot(CoordinateSystem(v1, sqrt).0, CoordinateSystem(v1, sqrt).1) == 0.0
    ensures LengthSquared(v1) == 1.0 ==> LengthSquared(CoordinateSystem(v1, sqrt).1) == 1.0
  {
    var (v2, v3) := CoordinateSystem(v1, sqrt);
    CoordinateSystemDivisor(v1, sqrt);
    var w := QuarterTurn(v1);
    assert 0.0 < LengthSquared(w);
    var invLen := 1.0 / sqrt(LengthSquared(w));
    assert v2 == Scale(w, invLen);
    ScaledToUnit(w, invLen, sqrt);
    CrossOrthogonal(v1, v2);
    CrossLengthSquared(v1, v2);
  }

  function Distance(p: Point, q: Point, sqrt: real -> real): (r: real)
    requires IsSqrt(sqrt)
    ensures 0.0 <= r && r * r == DistanceSquared(p, q)
    ensures r == 0.0 <==> p == q
  {
    Length(PointDiff(p, q), sqrt)
  }

  function DistanceSquared(p: Point, q: Point): (r: real)
    ensures 0.0 <= r
    ensures r == 0.0 <==> p == q
  {
    var d := PointDiff(p, q);
    assert d == ZeroVector <==> p == q;
    LengthSquared(d)
  }

  lemma DistanceSymmetric(p: Point, q: Point, sqrt: real -> real)
    requires IsSqrt(sqrt)
    ensures DistanceSquared(p, q) == DistanceSquared(q, p)
    ensures Distance(p, q, sqrt) == Distance(q, p, sqrt)
  {
  }

  // ---------------------------------------------------------------------------
  // FaceForward: flip the first argument into the hemisphere of the second

  function FaceForwardNV(n: Normal, v: Vector): (r: Normal)
    ensures r == n || r == NormalNeg(n)
    ensures DotNV(n, v) < 0.0 <==> r == NormalNeg(n) && r != n
    ensures 0.0 <= DotNV(r, v)
  {
    DotNeg(VectorOfNormal(n), v);
    if DotNV(n, v) < 0.0 then NormalNeg(n) else n
  }

  function FaceForwardNN(n1: Normal, n2: Normal): (r: Normal)
    ensures r == n1 || r == NormalNeg(n1)
    ensures DotNN(n1, n2) < 0.0 <==> r == NormalNeg(n1) && r != n1
    ensures 0.0 <= DotNN(r, n2)
  {
    DotNeg(VectorOfNormal(n1), VectorOfNormal(n2));
    if DotNN(n1, n2) < 0.0 then NormalNeg(n1) else n1
  }

  function FaceForwardVN(v: Vector, n: Normal): (r: Vector)
    ensures r == v || r == Neg(v)
    ensures DotVN(v, n) < 0.0 <==> r == Neg(v) && r != v
    ensures 0.0 <= DotVN(r, n)
  {
    DotNeg(v, VectorOfNormal(n));
    if DotVN(v, n) < 0.0 then Neg(v) else v
  }

  function FaceForwardVV(v1: Vector, v2: Vector): (r: Vector)
    ensures r == v1 || r == Neg(v1)
    ensures Dot(v1, v2) < 0.0 <==> r == Neg(v1) && r != v1
    ensures 0.0 <= Dot(r, v2)
  {
    DotNeg(v1, v2);
    if Dot(v1, v2) < 0.0 then Neg(v1) else v1
  }

  // ---------------------------------------------------------------------------
  // Rays

  /** Ray(): origin and direction zero, the whole non-negative line, depth 0. */
  function DefaultRay(): (r: Ray)
    ensures r.mint == 0.0 && r.maxt == Infinity && r.time == 0.0 && r.depth == 0
    ensures r.o == Origin && r.d == ZeroVector
  {
    Ray(Origin, ZeroVector, 0.0, Infinity, 0.0, 0)
  }

  /** Ray(origin, direction, start, end = INFINITY, time = 0, depth = 0) */
  function MakeRay(origin: Point, direction: Vector, start: real,
                   end: real := Infinity, time: real := 0.0, depth: nat := 0): (r: Ray)
    ensures r.o == origin && r.d == direction
    ensures r.mint == start && r.maxt == end && r.time == time && r.depth == depth
  {
    Ray(origin, direction, start, end, time, depth)
  }

  /** Ray(origin, direction, parent, start, end = INFINITY): a bounce of the
      parent ray, one level deeper and cast at the parent's time. */
  function ChildRay(origin: Point, direction: Vector, parent: Ray, start: real,
                    end: real := Infinity): (r: Ray)
    ensures r.o == origin && r.d == direction && r.mint == start && r.maxt == end
    ensures r.depth == parent.depth + 1 && r.time == parent.time
  {
    Ray(origin, direction, start, end, parent.time, parent.depth + 1)
  }

  /** ray(t) = o + d·t */
  function RayAt(ray: Ray, t: real): (p: Point)
    ensures PointDiff(p, ray.o) == Scale(ray.d, t)
    ensures t == 0.0 ==> p == ray.o
  {
    PointAdd(ray.o, Scale(ray.d, t))
  }
}
