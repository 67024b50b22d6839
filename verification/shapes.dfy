/** The shapes of core/shape.h, core/sphere.cpp and core/triangle.cpp.

    The renderer's Shape hierarchy (an abstract class with Sphere and Triangle
    subclasses dispatched through virtual calls) is a closed datatype here.
    Every shape carries its colour, its emittance and the material tag that
    the tracer branches on. `Intersect(ray, t)` takes t by reference: it is
    left alone on a miss and overwritten on a hit, so each intersection
    function receives the incoming t and returns a Hit holding the outgoing one.
 */
module Shapes {
  import opened RealMath
  import opened Geometry
  import Colors

  /** The material tag: DIFFUSE, MIRROR, or any other value (a Sphere built
      by its default constructor never has the tag assigned). */
  datatype Material = Diffuse | Mirror | Unassigned

  datatype Shape =
    | Sphere(center: Point, radius: real, color: Colors.Color, emittance: Colors.Color, material: Material)
    | Triangle(p1: Point, p2: Point, p3: Point, color: Colors.Color, emittance: Colors.Color, material: Material)

  /** What Intersect reports: whether it hit, and the value of the by-reference t afterwards. */
  datatype Hit = Hit(hit: bool, t: real)

  // ---------------------------------------------------------------------------
  // Sphere

  /** Coefficients of the quadratic a·s² + b·s + c in the ray parameter s. */
  datatype Quadratic = Quadratic(a: real, b: real, c: real)

  function QuadraticAt(q: Quadratic, s: real): real {
    q.a * s * s + q.b * s + q.c
  }

  function Discriminant(q: Quadratic): real {
    q.b * q.b - 4.0 * q.a * q.c
  }

  /** The quadratic Sphere::Intersect builds: a = d·d, b = (2d)·v, c = v·v − r²
      with v = o − center. */
  function SphereQuadratic(center: Point, radius: real, ray: Ray): (q: Quadratic)
    ensures q.a == LengthSquared(ray.d)
  {
    var v := PointDiff(ray.o, center);
    Quadratic(Dot(ray.d, ray.d), Dot(Scale(ray.d, 2.0), v), Dot(v, v) - radius * radius)
  }

  /** The point of the ray at s lies on the sphere exactly when s is a root
      of the quadratic: the quadratic measures squared distance minus r². */
  lemma SphereQuadraticMeasuresDistance(center: Point, radius: real, ray: Ray, s: real)
    ensures QuadraticAt(SphereQuadratic(center, radius, ray), s)
            == DistanceSquared(RayAt(ray, s), center) - radius * radius
  {
    var v := PointDiff(ray.o, center);
    var d := ray.d;
    var e := PointDiff(RayAt(ray, s), center);
    assert e == Vector(v.x + d.x * s, v.y + d.y * s, v.z + d.z * s);
    assert (v.x + d.x * s) * (v.x + d.x * s) == d.x * d.x * s * s + 2.0 * d.x * v.x * s + v.x * v.x;
    assert (v.y + d.y * s) * (v.y + d.y * s) == d.y * d.y * s * s + 2.0 * d.y * v.y * s + v.y * v.y;
    assert (v.z + d.z * s) * (v.z + d.z * s) == d.z * d.z * s * s + 2.0 * d.z * v.z * s + v.z * v.z;
  }

  predicate OnSphere(center: Point, radius: real, p: Point) {
    DistanceSquared(p, center) == radius * radius
  }

  /** Sphere::Intersect. A negative discriminant is a miss; otherwise the two
      roots are compared with ray.mint, roots below it are pushed to INFINITY,
      and the smaller remaining one becomes t. The renderer divides by 2a,
      so the direction must be non-zero; every float is at most FLT_MAX, so
      mint is too. */
  function SphereIntersect(center: Point, radius: real, ray: Ray, t: real, sqrt: real -> real): (h: Hit)
    requires IsSqrt(sqrt)
    requires ray.d != ZeroVector
    requires ray.mint <= Infinity
    ensures !h.hit ==> h.t == t
    ensures Discriminant(SphereQuadratic(center, radius, ray)) < 0.0 ==> !h.hit
    ensures h.hit ==> ray.mint <= h.t
  {
    var q := SphereQuadratic(center, radius, ray);
    if Discriminant(q) < 0.0 then Hit(false, t)
    else
      var (s1, s2) := Roots(q, sqrt);
      if s1 < ray.mint && s2 < ray.mint then Hit(false, t)
      else
        var s1 := if s1 < ray.mint then Infinity else s1;
        var s2 := if s2 < ray.mint then Infinity else s2;
        Hit(true, Min(s1, s2))
  }

  /** The two roots (−b ± √disc) / 2a, larger first as Sphere::Intersect names them. */
  function Roots(q: Quadratic, sqrt: real -> real): (r: (real, real))
    requires IsSqrt(sqrt)
    requires q.a > 0.0 && Discriminant(q) >= 0.0
    ensures r.1 <= r.0
  {
    var root := sqrt(Discriminant(q));
    assert 0.0 <= root;
    RootsOrdered(q.a, q.b, root);
    ((-q.b + root) / (2.0 * q.a), (-q.b - root) / (2.0 * q.a))
  }

  lemma RootsOrdered(a: real, b: real, root: real)
    requires 0.0 < a && 0.0 <= root
    ensures (-b - root) / (2.0 * a) <= (-b + root) / (2.0 * a)
  {
    var k := 1.0 / (2.0 * a);
    assert 0.0 < k;
    assert (-b + root) / (2.0 * a) - (-b - root) / (2.0 * a) == (2.0 * root) * k;
    ProductSign(2.0 * root, k);
  }

  lemma ProductSign(a: real, b: real)
    ensures 0.0 <= a && 0.0 <= b ==> 0.0 <= a * b
  {
    if 0.0 < a && 0.0 < b {
      MulPositive(a, b);
    }
  }

  /** The quadratic factors through its roots: a·(s − s1)·(s − s2), so the
      roots are zeros and nothing else is. */
  lemma {:induction false} RootsFactor(q: Quadratic, sqrt: real -> real, s: real)
    requires IsSqrt(sqrt)
    requires q.a > 0.0 && Discriminant(q) >= 0.0
    ensures var (s1, s2) := Roots(q, sqrt);
            QuadraticAt(q, s) == q.a * ((s - s1) * (s - s2))
  {
    var root := sqrt(Discriminant(q));
    assert root * root == q.b * q.b - 4.0 * q.a * q.c;
    var r := Roots(q, sqrt);
    assert r == ((-q.b + root) / (2.0 * q.a), (-q.b - root) / (2.0 * q.a));
    SumAndProductOfRoots(q.a, q.b, q.c, root, r.0, r.1);
    FactorFromVieta(q.a, q.b, q.c, r.0, r.1, s);
    assert QuadraticAt(q, s) == q.a * s * s + q.b * s + q.c;
  }

  /** A quadratic whose coefficients obey Vieta's formulas for s1, s2 is
      a·(s − s1)·(s − s2). */
  lemma FactorFromVieta(a: real, b: real, c: real, s1: real, s2: real, s: real)
    requires a * (s1 + s2) == -b && a * (s1 * s2) == c
    ensures a * s * s + b * s + c == a * ((s - s1) * (s - s2))
  {
    assert a * ((s - s1) * (s - s2)) == a * (s * s) - a * (s1 + s2) * s + a * (s1 * s2);
  }

  /** Vieta's formulas for the two roots: a(s1 + s2) = −b and a·s1·s2 = c. */
  lemma SumAndProductOfRoots(a: real, b: real, c: real, root: real, s1: real, s2: real)
    requires a > 0.0 && root * root == b * b - 4.0 * a * c
    requires s1 == (-b + root) / (2.0 * a) && s2 == (-b - root) / (2.0 * a)
    ensures a * (s1 + s2) == -b
    ensures a * (s1 * s2) == c
  {
    assert s1 * (2.0 * a) == -b + root;
    assert s2 * (2.0 * a) == -b - root;
    assert (s1 * (2.0 * a)) * (s2 * (2.0 * a)) == b * b - root * root;
    assert (s1 * (2.0 * a)) * (s2 * (2.0 * a)) == 4.0 * a * (a * (s1 * s2));
    assert 4.0 * a * (a * (s1 * s2)) == 4.0 * a * c;
  }

  /** With a > 0 and a negative discriminant the quadratic has no zero:
      4a·(a s² + b s + c) = (2as + b)² − disc > 0. */
  lemma NoRootWhenDiscriminantNegative(q: Quadratic, s: real)
    requires q.a > 0.0 && Discriminant(q) < 0.0
    ensures QuadraticAt(q, s) != 0.0
  {
    var k := 2.0 * q.a * s + q.b;
    assert 4.0 * q.a * QuadraticAt(q, s) == k * k - Discriminant(q);
    SquareSign(k);
    assert 0.0 < 4.0 * q.a * QuadraticAt(q, s);
  }

  /** A product with a positive factor is zero only when the other factor is. */
  lemma ZeroProduct(a: real, b: real, c: real)
    requires a > 0.0
    ensures a * (b * c) == 0.0 <==> b == 0.0 || c == 0.0
  {
    if b != 0.0 && c != 0.0 {
      if 0.0 < b * c {
        MulPositive(a, b * c);
      } else {
        MulPositive(a, -(b * c));
      }
    }
  }

  /** The two roots are zeros of the quadratic, and nothing else is. */
  lemma ZerosAreRoots(q: Quadratic, sqrt: real -> real, s: real)
    requires IsSqrt(sqrt)
    requires q.a > 0.0 && Discriminant(q) >= 0.0
    ensures var (s1, s2) := Roots(q, sqrt);
            QuadraticAt(q, s1) == 0.0 && QuadraticAt(q, s2) == 0.0 &&
            (QuadraticAt(q, s) == 0.0 <==> s == s1 || s == s2)
  {
    var (s1, s2) := Roots(q, sqrt);
    RootsFactor(q, sqrt, s);
    RootsFactor(q, sqrt, s1);
    RootsFactor(q, sqrt, s2);
    assert QuadraticAt(q, s1) == q.a * ((s1 - s1) * (s1 - s2));
    assert (s1 - s1) * (s1 - s2) == 0.0 && (s2 - s1) * (s2 - s2) == 0.0;
    assert QuadraticAt(q, s1) == 0.0;
    ZeroProduct(q.a, s - s1, s - s2);
  }

  /** On a hit the outgoing t is a point of the sphere, unless the root lies
      past FLT_MAX and was replaced by INFINITY. */
  lemma SphereHitOnSphere(center: Point, radius: real, ray: Ray, t: real, sqrt: real -> real)
    requires IsSqrt(sqrt)
    requires ray.d != ZeroVector
    requires ray.mint <= Infinity
    ensures var h := SphereIntersect(center, radius, ray, t, sqrt);
            h.hit ==> h.t == Infinity || OnSphere(center, radius, RayAt(ray, h.t))
  {
    var q := SphereQuadratic(center, radius, ray);
    var h := SphereIntersect(center, radius, ray, t, sqrt);
    if h.hit {
      var (s1, s2) := Roots(q, sqrt);
      ZerosAreRoots(q, sqrt, h.t);
      SphereQuadraticMeasuresDistance(center, radius, ray, h.t);
    }
  }

  /** Which root Sphere::Intersect keeps: it hits exactly when the
      discriminant is non-negative and the larger root s1 is not below
      ray.mint; t is then s2 when s2 is not below mint, and otherwise s1,
      capped at INFINITY. */
  lemma SphereRootSelection(center: Point, radius: real, ray: Ray, t: real, sqrt: real -> real)
    requires IsSqrt(sqrt)
    requires ray.d != ZeroVector
    requires ray.mint <= Infinity
    ensures var q := SphereQuadratic(center, radius, ray);
            var h := SphereIntersect(center, radius, ray, t, sqrt);
            h.hit <==> Discriminant(q) >= 0.0 && ray.mint <= Roots(q, sqrt).0
    ensures var q := SphereQuadratic(center, radius, ray);
            var h := SphereIntersect(center, radius, ray, t, sqrt);
            h.hit ==> h.t == (if ray.mint <= Roots(q, sqrt).1 then Roots(q, sqrt).1
                              else Min(Roots(q, sqrt).0, Infinity))
  {
  }

  /** No point of the sphere at or beyond ray.mint is missed or comes before
      the outgoing t: Sphere::Intersect reports the nearest such point. */
  lemma SphereHitNearest(center: Point, radius: real, ray: Ray, t: real, sqrt: real -> real, s: real)
    requires IsSqrt(sqrt)
    requires ray.d != ZeroVector
    requires ray.mint <= Infinity
    requires ray.mint <= s && OnSphere(center, radius, RayAt(ray, s))
    ensures var h := SphereIntersect(center, radius, ray, t, sqrt);
            h.hit && h.t <= s
  {
    var q := SphereQuadratic(center, radius, ray);
    SphereQuadraticMeasuresDistance(center, radius, ray, s);
    assert QuadraticAt(q, s) == 0.0;
    if Discriminant(q) < 0.0 {
      NoRootWhenDiscriminantNegative(q, s);
      assert false;
    }
    ZerosAreRoots(q, sqrt, s);
  }

  /** Sphere::GetNormal: the unit vector from the centre towards p. */
  function SphereNormal(center: Point, p: Point, sqrt: real -> real): (n: Normal)
    requires IsSqrt(sqrt)
    requires p != center
    ensures NormalLengthSquared(n) == 1.0
    ensures Scale(VectorOfNormal(n), Distance(p, center, sqrt)) == PointDiff(p, center)
  {
    assert PointDiff(p, center) != ZeroVector by {
      assert DistanceSquared(p, center) != 0.0;
    }
    NormalOfVector(Normalize(PointDiff(p, center), sqrt))
  }

  // ---------------------------------------------------------------------------
  // Triangle

  /** Cross(p1p3, p1p2): the triangle's normal before normalisation. */
  function TriangleCross(p1: Point, p2: Point, p3: Point): Vector {
    Cross(PointDiff(p3, p1), PointDiff(p2, p1))
  }

  /** The corners span a plane, so the normal can be normalised. */
  predicate NonDegenerate(p1: Point, p2: Point, p3: Point) {
    TriangleCross(p1, p2, p3) != ZeroVector
  }

  /** Triangle::GetNormal, and the n Triangle::Intersect computes: the unit
      normal of the triangle's plane, pointing along Cross(p1p3, p1p2). */
  function TriangleNormal(p1: Point, p2: Point, p3: Point, sqrt: real -> real): (n: Normal)
    requires IsSqrt(sqrt)
    requires NonDegenerate(p1, p2, p3)
    ensures NormalLengthSquared(n) == 1.0
  {
    NormalizeNormal(NormalOfVector(TriangleCross(p1, p2, p3)), sqrt)
  }

  /** The triangle's normal is orthogonal to both edges from p1 and has a
      positive component along Cross(p1p3, p1p2). */
  lemma TriangleNormalOrthogonal(p1: Point, p2: Point, p3: Point, sqrt: real -> real)
    requires IsSqrt(sqrt)
    requires NonDegenerate(p1, p2, p3)
    ensures var n := TriangleNormal(p1, p2, p3, sqrt);
            DotNV(n, PointDiff(p2, p1)) == 0.0 && DotNV(n, PointDiff(p3, p1)) == 0.0 &&
            0.0 < DotNV(n, TriangleCross(p1, p2, p3))
  {
    var c := TriangleCross(p1, p2, p3);
    var n := TriangleNormal(p1, p2, p3, sqrt);
    assert VectorOfNormal(n) == Normalize(c, sqrt);
    CrossOrthogonal(PointDiff(p3, p1), PointDiff(p2, p1));
    NormalizedOrthogonal(c, PointDiff(p2, p1), sqrt);
    NormalizedOrthogonal(c, PointDiff(p3, p1), sqrt);
    NormalizeDot(c, c, sqrt);
    NormalizeSelfDot(c, sqrt);
  }

  lemma NormalizedOrthogonal(c: Vector, e: Vector, sqrt: real -> real)
    requires IsSqrt(sqrt)
    requires c != ZeroVector && Dot(e, c) == 0.0
    ensures Dot(Normalize(c, sqrt), e) == 0.0
  {
    DotSymmetric(e, c, ZeroNormal, ZeroNormal);
    NormalizeDot(c, e, sqrt);
    ZeroQuotient(Dot(c, e), Length(c, sqrt));
  }

  /** A non-zero vector has a positive dot product with its own direction. */
  lemma NormalizeSelfDot(v: Vector, sqrt: real -> real)
    requires IsSqrt(sqrt)
    requires v != ZeroVector
    ensures 0.0 < Dot(v, v) / Length(v, sqrt)
  {
    var len := Length(v, sqrt);
    assert Dot(v, v) == LengthSquared(v);
    assert 0.0 < len;
  }

  /** The three edge values Triangle::Intersect tests at point p: v for edge
      p1p2, w for edge p2p3 and u for edge p3p1. */
  function EdgeV(p1: Point, p2: Point, p3: Point, n: Normal, p: Point): real {
    DotNV(n, Cross(PointDiff(p, p1), PointDiff(p2, p1)))
  }

  function EdgeW(p1: Point, p2: Point, p3: Point, n: Normal, p: Point): real {
    DotNV(n, Cross(PointDiff(p, p2), PointDiff(p3, p2)))
  }

  function EdgeU(p1: Point, p2: Point, p3: Point, n: Normal, p: Point): real {
    DotNV(n, Cross(PointDiff(p, p3), PointDiff(p1, p3)))
  }

  predicate EdgesPass(p1: Point, p2: Point, p3: Point, n: Normal, p: Point) {
    0.0 <= EdgeV(p1, p2, p3, n, p) && 0.0 <= EdgeW(p1, p2, p3, n, p) && 0.0 <= EdgeU(p1, p2, p3, n, p)
  }

  /** The parameter Triangle::Intersect solves for: −(n·o + n·p1) / (n·d).
      The plane of the triangle is n·x = n·p1, which would give (n·p1 − n·o) / (n·d);
      the renderer adds n·p1 instead of subtracting it. */
  function PlaneT(p1: Point, n: Normal, ray: Ray): real
    requires DotNV(n, ray.d) != 0.0
  {
    -(DotNV(n, VectorOfPoint(ray.o)) + DotNV(n, VectorOfPoint(p1))) / DotNV(n, ray.d)
  }

  /** The body of Triangle::Intersect once the normal n is known, as written.
      A ray parallel to the plane misses. Otherwise tt is computed, but the
      edge tests are made at ray(t) for the INCOMING t, not at ray(tt); a
      negative edge value is a miss, and so is tt < ray.mint; on a hit t
      becomes tt. */
  function TriangleIntersectWith(p1: Point, p2: Point, p3: Point, n: Normal, ray: Ray, t: real): (h: Hit)
    ensures !h.hit ==> h.t == t
    ensures DotNV(n, ray.d) == 0.0 ==> !h.hit
    ensures h.hit ==> DotNV(n, ray.d) != 0.0 && h.t == PlaneT(p1, n, ray) && ray.mint <= h.t
    ensures DotNV(n, ray.d) != 0.0 ==>
              (h.hit <==> EdgesPass(p1, p2, p3, n, RayAt(ray, t)) && ray.mint <= PlaneT(p1, n, ray))
  {
    var nDotRay := DotNV(n, ray.d);
    if nDotRay == 0.0 then Hit(false, t)
    else
      var d := DotNV(n, VectorOfPoint(p1));
      var tt := -(DotNV(n, VectorOfPoint(ray.o)) + d) / nDotRay;
      var p := RayAt(ray, t);
      if EdgeV(p1, p2, p3, n, p) < 0.0 then Hit(false, t)
      else if EdgeW(p1, p2, p3, n, p) < 0.0 then Hit(false, t)
      else if EdgeU(p1, p2, p3, n, p) < 0.0 then Hit(false, t)
      else if tt < ray.mint then Hit(false, t)
      else Hit(true, tt)
  }

  /** Triangle::Intersect: the normal is the normalised Cross(p1p3, p1p2). */
  function TriangleIntersect(p1: Point, p2: Point, p3: Point, ray: Ray, t: real, sqrt: real -> real): (h: Hit)
    requires IsSqrt(sqrt)
    requires NonDegenerate(p1, p2, p3)
    ensures !h.hit ==> h.t == t
    ensures h.hit ==> ray.mint <= h.t
  {
    TriangleIntersectWith(p1, p2, p3, TriangleNormal(p1, p2, p3, sqrt), ray, t)
  }

  /** The point p1 + β·p1p2 + γ·p1p3 of the triangle's plane. */
  function PlanePoint(p1: Point, p2: Point, p3: Point, beta: real, gamma: real): Point {
    PointAdd(p1, Add(Scale(PointDiff(p2, p1), beta), Scale(PointDiff(p3, p1), gamma)))
  }

  /** At a point of the plane the edge values are the barycentric weights
      scaled by n·Cross(p1p3, p1p2): v by γ, w by 1 − β − γ, u by β. */
  lemma EdgeValuesBarycentric(p1: Point, p2: Point, p3: Point, n: Normal, beta: real, gamma: real)
    ensures var p := PlanePoint(p1, p2, p3, beta, gamma);
            var k := DotNV(n, TriangleCross(p1, p2, p3));
            EdgeV(p1, p2, p3, n, p) == gamma * k &&
            EdgeW(p1, p2, p3, n, p) == (1.0 - beta - gamma) * k &&
            EdgeU(p1, p2, p3, n, p) == beta * k
  {
    var p := PlanePoint(p1, p2, p3, beta, gamma);
    var c := TriangleCross(p1, p2, p3);
    var nv := VectorOfNormal(n);
    EdgeCrossV(p1, p2, p3, beta, gamma);
    EdgeCrossW(p1, p2, p3, beta, gamma);
    EdgeCrossU(p1, p2, p3, beta, gamma);
    DotScale(nv, c, gamma);
    DotScale(nv, c, 1.0 - beta - gamma);
    DotScale(nv, c, beta);
  }

  // The cross products inside the three edge tests, at a point of the plane.

  lemma EdgeCrossV(p1: Point, p2: Point, p3: Point, beta: real, gamma: real)
    ensures var e1 := PointDiff(p2, p1); var e2 := PointDiff(p3, p1);
            var p := PointAdd(p1, Add(Scale(e1, beta), Scale(e2, gamma)));
            Cross(PointDiff(p, p1), e1) == Scale(Cross(e2, e1), gamma)
  {
    var e1 := PointDiff(p2, p1); var e2 := PointDiff(p3, p1);
    var p := PointAdd(p1, Add(Scale(e1, beta), Scale(e2, gamma)));
    assert PointDiff(p, p1) == Add(Scale(e1, beta), Scale(e2, gamma));
    CrossLinear(e1, e2, e1, beta, gamma);
    assert Cross(e1, e1) == ZeroVector;
  }

  lemma EdgeCrossW(p1: Point, p2: Point, p3: Point, beta: real, gamma: real)
    ensures var e1 := PointDiff(p2, p1); var e2 := PointDiff(p3, p1);
            var p := PointAdd(p1, Add(Scale(e1, beta), Scale(e2, gamma)));
            Cross(PointDiff(p, p2), PointDiff(p3, p2)) == Scale(Cross(e2, e1), 1.0 - beta - gamma)
  {
    var e1 := PointDiff(p2, p1); var e2 := PointDiff(p3, p1);
    var p := PointAdd(p1, Add(Scale(e1, beta), Scale(e2, gamma)));
    var c := Cross(e2, e1);
    assert PointDiff(p, p2) == Add(Scale(e1, beta - 1.0), Scale(e2, gamma));
    assert PointDiff(p3, p2) == Sub(e2, e1);
    CrossLinear(e1, e2, Sub(e2, e1), beta - 1.0, gamma);
    CrossSub(e1, e2, e1);
    CrossSub(e2, e2, e1);
    CrossAntiCommutative(e1, e2);
    assert Cross(e1, Sub(e2, e1)) == Neg(c);
    assert Cross(e2, Sub(e2, e1)) == Neg(c);
  }

  lemma EdgeCrossU(p1: Point, p2: Point, p3: Point, beta: real, gamma: real)
    ensures var e1 := PointDiff(p2, p1); var e2 := PointDiff(p3, p1);
            var p := PointAdd(p1, Add(Scale(e1, beta), Scale(e2, gamma)));
            Cross(PointDiff(p, p3), PointDiff(p1, p3)) == Scale(Cross(e2, e1), beta)
  {
    var e1 := PointDiff(p2, p1); var e2 := PointDiff(p3, p1);
    var p := PointAdd(p1, Add(Scale(e1, beta), Scale(e2, gamma)));
    var c := Cross(e2, e1);
    assert PointDiff(p, p3) == Add(Scale(e1, beta), Scale(e2, gamma - 1.0));
    assert PointDiff(p1, p3) == Neg(e2);
    CrossLinear(e1, e2, Neg(e2), beta, gamma - 1.0);
    CrossNeg(e1, e2);
    CrossNeg(e2, e2);
    CrossAntiCommutative(e1, e2);
    assert Cross(e1, Neg(e2)) == c;
    assert Cross(e2, Neg(e2)) == ZeroVector;
    assert Scale(ZeroVector, gamma - 1.0) == ZeroVector;
  }

  /** Moving the tested point along n changes none of the edge values: they
      see only the point's projection on the plane of n. */
  lemma EdgesIgnoreNormalOffset(p1: Point, p2: Point, p3: Point, n: Normal, p: Point, s: real)
    ensures var q := PointAdd(p, Scale(VectorOfNormal(n), s));
            EdgeV(p1, p2, p3, n, q) == EdgeV(p1, p2, p3, n, p) &&
            EdgeW(p1, p2, p3, n, q) == EdgeW(p1, p2, p3, n, p) &&
            EdgeU(p1, p2, p3, n, q) == EdgeU(p1, p2, p3, n, p)
  {
    var m := VectorOfNormal(n);
    var q := PointAdd(p, Scale(m, s));
    assert PointDiff(q, p1) == Add(PointDiff(p, p1), Scale(m, s));
    assert PointDiff(q, p2) == Add(PointDiff(p, p2), Scale(m, s));
    assert PointDiff(q, p3) == Add(PointDiff(p, p3), Scale(m, s));
    OffsetCrossDot(m, PointDiff(p, p1), PointDiff(p2, p1), s);
    OffsetCrossDot(m, PointDiff(p, p2), PointDiff(p3, p2), s);
    OffsetCrossDot(m, PointDiff(p, p3), PointDiff(p1, p3), s);
  }

  /** Shifting the first argument of the cross product by s·b shifts the
      edge value linearly in s. */
  lemma CrossDotShift(m: Vector, a: Vector, b: Vector, e: Vector, s: real)
    ensures Dot(m, Cross(Add(a, Scale(b, s)), e)) == Dot(m, Cross(a, e)) + s * Dot(m, Cross(b, e))
  {
    var x, y := Cross(a, e), Cross(b, e);
    CrossLinear(a, b, e, 1.0, s);
    assert Scale(a, 1.0) == a && Scale(x, 1.0) == x;
    assert Cross(Add(a, Scale(b, s)), e) == Add(x, Scale(y, s));
    DotScale(m, y, s);
    DotAdd(m, x, Scale(y, s));
  }

  lemma DotAdd(m: Vector, x: Vector, y: Vector)
    ensures Dot(m, Add(x, y)) == Dot(m, x) + Dot(m, y)
  {
    assert m.x * (x.x + y.x) == m.x * x.x + m.x * y.x;
    assert m.y * (x.y + y.y) == m.y * x.y + m.y * y.y;
    assert m.z * (x.z + y.z) == m.z * x.z + m.z * y.z;
  }

  lemma OffsetCrossDot(m: Vector, a: Vector, e: Vector, s: real)
    ensures Dot(m, Cross(Add(a, Scale(m, s)), e)) == Dot(m, Cross(a, e))
  {
    CrossDotShift(m, a, m, e, s);
    CrossOrthogonal(m, e);
  }

  /** With the triangle's own normal the edge tests pass at a point of the
      plane exactly when its barycentric weights are all non-negative, that
      is, when the point lies in the closed triangle. */
  lemma EdgesPassIffInside(p1: Point, p2: Point, p3: Point, beta: real, gamma: real, sqrt: real -> real)
    requires IsSqrt(sqrt)
    requires NonDegenerate(p1, p2, p3)
    ensures var n := TriangleNormal(p1, p2, p3, sqrt);
            EdgesPass(p1, p2, p3, n, PlanePoint(p1, p2, p3, beta, gamma))
            <==> 0.0 <= beta && 0.0 <= gamma && beta + gamma <= 1.0
  {
    var n := TriangleNormal(p1, p2, p3, sqrt);
    var k := DotNV(n, TriangleCross(p1, p2, p3));
    TriangleNormalOrthogonal(p1, p2, p3, sqrt);
    EdgeValuesBarycentric(p1, p2, p3, n, beta, gamma);
    ScaledSign(gamma, k);
    ScaledSign(1.0 - beta - gamma, k);
    ScaledSign(beta, k);
  }

  /** Multiplying by a positive factor keeps the sign. */
  lemma ScaledSign(x: real, k: real)
    requires 0.0 < k
    ensures 0.0 <= x * k <==> 0.0 <= x
  {
    if 0.0 < x {
      MulPositive(x, k);
    } else if x < 0.0 {
      MulPositive(-x, k);
    }
  }

  /** Because of the sign of n·p1, the point at PlaneT lies on the triangle's
      plane only when that plane passes through the origin: its offset from
      the plane along n is −2·(n·p1). */
  lemma PlaneOffsetAsWritten(p1: Point, p2: Point, p3: Point, ray: Ray, sqrt: real -> real)
    requires IsSqrt(sqrt)
    requires NonDegenerate(p1, p2, p3)
    requires DotNV(TriangleNormal(p1, p2, p3, sqrt), ray.d) != 0.0
    ensures var n := TriangleNormal(p1, p2, p3, sqrt);
            var q := RayAt(ray, PlaneT(p1, n, ray));
            DotNV(n, PointDiff(q, p1)) == -2.0 * DotNV(n, VectorOfPoint(p1)) &&
            (DotNV(n, PointDiff(q, p1)) == 0.0 <==> DotNV(n, VectorOfPoint(p1)) == 0.0)
  {
    var n := TriangleNormal(p1, p2, p3, sqrt);
    var nv := VectorOfNormal(n);
    var tt := PlaneT(p1, n, ray);
    var q := RayAt(ray, tt);
    assert tt * DotNV(n, ray.d) == -(DotNV(n, VectorOfPoint(ray.o)) + DotNV(n, VectorOfPoint(p1)));
    assert PointDiff(q, p1) == Add(Sub(VectorOfPoint(ray.o), VectorOfPoint(p1)), Scale(ray.d, tt));
    DotScale(nv, ray.d, tt);
  }

  /** tt solves tt·(n·d) = −(n·o + n·p1). */
  lemma PlaneTSolves(p1: Point, n: Normal, ray: Ray)
    requires DotNV(n, ray.d) != 0.0
    ensures PlaneT(p1, n, ray) * DotNV(n, ray.d) == -(DotNV(n, VectorOfPoint(ray.o)) + DotNV(n, VectorOfPoint(p1)))
  {
  }

  /** When Cross(p1p3, p1p2) is already of unit length it is the normal. */
  lemma UnitCrossNormal(p1: Point, p2: Point, p3: Point, sqrt: real -> real)
    requires IsSqrt(sqrt)
    requires LengthSquared(TriangleCross(p1, p2, p3)) == 1.0
    ensures NonDegenerate(p1, p2, p3)
    ensures TriangleNormal(p1, p2, p3, sqrt) == NormalOfVector(TriangleCross(p1, p2, p3))
  {
    var c := TriangleCross(p1, p2, p3);
    SqrtUnique(sqrt, 1.0, 1.0);
    assert NormalLength(NormalOfVector(c), sqrt) == 1.0;
  }

  // ---------------------------------------------------------------------------
  // Dispatch over the closed set of shapes

  /** A triangle must span a plane and a sphere must have a non-zero radius
      (so that no point of its surface is its centre). */
  predicate WellFormed(s: Shape) {
    match s
    case Sphere(_, radius, _, _, _) => radius != 0.0
    case Triangle(p1, p2, p3, _, _, _) => NonDegenerate(p1, p2, p3)
  }

  /** What Shape::Intersect needs: a sphere, of any radius, needs a non-zero
      direction and a float-range mint; a triangle must span a plane so that
      its normal exists, and then accepts any ray. */
  predicate CanIntersect(s: Shape, ray: Ray) {
    && (s.Triangle? ==> NonDegenerate(s.p1, s.p2, s.p3))
    && (s.Sphere? ==> ray.d != ZeroVector && ray.mint <= Infinity)
  }

  /** Shape::Intersect, dispatched on the kind of shape. */
  function Intersect(s: Shape, ray: Ray, t: real, sqrt: real -> real): (h: Hit)
    requires IsSqrt(sqrt)
    requires CanIntersect(s, ray)
    ensures !h.hit ==> h.t == t
    ensures h.hit ==> ray.mint <= h.t
  {
    match s
    case Sphere(center, radius, _, _, _) => SphereIntersect(center, radius, ray, t, sqrt)
    case Triangle(p1, p2, p3, _, _, _) => TriangleIntersect(p1, p2, p3, ray, t, sqrt)
  }

  /** Shape::GetNormal. A sphere's normal at p points away from the centre;
      a triangle's ignores p and is the normal Intersect uses. */
  function GetNormal(s: Shape, p: Point, sqrt: real -> real): (n: Normal)
    requires IsSqrt(sqrt)
    requires s.Triangle? ==> NonDegenerate(s.p1, s.p2, s.p3)
    requires s.Sphere? ==> p != s.center
    ensures NormalLengthSquared(n) == 1.0
    ensures s.Triangle? ==> n == TriangleNormal(s.p1, s.p2, s.p3, sqrt)
    ensures s.Sphere? ==> n == SphereNormal(s.center, p, sqrt)
    ensures s.Sphere? ==> 0.0 < DotNV(n, PointDiff(p, s.center))
  {
    match s
    case Sphere(center, _, _, _, _) =>
      var n := SphereNormal(center, p, sqrt);
      SphereNormalOutward(center, p, sqrt);
      n
    case Triangle(p1, p2, p3, _, _, _) => TriangleNormal(p1, p2, p3, sqrt)
  }

  /** The sphere's normal at p has a positive component along p − center. */
  lemma SphereNormalOutward(center: Point, p: Point, sqrt: real -> real)
    requires IsSqrt(sqrt)
    requires p != center
    ensures 0.0 < DotNV(SphereNormal(center, p, sqrt), PointDiff(p, center))
  {
    var v := PointDiff(p, center);
    assert v != ZeroVector by {
      assert DistanceSquared(p, center) != 0.0;
    }
    assert VectorOfNormal(SphereNormal(center, p, sqrt)) == Normalize(v, sqrt);
    NormalizeDot(v, v, sqrt);
    NormalizeSelfDot(v, sqrt);
  }

  /** A point of a sphere with non-zero radius is not its centre, so the
      normal there is defined. */
  lemma OnSphereNotCenter(center: Point, radius: real, p: Point)
    requires radius != 0.0 && OnSphere(center, radius, p)
    ensures p != center
  {
    SquareSign(radius);
  }

  /** A hit below INFINITY gives a point where the shape's normal is
      defined: for a sphere it lies on the surface, so it is not the centre. */
  lemma HitNormalDefined(s: Shape, ray: Ray, t: real, sqrt: real -> real)
    requires IsSqrt(sqrt)
    requires CanIntersect(s, ray) && WellFormed(s)
    requires Intersect(s, ray, t, sqrt).hit && Intersect(s, ray, t, sqrt).t < Infinity
    ensures s.Sphere? ==> RayAt(ray, Intersect(s, ray, t, sqrt).t) != s.center
  {
    if s.Sphere? {
      SphereHitOnSphere(s.center, s.radius, ray, t, sqrt);
      OnSphereNotCenter(s.center, s.radius, RayAt(ray, Intersect(s, ray, t, sqrt).t));
    }
  }
}
