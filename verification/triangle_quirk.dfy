/** What testing the edges at the incoming t (core/triangle.cpp:14) does to
    Triangle::Intersect: along the ray each edge value is an affine function
    of t, so one crossing tt of the closed triangle can be reported as a hit
    or a miss depending on the t the caller passes in. */
module TriangleQuirk {
  import opened Geometry
  import opened Shapes

  /** How fast the edge value for edge e changes per unit of t along d. */
  function EdgeRate(n: Normal, d: Vector, e: Vector): real {
    DotNV(n, Cross(d, e))
  }

  /** The edge value at ray(t) is its value at the origin of the ray plus
      t times the rate. */
  lemma EdgeAlongRay(n: Normal, ray: Ray, q: Point, e: Vector, t: real)
    ensures DotNV(n, Cross(PointDiff(RayAt(ray, t), q), e))
            == DotNV(n, Cross(PointDiff(ray.o, q), e)) + t * EdgeRate(n, ray.d, e)
  {
    assert PointDiff(RayAt(ray, t), q) == Add(PointDiff(ray.o, q), Scale(ray.d, t));
    CrossDotShift(VectorOfNormal(n), PointDiff(ray.o, q), ray.d, e, t);
  }

  /** The three edges of a triangle add up to the zero vector, so their
      rates along any direction add up to zero. */
  lemma RatesSumToZero(p1: Point, p2: Point, p3: Point, n: Normal, d: Vector)
    ensures EdgeRate(n, d, PointDiff(p2, p1)) + EdgeRate(n, d, PointDiff(p3, p2))
            + EdgeRate(n, d, PointDiff(p1, p3)) == 0.0
  {
    var e1, e2, e3 := PointDiff(p2, p1), PointDiff(p3, p2), PointDiff(p1, p3);
    var m := VectorOfNormal(n);
    assert Add(Add(e1, e2), e3) == ZeroVector;
    CrossAdd(d, e1, e2);
    CrossAdd(d, Add(e1, e2), e3);
    assert Cross(d, ZeroVector) == ZeroVector;
    DotAdd(m, Cross(d, e1), Cross(d, e2));
    DotAdd(m, Add(Cross(d, e1), Cross(d, e2)), Cross(d, e3));
  }

  lemma CrossAdd(a: Vector, b: Vector, c: Vector)
    ensures Cross(a, Add(b, c)) == Add(Cross(a, b), Cross(a, c))
  {
  }

  /** An edge whose rate is negative has a negative value at
      t = −A/rate + 1, where A is its value at the origin of the ray. */
  lemma EdgeTurnsNegative(n: Normal, ray: Ray, q: Point, e: Vector)
    requires EdgeRate(n, ray.d, e) < 0.0
    ensures var a := DotNV(n, Cross(PointDiff(ray.o, q), e));
            var t := -a / EdgeRate(n, ray.d, e) + 1.0;
            DotNV(n, Cross(PointDiff(RayAt(ray, t), q), e)) < 0.0
  {
    var a := DotNV(n, Cross(PointDiff(ray.o, q), e));
    var b := EdgeRate(n, ray.d, e);
    var t := -a / b + 1.0;
    EdgeAlongRay(n, ray, q, e, t);
    PastTheRoot(a, b);
  }

  lemma PastTheRoot(a: real, b: real)
    requires b < 0.0
    ensures a + (-a / b + 1.0) * b < 0.0
  {
    var q := -a / b;
    assert q * b == -a;
    assert (q + 1.0) * b == q * b + b;
  }

  /** When the ray crosses the closed triangle at tt ≥ ray.mint and moves
      across the plane at a non-zero rate for some edge, passing tt in as t
      reports the hit, while some other incoming t reports a miss for the
      very same crossing. */
  lemma IncomingTMatters(p1: Point, p2: Point, p3: Point, n: Normal, ray: Ray)
    requires DotNV(n, ray.d) != 0.0
    requires ray.mint <= PlaneT(p1, n, ray)
    requires EdgesPass(p1, p2, p3, n, RayAt(ray, PlaneT(p1, n, ray)))
    requires EdgeRate(n, ray.d, PointDiff(p2, p1)) != 0.0 ||
             EdgeRate(n, ray.d, PointDiff(p3, p2)) != 0.0 ||
             EdgeRate(n, ray.d, PointDiff(p1, p3)) != 0.0
    ensures var tt := PlaneT(p1, n, ray);
            TriangleIntersectWith(p1, p2, p3, n, ray, tt) == Hit(true, tt)
    ensures exists t :: !TriangleIntersectWith(p1, p2, p3, n, ray, t).hit
  {
    var e1, e2, e3 := PointDiff(p2, p1), PointDiff(p3, p2), PointDiff(p1, p3);
    RatesSumToZero(p1, p2, p3, n, ray.d);
    if EdgeRate(n, ray.d, e1) < 0.0 {
      var t := -DotNV(n, Cross(PointDiff(ray.o, p1), e1)) / EdgeRate(n, ray.d, e1) + 1.0;
      EdgeTurnsNegative(n, ray, p1, e1);
      assert EdgeV(p1, p2, p3, n, RayAt(ray, t)) < 0.0;
      assert !TriangleIntersectWith(p1, p2, p3, n, ray, t).hit;
    } else if EdgeRate(n, ray.d, e2) < 0.0 {
      var t := -DotNV(n, Cross(PointDiff(ray.o, p2), e2)) / EdgeRate(n, ray.d, e2) + 1.0;
      EdgeTurnsNegative(n, ray, p2, e2);
      assert EdgeW(p1, p2, p3, n, RayAt(ray, t)) < 0.0;
      assert !TriangleIntersectWith(p1, p2, p3, n, ray, t).hit;
    } else {
      var t := -DotNV(n, Cross(PointDiff(ray.o, p3), e3)) / EdgeRate(n, ray.d, e3) + 1.0;
      EdgeTurnsNegative(n, ray, p3, e3);
      assert EdgeU(p1, p2, p3, n, RayAt(ray, t)) < 0.0;
      assert !TriangleIntersectWith(p1, p2, p3, n, ray, t).hit;
    }
  }
}
