/** The axis-aligned bounding box BBox of core/geometry.h and core/geometry.cpp.

    A box is the pair of opposite corners pMin and pMax. Nothing forces
    pMin <= pMax: the default box is "inside out" (pMin at +INFINITY, pMax at
    -INFINITY) so that the first Union with a point snaps it to that point.
    Boxes whose corners are ordered on every axis are called Ordered here.
 */
module Boxes {
  import opened RealMath
  import opened Geometry

  datatype BBox = BBox(pMin: Point, pMax: Point)

  predicate Ordered(b: BBox) {
    b.pMin.x <= b.pMax.x && b.pMin.y <= b.pMax.y && b.pMin.z <= b.pMax.z
  }

  /** BBox::Inside: p lies in the closed box, so a box with a point inside
      is ordered. */
  predicate Inside(b: BBox, p: Point)
    ensures Inside(b, p) ==> Ordered(b)
  {
    b.pMin.x <= p.x <= b.pMax.x &&
    b.pMin.y <= p.y <= b.pMax.y &&
    b.pMin.z <= p.z <= b.pMax.z
  }

  /** Corner-wise inclusion: the corners of `outer` lie outside those of `inner`. */
  predicate Includes(outer: BBox, inner: BBox) {
    outer.pMin.x <= inner.pMin.x && inner.pMax.x <= outer.pMax.x &&
    outer.pMin.y <= inner.pMin.y && inner.pMax.y <= outer.pMax.y &&
    outer.pMin.z <= inner.pMin.z && inner.pMax.z <= outer.pMax.z
  }

  /** Every point inside the inner box is inside the outer one. */
  lemma IncludesInside(outer: BBox, inner: BBox, p: Point)
    requires Includes(outer, inner) && Inside(inner, p)
    ensures Inside(outer, p)
  {
  }

  predicate FloatPoint(p: Point) {
    IsFloat(p.x) && IsFloat(p.y) && IsFloat(p.z)
  }

  // ---------------------------------------------------------------------------
  // Constructors

  /** BBox(): the empty box, which contains no point at all. */
  function EmptyBox(): (b: BBox)
    ensures forall p :: !Inside(b, p)
    ensures !Ordered(b)
  {
    BBox(Point(Infinity, Infinity, Infinity), Point(-Infinity, -Infinity, -Infinity))
  }

  /** BBox(p): the degenerate box holding exactly p. */
  function PointBox(p: Point): (b: BBox)
    ensures Ordered(b)
    ensures forall q :: Inside(b, q) <==> q == p
  {
    BBox(p, p)
  }

  /** BBox(p1, p2): the smallest box holding both points, corners ordered. */
  function BoxOf(p1: Point, p2: Point): (b: BBox)
    ensures Ordered(b)
    ensures Inside(b, p1) && Inside(b, p2)
    ensures forall c :: Inside(c, p1) && Inside(c, p2) ==> Includes(c, b)
  {
    BBox(Point(Min(p1.x, p2.x), Min(p1.y, p2.y), Min(p1.z, p2.z)),
         Point(Max(p1.x, p2.x), Max(p1.y, p2.y), Max(p1.z, p2.z)))
  }

  /** BBox::operator[]: corner 0 is pMin and corner 1 is pMax. */
  function Corner(b: BBox, i: nat): (p: Point)
    requires i <= 1
    ensures i == 0 ==> p == b.pMin
    ensures i == 1 ==> p == b.pMax
  {
    if i == 0 then b.pMin else b.pMax
  }

  // ---------------------------------------------------------------------------
  // Union

  /** BBox::Union(b, p): the least box including b and holding p. */
  function UnionPoint(b: BBox, p: Point): (r: BBox)
    ensures Includes(r, b) && Inside(r, p)
    ensures forall c :: Includes(c, b) && Inside(c, p) ==> Includes(c, r)
  {
    BBox(Point(Min(b.pMin.x, p.x), Min(b.pMin.y, p.y), Min(b.pMin.z, p.z)),
         Point(Max(b.pMax.x, p.x), Max(b.pMax.y, p.y), Max(b.pMax.z, p.z)))
  }

  /** BBox::Union(b1, b2): the least box including both boxes. */
  function Union(b1: BBox, b2: BBox): (r: BBox)
    ensures Includes(r, b1) && Includes(r, b2)
    ensures forall c :: Includes(c, b1) && Includes(c, b2) ==> Includes(c, r)
  {
    BBox(Point(Min(b1.pMin.x, b2.pMin.x), Min(b1.pMin.y, b2.pMin.y), Min(b1.pMin.z, b2.pMin.z)),
         Point(Max(b1.pMax.x, b2.pMax.x), Max(b1.pMax.y, b2.pMax.y), Max(b1.pMax.z, b2.pMax.z)))
  }

  /** Union(b, p) holds p and every point of b; Union(b1, b2) every point of either. */
  lemma UnionContains(b: BBox, b1: BBox, b2: BBox, p: Point, q: Point)
    ensures Inside(UnionPoint(b, p), p)
    ensures Inside(b, q) ==> Inside(UnionPoint(b, p), q)
    ensures Inside(b1, q) || Inside(b2, q) ==> Inside(Union(b1, b2), q)
  {
    if Inside(b, q) {
      IncludesInside(UnionPoint(b, p), b, q);
    }
    if Inside(b1, q) {
      IncludesInside(Union(b1, b2), b1, q);
    } else if Inside(b2, q) {
      IncludesInside(Union(b1, b2), b2, q);
    }
  }

  lemma UnionCommutes(b1: BBox, b2: BBox)
    ensures Union(b1, b2) == Union(b2, b1)
  {
  }

  /** Growing the empty box by a point in float range gives that point's box,
      and the two-point constructor is the union of one point's box with the other. */
  lemma UnionFromEmpty(p1: Point, p2: Point)
    requires FloatPoint(p1)
    ensures UnionPoint(EmptyBox(), p1) == PointBox(p1)
    ensures UnionPoint(PointBox(p1), p2) == BoxOf(p1, p2)
  {
  }

  // ---------------------------------------------------------------------------
  // Overlap

  /** BBox::Overlaps exactly as written: the y and z clauses compare pMax with
      b.pMax where the x clause compares pMax with b.pMin. Boxes separated
      along x never overlap, and when b is ordered a reported overlap is a
      true one: the written test only ever misses overlaps. */
  predicate Overlaps(a: BBox, b: BBox)
    ensures a.pMin.x > b.pMax.x || a.pMax.x < b.pMin.x ==> !Overlaps(a, b)
    ensures Ordered(b) && Overlaps(a, b) ==> OverlapsIntended(a, b)
  {
    if a.pMin.x > b.pMax.x || a.pMax.x < b.pMin.x then false
    else if a.pMin.y > b.pMax.y || a.pMax.y < b.pMax.y then false
    else if a.pMin.z > b.pMax.z || a.pMax.z < b.pMax.z then false
    else true
  }

  /** The interval test the x clause performs, applied on every axis. */
  predicate OverlapsIntended(a: BBox, b: BBox) {
    !(a.pMin.x > b.pMax.x || a.pMax.x < b.pMin.x) &&
    !(a.pMin.y > b.pMax.y || a.pMax.y < b.pMin.y) &&
    !(a.pMin.z > b.pMax.z || a.pMax.z < b.pMin.z)
  }

  /** For ordered boxes the per-axis interval test holds exactly when the
      boxes share a point. */
  lemma OverlapsIntendedIffCommonPoint(a: BBox, b: BBox)
    requires Ordered(a) && Ordered(b)
    ensures OverlapsIntended(a, b) <==> exists p :: Inside(a, p) && Inside(b, p)
  {
    if OverlapsIntended(a, b) {
      var p := Point(Max(a.pMin.x, b.pMin.x), Max(a.pMin.y, b.pMin.y), Max(a.pMin.z, b.pMin.z));
      assert Inside(a, p) && Inside(b, p);
    }
  }

  /** Two ordered boxes sharing the origin that the written test reports as
      disjoint: b reaches higher in y than a does. */
  lemma OverlapsMissesOverlap()
    ensures var a := BBox(Origin, Point(2.0, 2.0, 2.0));
            var b := BBox(Origin, Point(1.0, 3.0, 1.0));
            Ordered(a) && Ordered(b) && Inside(a, Origin) && Inside(b, Origin) &&
            OverlapsIntended(a, b) && !Overlaps(a, b)
  {
  }

  // ---------------------------------------------------------------------------
  // Measures

  /** pMax - pMin */
  function Diagonal(b: BBox): Vector {
    PointDiff(b.pMax, b.pMin)
  }

  /** BBox::SurfaceArea: twice the sum of the three face areas. */
  function SurfaceArea(b: BBox): (r: real)
    ensures Ordered(b) ==> 0.0 <= r
  {
    var d := Diagonal(b);
    ProductSign(d.x, d.y);
    ProductSign(d.x, d.z);
    ProductSign(d.y, d.z);
    2.0 * (d.x * d.y + d.x * d.z + d.y * d.z)
  }

  /** BBox::Volume */
  function Volume(b: BBox): (r: real)
    ensures Ordered(b) ==> 0.0 <= r
  {
    var d := Diagonal(b);
    ProductSign(d.x, d.y);
    ProductSign(d.x * d.y, d.z);
    d.x * d.y * d.z
  }

  lemma ProductSign(a: real, b: real)
    ensures 0.0 <= a && 0.0 <= b ==> 0.0 <= a * b
  {
    if 0.0 < a && 0.0 < b {
      MulPositive(a, b);
    }
  }

  /** Area and volume depend only on the box's extents, not its position. */
  lemma MeasuresTranslationInvariant(b: BBox, v: Vector)
    ensures var moved := BBox(PointAdd(b.pMin, v), PointAdd(b.pMax, v));
            SurfaceArea(moved) == SurfaceArea(b) && Volume(moved) == Volume(b)
  {
    var moved := BBox(PointAdd(b.pMin, v), PointAdd(b.pMax, v));
    assert Diagonal(moved) == Diagonal(b);
  }

  /** The side length along axis i (0 = x, 1 = y, 2 = z). */
  function Extent(b: BBox, i: nat): real
    requires i <= 2
  {
    Index(Diagonal(b), i)
  }

  /** BBox::MaximumExtent: an axis whose side is at least as long as the other
      two; x wins only when strictly longest, and y beats z only when strictly longer. */
  function MaximumExtent(b: BBox): (r: nat)
    ensures r <= 2
    ensures forall i :: 0 <= i <= 2 ==> Extent(b, i) <= Extent(b, r)
    ensures r == 0 <==> Extent(b, 0) > Extent(b, 1) && Extent(b, 0) > Extent(b, 2)
    ensures r == 2 ==> Extent(b, 1) <= Extent(b, 2)
    ensures r == 1 ==> Extent(b, 1) > Extent(b, 2)
  {
    var d := Diagonal(b);
    if d.x > d.y && d.x > d.z then 0
    else if d.y > d.z then 1
    else 2
  }

  // ---------------------------------------------------------------------------
  // Parametric positions

  /** BBox::Lerp: the point at fractions (tx, ty, tz) of the way from pMin to pMax. */
  function LerpPoint(b: BBox, tx: real, ty: real, tz: real): (p: Point)
    ensures tx == 0.0 && ty == 0.0 && tz == 0.0 ==> p == b.pMin
    ensures tx == 1.0 && ty == 1.0 && tz == 1.0 ==> p == b.pMax
  {
    Point(Lerp(tx, b.pMin.x, b.pMax.x), Lerp(ty, b.pMin.y, b.pMax.y), Lerp(tz, b.pMin.z, b.pMax.z))
  }

  /** No axis of the box has zero extent, so Offset divides by non-zero sides. */
  predicate NonFlat(b: BBox) {
    b.pMin.x != b.pMax.x && b.pMin.y != b.pMax.y && b.pMin.z != b.pMax.z
  }

  /** BBox::Offset: the fractions of the way p lies from pMin to pMax. */
  function Offset(b: BBox, p: Point): (v: Vector)
    requires NonFlat(b)
    ensures p == b.pMin ==> v == ZeroVector
    ensures p == b.pMax ==> v == Vector(1.0, 1.0, 1.0)
  {
    OffsetAxis(p.x, b.pMin.x, b.pMax.x);
    OffsetAxis(p.y, b.pMin.y, b.pMax.y);
    OffsetAxis(p.z, b.pMin.z, b.pMax.z);
    Vector((p.x - b.pMin.x) / (b.pMax.x - b.pMin.x),
           (p.y - b.pMin.y) / (b.pMax.y - b.pMin.y),
           (p.z - b.pMin.z) / (b.pMax.z - b.pMin.z))
  }

  lemma OffsetAxis(x: real, lo: real, hi: real)
    requires lo != hi
    ensures x == lo ==> (x - lo) / (hi - lo) == 0.0
    ensures x == hi ==> (x - lo) / (hi - lo) == 1.0
  {
  }

  /** Offset and Lerp are inverse to each other. */
  lemma OffsetLerpRoundTrip(b: BBox, tx: real, ty: real, tz: real, p: Point)
    requires NonFlat(b)
    ensures Offset(b, LerpPoint(b, tx, ty, tz)) == Vector(tx, ty, tz)
    ensures var o := Offset(b, p); LerpPoint(b, o.x, o.y, o.z) == p
  {
    var o := Offset(b, p);
    LerpOfOffset(p.x, b.pMin.x, b.pMax.x);
    LerpOfOffset(p.y, b.pMin.y, b.pMax.y);
    LerpOfOffset(p.z, b.pMin.z, b.pMax.z);
  }

  lemma LerpOfOffset(x: real, lo: real, hi: real)
    requires lo != hi
    ensures Lerp((x - lo) / (hi - lo), lo, hi) == x
  {
    var t := (x - lo) / (hi - lo);
    assert t * (hi - lo) == x - lo;
  }

  // ---------------------------------------------------------------------------
  // Bounding sphere and expansion

  /** BBox::BoundingSphere: the centre is the midpoint of the corners and the
      radius its distance to pMax, or 0 when the midpoint is not inside the
      box (an inside-out box). */
  function BoundingSphere(b: BBox, sqrt: real -> real): (r: (Point, real))
    requires IsSqrt(sqrt)
    ensures Ordered(b) ==> Inside(b, r.0)
    ensures 0.0 <= r.1
    ensures !Inside(b, r.0) ==> r.1 == 0.0
  {
    var center := PointSum(PointScale(b.pMin, 0.5), PointScale(b.pMax, 0.5));
    var radius := if Inside(b, center) then Distance(center, b.pMax, sqrt) else 0.0;
    (center, radius)
  }

  /** Every point inside the box lies within its bounding sphere. */
  lemma BoundingSphereCovers(b: BBox, sqrt: real -> real, q: Point)
    requires IsSqrt(sqrt)
    requires Inside(b, q)
    ensures var (center, radius) := BoundingSphere(b, sqrt);
            DistanceSquared(center, q) <= radius * radius
  {
    var (center, radius) := BoundingSphere(b, sqrt);
    assert Inside(b, center);
    CornerIsFarthest(b, q);
    assert radius * radius == DistanceSquared(center, b.pMax);
  }

  /** No point of the box is further from the midpoint than pMax is. */
  lemma CornerIsFarthest(b: BBox, q: Point)
    requires Inside(b, q)
    ensures var center := PointSum(PointScale(b.pMin, 0.5), PointScale(b.pMax, 0.5));
            DistanceSquared(center, q) <= DistanceSquared(center, b.pMax)
  {
    AxisCovered(b.pMin.x, b.pMax.x, q.x);
    AxisCovered(b.pMin.y, b.pMax.y, q.y);
    AxisCovered(b.pMin.z, b.pMax.z, q.z);
  }

  lemma AxisCovered(lo: real, hi: real, x: real)
    requires lo <= x <= hi
    ensures var c := lo * 0.5 + hi * 0.5; (c - x) * (c - x) <= (c - hi) * (c - hi)
  {
    var c := lo * 0.5 + hi * 0.5;
    SquareMonotone(c - x, c - hi);
  }

  /** A number no further from 0 than another has no larger square. */
  lemma SquareMonotone(a: real, b: real)
    requires Abs(a) <= Abs(b)
    ensures a * a <= b * b
  {
    var x, y := Abs(a), Abs(b);
    assert x * x == a * a && y * y == b * b;
    assert y * y - x * x == (y - x) * (y + x);
    ProductSign(y - x, y + x);
  }

  /** BBox::Expand: move every face outwards by delta. */
  function Expand(b: BBox, delta: real): (r: BBox)
    ensures r.pMax.x - r.pMin.x == (b.pMax.x - b.pMin.x) + 2.0 * delta
    ensures r.pMax.y - r.pMin.y == (b.pMax.y - b.pMin.y) + 2.0 * delta
    ensures r.pMax.z - r.pMin.z == (b.pMax.z - b.pMin.z) + 2.0 * delta
  {
    var pad := Vector(delta, delta, delta);
    BBox(PointSub(b.pMin, pad), PointAdd(b.pMax, pad))
  }

  /** Expanding by a non-negative delta keeps every inside point inside;
      shrinking by the same delta undoes it. */
  lemma ExpandKeepsInside(b: BBox, delta: real, p: Point)
    ensures 0.0 <= delta ==> Includes(Expand(b, delta), b)
    ensures 0.0 <= delta && Inside(b, p) ==> Inside(Expand(b, delta), p)
    ensures Expand(Expand(b, delta), -delta) == b
  {
  }
}
