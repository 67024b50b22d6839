/** The path tracer of main/main.cpp: Reflect and the recursive TraceRay.

    TraceRay follows one path: at each bounce it finds the nearest shape,
    and a diffuse shape sends one new ray in a random direction of the
    hemisphere around the normal, a mirror sends the reflected ray, and any
    other shape ends the path in black. A miss sees the sky colour and
    bounces past the fourth end in black.

    The randomness is a parameter. Along one path every bounce depth is
    visited once, so a Sampler that maps the depth (and the hit point and
    normal) to a direction stands for any sequence of draws the generator
    can make. The renderer also passes an uninitialised float as World's
    incoming t; the Sampler's staleT gives the value it happens to hold at
    each depth, which matters only to triangles (see TriangleQuirk).
 */
module Tracer {
  import opened RealMath
  import opened Geometry
  import opened Shapes
  import opened Worlds
  import Colors

  const MaxDepth: nat := 4

  /** The colour a ray that hits nothing returns. */
  const Sky := Colors.Color(0.6, 0.6, 0.9)

  /** The start of a ray leaving a diffuse and a mirror surface. */
  const DiffuseStart: real := 0.001
  const MirrorStart: real := 0.00001

  // ---------------------------------------------------------------------------
  // Reflect

  /** Reflect(n, dir) = dir − 2·(n·dir)·n: the mirror image of dir in the
      plane with normal n. */
  function Reflect(n: Normal, d: Vector): (r: Vector)
    ensures NormalLengthSquared(n) == 1.0 ==> DotNV(n, r) == -DotNV(n, d)
    ensures Cross(VectorOfNormal(n), Sub(d, r)) == ZeroVector
  {
    var m := VectorOfNormal(n);
    var k := DotNV(n, d);
    var r := Sub(d, Scale(m, 2.0 * k));
    ShiftDot(m, d, 2.0 * k);
    CrossScaleSelf(m, 2.0 * k);
    assert Sub(d, r) == Scale(m, 2.0 * k);
    r
  }

  /** m·(d − s·m) = m·d − s·(m·m). */
  lemma ShiftDot(m: Vector, d: Vector, s: real)
    ensures Dot(m, Sub(d, Scale(m, s))) == Dot(m, d) - s * Dot(m, m)
  {
    assert m.x * (d.x - m.x * s) == m.x * d.x - s * (m.x * m.x);
    assert m.y * (d.y - m.y * s) == m.y * d.y - s * (m.y * m.y);
    assert m.z * (d.z - m.z * s) == m.z * d.z - s * (m.z * m.z);
  }

  /** m × (s·m) = 0. */
  lemma CrossScaleSelf(m: Vector, s: real)
    ensures Cross(m, Scale(m, s)) == ZeroVector
  {
    assert m.y * (m.z * s) - m.z * (m.y * s) == 0.0;
    assert m.z * (m.x * s) - m.x * (m.z * s) == 0.0;
    assert m.x * (m.y * s) - m.y * (m.x * s) == 0.0;
  }

  /** |d − s·m|² = |d|² − 2s·(m·d) + s²·|m|². */
  lemma ShiftLength(m: Vector, d: Vector, s: real)
    ensures LengthSquared(Sub(d, Scale(m, s))) == LengthSquared(d) - 2.0 * s * Dot(m, d) + s * (s * Dot(m, m))
  {
    assert (d.x - m.x * s) * (d.x - m.x * s) == d.x * d.x - 2.0 * s * (m.x * d.x) + s * (s * (m.x * m.x));
    assert (d.y - m.y * s) * (d.y - m.y * s) == d.y * d.y - 2.0 * s * (m.y * d.y) + s * (s * (m.y * m.y));
    assert (d.z - m.z * s) * (d.z - m.z * s) == d.z * d.z - 2.0 * s * (m.z * d.z) + s * (s * (m.z * m.z));
  }

  /** For a unit normal, reflecting keeps the length of the direction and
      reflecting twice gives the direction back. */
  lemma ReflectIsometry(n: Normal, d: Vector)
    requires NormalLengthSquared(n) == 1.0
    ensures LengthSquared(Reflect(n, d)) == LengthSquared(d)
    ensures Reflect(n, Reflect(n, d)) == d
    ensures d != ZeroVector ==> Reflect(n, d) != ZeroVector
  {
    ReflectLength(n, d);
    ReflectTwice(n, d);
  }

  lemma ReflectLength(n: Normal, d: Vector)
    requires NormalLengthSquared(n) == 1.0
    ensures LengthSquared(Reflect(n, d)) == LengthSquared(d)
  {
    var m := VectorOfNormal(n);
    var k := DotNV(n, d);
    ShiftLength(m, d, 2.0 * k);
    assert Dot(m, m) == 1.0;
    assert Reflect(n, d) == Sub(d, Scale(m, 2.0 * k));
    assert (2.0 * k) * ((2.0 * k) * 1.0) == 2.0 * (2.0 * k) * k;
  }

  lemma ReflectTwice(n: Normal, d: Vector)
    requires NormalLengthSquared(n) == 1.0
    ensures Reflect(n, Reflect(n, d)) == d
  {
    var m := VectorOfNormal(n);
    var k := DotNV(n, d);
    var r := Reflect(n, d);
    assert r == Sub(d, Scale(m, 2.0 * k));
    assert DotNV(n, r) == -k;
    var rr := Reflect(n, r);
    assert rr == Sub(r, Scale(m, 2.0 * -k));
    assert rr.x == d.x && rr.y == d.y && rr.z == d.z by {
      assert m.x * (2.0 * -k) == -(m.x * (2.0 * k));
      assert m.y * (2.0 * -k) == -(m.y * (2.0 * k));
      assert m.z * (2.0 * -k) == -(m.z * (2.0 * k));
    }
  }

  // ---------------------------------------------------------------------------
  // The scene and the random draws

  /** Every shape of the scene has a well-defined intersection and normal. */
  predicate Scene(w: World) {
    forall i :: 0 <= i < |w.shapes| ==> WellFormed(w.shapes[i])
  }

  /** A ray every shape accepts: a non-zero direction and a float-range start. */
  predicate Castable(ray: Ray) {
    ray.d != ZeroVector && ray.mint <= Infinity
  }

  lemma SceneReady(w: World, ray: Ray)
    requires Scene(w) && Castable(ray)
    ensures Ready(w, ray)
  {
  }

  /** The random choices along one path: the direction UniformSample returns
      at each bounce depth, and the stale value of TraceRay's t there. */
  datatype Sampler = Sampler(direction: (nat, Point, Normal) -> Vector, staleT: nat -> real)

  /** UniformSample returns a unit vector, so never the zero vector. */
  ghost predicate NonZeroDirections(s: Sampler) {
    forall k: nat, p: Point, n: Normal {:trigger s.direction(k, p, n)} ::
      NormalLengthSquared(n) == 1.0 ==> s.direction(k, p, n) != ZeroVector
  }

  /** UniformSample's direction lies in the hemisphere around the unit
      normal: its cosine with the normal, the draw u1, is in [0, 1]. */
  ghost predicate UpperHemisphere(s: Sampler) {
    forall k: nat, p: Point, n: Normal {:trigger s.direction(k, p, n)} ::
      NormalLengthSquared(n) == 1.0 ==> 0.0 <= DotNV(n, s.direction(k, p, n)) <= 1.0
  }

  // ---------------------------------------------------------------------------
  // TraceRay

  /** Every component of c lies in [lo, hi]. */
  predicate Within(c: Colors.Color, lo: real, hi: real) {
    lo <= c.r <= hi && lo <= c.g <= hi && lo <= c.b <= hi
  }

  /** 0 ≤ a·b·c ≤ bound when a is in [0, bound] and b, c are in [0, 1]. */
  lemma DampedProduct(a: real, b: real, c: real, bound: real)
    requires 0.0 <= a <= bound && 0.0 <= b <= 1.0 && 0.0 <= c <= 1.0
    ensures 0.0 <= a * b * c <= bound
  {
    assert 0.0 <= a * b <= a by {
      assert a - a * b == a * (1.0 - b);
      assert 0.0 <= a * (1.0 - b);
    }
    assert 0.0 <= (a * b) * c <= a * b by {
      assert a * b - (a * b) * c == (a * b) * (1.0 - c);
      assert 0.0 <= (a * b) * (1.0 - c);
    }
  }

  /** The diffuse shading of TraceRay: incoming light times the cosine times
      the surface colour, plus the surface's own emittance. */
  function DiffuseShade(light: Colors.Color, cosine: real, color: Colors.Color, emittance: Colors.Color): (c: Colors.Color)
    ensures light == Colors.Black || cosine == 0.0 || color == Colors.Black ==> c == emittance
  {
    Colors.Add(Colors.Mul(Colors.Scale(light, cosine), color), emittance)
  }

  /** Diffuse shading never amplifies: light in [0, b], a cosine and a colour
      in [0, 1] and an emittance in [0, e] give a colour in [0, b + e]. */
  lemma DiffuseShadeBounded(light: Colors.Color, cosine: real, color: Colors.Color, emittance: Colors.Color,
                            b: real, e: real)
    requires Within(light, 0.0, b) && 0.0 <= cosine <= 1.0
    requires Within(color, 0.0, 1.0) && Within(emittance, 0.0, e)
    ensures Within(DiffuseShade(light, cosine, color, emittance), 0.0, b + e)
  {
    var lit := Colors.Scale(light, cosine);
    var tinted := Colors.Mul(lit, color);
    assert DiffuseShade(light, cosine, color, emittance) == Colors.Add(tinted, emittance);
    ShadeChannel(light.r, cosine, color.r, emittance.r, b, e);
    ShadeChannel(light.g, cosine, color.g, emittance.g, b, e);
    ShadeChannel(light.b, cosine, color.b, emittance.b, b, e);
  }

  lemma ShadeChannel(l: real, cosine: real, col: real, em: real, b: real, e: real)
    requires 0.0 <= l <= b && 0.0 <= cosine <= 1.0 && 0.0 <= col <= 1.0 && 0.0 <= em <= e
    ensures 0.0 <= l * cosine * col + em <= b + e
  {
    DampedProduct(l, cosine, col, b);
  }

  /** TraceRay(ray, depth) for one path of random draws. A ray beyond the
      fourth bounce returns black, a miss returns the sky colour, and
      otherwise the nearest shape's material decides: a diffuse shape shades
      the light from a sampled direction (a new ray from the hit point,
      starting at 0.001), a mirror passes on the light of the reflected ray
      (starting at 0.00001) untinted, and an unassigned material is black. */
  function TraceRay(w: World, ray: Ray, depth: nat, s: Sampler, sqrt: real -> real): (c: Colors.Color)
    requires IsSqrt(sqrt) && Scene(w) && Castable(ray) && NonZeroDirections(s)
    ensures depth > MaxDepth ==> c == Colors.Black
    ensures depth <= MaxDepth && (SceneReady(w, ray); !Worlds.Intersect(w, ray, s.staleT(depth), sqrt).hit) ==> c == Sky
    decreases MaxDepth + 1 - depth
  {
    if depth > MaxDepth then Colors.Black
    else
      SceneReady(w, ray);
      var q := Worlds.Intersect(w, ray, s.staleT(depth), sqrt);
      if !q.hit then Sky
      else
        HitHasNormal(w, ray, s.staleT(depth), sqrt);
        var shape := w.shapes[q.closest.value];
        var p := RayAt(ray, q.t);
        var n := GetNormal(shape, p, sqrt);
        match shape.material
        case Diffuse =>
          var dir := s.direction(depth, p, n);
          var light := TraceRay(w, MakeRay(p, dir, DiffuseStart), depth + 1, s, sqrt);
          DiffuseShade(light, DotNV(n, dir), shape.color, shape.emittance)
        case Mirror =>
          ReflectIsometry(n, ray.d);
          TraceRay(w, MakeRay(p, Reflect(n, ray.d), MirrorStart), depth + 1, s, sqrt)
        case Unassigned => Colors.Black
  }

  // ---------------------------------------------------------------------------
  // What the paths carry

  /** Surface colours in [0, 1] and emittances in [0, e]. */
  predicate Lit(w: World, e: real) {
    forall i :: 0 <= i < |w.shapes| ==>
      Within(w.shapes[i].color, 0.0, 1.0) && Within(w.shapes[i].emittance, 0.0, e)
  }

  /** The most light a path from depth on can gather: the sky's at most 1,
      plus at most e for each bounce still allowed. */
  function Bound(depth: nat, e: real): real {
    1.0 + (if depth <= MaxDepth then (MaxDepth + 1 - depth) as real * e else 0.0)
  }

  lemma BoundStep(depth: nat, e: real)
    requires depth <= MaxDepth && 0.0 <= e
    ensures Bound(depth, e) == Bound(depth + 1, e) + e
    ensures 1.0 <= Bound(depth + 1, e)
  {
    var k := MaxDepth - depth;
    assert (k + 1) as real * e == k as real * e + e;
    assert 0.0 <= k as real * e;
  }

  /** With surface colours in [0, 1], emittances in [0, e] and directions
      in the hemisphere of the normal, every colour TraceRay returns from
      depth on is non-negative and at most 1 + (5 − depth)·e: each bounce
      can add at most one emittance, and the sky is below 1. */
  lemma {:induction false} RadianceBounded(w: World, ray: Ray, depth: nat, s: Sampler, sqrt: real -> real, e: real)
    requires IsSqrt(sqrt) && Scene(w) && Castable(ray) && NonZeroDirections(s)
    requires UpperHemisphere(s) && Lit(w, e) && 0.0 <= e
    ensures Within(TraceRay(w, ray, depth, s, sqrt), 0.0, Bound(depth, e))
    decreases MaxDepth + 1 - depth
  {
    if depth <= MaxDepth {
      SceneReady(w, ray);
      var q := Worlds.Intersect(w, ray, s.staleT(depth), sqrt);
      BoundStep(depth, e);
      if q.hit {
        HitHasNormal(w, ray, s.staleT(depth), sqrt);
        var shape := w.shapes[q.closest.value];
        var p := RayAt(ray, q.t);
        var n := GetNormal(shape, p, sqrt);
        match shape.material
        case Diffuse =>
          var dir := s.direction(depth, p, n);
          var child := MakeRay(p, dir, DiffuseStart);
          RadianceBounded(w, child, depth + 1, s, sqrt, e);
          DiffuseShadeBounded(TraceRay(w, child, depth + 1, s, sqrt), DotNV(n, dir), shape.color, shape.emittance,
                              Bound(depth + 1, e), e);
        case Mirror =>
          ReflectIsometry(n, ray.d);
          RadianceBounded(w, MakeRay(p, Reflect(n, ray.d), MirrorStart), depth + 1, s, sqrt, e);
        case Unassigned =>
      }
    }
  }

  /** Every shape is a mirror. */
  predicate AllMirrors(w: World) {
    forall i :: 0 <= i < |w.shapes| ==> w.shapes[i].material == Mirror
  }

  /** In a hall of mirrors a path never picks up colour: it ends either in
      the sky or, after too many bounces, in black. */
  lemma {:induction false} MirrorsShowSkyOrBlack(w: World, ray: Ray, depth: nat, s: Sampler, sqrt: real -> real)
    requires IsSqrt(sqrt) && Scene(w) && Castable(ray) && NonZeroDirections(s)
    requires AllMirrors(w)
    ensures TraceRay(w, ray, depth, s, sqrt) in {Sky, Colors.Black}
    decreases MaxDepth + 1 - depth
  {
    if depth <= MaxDepth {
      SceneReady(w, ray);
      var q := Worlds.Intersect(w, ray, s.staleT(depth), sqrt);
      if q.hit {
        HitHasNormal(w, ray, s.staleT(depth), sqrt);
        var shape := w.shapes[q.closest.value];
        var p := RayAt(ray, q.t);
        var n := GetNormal(shape, p, sqrt);
        ReflectIsometry(n, ray.d);
        MirrorsShowSkyOrBlack(w, MakeRay(p, Reflect(n, ray.d), MirrorStart), depth + 1, s, sqrt);
      }
    }
  }
}
