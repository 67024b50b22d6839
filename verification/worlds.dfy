/** The scene of core/world.h and core/world.cpp: an ordered list of shapes
    and the nearest-hit query over it.

    World::Intersect returns a Shape pointer; here the closest shape is its
    position in the list, so that two equal shapes added twice stay
    distinguishable, as the two pointers are in the renderer. */
module Worlds {
  import opened RealMath
  import opened Geometry
  import opened Shapes

  datatype Option<T> = None | Some(value: T)

  datatype World = World(shapes: seq<Shape>)

  /** The result of World::Intersect: its return value, the final t and the
      closest shape (None for NULL). */
  datatype Query = Query(hit: bool, t: real, closest: Option<nat>)

  const EmptyWorld := World([])

  /** World::AddShape: push_back. Shapes already present keep their place. */
  function AddShape(w: World, s: Shape): (r: World)
    ensures |r.shapes| == |w.shapes| + 1
    ensures r.shapes[..|w.shapes|] == w.shapes
    ensures r.shapes[|w.shapes|] == s
  {
    World(w.shapes + [s])
  }

  /** Adding shapes one after another lists them in insertion order. */
  lemma {:induction false} AddShapesInOrder(w: World, s1: Shape, s2: Shape)
    ensures AddShape(AddShape(w, s1), s2).shapes == w.shapes + [s1, s2]
  {
    var r := AddShape(AddShape(w, s1), s2);
    assert r.shapes[..|w.shapes|] == w.shapes by {
      assert r.shapes[..|w.shapes| + 1][..|w.shapes|] == r.shapes[..|w.shapes|];
    }
  }

  /** Every shape can be asked about this ray. */
  predicate Ready(w: World, ray: Ray) {
    forall i :: 0 <= i < |w.shapes| ==> CanIntersect(w.shapes[i], ray)
  }

  // ---------------------------------------------------------------------------
  // A reference description of the per-shape calls

  /** The t that the call on shape i receives: the caller's t for the first
      shape, then whatever the previous call left in t. */
  function ThreadedT(w: World, ray: Ray, t0: real, i: nat, sqrt: real -> real): real
    requires IsSqrt(sqrt) && Ready(w, ray)
    requires i <= |w.shapes|
  {
    if i == 0 then t0
    else Shapes.Intersect(w.shapes[i - 1], ray, ThreadedT(w, ray, t0, i - 1, sqrt), sqrt).t
  }

  /** What the call on shape i reports. */
  function Reply(w: World, ray: Ray, t0: real, i: nat, sqrt: real -> real): Hit
    requires IsSqrt(sqrt) && Ready(w, ray)
    requires i < |w.shapes|
  {
    Shapes.Intersect(w.shapes[i], ray, ThreadedT(w, ray, t0, i, sqrt), sqrt)
  }

  /** Shape i reports a hit at a t strictly between 0 and INFINITY. */
  predicate Qualifies(w: World, ray: Ray, t0: real, i: nat, sqrt: real -> real)
    requires IsSqrt(sqrt) && Ready(w, ray)
    requires i < |w.shapes|
  {
    var h := Reply(w, ray, t0, i, sqrt);
    h.hit && 0.0 < h.t < Infinity
  }

  /** What holds of the loop's variables after the first i shapes: t is the
      threaded t; hitOne says whether some shape so far qualified; if so,
      closest is one of them, mint is its t, no qualifying t so far is
      smaller, and every qualifying shape before closest had a larger t. */
  ghost predicate ScanState(w: World, ray: Ray, t0: real, sqrt: real -> real,
                            i: nat, t: real, mint: real, closest: Option<nat>, hitOne: bool)
    requires IsSqrt(sqrt) && Ready(w, ray)
    requires i <= |w.shapes|
  {
    && t == ThreadedT(w, ray, t0, i, sqrt)
    && (hitOne <==> exists j :: 0 <= j < i && Qualifies(w, ray, t0, j, sqrt))
    && (!hitOne ==> mint == Infinity && closest == None)
    && (hitOne ==>
          && closest.Some? && closest.value < i
          && Qualifies(w, ray, t0, closest.value, sqrt)
          && mint == Reply(w, ray, t0, closest.value, sqrt).t
          && (forall j :: 0 <= j < i && Qualifies(w, ray, t0, j, sqrt) ==> mint <= Reply(w, ray, t0, j, sqrt).t)
          && (forall j :: 0 <= j < closest.value && Qualifies(w, ray, t0, j, sqrt) ==> mint < Reply(w, ray, t0, j, sqrt).t))
  }

  /** What World::Intersect promises of its result. */
  ghost predicate NearestHit(w: World, ray: Ray, t0: real, sqrt: real -> real, q: Query)
    requires IsSqrt(sqrt) && Ready(w, ray)
  {
    && (q.hit <==> exists j :: 0 <= j < |w.shapes| && Qualifies(w, ray, t0, j, sqrt))
    && (!q.hit ==> q.t == Infinity && q.closest == None)
    && (q.hit ==>
          && q.closest.Some? && q.closest.value < |w.shapes|
          && Qualifies(w, ray, t0, q.closest.value, sqrt)
          && q.t == Reply(w, ray, t0, q.closest.value, sqrt).t
          && (forall j :: 0 <= j < |w.shapes| && Qualifies(w, ray, t0, j, sqrt) ==> q.t <= Reply(w, ray, t0, j, sqrt).t)
          && (forall j :: 0 <= j < q.closest.value && Qualifies(w, ray, t0, j, sqrt) ==> q.t < Reply(w, ray, t0, j, sqrt).t))
  }

  // ---------------------------------------------------------------------------
  // World::Intersect

  /** The loop of World::Intersect from shape i on. A shape is taken when its
      call reports a hit with t < mint (strictly, so an equal t later on does
      not displace it) and t > 0; t is passed on to the next call either way. */
  function Scan(w: World, ray: Ray, t0: real, sqrt: real -> real,
                i: nat, t: real, mint: real, closest: Option<nat>, hitOne: bool): (q: Query)
    requires IsSqrt(sqrt) && Ready(w, ray)
    requires i <= |w.shapes|
    requires ScanState(w, ray, t0, sqrt, i, t, mint, closest, hitOne)
    ensures NearestHit(w, ray, t0, sqrt, q)
    decreases |w.shapes| - i
  {
    if i == |w.shapes| then
      ScanDone(w, ray, t0, sqrt, t, mint, closest, hitOne);
      Query(hitOne, mint, closest)
    else
      var h := Shapes.Intersect(w.shapes[i], ray, t, sqrt);
      assert h == Reply(w, ray, t0, i, sqrt);
      if h.hit && h.t < mint && h.t > 0.0 then
        ScanTake(w, ray, t0, sqrt, i, t, mint, closest, hitOne);
        Scan(w, ray, t0, sqrt, i + 1, h.t, h.t, Some(i), true)
      else
        ScanSkip(w, ray, t0, sqrt, i, t, mint, closest, hitOne);
        Scan(w, ray, t0, sqrt, i + 1, h.t, mint, closest, hitOne)
  }

  /** Once every shape is scanned, the loop's description is NearestHit. */
  lemma ScanDone(w: World, ray: Ray, t0: real, sqrt: real -> real,
                 t: real, mint: real, closest: Option<nat>, hitOne: bool)
    requires IsSqrt(sqrt) && Ready(w, ray)
    requires ScanState(w, ray, t0, sqrt, |w.shapes|, t, mint, closest, hitOne)
    ensures NearestHit(w, ray, t0, sqrt, Query(hitOne, mint, closest))
  {
  }

  /** Taking shape i keeps the scan's description true. */
  lemma ScanTake(w: World, ray: Ray, t0: real, sqrt: real -> real,
                 i: nat, t: real, mint: real, closest: Option<nat>, hitOne: bool)
    requires IsSqrt(sqrt) && Ready(w, ray)
    requires i < |w.shapes|
    requires ScanState(w, ray, t0, sqrt, i, t, mint, closest, hitOne)
    requires var h := Reply(w, ray, t0, i, sqrt); h.hit && h.t < mint && h.t > 0.0
    ensures var h := Reply(w, ray, t0, i, sqrt);
            ScanState(w, ray, t0, sqrt, i + 1, h.t, h.t, Some(i), true)
  {
    var h := Reply(w, ray, t0, i, sqrt);
    assert mint <= Infinity;
    assert Qualifies(w, ray, t0, i, sqrt);
    forall j | 0 <= j < i + 1 && Qualifies(w, ray, t0, j, sqrt)
      ensures h.t <= Reply(w, ray, t0, j, sqrt).t
    {
    }
  }

  /** Passing over shape i keeps the scan's description true. */
  lemma ScanSkip(w: World, ray: Ray, t0: real, sqrt: real -> real,
                 i: nat, t: real, mint: real, closest: Option<nat>, hitOne: bool)
    requires IsSqrt(sqrt) && Ready(w, ray)
    requires i < |w.shapes|
    requires ScanState(w, ray, t0, sqrt, i, t, mint, closest, hitOne)
    requires var h := Reply(w, ray, t0, i, sqrt); !(h.hit && h.t < mint && h.t > 0.0)
    ensures var h := Reply(w, ray, t0, i, sqrt);
            ScanState(w, ray, t0, sqrt, i + 1, h.t, mint, closest, hitOne)
  {
    var h := Reply(w, ray, t0, i, sqrt);
    if !hitOne {
      assert !Qualifies(w, ray, t0, i, sqrt);
      assert forall j :: 0 <= j < i + 1 && Qualifies(w, ray, t0, j, sqrt) ==> j < i;
    } else {
      assert mint < Infinity;
    }
  }

  /** World::Intersect: scan every shape with mint = INFINITY, closest =
      NULL and hitOne = false to start with; afterwards t = mint. */
  function Intersect(w: World, ray: Ray, t: real, sqrt: real -> real): (q: Query)
    requires IsSqrt(sqrt) && Ready(w, ray)
    ensures NearestHit(w, ray, t, sqrt, q)
  {
    Scan(w, ray, t, sqrt, 0, t, Infinity, None, false)
  }

  /** An empty world is missed by every ray. */
  lemma EmptyWorldMisses(ray: Ray, t: real, sqrt: real -> real)
    requires IsSqrt(sqrt)
    ensures Intersect(EmptyWorld, ray, t, sqrt) == Query(false, Infinity, None)
  {
  }

  /** On a hit the point ray(t) is one where the closest shape's normal is
      defined (for a sphere, not its centre), and t is positive. */
  lemma HitHasNormal(w: World, ray: Ray, t: real, sqrt: real -> real)
    requires IsSqrt(sqrt) && Ready(w, ray)
    requires forall i :: 0 <= i < |w.shapes| ==> WellFormed(w.shapes[i])
    requires Intersect(w, ray, t, sqrt).hit
    ensures var q := Intersect(w, ray, t, sqrt);
            var s := w.shapes[q.closest.value];
            0.0 < q.t && WellFormed(s) && (s.Sphere? ==> RayAt(ray, q.t) != s.center)
  {
    var q := Intersect(w, ray, t, sqrt);
    var k := q.closest.value;
    HitNormalDefined(w.shapes[k], ray, ThreadedT(w, ray, t, k, sqrt), sqrt);
  }
}
