/** The pinhole camera of core/camera.h and core/camera.cpp.

    The film sits dfilm in front of the camera's position along direction;
    pixel (x, y) lies (x − midx)·0.01 along right and (y − midy)·0.01 along
    −up from the film centre. A ray starts at the position, passes through
    that point of the film and ignores hits closer than 0.000001.

    The random draws urd(mt) are parameters (ux, uy) here. GetRay also stores
    the film centre in a private member that nothing reads; that side effect
    is not modelled.
 */
module Cameras {
  import opened Geometry
  import opened Films

  datatype Camera = Camera(position: Point, direction: Vector, film: Film,
                           up: Vector, right: Vector,
                           dfilm: real, midx: real, midy: real)

  /** The start of every camera ray. */
  const RayStart: real := 0.000001

  /** The distance between neighbouring pixels on the film. */
  const PixelPitch: real := 0.01

  /** The width of a sub-pixel cell in GetJitteredSubRay. */
  const SubPitch: real := 0.005

  const WorldUp := Vector(0.0, 1.0, 0.0)
  const WorldRight := Vector(1.0, 0.0, 0.0)

  /** Camera(filmWidth, filmHeight): the film centre is pixel (w/2, h/2)
      and the film is w/80 in front of the pinhole. Position and direction
      are the default (zero) point and vector. */
  function NewCamera(width: nat, height: nat): (c: Camera)
    ensures Valid(c.film) && c.film == NewFilm(width, height)
    ensures 2.0 * c.midx == width as real && 2.0 * c.midy == height as real
    ensures 80.0 * c.dfilm == width as real
    ensures c.up == WorldUp && c.right == WorldRight
  {
    Camera(Origin, ZeroVector, NewFilm(width, height), WorldUp, WorldRight,
           width as real / 80.0, width as real / 2.0, height as real / 2.0)
  }

  /** Camera(): a 400 × 400 film, 5 in front of the pinhole, centred on
      pixel (200, 200). */
  function DefaultCamera(): Camera {
    Camera(Origin, ZeroVector, NewFilm(400, 400), WorldUp, WorldRight, 5.0, 200.0, 200.0)
  }

  /** The default camera is the one the sizing constructor builds for a
      400 × 400 film. */
  lemma DefaultIsSized400()
    ensures DefaultCamera() == NewCamera(400, 400)
  {
    var c := NewCamera(400, 400);
    assert 80.0 * c.dfilm == 400.0;
    assert 2.0 * c.midx == 400.0;
    assert 2.0 * c.midy == 400.0;
  }

  // ---------------------------------------------------------------------------
  // Film offsets

  /** (x − mid)·0.01: where pixel x lies from the film centre. */
  function PixelOffset(x: real, mid: real): real {
    (x - mid) * PixelPitch
  }

  /** (x − mid)·0.01 + u·0.01: a random point of pixel x for a draw u. */
  function JitterOffset(x: real, mid: real, u: real): (r: real)
    ensures 0.0 <= u < 1.0 ==> PixelOffset(x, mid) <= r < PixelOffset(x, mid) + PixelPitch
    ensures u == 0.0 ==> r == PixelOffset(x, mid)
  {
    (x - mid) * PixelPitch + u * PixelPitch
  }

  /** A random point of sub-cell sub of pixel x: the cell runs from
      (sub − 1)·0.005 to sub·0.005 past the pixel's offset, and the draw u
      interpolates between its ends. */
  function SubOffset(x: real, mid: real, sub: int, u: real): (r: real)
    ensures 0.0 <= u <= 1.0 ==>
              (sub - 1) as real * SubPitch + PixelOffset(x, mid) <= r <= sub as real * SubPitch + PixelOffset(x, mid)
    ensures u == 0.0 ==> r == (sub - 1) as real * SubPitch + PixelOffset(x, mid)
    ensures u == 1.0 ==> r == sub as real * SubPitch + PixelOffset(x, mid)
  {
    var d := (x - mid) * PixelPitch;
    var minv := (sub - 1) as real * SubPitch + d;
    var maxv := sub as real * SubPitch + d;
    assert maxv - minv == SubPitch;
    assert u == 0.0 ==> u * (maxv - minv) == 0.0;
    minv + u * (maxv - minv)
  }

  // ---------------------------------------------------------------------------
  // Ray generation

  /** The point filmCenter + dx·right + dy·(−up) of the film. */
  function FilmPoint(c: Camera, dx: real, dy: real): Point {
    var filmCenter := PointAdd(c.position, Scale(c.direction, c.dfilm));
    PointAdd(PointAdd(filmCenter, Scale(c.right, dx)), Scale(Neg(c.up), dy))
  }

  /** Ray(position, p − position, 0.000001) through the film point at
      (dx, dy): its direction is dfilm·direction + dx·right − dy·up,
      wherever the camera stands. */
  function RayThrough(c: Camera, dx: real, dy: real): (r: Ray)
    ensures r.o == c.position && r.mint == RayStart && r.depth == 0
    ensures r.d == Add(Add(Scale(c.direction, c.dfilm), Scale(c.right, dx)), Scale(c.up, -dy))
  {
    MakeRay(c.position, PointDiff(FilmPoint(c, dx, dy), c.position), RayStart)
  }

  /** The renderer asserts the pixel is on the film, inclusively: x = width
      and y = height are accepted. */
  predicate OnFilm(c: Camera, x: nat, y: nat) {
    x <= c.film.width && y <= c.film.height
  }

  /** Camera::GetRay: the ray through the corner of pixel (x, y). */
  function GetRay(c: Camera, x: nat, y: nat): (r: Ray)
    requires OnFilm(c, x, y)
    ensures r.o == c.position && r.mint == RayStart && r.depth == 0
    ensures r.d == Add(Add(Scale(c.direction, c.dfilm), Scale(c.right, PixelOffset(x as real, c.midx))),
                       Scale(c.up, -PixelOffset(y as real, c.midy)))
  {
    RayThrough(c, PixelOffset(x as real, c.midx), PixelOffset(y as real, c.midy))
  }

  /** Camera::GetJitteredRay: the ray through a point of pixel (x, y)
      chosen by the draws ux and uy. */
  function GetJitteredRay(c: Camera, x: nat, y: nat, ux: real, uy: real): (r: Ray)
    requires OnFilm(c, x, y)
    ensures r.o == c.position && r.mint == RayStart && r.depth == 0
    ensures r.d == Add(Add(Scale(c.direction, c.dfilm), Scale(c.right, JitterOffset(x as real, c.midx, ux))),
                       Scale(c.up, -JitterOffset(y as real, c.midy, uy)))
  {
    RayThrough(c, JitterOffset(x as real, c.midx, ux), JitterOffset(y as real, c.midy, uy))
  }

  /** Camera::GetJitteredSubRay: the ray through a point of sub-cell
      (subx, suby) of pixel (x, y) chosen by the draws ux and uy. */
  function GetJitteredSubRay(c: Camera, x: nat, y: nat, subx: int, suby: int, ux: real, uy: real): (r: Ray)
    requires OnFilm(c, x, y)
    ensures r.o == c.position && r.mint == RayStart && r.depth == 0
    ensures r.d == Add(Add(Scale(c.direction, c.dfilm), Scale(c.right, SubOffset(x as real, c.midx, subx, ux))),
                       Scale(c.up, -SubOffset(y as real, c.midy, suby, uy)))
  {
    RayThrough(c, SubOffset(x as real, c.midx, subx, ux), SubOffset(y as real, c.midy, suby, uy))
  }

  /** The ray through the film centre points along dfilm·direction. */
  lemma CentreRay(c: Camera, x: nat, y: nat)
    requires OnFilm(c, x, y)
    requires x as real == c.midx && y as real == c.midy
    ensures GetRay(c, x, y).d == Scale(c.direction, c.dfilm)
  {
    assert PixelOffset(x as real, c.midx) == 0.0;
    assert PixelOffset(y as real, c.midy) == 0.0;
  }

  /** A jittered ray with both draws 0 is the plain ray of the same pixel,
      and so is a sub-ray of cell (1, 1) with both draws 0. */
  lemma JitterFromCorner(c: Camera, x: nat, y: nat)
    requires OnFilm(c, x, y)
    ensures GetJitteredRay(c, x, y, 0.0, 0.0) == GetRay(c, x, y)
    ensures GetJitteredSubRay(c, x, y, 1, 1, 0.0, 0.0) == GetRay(c, x, y)
  {
  }

  // ---------------------------------------------------------------------------
  // Movement

  const Down := Vector(0.0, -1.0, 0.0)

  /** The squared length of the horizontal part of v. */
  function HorizontalSq(v: Vector): real {
    v.x * v.x + v.z * v.z
  }

  /** Cross(down, direction): horizontal, square to the direction, as long as
      the direction's horizontal part, and on the side where direction × v
      points down, which with y up is the left. */
  function LeftOf(direction: Vector): (v: Vector)
    ensures v.y == 0.0 && Dot(v, direction) == 0.0
    ensures LengthSquared(v) == HorizontalSq(direction)
    ensures Cross(direction, v).y == -HorizontalSq(direction)
  {
    VerticalCross(Down, direction);
    QuarterTurnAbout(Down.y, direction);
    Cross(Down, direction)
  }

  /** Cross(direction, down): the mirror image of LeftOf, on the side where
      direction × v points up. */
  function RightOf(direction: Vector): (v: Vector)
    ensures v.y == 0.0 && Dot(v, direction) == 0.0
    ensures LengthSquared(v) == HorizontalSq(direction)
    ensures Cross(direction, v).y == HorizontalSq(direction)
  {
    VerticalCross(Down, direction);
    QuarterTurnAbout(Down.y, direction);
    Cross(direction, Down)
  }

  /** Crossing with a vertical vector a = (0, k, 0) turns the other factor's
      horizontal part a quarter turn about the vertical and scales it by k. */
  lemma VerticalCross(a: Vector, b: Vector)
    requires a.x == 0.0 && a.z == 0.0
    ensures Cross(a, b) == Vector(a.y * b.z, 0.0, -(a.y * b.x))
    ensures Cross(b, a) == Neg(Cross(a, b))
  {
    CrossAntiCommutative(b, a);
  }

  /** The quarter turn u = (k·v.z, 0, −k·v.x) of v's horizontal part is
      square to v, of squared length k²·HorizontalSq(v), and v × u points up
      by k·HorizontalSq(v); −u is the same on the other side. */
  lemma QuarterTurnAbout(k: real, v: Vector)
    ensures var u := Vector(k * v.z, 0.0, -(k * v.x));
            && Dot(u, v) == 0.0 && Dot(Neg(u), v) == 0.0
            && LengthSquared(u) == k * k * HorizontalSq(v)
            && LengthSquared(Neg(u)) == k * k * HorizontalSq(v)
            && Cross(v, u).y == k * HorizontalSq(v)
            && Cross(v, Neg(u)).y == -(k * HorizontalSq(v))
  {
    var u := Vector(k * v.z, 0.0, -(k * v.x));
    assert Cross(v, u).y == v.z * (k * v.z) - v.x * -(k * v.x);
    assert LengthSquared(u) == (k * v.z) * (k * v.z) + (k * v.x) * (k * v.x);
    SquareOfProduct(k, v.z);
    SquareOfProduct(k, v.x);
  }

  lemma SquareOfProduct(k: real, x: real)
    ensures (k * x) * (k * x) == k * k * (x * x)
  {
  }

  /** A step of length d along a horizontal vector v square to the direction
      stays horizontal and square to the direction. */
  lemma SideStep(p: Point, v: Vector, direction: Vector, d: real)
    requires v.y == 0.0 && Dot(v, direction) == 0.0
    ensures PointDiff(PointAdd(p, Scale(v, d)), p) == Scale(v, d)
    ensures Scale(v, d).y == 0.0 && Dot(Scale(v, d), direction) == 0.0
  {
    AffineRoundTrip(p, p, Scale(v, d));
    ScaleDot(v, direction, d);
  }

  /** Scaling the second factor scales the cross product's vertical part. */
  lemma CrossScaleRightY(a: Vector, v: Vector, d: real)
    ensures Cross(a, Scale(v, d)).y == d * Cross(a, v).y
  {
    assert Cross(a, Scale(v, d)).y == a.z * (v.x * d) - a.x * (v.z * d);
  }

  /** Camera::MoveLeft: only the position changes, by a horizontal step
      square to the direction, d times as long as the direction's horizontal
      part, to the left of the direction for d > 0. */
  function MoveLeft(c: Camera, d: real): (r: Camera)
    ensures r == c.(position := r.position)
    ensures var step := PointDiff(r.position, c.position);
            && step.y == 0.0 && Dot(step, c.direction) == 0.0
            && LengthSquared(step) == d * d * HorizontalSq(c.direction)
            && Cross(c.direction, step).y == -(d * HorizontalSq(c.direction))
  {
    SideStep(c.position, LeftOf(c.direction), c.direction, d);
    LengthSquaredScale(LeftOf(c.direction), d);
    CrossScaleRightY(c.direction, LeftOf(c.direction), d);
    c.(position := PointAdd(c.position, Scale(LeftOf(c.direction), d)))
  }

  /** Camera::MoveRight: the same step to the right of the direction. */
  function MoveRight(c: Camera, d: real): (r: Camera)
    ensures r == c.(position := r.position)
    ensures var step := PointDiff(r.position, c.position);
            && step.y == 0.0 && Dot(step, c.direction) == 0.0
            && LengthSquared(step) == d * d * HorizontalSq(c.direction)
            && Cross(c.direction, step).y == d * HorizontalSq(c.direction)
  {
    SideStep(c.position, RightOf(c.direction), c.direction, d);
    LengthSquaredScale(RightOf(c.direction), d);
    CrossScaleRightY(c.direction, RightOf(c.direction), d);
    c.(position := PointAdd(c.position, Scale(RightOf(c.direction), d)))
  }

  /** Camera::MoveForward: step d along direction. */
  function MoveForward(c: Camera, d: real): (r: Camera)
    ensures r == c.(position := r.position)
    ensures PointDiff(r.position, c.position) == Scale(c.direction, d)
  {
    c.(position := PointAdd(c.position, Scale(c.direction, d)))
  }

  /** Camera::MoveBackward: step d against direction. */
  function MoveBackward(c: Camera, d: real): (r: Camera)
    ensures r == c.(position := r.position)
    ensures PointDiff(c.position, r.position) == Scale(c.direction, d)
  {
    c.(position := PointSub(c.position, Scale(c.direction, d)))
  }

  /** Left and right steps of the same size undo each other, in either order. */
  lemma LeftRightRoundTrip(c: Camera, d: real)
    ensures MoveRight(MoveLeft(c, d), d) == c
    ensures MoveLeft(MoveRight(c, d), d) == c
  {
    CrossAntiCommutative(Down, c.direction);
    assert LeftOf(c.direction) == Neg(RightOf(c.direction));
  }

  /** Forward and backward steps of the same size undo each other, in either
      order. */
  lemma ForwardBackwardRoundTrip(c: Camera, d: real)
    ensures MoveBackward(MoveForward(c, d), d) == c
    ensures MoveForward(MoveBackward(c, d), d) == c
  {
  }
}
