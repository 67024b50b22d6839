# SmurfPT core in Dafny

A model of the core of SmurfPT, a small progressive path tracer. The
model covers:

- The vector, point, normal and ray algebra of `core/geometry.*`, with the
  axis-aligned bounding box.
- RGB colours and the film buffer.
- Sphere and triangle intersection, and the nearest-hit query over a world of
  shapes.
- Camera ray generation and movement.
- The recursive `TraceRay` with `Reflect`.
- The progressive render loop of `main/main.cpp`. It adds one sample per
  pixel per frame, shows the running mean, and clears the film when the
  camera moves.

Some things work differently from the C++ code:

- **Floats and square roots.** Floats are `real`. `INFINITY` is the
  constant `FLT_MAX`, as in `core/tracer.h`. `sqrtf` is a function parameter
  `sqrt` constrained by `RealMath.IsSqrt`: for x ≥ 0, sqrt(x) ≥ 0 and
  sqrt(x)² = x.
- **Randomness.** Random draws are parameters. The camera's jitter draws are
  `ux`, `uy`. A `Tracer.Sampler` maps each bounce depth to the direction
  `UniformSample` returned there. It also gives the value TraceRay's
  uninitialised `float t` happens to hold. A path visits each depth once, so
  one Sampler stands for any sequence of draws.
- **Shapes.** The `Shape` hierarchy is the closed datatype
  `Shapes.Shape = Sphere | Triangle`. Each carries its colour, its emittance
  and the material tag the tracer branches on. A world is a sequence of
  shapes. World::Intersect reports the closest shape by its position in that
  sequence.
- **The two triangle quirks are kept as written.**
  - The edge tests run at `ray(t)` for the *incoming* `t`.
  - The plane offset is `−(n·o + n·p1)`.

  `TriangleQuirk` and `Shapes.PlaneOffsetAsWritten` show what each does.
  World::Intersect threads `t` from one shape's call to the next, and the
  model does the same.
- **Files and modules.** Modules follow the C++ files:

  | module | file |
  |---|---|
  | `RealMath` | realmath.dfy |
  | `Geometry` | geometry.dfy |
  | `Boxes` | bbox.dfy |
  | `Colors` | color.dfy |
  | `Films` | film.dfy |
  | `Shapes` | shapes.dfy |
  | `TriangleQuirk` | triangle_quirk.dfy |
  | `Worlds` | worlds.dfy |
  | `Cameras` | camera.dfy |
  | `Tracer` | tracer.dfy |
  | `Renderer` | session.dfy |

## Model

| member | source | states |
|---|---|---|
| `RealMath.Lerp` | core/tracer.h:14-16 | t = 0 gives v1, t = 1 gives v2, and (r − v1)/(v2 − v1) recovers t when v1 ≠ v2 |
| `Geometry.NormalVectorRoundTrip` | core/geometry.h:76 | the explicit Vector↔Normal conversions are inverse to each other |
| `Geometry.Div` | core/geometry.cpp:62-66 | needs f ≠ 0 (the assert); the quotient multiplied by f is v again |
| `Geometry.Index` | core/geometry.cpp:11-14 | needs i ≤ 2 (the assert); 0, 1, 2 select x, y, z |
| `Geometry.LengthSquared` | core/geometry.cpp:21-23 | never negative, and zero exactly for the zero vector |
| `Geometry.Length` | core/geometry.cpp:25-27 | the non-negative root of LengthSquared, zero exactly for the zero vector |
| `Geometry.Add` | core/geometry.cpp:29-31 | componentwise sum; its inverse is Sub: (a + b) − b = a and (a − b) + b = a, stated by `Geometry.VectorRoundTrips` |
| `Geometry.Sub` | core/geometry.cpp:40-42 | componentwise difference; the inverse of Add, stated by `Geometry.VectorRoundTrips` |
| `Geometry.Scale` | core/geometry.cpp:51-53 | v·f; scales the squared length by f² (`Geometry.LengthSquaredScale`) and is undone by /f for f ≠ 0 (`Geometry.VectorRoundTrips`) |
| `Geometry.Neg` | core/geometry.cpp:77-79 | −v; a + (−a) = 0 and −(−a) = a (`Geometry.VectorRoundTrips`), and it negates the dot (`Geometry.DotNeg`) |
| `Geometry.VectorRoundTrips` | core/geometry.cpp:29-79 | (a+b)−b = a, (a−b)+b = a, a+(−a) = 0, −(−a) = a, and (a·f)/f = a for f ≠ 0 |
| `Geometry.PointDiv` | core/geometry.cpp:128-131 | needs f ≠ 0; scaling the quotient by f gives p again |
| `Geometry.PointIndex` | core/geometry.cpp:92-95 | needs i ≤ 2; 0, 1, 2 select x, y, z |
| `Geometry.PointAdd` | core/geometry.cpp:81-83 | p + v; (p + v) − p = v, stated by `Geometry.AffineRoundTrip` |
| `Geometry.PointDiff` | core/geometry.cpp:106-108 | p − q, the vector from q to p; q + (p − q) = p and p − q = −(q − p), stated by `Geometry.AffineRoundTrip` |
| `Geometry.AffineRoundTrip` | core/geometry.cpp:81-108 | p + (q − p) = q, (p + v) − p = v, (p + v) − v = p, and p − q = −(q − p) |
| `Geometry.NormalDiv` | core/geometry.cpp:203-207 | needs f ≠ 0; scaling the quotient by f gives n again |
| `Geometry.NormalIndex` | core/geometry.cpp:152-155 | needs i ≤ 2; 0, 1, 2 select x, y, z |
| `Geometry.NormalLengthSquared` | core/geometry.cpp:162-164 | equals the squared length of the same triple read as a vector |
| `Geometry.NormalLength` | core/geometry.cpp:166-168 | equals the length of the same triple read as a vector |
| `Geometry.NormalArithmeticIsVectorArithmetic` | core/geometry.cpp:170-220 | normal +, −, ·f, /f and negation agree with the vector operations |
| `Geometry.Dot` | core/geometry.h:182-184 | the vector dot; symmetric (`Geometry.DotSymmetric`), linear in each argument (`Geometry.ScaleDot`, `Geometry.DotScale`) |
| `Geometry.DotNN` | core/geometry.h:186-188 | the Normal·Normal overload equals the vector dot of the same triples |
| `Geometry.DotNV` | core/geometry.h:190-192 | the Normal·Vector overload equals the vector dot |
| `Geometry.DotVN` | core/geometry.h:194-196 | the Vector·Normal overload equals the vector dot and the Normal·Vector overload |
| `Geometry.AbsDot` | core/geometry.h:198-200 | non-negative and equal to the dot or its negation |
| `Geometry.AbsDotNN` | core/geometry.h:202-204 | agrees with AbsDot on the same triples |
| `Geometry.AbsDotNV` | core/geometry.h:206-208 | agrees with AbsDot on the same triples |
| `Geometry.AbsDotVN` | core/geometry.h:210-212 | agrees with AbsDot on the same triples |
| `Geometry.DotSymmetric` | core/geometry.h:182-212 | the dot is symmetric, the mixed overloads compute the same value, and every AbsDot is ≥ 0 |
| `Geometry.DotNeg` | core/geometry.cpp:77-79 | negating either argument negates the dot |
| `Geometry.Cross` | core/geometry.h:214-218 | right-handed cross product; orthogonal to both arguments (`Geometry.CrossOrthogonal`) and anti-commutative (`Geometry.CrossAntiCommutative`) |
| `Geometry.CrossOrthogonal` | core/geometry.h:214-218 | a × b is orthogonal to a and to b |
| `Geometry.CrossAntiCommutative` | core/geometry.h:214-218 | a × b = −(b × a) |
| `Geometry.CrossLengthSquared` | core/geometry.h:214-218 | Lagrange's identity: abs(a × b)² = abs(a)²·abs(b)² − (a·b)² |
| `Geometry.CrossLinear` | core/geometry.h:214-218 | the cross product is linear in its first argument |
| `Geometry.Normalize` | core/geometry.h:220-222 | needs v ≠ 0; the result has length 1 and Length(v) times it is v |
| `Geometry.NormalizeIsScale` | core/geometry.h:220-222 | the result is v times the reciprocal of its length, as operator/ computes it |
| `Geometry.NormalizeNormal` | core/geometry.h:224-226 | normalising a normal normalises the same triple as a vector |
| `Geometry.QuarterTurn` | core/geometry.h:233-240 | the unnormalised second axis is orthogonal to v1 in both branches |
| `Geometry.CoordinateSystemDivisor` | core/geometry.h:231-240 | for v1 within 0.001 of unit length (the assert), the root divided by is non-zero in either branch |
| `Geometry.CoordinateSystem` | core/geometry.h:230-242 | v2 ⟂ v1; v2.y = 0 when abs(v1.x) > abs(v1.y), v2.x = 0 otherwise; v3 = v1 × v2 |
| `Geometry.CoordinateSystemOrthonormal` | core/geometry.h:230-242 | v2 has length 1, v3 is orthogonal to v1 and v2, and v3 has length 1 when v1 does |
| `Geometry.Distance` | core/geometry.h:244-246 | non-negative root of DistanceSquared, zero exactly for equal points |
| `Geometry.DistanceSquared` | core/geometry.h:248-250 | non-negative, zero exactly for equal points |
| `Geometry.DistanceSymmetric` | core/geometry.h:244-250 | both distances are symmetric |
| `Geometry.FaceForwardNV` | core/geometry.h:253-255 | returns n or −n, flips exactly when n·v < 0, and the result has a non-negative dot with v |
| `Geometry.FaceForwardNN` | core/geometry.h:258-260 | the same for two normals |
| `Geometry.FaceForwardVN` | core/geometry.h:263-265 | the same for a vector against a normal |
| `Geometry.FaceForwardVV` | core/geometry.h:268-270 | the same for two vectors |
| `Geometry.DefaultRay` | core/geometry.h:104 | mint 0, maxt INFINITY, time 0, depth 0, at the origin |
| `Geometry.MakeRay` | core/geometry.h:105-107 | stores origin, direction, start, end, time and depth, with defaults INFINITY, 0 and 0 |
| `Geometry.ChildRay` | core/geometry.h:108-110 | depth is the parent's plus one and time is the parent's |
| `Geometry.RayAt` | core/geometry.cpp:222-224 | ray(t) − o = t·d, so ray(0) = o |
| `Boxes.Inside` | core/geometry.cpp:276-280 | p lies in the closed box on every axis; a box with a point inside is ordered |
| `Boxes.EmptyBox` | core/geometry.h:145-148 | the default box contains no point and is inside out |
| `Boxes.PointBox` | core/geometry.h:149 | the one-point box is ordered and contains exactly that point |
| `Boxes.BoxOf` | core/geometry.h:150-153 | ordered, contains both points, and lies inside every box that contains both |
| `Boxes.Corner` | core/geometry.cpp:233-236 | needs i ≤ 1; 0 is pMin and 1 is pMax |
| `Boxes.UnionPoint` | core/geometry.cpp:244-253 | contains b and p, and lies inside every box that contains both |
| `Boxes.Union` | core/geometry.cpp:256-265 | contains both boxes, and lies inside every box that contains both |
| `Boxes.UnionContains` | core/geometry.cpp:244-265 | the union with p holds p and every point of b; the union of two boxes holds every point of either |
| `Boxes.UnionCommutes` | core/geometry.cpp:256-265 | Union(b1, b2) = Union(b2, b1) |
| `Boxes.UnionFromEmpty` | core/geometry.cpp:244-253 | growing the default box by p gives the point box; growing that by q gives the two-point box |
| `Boxes.Overlaps` | core/geometry.cpp:268-273 | as written; boxes apart along x never overlap, and for an ordered b a reported overlap is real |
| `Boxes.OverlapsMissesOverlap` | core/geometry.cpp:270-271 | two ordered boxes sharing a point that the written test calls disjoint |
| `Boxes.OverlapsIntendedIffCommonPoint` | core/geometry.cpp:268-273 | the corrected test holds exactly when two ordered boxes share a point |
| `Boxes.SurfaceArea` | core/geometry.cpp:283-286 | non-negative for an ordered box |
| `Boxes.Volume` | core/geometry.cpp:289-292 | non-negative for an ordered box |
| `Boxes.MeasuresTranslationInvariant` | core/geometry.cpp:283-292 | moving a box changes neither its area nor its volume |
| `Boxes.MaximumExtent` | core/geometry.cpp:296-304 | an axis in 0..2 whose extent is at least the other two; 0 exactly when x is strictly longest; 1 only when y is strictly longer than z, so a y–z tie goes to 2 |
| `Boxes.LerpPoint` | core/geometry.cpp:307-310 | (0,0,0) gives pMin and (1,1,1) gives pMax |
| `Boxes.Offset` | core/geometry.cpp:314-318 | needs a box with no flat axis; pMin gives (0,0,0) and pMax gives (1,1,1) |
| `Boxes.OffsetLerpRoundTrip` | core/geometry.cpp:307-318 | Offset undoes Lerp and Lerp undoes Offset |
| `Boxes.BoundingSphere` | core/geometry.cpp:321-325 | the centre is inside an ordered box, and the radius is ≥ 0 and is 0 when the centre is outside |
| `Boxes.BoundingSphereCovers` | core/geometry.cpp:321-325 | every point of the box lies within the sphere |
| `Boxes.Expand` | core/geometry.cpp:328-331 | every extent grows by 2·delta |
| `Boxes.ExpandKeepsInside` | core/geometry.cpp:328-331 | for delta ≥ 0 the old box and its points stay inside; expanding by −delta undoes it |
| `Colors.Add` | core/color.cpp:14-16 | c + d; subtracting d again gives c |
| `Colors.Sub` | core/color.cpp:25-27 | c − d; black exactly when c = d |
| `Colors.Mul` | core/color.cpp:36-38 | the component-wise tint; a black d gives black and a white d keeps c |
| `Colors.Scale` | core/color.cpp:47-49 | c·f; f = 1 keeps c and f = 0 gives black |
| `Colors.Div` | core/color.cpp:58-61 | needs f ≠ 0; the quotient times f is c again |
| `Colors.AddAssign` | core/color.cpp:18-23 | += gives the same colour as + |
| `Colors.SubAssign` | core/color.cpp:29-34 | −= gives the same colour as − |
| `Colors.MulAssign` | core/color.cpp:40-45 | *= by a colour gives the same colour as * |
| `Colors.ScaleAssign` | core/color.cpp:51-56 | *= by a float gives the same colour as * |
| `Colors.DivAssign` | core/color.cpp:63-69 | needs f ≠ 0; /= gives the same colour as / |
| `Colors.Equal` | core/color.cpp:71-76 | == holds exactly when the three components are equal |
| `Colors.ColorAlgebra` | core/color.cpp:14-38 | + and * commute, black is the identity of +, c − c is black, and (c + d) − d = c |
| `Colors.ScaleAlgebra` | core/color.h:28-30 | f·c = c·f, and (c·f)/f = c for f ≠ 0 |
| `Films.NewFilm` | core/film.h:8-10 | width·height pixels with the given dimensions, all black |
| `Films.NewFilmDimensions` | core/film.h:15-16 | GetWidth and GetHeight report the constructor's arguments |
| `Films.GetWidth` | core/film.h:15 | a valid film's buffer holds GetWidth pixels per row, for height rows |
| `Films.GetHeight` | core/film.h:16 | a valid film's buffer holds width pixels per row, for GetHeight rows |
| `Films.GetPixel` | core/film.h:18 | needs x < width and y < height; returns a colour of the buffer, black on a black film; reads back what SetPixel wrote (`Films.SetPixel`) |
| `Films.PixelIndex` | core/film.h:18 | needs x < width and y < height; the index y·width + x is below width·height |
| `Films.PixelIndexInjective` | core/film.h:18-19 | two pixels share an index exactly when they are the same pixel |
| `Films.SetPixel` | core/film.h:19 | GetPixel at (x, y) then returns the new colour, and every other pixel is unchanged |
| `Films.Clear` | core/film.h:20 | every pixel is black and the dimensions are kept |
| `Films.ClearInPlace` | core/film.h:20 | the index loop computes Clear |
| `Films.ClearIsNew` | core/film.h:20 | a cleared film is a new film of the same size, and clearing is idempotent |
| `Shapes.SphereQuadratic` | core/sphere.cpp:4-8 | the leading coefficient is the squared length of the direction |
| `Shapes.SphereQuadraticMeasuresDistance` | core/sphere.cpp:4-7 | the quadratic at s is abs(ray(s) − centre)² − radius² |
| `Shapes.SphereIntersect` | core/sphere.cpp:3-25 | a miss leaves t alone, a negative discriminant misses, and a hit is at or past mint |
| `Shapes.Roots` | core/sphere.cpp:13-15 | s2 ≤ s1 |
| `Shapes.RootsFactor` | core/sphere.cpp:13-15 | the quadratic is a·(s − s1)·(s − s2) |
| `Shapes.SumAndProductOfRoots` | core/sphere.cpp:13-15 | a·(s1 + s2) = −b and a·s1·s2 = c |
| `Shapes.NoRootWhenDiscriminantNegative` | core/sphere.cpp:10-11 | with a negative discriminant the ray never meets the sphere |
| `Shapes.ZerosAreRoots` | core/sphere.cpp:13-15 | s1 and s2 are zeros of the quadratic, and the only ones |
| `Shapes.SphereHitOnSphere` | core/sphere.cpp:3-25 | a hit below INFINITY is a point of the sphere |
| `Shapes.SphereRootSelection` | core/sphere.cpp:19-23 | hit exactly when the discriminant is ≥ 0 and the larger root is ≥ mint; t is the smaller root when it is ≥ mint, else the larger one capped at INFINITY |
| `Shapes.SphereHitNearest` | core/sphere.cpp:19-23 | any point of the sphere at s ≥ mint along the ray makes the call hit at some t ≤ s |
| `Shapes.SphereNormal` | core/sphere.cpp:27-29 | needs p ≠ centre; unit length, and times the distance it is p − centre |
| `Shapes.SphereNormalOutward` | core/sphere.cpp:27-29 | the normal points away from the centre |
| `Shapes.TriangleNormal` | core/triangle.cpp:4-6 | needs a non-degenerate triangle; unit length |
| `Shapes.TriangleNormalOrthogonal` | core/triangle.cpp:4-6 | orthogonal to both edges from p1 and positive against p1p3 × p1p2 |
| `Shapes.UnitCrossNormal` | core/triangle.cpp:6 | when p1p3 × p1p2 already has length 1, it is the normal |
| `Shapes.TriangleIntersectWith` | core/triangle.cpp:3-39 | parallel rays miss; otherwise hit exactly when the edge tests pass at ray(incoming t) and tt ≥ mint; a hit sets t = tt; a miss leaves t |
| `Shapes.TriangleIntersect` | core/triangle.cpp:3-6 | a miss leaves t alone and a hit is at or past mint |
| `Shapes.PlaneTSolves` | core/triangle.cpp:12-13 | tt·(n·d) = −(n·o + n·p1) |
| `Shapes.PlaneOffsetAsWritten` | core/triangle.cpp:12-13 | ray(tt) lies at n·(q − p1) = −2·n·p1, so on the triangle's plane exactly when n·p1 = 0 |
| `Shapes.EdgeValuesBarycentric` | core/triangle.cpp:16-31 | at p1 + β·p1p2 + γ·p1p3 the edge values are γ·k, (1 − β − γ)·k and β·k |
| `Shapes.EdgesIgnoreNormalOffset` | core/triangle.cpp:16-31 | moving the point along the normal changes none of the edge values |
| `Shapes.EdgesPassIffInside` | core/triangle.cpp:16-31 | a point of the plane passes all three tests exactly when β, γ ≥ 0 and β + γ ≤ 1 |
| `Shapes.Intersect` | core/shape.h:11 | a miss leaves t alone and a hit is at or past mint, for either kind of shape, spheres of any radius included |
| `Shapes.GetNormal` | core/triangle.cpp:41-43 | needs a non-degenerate triangle or a point off the sphere's centre; unit length; a triangle's ignores p and is the normal Intersect uses; a sphere's is SphereNormal and points outward |
| `Shapes.HitNormalDefined` | core/sphere.cpp:13-29 | a hit below INFINITY on a sphere of non-zero radius is not the centre, so GetNormal is defined there |
| `TriangleQuirk.EdgeAlongRay` | core/triangle.cpp:14-18 | an edge value at ray(t) is its value at the origin plus t times a rate |
| `TriangleQuirk.RatesSumToZero` | core/triangle.cpp:16-31 | the three edge rates sum to 0 |
| `TriangleQuirk.EdgeTurnsNegative` | core/triangle.cpp:16-19 | an edge with a negative rate fails its test for t far enough along |
| `TriangleQuirk.IncomingTMatters` | core/triangle.cpp:14-31 | a crossing that hits when the incoming t is tt is missed for some other incoming t |
| `Worlds.AddShape` | core/world.h:11 | appends the shape and keeps the earlier ones in place |
| `Worlds.AddShapesInOrder` | core/world.h:11 | shapes are listed in insertion order |
| `Worlds.Scan` | core/world.cpp:7-13 | from any loop state described by ScanState the loop ends in a NearestHit answer |
| `Worlds.ScanTake` | core/world.cpp:8-11 | taking a closer positive hit keeps the loop's description true |
| `Worlds.ScanSkip` | core/world.cpp:7-8 | passing over a shape keeps the loop's description true |
| `Worlds.Intersect` | core/world.cpp:3-17 | true exactly when some call, fed the threaded t, hits with 0 < t < INFINITY; then closest is such a shape with the least t, before every earlier one with that t; on false t = INFINITY and closest is NULL |
| `Worlds.EmptyWorldMisses` | core/world.cpp:4-6 | an empty world misses with t = INFINITY |
| `Worlds.HitHasNormal` | core/world.cpp:14-16 | in a world of non-degenerate shapes a hit has t > 0 at a point where the closest shape's normal is defined |
| `Cameras.NewCamera` | core/camera.h:12-14 | a black film of the given size, midx = w/2, midy = h/2, dfilm = w/80 |
| `Cameras.DefaultIsSized400` | core/camera.h:9-11 | the default camera is the sized camera for a 400 × 400 film |
| `Cameras.JitterOffset` | core/camera.cpp:15-16 | for u in [0, 1) the offset lies in the pixel's 0.01 cell; u = 0 gives its corner |
| `Cameras.SubOffset` | core/camera.cpp:24-33 | for u in [0, 1] the offset lies in sub-cell [(sub − 1)·0.005, sub·0.005] past the pixel; the ends at u = 0 and 1 |
| `Cameras.RayThrough` | core/camera.cpp:5-9 | origin is the position, mint 0.000001, depth 0, direction dfilm·dir + dx·right − dy·up |
| `Cameras.GetRay` | core/camera.cpp:3-10 | needs x ≤ width and y ≤ height (inclusive); the ray through the pixel's corner |
| `Cameras.GetJitteredRay` | core/camera.cpp:12-19 | needs x ≤ width and y ≤ height; the ray through the jittered point |
| `Cameras.GetJitteredSubRay` | core/camera.cpp:21-37 | needs x ≤ width and y ≤ height; the ray through the jittered point of the sub-cell |
| `Cameras.CentreRay` | core/camera.cpp:5-9 | the centre pixel's ray points along dfilm·direction |
| `Cameras.JitterFromCorner` | core/camera.cpp:12-37 | zero draws give the plain ray, and so does sub-cell (1, 1) |
| `Cameras.LeftOf` | core/camera.cpp:40-41 | down × direction is horizontal, orthogonal to the direction, as long as the direction's horizontal part, and to its left: direction × it points down |
| `Cameras.RightOf` | core/camera.cpp:46-47 | direction × down is horizontal, orthogonal to the direction, as long as the direction's horizontal part, and to its right: direction × it points up |
| `Cameras.MoveLeft` | core/camera.cpp:39-43 | only the position changes, by a horizontal step orthogonal to the direction, d times the direction's horizontal length, to the left for d > 0 |
| `Cameras.MoveRight` | core/camera.cpp:45-49 | only the position changes, by a horizontal step orthogonal to the direction, d times the direction's horizontal length, to the right for d > 0 |
| `Cameras.MoveForward` | core/camera.cpp:51-53 | only the position changes, by d·direction |
| `Cameras.MoveBackward` | core/camera.cpp:55-57 | only the position changes, by −d·direction |
| `Cameras.LeftRightRoundTrip` | core/camera.cpp:39-49 | left then right by the same d, or right then left, restores the camera |
| `Cameras.ForwardBackwardRoundTrip` | core/camera.cpp:51-57 | forward then back by the same d, or back then forward, restores the camera |
| `Tracer.Reflect` | main/main.cpp:185-187 | for unit n, n·r = −(n·d); d − r is parallel to n |
| `Tracer.ReflectIsometry` | main/main.cpp:185-187 | for unit n, reflecting keeps the length, reflecting twice gives d back, and a non-zero d stays non-zero |
| `Tracer.DiffuseShade` | main/main.cpp:206 | light·cosine·colour + emittance; a dark incoming light, a grazing cosine of 0 or a black surface leave only the emittance |
| `Tracer.DiffuseShadeBounded` | main/main.cpp:206 | light in [0, b], cosine and colour in [0, 1] and emittance in [0, e] give a colour in [0, b + e] |
| `Tracer.TraceRay` | main/main.cpp:189-215 | black past depth 4; the sky colour (0.6, 0.6, 0.9) on a miss; recursion measured by 5 − depth |
| `Tracer.RadianceBounded` | main/main.cpp:189-215 | with colours in [0, 1], emittances in [0, e] and hemisphere directions, every result lies in [0, 1 + (5 − depth)·e] |
| `Tracer.MirrorsShowSkyOrBlack` | main/main.cpp:208-211 | in a world of mirrors every path ends in the sky colour or black |
| `Renderer.PixelLight` | main/main.cpp:220-221 | one sample of pixel (x, y): TraceRay of the jittered ray at depth 0, so a jittered ray that misses every shape shows the sky colour |
| `Renderer.IndexCoordinates` | core/film.h:18 | index y·width + x decodes to column x and row y |
| `Renderer.AddFrame` | main/main.cpp:218-225 | every pixel becomes its traced colour plus its old colour |
| `Renderer.SweepStep` | main/main.cpp:220-223 | updating the next pixel in row-major order extends the swept prefix by one |
| `Renderer.TraceRays` | main/main.cpp:217-225 | the nested row-by-row loop computes AddFrame |
| `Renderer.Display` | main/main.cpp:227-233 | each shown pixel times the frame count is the film's pixel |
| `Renderer.SumOfSteadyLight` | main/main.cpp:218-225 | frames that all give a pixel colour l sum to count·l |
| `Renderer.Start` | main/main.cpp:21 | the loop starts open with iteration = 1 |
| `Renderer.Restart` | main/main.cpp:131-135 | after a move the film is black and iteration is 1 |
| `Renderer.HandleEvent` | main/main.cpp:127-153 | A, D, W, S move the camera's position as MoveLeft, MoveRight, MoveForward, MoveBackward by 0.2 and leave a black film of the same size and iteration 1; no other camera field changes; Closed or Escape close the window; other events keep camera and count |
| `Renderer.HandleEvents` | main/main.cpp:123-155 | any move among the events leaves a black film and iteration 1; otherwise camera and count are kept; only position and film can change; any close event closes |
| `Renderer.Frame` | main/main.cpp:106-117 | while iteration ≤ 3000 a frame is traced and shown and iteration rises by one; after that nothing changes |
| `Renderer.Step` | main/main.cpp:103-118 | one pass keeps the film valid and closes the window exactly on a close event |
| `Renderer.Run` | main/main.cpp:103-118 | the loop keeps the film valid, its size fixed and iteration ≥ 1 |
| `Renderer.StartAccumulates` | main/main.cpp:21 | a new session's film holds the sum of no frames |
| `Renderer.EventsAccumulate` | main/main.cpp:131-150 | events keep the film's sum; a camera move empties it |
| `Renderer.FrameAccumulates` | main/main.cpp:106-115 | a frame adds its colours to the sum, and the shown image times the count is the sum, so the film holds iteration samples when shown |
| `Renderer.RunAccumulates` | main/main.cpp:103-118 | after any run the film holds exactly the frames since the last move, at most 3000, and iteration is one more than their number |
| `Renderer.SteadyLightShowsItself` | main/main.cpp:227-230 | when every frame gives a pixel the same colour, the window shows that colour |

## Left out

- Windowing, events as SFML objects, the title, sprites, textures and the
  `sf::Image` writes. `ClearImage` and `Render` only draw. Events are a small
  datatype, and a pass of the main loop receives its events as a sequence.
- `Color::ToSFMLColor`: a float-to-byte cast at the display boundary.
- `UniformSample` and the Mersenne Twister. They are trigonometry and
  pseudo-randomness. Their results are the parameters `ux`, `uy` and
  `Tracer.Sampler`. `Tracer.NonZeroDirections` and
  `Tracer.UpperHemisphere` state what `UniformSample` guarantees. The
  colours a frame traces are the parameter `Renderer.Light`.
  `Renderer.PixelLight` shows how one is made.
- IEEE-754 behaviour:
  - `HasNaNs` and the NaN assert in the `Vector` constructor.
  - Rounding, overflow, and the accuracy of `sqrtf`.
- Films.NewFilm: the C++ buffer size width·height is a 32-bit unsigned
  product, which wraps for films of 2^32 pixels or more; `nat` does not wrap,
  so the model promises width·height pixels for every size.
- Films.PixelIndex: the C++ index y·width + x is 32-bit unsigned as well and
  wraps in the same way for such films; `GetPixel`, `SetPixel` and `Clear`
  inherit this.
- `RayDifferential` and `ScaleDifferentials`: the renderer never uses them.
- GetRay's store into the private `filmCenter`: nothing reads it.
- Heap storage of the film, raw `Shape*` pointers and virtual dispatch.
  They become a sequence, a position in a sequence and a closed datatype.
- The demo scene and the camera set-up in `main`. `Renderer.Start` takes any
  camera with a black film.
- Shapes.SphereIntersect: it requires a non-zero ray direction, because the
  renderer divides by 2a = 2·abs(d)². It also requires mint ≤ FLT_MAX, because
  the renderer's s = INFINITY sentinel assumes float-range values.
- Boxes.Offset: requires a box with no flat axis; on a flat axis the C++
  quotient is ±inf or NaN, which no real stands for.
- Worlds.HitHasNormal: requires every sphere to have a non-zero radius. A
  zero-radius sphere can be hit at its centre, where Sphere::GetNormal
  normalises the zero vector. Worlds.Intersect itself accepts such spheres.
- Tracer.TraceRay: it requires a scene of non-degenerate shapes and a ray
  with a non-zero direction. The sphere test divides by abs(d)², and the
  normal at a hit is normalised, which fails on a zero-radius sphere's
  centre. The renderer checks neither.
  - Its contract states only the depth cut-off and the miss. The diffuse and
    mirror branches are stated through `Tracer.RadianceBounded`,
    `Tracer.MirrorsShowSkyOrBlack` and the `Reflect` lemmas.
- `Reflect` subtracts a `Normal` from a `Vector`. `core/geometry.h`
  declares no such operator. The model reads it as d − 2·(n·d)·n.

## Findings

| source | as written | input that shows it | evidently intended | confidence | as-written member | corrected member |
|---|---|---|---|---|---|---|
| core/geometry.cpp:270-271 | the y and z clauses test `pMax < b.pMax` | a = [(0,0,0), (2,2,2)], b = [(0,0,0), (1,3,1)] share the origin, yet Overlaps returns false | `pMax < b.pMin` on every axis, as in the x clause | high; not executed | `Boxes.OverlapsMissesOverlap` | `Boxes.OverlapsIntendedIffCommonPoint` |
