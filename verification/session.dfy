/** The progressive render loop of main/main.cpp.

    Every frame traces one jittered path per pixel and adds its colour to
    the film, so after n frames the film holds the sum of n samples per
    pixel; the window shows that sum divided by the frame count. Moving the
    camera clears the film and restarts the count; after 3000 frames the
    loop stops tracing and only handles events.

    The colours one frame traces are a parameter (a Light: one colour per
    pixel), since they come from the random generator; PixelLight says how
    each is made. Window, image and texture calls are left out.
 */
module Renderer {
  import opened RealMath
  import opened Geometry
  import opened Films
  import opened Cameras
  import opened Worlds
  import opened Tracer
  import Colors

  /** The colour traced for each pixel (x, y) in one frame. */
  type Light = (nat, nat) -> Colors.Color

  /** The random choices of one pixel's sample: the jitter draws and the
      draws along its path. */
  datatype PixelDraws = PixelDraws(ux: real, uy: real, path: Sampler)

  /** TraceRay(camera.GetJitteredRay(x, y), 0): one sample of pixel (x, y). */
  function PixelLight(w: World, c: Camera, x: nat, y: nat, d: PixelDraws, sqrt: real -> real): (r: Colors.Color)
    requires IsSqrt(sqrt) && Scene(w) && NonZeroDirections(d.path)
    requires OnFilm(c, x, y) && Castable(GetJitteredRay(c, x, y, d.ux, d.uy))
    ensures (SceneReady(w, GetJitteredRay(c, x, y, d.ux, d.uy));
             !Worlds.Intersect(w, GetJitteredRay(c, x, y, d.ux, d.uy), d.path.staleT(0), sqrt).hit) ==> r == Sky
  {
    TraceRay(w, GetJitteredRay(c, x, y, d.ux, d.uy), 0, d.path, sqrt)
  }

  // ---------------------------------------------------------------------------
  // The sweep of TraceRays

  /** The pixel index i lies in column i % width of row i / width. */
  lemma IndexCoordinates(width: nat, x: nat, y: nat)
    requires x < width
    ensures (y * width + x) % width == x && (y * width + x) / width == y
  {
    var n := y * width + x;
    var q, r := n / width, n % width;
    assert n == q * width + r;
    assert (q - y) * width == x - r;
    MulSign(q - y, width);
  }

  lemma MulSign(k: int, width: int)
    requires 0 <= width
    ensures 1 <= k ==> k * width >= width
    ensures k <= -1 ==> k * width <= -width
  {
    assert k * width == width + (k - 1) * width;
    assert k * width == -width + (k + 1) * width;
  }

  /** The film after one frame: light(x, y) added to every pixel (x, y). */
  function AddFrame(f: Film, light: Light): (r: Film)
    requires Valid(f)
    ensures Valid(r) && r.width == f.width && r.height == f.height
    ensures forall x: nat, y: nat :: x < f.width && y < f.height ==>
              GetPixel(r, x, y) == Colors.Add(light(x, y), GetPixel(f, x, y))
  {
    var r := Film(f.width, f.height,
                  seq(f.width * f.height, i requires 0 <= i < f.width * f.height =>
                        Colors.Add(light(i % f.width, i / f.width), f.pixels[i])));
    forall x: nat, y: nat | x < f.width && y < f.height
      ensures GetPixel(r, x, y) == Colors.Add(light(x, y), GetPixel(f, x, y))
    {
      IndexCoordinates(f.width, x, y);
    }
    r
  }

  /** The first n pixels of r hold their value after the frame and the
      rest still hold their value before it. */
  ghost predicate Swept(f: Film, goal: Film, r: Film, n: nat)
    requires Valid(f) && Valid(goal) && goal.width == f.width && goal.height == f.height
  {
    && Valid(r) && r.width == f.width && r.height == f.height
    && n <= |r.pixels|
    && (forall i :: 0 <= i < n ==> r.pixels[i] == goal.pixels[i])
    && (forall i :: n <= i < |r.pixels| ==> r.pixels[i] == f.pixels[i])
  }

  /** Adding the light to pixel (x, y), the next in row-major order, sweeps
      one more pixel. */
  lemma SweepStep(f: Film, light: Light, r: Film, x: nat, y: nat)
    requires Valid(f) && x < f.width && y < f.height
    requires Swept(f, AddFrame(f, light), r, y * f.width + x)
    ensures Swept(f, AddFrame(f, light), SetPixel(r, x, y, Colors.Add(light(x, y), GetPixel(r, x, y))),
                  y * f.width + x + 1)
  {
    var n := y * f.width + x;
    IndexCoordinates(f.width, x, y);
    var r' := SetPixel(r, x, y, Colors.Add(light(x, y), GetPixel(r, x, y)));
    assert r'.pixels == r.pixels[n := Colors.Add(light(x, y), r.pixels[n])];
  }

  /** The first loop of TraceRays: row by row, pixel by pixel, the traced
      colour plus the pixel's colour is written back. */
  method TraceRays(f: Film, light: Light) returns (r: Film)
    requires Valid(f)
    ensures r == AddFrame(f, light)
  {
    ghost var goal := AddFrame(f, light);
    r := f;
    var y := 0;
    while y < f.height
      invariant 0 <= y <= f.height
      invariant Swept(f, goal, r, y * f.width)
    {
      var x := 0;
      while x < f.width
        invariant 0 <= x <= f.width
        invariant Swept(f, goal, r, y * f.width + x)
      {
        SweepStep(f, light, r, x, y);
        var l := light(x, y);
        var c := GetPixel(r, x, y);
        r := SetPixel(r, x, y, Colors.Add(l, c));
        x := x + 1;
      }
      assert y * f.width + f.width == (y + 1) * f.width;
      y := y + 1;
    }
    assert f.height * f.width == |r.pixels|;
    assert r.pixels == goal.pixels;
  }

  /** The second loop of TraceRays: every pixel divided by the frame count,
      so the window shows the mean of the samples the film has summed. */
  function Display(f: Film, iteration: nat): (r: Film)
    requires Valid(f) && 1 <= iteration
    ensures Valid(r) && r.width == f.width && r.height == f.height
    ensures forall x: nat, y: nat :: x < f.width && y < f.height ==>
              Colors.Scale(GetPixel(r, x, y), iteration as real) == GetPixel(f, x, y)
  {
    Film(f.width, f.height,
         seq(|f.pixels|, i requires 0 <= i < |f.pixels| => Colors.DivAssign(f.pixels[i], iteration as real)))
  }

  /** The sum of pixel (x, y) over the frames of h, the latest first. */
  function Sum(h: seq<Light>, x: nat, y: nat): Colors.Color {
    if |h| == 0 then Colors.Black
    else Colors.Add(h[|h| - 1](x, y), Sum(h[..|h| - 1], x, y))
  }

  lemma SumAppend(h: seq<Light>, l: Light, x: nat, y: nat)
    ensures Sum(h + [l], x, y) == Colors.Add(l(x, y), Sum(h, x, y))
  {
    assert (h + [l])[..|h|] == h;
  }

  /** Frames that all give pixel (x, y) the same colour l sum to |h|·l. */
  lemma {:induction false} SumOfSteadyLight(h: seq<Light>, x: nat, y: nat, l: Colors.Color)
    requires forall i :: 0 <= i < |h| ==> h[i](x, y) == l
    ensures Sum(h, x, y) == Colors.Scale(l, |h| as real)
  {
    if |h| > 0 {
      var n := |h| - 1;
      SumOfSteadyLight(h[..n], x, y, l);
      assert h[n](x, y) == l;
      assert l.r + l.r * (n as real) == l.r * ((n + 1) as real);
      assert l.g + l.g * (n as real) == l.g * ((n + 1) as real);
      assert l.b + l.b * (n as real) == l.b * ((n + 1) as real);
    }
  }

  lemma ScaleCancel(a: Colors.Color, b: Colors.Color, k: real)
    requires k != 0.0 && Colors.Scale(a, k) == Colors.Scale(b, k)
    ensures a == b
  {
    assert (a.r - b.r) * k == 0.0;
    assert (a.g - b.g) * k == 0.0;
    assert (a.b - b.b) * k == 0.0;
  }

  // ---------------------------------------------------------------------------
  // Events

  const Samples: nat := 3000
  const CameraStep: real := 0.2

  datatype Key = KeyA | KeyD | KeyW | KeyS | Escape | OtherKey
  datatype Event = Closed | KeyPressed(key: Key) | Resized | OtherEvent

  /** The window, the camera with its film, the frame counter, and whether
      the window is still open. */
  datatype Session = Session(camera: Camera, iteration: nat, open: bool)

  /** The state before the first frame: a black film and iteration = 1. */
  function Start(c: Camera): (s: Session)
    requires Valid(c.film) && AllBlack(c.film.pixels)
    ensures s.iteration == 1 && s.open && s.camera == c
  {
    Session(c, 1, true)
  }

  predicate Moves(e: Event) {
    e.KeyPressed? && e.key in {KeyA, KeyD, KeyW, KeyS}
  }

  predicate Closes(e: Event) {
    e == Closed || e == KeyPressed(Escape)
  }

  /** After a camera move: a black film and the count back at 1. */
  function Restart(s: Session, c: Camera): (r: Session)
    requires Valid(c.film)
    ensures Valid(r.camera.film) && AllBlack(r.camera.film.pixels) && r.iteration == 1
  {
    ClearIsNew(c.film);
    s.(camera := c.(film := Clear(c.film)), iteration := 1)
  }

  /** One event of HandleEvents. A/D/W/S step the camera by 0.2 left, right,
      forward or back, clear the film and reset the count; closing the window
      or pressing Escape closes it; nothing else changes the state. */
  function HandleEvent(s: Session, e: Event): (r: Session)
    requires Valid(s.camera.film)
    ensures Valid(r.camera.film)
    ensures r.camera.film.width == s.camera.film.width && r.camera.film.height == s.camera.film.height
    ensures r.camera.direction == s.camera.direction
    ensures r.camera == s.camera.(position := r.camera.position, film := r.camera.film)
    ensures e == KeyPressed(KeyA) ==> r.camera.position == MoveLeft(s.camera, CameraStep).position
    ensures e == KeyPressed(KeyD) ==> r.camera.position == MoveRight(s.camera, CameraStep).position
    ensures e == KeyPressed(KeyW) ==> r.camera.position == MoveForward(s.camera, CameraStep).position
    ensures e == KeyPressed(KeyS) ==> r.camera.position == MoveBackward(s.camera, CameraStep).position
    ensures r.open == (s.open && !Closes(e))
    ensures Moves(e) ==> r.iteration == 1 && AllBlack(r.camera.film.pixels)
    ensures !Moves(e) ==> r.camera == s.camera && r.iteration == s.iteration
  {
    match e
    case Closed => s.(open := false)
    case KeyPressed(Escape) => s.(open := false)
    case KeyPressed(KeyA) => Restart(s, MoveLeft(s.camera, CameraStep))
    case KeyPressed(KeyD) => Restart(s, MoveRight(s.camera, CameraStep))
    case KeyPressed(KeyW) => Restart(s, MoveForward(s.camera, CameraStep))
    case KeyPressed(KeyS) => Restart(s, MoveBackward(s.camera, CameraStep))
    case _ => s
  }

  predicate MovesIn(es: seq<Event>) {
    exists i :: 0 <= i < |es| && Moves(es[i])
  }

  predicate ClosesIn(es: seq<Event>) {
    exists i :: 0 <= i < |es| && Closes(es[i])
  }

  /** HandleEvents: the pending events in order. Any camera move among them
      leaves a black film and the count at 1; otherwise camera and count
      are as before. Any close event closes the window. */
  function HandleEvents(s: Session, es: seq<Event>): (r: Session)
    requires Valid(s.camera.film)
    ensures Valid(r.camera.film)
    ensures r.camera.film.width == s.camera.film.width && r.camera.film.height == s.camera.film.height
    ensures r.camera == s.camera.(position := r.camera.position, film := r.camera.film)
    ensures r.open == (s.open && !ClosesIn(es))
    ensures MovesIn(es) ==> r.iteration == 1 && AllBlack(r.camera.film.pixels)
    ensures !MovesIn(es) ==> r.camera == s.camera && r.iteration == s.iteration
    decreases |es|
  {
    if |es| == 0 then s
    else
      var r := HandleEvents(HandleEvent(s, es[0]), es[1..]);
      assert MovesIn(es) <==> Moves(es[0]) || MovesIn(es[1..]) by {
        if MovesIn(es) && !Moves(es[0]) {
          var i :| 0 <= i < |es| && Moves(es[i]);
          assert es[1..][i - 1] == es[i];
        }
        if MovesIn(es[1..]) {
          var i :| 0 <= i < |es[1..]| && Moves(es[1..][i]);
          assert es[i + 1] == es[1..][i];
        }
      }
      assert ClosesIn(es) <==> Closes(es[0]) || ClosesIn(es[1..]) by {
        if ClosesIn(es) && !Closes(es[0]) {
          var i :| 0 <= i < |es| && Closes(es[i]);
          assert es[1..][i - 1] == es[i];
        }
        if ClosesIn(es[1..]) {
          var i :| 0 <= i < |es[1..]| && Closes(es[1..][i]);
          assert es[i + 1] == es[1..][i];
        }
      }
      r
  }

  // ---------------------------------------------------------------------------
  // Frames

  /** What one pass of the main loop leaves: the session and, when a frame
      was traced, the image shown. */
  datatype Tick = Tick(session: Session, shown: Option<Film>)

  /** The frame part of the main loop: while iteration <= 3000, trace one
      sample per pixel into the film, show the film divided by iteration,
      and count the frame. */
  function Frame(s: Session, light: Light): (t: Tick)
    requires Valid(s.camera.film) && 1 <= s.iteration
    ensures Valid(t.session.camera.film) && 1 <= t.session.iteration
    ensures s.iteration <= Samples ==> t.session.iteration == s.iteration + 1 && t.shown.Some?
    ensures s.iteration > Samples ==> t == Tick(s, None)
  {
    if s.iteration <= Samples then
      var f := AddFrame(s.camera.film, light);
      Tick(s.(camera := s.camera.(film := f), iteration := s.iteration + 1), Some(Display(f, s.iteration)))
    else Tick(s, None)
  }

  /** One pass of the main loop: events first, then the frame. The frame
      runs even when an event has just closed the window. */
  function Step(s: Session, es: seq<Event>, light: Light): (t: Tick)
    requires Valid(s.camera.film) && 1 <= s.iteration
    ensures Valid(t.session.camera.film) && 1 <= t.session.iteration
    ensures t.session.open == (s.open && !ClosesIn(es))
  {
    Frame(HandleEvents(s, es), light)
  }

  /** The main loop over a sequence of passes, each with its events and its
      traced colours; it stops once the window is closed. */
  function Run(s: Session, passes: seq<(seq<Event>, Light)>): (r: Session)
    requires Valid(s.camera.film) && 1 <= s.iteration
    ensures Valid(r.camera.film) && 1 <= r.iteration
    ensures r.camera.film.width == s.camera.film.width && r.camera.film.height == s.camera.film.height
    decreases |passes|
  {
    if |passes| == 0 || !s.open then s
    else Run(Step(s, passes[0].0, passes[0].1).session, passes[1..])
  }

  // ---------------------------------------------------------------------------
  // Accumulation

  /** The film holds, pixel by pixel, the sum of the frames in h, and the
      count is one past their number, at most 3000. */
  ghost predicate Accumulates(s: Session, h: seq<Light>) {
    && Valid(s.camera.film)
    && s.iteration == |h| + 1 && |h| <= Samples
    && forall x: nat, y: nat :: x < s.camera.film.width && y < s.camera.film.height ==>
         GetPixel(s.camera.film, x, y) == Sum(h, x, y)
  }

  /** The frames a run adds to h: a pass with a camera move starts over from
      none, and a pass adds its frame while fewer than 3000 are summed; the
      run stops at the first pass after the window closed. */
  function History(h: seq<Light>, open: bool, passes: seq<(seq<Event>, Light)>): (r: seq<Light>)
    decreases |passes|
  {
    if |passes| == 0 || !open then h
    else
      var kept := if MovesIn(passes[0].0) then [] else h;
      var next := if |kept| < Samples then kept + [passes[0].1] else kept;
      History(next, open && !ClosesIn(passes[0].0), passes[1..])
  }

  /** A new session has summed no frames. */
  lemma StartAccumulates(c: Camera)
    requires Valid(c.film) && AllBlack(c.film.pixels)
    ensures Accumulates(Start(c), [])
  {
    forall x: nat, y: nat | x < c.film.width && y < c.film.height
      ensures GetPixel(c.film, x, y) == Colors.Black
    {
      assert PixelIndex(c.film.width, c.film.height, x, y) < |c.film.pixels|;
    }
  }

  /** Handling events keeps the film's sum; a camera move empties it. */
  lemma EventsAccumulate(s: Session, es: seq<Event>, h: seq<Light>)
    requires Accumulates(s, h)
    ensures Accumulates(HandleEvents(s, es), if MovesIn(es) then [] else h)
  {
    var r := HandleEvents(s, es);
    if MovesIn(es) {
      forall x: nat, y: nat | x < r.camera.film.width && y < r.camera.film.height
        ensures GetPixel(r.camera.film, x, y) == Colors.Black
      {
        assert PixelIndex(r.camera.film.width, r.camera.film.height, x, y) < |r.camera.film.pixels|;
      }
    }
  }

  /** A traced frame adds its colours to the sum, and the image shown is
      the mean of the frames summed so far; after 3000 frames nothing is
      traced. */
  lemma FrameAccumulates(s: Session, light: Light, h: seq<Light>)
    requires Accumulates(s, h)
    ensures |h| < Samples ==> Accumulates(Frame(s, light).session, h + [light])
    ensures |h| < Samples ==>
              var image := Frame(s, light).shown.value;
              && image.width == s.camera.film.width && image.height == s.camera.film.height
              && forall x: nat, y: nat :: x < image.width && y < image.height ==>
                   Colors.Scale(GetPixel(image, x, y), |h + [light]| as real) == Sum(h + [light], x, y)
    ensures |h| == Samples ==> Frame(s, light) == Tick(s, None)
  {
    if |h| < Samples {
      var f := s.camera.film;
      forall x: nat, y: nat | x < f.width && y < f.height
        ensures GetPixel(AddFrame(f, light), x, y) == Sum(h + [light], x, y)
      {
        SumAppend(h, light, x, y);
      }
    }
  }

  /** Over a whole run, the film holds exactly the frames History counts:
      those traced since the last camera move, at most 3000 of them. */
  lemma {:induction false} RunAccumulates(s: Session, h: seq<Light>, passes: seq<(seq<Event>, Light)>)
    requires Accumulates(s, h)
    ensures Accumulates(Run(s, passes), History(h, s.open, passes))
    decreases |passes|
  {
    if |passes| > 0 && s.open {
      var es, light := passes[0].0, passes[0].1;
      var kept := if MovesIn(es) then [] else h;
      EventsAccumulate(s, es, h);
      var e := HandleEvents(s, es);
      FrameAccumulates(e, light, kept);
      var next := if |kept| < Samples then kept + [light] else kept;
      RunAccumulates(Step(s, es, light).session, next, passes[1..]);
    }
  }

  /** When every frame gives a pixel the same colour, the window shows that
      colour, whatever the number of frames. */
  lemma SteadyLightShowsItself(s: Session, light: Light, h: seq<Light>, x: nat, y: nat, l: Colors.Color)
    requires Accumulates(s, h) && |h| < Samples
    requires x < s.camera.film.width && y < s.camera.film.height
    requires forall i :: 0 <= i < |h| ==> h[i](x, y) == l
    requires light(x, y) == l
    ensures GetPixel(Frame(s, light).shown.value, x, y) == l
  {
    FrameAccumulates(s, light, h);
    var h' := h + [light];
    assert forall i :: 0 <= i < |h'| ==> h'[i](x, y) == l;
    SumOfSteadyLight(h', x, y, l);
    ScaleCancel(GetPixel(Frame(s, light).shown.value, x, y), l, |h'| as real);
  }
}
