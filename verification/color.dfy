/** The RGB colour of core/color.h and core/color.cpp.

    Components are nominally in [0, 1] but nothing enforces it: sums of
    samples grow past 1 and are only divided back down for display.
 */
module Colors {

  datatype Color = Color(r: real, g: real, b: real)

  /** Color(): the default colour is black. */
  const Black := Color(0.0, 0.0, 0.0)

  /** c + d; subtracting d again gives back c. */
  function Add(c: Color, d: Color): (r: Color)
    ensures Sub(r, d) == c
  {
    Color(c.r + d.r, c.g + d.g, c.b + d.b)
  }

  /** c - d; black exactly when the two colours are equal. */
  function Sub(c: Color, d: Color): (r: Color)
    ensures r == Black <==> c == d
  {
    Color(c.r - d.r, c.g - d.g, c.b - d.b)
  }

  /** c * d, the component-wise product used to tint light by a surface colour:
      a black surface absorbs everything and a white one passes light unchanged. */
  function Mul(c: Color, d: Color): (r: Color)
    ensures d == Black ==> r == Black
    ensures d == Color(1.0, 1.0, 1.0) ==> r == c
  {
    Color(c.r * d.r, c.g * d.g, c.b * d.b)
  }

  /** c * f; scaling by one keeps the colour and scaling by zero gives black. */
  function Scale(c: Color, f: real): (r: Color)
    ensures f == 1.0 ==> r == c
    ensures f == 0.0 ==> r == Black
  {
    Color(c.r * f, c.g * f, c.b * f)
  }

  /** f * c, the free operator that multiplies with the scalar on the left. */
  function ScaleLeft(f: real, c: Color): Color {
    Color(f * c.r, f * c.g, f * c.b)
  }

  /** c / f; the renderer asserts f != 0. */
  function Div(c: Color, f: real): (r: Color)
    requires f != 0.0
    ensures Scale(r, f) == c
  {
    Color(c.r / f, c.g / f, c.b / f)
  }

  // ---------------------------------------------------------------------------
  // Compound assignments: each updates the three components one at a time.

  /** c += d */
  function AddAssign(c: Color, d: Color): (r: Color)
    ensures r == Add(c, d)
  {
    var c := c.(r := c.r + d.r);
    var c := c.(g := c.g + d.g);
    c.(b := c.b + d.b)
  }

  /** c -= d */
  function SubAssign(c: Color, d: Color): (r: Color)
    ensures r == Sub(c, d)
  {
    var c := c.(r := c.r - d.r);
    var c := c.(g := c.g - d.g);
    c.(b := c.b - d.b)
  }

  /** c *= d */
  function MulAssign(c: Color, d: Color): (r: Color)
    ensures r == Mul(c, d)
  {
    var c := c.(r := c.r * d.r);
    var c := c.(g := c.g * d.g);
    c.(b := c.b * d.b)
  }

  /** c *= f */
  function ScaleAssign(c: Color, f: real): (r: Color)
    ensures r == Scale(c, f)
  {
    var c := c.(r := c.r * f);
    var c := c.(g := c.g * f);
    c.(b := c.b * f)
  }

  /** c /= f; the renderer asserts f != 0. */
  function DivAssign(c: Color, f: real): (r: Color)
    requires f != 0.0
    ensures r == Div(c, f)
  {
    var c := c.(r := c.r / f);
    var c := c.(g := c.g / f);
    c.(b := c.b / f)
  }

  /** operator==, which compares the components one at a time. */
  function Equal(c: Color, d: Color): (r: bool)
    ensures r <==> c == d
  {
    if c.r != d.r then false
    else if c.g != d.g then false
    else if c.b != d.b then false
    else true
  }

  // ---------------------------------------------------------------------------
  // Algebra

  /** Addition and the component-wise product commute; black is the identity
      of addition and the difference of a colour with itself. */
  lemma ColorAlgebra(c: Color, d: Color)
    ensures Add(c, d) == Add(d, c)
    ensures Mul(c, d) == Mul(d, c)
    ensures Add(c, Black) == c && Add(Black, c) == c
    ensures Sub(c, c) == Black
    ensures Sub(Add(c, d), d) == c
  {
  }

  /** Left and right scalar products agree, and dividing undoes scaling. */
  lemma ScaleAlgebra(c: Color, f: real)
    ensures ScaleLeft(f, c) == Scale(c, f)
    ensures f != 0.0 ==> Div(Scale(c, f), f) == c
  {
  }
}
