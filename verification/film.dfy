/** The Film of core/film.h: a width × height buffer of colours stored row by
    row, pixel (x, y) at index y·width + x.

    The renderer's buffer is a heap array of width·height colours; here it is
    a sequence, and Valid states that its length matches the dimensions.
    GetPixel and SetPixel do no bounds check, so staying inside the film is
    the caller's obligation.
 */
module Films {
  import opened Colors

  datatype Film = Film(width: nat, height: nat, pixels: seq<Color>)

  predicate Valid(f: Film) {
    |f.pixels| == f.width * f.height
  }

  predicate AllBlack(s: seq<Color>) {
    forall i :: 0 <= i < |s| ==> s[i] == Black
  }

  /** Film(width, height): every pixel starts as the default colour, black. */
  function NewFilm(width: nat, height: nat): (f: Film)
    ensures Valid(f)
    ensures f.width == width && f.height == height
    ensures AllBlack(f.pixels)
  {
    Film(width, height, seq(width * height, _ => Black))
  }

  /** Film::GetWidth: a valid film's buffer holds GetWidth pixels per row. */
  function GetWidth(f: Film): (w: nat)
    ensures Valid(f) ==> |f.pixels| == w * f.height
  {
    f.width
  }

  /** Film::GetHeight: a valid film's buffer holds GetHeight rows. */
  function GetHeight(f: Film): (h: nat)
    ensures Valid(f) ==> |f.pixels| == f.width * h
  {
    f.height
  }

  /** The dimensions a film reports are the ones it was built with. */
  lemma NewFilmDimensions(width: nat, height: nat)
    ensures GetWidth(NewFilm(width, height)) == width
    ensures GetHeight(NewFilm(width, height)) == height
    ensures |NewFilm(width, height).pixels| == GetWidth(NewFilm(width, height)) * GetHeight(NewFilm(width, height))
  {
  }

  /** The row-major index y·width + x of pixel (x, y). */
  function PixelIndex(width: nat, height: nat, x: nat, y: nat): (i: nat)
    requires x < width && y < height
    ensures i < width * height
  {
    RowMajorBound(width, height, x, y);
    y * width + x
  }

  lemma RowMajorBound(width: nat, height: nat, x: nat, y: nat)
    requires x < width && y < height
    ensures y * width + x < width * height
  {
    assert y * width + x < (y + 1) * width;
    assert (y + 1) * width <= height * width by {
      MulMonotone(y + 1, height, width);
    }
  }

  lemma MulMonotone(a: nat, b: nat, k: nat)
    requires a <= b
    ensures a * k <= b * k
  {
    assert b * k == a * k + (b - a) * k;
  }

  /** Distinct pixels have distinct indices, so the buffer holds every pixel
      of the film exactly once. */
  lemma {:induction false} PixelIndexInjective(width: nat, height: nat, x1: nat, y1: nat, x2: nat, y2: nat)
    requires x1 < width && y1 < height && x2 < width && y2 < height
    ensures PixelIndex(width, height, x1, y1) == PixelIndex(width, height, x2, y2) <==> x1 == x2 && y1 == y2
  {
    if y1 < y2 {
      RowBefore(width, x1, y1, x2, y2);
    } else if y2 < y1 {
      RowBefore(width, x2, y2, x1, y1);
    }
  }

  lemma RowBefore(width: nat, x1: nat, y1: nat, x2: nat, y2: nat)
    requires x1 < width && y1 < y2
    ensures y1 * width + x1 < y2 * width + x2
  {
    assert y1 * width + x1 < (y1 + 1) * width;
    MulMonotone(y1 + 1, y2, width);
  }

  /** Film::GetPixel; the renderer does not check the bounds. */
  function GetPixel(f: Film, x: nat, y: nat): (c: Color)
    requires Valid(f)
    requires x < f.width && y < f.height
    ensures c in f.pixels
    ensures AllBlack(f.pixels) ==> c == Black
  {
    f.pixels[PixelIndex(f.width, f.height, x, y)]
  }

  /** Film::SetPixel: overwrite pixel (x, y) and nothing else. */
  function SetPixel(f: Film, x: nat, y: nat, c: Color): (r: Film)
    requires Valid(f)
    requires x < f.width && y < f.height
    ensures Valid(r) && r.width == f.width && r.height == f.height
    ensures GetPixel(r, x, y) == c
    ensures forall x2: nat, y2: nat :: x2 < f.width && y2 < f.height && (x2 != x || y2 != y) ==>
              GetPixel(r, x2, y2) == GetPixel(f, x2, y2)
  {
    var r := f.(pixels := f.pixels[PixelIndex(f.width, f.height, x, y) := c]);
    forall x2: nat, y2: nat | x2 < f.width && y2 < f.height && (x2 != x || y2 != y)
      ensures GetPixel(r, x2, y2) == GetPixel(f, x2, y2)
    {
      PixelIndexInjective(f.width, f.height, x, y, x2, y2);
    }
    r
  }

  /** Film::Clear: every pixel becomes black and the size is kept. */
  function Clear(f: Film): (r: Film)
    requires Valid(f)
    ensures Valid(r) && r.width == f.width && r.height == f.height
    ensures forall x: nat, y: nat :: x < r.width && y < r.height ==> GetPixel(r, x, y) == Black
  {
    Film(f.width, f.height, seq(f.width * f.height, _ => Black))
  }

  /** Film::Clear as the renderer runs it: one pixel at a time, in index
      order. */
  method ClearInPlace(f: Film) returns (r: Film)
    requires Valid(f)
    ensures r == Clear(f)
  {
    var pixels := f.pixels;
    var i := 0;
    while i < f.width * f.height
      invariant 0 <= i <= f.width * f.height
      invariant |pixels| == f.width * f.height
      invariant forall j :: 0 <= j < i ==> pixels[j] == Black
    {
      pixels := pixels[i := Black];
      i := i + 1;
    }
    r := Film(f.width, f.height, pixels);
  }

  /** Clearing gives a new film of the same size, whatever was drawn on it,
      and clearing twice is clearing once. */
  lemma ClearIsNew(f: Film)
    requires Valid(f)
    ensures Clear(f) == NewFilm(f.width, f.height)
    ensures Clear(Clear(f)) == Clear(f)
  {
  }
}
