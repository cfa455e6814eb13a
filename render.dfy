/** The image generator: every pixel of an RGB buffer is mapped to a point
    of the plane window, its escape count computed and its colour written. */
module Render {
  import opened ComplexPlane
  import opened Escape
  import opened Color

  /** The rectangle of the complex plane drawn onto the buffer. */
  datatype Window = Window(minRe: real, maxRe: real, minIm: real, maxIm: real)

  /** Pixel index i of n along one axis, mapped onto [lo, hi). */
  function PlaneCoord(i: int, n: int, lo: real, hi: real): real
    requires n > 0
  {
    (i as real) * (hi - lo) / (n as real) + lo
  }

  /** The sample for column x (real axis) and row y (imaginary axis). */
  function PlanePoint(w: Window, width: int, height: int, x: int, y: int): Complex
    requires width > 0 && height > 0
  {
    Complex(PlaneCoord(x, width, w.minRe, w.maxRe), PlaneCoord(y, height, w.minIm, w.maxIm))
  }

  /** The colour the escape count of c receives; colouring never divides by
      zero and every channel fits a byte. */
  function PixelColor(c: Complex, threshold: int): (p: Rgb)
    ensures MapColor(EscapeTime(c, threshold), threshold) == Painted(p)
    ensures InByteRange(p)
  {
    EscapeTimeRange(c, threshold);
    MapColorInByteRange(EscapeTime(c, threshold), threshold);
    MapColor(EscapeTime(c, threshold), threshold).rgb
  }

  /** What the buffer holds at row y, column x once the fill is done. */
  function ExpectedPixel(w: Window, width: int, height: int, x: int, y: int, threshold: int): Rgb
    requires 0 <= x < width && 0 <= y < height
  {
    PixelColor(PlanePoint(w, width, height, x, y), threshold)
  }

  /** Pixel 0 of an axis maps to the low end of the window. */
  lemma PlaneCoordAtOrigin(n: int, lo: real, hi: real)
    requires n > 0
    ensures PlaneCoord(0, n, lo, hi) == lo
  {
  }

  /** On a window with lo < hi, the mapped coordinates of the pixels
      0 .. n-1 stay in [lo, hi). */
  lemma PlaneCoordInWindow(i: int, n: int, lo: real, hi: real)
    requires 0 <= i < n && lo < hi
    ensures lo <= PlaneCoord(i, n, lo, hi) < hi
  {
    var d, ir, nr := hi - lo, i as real, n as real;
    assert ir * d < nr * d;
    assert ir * d / nr < d;
  }

  /** On a window with lo < hi, the mapped coordinate rises strictly with
      the pixel index. */
  lemma PlaneCoordIncreasing(i: int, j: int, n: int, lo: real, hi: real)
    requires n > 0 && i < j && lo < hi
    ensures PlaneCoord(i, n, lo, hi) < PlaneCoord(j, n, lo, hi)
  {
    var d, ir, jr, nr := hi - lo, i as real, j as real, n as real;
    assert ir * d < jr * d;
    assert ir * d / nr < jr * d / nr;
  }

  /** Fills the buffer (row = imaginary axis, column = real axis) column by
      column; afterwards every cell holds the colour of its own sample. */
  method GenerateMandelbrot(img: array2<Rgb>, minRe: real, maxRe: real, minIm: real, maxIm: real, threshold: int)
    modifies img
    ensures forall y, x :: 0 <= y < img.Length0 && 0 <= x < img.Length1 ==>
              img[y, x] == ExpectedPixel(Window(minRe, maxRe, minIm, maxIm), img.Length1, img.Length0, x, y, threshold)
  {
    var width, height := img.Length1, img.Length0;
    var window := Window(minRe, maxRe, minIm, maxIm);
    for x := 0 to width
      invariant forall y', x' :: 0 <= y' < height && 0 <= x' < x ==>
                  img[y', x'] == ExpectedPixel(window, width, height, x', y', threshold)
    {
      for y := 0 to height
        invariant forall y', x' :: 0 <= y' < height && 0 <= x' < x ==>
                    img[y', x'] == ExpectedPixel(window, width, height, x', y', threshold)
        invariant forall y' :: 0 <= y' < y ==>
                    img[y', x] == ExpectedPixel(window, width, height, x, y', threshold)
      {
        var cx := PlaneCoord(x, width, minRe, maxRe);
        var cy := PlaneCoord(y, height, minIm, maxIm);
        var c := Complex(cx, cy);
        var colorIndex := Mandelbrot(c, threshold);
        var color := MapColor(colorIndex, threshold);
        assert color == Painted(PixelColor(c, threshold));
        img[y, x] := color.rgb;
      }
    }
  }
}
