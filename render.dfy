/**
 * Frame rendering in mandel.c: the viewport that main derives from the
 * centre and scale, the pixel-to-plane mapping, and compute_image, which
 * fills every pixel of the raw image buffer with the colour of its point.
 *
 * The raw image is an array2<int> indexed [i, j] with i the column
 * (0 <= i < width = Length0) and j the row (0 <= j < height = Length1),
 * as in setPixelCOLOR(img, i, j, colour).
 */
module Render {
  import opened Kernel
  import opened Color

  /** The rectangle [xmin, xmax] x [ymin, ymax] of the plane shown. */
  datatype Viewport = Viewport(xmin: real, xmax: real, ymin: real, ymax: real)

  /**
   * The viewport of main's single-image mode: xscale wide around
   * (xcenter, ycenter), with the height scaled by height/width so that
   * pixels are square.
   */
  function ViewportAround(xcenter: real, ycenter: real, xscale: real, width: nat, height: nat): (v: Viewport)
    requires 0 < width
    ensures v.xmax - v.xmin == xscale
    ensures (v.xmin + v.xmax) / 2.0 == xcenter && (v.ymin + v.ymax) / 2.0 == ycenter
    ensures (v.ymax - v.ymin) * (width as real) == xscale * (height as real)
  {
    var yscale := xscale / (width as real) * (height as real);
    Viewport(xcenter - xscale / 2.0, xcenter + xscale / 2.0, ycenter - yscale / 2.0, ycenter + yscale / 2.0)
  }

  /** The plane coordinate of pixel column (or row) i out of n spanning
      [lo, hi]: lo + i*(hi-lo)/n. */
  function PixelCoord(lo: real, hi: real, i: nat, n: nat): (r: real)
    requires 0 < n
    ensures i == 0 ==> r == lo
    ensures i == n ==> r == hi
  {
    assert i == n ==> (i as real) * (hi - lo) / (n as real) == hi - lo;
    lo + (i as real) * (hi - lo) / (n as real)
  }

  /** Pixel 0 is at the low edge, and every pixel lies in [lo, hi). */
  lemma PixelCoordInRange(lo: real, hi: real, i: nat, n: nat)
    requires 0 < n && i < n && lo < hi
    ensures PixelCoord(lo, hi, 0, n) == lo
    ensures lo <= PixelCoord(lo, hi, i, n) < hi
  {
    var d := (hi - lo) / (n as real);
    assert (i as real) * (hi - lo) / (n as real) == (i as real) * d;
    assert (n as real) * d == hi - lo;
    assert (i as real) * d < (n as real) * d;
  }

  /** The mapping is strictly increasing when the range is non-empty. */
  lemma PixelCoordIncreasing(lo: real, hi: real, i1: nat, i2: nat, n: nat)
    requires 0 < n && i1 < i2 && lo < hi
    ensures PixelCoord(lo, hi, i1, n) < PixelCoord(lo, hi, i2, n)
  {
    var d := (hi - lo) / (n as real);
    var x1, x2 := PixelCoord(lo, hi, i1, n), PixelCoord(lo, hi, i2, n);
    assert x1 == lo + (i1 as real) * d;
    assert x2 == lo + (i2 as real) * d;
    assert x2 - x1 == ((i2 - i1) as real) * d;
    assert 0.0 < d;
  }

  /** In main's viewport a pixel covers the same distance along x and y. */
  lemma ViewportPixelsSquare(xcenter: real, ycenter: real, xscale: real, width: nat, height: nat)
    requires 0 < width && 0 < height
    ensures var v := ViewportAround(xcenter, ycenter, xscale, width, height);
      (v.xmax - v.xmin) / (width as real) == (v.ymax - v.ymin) / (height as real)
  {
    var v := ViewportAround(xcenter, ycenter, xscale, width, height);
    var w, h := width as real, height as real;
    assert (v.ymax - v.ymin) * w == xscale * h;
    assert (v.ymax - v.ymin) / h == xscale / w by {
      assert (v.ymax - v.ymin) == xscale * h / w;
    }
  }

  /** The plane point of pixel (i, j) in a width x height image of v. */
  function PixelPoint(v: Viewport, width: nat, height: nat, i: nat, j: nat): Point
    requires 0 < width && 0 < height
  {
    Point(PixelCoord(v.xmin, v.xmax, i, width), PixelCoord(v.ymin, v.ymax, j, height))
  }

  /** Every pixel of a non-degenerate view maps to a point inside it. */
  lemma PixelPointInView(v: Viewport, width: nat, height: nat, i: nat, j: nat)
    requires i < width && j < height && v.xmin < v.xmax && v.ymin < v.ymax
    ensures var p := PixelPoint(v, width, height, i, j);
      v.xmin <= p.x < v.xmax && v.ymin <= p.y < v.ymax
  {
    PixelCoordInRange(v.xmin, v.xmax, i, width);
    PixelCoordInRange(v.ymin, v.ymax, j, height);
  }

  /** The colour compute_image gives pixel (i, j). */
  function PixelColor(v: Viewport, max: int, width: nat, height: nat, i: nat, j: nat): (c: int)
    requires 0 < width && 0 < height
    ensures 0 <= c <= ColorMax
  {
    IterationToColor(EscapeTime(PixelPoint(v, width, height, i, j), max), max)
  }

  /**
   * compute_image: rows j = 0 .. height-1, and in each row the columns
   * i = 0 .. width-1, get the colour of their plane point.
   */
  method ComputeImage(img: array2<int>, v: Viewport, max: int)
    modifies img
    ensures forall i, j :: 0 <= i < img.Length0 && 0 <= j < img.Length1 ==>
      img[i, j] == PixelColor(v, max, img.Length0, img.Length1, i, j)
  {
    var width, height := img.Length0, img.Length1;
    for j := 0 to height
      invariant forall i', j' :: 0 <= i' < width && 0 <= j' < j ==>
        img[i', j'] == PixelColor(v, max, width, height, i', j')
    {
      for i := 0 to width
        invariant forall i', j' :: 0 <= i' < width && 0 <= j' < j ==>
          img[i', j'] == PixelColor(v, max, width, height, i', j')
        invariant forall i' :: 0 <= i' < i ==> img[i', j] == PixelColor(v, max, width, height, i', j)
      {
        var x := PixelCoord(v.xmin, v.xmax, i, width);
        var y := PixelCoord(v.ymin, v.ymax, j, height);
        var iters := IterationsAtPoint(x, y, max);
        img[i, j] := IterationToColor(iters, max);
      }
    }
  }

  /**
   * main's single-image path: a width x height image, first filled with
   * black, then computed over the viewport around the centre. With a zero
   * width there is no pixel to compute (main's y scale would divide by
   * zero, but compute_image never uses it).
   */
  method RenderImage(xcenter: real, ycenter: real, xscale: real, width: nat, height: nat, max: int)
    returns (img: array2<int>)
    ensures fresh(img) && img.Length0 == width && img.Length1 == height
    ensures 0 < width ==> forall i, j :: 0 <= i < width && 0 <= j < height ==>
      img[i, j] == PixelColor(ViewportAround(xcenter, ycenter, xscale, width, height), max, width, height, i, j)
  {
    img := new int[width, height]((i, j) => 0);
    if 0 < width {
      var v := ViewportAround(xcenter, ycenter, xscale, width, height);
      ComputeImage(img, v, max);
    }
  }

  /** The 4 x 4 view of [-2, 2] x [-2, 2] used by the examples below. */
  const SquareView := Viewport(-2.0, 2.0, -2.0, 2.0)

  /** In a 4 x 4 image of [-2, 2] x [-2, 2] with cap 50 the corner pixel
      (0, 0) is the point (-2, -2), which escapes at once: black. */
  lemma FourByFourCornerIsBlack()
    ensures PixelColor(SquareView, 50, 4, 4, 0, 0) == 0
  {
    assert PixelPoint(SquareView, 4, 4, 0, 0) == Point(-2.0, -2.0);
    OutsidePointEscapesAtOnce(Point(-2.0, -2.0), 50);
  }

  /** In the same image pixel (2, 2) is the origin, which never escapes:
      white. */
  lemma FourByFourCentreIsWhite()
    ensures PixelColor(SquareView, 50, 4, 4, 2, 2) == ColorMax
  {
    assert PixelPoint(SquareView, 4, 4, 2, 2) == Origin;
    OriginReachesCap(50);
  }
}
