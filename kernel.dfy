/**
 * The escape-time kernel of mandel.c (iterations_at_point).
 *
 * Points of the complex plane are pairs of reals; the double-precision
 * rounding of the C code is not modelled.
 */
module Kernel {

  /** A point x + iy of the complex plane. */
  datatype Point = Point(x: real, y: real)

  const Origin := Point(0.0, 0.0)

  /** The escape test of the loop guard: |z|^2 <= 4. */
  predicate Bounded(z: Point) {
    z.x * z.x + z.y * z.y <= 4.0
  }

  /**
   * One step of z := z^2 + c. Both new coordinates are computed from the
   * same old pair (z.x, z.y).
   */
  function Step(z: Point, c: Point): (r: Point)
    ensures z == Origin ==> r == c
  {
    Point(StepX(z.x, z.y, c.x), StepY(z.x, z.y, c.y))
  }

  /** The real part of z^2 + c. */
  function StepX(x: real, y: real, cx: real): real {
    x * x - y * y + cx
  }

  /** The imaginary part of z^2 + c. */
  function StepY(x: real, y: real, cy: real): real {
    2.0 * x * y + cy
  }

  /**
   * The n-th point of the orbit of c, starting from z_0 = c (one step
   * ahead of the orbit of 0, by Step's contract). The origin is a fixed
   * point.
   */
  function Orbit(c: Point, n: nat): (r: Point)
    ensures c == Origin ==> r == Origin
  {
    if n == 0 then c else Step(Orbit(c, n - 1), c)
  }

  /**
   * The first n' >= n at which the orbit of c has left the disc of radius
   * 2, or max if it stays inside up to max (and n itself when n >= max).
   */
  function EscapeFrom(c: Point, n: nat, max: int): (r: nat)
    ensures n <= r
    ensures n <= max ==> r <= max
    decreases max - n
  {
    if n >= max || !Bounded(Orbit(c, n)) then n else EscapeFrom(c, n + 1, max)
  }

  /** The escape time of c under the cap max. */
  function EscapeTime(c: Point, max: int): (r: nat)
    ensures max <= 0 ==> r == 0
    ensures 0 <= max ==> r <= max
  {
    EscapeFrom(c, 0, max)
  }

  /** r is the escape time of c: every earlier orbit point is inside, and
      either the cap is reached or the orbit point at r is outside. */
  ghost predicate IsEscapeTime(c: Point, max: int, r: int) {
    && 0 <= r
    && (max <= 0 ==> r == 0)
    && (0 <= max ==> r <= max)
    && (forall k: nat :: k < r ==> Bounded(Orbit(c, k)))
    && (r < max ==> !Bounded(Orbit(c, r)))
  }

  lemma {:induction false} EscapeFromIsFirstEscape(c: Point, n: nat, max: int)
    requires forall k: nat :: k < n ==> Bounded(Orbit(c, k))
    ensures forall k: nat :: k < EscapeFrom(c, n, max) ==> Bounded(Orbit(c, k))
    ensures EscapeFrom(c, n, max) < max ==> !Bounded(Orbit(c, EscapeFrom(c, n, max)))
    decreases max - n
  {
    if n >= max || !Bounded(Orbit(c, n)) {
    } else {
      EscapeFromIsFirstEscape(c, n + 1, max);
    }
  }

  /** EscapeTime meets the characterisation IsEscapeTime ... */
  lemma EscapeTimeIsFirstEscape(c: Point, max: int)
    ensures IsEscapeTime(c, max, EscapeTime(c, max))
  {
    EscapeFromIsFirstEscape(c, 0, max);
  }

  /** ... and is the only value that does. */
  lemma EscapeTimeUnique(c: Point, max: int, r: int)
    requires IsEscapeTime(c, max, r)
    ensures r == EscapeTime(c, max)
  {
    EscapeTimeIsFirstEscape(c, max);
  }

  /** For a non-negative cap the kernel returns the cap exactly when the
      first max orbit points all stay inside the disc. */
  lemma ReachesCapIff(c: Point, max: int)
    requires 0 <= max
    ensures EscapeTime(c, max) == max <==> forall k: nat :: k < max ==> Bounded(Orbit(c, k))
  {
    var e := EscapeTime(c, max);
    EscapeTimeIsFirstEscape(c, max);
    if e < max {
      assert !Bounded(Orbit(c, e));
    }
  }

  /** The origin never escapes: its escape time is the cap. */
  lemma OriginReachesCap(max: int)
    requires 0 <= max
    ensures EscapeTime(Origin, max) == max
  {
    ReachesCapIff(Origin, max);
  }

  /** A point already outside the disc escapes after zero iterations. */
  lemma OutsidePointEscapesAtOnce(c: Point, max: int)
    requires !Bounded(c)
    ensures EscapeTime(c, max) == 0
  {
  }

  lemma StepIs(x: real, y: real, c: Point)
    ensures Step(Point(x, y), c) == Point(x * x - y * y + c.x, 2.0 * x * y + c.y)
  {
    assert StepX(x, y, c.x) == x * x - y * y + c.x;
    assert StepY(x, y, c.y) == 2.0 * x * y + c.y;
  }

  lemma OrbitNext(c: Point, n: nat)
    ensures Orbit(c, n + 1) == Step(Orbit(c, n), c)
  {
  }

  /** The kernel's update of (x, y) is one step of the orbit. */
  lemma StepFromOrbit(c: Point, n: nat, x: real, y: real)
    requires Point(x, y) == Orbit(c, n)
    ensures Orbit(c, n + 1) == Point(x * x - y * y + c.x, 2.0 * x * y + c.y)
  {
    OrbitNext(c, n);
    StepIs(x, y, c);
  }

  /**
   * The kernel loop. The result is the escape time of (x, y): it lies in
   * [0, max] (and is 0 when max <= 0), every orbit point before it is
   * inside the disc, and the orbit point at it is outside unless the cap
   * was reached.
   */
  method IterationsAtPoint(x: real, y: real, max: int) returns (iter: int)
    ensures iter == EscapeTime(Point(x, y), max)
    ensures 0 <= iter && (max <= 0 ==> iter == 0) && (0 <= max ==> iter <= max)
    ensures forall k: nat :: k < iter ==> Bounded(Orbit(Point(x, y), k))
    ensures iter < max ==> !Bounded(Orbit(Point(x, y), iter))
  {
    var x0, y0 := x, y;
    var x, y := x, y;
    iter := 0;
    while Bounded(Point(x, y)) && iter < max
      invariant 0 <= iter && (0 <= max ==> iter <= max)
      invariant Point(x, y) == Orbit(Point(x0, y0), iter)
      invariant forall k: nat :: k < iter ==> Bounded(Orbit(Point(x0, y0), k))
      invariant EscapeFrom(Point(x0, y0), iter, max) == EscapeTime(Point(x0, y0), max)
      decreases max - iter
    {
      var xt := x * x - y * y + x0;
      var yt := 2.0 * x * y + y0;
      StepFromOrbit(Point(x0, y0), iter, x, y);
      x := xt;
      y := yt;
      iter := iter + 1;
    }
  }
}
