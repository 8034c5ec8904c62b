/**
 * The colour mapper of mandel.c (iteration_to_color): an iteration count
 * is scaled linearly from [0, max] onto the grey ramp [0, 0xFFFFFF].
 *
 * Two versions are given. IterationToColorAsWritten follows the C
 * expression `0xFFFFFF*iters/(double)max`, whose product is taken in
 * 32-bit `int` before the conversion to double; IterationToColor computes
 * the same quotient without overflow and is the one the renderer uses.
 */
module Color {
  import opened Wrappers

  /** The brightest colour, white. */
  const ColorMax: int := 0xFFFFFF

  /** Range of the C `int` type (32-bit two's complement). */
  const IntMin: int := -0x8000_0000
  const IntMax: int := 0x7FFF_FFFF
  const IntModulus: int := 0x1_0000_0000

  predicate InIntRange(v: int) {
    IntMin <= v <= IntMax
  }

  /** The 32-bit two's complement wrap-around of v. */
  function Wrap32(v: int): (r: int)
    ensures InIntRange(r)
    ensures (v - r) % IntModulus == 0
    ensures InIntRange(v) ==> r == v
  {
    var m := v % IntModulus;
    if m <= IntMax then m else m - IntModulus
  }

  function Abs(v: int): nat {
    if v < 0 then -v else v
  }

  /** Floor division of a natural number brackets the dividend. */
  lemma DivBrackets(n: nat, d: int)
    requires 0 < d
    ensures 0 <= n / d
    ensures (n / d) * d <= n < (n / d + 1) * d
  {
    var q, m := n / d, n % d;
    assert n == q * d + m;
    assert (q + 1) * d == q * d + d;
  }

  /** Multiplying by a positive number keeps a strict order. */
  lemma MulStrict(a: int, b: int, d: int)
    requires 0 < d && a < b
    ensures a * d < b * d
  {
    assert b * d - a * d == (b - a) * d;
  }

  /** A strict order between multiples of a positive number is the order
      of the factors. */
  lemma MulCancel(a: int, b: int, d: int)
    requires 0 < d && a * d < b * d
    ensures a < b
  {
    assert (b - a) * d == b * d - a * d;
  }

  /**
   * Division that rounds toward zero, as the conversion of a double
   * quotient to `int` does in C.
   */
  function TruncDiv(a: int, b: int): (q: int)
    requires b != 0
    ensures Abs(q) * Abs(b) <= Abs(a) < (Abs(q) + 1) * Abs(b)
    ensures q != 0 ==> (q > 0 <==> (a > 0) == (b > 0))
  {
    DivBrackets(Abs(a), Abs(b));
    if (a >= 0) == (b > 0) then Abs(a) / Abs(b) else -(Abs(a) / Abs(b))
  }

  /**
   * The C expression as written. The product 0xFFFFFF*iters is taken in
   * `int` and wraps; the double quotient is then truncated toward zero.
   * None stands for the cases where the C conversion back to `int` has no
   * defined value: a zero cap (the quotient is NaN or infinite) or a
   * quotient outside the `int` range.
   */
  function IterationToColorAsWritten(iters: int, max: int): (r: Option<int>)
    requires InIntRange(iters) && InIntRange(max)
    ensures max == 0 ==> r == None
    ensures 0 < max ==> r.Some?
    ensures r.Some? ==> InIntRange(r.value) && (r.value < 0 ==> InIntRange(ColorMax * iters) ==> iters < 0 || max < 0)
  {
    if max == 0 then None
    else
      var p := Wrap32(ColorMax * iters);
      var q := TruncDiv(p, max);
      QuotientNoLarger(p, max, q);
      if InIntRange(q) then Some(q) else None
  }

  /** A quotient rounded toward zero is no larger than the dividend. */
  lemma QuotientNoLarger(a: int, b: int, q: int)
    requires b != 0 && Abs(q) * Abs(b) <= Abs(a)
    ensures Abs(q) <= Abs(a)
  {
    assert Abs(q) * Abs(b) - Abs(q) == Abs(q) * (Abs(b) - 1);
  }

  /** The counts the escape-time kernel can return for the cap max. */
  predicate IsIterationCount(iters: int, max: int) {
    0 <= iters && (iters == 0 || iters <= max)
  }

  /**
   * The intended mapping: floor(0xFFFFFF * iters / max), computed without
   * overflow; a non-positive cap (for which the kernel returns 0) maps to
   * black.
   */
  function IterationToColor(iters: int, max: int): (r: int)
    requires IsIterationCount(iters, max)
    ensures 0 <= r <= ColorMax
    ensures 0 < max ==> r * max <= ColorMax * iters < (r + 1) * max
    ensures iters == 0 ==> r == 0
    ensures 0 < max && iters == max ==> r == ColorMax
  {
    if max <= 0 then 0
    else
      DivBrackets(ColorMax * iters, max);
      ColorBounded(iters, max, ColorMax * iters / max);
      ColorMax * iters / max
  }

  /** The floor of the scaled count is at most ColorMax, and equals it at
      the cap. */
  lemma ColorBounded(iters: int, max: int, r: int)
    requires 0 <= iters <= max && 0 < max
    requires r * max <= ColorMax * iters < (r + 1) * max
    ensures 0 <= r <= ColorMax
    ensures iters == max ==> r == ColorMax
  {
    assert ColorMax * iters <= ColorMax * max by {
      assert ColorMax * max - ColorMax * iters == ColorMax * (max - iters);
    }
    if r < 0 {
      MulStrict(r + 1, 1, max);
    }
    if r > ColorMax {
      MulStrict(ColorMax, r, max);
    }
    if iters == max && r < ColorMax {
      MulStrict(r + 1, ColorMax + 1, max);
      MulStrict(r + 1, ColorMax, max);
    }
  }

  /** A larger count never gets a darker colour. */
  lemma ColorMonotone(i1: int, i2: int, max: int)
    requires IsIterationCount(i1, max) && IsIterationCount(i2, max)
    requires i1 <= i2
    ensures IterationToColor(i1, max) <= IterationToColor(i2, max)
  {
    if 0 < max {
      var r1, r2 := IterationToColor(i1, max), IterationToColor(i2, max);
      assert ColorMax * i1 <= ColorMax * i2 by {
        assert ColorMax * i2 - ColorMax * i1 == ColorMax * (i2 - i1);
      }
      MulCancel(r1, r2 + 1, max);
    }
  }

  /** The product 0xFFFFFF * iters fits in `int` exactly for iters <= 128. */
  lemma ProductFitsIff(iters: int)
    requires 0 <= iters
    ensures InIntRange(ColorMax * iters) <==> iters <= 128
  {
    if iters > 128 {
      assert ColorMax * iters >= ColorMax * 129;
    }
  }

  /** Without overflow the C expression computes the intended colour. */
  lemma AsWrittenAgreesWithoutOverflow(iters: int, max: int)
    requires 0 <= iters <= max <= IntMax && 0 < max
    requires iters <= 128
    ensures IterationToColorAsWritten(iters, max) == Some(IterationToColor(iters, max))
  {
    ProductFitsIff(iters);
    var q := TruncDiv(ColorMax * iters, max);
    assert q == ColorMax * iters / max;
  }

  /** With the default cap of 1000 the C expression overflows: count 129
      yields a negative colour, and so does the cap itself. */
  lemma AsWrittenOverflowsAtDefaultCap()
    ensures IterationToColorAsWritten(128, 1000) == Some(2147483)
    ensures IterationToColorAsWritten(129, 1000) == Some(-2130706)
    ensures IterationToColorAsWritten(1000, 1000) == Some(-402654)
    ensures IterationToColor(129, 1000) == 2164260
    ensures IterationToColor(1000, 1000) == ColorMax
  {
  }

  /** A zero cap leaves the C expression undefined (0 / 0.0 is NaN); the
      intended mapping gives black. */
  lemma AsWrittenUndefinedAtZeroCap()
    ensures IterationToColorAsWritten(0, 0) == None
    ensures IterationToColor(0, 0) == 0
  {
  }
}
