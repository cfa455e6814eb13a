/** The colour policy: an escape count and the cap become an RGB triple. */
module Color {

  /** One pixel: red, green and blue channel values. */
  datatype Rgb = Rgb(r: int, g: int, b: int)

  /** The colour of points presumed inside the set. */
  const White := Rgb(255, 255, 255)

  /** The outcome of colouring: a colour, or the division by a zero cap
      that the gradient branch raises. */
  datatype Painting = Painted(rgb: Rgb) | ZeroDivision

  predicate InByteRange(p: Rgb)
  {
    0 <= p.r <= 255 && 0 <= p.g <= 255 && 0 <= p.b <= 255
  }

  function Abs(a: int): nat
  {
    if a < 0 then -a else a
  }

  /** Division that rounds toward zero, as converting the quotient of a true
      division back to an integer does. */
  function TruncDiv(a: int, b: int): (q: int)
    requires b != 0
    ensures Abs(q) * Abs(b) <= Abs(a) < Abs(q) * Abs(b) + Abs(b)
    ensures (a >= 0) == (b > 0) ==> q >= 0
    ensures (a >= 0) != (b > 0) ==> q <= 0
  {
    var m := Abs(a) / Abs(b);
    DivBounds(Abs(a), Abs(b));
    if (a < 0) == (b < 0) then m else -m
  }

  /** The quotient of Dafny's division brackets the dividend. */
  lemma DivBounds(a: int, d: int)
    requires a >= 0 && d > 0
    ensures (a / d) * d <= a < (a / d) * d + d
  {
    var q, r := a / d, a % d;
    assert a == d * q + r && 0 <= r < d;
    assert q * d == d * q;
  }

  /** Division rounding toward zero agrees with Dafny's division when
      neither operand is negative. */
  lemma TruncDivNonNegative(a: int, b: int)
    requires a >= 0 && b > 0
    ensures TruncDiv(a, b) == a / b
  {
  }

  /** The count equal to the cap is painted white; any other count with a
      zero cap is a division by zero; otherwise a blue gradient. */
  function MapColor(iterations: int, threshold: int): (r: Painting)
    ensures r == ZeroDivision <==> threshold == 0 && iterations != 0
    ensures iterations == threshold ==> r == Painted(White)
    ensures iterations != threshold ==> r.ZeroDivision? || (r.rgb.r == 0 && r.rgb.g == 0)
  {
    if iterations == threshold then
      Painted(White)
    else if threshold == 0 then
      ZeroDivision
    else
      Painted(Rgb(0, 0, TruncDiv(255 * iterations, threshold)))
  }

  /** A count that escaped below the cap gets blue = 255 * it / thr, which
      stays in [0, 254]. */
  lemma MapColorGradient(iterations: int, threshold: int)
    requires 0 <= iterations < threshold
    ensures MapColor(iterations, threshold) == Painted(Rgb(0, 0, 255 * iterations / threshold))
    ensures 0 <= 255 * iterations / threshold <= 254
  {
    var a := 255 * iterations;
    TruncDivNonNegative(a, threshold);
  }

  /** A count of zero below a positive cap is painted black. */
  lemma MapColorBlack(threshold: int)
    requires threshold > 0
    ensures MapColor(0, threshold) == Painted(Rgb(0, 0, 0))
  {
    MapColorGradient(0, threshold);
  }

  /** For a fixed positive cap the blue channel does not decrease as the
      count grows below the cap. */
  lemma MapColorBlueMonotone(i: int, j: int, threshold: int)
    requires 0 <= i <= j < threshold
    ensures MapColor(i, threshold).rgb.b <= MapColor(j, threshold).rgb.b
  {
    MapColorGradient(i, threshold);
    MapColorGradient(j, threshold);
    DivMonotone(255 * i, 255 * j, threshold);
  }

  lemma DivMonotone(a: int, b: int, d: int)
    requires 0 <= a <= b && d > 0
    ensures a / d <= b / d
  {
    var qa, qb := a / d, b / d;
    DivBounds(a, d);
    DivBounds(b, d);
    assert qa * d < qb * d + d;
    assert (qa - qb) * d < d;
    FactorBelowOne(qa - qb, d);
  }

  lemma FactorBelowOne(x: int, d: int)
    requires d > 0 && x * d < d
    ensures x < 1
  {
  }

  /** Every count the escape function can return for this cap (one in
      [0, cap], or the cap itself) is painted, with channels that fit a byte. */
  lemma MapColorInByteRange(iterations: int, threshold: int)
    requires 0 <= iterations <= threshold || iterations == threshold
    ensures MapColor(iterations, threshold).Painted?
    ensures InByteRange(MapColor(iterations, threshold).rgb)
  {
    if iterations != threshold {
      MapColorGradient(iterations, threshold);
    }
  }
}
