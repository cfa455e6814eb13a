/** Complex numbers over exact reals, the iteration rule of the escape-time
    kernel, and its escape test. Floating-point rounding is idealised away. */
module ComplexPlane {

  /** A complex sample: a pair of reals (real part, imaginary part). */
  datatype Complex = Complex(re: real, im: real)

  const Zero := Complex(0.0, 0.0)
  const One := Complex(1.0, 0.0)

  function Add(a: Complex, b: Complex): Complex
  {
    Complex(a.re + b.re, a.im + b.im)
  }

  function Mul(a: Complex, b: Complex): Complex
  {
    Complex(a.re * b.re - a.im * b.im, a.re * b.im + a.im * b.re)
  }

  /** The squared modulus |z|^2. */
  function NormSq(z: Complex): real
  {
    z.re * z.re + z.im * z.im
  }

  /** The escape test |z| > 2, written without a square root as |z|^2 > 4. */
  predicate Escaped(z: Complex)
  {
    NormSq(z) > 4.0
  }

  /** The kernel's iteration rule z <- (z + 1)^2 + c. */
  function Step(z: Complex, c: Complex): Complex
  {
    var w := Add(z, One);
    Add(Mul(w, w), c)
  }

  /** The textbook rule w <- w^2 + c, kept as a reference for Step. */
  function ClassicalStep(w: Complex, c: Complex): Complex
  {
    Add(Mul(w, w), c)
  }

  /** Comparing |z|^2 with 4 decides the same question as comparing the
      modulus |z| itself with 2. */
  lemma EscapedMatchesModulus(z: Complex, modulus: real)
    requires modulus >= 0.0 && modulus * modulus == NormSq(z)
    ensures Escaped(z) <==> modulus > 2.0
  {
    if modulus > 2.0 {
      assert modulus * modulus > 2.0 * modulus;
    } else {
      assert modulus * modulus <= 2.0 * modulus;
    }
  }

  /** Shifting by one turns the kernel's rule into the textbook rule with c + 1:
      if w = z + 1 then Step(z, c) + 1 = w^2 + (c + 1). */
  lemma StepIsShiftedClassical(z: Complex, c: Complex)
    ensures Add(Step(z, c), One) == ClassicalStep(Add(z, One), Add(c, One))
  {
  }
}
