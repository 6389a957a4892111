/**
 * Complex numbers as immutable pairs of reals. The C header that declares them is
 * not part of this model; its operations are given their standard meaning, with
 * the double-precision numbers of the C code idealised as exact reals.
 */
module ComplexNumber {

  datatype Complex = Complex(re: real, im: real)

  const Zero: Complex := Complex(0.0, 0.0)

  /** `ComplexSum`: componentwise addition. */
  function Sum(a: Complex, b: Complex): Complex {
    Complex(a.re + b.re, a.im + b.im)
  }

  /** `ComplexProduct`: (a.re + a.im i) (b.re + b.im i). */
  function Product(a: Complex, b: Complex): Complex {
    Complex(a.re * b.re - a.im * b.im, a.re * b.im + a.im * b.re)
  }

  /** The square of `ComplexAbs`: re^2 + im^2, never negative. */
  function AbsSquared(a: Complex): (r: real)
    ensures r >= 0.0
  {
    a.re * a.re + a.im * a.im
  }

  /**
   * `ComplexAbs(z) >= threshold`. The magnitude is the non-negative square root of
   * AbsSquared, so for a positive threshold the comparison holds exactly when
   * AbsSquared(z) >= threshold^2, and for a threshold <= 0 it always holds.
   */
  predicate AbsAtLeast(z: Complex, threshold: real) {
    threshold <= 0.0 || threshold * threshold <= AbsSquared(z)
  }
}
