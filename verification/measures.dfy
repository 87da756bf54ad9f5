/** The values the pipeline passes around: catalogue numbers that may be
    not-a-number, uncertain values (the `uncertainties.ufloat` of the
    source), astropy units as far as the conversion code looks at them, and
    quantities that pair a number with a unit. */
module Measures {

  /** A Python float as the reduction sees it: a number or `nan`. */
  datatype Float = Finite(r: real) | NaN

  /** Multiplication that propagates `nan`. */
  function Mul(a: Float, b: Float): (p: Float)
    ensures p.NaN? <==> a.NaN? || b.NaN?
    ensures p.Finite? ==> p.r == a.r * b.r
  {
    if a.NaN? || b.NaN? then NaN else Finite(a.r * b.r)
  }

  /** A `ufloat`: nominal value `n` and one-sigma uncertainty `s`. */
  datatype Uv = Uv(n: real, s: real)

  /** The factors the conversion multiplies and divides by: wavelengths,
      the speed of light, unit scales. All are positive. */
  type Positive = x: real | x > 0.0 witness 1.0

  /** Multiplying a `ufloat` by an exact positive constant `k`: the nominal
      value and the uncertainty both scale by `k`. */
  function ScaleUv(v: Uv, k: Positive): (r: Uv)
    ensures r.n == v.n * k && r.s == v.s * k
  {
    Uv(v.n * k, v.s * k)
  }

  /** Dividing a `ufloat` by an exact positive constant `k`. */
  function DivUv(v: Uv, k: Positive): (r: Uv)
    ensures r.n * k == v.n && r.s * k == v.s
  {
    Uv(v.n / k, v.s / k)
  }

  /** An astropy unit, described by what the conversion code asks of it:
      `scale` and `text` are the scale factor and the printed form of its
      decomposition into the cgs bases g, cm and s (`1e-23 g / s2` for the
      Jansky); `magnitude` says whether it is `u.mag`; `density` whether
      the decomposition is equivalent to g/s^2, the dimension of a
      spectral flux density per unit frequency. astropy computes these; the
      model receives them as data. */
  datatype Unit = Unit(scale: Positive, text: string, magnitude: bool, density: bool)

  /** 1 Jy = 1e-23 g/s^2 in cgs. */
  const Jansky: Unit := Unit(0.00000000000000000000001, "1e-23 g / s2", false, true)

  /** erg/s/cm^2, which decomposes to g/s^3 with scale 1. */
  const ErgFlux: Unit := Unit(1.0, "g / s3", false, false)

  /** The shapes of value `convert` may receive: a bare float, a `ufloat`
      without a unit, an astropy quantity of a float, or an astropy
      quantity of a `ufloat`. Only the last is convertible. */
  datatype Quantity =
    | Plain(x: real)
    | Uncertain(v: Uv)
    | Scalar(x: real, unit: Unit)
    | Measured(v: Uv, unit: Unit)
}
