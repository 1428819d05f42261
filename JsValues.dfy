/** JavaScript values that the front-end arithmetic depends on: numbers with
    their non-finite values, truncation toward zero, the `%` operator, and the
    exceptions an expression can throw. */
module JsValues {

  /** A JavaScript number. Finite values are modelled as exact reals, so the
      rounding of IEEE doubles (and the sign of zero) is not represented. */
  datatype Number = Finite(value: real) | PosInfinity | NegInfinity | NaN {
    /** `Number.isFinite` */
    predicate IsFinite() { Finite? }
  }

  /** The time constants of ECMAScript `Date` arithmetic, in milliseconds. */
  const MsPerSecond: int := 1000
  const MsPerMinute: int := 60 * 1000
  const MsPerHour: int := 60 * 60 * 1000
  const MsPerDay: int := 24 * 60 * 60 * 1000

  /** A value that may be absent (`undefined` or `null` in the source). */
  datatype Option<T> = None | Some(value: T)

  /** What a JavaScript computation ends in: a value, or a thrown error. */
  datatype Outcome<T> = Ok(value: T) | TypeError | RangeError

  /** ToIntegerOrInfinity on a finite value: truncation toward zero. */
  function Trunc(x: real): (r: int)
    ensures 0.0 <= x ==> r as real <= x < r as real + 1.0
    ensures x < 0.0 ==> r as real - 1.0 < x <= r as real
  {
    if 0.0 <= x then x.Floor else -((-x).Floor)
  }

  /** The JavaScript remainder `a % b` on integers with b > 0: it takes the
      sign of the dividend, unlike Dafny's Euclidean `%`. */
  function Rem(a: int, b: int): (r: int)
    requires b > 0
    ensures 0 <= a ==> 0 <= r < b
    ensures a < 0 ==> -b < r <= 0
  {
    if 0 <= a then a % b else -((-a) % b)
  }

  /** `x % 1.0` for a finite x: the fractional part, with the sign of x. */
  function Frac(x: real): (r: real)
    ensures 0.0 <= x ==> 0.0 <= r < 1.0
    ensures x < 0.0 ==> -1.0 < r <= 0.0
    ensures (x - r).Floor as real == x - r
  {
    x - Trunc(x) as real
  }

  /** IEEE division over the modelled values (signed zeros aside). */
  function Div(a: Number, b: Number): (r: Number)
    ensures a.Finite? && b.Finite? && b.value != 0.0 ==> r == Finite(a.value / b.value)
    ensures a.NaN? || b.NaN? ==> r.NaN?
  {
    match (a, b)
    case (Finite(x), Finite(y)) =>
      if y != 0.0 then Finite(x / y)
      else if x > 0.0 then PosInfinity
      else if x < 0.0 then NegInfinity
      else NaN
    case (Finite(_), NaN) => NaN
    case (Finite(_), _) => Finite(0.0)
    case (NaN, _) => NaN
    case (_, Finite(y)) =>
      if y == 0.0 then a
      else if y > 0.0 then a
      else (if a.PosInfinity? then NegInfinity else PosInfinity)
    case (_, _) => NaN
  }

  /** IEEE addition over the modelled values. */
  function Add(a: Number, b: Number): (r: Number)
    ensures a.Finite? && b.Finite? ==> r == Finite(a.value + b.value)
    ensures r.IsFinite() ==> a.IsFinite() && b.IsFinite()
  {
    match (a, b)
    case (Finite(x), Finite(y)) => Finite(x + y)
    case (NaN, _) => NaN
    case (_, NaN) => NaN
    case (Finite(_), _) => b
    case (_, Finite(_)) => a
    case (PosInfinity, PosInfinity) => PosInfinity
    case (NegInfinity, NegInfinity) => NegInfinity
    case (_, _) => NaN
  }
}
