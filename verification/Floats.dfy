/** 64-bit floats as far as the comparer looks: not-a-number, the infinities and
    finite values, with exact arithmetic in place of rounding. */
module Floats {
  datatype F64 = NaN | Infinity(negative: bool) | Finite(value: real) {
    predicate IsFinite() { Finite? }

    predicate Negative() {
      (Infinity? && negative) || (Finite? && value < 0.0)
    }

    predicate IsZero() { Finite? && value == 0.0 }

    function Abs(): F64 {
      match this
      case NaN => NaN
      case Infinity(_) => Infinity(false)
      case Finite(x) => Finite(if x < 0.0 then -x else x)
    }

    function Mul(that: F64): F64 {
      if NaN? || that.NaN? then NaN
      else if Finite? && that.Finite? then Finite(value * that.value)
      else if IsZero() || that.IsZero() then NaN
      else Infinity(Negative() != that.Negative())
    }

    /** `<=`, which no comparison with not-a-number satisfies. */
    predicate Le(that: F64) {
      match (this, that)
      case (NaN, _) => false
      case (_, NaN) => false
      case (Infinity(n), _) => n || that == Infinity(false)
      case (_, Infinity(n)) => !n
      case (Finite(x), Finite(y)) => x <= y
    }

    /** `f64::max`, which prefers a number to not-a-number. */
    function Max(that: F64): F64 {
      if NaN? then that else if that.NaN? then this else if Le(that) then that else this
    }

    /** `==`, which not-a-number fails even with itself. */
    predicate IeeeEq(that: F64) { !NaN? && this == that }
  }
}
