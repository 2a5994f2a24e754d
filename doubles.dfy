/** IEEE-754 doubles without rounding.
    The interval and bounding-box code compares and combines doubles that may be
    infinite (the default interval is (-INF, INF)) or NaN (0 * INF inside the slab test).
    A `Double` is a finite real, one of the two infinities, or NaN; arithmetic is exact on
    finite values and follows IEEE-754 for the special ones. Signed zeros are not modelled. */
module Doubles {

  datatype Double = Finite(v: real) | PosInf | NegInf | NaN

  predicate IsNumber(a: Double) { !a.NaN? }

  /** `a < b` as C++ evaluates it: false whenever either side is NaN. */
  predicate Lt(a: Double, b: Double)
  {
    match (a, b)
    case (NaN, _) => false
    case (_, NaN) => false
    case (NegInf, NegInf) => false
    case (NegInf, _) => true
    case (_, NegInf) => false
    case (PosInf, _) => false
    case (Finite(_), PosInf) => true
    case (Finite(x), Finite(y)) => x < y
  }

  /** `a <= b` as C++ evaluates it. */
  predicate Le(a: Double, b: Double)
  {
    IsNumber(a) && IsNumber(b) && !Lt(b, a)
  }

  function Neg(a: Double): Double
  {
    match a
    case Finite(x) => Finite(-x)
    case PosInf => NegInf
    case NegInf => PosInf
    case NaN => NaN
  }

  function Add(a: Double, b: Double): Double
  {
    match (a, b)
    case (NaN, _) => NaN
    case (_, NaN) => NaN
    case (PosInf, NegInf) => NaN
    case (NegInf, PosInf) => NaN
    case (PosInf, _) => PosInf
    case (NegInf, _) => NegInf
    case (_, PosInf) => PosInf
    case (_, NegInf) => NegInf
    case (Finite(x), Finite(y)) => Finite(x + y)
  }

  function Sub(a: Double, b: Double): Double
  {
    Add(a, Neg(b))
  }

  /** Sign of a non-NaN double: -1, 0 or 1. */
  function Sign(a: Double): int
    requires IsNumber(a)
  {
    match a
    case PosInf => 1
    case NegInf => -1
    case Finite(x) => if x > 0.0 then 1 else if x < 0.0 then -1 else 0
  }

  function Mul(a: Double, b: Double): Double
  {
    match (a, b)
    case (NaN, _) => NaN
    case (_, NaN) => NaN
    case (Finite(x), Finite(y)) => Finite(x * y)
    case _ =>
      // at least one infinity: 0 * INF is NaN, otherwise an infinity of the product's sign
      var s := Sign(a) * Sign(b);
      if s == 0 then NaN else if s > 0 then PosInf else NegInf
  }

  /** `d / 2`, as `Interval::expand` halves its padding. */
  function Half(a: Double): Double
  {
    match a
    case Finite(x) => Finite(x / 2.0)
    case _ => a
  }

  /** `fabs`. */
  function Fabs(a: Double): Double
  {
    match a
    case Finite(x) => Finite(if x < 0.0 then -x else x)
    case NegInf => PosInf
    case _ => a
  }

  /** `fmin`: a NaN argument is ignored in favour of the other one. */
  function FMin(a: Double, b: Double): (r: Double)
    ensures IsNumber(a) && IsNumber(b) ==> (r == a || r == b) && Le(r, a) && Le(r, b)
    ensures a.NaN? ==> r == b
    ensures b.NaN? ==> r == a
  {
    if a.NaN? then b else if b.NaN? then a else if Lt(b, a) then b else a
  }

  /** `fmax`: a NaN argument is ignored in favour of the other one. */
  function FMax(a: Double, b: Double): (r: Double)
    ensures IsNumber(a) && IsNumber(b) ==> (r == a || r == b) && Le(a, r) && Le(b, r)
    ensures a.NaN? ==> r == b
    ensures b.NaN? ==> r == a
  {
    if a.NaN? then b else if b.NaN? then a else if Lt(a, b) then b else a
  }

  // ---- order facts ----

  /** On numbers, `<` is a strict total order. */
  lemma LtTrichotomy(a: Double, b: Double)
    requires IsNumber(a) && IsNumber(b)
    ensures Lt(a, b) || a == b || Lt(b, a)
    ensures !(Lt(a, b) && Lt(b, a))
    ensures !Lt(a, a)
  {
  }

  lemma LtTransitive(a: Double, b: Double, c: Double)
    requires Lt(a, b) && Lt(b, c)
    ensures Lt(a, c)
  {
  }

  lemma LeTransitive(a: Double, b: Double, c: Double)
    requires Le(a, b) && Le(b, c)
    ensures Le(a, c)
  {
  }

  lemma LeLtTransitive(a: Double, b: Double, c: Double)
    requires Le(a, b) && Lt(b, c)
    ensures Lt(a, c)
  {
  }

  lemma LtLeTransitive(a: Double, b: Double, c: Double)
    requires Lt(a, b) && Le(b, c)
    ensures Lt(a, c)
  {
  }

  // ---- fmin / fmax algebra ----

  lemma FMinCommutative(a: Double, b: Double)
    ensures FMin(a, b) == FMin(b, a)
  {
  }

  lemma FMaxCommutative(a: Double, b: Double)
    ensures FMax(a, b) == FMax(b, a)
  {
  }

  lemma FMinAssociative(a: Double, b: Double, c: Double)
    ensures FMin(FMin(a, b), c) == FMin(a, FMin(b, c))
  {
  }

  lemma FMaxAssociative(a: Double, b: Double, c: Double)
    ensures FMax(FMax(a, b), c) == FMax(a, FMax(b, c))
  {
  }

  lemma FMinIdempotent(a: Double)
    ensures FMin(a, a) == a
  {
  }

  lemma FMaxIdempotent(a: Double)
    ensures FMax(a, a) == a
  {
  }
}
