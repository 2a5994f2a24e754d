/** `Interval`: a [min, max] range of doubles, used for ray-parameter clipping and for the
    per-axis extents of bounding boxes. */
module Intervals {
  import opened Doubles

  datatype Interval = Interval(min: Double, max: Double)

  /** `Interval()`: the default interval is (-INF, INF). */
  const Universe: Interval := Interval(NegInf, PosInf)

  /** `within`: inclusive membership. */
  predicate Within(iv: Interval, x: Double)
  {
    Le(iv.min, x) && Le(x, iv.max)
  }

  /** `surround`: strict membership; it implies inclusive membership. */
  function Surround(iv: Interval, x: Double): (r: bool)
    ensures r ==> Within(iv, x)
    ensures r ==> IsNumber(x) && x != iv.min && x != iv.max
  {
    Lt(iv.min, x) && Lt(x, iv.max)
  }

  /** The union constructor `Interval(first, second)`: the smallest interval holding both. */
  function Union(a: Interval, b: Interval): (r: Interval)
    ensures IsNumber(a.min) && IsNumber(b.min) ==> Le(r.min, a.min) && Le(r.min, b.min) && (r.min == a.min || r.min == b.min)
    ensures IsNumber(a.max) && IsNumber(b.max) ==> Le(a.max, r.max) && Le(b.max, r.max) && (r.max == a.max || r.max == b.max)
  {
    Interval(FMin(a.min, b.min), FMax(a.max, b.max))
  }

  /** `clamp`: the nearest point of the interval; a point already inside is unchanged. */
  function Clamp(iv: Interval, x: Double): (r: Double)
    ensures Within(iv, x) ==> r == x
    ensures Le(iv.min, iv.max) && IsNumber(x) ==> Within(iv, r)
    ensures Lt(x, iv.min) ==> r == iv.min
    ensures Lt(iv.max, x) && Le(iv.min, iv.max) ==> r == iv.max
    ensures x.NaN? ==> r == x
  {
    if Lt(x, iv.min) then iv.min
    else if Lt(iv.max, x) then iv.max
    else x
  }

  /** `expand`: widen by `delta` in total, half on each side. */
  function Expand(iv: Interval, delta: Double): Interval
  {
    var padding := Half(delta);
    Interval(Sub(iv.min, padding), Add(iv.max, padding))
  }

  function Size(iv: Interval): Double
  {
    Sub(iv.max, iv.min)
  }

  /** Expanding a finite interval by a finite delta adds exactly delta to its size and,
      for a non-negative delta, keeps every point it held. */
  lemma ExpandSize(iv: Interval, lo: real, hi: real, d: real)
    requires iv == Interval(Finite(lo), Finite(hi))
    ensures Size(Expand(iv, Finite(d))) == Finite(hi - lo + d)
    ensures d >= 0.0 ==> forall x :: Within(iv, x) ==> Within(Expand(iv, Finite(d)), x)
  {
  }

  /** The union holds every point of either argument. */
  lemma UnionContains(a: Interval, b: Interval, x: Double)
    ensures Within(a, x) ==> Within(Union(a, b), x)
    ensures Within(b, x) ==> Within(Union(a, b), x)
  {
    if Within(a, x) {
      if IsNumber(b.min) { LeTransitive(Union(a, b).min, a.min, x); }
      if IsNumber(b.max) { LeTransitive(x, a.max, Union(a, b).max); }
    }
    if Within(b, x) {
      if IsNumber(a.min) { LeTransitive(Union(a, b).min, b.min, x); }
      if IsNumber(a.max) { LeTransitive(x, b.max, Union(a, b).max); }
    }
  }

  lemma UnionCommutative(a: Interval, b: Interval)
    ensures Union(a, b) == Union(b, a)
  {
    FMinCommutative(a.min, b.min);
    FMaxCommutative(a.max, b.max);
  }

  lemma UnionAssociative(a: Interval, b: Interval, c: Interval)
    ensures Union(Union(a, b), c) == Union(a, Union(b, c))
  {
    FMinAssociative(a.min, b.min, c.min);
    FMaxAssociative(a.max, b.max, c.max);
  }

  lemma UnionIdempotent(a: Interval)
    ensures Union(a, a) == a
  {
    FMinIdempotent(a.min);
    FMaxIdempotent(a.max);
  }

  /** The default interval absorbs every union: a union with `Interval()` is `Interval()`
      again unless the other side holds a NaN bound. */
  lemma UniverseAbsorbs(b: Interval)
    requires IsNumber(b.min) && IsNumber(b.max)
    ensures Union(Universe, b) == Universe
  {
  }
}
