/** `AABB`: axis-aligned bounding boxes, their unions and padding, and the ray-slab test. */
module Boxes {
  import opened Doubles
  import opened Vectors
  import opened Intervals

  datatype AABB = AABB(x: Interval, y: Interval, z: Interval)

  /** `AABB()`: three default intervals, that is the whole space. */
  const DefaultBox: AABB := AABB(Universe, Universe, Universe)

  /** `axis(i)` either yields an interval or throws `std::out_of_range`. */
  datatype Outcome<T> = Ok(value: T) | OutOfRange

  /** The interval of axis k, for k in {0, 1, 2}. */
  function AxisAt(box: AABB, k: nat): Interval
    requires k < 3
  {
    if k == 0 then box.x else if k == 1 then box.y else box.z
  }

  /** `AABB::axis`: x, y and z for 0, 1 and 2; every other index throws. */
  function Axis(box: AABB, i: int): (r: Outcome<Interval>)
    ensures r.Ok? <==> 0 <= i < 3
    ensures r.Ok? ==> r.value == AxisAt(box, i)
  {
    match i
    case 0 => Ok(box.x)
    case 1 => Ok(box.y)
    case 2 => Ok(box.z)
    case _ => OutOfRange
  }

  function MinOf(a: real, b: real): real { if b < a then b else a }
  function MaxOf(a: real, b: real): real { if a < b then b else a }

  /** `AABB(a, b)`: the box with corners a and b, each axis ordered with `fmin`/`fmax`. */
  function FromPoints(a: Vec3, b: Vec3): (r: AABB)
    ensures forall k :: 0 <= k < 3 ==>
      AxisAt(r, k) == Interval(Finite(MinOf(Component(a, k), Component(b, k))), Finite(MaxOf(Component(a, k), Component(b, k))))
  {
    AABB(Interval(Finite(MinOf(a.x, b.x)), Finite(MaxOf(a.x, b.x))),
         Interval(Finite(MinOf(a.y, b.y)), Finite(MaxOf(a.y, b.y))),
         Interval(Finite(MinOf(a.z, b.z)), Finite(MaxOf(a.z, b.z))))
  }

  /** `AABB(box0, box1)`: the per-axis union of two boxes. */
  function Union(a: AABB, b: AABB): (r: AABB)
    ensures forall k :: 0 <= k < 3 ==> AxisAt(r, k) == Intervals.Union(AxisAt(a, k), AxisAt(b, k))
  {
    AABB(Intervals.Union(a.x, b.x), Intervals.Union(a.y, b.y), Intervals.Union(a.z, b.z))
  }

  /** The padding delta of `AABB::pad`. */
  const PadDelta: Double := Finite(0.0001)

  /** One axis of `pad`: widened by PadDelta (split evenly) only when its size is below it. */
  function PadAxis(iv: Interval): (r: Interval)
    ensures Le(PadDelta, Fabs(Size(iv))) ==> r == iv
  {
    if Le(PadDelta, Fabs(Size(iv))) then iv else Expand(iv, PadDelta)
  }

  /** A finite, ordered axis is never thinner than PadDelta after padding, and padding only
      widens it. */
  lemma PadAxisWidens(iv: Interval, lo: real, hi: real)
    requires iv == Interval(Finite(lo), Finite(hi)) && lo <= hi
    ensures PadAxis(iv).min.Finite? && PadAxis(iv).max.Finite?
    ensures Le(PadDelta, Size(PadAxis(iv)))
    ensures PadAxis(iv).min.v <= lo && hi <= PadAxis(iv).max.v
  {
  }

  /** `AABB::pad`: applies PadAxis to each axis. */
  function Pad(box: AABB): AABB
  {
    AABB(PadAxis(box.x), PadAxis(box.y), PadAxis(box.z))
  }

  /** A padded finite box with ordered axes encloses the original box, and no axis is
      thinner than PadDelta. */
  lemma PadEncloses(box: AABB)
    requires Finite3(box)
    requires forall k :: 0 <= k < 3 ==> Le(AxisAt(box, k).min, AxisAt(box, k).max)
    ensures Encloses(Pad(box), box)
    ensures forall k :: 0 <= k < 3 ==> Le(PadDelta, Size(AxisAt(Pad(box), k)))
  {
    forall k | 0 <= k < 3
      ensures Le(AxisAt(Pad(box), k).min, AxisAt(box, k).min) && Le(AxisAt(box, k).max, AxisAt(Pad(box), k).max)
      ensures Le(PadDelta, Size(AxisAt(Pad(box), k)))
    {
      var iv := AxisAt(box, k);
      assert AxisAt(Pad(box), k) == PadAxis(iv);
      PadAxisWidens(iv, iv.min.v, iv.max.v);
    }
  }

  /** No bound of the box is NaN. */
  predicate NoNaN(box: AABB)
  {
    forall k :: 0 <= k < 3 ==> IsNumber(AxisAt(box, k).min) && IsNumber(AxisAt(box, k).max)
  }

  /** Box `outer` holds box `inner` on every axis. */
  predicate Encloses(outer: AABB, inner: AABB)
  {
    forall k :: 0 <= k < 3 ==>
      Le(AxisAt(outer, k).min, AxisAt(inner, k).min) && Le(AxisAt(inner, k).max, AxisAt(outer, k).max)
  }

  /** A point lies inside a box. */
  predicate Contains(box: AABB, p: Vec3)
  {
    forall k :: 0 <= k < 3 ==> Within(AxisAt(box, k), Finite(Component(p, k)))
  }

  // ---- properties of the constructors ----

  /** `AABB(a, b)` does not depend on the order of its corners, orders every axis and
      holds both corners. */
  lemma FromPointsSymmetric(a: Vec3, b: Vec3)
    ensures FromPoints(a, b) == FromPoints(b, a)
    ensures forall k :: 0 <= k < 3 ==> Le(AxisAt(FromPoints(a, b), k).min, AxisAt(FromPoints(a, b), k).max)
    ensures Contains(FromPoints(a, b), a) && Contains(FromPoints(a, b), b)
  {
  }

  /** The union of two NaN-free boxes encloses both and is NaN-free. */
  lemma {:induction false} UnionEncloses(a: AABB, b: AABB)
    requires NoNaN(a) && NoNaN(b)
    ensures Encloses(Union(a, b), a) && Encloses(Union(a, b), b)
    ensures NoNaN(Union(a, b))
  {
    forall k | 0 <= k < 3
      ensures Le(AxisAt(Union(a, b), k).min, AxisAt(a, k).min) && Le(AxisAt(a, k).max, AxisAt(Union(a, b), k).max)
      ensures Le(AxisAt(Union(a, b), k).min, AxisAt(b, k).min) && Le(AxisAt(b, k).max, AxisAt(Union(a, b), k).max)
      ensures IsNumber(AxisAt(Union(a, b), k).min) && IsNumber(AxisAt(Union(a, b), k).max)
    {
    }
  }

  /** Enclosure is transitive. */
  lemma EnclosesTransitive(a: AABB, b: AABB, c: AABB)
    requires Encloses(a, b) && Encloses(b, c)
    ensures Encloses(a, c)
  {
    forall k | 0 <= k < 3
      ensures Le(AxisAt(a, k).min, AxisAt(c, k).min) && Le(AxisAt(c, k).max, AxisAt(a, k).max)
    {
      LeTransitive(AxisAt(a, k).min, AxisAt(b, k).min, AxisAt(c, k).min);
      LeTransitive(AxisAt(c, k).max, AxisAt(b, k).max, AxisAt(a, k).max);
    }
  }

  /** A box holds every point of a box it encloses. */
  lemma EnclosedContains(outer: AABB, inner: AABB, p: Vec3)
    requires Encloses(outer, inner) && Contains(inner, p)
    ensures Contains(outer, p)
  {
    forall k | 0 <= k < 3
      ensures Within(AxisAt(outer, k), Finite(Component(p, k)))
    {
      LeTransitive(AxisAt(outer, k).min, AxisAt(inner, k).min, Finite(Component(p, k)));
      LeTransitive(Finite(Component(p, k)), AxisAt(inner, k).max, AxisAt(outer, k).max);
    }
  }

  lemma BoxUnionCommutative(a: AABB, b: AABB)
    ensures Union(a, b) == Union(b, a)
  {
    UnionCommutative(a.x, b.x);
    UnionCommutative(a.y, b.y);
    UnionCommutative(a.z, b.z);
  }

  lemma BoxUnionAssociative(a: AABB, b: AABB, c: AABB)
    ensures Union(Union(a, b), c) == Union(a, Union(b, c))
  {
    UnionAssociative(a.x, b.x, c.x);
    UnionAssociative(a.y, b.y, c.y);
    UnionAssociative(a.z, b.z, c.z);
  }

  lemma BoxUnionIdempotent(a: AABB)
    ensures Union(a, a) == a
  {
    UnionIdempotent(a.x);
    UnionIdempotent(a.y);
    UnionIdempotent(a.z);
  }

  /** The default box absorbs every NaN-free box in a union. */
  lemma DefaultBoxAbsorbs(b: AABB)
    requires NoNaN(b)
    ensures Union(DefaultBox, b) == DefaultBox
  {
    assert IsNumber(AxisAt(b, 0).min) && IsNumber(AxisAt(b, 0).max);
    assert IsNumber(AxisAt(b, 1).min) && IsNumber(AxisAt(b, 1).max);
    assert IsNumber(AxisAt(b, 2).min) && IsNumber(AxisAt(b, 2).max);
    UniverseAbsorbs(b.x);
    UniverseAbsorbs(b.y);
    UniverseAbsorbs(b.z);
  }

  // ---- the slab test ----

  /** `1.0 / d` for a direction component d (only +0.0 is modelled, so 1/0 is +INF). */
  function InvDir(d: real): Double
  {
    if d == 0.0 then PosInf else Finite(1.0 / d)
  }

  /** `(b - orig) * invD`: the ray parameter at which the coordinate o + t d reaches the
      plane b. */
  function Crossing(b: Double, o: real, d: real): Double
  {
    Doubles.Mul(Doubles.Sub(b, Finite(o)), InvDir(d))
  }

  /** One iteration of the loop in `AABB::hit`: intersect the running interval with the
      parameter range over which the ray lies between the two planes of axis i. */
  function SlabStep(box: AABB, r: Ray, iv: Interval, i: nat): Interval
    requires i < 3
  {
    var invD := InvDir(Component(r.dir, i));
    var t0 := Crossing(AxisAt(box, i).min, Component(r.pos, i), Component(r.dir, i));
    var t1 := Crossing(AxisAt(box, i).max, Component(r.pos, i), Component(r.dir, i));
    var enter := if Lt(invD, Finite(0.0)) then t1 else t0;
    var leave := if Lt(invD, Finite(0.0)) then t0 else t1;
    Interval(if Lt(iv.min, enter) then enter else iv.min, if Lt(leave, iv.max) then leave else iv.max)
  }

  predicate Empty(iv: Interval)
  {
    Lt(iv.max, iv.min)
  }

  /** The result of `AABB::hit` when the loop is entered at axis i with running interval iv:
      false as soon as the running interval becomes empty. */
  function SlabHitFrom(box: AABB, r: Ray, iv: Interval, i: nat): bool
    requires i <= 3
    decreases 3 - i
  {
    if i == 3 then true
    else
      var next := SlabStep(box, r, iv, i);
      if Empty(next) then false else SlabHitFrom(box, r, next, i + 1)
  }

  function SlabHit(box: AABB, r: Ray, rayInt: Interval): bool
  {
    SlabHitFrom(box, r, rayInt, 0)
  }

  /** The running interval after axes i..2, without the early exits. */
  function RunFrom(box: AABB, r: Ray, iv: Interval, i: nat): Interval
    requires i <= 3
    decreases 3 - i
  {
    if i == 3 then iv else RunFrom(box, r, SlabStep(box, r, iv, i), i + 1)
  }

  /** `AABB::hit`. */
  method Hit(box: AABB, r: Ray, rayInt: Interval) returns (hit: bool)
    ensures hit == SlabHit(box, r, rayInt)
  {
    var ray_int := rayInt;
    var i := 0;
    while i < 3
      invariant 0 <= i <= 3
      invariant SlabHitFrom(box, r, ray_int, i) == SlabHit(box, r, rayInt)
    {
      var invD := InvDir(Component(r.dir, i));
      var orig := Finite(Component(r.pos, i));
      var t0 := Doubles.Mul(Doubles.Sub(AxisAt(box, i).min, orig), invD);
      var t1 := Doubles.Mul(Doubles.Sub(AxisAt(box, i).max, orig), invD);
      if Lt(invD, Finite(0.0)) {
        t0, t1 := t1, t0;
      }
      if Lt(ray_int.min, t0) {
        ray_int := ray_int.(min := t0);
      }
      if Lt(t1, ray_int.max) {
        ray_int := ray_int.(max := t1);
      }
      if Lt(ray_int.max, ray_int.min) {
        return false;
      }
      i := i + 1;
    }
    return true;
  }

  /** A step only ever raises the lower bound and lowers the upper bound. */
  lemma SlabStepNarrows(box: AABB, r: Ray, iv: Interval, i: nat)
    requires i < 3
    ensures SlabStep(box, r, iv, i).min == iv.min || Lt(iv.min, SlabStep(box, r, iv, i).min)
    ensures SlabStep(box, r, iv, i).max == iv.max || Lt(SlabStep(box, r, iv, i).max, iv.max)
  {
  }

  /** Every parameter kept by a step was in the interval before it. */
  lemma StepWithin(box: AABB, r: Ray, iv: Interval, i: nat, t: Double)
    requires i < 3
    requires Within(SlabStep(box, r, iv, i), t)
    ensures Within(iv, t)
  {
    var s := SlabStep(box, r, iv, i);
    SlabStepNarrows(box, r, iv, i);
    if s.min != iv.min { LtLeTransitive(iv.min, s.min, t); }
    if s.max != iv.max { LeLtTransitive(t, s.max, iv.max); }
  }

  /** Once empty, the running interval stays empty. */
  lemma EmptyPersists(box: AABB, r: Ray, iv: Interval, i: nat)
    requires i < 3 && Empty(iv)
    ensures Empty(SlabStep(box, r, iv, i))
  {
    var s := SlabStep(box, r, iv, i);
    SlabStepNarrows(box, r, iv, i);
    if s.max != iv.max { LtTransitive(s.max, iv.max, iv.min); }
    if s.min != iv.min { LtTransitive(s.max, iv.min, s.min); }
  }

  lemma {:induction false} EmptyPersistsFrom(box: AABB, r: Ray, iv: Interval, i: nat)
    requires i <= 3 && Empty(iv)
    ensures Empty(RunFrom(box, r, iv, i))
    decreases 3 - i
  {
    if i < 3 {
      EmptyPersists(box, r, iv, i);
      EmptyPersistsFrom(box, r, SlabStep(box, r, iv, i), i + 1);
    }
  }

  /** The early exits of `AABB::hit` change nothing but speed: entered at an axis i < 3,
      the test fails exactly when the interval left after all remaining axes is empty. */
  lemma {:induction false} SlabHitFromIsFinalCheck(box: AABB, r: Ray, iv: Interval, i: nat)
    requires i < 3
    ensures SlabHitFrom(box, r, iv, i) == !Empty(RunFrom(box, r, iv, i))
    decreases 3 - i
  {
    var next := SlabStep(box, r, iv, i);
    if Empty(next) {
      EmptyPersistsFrom(box, r, next, i + 1);
    } else if i + 1 < 3 {
      SlabHitFromIsFinalCheck(box, r, next, i + 1);
    }
  }

  lemma SlabHitIsFinalCheck(box: AABB, r: Ray, rayInt: Interval)
    ensures SlabHit(box, r, rayInt) == !Empty(RunFrom(box, r, rayInt, 0))
  {
    SlabHitFromIsFinalCheck(box, r, rayInt, 0);
  }

  /** The ray lies between the two planes of axis k at parameter t. */
  predicate InSlab(box: AABB, r: Ray, k: nat, t: real)
    requires k < 3
  {
    Within(AxisAt(box, k), Finite(Component(r.pos, k) + t * Component(r.dir, k)))
  }

  predicate Finite3(box: AABB)
  {
    forall k :: 0 <= k < 3 ==> AxisAt(box, k).min.Finite? && AxisAt(box, k).max.Finite?
  }

  lemma ScaleBack(a: real, d: real, t: real)
    requires d != 0.0
    ensures d > 0.0 && a * (1.0 / d) <= t ==> a <= t * d
    ensures d > 0.0 && t <= a * (1.0 / d) ==> t * d <= a
    ensures d < 0.0 && a * (1.0 / d) <= t ==> t * d <= a
    ensures d < 0.0 && t <= a * (1.0 / d) ==> a <= t * d
  {
    var q := a * (1.0 / d);
    assert q * d == a;
    if d > 0.0 {
      if q <= t { assert q * d <= t * d; }
      if t <= q { assert t * d <= q * d; }
    } else {
      if q <= t { assert t * d <= q * d; }
      if t <= q { assert q * d <= t * d; }
    }
  }

  /** A ray parallel to the planes of axis i (direction component +0.0, so 1/d is +INF)
      whose origin lies strictly between them crosses them at -INF and +INF: the step for
      that axis leaves the running interval as it is. */
  lemma ParallelInsideKeeps(box: AABB, r: Ray, iv: Interval, i: nat)
    requires i < 3 && Component(r.dir, i) == 0.0
    requires AxisAt(box, i).min.Finite? && AxisAt(box, i).max.Finite?
    requires AxisAt(box, i).min.v < Component(r.pos, i) < AxisAt(box, i).max.v
    ensures SlabStep(box, r, iv, i) == iv
  {
    var o := Component(r.pos, i);
    assert Crossing(AxisAt(box, i).min, o, 0.0) == NegInf;
    assert Crossing(AxisAt(box, i).max, o, 0.0) == PosInf;
  }

  /** Such a ray whose origin lies above both planes crosses both at -INF: the step for that
      axis empties any running interval with a finite lower end and a non-NaN upper end,
      so `AABB::hit` reports a miss. */
  lemma ParallelAboveEmpties(box: AABB, r: Ray, iv: Interval, i: nat)
    requires i < 3 && Component(r.dir, i) == 0.0
    requires AxisAt(box, i).min.Finite? && AxisAt(box, i).max.Finite?
    requires AxisAt(box, i).min.v <= AxisAt(box, i).max.v < Component(r.pos, i)
    requires iv.min.Finite? && !iv.max.NaN?
    ensures Empty(SlabStep(box, r, iv, i))
  {
    var o := Component(r.pos, i);
    assert Crossing(AxisAt(box, i).min, o, 0.0) == NegInf;
    assert Crossing(AxisAt(box, i).max, o, 0.0) == NegInf;
  }

  /** A ray parallel to axes 0 and 1, inside the slab of axis 0 and above the slab of
      axis 1, misses the box. */
  lemma ParallelMissesBox(box: AABB, r: Ray, iv: Interval)
    requires Component(r.dir, 0) == 0.0 && Component(r.dir, 1) == 0.0
    requires AxisAt(box, 0).min.Finite? && AxisAt(box, 0).max.Finite?
    requires AxisAt(box, 0).min.v < Component(r.pos, 0) < AxisAt(box, 0).max.v
    requires AxisAt(box, 1).min.Finite? && AxisAt(box, 1).max.Finite?
    requires AxisAt(box, 1).min.v <= AxisAt(box, 1).max.v < Component(r.pos, 1)
    requires iv.min.Finite? && !iv.max.NaN? && !Empty(iv)
    ensures !SlabHit(box, r, iv)
  {
    ParallelInsideKeeps(box, r, iv, 0);
    ParallelAboveEmpties(box, r, iv, 1);
  }

  /** A parameter between the two plane crossings of a non-zero direction component puts
      the coordinate between the planes. */
  lemma SlabFromCrossings(lo: real, hi: real, o: real, d: real, t: real)
    requires d > 0.0 ==> (lo - o) * (1.0 / d) <= t <= (hi - o) * (1.0 / d)
    requires d < 0.0 ==> (hi - o) * (1.0 / d) <= t <= (lo - o) * (1.0 / d)
    requires d != 0.0
    ensures lo <= o + t * d <= hi
  {
    ScaleBack(lo - o, d, t);
    ScaleBack(hi - o, d, t);
  }

  /** A finite plane and a non-zero direction component give a finite crossing. */
  lemma FiniteCrossing(b: real, o: real, d: real)
    requires d != 0.0
    ensures Crossing(Finite(b), o, d) == Finite((b - o) * (1.0 / d))
  {
    assert Doubles.Sub(Finite(b), Finite(o)) == Finite(b - o);
  }

  /** Soundness of one axis: a finite parameter kept by the step for axis k puts the ray
      between the planes of axis k, whatever the sign of the direction (zero included). */
  lemma StepSound(box: AABB, r: Ray, iv: Interval, k: nat, t: real)
    requires k < 3 && AxisAt(box, k).min.Finite? && AxisAt(box, k).max.Finite?
    requires Within(SlabStep(box, r, iv, k), Finite(t))
    ensures InSlab(box, r, k, t)
  {
    if Component(r.dir, k) > 0.0 {
      IncreasingStepSound(box, r, iv, k, t);
    } else if Component(r.dir, k) < 0.0 {
      DecreasingStepSound(box, r, iv, k, t);
    }
    // d == 0: 1/0 is +INF, so an origin outside the slab sends a bound of the step to an
    // infinity and no finite parameter survives; an origin inside keeps the ray inside
  }

  /** A positive direction component enters the slab at the lower plane and leaves it at
      the upper one, both at finite parameters. */
  lemma IncreasingStepSound(box: AABB, r: Ray, iv: Interval, k: nat, t: real)
    requires k < 3 && AxisAt(box, k).min.Finite? && AxisAt(box, k).max.Finite?
    requires Component(r.dir, k) > 0.0
    requires Within(SlabStep(box, r, iv, k), Finite(t))
    ensures InSlab(box, r, k, t)
  {
    var lo, hi := AxisAt(box, k).min.v, AxisAt(box, k).max.v;
    var o, d := Component(r.pos, k), Component(r.dir, k);
    var s := SlabStep(box, r, iv, k);
    var t0 := Crossing(Finite(lo), o, d);
    var t1 := Crossing(Finite(hi), o, d);
    FiniteCrossing(lo, o, d);
    FiniteCrossing(hi, o, d);
    LeTransitive(t0, s.min, Finite(t));
    LeTransitive(Finite(t), s.max, t1);
    SlabFromCrossings(lo, hi, o, d, t);
  }

  /** A negative direction component enters the slab at the upper plane and leaves it at
      the lower one. */
  lemma DecreasingStepSound(box: AABB, r: Ray, iv: Interval, k: nat, t: real)
    requires k < 3 && AxisAt(box, k).min.Finite? && AxisAt(box, k).max.Finite?
    requires Component(r.dir, k) < 0.0
    requires Within(SlabStep(box, r, iv, k), Finite(t))
    ensures InSlab(box, r, k, t)
  {
    var lo, hi := AxisAt(box, k).min.v, AxisAt(box, k).max.v;
    var o, d := Component(r.pos, k), Component(r.dir, k);
    var s := SlabStep(box, r, iv, k);
    var t0 := Crossing(Finite(lo), o, d);
    var t1 := Crossing(Finite(hi), o, d);
    FiniteCrossing(lo, o, d);
    FiniteCrossing(hi, o, d);
    LeTransitive(t1, s.min, Finite(t));
    LeTransitive(Finite(t), s.max, t0);
    SlabFromCrossings(lo, hi, o, d, t);
  }

  /** Soundness of the slab test: every finite parameter in the interval that `AABB::hit`
      keeps puts the ray inside the (finite) box. */
  lemma {:induction false} RunFromSound(box: AABB, r: Ray, iv: Interval, i: nat, t: real)
    requires i <= 3 && Finite3(box)
    requires Within(RunFrom(box, r, iv, i), Finite(t))
    ensures forall k :: i <= k < 3 ==> InSlab(box, r, k, t)
    decreases 3 - i
  {
    if i < 3 {
      var next := SlabStep(box, r, iv, i);
      RunFromSound(box, r, next, i + 1, t);
      RunFromWithin(box, r, next, i + 1, Finite(t));
      StepSound(box, r, iv, i, t);
    }
  }

  lemma {:induction false} RunFromWithin(box: AABB, r: Ray, iv: Interval, i: nat, t: Double)
    requires i <= 3
    requires Within(RunFrom(box, r, iv, i), t)
    ensures Within(iv, t)
    decreases 3 - i
  {
    if i < 3 {
      var next := SlabStep(box, r, iv, i);
      RunFromWithin(box, r, next, i + 1, t);
      StepWithin(box, r, iv, i, t);
    }
  }

  lemma SlabsContain(box: AABB, r: Ray, t: real)
    requires forall k :: 0 <= k < 3 ==> InSlab(box, r, k, t)
    ensures Contains(box, At(r, t))
  {
    forall k | 0 <= k < 3
      ensures Within(AxisAt(box, k), Finite(Component(At(r, t), k)))
    {
      assert InSlab(box, r, k, t);
      assert Component(At(r, t), k) == Component(r.pos, k) + t * Component(r.dir, k);
    }
  }

  lemma SlabSound(box: AABB, r: Ray, rayInt: Interval, t: real)
    requires Finite3(box)
    requires Within(RunFrom(box, r, rayInt, 0), Finite(t))
    ensures Within(rayInt, Finite(t))
    ensures Contains(box, At(r, t))
  {
    RunFromSound(box, r, rayInt, 0, t);
    RunFromWithin(box, r, rayInt, 0, Finite(t));
    SlabsContain(box, r, t);
  }

  // ---- completeness of the slab test ----

  lemma InvDirSign(d: real)
    ensures Lt(InvDir(d), Finite(0.0)) <==> d < 0.0
    ensures d > 0.0 ==> InvDir(d) == Finite(1.0 / d) && 1.0 / d > 0.0
    ensures d < 0.0 ==> InvDir(d) == Finite(1.0 / d) && 1.0 / d < 0.0
  {
    if d != 0.0 {
      assert d * (1.0 / d) == 1.0;
    }
  }

  lemma ScaleForward(a: real, d: real, t: real)
    requires d != 0.0
    ensures d > 0.0 && a <= t * d ==> a * (1.0 / d) <= t
    ensures d > 0.0 && t * d <= a ==> t <= a * (1.0 / d)
    ensures d < 0.0 && t * d <= a ==> a * (1.0 / d) <= t
    ensures d < 0.0 && a <= t * d ==> t <= a * (1.0 / d)
  {
    var q := a * (1.0 / d);
    assert q * d == a;
    if d > 0.0 {
      if a <= t * d { assert q * d <= t * d; }
      if t * d <= a { assert t * d <= q * d; }
    } else {
      if t * d <= a { assert t * d <= q * d; }
      if a <= t * d { assert q * d <= t * d; }
    }
  }

  /** A plane at or below the coordinate o + t d is crossed no later than t when the
      direction is positive and no earlier when it is negative; with a zero direction the
      crossing is -INF, or NaN when the origin lies on the plane. */
  lemma CrossingFromBelow(b: Double, o: real, d: real, t: real)
    requires Le(b, Finite(o + t * d))
    ensures d > 0.0 ==> Le(Crossing(b, o, d), Finite(t))
    ensures d < 0.0 ==> Le(Finite(t), Crossing(b, o, d))
    ensures d == 0.0 ==> Crossing(b, o, d).NaN? || Crossing(b, o, d).NegInf?
  {
    InvDirSign(d);
    if b.Finite? && d != 0.0 {
      ScaleForward(b.v - o, d, t);
    }
  }

  /** A plane at or above the coordinate o + t d, symmetrically. */
  lemma CrossingFromAbove(b: Double, o: real, d: real, t: real)
    requires Le(Finite(o + t * d), b)
    ensures d > 0.0 ==> Le(Finite(t), Crossing(b, o, d))
    ensures d < 0.0 ==> Le(Crossing(b, o, d), Finite(t))
    ensures d == 0.0 ==> Crossing(b, o, d).NaN? || Crossing(b, o, d).PosInf?
  {
    InvDirSign(d);
    if b.Finite? && d != 0.0 {
      ScaleForward(b.v - o, d, t);
    }
  }

  /** Completeness of one axis: a parameter in the running interval at which the ray lies
      between the planes of axis k survives the step, whatever the sign of the direction. */
  lemma StepComplete(box: AABB, r: Ray, iv: Interval, k: nat, t: real)
    requires k < 3 && InSlab(box, r, k, t) && Within(iv, Finite(t))
    ensures Within(SlabStep(box, r, iv, k), Finite(t))
  {
    var o, d := Component(r.pos, k), Component(r.dir, k);
    CrossingFromBelow(AxisAt(box, k).min, o, d, t);
    CrossingFromAbove(AxisAt(box, k).max, o, d, t);
    InvDirSign(d);
  }

  lemma {:induction false} RunFromComplete(box: AABB, r: Ray, iv: Interval, i: nat, t: real)
    requires i <= 3 && Within(iv, Finite(t))
    requires forall k :: i <= k < 3 ==> InSlab(box, r, k, t)
    ensures Within(RunFrom(box, r, iv, i), Finite(t))
    decreases 3 - i
  {
    if i < 3 {
      StepComplete(box, r, iv, i, t);
      RunFromComplete(box, r, SlabStep(box, r, iv, i), i + 1, t);
    }
  }

  /** Completeness of the slab test: when the ray is inside the box at a parameter of the
      interval, `AABB::hit` reports a hit. With the soundness above, the test culls only
      rays that have no point in the box over the interval. */
  lemma SlabComplete(box: AABB, r: Ray, rayInt: Interval, t: real)
    requires Contains(box, At(r, t)) && Within(rayInt, Finite(t))
    ensures SlabHit(box, r, rayInt)
  {
    forall k | 0 <= k < 3
      ensures InSlab(box, r, k, t)
    {
      assert Within(AxisAt(box, k), Finite(Component(At(r, t), k)));
      assert Component(At(r, t), k) == Component(r.pos, k) + t * Component(r.dir, k);
    }
    RunFromComplete(box, r, rayInt, 0, t);
    var run := RunFrom(box, r, rayInt, 0);
    LeTransitive(run.min, Finite(t), run.max);
    SlabHitIsFinalCheck(box, r, rayInt);
  }
}
