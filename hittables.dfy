/** The scene objects that a ray can hit: spheres (static or moving), quads, lists and BVH
    nodes, with the hit record they fill in and their closest-hit queries. */
module Hittables {
  import opened Doubles
  import opened Vectors
  import opened Intervals
  import opened Boxes

  datatype Option<T> = None | Some(value: T)

  /** Materials are shared objects outside this model; a record refers to one by identity. */
  type Material = nat

  /** The surface coordinates stored in a hit record: a quad stores (alpha, beta); a sphere's
      coordinates are `acos`/`atan2` of its outward normal and are kept symbolic. */
  datatype SurfaceUV = PlaneUV(u: real, v: real) | SphereUV(outward: Vec3)

  /** `HitRecord`: hit point, ray parameter, surface coordinates, normal facing the ray,
      material and whether the ray hit the front face. */
  datatype HitRecord = HitRecord(p: Vec3, t: real, uv: SurfaceUV, normal: Vec3, material: Material, frontFace: bool)

  /** `HitRecord::setFaceNormal`: the stored normal always opposes the ray; `frontFace`
      records whether the outward normal already did. Nothing else in the record changes. */
  function SetFaceNormal(rec: HitRecord, r: Ray, outward: Vec3): (res: HitRecord)
    ensures res.frontFace <==> Dot(outward, r.dir) < 0.0
    ensures res.normal == outward || res.normal == Vectors.Neg(outward)
    ensures Dot(res.normal, r.dir) <= 0.0
    ensures res.(normal := rec.normal, frontFace := rec.frontFace) == rec
  {
    var front := Dot(outward, r.dir) < 0.0;
    if front then rec.(frontFace := true, normal := outward)
    else
      DotNeg(outward, r.dir);
      rec.(frontFace := false, normal := Vectors.Neg(outward))
  }

  /** The scene objects. A quad keeps the plane coefficients its constructor derived:
      the unit normal, the offset `d` and the coordinate vector `w`. */
  datatype Hittable =
    | Sphere(radius: real, position: Vec3, motion: Vec3, isMoving: bool, material: Material, bbox: AABB)
    | Quad(q: Vec3, u: Vec3, v: Vec3, normal: Vec3, d: real, w: Vec3, material: Material, bbox: AABB)
    | List(objects: seq<Hittable>, bbox: AABB)
    | BVHNode(left: Hittable, right: Hittable, bbox: AABB)

  function Abs(x: real): real { if x < 0.0 then -x else x }

  // ---- spheres ----

  /** The static-sphere constructor: its box is centre -/+ (r, r, r). */
  function MakeSphere(radius: real, position: Vec3, mat: Material): (s: Hittable)
    ensures s.Sphere? && !s.isMoving && s.position == position && s.radius == radius
  {
    var rvec := Vec3(radius, radius, radius);
    Sphere(radius, position, Zero, false, mat, FromPoints(Vectors.Sub(position, rvec), Vectors.Add(position, rvec)))
  }

  /** The moving-sphere constructor: it travels from `from` (time 0) to `to` (time 1), and its
      box is the union of the boxes at both ends. */
  function MakeMovingSphere(radius: real, from: Vec3, to: Vec3, mat: Material): (s: Hittable)
    ensures s.Sphere? && s.isMoving && s.radius == radius
    ensures s.position == from && s.motion == Vectors.Sub(to, from)
  {
    var rvec := Vec3(radius, radius, radius);
    var box0 := FromPoints(Vectors.Sub(from, rvec), Vectors.Add(from, rvec));
    var box1 := FromPoints(Vectors.Sub(to, rvec), Vectors.Add(to, rvec));
    Sphere(radius, from, Vectors.Sub(to, from), true, mat, Boxes.Union(box0, box1))
  }

  /** `Sphere::getPosition`: the centre at a given time. */
  function GetPosition(s: Hittable, time: real): Vec3
    requires s.Sphere?
  {
    if s.isMoving then Vectors.Add(s.position, Scale(s.motion, time)) else s.position
  }

  /** A static sphere never moves; a moving one is at its start at time 0 and its end at time 1. */
  lemma SphereCentres(radius: real, from: Vec3, to: Vec3, mat: Material, time: real)
    ensures GetPosition(MakeSphere(radius, from, mat), time) == from
    ensures GetPosition(MakeMovingSphere(radius, from, to, mat), 0.0) == from
    ensures GetPosition(MakeMovingSphere(radius, from, to, mat), 1.0) == to
  {
  }

  /** Along every axis, a static sphere's box is exactly its extent centre -/+ |radius|. */
  lemma StaticSphereBox(radius: real, position: Vec3, mat: Material, k: nat)
    requires k < 3
    ensures AxisAt(MakeSphere(radius, position, mat).bbox, k)
         == Interval(Finite(Component(position, k) - Abs(radius)), Finite(Component(position, k) + Abs(radius)))
  {
  }

  /** Between times 0 and 1, a moving sphere's extent along every axis stays in its box. */
  lemma MovingSphereBoxHoldsPath(radius: real, from: Vec3, to: Vec3, mat: Material, time: real, k: nat)
    requires 0.0 <= time <= 1.0 && k < 3
    ensures var s := MakeMovingSphere(radius, from, to, mat);
            var c := Component(GetPosition(s, time), k);
            Within(AxisAt(s.bbox, k), Finite(c - Abs(radius))) && Within(AxisAt(s.bbox, k), Finite(c + Abs(radius)))
  {
    var s := MakeMovingSphere(radius, from, to, mat);
    var a, b := Component(from, k), Component(to, k);
    var c := Component(GetPosition(s, time), k);
    var rad := Abs(radius);
    MovingSphereAxis(radius, from, to, mat, k);
    MovingCentreBetween(radius, from, to, mat, time, k);
    var lo, hi := MinOf(a, b) - rad, MaxOf(a, b) + rad;
    assert rad >= 0.0;
    assert lo <= c - rad <= c + rad <= hi;
    assert Le(Finite(lo), Finite(c - rad)) && Le(Finite(c - rad), Finite(hi));
    assert Le(Finite(lo), Finite(c + rad)) && Le(Finite(c + rad), Finite(hi));
  }

  /** Along every axis, a moving sphere's box spans both end extents. */
  lemma MovingSphereAxis(radius: real, from: Vec3, to: Vec3, mat: Material, k: nat)
    requires k < 3
    ensures var a, b, rad := Component(from, k), Component(to, k), Abs(radius);
            AxisAt(MakeMovingSphere(radius, from, to, mat).bbox, k)
              == Interval(Finite(MinOf(a, b) - rad), Finite(MaxOf(a, b) + rad))
  {
    var a, b := Component(from, k), Component(to, k);
    var rad := Abs(radius);
    var rvec := Vec3(radius, radius, radius);
    var box0 := FromPoints(Vectors.Sub(from, rvec), Vectors.Add(from, rvec));
    var box1 := FromPoints(Vectors.Sub(to, rvec), Vectors.Add(to, rvec));
    assert AxisAt(box0, k) == Interval(Finite(a - rad), Finite(a + rad));
    assert AxisAt(box1, k) == Interval(Finite(b - rad), Finite(b + rad));
    UnionOfExtents(a, b, rad);
  }

  /** Between times 0 and 1 a moving sphere's centre lies between its two end positions. */
  lemma MovingCentreBetween(radius: real, from: Vec3, to: Vec3, mat: Material, time: real, k: nat)
    requires 0.0 <= time <= 1.0 && k < 3
    ensures var a, b := Component(from, k), Component(to, k);
            var c := Component(GetPosition(MakeMovingSphere(radius, from, to, mat), time), k);
            MinOf(a, b) <= c <= MaxOf(a, b)
  {
    var s := MakeMovingSphere(radius, from, to, mat);
    assert GetPosition(s, time) == Vectors.Add(from, Scale(Vectors.Sub(to, from), time));
    PathBetween(from, to, time, k);
  }

  /** The point from + t (to - from) lies between from and to along every axis for t in [0, 1]. */
  lemma PathBetween(from: Vec3, to: Vec3, time: real, k: nat)
    requires 0.0 <= time <= 1.0 && k < 3
    ensures var a, b := Component(from, k), Component(to, k);
            var c := Component(Vectors.Add(from, Scale(Vectors.Sub(to, from), time)), k);
            MinOf(a, b) <= c <= MaxOf(a, b)
  {
    var p := Vectors.Add(from, Scale(Vectors.Sub(to, from), time));
    var m := Vectors.Sub(to, from);
    if k == 0 {
      AxisBetween(from.x, to.x, m.x, time, p.x);
    } else if k == 1 {
      AxisBetween(from.y, to.y, m.y, time, p.y);
    } else {
      AxisBetween(from.z, to.z, m.z, time, p.z);
    }
  }

  lemma AxisBetween(a: real, b: real, m: real, t: real, c: real)
    requires m == b - a && 0.0 <= t <= 1.0 && c == a + m * t
    ensures MinOf(a, b) <= c <= MaxOf(a, b)
  {
    BetweenEnds(a, b, m, t);
  }

  lemma UnionOfExtents(a: real, b: real, rad: real)
    ensures Intervals.Union(Interval(Finite(a - rad), Finite(a + rad)), Interval(Finite(b - rad), Finite(b + rad)))
         == Interval(Finite(MinOf(a, b) - rad), Finite(MaxOf(a, b) + rad))
  {
  }

  /** a + m t with m = b - a lies between a and b for t in [0, 1]. */
  lemma BetweenEnds(a: real, b: real, m: real, t: real)
    requires m == b - a && 0.0 <= t <= 1.0
    ensures MinOf(a, b) <= a + m * t <= MaxOf(a, b)
  {
    if a <= b {
      MulNonNegative(m, t);
      MulNonNegative(m, 1.0 - t);
    } else {
      MulNonNegative(-m, t);
      MulNonNegative(-m, 1.0 - t);
    }
  }

  /** The root choice of `Sphere::hit`: the nearer root if it lies strictly inside the
      interval, otherwise the farther one if it does, otherwise none. */
  function ChooseRoot(iv: Interval, near: real, far: real): (res: Option<real>)
    ensures res.Some? ==> Surround(iv, Finite(res.value)) && (res.value == near || res.value == far)
    ensures res.None? <==> !Surround(iv, Finite(near)) && !Surround(iv, Finite(far))
    ensures Surround(iv, Finite(near)) ==> res == Some(near)
    ensures near <= far && res.Some? && Surround(iv, Finite(far)) ==> res.value <= far
  {
    if Surround(iv, Finite(near)) then Some(near)
    else if Surround(iv, Finite(far)) then Some(far)
    else None
  }

  /** The quadratic of a ray against the sphere's centre at the ray's time:
      a t^2 + 2 h t + c = 0, whose discriminant is h^2 - a c. */
  function CentreOffset(s: Hittable, r: Ray): Vec3
    requires s.Sphere?
  {
    Vectors.Sub(r.pos, GetPosition(s, r.time))
  }

  function QuadA(r: Ray): real { LengthSq(r.dir) }

  function QuadH(s: Hittable, r: Ray): real
    requires s.Sphere?
  {
    Dot(CentreOffset(s, r), r.dir)
  }

  function QuadC(s: Hittable, r: Ray): real
    requires s.Sphere?
  {
    LengthSq(CentreOffset(s, r)) - s.radius * s.radius
  }

  function Discriminant(s: Hittable, r: Ray): real
    requires s.Sphere?
  {
    Square(QuadH(s, r)) - Product(QuadA(r), QuadC(s, r))
  }

  /** `Sphere::hit`. A zero direction gives a = 0, and the source's roots 0/0 are NaN, which
      no interval surrounds, so it misses. A zero radius would make the source's outward
      normal NaN; the model stores the unscaled offset instead. */
  function SphereHit(s: Hittable, r: Ray, iv: Interval, sqrt: real -> real): (res: Option<HitRecord>)
    requires s.Sphere?
    ensures Discriminant(s, r) < 0.0 ==> res.None?
    ensures res.Some? ==> Surround(iv, Finite(res.value.t))
    ensures res.Some? ==> res.value.p == At(r, res.value.t) && res.value.material == s.material
    ensures res.Some? ==> Dot(res.value.normal, r.dir) <= 0.0
  {
    match SphereRoot(s, r, iv, sqrt)
    case None => None
    case Some(root) => Some(SphereRecord(s, r, root))
  }

  /** The two roots (-h -/+ sq) / a of a t^2 + 2 h t + c, given sq, the square root of
      its discriminant h^2 - a c. */
  function NearRoot(a: real, h: real, sq: real): real
    requires a != 0.0
  {
    (-h - sq) / a
  }

  function FarRoot(a: real, h: real, sq: real): real
    requires a != 0.0
  {
    (-h + sq) / a
  }

  /** The root `Sphere::hit` accepts, if any. */
  function SphereRoot(s: Hittable, r: Ray, iv: Interval, sqrt: real -> real): Option<real>
    requires s.Sphere?
  {
    var a := QuadA(r);
    var h := QuadH(s, r);
    var disc := Discriminant(s, r);
    if disc < 0.0 || a == 0.0 then None
    else
      var sq := sqrt(disc);
      ChooseRoot(iv, NearRoot(a, h, sq), FarRoot(a, h, sq))
  }

  /** The record `Sphere::hit` writes for an accepted root. */
  function SphereRecord(s: Hittable, r: Ray, root: real): (rec: HitRecord)
    requires s.Sphere?
    ensures rec.t == root && rec.p == At(r, root) && rec.material == s.material
    ensures Dot(rec.normal, r.dir) <= 0.0
  {
    var p := At(r, root);
    var offset := Vectors.Sub(p, GetPosition(s, r.time));
    var outward := if s.radius == 0.0 then offset else Scale(offset, 1.0 / s.radius);
    SetFaceNormal(HitRecord(p, root, SphereUV(outward), outward, s.material, true), r, outward)
  }

  // ---- quads ----

  /** The cut-off below which `Quad::hit` treats a ray as parallel to the plane. */
  const ParallelEpsilon: real := 0.00000001

  /** The quad constructor as written: given `normal`, the normalised `u x v`, it stores
      D = normal . Q and w = normal / (normal . normal), which is the unit normal itself
      (a zero `u x v` normalises to zero, and such a quad never hits). */
  function MakeQuadAsWritten(q: Vec3, u: Vec3, v: Vec3, normal: Vec3, mat: Material): (h: Hittable)
    ensures h.Quad?
  {
    Quad(q, u, v, normal, Dot(normal, q), CoordinateVector(normal), mat, QuadBox(q, u, v))
  }

  /** The quad constructor with the coordinate vector the plane coordinates need,
      w = n / (n . n) for the unnormalised n = u x v, and a box over all four corners. */
  function MakeQuad(q: Vec3, u: Vec3, v: Vec3, normal: Vec3, mat: Material): (h: Hittable)
    ensures h.Quad?
  {
    Quad(q, u, v, normal, Dot(normal, q), CoordinateVector(Cross(u, v)), mat, FullQuadBox(q, u, v))
  }

  /** n / (n . n), or zero for a zero n. */
  function CoordinateVector(n: Vec3): Vec3
  {
    var nn := Dot(n, n);
    if nn == 0.0 then Zero else Scale(n, 1.0 / nn)
  }

  /** `Quad::setBoundingBox`: the padded box with corners Q and Q + u + v. */
  function QuadBox(q: Vec3, u: Vec3, v: Vec3): AABB
  {
    Pad(FromPoints(q, Vectors.Add(Vectors.Add(q, u), v)))
  }

  /** The box over all four corners Q, Q + u, Q + v and Q + u + v: the union of the box over
      one diagonal with the box over the other. */
  function CornerBox(q: Vec3, u: Vec3, v: Vec3): AABB
  {
    Boxes.Union(FromPoints(q, Vectors.Add(Vectors.Add(q, u), v)), FromPoints(Vectors.Add(q, u), Vectors.Add(q, v)))
  }

  /** The padded box over all four corners. */
  function FullQuadBox(q: Vec3, u: Vec3, v: Vec3): AABB
  {
    Pad(CornerBox(q, u, v))
  }

  /** The quad's box holds both corners it is built from, with every axis at least the
      padding delta wide. */
  lemma QuadBoxHoldsCorners(q: Vec3, u: Vec3, v: Vec3)
    ensures Contains(QuadBox(q, u, v), q) && Contains(QuadBox(q, u, v), Vectors.Add(Vectors.Add(q, u), v))
    ensures forall k :: 0 <= k < 3 ==> Le(PadDelta, Size(AxisAt(QuadBox(q, u, v), k)))
  {
    var corner := Vectors.Add(Vectors.Add(q, u), v);
    var inner := FromPoints(q, corner);
    FromPointsSymmetric(q, corner);
    PadEncloses(inner);
    EnclosedContains(Pad(inner), inner, q);
    EnclosedContains(Pad(inner), inner, corner);
  }

  /** `Quad::inside`: both plane coordinates lie in [0, 1]. */
  predicate Inside(alpha: real, beta: real)
  {
    !(alpha < 0.0 || alpha > 1.0 || beta < 0.0 || beta > 1.0)
  }

  /** The plane coordinates `Quad::hit` computes for a point with planar offset `pv` from Q. */
  function Alpha(qd: Hittable, pv: Vec3): real
    requires qd.Quad?
  {
    Dot(qd.w, Cross(pv, qd.v))
  }

  function Beta(qd: Hittable, pv: Vec3): real
    requires qd.Quad?
  {
    Dot(qd.w, Cross(qd.u, pv))
  }

  /** `Quad::hit`: reject rays (nearly) parallel to the plane, a plane crossing not strictly
      inside the interval, and crossings outside the unit square of (alpha, beta). */
  function QuadHit(qd: Hittable, r: Ray, iv: Interval): (res: Option<HitRecord>)
    requires qd.Quad?
    ensures Abs(Dot(qd.normal, r.dir)) < ParallelEpsilon ==> res.None?
    ensures res.Some? ==> Surround(iv, Finite(res.value.t))
    ensures res.Some? ==> res.value.p == At(r, res.value.t) && res.value.material == qd.material
    ensures res.Some? ==> res.value.uv.PlaneUV? && Inside(res.value.uv.u, res.value.uv.v)
    ensures res.Some? ==> res.value.uv == PlaneUV(Alpha(qd, Vectors.Sub(res.value.p, qd.q)), Beta(qd, Vectors.Sub(res.value.p, qd.q)))
    ensures res.Some? ==> Dot(res.value.normal, r.dir) <= 0.0
  {
    var denom := Dot(qd.normal, r.dir);
    if Abs(denom) < ParallelEpsilon then None
    else
      var t := (qd.d - Dot(qd.normal, r.pos)) / denom;
      if !Surround(iv, Finite(t)) then None
      else
        var p := At(r, t);
        var alpha := Alpha(qd, Vectors.Sub(p, qd.q));
        var beta := Beta(qd, Vectors.Sub(p, qd.q));
        if !Inside(alpha, beta) then None
        else Some(SetFaceNormal(HitRecord(p, t, PlaneUV(alpha, beta), qd.normal, qd.material, true), r, qd.normal))
  }

  // ---- dispatch, lists and BVH nodes ----

  /** `IHittable::hit` for every kind of object. A list returns the hit of its scan; a BVH
      node misses when its box does, and otherwise searches its right child only up to the
      left child's hit and prefers the right child's hit when there is one. */
  function Hit(h: Hittable, r: Ray, iv: Interval, sqrt: real -> real): (res: Option<HitRecord>)
    ensures res.Some? ==> Surround(iv, Finite(res.value.t))
    ensures res.Some? ==> Dot(res.value.normal, r.dir) <= 0.0
    decreases h, 1, 0
  {
    match h
    case Sphere(_, _, _, _, _, _) => SphereHit(h, r, iv, sqrt)
    case Quad(_, _, _, _, _, _, _, _) => QuadHit(h, r, iv)
    case List(_, _) => ScanFrom(h, 0, r, iv, iv.max, None, sqrt)
    case BVHNode(left, right, box) =>
      if !SlabHit(box, r, iv) then None
      else
        var l := Hit(left, r, iv, sqrt);
        var rr := Hit(right, r, Interval(iv.min, if l.Some? then Finite(l.value.t) else iv.max), sqrt);
        if rr.Some? then
          NarrowedSurround(iv, l, rr.value.t);
          rr
        else l
  }

  /** `HittableList::hit` from object k on: each object is asked for a hit strictly closer
      than the closest one so far; a hit replaces the record and lowers the bound. */
  function ScanFrom(h: Hittable, k: nat, r: Ray, iv: Interval, closest: Double, best: Option<HitRecord>, sqrt: real -> real): (res: Option<HitRecord>)
    requires h.List? && k <= |h.objects|
    requires best.None? ==> closest == iv.max
    requires best.Some? ==> closest == Finite(best.value.t) && Surround(iv, closest) && Dot(best.value.normal, r.dir) <= 0.0
    ensures res.Some? ==> Surround(iv, Finite(res.value.t)) && Dot(res.value.normal, r.dir) <= 0.0
    ensures best.Some? ==> res.Some? && res.value.t <= best.value.t
    decreases h, 0, |h.objects| - k
  {
    if k == |h.objects| then best
    else
      assert h.objects[k] in h.objects;
      match Hit(h.objects[k], r, Interval(iv.min, closest), sqrt)
      case Some(rec) =>
        NarrowedSurround(iv, best, rec.t);
        ScanFrom(h, k + 1, r, iv, Finite(rec.t), Some(rec), sqrt)
      case None => ScanFrom(h, k + 1, r, iv, closest, best, sqrt)
  }

  /** A point strictly inside (min, t), for the t of a hit strictly inside the interval, is
      strictly inside the interval and below t. */
  lemma NarrowedSurround(iv: Interval, best: Option<HitRecord>, x: real)
    ensures best.Some? && Surround(iv, Finite(best.value.t)) && Surround(Interval(iv.min, Finite(best.value.t)), Finite(x))
            ==> Surround(iv, Finite(x)) && x < best.value.t
  {
    if best.Some? && Surround(iv, Finite(best.value.t)) && Surround(Interval(iv.min, Finite(best.value.t)), Finite(x)) {
      LtTransitive(Finite(x), Finite(best.value.t), iv.max);
    }
  }

  // ---- geometry of accepted hits ----

  /** A square root that is exact and non-negative on non-negative reals. */
  ghost predicate ExactSqrt(sqrt: real -> real)
  {
    forall x :: 0.0 <= x ==> 0.0 <= sqrt(x) && Square(sqrt(x)) == x
  }

  /** a t^2 + 2 h t + c, the quadratic whose roots are the ray parameters on a sphere. */
  function Quadratic(a: real, h: real, c: real, t: real): real
  {
    a * t * t + 2.0 * h * t + c
  }

  /** Both roots (-h -/+ sq) / a of a t^2 + 2 h t + c solve it when sq^2 is the discriminant. */
  lemma QuadraticRoot(a: real, h: real, c: real, sq: real, t: real)
    requires a != 0.0 && Square(sq) == Square(h) - Product(a, c)
    requires t == NearRoot(a, h, sq) || t == FarRoot(a, h, sq)
    ensures Quadratic(a, h, c, t) == 0.0
  {
    var e := a * t;
    assert e == -h - sq || e == -h + sq;
    assert e * e + 2.0 * h * e + a * c == 0.0;
    assert a * (a * t * t + 2.0 * h * t + c) == e * e + 2.0 * h * e + a * c;
  }

  /** Every solution of a t^2 + 2 h t + c = 0 is one of the two roots. */
  lemma OnlyRoots(a: real, h: real, c: real, sq: real, t: real)
    requires a != 0.0 && 0.0 <= sq && Square(sq) == Square(h) - Product(a, c)
    requires Quadratic(a, h, c, t) == 0.0
    ensures t == NearRoot(a, h, sq) || t == FarRoot(a, h, sq)
  {
    var x := a * t + h;
    assert x * x == a * (a * t * t + 2.0 * h * t + c) + h * h - a * c;
    assert Product(x - sq, x + sq) == 0.0;
    ZeroProduct(x - sq, x + sq);
    if x == sq {
      assert t * a == -h + sq;
    } else {
      assert x == -sq;
      assert t * a == -h - sq;
    }
  }

  /** The distance from the centre along a ray, expanded in t. */
  lemma OffsetAlongRay(o: Vec3, d: Vec3, t: real)
    ensures LengthSq(Vectors.Add(o, Scale(d, t))) == LengthSq(o) + 2.0 * t * Dot(o, d) + t * t * LengthSq(d)
  {
  }

  lemma LengthSqPositive(d: Vec3)
    requires d != Zero
    ensures LengthSq(d) > 0.0
  {
    assert LengthSq(d) == Square(d.x) + Square(d.y) + Square(d.z);
    SquareNonNegative(d.x);
    SquareNonNegative(d.y);
    SquareNonNegative(d.z);
    if d.x != 0.0 {
      SquarePositive(d.x);
    } else if d.y != 0.0 {
      SquarePositive(d.y);
    } else {
      SquarePositive(d.z);
    }
  }

  /** Squares and products are named so that facts about them reach the solver as stated
      (it rewrites a literal `x * x > 0` into `x != 0`). */
  function Square(x: real): real { x * x }

  function Product(a: real, b: real): real { a * b }

  lemma SquareNonNegative(x: real)
    ensures Square(x) >= 0.0
  {
    if x >= 0.0 { MulNonNegative(x, x); } else { MulNonNegative(-x, -x); }
  }

  lemma SquarePositive(x: real)
    requires x != 0.0
    ensures Square(x) > 0.0
  {
    if x < 0.0 {
      ProductPositive(-x, -x);
      assert Square(x) == Product(-x, -x);
    } else {
      ProductPositive(x, x);
      assert Square(x) == Product(x, x);
    }
  }

  lemma ZeroProduct(a: real, b: real)
    requires Product(a, b) == 0.0
    ensures a == 0.0 || b == 0.0
  {
    if a != 0.0 {
      assert b == Product(a, b) / a;
    }
  }

  lemma ProductPositive(a: real, b: real)
    requires a > 0.0 && b > 0.0
    ensures Product(a, b) > 0.0
  {
  }

  /** A point of the ray at parameter t is on the sphere exactly when t solves the quadratic. */
  lemma OnSphereIffRoot(s: Hittable, r: Ray, t: real)
    requires s.Sphere?
    ensures LengthSq(Vectors.Sub(At(r, t), GetPosition(s, r.time))) == s.radius * s.radius
        <==> Quadratic(QuadA(r), QuadH(s, r), QuadC(s, r), t) == 0.0
  {
    var oc := CentreOffset(s, r);
    assert Vectors.Sub(At(r, t), GetPosition(s, r.time)) == Vectors.Add(oc, Scale(r.dir, t));
    OffsetAlongRay(oc, r.dir, t);
  }

  /** What an accepted sphere root is: one of the two roots of the quadratic, which then has
      a non-negative discriminant and a non-zero leading coefficient. */
  lemma SphereRootFacts(s: Hittable, r: Ray, iv: Interval, sqrt: real -> real)
    requires s.Sphere?
    ensures var root := SphereRoot(s, r, iv, sqrt);
            var a, h, disc := QuadA(r), QuadH(s, r), Discriminant(s, r);
            root.Some? ==> disc >= 0.0 && a != 0.0 && Surround(iv, Finite(root.value))
                           && (root.value == NearRoot(a, h, sqrt(disc)) || root.value == FarRoot(a, h, sqrt(disc)))
    ensures SphereHit(s, r, iv, sqrt).Some? <==> SphereRoot(s, r, iv, sqrt).Some?
    ensures SphereHit(s, r, iv, sqrt).Some? ==> SphereHit(s, r, iv, sqrt).value.t == SphereRoot(s, r, iv, sqrt).value
  {
  }

  /** With an exact square root, an accepted root solves the quadratic. */
  lemma SphereRootSolves(s: Hittable, r: Ray, iv: Interval, sqrt: real -> real)
    requires s.Sphere? && ExactSqrt(sqrt)
    ensures var root := SphereRoot(s, r, iv, sqrt);
            root.Some? ==> Quadratic(QuadA(r), QuadH(s, r), QuadC(s, r), root.value) == 0.0
  {
    var root := SphereRoot(s, r, iv, sqrt);
    SphereRootFacts(s, r, iv, sqrt);
    if root.Some? {
      var a, h, c := QuadA(r), QuadH(s, r), QuadC(s, r);
      var disc := Discriminant(s, r);
      var sq := sqrt(disc);
      assert Square(sq) == disc;
      QuadraticRoot(a, h, c, sq, root.value);
    }
  }

  /** With an exact square root, the point `Sphere::hit` reports lies on the sphere. */
  lemma SphereHitOnSurface(s: Hittable, r: Ray, iv: Interval, sqrt: real -> real)
    requires s.Sphere? && ExactSqrt(sqrt)
    ensures var res := SphereHit(s, r, iv, sqrt);
            res.Some? ==> LengthSq(Vectors.Sub(res.value.p, GetPosition(s, r.time))) == s.radius * s.radius
  {
    var res := SphereHit(s, r, iv, sqrt);
    SphereRootFacts(s, r, iv, sqrt);
    SphereRootSolves(s, r, iv, sqrt);
    if res.Some? {
      OnSphereIffRoot(s, r, res.value.t);
    }
  }

  /** A parameter at which the ray meets the sphere makes the discriminant a square. */
  lemma ContactDiscriminant(a: real, h: real, c: real, t: real)
    requires Quadratic(a, h, c, t) == 0.0
    ensures Square(h) - Product(a, c) == Square(a * t + h)
  {
    var x := a * t + h;
    assert x * x == a * (a * t * t + 2.0 * h * t + c) + h * h - a * c;
  }

  /** With an exact square root and a non-zero direction, `Sphere::hit` succeeds exactly when
      the ray meets the sphere at a parameter strictly inside the interval, and it then
      reports the nearest such parameter. */
  lemma SphereHitNearest(s: Hittable, r: Ray, iv: Interval, sqrt: real -> real, t: real)
    requires s.Sphere? && ExactSqrt(sqrt) && r.dir != Zero
    requires Surround(iv, Finite(t)) && LengthSq(Vectors.Sub(At(r, t), GetPosition(s, r.time))) == s.radius * s.radius
    ensures SphereHit(s, r, iv, sqrt).Some? && SphereHit(s, r, iv, sqrt).value.t <= t
  {
    var a, h, c := QuadA(r), QuadH(s, r), QuadC(s, r);
    LengthSqPositive(r.dir);
    OnSphereIffRoot(s, r, t);
    ContactDiscriminant(a, h, c, t);
    SquareNonNegative(a * t + h);
    var disc := Discriminant(s, r);
    var sq := sqrt(disc);
    OnlyRoots(a, h, c, sq, t);
    RootsOrdered(a, h, sq);
    assert SphereRoot(s, r, iv, sqrt) == ChooseRoot(iv, NearRoot(a, h, sq), FarRoot(a, h, sq));
    SphereRootFacts(s, r, iv, sqrt);
  }

  lemma RootsOrdered(a: real, h: real, sq: real)
    requires a > 0.0 && sq >= 0.0
    ensures NearRoot(a, h, sq) <= FarRoot(a, h, sq)
  {
    var n, f := NearRoot(a, h, sq), FarRoot(a, h, sq);
    assert n * a == -h - sq && f * a == -h + sq;
    assert Product(n - f, a) == -2.0 * sq;
    if f < n {
      ProductPositive(n - f, a);
    }
  }

  /** With an exact square root and a non-zero direction, a sphere hit is reported whenever
      the ray meets the sphere strictly inside the interval. */
  lemma SphereMissMeansNoContact(s: Hittable, r: Ray, iv: Interval, sqrt: real -> real)
    requires s.Sphere? && ExactSqrt(sqrt) && r.dir != Zero
    ensures SphereHit(s, r, iv, sqrt).None? ==>
      forall t :: Surround(iv, Finite(t)) ==> LengthSq(Vectors.Sub(At(r, t), GetPosition(s, r.time))) != s.radius * s.radius
  {
    if SphereHit(s, r, iv, sqrt).None? {
      forall t | Surround(iv, Finite(t))
        ensures LengthSq(Vectors.Sub(At(r, t), GetPosition(s, r.time))) != s.radius * s.radius
      {
        if LengthSq(Vectors.Sub(At(r, t), GetPosition(s, r.time))) == s.radius * s.radius {
          SphereHitNearest(s, r, iv, sqrt, t);
        }
      }
    }
  }

  /** The point `Quad::hit` reports lies on the quad's plane normal . p = D. */
  lemma QuadHitOnPlane(qd: Hittable, r: Ray, iv: Interval)
    requires qd.Quad?
    ensures QuadHit(qd, r, iv).Some? ==> Dot(qd.normal, QuadHit(qd, r, iv).value.p) == qd.d
  {
    var res := QuadHit(qd, r, iv);
    if res.Some? {
      QuadHitTime(qd, r, iv);
      PlaneAtQuotient(qd.normal, r, qd.d, res.value.t);
    }
  }

  /** The parameter `Quad::hit` reports is (D - n . P) / (n . d), for a ray that is not
      (nearly) parallel to the plane. */
  lemma QuadHitTime(qd: Hittable, r: Ray, iv: Interval)
    requires qd.Quad? && QuadHit(qd, r, iv).Some?
    ensures Dot(qd.normal, r.dir) != 0.0
    ensures QuadHit(qd, r, iv).value.t == (qd.d - Dot(qd.normal, r.pos)) / Dot(qd.normal, r.dir)
    ensures QuadHit(qd, r, iv).value.p == At(r, QuadHit(qd, r, iv).value.t)
  {
  }

  /** The point at t = (D - n . P) / (n . d) lies on the plane n . p = D. */
  lemma PlaneAtQuotient(n: Vec3, r: Ray, d: real, t: real)
    requires Dot(n, r.dir) != 0.0 && t == (d - Dot(n, r.pos)) / Dot(n, r.dir)
    ensures Dot(n, At(r, t)) == d
  {
    QuotientTimes(d - Dot(n, r.pos), Dot(n, r.dir));
    DotAlongRay(n, r, t);
  }

  /** Conversely, a plane crossing at t strictly inside the interval whose plane coordinates
      lie in the unit square is reported, at t, unless the ray is (nearly) parallel. */
  lemma QuadHitAccepts(qd: Hittable, r: Ray, iv: Interval, t: real)
    requires qd.Quad? && !(Abs(Dot(qd.normal, r.dir)) < ParallelEpsilon)
    requires t * Dot(qd.normal, r.dir) == qd.d - Dot(qd.normal, r.pos) && Surround(iv, Finite(t))
    requires Inside(Alpha(qd, Vectors.Sub(At(r, t), qd.q)), Beta(qd, Vectors.Sub(At(r, t), qd.q)))
    ensures QuadHit(qd, r, iv).Some? && QuadHit(qd, r, iv).value.t == t
  {
    Quotient(qd.d - Dot(qd.normal, r.pos), Dot(qd.normal, r.dir), t);
  }

  /** With w = n / (n . n) for n = u x v, the plane coordinates of Q + a u + b v are (a, b). */
  lemma QuadCoordinatesExact(q: Vec3, u: Vec3, v: Vec3, normal: Vec3, mat: Material, a: real, b: real)
    requires Cross(u, v) != Zero
    ensures var qd := MakeQuad(q, u, v, normal, mat);
            var pv := Vectors.Add(Scale(u, a), Scale(v, b));
            Alpha(qd, pv) == a && Beta(qd, pv) == b
  {
    var qd := MakeQuad(q, u, v, normal, mat);
    var n := Cross(u, v);
    var pv := Vectors.Add(Scale(u, a), Scale(v, b));
    CrossLinear(u, v, a, b);
    CoordinateOfMultiple(n, qd.w, Cross(pv, v), a);
    CoordinateOfMultiple(n, qd.w, Cross(u, pv), b);
  }

  /** w = n / (n . n) reads a off a n. */
  lemma CoordinateOfMultiple(n: Vec3, w: Vec3, p: Vec3, a: real)
    requires n != Zero && w == CoordinateVector(n) && p == Scale(n, a)
    ensures Dot(w, p) == a
  {
    var nn := Dot(n, n);
    LengthSqPositive(n);
    assert w == Scale(n, 1.0 / nn);
    ScaledDot(n, 1.0 / nn, a);
  }

  lemma ScaledDot(n: Vec3, k: real, a: real)
    ensures Dot(Scale(n, k), Scale(n, a)) == k * a * Dot(n, n)
  {
  }

  /** Reading off a quotient from a product. */
  lemma Quotient(x: real, y: real, z: real)
    requires y != 0.0 && x == z * y
    ensures x / y == z
  {
  }

  lemma QuotientTimes(x: real, y: real)
    requires y != 0.0
    ensures x / y * y == x
  {
  }

  /** The square [0,2] x [0,2] in the plane z = 0, seen from above along -z. */
  function CentreRay(): Ray { Ray(Vec3(1.0, 1.0, 1.0), Vec3(0.0, 0.0, -1.0), 0.0) }

  /** The constructor as written scales the plane coordinates of the centre of a 2 x 2 quad
      to 2 instead of 1/2, so `Quad::hit` rejects a ray through the middle of the square. */
  lemma QuadCentreMissedAsWritten(u: Vec3, v: Vec3, n: Vec3)
    requires u == Vec3(2.0, 0.0, 0.0) && v == Vec3(0.0, 2.0, 0.0) && n == Vec3(0.0, 0.0, 1.0)
    ensures QuadHit(MakeQuadAsWritten(Zero, u, v, n, 0), CentreRay(), Universe).None?
  {
    WrittenCentreQuad(u, v, n);
    CentreMissedWith(MakeQuadAsWritten(Zero, u, v, n, 0));
  }

  lemma WrittenCentreQuad(u: Vec3, v: Vec3, n: Vec3)
    requires u == Vec3(2.0, 0.0, 0.0) && v == Vec3(0.0, 2.0, 0.0) && n == Vec3(0.0, 0.0, 1.0)
    ensures var qd := MakeQuadAsWritten(Zero, u, v, n, 0);
            qd.q == Zero && qd.u == u && qd.v == v && qd.normal == n && qd.d == 0.0 && qd.w == n
  {
    UnitCoordinateVector(n);
  }

  lemma UnitCoordinateVector(n: Vec3)
    requires n == Vec3(0.0, 0.0, 1.0)
    ensures CoordinateVector(n) == n && Dot(n, Zero) == 0.0
  {
    UnitCoordinateVectorLiteral();
  }

  lemma UnitCoordinateVectorLiteral()
    ensures CoordinateVector(Vec3(0.0, 0.0, 1.0)) == Vec3(0.0, 0.0, 1.0) && Dot(Vec3(0.0, 0.0, 1.0), Zero) == 0.0
  {
  }

  /** The miss, for any quad with the fields the constructor as written stores. */
  lemma CentreMissedWith(qd: Hittable)
    requires qd.Quad? && qd.q == Zero && qd.u == Vec3(2.0, 0.0, 0.0) && qd.v == Vec3(0.0, 2.0, 0.0)
    requires qd.normal == Vec3(0.0, 0.0, 1.0) && qd.d == 0.0 && qd.w == Vec3(0.0, 0.0, 1.0)
    ensures QuadHit(qd, CentreRay(), Universe).None?
  {
    var r := CentreRay();
    var res := QuadHit(qd, r, Universe);
    if res.Some? {
      assert false;
    }
  }

  // ---- the box of a quad ----

  /** The identity behind the plane coordinates, for the first coordinate: for n = u x v
      and a vector x in the plane (n . x = 0), (n . n) x = a u + b v with a = n . (x x v)
      and b = n . (u x x). The other coordinates are this one with the axes rotated. */
  lemma PlaneIdentity(u1: real, u2: real, u3: real, v1: real, v2: real, v3: real,
                      x1: real, x2: real, x3: real, n1: real, n2: real, n3: real)
    requires n1 == u2 * v3 - u3 * v2 && n2 == u3 * v1 - u1 * v3 && n3 == u1 * v2 - u2 * v1
    requires n1 * x1 + n2 * x2 + n3 * x3 == 0.0
    ensures (n1 * n1 + n2 * n2 + n3 * n3) * x1 ==
            (n1 * (x2 * v3 - x3 * v2) + n2 * (x3 * v1 - x1 * v3) + n3 * (x1 * v2 - x2 * v1)) * u1 +
            (n1 * (u2 * x3 - u3 * x2) + n2 * (u3 * x1 - u1 * x3) + n3 * (u1 * x2 - u2 * x1)) * v1
  {
  }

  /** The same identity divided by n . n, written as k (n . n) = 1. */
  lemma PlaneIdentityScaled(u1: real, u2: real, u3: real, v1: real, v2: real, v3: real,
                            x1: real, x2: real, x3: real, n1: real, n2: real, n3: real, k: real)
    requires n1 == u2 * v3 - u3 * v2 && n2 == u3 * v1 - u1 * v3 && n3 == u1 * v2 - u2 * v1
    requires n1 * x1 + n2 * x2 + n3 * x3 == 0.0
    requires k * (n1 * n1 + n2 * n2 + n3 * n3) == 1.0
    ensures x1 == u1 * ((n1 * k) * (x2 * v3 - x3 * v2) + (n2 * k) * (x3 * v1 - x1 * v3) + (n3 * k) * (x1 * v2 - x2 * v1))
                  + v1 * ((n1 * k) * (u2 * x3 - u3 * x2) + (n2 * k) * (u3 * x1 - u1 * x3) + (n3 * k) * (u1 * x2 - u2 * x1))
  {
    PlaneIdentity(u1, u2, u3, v1, v2, v3, x1, x2, x3, n1, n2, n3);
  }

  lemma InverseNorm(k: real, nn: real, n1: real, n2: real, n3: real)
    requires nn == n1 * n1 + n2 * n2 + n3 * n3 && k * nn == 1.0
    ensures k * (n1 * n1 + n2 * n2 + n3 * n3) == 1.0
  {
  }

  lemma ScaledSum(w1: real, w2: real, w3: real, c1: real, c2: real, c3: real, n1: real, n2: real, n3: real,
                  k: real, e1: real, e2: real, e3: real, a: real)
    requires w1 == n1 * k && w2 == n2 * k && w3 == n3 * k && c1 == e1 && c2 == e2 && c3 == e3
    requires a == w1 * c1 + w2 * c2 + w3 * c3
    ensures a == (n1 * k) * e1 + (n2 * k) * e2 + (n3 * k) * e3
  {
  }

  lemma RenameCoefficients(x1: real, u1: real, v1: real, a: real, b: real, a': real, b': real)
    requires x1 == u1 * a' + v1 * b' && a == a' && b == b'
    ensures x1 == u1 * a + v1 * b
  {
  }

  /** The first coordinate of x = alpha u + beta v, with every vector quantity named: w = k n,
      c = x x v, d = u x x, alpha = w . c and beta = w . d. */
  lemma PlaneDecompositionAxis(u1: real, u2: real, u3: real, v1: real, v2: real, v3: real,
                               x1: real, x2: real, x3: real, n1: real, n2: real, n3: real,
                               nn: real, k: real, w1: real, w2: real, w3: real,
                               c1: real, c2: real, c3: real, d1: real, d2: real, d3: real,
                               alpha: real, beta: real)
    requires CrossIs(n1, n2, n3, u1, u2, u3, v1, v2, v3)
    requires DotIs(n1, n2, n3, x1, x2, x3, 0.0)
    requires DotIs(n1, n2, n3, n1, n2, n3, nn) && k * nn == 1.0
    requires w1 == n1 * k && w2 == n2 * k && w3 == n3 * k
    requires CrossIs(c1, c2, c3, x1, x2, x3, v1, v2, v3)
    requires CrossIs(d1, d2, d3, u1, u2, u3, x1, x2, x3)
    requires DotIs(w1, w2, w3, c1, c2, c3, alpha) && DotIs(w1, w2, w3, d1, d2, d3, beta)
    ensures x1 == u1 * alpha + v1 * beta
  {
    InverseNorm(k, nn, n1, n2, n3);
    PlaneIdentityScaled(u1, u2, u3, v1, v2, v3, x1, x2, x3, n1, n2, n3, k);
    ScaledSum(w1, w2, w3, c1, c2, c3, n1, n2, n3, k, x2 * v3 - x3 * v2, x3 * v1 - x1 * v3, x1 * v2 - x2 * v1, alpha);
    ScaledSum(w1, w2, w3, d1, d2, d3, n1, n2, n3, k, u2 * x3 - u3 * x2, u3 * x1 - u1 * x3, u1 * x2 - u2 * x1, beta);
    RenameCoefficients(x1, u1, v1, alpha, beta,
      (n1 * k) * (x2 * v3 - x3 * v2) + (n2 * k) * (x3 * v1 - x1 * v3) + (n3 * k) * (x1 * v2 - x2 * v1),
      (n1 * k) * (u2 * x3 - u3 * x2) + (n2 * k) * (u3 * x1 - u1 * x3) + (n3 * k) * (u1 * x2 - u2 * x1));
  }

  lemma Recombine(x: Vec3, u: Vec3, v: Vec3, alpha: real, beta: real)
    requires x.x == u.x * alpha + v.x * beta && x.y == u.y * alpha + v.y * beta && x.z == u.z * alpha + v.z * beta
    ensures x == Vectors.Add(Scale(u, alpha), Scale(v, beta))
  {
  }

  /** n = a x b, written out coordinate by coordinate. */
  ghost predicate CrossIs(n1: real, n2: real, n3: real, a1: real, a2: real, a3: real, b1: real, b2: real, b3: real)
  {
    n1 == a2 * b3 - a3 * b2 && n2 == a3 * b1 - a1 * b3 && n3 == a1 * b2 - a2 * b1
  }

  /** r = a . b, written out coordinate by coordinate. */
  ghost predicate DotIs(a1: real, a2: real, a3: real, b1: real, b2: real, b3: real, r: real)
  {
    r == a1 * b1 + a2 * b2 + a3 * b3
  }

  /** A cross product in coordinates, in the three rotations of the axes. */
  lemma CrossCoordinates(n: Vec3, a: Vec3, b: Vec3)
    requires n == Cross(a, b)
    ensures CrossIs(n.x, n.y, n.z, a.x, a.y, a.z, b.x, b.y, b.z)
    ensures CrossIs(n.y, n.z, n.x, a.y, a.z, a.x, b.y, b.z, b.x)
    ensures CrossIs(n.z, n.x, n.y, a.z, a.x, a.y, b.z, b.x, b.y)
  {
  }

  /** A dot product in coordinates, in the three rotations of the axes. */
  lemma DotCoordinates(a: Vec3, b: Vec3, r: real)
    requires r == Dot(a, b)
    ensures DotIs(a.x, a.y, a.z, b.x, b.y, b.z, r)
    ensures DotIs(a.y, a.z, a.x, b.y, b.z, b.x, r)
    ensures DotIs(a.z, a.x, a.y, b.z, b.x, b.y, r)
  {
  }

  /** One coordinate of the decomposition below, with the axes rotated so that it is the
      first coordinate of PlaneDecompositionAxis. */
  lemma PlaneDecompositionX(u: Vec3, v: Vec3, x: Vec3, n: Vec3, nn: real, k: real, w: Vec3, c: Vec3, d: Vec3,
                              alpha: real, beta: real)
    requires n == Cross(u, v) && Dot(n, x) == 0.0 && nn == Dot(n, n) && k * nn == 1.0
    requires w == Scale(n, k) && c == Cross(x, v) && d == Cross(u, x)
    requires alpha == Dot(w, c) && beta == Dot(w, d)
    ensures x.x == u.x * alpha + v.x * beta
  {
    CoordinatesOfDecomposition(u, v, x, n, nn, k, w, c, d, alpha, beta);
    PlaneDecompositionAxis(u.x, u.y, u.z, v.x, v.y, v.z, x.x, x.y, x.z, n.x, n.y, n.z, nn, k,
                           w.x, w.y, w.z, c.x, c.y, c.z, d.x, d.y, d.z, alpha, beta);
  }

  lemma PlaneDecompositionY(u: Vec3, v: Vec3, x: Vec3, n: Vec3, nn: real, k: real, w: Vec3, c: Vec3, d: Vec3,
                              alpha: real, beta: real)
    requires n == Cross(u, v) && Dot(n, x) == 0.0 && nn == Dot(n, n) && k * nn == 1.0
    requires w == Scale(n, k) && c == Cross(x, v) && d == Cross(u, x)
    requires alpha == Dot(w, c) && beta == Dot(w, d)
    ensures x.y == u.y * alpha + v.y * beta
  {
    CoordinatesOfDecomposition(u, v, x, n, nn, k, w, c, d, alpha, beta);
    PlaneDecompositionAxis(u.y, u.z, u.x, v.y, v.z, v.x, x.y, x.z, x.x, n.y, n.z, n.x, nn, k,
                           w.y, w.z, w.x, c.y, c.z, c.x, d.y, d.z, d.x, alpha, beta);
  }

  lemma PlaneDecompositionZ(u: Vec3, v: Vec3, x: Vec3, n: Vec3, nn: real, k: real, w: Vec3, c: Vec3, d: Vec3,
                              alpha: real, beta: real)
    requires n == Cross(u, v) && Dot(n, x) == 0.0 && nn == Dot(n, n) && k * nn == 1.0
    requires w == Scale(n, k) && c == Cross(x, v) && d == Cross(u, x)
    requires alpha == Dot(w, c) && beta == Dot(w, d)
    ensures x.z == u.z * alpha + v.z * beta
  {
    CoordinatesOfDecomposition(u, v, x, n, nn, k, w, c, d, alpha, beta);
    PlaneDecompositionAxis(u.z, u.x, u.y, v.z, v.x, v.y, x.z, x.x, x.y, n.z, n.x, n.y, nn, k,
                           w.z, w.x, w.y, c.z, c.x, c.y, d.z, d.x, d.y, alpha, beta);
  }

  /** The vector facts of the decomposition, in coordinates and all three rotations. */
  lemma CoordinatesOfDecomposition(u: Vec3, v: Vec3, x: Vec3, n: Vec3, nn: real, k: real, w: Vec3, c: Vec3, d: Vec3,
                                   alpha: real, beta: real)
    requires n == Cross(u, v) && Dot(n, x) == 0.0 && nn == Dot(n, n)
    requires c == Cross(x, v) && d == Cross(u, x)
    requires alpha == Dot(w, c) && beta == Dot(w, d)
    ensures CrossIs(n.x, n.y, n.z, u.x, u.y, u.z, v.x, v.y, v.z)
    ensures CrossIs(n.y, n.z, n.x, u.y, u.z, u.x, v.y, v.z, v.x)
    ensures CrossIs(n.z, n.x, n.y, u.z, u.x, u.y, v.z, v.x, v.y)
    ensures CrossIs(c.x, c.y, c.z, x.x, x.y, x.z, v.x, v.y, v.z)
    ensures CrossIs(c.y, c.z, c.x, x.y, x.z, x.x, v.y, v.z, v.x)
    ensures CrossIs(c.z, c.x, c.y, x.z, x.x, x.y, v.z, v.x, v.y)
    ensures CrossIs(d.x, d.y, d.z, u.x, u.y, u.z, x.x, x.y, x.z)
    ensures CrossIs(d.y, d.z, d.x, u.y, u.z, u.x, x.y, x.z, x.x)
    ensures CrossIs(d.z, d.x, d.y, u.z, u.x, u.y, x.z, x.x, x.y)
    ensures DotIs(n.x, n.y, n.z, x.x, x.y, x.z, 0.0)
    ensures DotIs(n.y, n.z, n.x, x.y, x.z, x.x, 0.0)
    ensures DotIs(n.z, n.x, n.y, x.z, x.x, x.y, 0.0)
    ensures DotIs(n.x, n.y, n.z, n.x, n.y, n.z, nn)
    ensures DotIs(n.y, n.z, n.x, n.y, n.z, n.x, nn)
    ensures DotIs(n.z, n.x, n.y, n.z, n.x, n.y, nn)
    ensures DotIs(w.x, w.y, w.z, c.x, c.y, c.z, alpha)
    ensures DotIs(w.y, w.z, w.x, c.y, c.z, c.x, alpha)
    ensures DotIs(w.z, w.x, w.y, c.z, c.x, c.y, alpha)
    ensures DotIs(w.x, w.y, w.z, d.x, d.y, d.z, beta)
    ensures DotIs(w.y, w.z, w.x, d.y, d.z, d.x, beta)
    ensures DotIs(w.z, w.x, w.y, d.z, d.x, d.y, beta)
  {
    CrossCoordinates(n, u, v);
    CrossCoordinates(c, x, v);
    CrossCoordinates(d, u, x);
    DotCoordinates(n, x, 0.0);
    DotCoordinates(n, n, nn);
    DotCoordinates(w, c, alpha);
    DotCoordinates(w, d, beta);
  }

  /** A vector x in the plane spanned by u and v is alpha u + beta v, where, for w = k (u x v)
      with k (u x v) . (u x v) = 1, alpha = w . (x x v) and beta = w . (u x x). */
  lemma PlaneDecomposition(u: Vec3, v: Vec3, x: Vec3, k: real)
    requires Dot(Cross(u, v), x) == 0.0 && k * Dot(Cross(u, v), Cross(u, v)) == 1.0
    ensures var w := Scale(Cross(u, v), k);
            x == Vectors.Add(Scale(u, Dot(w, Cross(x, v))), Scale(v, Dot(w, Cross(u, x))))
  {
    var n := Cross(u, v);
    var w := Scale(n, k);
    var alpha, beta := Dot(w, Cross(x, v)), Dot(w, Cross(u, x));
    PlaneDecompositionX(u, v, x, n, Dot(n, n), k, w, Cross(x, v), Cross(u, x), alpha, beta);
    PlaneDecompositionY(u, v, x, n, Dot(n, n), k, w, Cross(x, v), Cross(u, x), alpha, beta);
    PlaneDecompositionZ(u, v, x, n, Dot(n, n), k, w, Cross(x, v), Cross(u, x), alpha, beta);
    Recombine(x, u, v, alpha, beta);
  }

  lemma DotScaleLeft(a: Vec3, k: real, b: Vec3)
    ensures Dot(Scale(a, k), b) == k * Dot(a, b)
  {
  }

  /** The converse of QuadCoordinatesExact: with w = n / (n . n), a vector x in the plane of
      the quad is alpha u + beta v for the plane coordinates alpha, beta `Quad::hit` computes. */
  lemma PlaneCoordinatesRecover(q: Vec3, u: Vec3, v: Vec3, normal: Vec3, mat: Material, x: Vec3)
    requires Cross(u, v) != Zero && Dot(Cross(u, v), x) == 0.0
    ensures var qd := MakeQuad(q, u, v, normal, mat);
            x == Vectors.Add(Scale(u, Alpha(qd, x)), Scale(v, Beta(qd, x)))
  {
    var qd := MakeQuad(q, u, v, normal, mat);
    DecompositionByCoordinateVector(u, v, x, qd.w);
  }

  /** PlaneDecomposition with k = 1 / (n . n), so that w is the coordinate vector of n. */
  lemma DecompositionByCoordinateVector(u: Vec3, v: Vec3, x: Vec3, w: Vec3)
    requires Cross(u, v) != Zero && Dot(Cross(u, v), x) == 0.0 && w == CoordinateVector(Cross(u, v))
    ensures x == Vectors.Add(Scale(u, Dot(w, Cross(x, v))), Scale(v, Dot(w, Cross(u, x))))
  {
    var n := Cross(u, v);
    var nn := Dot(n, n);
    LengthSqPositive(n);
    var k := 1.0 / nn;
    assert k * nn == 1.0;
    assert w == Scale(n, k);
    PlaneDecomposition(u, v, x, k);
  }

  /** a s for a in [0, 1] lies between 0 and s. */
  lemma ScaledBetween(a: real, s: real)
    requires 0.0 <= a <= 1.0
    ensures MinOf(0.0, s) <= a * s <= MaxOf(0.0, s)
  {
    if s >= 0.0 {
      MulNonNegative(a, s);
      MulNonNegative(1.0 - a, s);
    } else {
      MulNonNegative(a, -s);
      MulNonNegative(1.0 - a, -s);
    }
  }

  /** c + a s + b t for a, b in [0, 1] lies between the least and the greatest of c, c + s,
      c + t and c + s + t: one coordinate of a point of the parallelogram. */
  lemma ParallelogramAxis(c: real, s: real, t: real, a: real, b: real)
    requires 0.0 <= a <= 1.0 && 0.0 <= b <= 1.0
    ensures MinOf(MinOf(c, c + s + t), MinOf(c + s, c + t)) <= c + a * s + b * t
    ensures c + a * s + b * t <= MaxOf(MaxOf(c, c + s + t), MaxOf(c + s, c + t))
  {
    ScaledBetween(a, s);
    ScaledBetween(b, t);
  }

  /** The union of the two corner boxes along one axis, as reals. */
  lemma HullAxis(c0: real, c3: real, c1: real, c2: real, x: real)
    requires MinOf(MinOf(c0, c3), MinOf(c1, c2)) <= x <= MaxOf(MaxOf(c0, c3), MaxOf(c1, c2))
    ensures var iv := Intervals.Union(Interval(Finite(MinOf(c0, c3)), Finite(MaxOf(c0, c3))),
                                      Interval(Finite(MinOf(c1, c2)), Finite(MaxOf(c1, c2))));
            iv == Interval(Finite(MinOf(MinOf(c0, c3), MinOf(c1, c2))), Finite(MaxOf(MaxOf(c0, c3), MaxOf(c1, c2))))
            && Within(iv, Finite(x))
  {
  }

  /** One axis of the four corners' box, as reals: the union of the interval over c and
      c + s + t with the interval over c + s and c + t. */
  function CornerInterval(c: real, s: real, t: real): Interval
  {
    Intervals.Union(Interval(Finite(MinOf(c, c + s + t)), Finite(MaxOf(c, c + s + t))),
                    Interval(Finite(MinOf(c + s, c + t)), Finite(MaxOf(c + s, c + t))))
  }

  /** One axis of the four corners' box, as reals: corners c, c + s + t, c + s and c + t, and
      the point x = c + s a + t b. */
  lemma CornerAxis(c: real, s: real, t: real, a: real, b: real, x: real, iv: Interval)
    requires 0.0 <= a <= 1.0 && 0.0 <= b <= 1.0 && x == c + (s * a + t * b)
    requires iv == CornerInterval(c, s, t)
    ensures Within(iv, Finite(x)) && iv.min.Finite? && iv.max.Finite? && iv.min.v <= iv.max.v
  {
    ParallelogramAxis(c, s, t, a, b);
    HullAxis(c, c + s + t, c + s, c + t, x);
  }

  /** Axis k of the four corners' box, in terms of the coordinates of Q, u and v. */
  lemma CornerBoxAxis(q: Vec3, u: Vec3, v: Vec3, k: nat)
    requires k < 3
    ensures AxisAt(CornerBox(q, u, v), k) ==
            CornerInterval(Component(q, k), Component(u, k), Component(v, k))
  {
    ComponentLinear(q, u, 0.0, k);
    ComponentLinear(q, v, 0.0, k);
    ComponentLinear(Vectors.Add(q, u), v, 0.0, k);
  }

  /** Coordinate k of Q + a u + b v. */
  lemma ParallelogramPointAxis(q: Vec3, u: Vec3, v: Vec3, a: real, b: real, k: nat)
    requires k < 3
    ensures Component(Vectors.Add(q, Vectors.Add(Scale(u, a), Scale(v, b))), k)
            == Component(q, k) + (Component(u, k) * a + Component(v, k) * b)
  {
    ComponentLinear(q, Vectors.Add(Scale(u, a), Scale(v, b)), 0.0, k);
    ComponentLinear(Scale(u, a), Scale(v, b), 0.0, k);
    ComponentLinear(u, u, a, k);
    ComponentLinear(v, v, b, k);
  }

  /** The four corners' box, before padding, is finite and ordered along axis k. */
  lemma CornerBoxFinite(q: Vec3, u: Vec3, v: Vec3, k: nat)
    requires k < 3
    ensures var iv := AxisAt(CornerBox(q, u, v), k); iv.min.Finite? && iv.max.Finite? && iv.min.v <= iv.max.v
  {
    CornerBoxAxis(q, u, v, k);
    CornerAxis(Component(q, k), Component(u, k), Component(v, k), 0.0, 0.0, Component(q, k),
               AxisAt(CornerBox(q, u, v), k));
  }

  /** The four corners' box, before padding, holds coordinate k of Q + a u + b v, where c, s and t
      are coordinate k of Q, u and v. */
  lemma ParallelogramInCorners(q: Vec3, u: Vec3, v: Vec3, a: real, b: real, k: nat, c: real, s: real, t: real, x: real)
    requires 0.0 <= a <= 1.0 && 0.0 <= b <= 1.0 && k < 3
    requires c == Component(q, k) && s == Component(u, k) && t == Component(v, k) && x == c + (s * a + t * b)
    ensures Within(AxisAt(CornerBox(q, u, v), k), Finite(x))
  {
    CornerBoxAxis(q, u, v, k);
    CornerAxis(c, s, t, a, b, x, AxisAt(CornerBox(q, u, v), k));
  }

  /** The four corners' box, before padding, holds every point Q + a u + b v with a, b in [0, 1]. */
  lemma CornerBoxHoldsParallelogram(q: Vec3, u: Vec3, v: Vec3, a: real, b: real)
    requires 0.0 <= a <= 1.0 && 0.0 <= b <= 1.0
    ensures Contains(CornerBox(q, u, v), Vectors.Add(q, Vectors.Add(Scale(u, a), Scale(v, b))))
  {
    var p := Vectors.Add(q, Vectors.Add(Scale(u, a), Scale(v, b)));
    forall k | 0 <= k < 3
      ensures Within(AxisAt(CornerBox(q, u, v), k), Finite(Component(p, k)))
    {
      ParallelogramPointAxis(q, u, v, a, b, k);
      ParallelogramInCorners(q, u, v, a, b, k, Component(q, k), Component(u, k), Component(v, k), Component(p, k));
    }
  }

  /** Padding the four corners' box only widens it. */
  lemma CornerBoxPadded(q: Vec3, u: Vec3, v: Vec3)
    ensures var inner := CornerBox(q, u, v);
            FullQuadBox(q, u, v) == Pad(inner) && Encloses(Pad(inner), inner)
  {
    var inner := CornerBox(q, u, v);
    forall k | 0 <= k < 3
      ensures AxisAt(inner, k).min.Finite? && AxisAt(inner, k).max.Finite? && AxisAt(inner, k).min.v <= AxisAt(inner, k).max.v
    {
      CornerBoxFinite(q, u, v, k);
    }
    PadEncloses(inner);
  }

  /** The four-corner box holds every point Q + a u + b v with a, b in [0, 1]. */
  lemma FullQuadBoxHoldsParallelogram(q: Vec3, u: Vec3, v: Vec3, a: real, b: real)
    requires 0.0 <= a <= 1.0 && 0.0 <= b <= 1.0
    ensures Contains(FullQuadBox(q, u, v), Vectors.Add(q, Vectors.Add(Scale(u, a), Scale(v, b))))
  {
    var inner := CornerBox(q, u, v);
    CornerBoxHoldsParallelogram(q, u, v, a, b);
    CornerBoxPadded(q, u, v);
    EnclosedContains(Pad(inner), inner, Vectors.Add(q, Vectors.Add(Scale(u, a), Scale(v, b))));
  }

  /** A quad built by MakeQuad, whose normal is a non-zero multiple of u x v, is hit only
      inside its box: the plane coordinates of the hit lie in the unit square, so the hit is
      a point of the parallelogram spanned by the four corners. */
  lemma FullQuadBoxHoldsHits(q: Vec3, u: Vec3, v: Vec3, scale: real, mat: Material, r: Ray, iv: Interval)
    requires Cross(u, v) != Zero && scale != 0.0
    ensures var qd := MakeQuad(q, u, v, Scale(Cross(u, v), scale), mat);
            QuadHit(qd, r, iv).Some? ==> Contains(qd.bbox, QuadHit(qd, r, iv).value.p)
  {
    var n := Cross(u, v);
    var qd := MakeQuad(q, u, v, Scale(n, scale), mat);
    var res := QuadHit(qd, r, iv);
    if res.Some? {
      var p := res.value.p;
      var x := Vectors.Sub(p, q);
      QuadHitOnPlane(qd, r, iv);
      PlaneOffset(Scale(n, scale), p, q, n, scale);
      PlaneCoordinatesRecover(q, u, v, Scale(n, scale), mat, x);
      FullQuadBoxHoldsParallelogram(q, u, v, Alpha(qd, x), Beta(qd, x));
      AddSub(q, p);
    }
  }

  /** A point p on the plane through q with normal scale n, for a non-zero scale, is offset from
      q along the plane: n . (p - q) = 0. */
  lemma PlaneOffset(normal: Vec3, p: Vec3, q: Vec3, n: Vec3, scale: real)
    requires normal == Scale(n, scale) && scale != 0.0 && Dot(normal, p) == Dot(normal, q)
    ensures Dot(n, Vectors.Sub(p, q)) == 0.0
  {
    DotScaleLeft(n, scale, p);
    DotScaleLeft(n, scale, q);
    CancelFactor(scale, Dot(n, p), Dot(n, q));
  }

  lemma CancelFactor(k: real, a: real, b: real)
    requires k != 0.0 && k * a == k * b
    ensures a == b
  {
  }

  lemma AddSub(q: Vec3, p: Vec3)
    ensures Vectors.Add(q, Vectors.Sub(p, q)) == p
  {
  }

  /** The four-corner box has finite bounds. */
  lemma FullQuadBoxNoNaN(q: Vec3, u: Vec3, v: Vec3)
    ensures NoNaN(FullQuadBox(q, u, v))
  {
    var inner := CornerBox(q, u, v);
    forall k | 0 <= k < 3
      ensures IsNumber(AxisAt(FullQuadBox(q, u, v), k).min) && IsNumber(AxisAt(FullQuadBox(q, u, v), k).max)
    {
      CornerBoxFinite(q, u, v, k);
      var iv := AxisAt(inner, k);
      assert AxisAt(FullQuadBox(q, u, v), k) == PadAxis(iv);
      PadAxisWidens(iv, iv.min.v, iv.max.v);
    }
  }

  /** The ray of the skewed example: straight down onto (0.5, 0.3, 0) from height 1. */
  function SkewedRay(): Ray { Ray(Vec3(0.5, 0.3, 1.0), Vec3(0.0, 0.0, -1.0), 0.0) }

  /** The interval the camera asks with: (0.001, infinity). */
  function SkewedInterval(): Interval { Interval(Finite(0.001), PosInf) }

  /** The skewed quad Q = 0, u = (1, 1, 0), v = (1, -1, 0) with unit normal (0, 0, -1) and,
      as the constructor as written stores it, w = normal. */
  predicate IsSkewedQuad(qd: Hittable)
  {
    qd.Quad? && qd.q == Zero && qd.u == Vec3(1.0, 1.0, 0.0) && qd.v == Vec3(1.0, -1.0, 0.0)
    && qd.normal == Vec3(0.0, 0.0, -1.0) && qd.d == 0.0 && qd.w == qd.normal
  }

  /** The ray straight down through (0.5, 0.3, 0) hits the skewed quad there, at plane
      coordinates (0.8, 0.2). */
  lemma SkewedQuadHit(qd: Hittable)
    requires IsSkewedQuad(qd)
    ensures QuadHit(qd, SkewedRay(), SkewedInterval()).Some?
    ensures QuadHit(qd, SkewedRay(), SkewedInterval()).value.p == Vec3(0.5, 0.3, 0.0)
  {
    SkewedQuadAccepts(qd, SkewedRay(), SkewedInterval());
  }

  lemma SkewedQuadAccepts(qd: Hittable, r: Ray, iv: Interval)
    requires IsSkewedQuad(qd) && r == SkewedRay() && iv == SkewedInterval()
    ensures QuadHit(qd, r, iv).Some? && QuadHit(qd, r, iv).value.p == Vec3(0.5, 0.3, 0.0)
  {
    SkewedDenominator(qd.normal, r);
    SkewedNumerator();
    TimeEquationTransfer(qd.normal, Vec3(0.0, 0.0, -1.0), qd.d, 0.0, r, SkewedRay(), 1.0);
    SkewedRaySurround(iv);
    SkewedCoordinates(qd, r);
    QuadHitAccepts(qd, r, iv, 1.0);
  }

  lemma SkewedDenominator(n: Vec3, r: Ray)
    requires n == Vec3(0.0, 0.0, -1.0) && r == SkewedRay()
    ensures !(Abs(Dot(n, r.dir)) < ParallelEpsilon)
  {
    DownDotDirection();
  }

  lemma SkewedNumerator()
    ensures 1.0 * Dot(Vec3(0.0, 0.0, -1.0), SkewedRay().dir) == 0.0 - Dot(Vec3(0.0, 0.0, -1.0), SkewedRay().pos)
  {
    DownDotDirection();
    DownDotOrigin();
  }

  /** The time equation of `Quad::hit` depends on the normal, offset and ray only through
      their values. */
  lemma TimeEquationTransfer(n: Vec3, n': Vec3, d: real, d': real, r: Ray, r': Ray, t: real)
    requires n == n' && d == d' && r == r'
    requires t * Dot(n', r'.dir) == d' - Dot(n', r'.pos)
    ensures t * Dot(n, r.dir) == d - Dot(n, r.pos)
  {
  }

  lemma DownDotDirection() ensures Dot(Vec3(0.0, 0.0, -1.0), SkewedRay().dir) == 1.0 {}
  lemma DownDotOrigin() ensures Dot(Vec3(0.0, 0.0, -1.0), SkewedRay().pos) == -1.0 {}

  /** The ray reaches (0.5, 0.3, 0) at t = 1, where the plane coordinates are (0.8, 0.2). */
  lemma SkewedCoordinates(qd: Hittable, r: Ray)
    requires IsSkewedQuad(qd) && r == SkewedRay()
    ensures At(r, 1.0) == Vec3(0.5, 0.3, 0.0)
    ensures Inside(Alpha(qd, Vectors.Sub(At(r, 1.0), qd.q)), Beta(qd, Vectors.Sub(At(r, 1.0), qd.q)))
  {
    var p := Vec3(0.5, 0.3, 0.0);
    SkewedPoint(r, qd.q, p);
    SkewedAlpha(qd, p);
    SkewedBeta(qd, p);
  }

  lemma SkewedPoint(r: Ray, q: Vec3, p: Vec3)
    requires r == SkewedRay() && q == Zero && p == Vec3(0.5, 0.3, 0.0)
    ensures p == At(r, 1.0) && p == Vectors.Sub(At(r, 1.0), q)
  {
  }

  lemma SkewedRaySurround(iv: Interval)
    requires iv == SkewedInterval()
    ensures Surround(iv, Finite(1.0))
  {
  }

  lemma SkewedAlpha(qd: Hittable, p: Vec3)
    requires qd.Quad? && qd.w == Vec3(0.0, 0.0, -1.0) && qd.v == Vec3(1.0, -1.0, 0.0) && p == Vec3(0.5, 0.3, 0.0)
    ensures Alpha(qd, p) == 0.8 && Inside(0.8, 0.2)
  {
  }

  lemma SkewedBeta(qd: Hittable, p: Vec3)
    requires qd.Quad? && qd.w == Vec3(0.0, 0.0, -1.0) && qd.u == Vec3(1.0, 1.0, 0.0) && p == Vec3(0.5, 0.3, 0.0)
    ensures Beta(qd, p) == 0.2
  {
  }

  /** `Quad::setBoundingBox` as written spans only the corners Q and Q + u + v. Both have
      y = 0 in the skewed example, so its box is flat in y, [-0.00005, 0.00005] after
      padding, and the hit at y = 0.3 lies outside it; the other corners Q + u and Q + v,
      at y = 1 and y = -1, stick out of the box too. */
  lemma SkewedQuadHitOutsideBox(q: Vec3, u: Vec3, v: Vec3)
    requires q == Zero && u == Vec3(1.0, 1.0, 0.0) && v == Vec3(1.0, -1.0, 0.0)
    ensures !Contains(QuadBox(q, u, v), Vec3(0.5, 0.3, 0.0))
    ensures !Contains(QuadBox(q, u, v), Vectors.Add(q, u)) && !Contains(QuadBox(q, u, v), Vectors.Add(q, v))
  {
    FlatQuadBoxY(q, u, v);
    OutsideFlatY(QuadBox(q, u, v), Vec3(0.5, 0.3, 0.0));
    OutsideFlatY(QuadBox(q, u, v), Vectors.Add(q, u));
    OutsideFlatY(QuadBox(q, u, v), Vectors.Add(q, v));
  }

  /** A point further than 0.00005 from y = 0 is outside a box that is flat in y. */
  lemma OutsideFlatY(box: AABB, p: Vec3)
    requires AxisAt(box, 1) == Interval(Finite(-0.00005), Finite(0.00005))
    requires p.y < -0.00005 || 0.00005 < p.y
    ensures !Contains(box, p)
  {
    assert !Within(AxisAt(box, 1), Finite(Component(p, 1)));
  }

  /** The ray down through (0.5, 0.3) misses the box the skewed quad gets from
      Q to Q + u + v only. */
  lemma SkewedQuadEscapesBox(u: Vec3, v: Vec3)
    requires u == Vec3(1.0, 1.0, 0.0) && v == Vec3(1.0, -1.0, 0.0)
    ensures !SlabHit(QuadBox(Zero, u, v), SkewedRay(), SkewedInterval())
  {
    SkewedQuadBoxMissed(Zero, u, v, SkewedRay(), SkewedInterval());
  }

  lemma SkewedQuadBoxMissed(q: Vec3, u: Vec3, v: Vec3, r: Ray, iv: Interval)
    requires q == Zero && u == Vec3(1.0, 1.0, 0.0) && v == Vec3(1.0, -1.0, 0.0)
    requires r == SkewedRay() && iv == SkewedInterval()
    ensures !SlabHit(QuadBox(q, u, v), r, iv)
  {
    FlatQuadBoxY(q, u, v);
    WideQuadBoxX(q, u, v);
    SkewedRayComponents(r);
    SkewedIntervalOpen(iv);
    SkewedSlabsMissed(QuadBox(q, u, v), r, iv);
  }

  lemma SkewedSlabsMissed(box: AABB, r: Ray, iv: Interval)
    requires AxisAt(box, 0) == Interval(Finite(0.0), Finite(2.0))
    requires AxisAt(box, 1) == Interval(Finite(-0.00005), Finite(0.00005))
    requires Component(r.dir, 0) == 0.0 && Component(r.dir, 1) == 0.0
    requires Component(r.pos, 0) == 0.5 && Component(r.pos, 1) == 0.3
    requires iv.min.Finite? && !iv.max.NaN? && !Empty(iv)
    ensures !SlabHit(box, r, iv)
  {
    ParallelMissesBox(box, r, iv);
  }

  lemma SkewedRayComponents(r: Ray)
    requires r == SkewedRay()
    ensures Component(r.dir, 0) == 0.0 && Component(r.dir, 1) == 0.0
    ensures Component(r.pos, 0) == 0.5 && Component(r.pos, 1) == 0.3
  {
  }

  lemma SkewedIntervalOpen(iv: Interval)
    requires iv == SkewedInterval()
    ensures iv.min.Finite? && !iv.max.NaN? && !Empty(iv)
  {
  }

  /** The skewed example's box as written spans x in [0, 2], wide enough to need no padding. */
  lemma WideQuadBoxX(q: Vec3, u: Vec3, v: Vec3)
    requires q == Zero && u == Vec3(1.0, 1.0, 0.0) && v == Vec3(1.0, -1.0, 0.0)
    ensures AxisAt(QuadBox(q, u, v), 0) == Interval(Finite(0.0), Finite(2.0))
  {
    var wide := FromPoints(q, Vectors.Add(Vectors.Add(q, u), v)).x;
    assert Vectors.Add(Vectors.Add(q, u), v).x == 2.0;
    assert wide == Interval(Finite(0.0), Finite(2.0));
    WideAxisUnpadded(wide);
  }

  lemma WideAxisUnpadded(wide: Interval)
    requires wide == Interval(Finite(0.0), Finite(2.0))
    ensures PadAxis(wide) == wide
  {
    assert Size(wide) == Finite(2.0);
  }

  /** A box whose two corners both have y = 0 is padded to [-0.00005, 0.00005] in y. */
  lemma FlatQuadBoxY(q: Vec3, u: Vec3, v: Vec3)
    requires q.y == 0.0 && u.y + v.y == 0.0
    ensures AxisAt(QuadBox(q, u, v), 1) == Interval(Finite(-0.00005), Finite(0.00005))
  {
    var flat := FromPoints(q, Vectors.Add(Vectors.Add(q, u), v)).y;
    assert flat == Interval(Finite(0.0), Finite(0.0));
    FlatAxisPadded(flat);
  }

  lemma FlatAxisPadded(flat: Interval)
    requires flat == Interval(Finite(0.0), Finite(0.0))
    ensures PadAxis(flat) == Interval(Finite(-0.00005), Finite(0.00005))
  {
    FlatAxisSize(flat);
    PadDeltaFacts();
  }

  lemma FlatAxisSize(flat: Interval)
    requires flat == Interval(Finite(0.0), Finite(0.0))
    ensures Fabs(Size(flat)) == Finite(0.0)
    ensures Expand(flat, PadDelta) == Interval(Finite(-0.00005), Finite(0.00005))
  {
    HalfPadDelta();
    FlatSize();
    FlatExpandLow();
    FlatExpandHigh();
  }

  lemma HalfPadDelta()
    ensures Half(PadDelta) == Finite(0.00005)
  {
  }

  lemma FlatSize()
    ensures Fabs(Doubles.Sub(Finite(0.0), Finite(0.0))) == Finite(0.0)
  {
  }

  lemma FlatExpandLow()
    ensures Doubles.Sub(Finite(0.0), Finite(0.00005)) == Finite(-0.00005)
  {
  }

  lemma FlatExpandHigh()
    ensures Doubles.Add(Finite(0.0), Finite(0.00005)) == Finite(0.00005)
  {
  }

  lemma PadDeltaFacts()
    ensures !Le(PadDelta, Finite(0.0))
  {
  }

  /** The constructor as written, given the skewed example's corners and its unit normal
      (0, 0, -1) = (u x v) / 2, builds the skewed quad, with the two-corner box. */
  lemma SkewedQuadFields(u: Vec3, v: Vec3, n: Vec3, mat: Material)
    requires u == Vec3(1.0, 1.0, 0.0) && v == Vec3(1.0, -1.0, 0.0) && n == Vec3(0.0, 0.0, -1.0)
    ensures n == Scale(Cross(u, v), 0.5)
    ensures IsSkewedQuad(MakeQuadAsWritten(Zero, u, v, n, mat))
    ensures MakeQuadAsWritten(Zero, u, v, n, mat).bbox == QuadBox(Zero, u, v)
  {
    DownFromCross();
    UnitDown(n);
    DotZero(n);
    AsWrittenUnitFields(Zero, u, v, n, mat);
  }

  /** Given a unit normal, the constructor as written stores that normal as its
      coordinate vector. */
  lemma AsWrittenUnitFields(q: Vec3, u: Vec3, v: Vec3, n: Vec3, mat: Material)
    requires Dot(n, n) == 1.0
    ensures var qd := MakeQuadAsWritten(q, u, v, n, mat);
            qd.q == q && qd.u == u && qd.v == v && qd.normal == n && qd.d == Dot(n, q) && qd.w == n
            && qd.bbox == QuadBox(q, u, v)
  {
    assert Scale(n, 1.0 / 1.0) == n;
  }

  lemma DotZero(n: Vec3)
    ensures Dot(n, Zero) == 0.0
  {
  }

  lemma UnitDown(n: Vec3)
    requires n == Vec3(0.0, 0.0, -1.0)
    ensures Dot(n, n) == 1.0
  {
    DownLengthSq();
  }

  lemma DownLengthSq() ensures Dot(Vec3(0.0, 0.0, -1.0), Vec3(0.0, 0.0, -1.0)) == 1.0 {}
  lemma DownFromCross() ensures Vec3(0.0, 0.0, -1.0) == Scale(Cross(Vec3(1.0, 1.0, 0.0), Vec3(1.0, -1.0, 0.0)), 0.5)
  {
    SkewedCross();
    HalfDown();
  }
  lemma SkewedCross() ensures Cross(Vec3(1.0, 1.0, 0.0), Vec3(1.0, -1.0, 0.0)) == Vec3(0.0, 0.0, -2.0) {}
  lemma HalfDown() ensures Scale(Vec3(0.0, 0.0, -2.0), 0.5) == Vec3(0.0, 0.0, -1.0) {}

}
