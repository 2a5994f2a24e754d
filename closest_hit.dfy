/** What the closest-hit queries compute. `HittableList::hit` and `BVHNode::hit` never
    compare hit parameters themselves: they lower the upper bound of the interval to the
    closest hit so far and ask the next object again. This module proves that, for objects
    whose hit query simply filters when the bound is lowered, the list returns the first of
    its objects' hits with the smallest parameter, and a BVH node the nearer of its
    children's hits. */
module ClosestHit {
  import opened Doubles
  import opened Vectors
  import opened Intervals
  import opened Hittables

  /** A hit kept only when its parameter lies strictly below the bound `c`. */
  function Below(res: Option<HitRecord>, c: Double): (out: Option<HitRecord>)
    ensures out.Some? <==> res.Some? && Lt(Finite(res.value.t), c)
    ensures out.Some? ==> out == res
  {
    if res.Some? && Lt(Finite(res.value.t), c) then res else None
  }

  /** An object narrows on `iv` when asking it again over (iv.min, c), for any bound c not
      above iv.max, returns exactly its hit over `iv` when that lies below c, and no hit
      otherwise. */
  ghost predicate Narrows(h: Hittable, r: Ray, iv: Interval, sqrt: real -> real)
  {
    forall c :: Le(c, iv.max) ==> Hit(h, r, Interval(iv.min, c), sqrt) == Below(Hit(h, r, iv, sqrt), c)
  }

  /** Of two hits, the later one wins only when it is strictly closer; ties keep the first. */
  function Nearer(first: Option<HitRecord>, second: Option<HitRecord>): (res: Option<HitRecord>)
    ensures res.Some? <==> first.Some? || second.Some?
    ensures res == first || res == second
    ensures res.Some? && first.Some? ==> res.value.t <= first.value.t
    ensures res.Some? && second.Some? ==> res.value.t <= second.value.t
    ensures first.Some? && second.Some? && first.value.t <= second.value.t ==> res == first
  {
    if second.Some? && (first.None? || second.value.t < first.value.t) then second else first
  }

  /** The first hit with the smallest parameter in a sequence of per-object answers. */
  function NearestOf(hits: seq<Option<HitRecord>>): Option<HitRecord>
  {
    if |hits| == 0 then None else Nearer(NearestOf(hits[..|hits| - 1]), hits[|hits| - 1])
  }

  /** Each object's own answer over the whole interval. */
  function ObjectHits(objects: seq<Hittable>, r: Ray, iv: Interval, sqrt: real -> real): (hits: seq<Option<HitRecord>>)
    ensures |hits| == |objects|
    ensures forall i :: 0 <= i < |objects| ==> hits[i] == Hit(objects[i], r, iv, sqrt)
  {
    seq(|objects|, i requires 0 <= i < |objects| => Hit(objects[i], r, iv, sqrt))
  }

  // ---- what the nearest hit is ----

  /** There is a nearest hit exactly when some object is hit; it is one of the hits, no hit
      is strictly nearer, and every hit before it is strictly farther. */
  lemma {:induction false} NearestOfIsFirstMinimum(hits: seq<Option<HitRecord>>)
    ensures NearestOf(hits).Some? <==> exists i :: 0 <= i < |hits| && hits[i].Some?
    ensures NearestOf(hits).Some? ==> forall i :: 0 <= i < |hits| && hits[i].Some? ==> NearestOf(hits).value.t <= hits[i].value.t
    ensures NearestOf(hits).Some? ==>
              exists i :: 0 <= i < |hits| && hits[i] == NearestOf(hits) &&
                (forall j :: 0 <= j < i && hits[j].Some? ==> hits[j].value.t > NearestOf(hits).value.t)
  {
    if |hits| > 0 {
      var n := |hits| - 1;
      var front := hits[..n];
      NearestOfIsFirstMinimum(front);
      var res := NearestOf(hits);
      assert res == Nearer(NearestOf(front), hits[n]);
      assert forall i :: 0 <= i < n ==> front[i] == hits[i];
      if front == [] || NearestOf(front).None? {
        if res.Some? {
          assert hits[n] == res;
        }
      } else if res == NearestOf(front) {
        var i :| 0 <= i < n && front[i] == res &&
                 (forall j :: 0 <= j < i && front[j].Some? ==> front[j].value.t > res.value.t);
        assert hits[i] == res;
      } else {
        assert hits[n] == res;
      }
    }
  }

  /** Nothing in the sequence lowers a hit to a bound `c` differently from the nearest one:
      filtering every answer by `c` and then taking the nearest is filtering the nearest. */
  lemma {:induction false} NearestOfBelow(hits: seq<Option<HitRecord>>, c: Double)
    ensures NearestOf(seq(|hits|, i requires 0 <= i < |hits| => Below(hits[i], c))) == Below(NearestOf(hits), c)
  {
    var low := seq(|hits|, i requires 0 <= i < |hits| => Below(hits[i], c));
    if |hits| > 0 {
      var n := |hits| - 1;
      var front := hits[..n];
      NearestOfBelow(front, c);
      assert low[..n] == seq(|front|, i requires 0 <= i < |front| => Below(front[i], c));
      var best := NearestOf(front);
      if best.Some? && hits[n].Some? && !Lt(Finite(best.value.t), c) && Lt(Finite(hits[n].value.t), c) {
        assert hits[n].value.t < best.value.t by { LtTrichotomy(c, Finite(best.value.t)); }
      }
      if best.Some? && hits[n].Some? && Lt(Finite(best.value.t), c) && !Lt(Finite(hits[n].value.t), c) {
        assert best.value.t < hits[n].value.t by { LtTrichotomy(c, Finite(hits[n].value.t)); }
      }
    }
  }

  // ---- the scan of HittableList::hit ----

  /** One step of the scan: the object asked below the closest hit so far answers what
      `Nearer` keeps. */
  lemma ScanStep(o: Hittable, r: Ray, iv: Interval, closest: Double, best: Option<HitRecord>, sqrt: real -> real)
    requires Narrows(o, r, iv, sqrt)
    requires best.None? ==> closest == iv.max
    requires best.Some? ==> closest == Finite(best.value.t) && Surround(iv, closest)
    ensures var found := Hit(o, r, Interval(iv.min, closest), sqrt);
            (found.Some? ==> Nearer(best, Hit(o, r, iv, sqrt)) == found) &&
            (found.None? ==> Nearer(best, Hit(o, r, iv, sqrt)) == best)
  {
    var full := Hit(o, r, iv, sqrt);
    if best.None? {
      assert Interval(iv.min, closest) == iv;
    } else {
      assert Le(closest, iv.max);
      assert Hit(o, r, Interval(iv.min, closest), sqrt) == Below(full, closest);
      if full.Some? && !Lt(Finite(full.value.t), closest) {
        LtTrichotomy(Finite(full.value.t), closest);
      }
    }
  }

  /** The scan from object k, holding the nearest of the first k answers, ends with the
      nearest of all of them. */
  lemma {:induction false} ScanFromNearest(h: Hittable, k: nat, r: Ray, iv: Interval, closest: Double, best: Option<HitRecord>, sqrt: real -> real)
    requires h.List? && k <= |h.objects|
    requires forall i :: 0 <= i < |h.objects| ==> Narrows(h.objects[i], r, iv, sqrt)
    requires best == NearestOf(ObjectHits(h.objects, r, iv, sqrt)[..k])
    requires best.None? ==> closest == iv.max
    requires best.Some? ==> closest == Finite(best.value.t) && Surround(iv, closest) && Dot(best.value.normal, r.dir) <= 0.0
    ensures ScanFrom(h, k, r, iv, closest, best, sqrt) == NearestOf(ObjectHits(h.objects, r, iv, sqrt))
    decreases |h.objects| - k
  {
    var hits := ObjectHits(h.objects, r, iv, sqrt);
    if k == |h.objects| {
      assert hits[..k] == hits;
    } else {
      var o := h.objects[k];
      var found := Hit(o, r, Interval(iv.min, closest), sqrt);
      ScanFromStep(h, k, r, iv, closest, best, sqrt);
      ScanStep(o, r, iv, closest, best, sqrt);
      NearestOfPrefix(hits, k);
      if found.Some? {
        ScanFromNearest(h, k + 1, r, iv, Finite(found.value.t), found, sqrt);
      } else {
        ScanFromNearest(h, k + 1, r, iv, closest, best, sqrt);
      }
    }
  }

  /** One unfolding of the scan: a hit below the bound becomes the new best and bound. */
  lemma ScanFromStep(h: Hittable, k: nat, r: Ray, iv: Interval, closest: Double, best: Option<HitRecord>, sqrt: real -> real)
    requires h.List? && k < |h.objects|
    requires best.None? ==> closest == iv.max
    requires best.Some? ==> closest == Finite(best.value.t) && Surround(iv, closest) && Dot(best.value.normal, r.dir) <= 0.0
    ensures var found := Hit(h.objects[k], r, Interval(iv.min, closest), sqrt);
            (found.Some? ==> Surround(iv, Finite(found.value.t)) && Dot(found.value.normal, r.dir) <= 0.0 &&
                             ScanFrom(h, k, r, iv, closest, best, sqrt) == ScanFrom(h, k + 1, r, iv, Finite(found.value.t), found, sqrt)) &&
            (found.None? ==> ScanFrom(h, k, r, iv, closest, best, sqrt) == ScanFrom(h, k + 1, r, iv, closest, best, sqrt))
  {
    var found := Hit(h.objects[k], r, Interval(iv.min, closest), sqrt);
    if found.Some? {
      NarrowedSurround(iv, best, found.value.t);
    }
  }

  /** Taking one more answer into the nearest. */
  lemma NearestOfPrefix(hits: seq<Option<HitRecord>>, k: nat)
    requires k < |hits|
    ensures NearestOf(hits[..k + 1]) == Nearer(NearestOf(hits[..k]), hits[k])
  {
    assert hits[..k + 1][..k] == hits[..k];
  }

  /** `HittableList::hit` over objects that narrow returns the first of their hits with the
      smallest parameter: a hit exactly when some object is hit, and no hit is nearer. */
  lemma ListNearest(h: Hittable, r: Ray, iv: Interval, sqrt: real -> real)
    requires h.List?
    requires forall i :: 0 <= i < |h.objects| ==> Narrows(h.objects[i], r, iv, sqrt)
    ensures Hit(h, r, iv, sqrt) == NearestOf(ObjectHits(h.objects, r, iv, sqrt))
    ensures Hit(h, r, iv, sqrt).Some? <==> exists i :: 0 <= i < |h.objects| && Hit(h.objects[i], r, iv, sqrt).Some?
    ensures Hit(h, r, iv, sqrt).Some? ==>
              forall i :: 0 <= i < |h.objects| && Hit(h.objects[i], r, iv, sqrt).Some? ==>
                Hit(h, r, iv, sqrt).value.t <= Hit(h.objects[i], r, iv, sqrt).value.t
  {
    var hits := ObjectHits(h.objects, r, iv, sqrt);
    assert hits[..0] == [];
    ScanFromNearest(h, 0, r, iv, iv.max, None, sqrt);
    NearestOfIsFirstMinimum(hits);
  }

  /** `BVHNode::hit` when the ray meets the node's box: with a right child that narrows, the
      node returns the nearer of its children's hits, the left one on a tie. */
  lemma NodeNearer(h: Hittable, r: Ray, iv: Interval, sqrt: real -> real)
    requires h.BVHNode? && Boxes.SlabHit(h.bbox, r, iv)
    requires Narrows(h.right, r, iv, sqrt)
    ensures Hit(h, r, iv, sqrt) == Nearer(Hit(h.left, r, iv, sqrt), Hit(h.right, r, iv, sqrt))
  {
    var l := Hit(h.left, r, iv, sqrt);
    var full := Hit(h.right, r, iv, sqrt);
    if l.None? {
      assert Interval(iv.min, iv.max) == iv;
    } else {
      var c := Finite(l.value.t);
      assert Le(c, iv.max);
      assert Hit(h.right, r, Interval(iv.min, c), sqrt) == Below(full, c);
      if full.Some? && !Lt(Finite(full.value.t), c) {
        LtTrichotomy(Finite(full.value.t), c);
      }
    }
  }

  /** A node whose box the ray misses over the interval reports no hit, whatever its
      children hold. */
  lemma NodeMissesOutsideBox(h: Hittable, r: Ray, iv: Interval, sqrt: real -> real)
    requires h.BVHNode? && !Boxes.SlabHit(h.bbox, r, iv)
    ensures Hit(h, r, iv, sqrt).None?
  {
  }

  // ---- which objects narrow ----

  /** Lowering the bound of the interval only removes the roots it no longer surrounds. */
  lemma ChooseRootNarrows(iv: Interval, near: real, far: real, c: Double)
    requires near <= far && Le(c, iv.max)
    ensures var full := ChooseRoot(iv, near, far);
            ChooseRoot(Interval(iv.min, c), near, far) ==
              if full.Some? && Lt(Finite(full.value), c) then full else None
  {
    if Lt(Finite(near), c) { LtLeTransitive(Finite(near), c, iv.max); }
    if Lt(Finite(far), c) { LtLeTransitive(Finite(far), c, iv.max); }
    if Surround(iv, Finite(near)) && !Lt(Finite(near), c) {
      LtTrichotomy(c, Finite(near));
    }
  }

  /** A sphere narrows, given a square root that is exact on non-negative numbers. */
  lemma SphereNarrows(s: Hittable, r: Ray, iv: Interval, sqrt: real -> real)
    requires s.Sphere? && ExactSqrt(sqrt)
    ensures Narrows(s, r, iv, sqrt)
  {
    forall c | Le(c, iv.max)
      ensures Hit(s, r, Interval(iv.min, c), sqrt) == Below(Hit(s, r, iv, sqrt), c)
    {
      var a, h, disc := QuadA(r), QuadH(s, r), Discriminant(s, r);
      if !(disc < 0.0 || a == 0.0) {
        var sq := sqrt(disc);
        assert sq >= 0.0;
        assert a > 0.0 by { LengthSqPositive(r.dir); }
        RootsOrdered(a, h, sq);
        ChooseRootNarrows(iv, NearRoot(a, h, sq), FarRoot(a, h, sq), c);
      }
    }
  }

  /** A quad narrows. */
  lemma QuadNarrows(qd: Hittable, r: Ray, iv: Interval, sqrt: real -> real)
    requires qd.Quad?
    ensures Narrows(qd, r, iv, sqrt)
  {
    forall c | Le(c, iv.max)
      ensures Hit(qd, r, Interval(iv.min, c), sqrt) == Below(Hit(qd, r, iv, sqrt), c)
    {
      var denom := Dot(qd.normal, r.dir);
      if Abs(denom) >= ParallelEpsilon {
        var t := Finite((qd.d - Dot(qd.normal, r.pos)) / denom);
        if Lt(t, c) { LtLeTransitive(t, c, iv.max); }
      }
    }
  }

  /** A list of objects that narrow narrows in turn, so lists nest. */
  lemma ListNarrows(h: Hittable, r: Ray, iv: Interval, sqrt: real -> real)
    requires h.List?
    requires forall i :: 0 <= i < |h.objects| ==> Narrows(h.objects[i], r, iv, sqrt)
    ensures Narrows(h, r, iv, sqrt)
  {
    var hits := ObjectHits(h.objects, r, iv, sqrt);
    ListNearest(h, r, iv, sqrt);
    forall c | Le(c, iv.max)
      ensures Hit(h, r, Interval(iv.min, c), sqrt) == Below(Hit(h, r, iv, sqrt), c)
    {
      var low := Interval(iv.min, c);
      forall i | 0 <= i < |h.objects|
        ensures Narrows(h.objects[i], r, low, sqrt)
      {
        NarrowsLowered(h.objects[i], r, iv, c, sqrt);
      }
      ListNearest(h, r, low, sqrt);
      assert ObjectHits(h.objects, r, low, sqrt) == seq(|hits|, i requires 0 <= i < |hits| => Below(hits[i], c));
      NearestOfBelow(hits, c);
    }
  }

  /** An object that narrows on an interval also narrows on every lowered one. */
  lemma NarrowsLowered(o: Hittable, r: Ray, iv: Interval, c: Double, sqrt: real -> real)
    requires Narrows(o, r, iv, sqrt) && Le(c, iv.max)
    ensures Narrows(o, r, Interval(iv.min, c), sqrt)
  {
    var full := Hit(o, r, iv, sqrt);
    forall c' | Le(c', c)
      ensures Hit(o, r, Interval(iv.min, c'), sqrt) == Below(Hit(o, r, Interval(iv.min, c), sqrt), c')
    {
      LeTransitive(c', c, iv.max);
      if full.Some? && Lt(Finite(full.value.t), c') { LtLeTransitive(Finite(full.value.t), c', c); }
    }
  }
}
