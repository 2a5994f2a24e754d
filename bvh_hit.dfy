/** What `BVHNode::hit` returns for a tree the construction builds. The box test of a node
    skips its children only when the ray meets no point of the box over the interval, so
    when every object is hit only at points of its own box, the tree reports a hit exactly
    when the linear scan of `HittableList::hit` over the same objects does, at the same
    parameter. */
module BvhTraversal {
  import opened Doubles
  import opened Vectors
  import opened Intervals
  import opened Boxes
  import opened Hittables
  import opened ClosestHit
  import opened Bvh

  /** The hit `h` reports over `iv`, if any, is at a point of `box`. */
  ghost predicate HitInside(box: AABB, h: Hittable, r: Ray, iv: Interval, sqrt: real -> real)
  {
    Hittables.Hit(h, r, iv, sqrt).Some? ==> Contains(box, At(r, Hittables.Hit(h, r, iv, sqrt).value.t))
  }

  /** What the traversal needs of an object: it narrows, its box has no NaN bound, and it
      is hit only at points of its box. */
  ghost predicate Boxed(h: Hittable, r: Ray, iv: Interval, sqrt: real -> real)
  {
    Narrows(h, r, iv, sqrt) && NoNaN(h.bbox) && HitInside(h.bbox, h, r, iv, sqrt)
  }

  /** Filtering two answers by a bound and keeping the nearer is keeping the nearer and
      filtering it. */
  lemma NearerBelow(a: Option<HitRecord>, b: Option<HitRecord>, c: Double)
    ensures Nearer(Below(a, c), Below(b, c)) == Below(Nearer(a, b), c)
  {
    if a.Some? && b.Some? && Lt(Finite(a.value.t), c) && !Lt(Finite(b.value.t), c) {
      LtTrichotomy(Finite(b.value.t), c);
      if Finite(b.value.t) != c { LtTrichotomy(c, Finite(b.value.t)); }
    }
    if a.Some? && b.Some? && !Lt(Finite(a.value.t), c) && Lt(Finite(b.value.t), c) {
      LtTrichotomy(Finite(a.value.t), c);
      if Finite(a.value.t) != c { LtLeTransitive(Finite(b.value.t), c, Finite(a.value.t)); }
    }
  }

  /** A hit inside a box that encloses `box` is inside it too. */
  lemma HitInsideEnclosing(outer: AABB, box: AABB, h: Hittable, r: Ray, iv: Interval, sqrt: real -> real)
    requires Encloses(outer, box) && HitInside(box, h, r, iv, sqrt)
    ensures HitInside(outer, h, r, iv, sqrt)
  {
    var res := Hittables.Hit(h, r, iv, sqrt);
    if res.Some? {
      EnclosedContains(outer, box, At(r, res.value.t));
    }
  }

  /** When both children are hit only inside the node's box, the box test of
      `BVHNode::hit` never skips a hit: the node answers the nearer of its children's hits,
      the left one on a tie. */
  lemma NodeHitIsNearer(h: Hittable, r: Ray, iv: Interval, sqrt: real -> real)
    requires h.BVHNode? && Narrows(h.right, r, iv, sqrt)
    requires HitInside(h.bbox, h.left, r, iv, sqrt) && HitInside(h.bbox, h.right, r, iv, sqrt)
    ensures Hittables.Hit(h, r, iv, sqrt) == Nearer(Hittables.Hit(h.left, r, iv, sqrt), Hittables.Hit(h.right, r, iv, sqrt))
  {
    var n := Nearer(Hittables.Hit(h.left, r, iv, sqrt), Hittables.Hit(h.right, r, iv, sqrt));
    if SlabHit(h.bbox, r, iv) {
      NodeNearer(h, r, iv, sqrt);
    } else if n.Some? {
      SlabComplete(h.bbox, r, iv, n.value.t);
      assert false;
    }
  }

  /** Such a node narrows in turn and is hit only inside its box, so nodes nest. */
  lemma NodeBoxed(h: Hittable, r: Ray, iv: Interval, sqrt: real -> real)
    requires h.BVHNode? && NoNaN(h.bbox)
    requires Narrows(h.left, r, iv, sqrt) && Narrows(h.right, r, iv, sqrt)
    requires HitInside(h.bbox, h.left, r, iv, sqrt) && HitInside(h.bbox, h.right, r, iv, sqrt)
    ensures Boxed(h, r, iv, sqrt)
  {
    var l, rr := Hittables.Hit(h.left, r, iv, sqrt), Hittables.Hit(h.right, r, iv, sqrt);
    NodeHitIsNearer(h, r, iv, sqrt);
    forall c | Le(c, iv.max)
      ensures Hittables.Hit(h, r, Interval(iv.min, c), sqrt) == Below(Hittables.Hit(h, r, iv, sqrt), c)
    {
      var low := Interval(iv.min, c);
      NarrowsLowered(h.right, r, iv, c, sqrt);
      assert Hittables.Hit(h.left, r, low, sqrt) == Below(l, c);
      assert Hittables.Hit(h.right, r, low, sqrt) == Below(rr, c);
      NodeHitIsNearer(h, r, low, sqrt);
      NearerBelow(l, rr, c);
    }
  }

  /** `res` is the nearest of the hits of the objects in `objs`: it is a hit exactly when
      one of them is hit, it is one of their hits, and none of them is hit nearer. */
  ghost predicate NearestAmong(res: Option<HitRecord>, objs: multiset<Hittable>, r: Ray, iv: Interval, sqrt: real -> real)
  {
    && (res.Some? <==> exists x :: x in objs && Hittables.Hit(x, r, iv, sqrt).Some?)
    && (res.Some? ==> exists x :: x in objs && Hittables.Hit(x, r, iv, sqrt) == res)
    && (res.Some? ==> forall x :: x in objs && Hittables.Hit(x, r, iv, sqrt).Some? ==> res.value.t <= Hittables.Hit(x, r, iv, sqrt).value.t)
  }

  /** The nearer of the nearest hits of two groups is the nearest hit of both together. */
  lemma NearerAmong(a: Option<HitRecord>, left: multiset<Hittable>, b: Option<HitRecord>, right: multiset<Hittable>,
                    r: Ray, iv: Interval, sqrt: real -> real)
    requires NearestAmong(a, left, r, iv, sqrt) && NearestAmong(b, right, r, iv, sqrt)
    ensures NearestAmong(Nearer(a, b), left + right, r, iv, sqrt)
  {
    var res := Nearer(a, b);
    if res.Some? {
      if res == a {
        var x :| x in left && Hittables.Hit(x, r, iv, sqrt) == a;
        assert x in left + right;
      } else {
        var x :| x in right && Hittables.Hit(x, r, iv, sqrt) == b;
        assert x in left + right;
      }
    }
    if exists x :: x in left + right && Hittables.Hit(x, r, iv, sqrt).Some? {
      var x :| x in left + right && Hittables.Hit(x, r, iv, sqrt).Some?;
      assert x in left || x in right;
    }
  }

  /** An object on its own: its hit is the nearest of its group. */
  lemma AloneAmong(x: Hittable, r: Ray, iv: Interval, sqrt: real -> real)
    ensures NearestAmong(Hittables.Hit(x, r, iv, sqrt), multiset{x}, r, iv, sqrt)
  {
  }

  /** A tree of the construction's shape whose leaves satisfy the conditions answers the
      nearest of its leaves' hits, and satisfies the conditions in turn. */
  lemma {:induction false} ShapedNearest(h: Hittable, span: nat, r: Ray, iv: Interval, sqrt: real -> real)
    requires Shaped(h, span)
    requires forall x :: x in Leaves(h, span) ==> Boxed(x, r, iv, sqrt)
    ensures Boxed(h, r, iv, sqrt)
    ensures NearestAmong(Hittables.Hit(h, r, iv, sqrt), Leaves(h, span), r, iv, sqrt)
    decreases h
  {
    if span <= 2 {
      SmallShapedNearest(h, span, r, iv, sqrt);
    } else {
      HalvesBoxed(h, span, r, iv, sqrt);
      ShapedNearest(h.left, span / 2, r, iv, sqrt);
      ShapedNearest(h.right, span - span / 2, r, iv, sqrt);
      SplitShapedNearest(h, span, r, iv, sqrt);
    }
  }

  /** A node over one or two objects answers the nearer of their hits. */
  lemma SmallShapedNearest(h: Hittable, span: nat, r: Ray, iv: Interval, sqrt: real -> real)
    requires Shaped(h, span) && span <= 2
    requires forall x :: x in Leaves(h, span) ==> Boxed(x, r, iv, sqrt)
    ensures Boxed(h, r, iv, sqrt)
    ensures NearestAmong(Hittables.Hit(h, r, iv, sqrt), Leaves(h, span), r, iv, sqrt)
  {
    var l, rr := Hittables.Hit(h.left, r, iv, sqrt), Hittables.Hit(h.right, r, iv, sqrt);
    assert h.left in Leaves(h, span) && h.right in Leaves(h, span);
    AloneAmong(h.left, r, iv, sqrt);
    AloneAmong(h.right, r, iv, sqrt);
    JoinBoxed(h, r, iv, sqrt);
    if span == 1 {
      assert Nearer(l, l) == l;
    } else {
      NearerAmong(l, multiset{h.left}, rr, multiset{h.right}, r, iv, sqrt);
      assert multiset{h.left} + multiset{h.right} == Leaves(h, span);
    }
  }

  /** A node over more than two objects answers the nearer of its halves' answers. */
  lemma SplitShapedNearest(h: Hittable, span: nat, r: Ray, iv: Interval, sqrt: real -> real)
    requires Shaped(h, span) && span > 2
    requires Boxed(h.left, r, iv, sqrt) && Boxed(h.right, r, iv, sqrt)
    requires NearestAmong(Hittables.Hit(h.left, r, iv, sqrt), Leaves(h.left, span / 2), r, iv, sqrt)
    requires NearestAmong(Hittables.Hit(h.right, r, iv, sqrt), Leaves(h.right, span - span / 2), r, iv, sqrt)
    ensures Boxed(h, r, iv, sqrt)
    ensures NearestAmong(Hittables.Hit(h, r, iv, sqrt), Leaves(h, span), r, iv, sqrt)
  {
    var l, rr := Hittables.Hit(h.left, r, iv, sqrt), Hittables.Hit(h.right, r, iv, sqrt);
    JoinBoxed(h, r, iv, sqrt);
    NearerAmong(l, Leaves(h.left, span / 2), rr, Leaves(h.right, span - span / 2), r, iv, sqrt);
    LeavesOfSplit(h, span);
    AmongTransfer(Nearer(l, rr), Hittables.Hit(h, r, iv, sqrt),
                  Leaves(h.left, span / 2) + Leaves(h.right, span - span / 2), Leaves(h, span), r, iv, sqrt);
  }

  /** The halves of a shaped tree over more than two objects are shaped, and their leaves
      are leaves of the whole. */
  lemma HalvesBoxed(h: Hittable, span: nat, r: Ray, iv: Interval, sqrt: real -> real)
    requires Shaped(h, span) && span > 2
    requires forall x :: x in Leaves(h, span) ==> Boxed(x, r, iv, sqrt)
    ensures Shaped(h.left, span / 2) && Shaped(h.right, span - span / 2)
    ensures forall x :: x in Leaves(h.left, span / 2) ==> Boxed(x, r, iv, sqrt)
    ensures forall x :: x in Leaves(h.right, span - span / 2) ==> Boxed(x, r, iv, sqrt)
  {
    LeavesOfSplit(h, span);
  }

  lemma LeavesOfSplit(h: Hittable, span: nat)
    requires h.BVHNode? && span > 2
    ensures Leaves(h, span) == Leaves(h.left, span / 2) + Leaves(h.right, span - span / 2)
  {
  }

  /** The same answer for the same group. */
  lemma AmongTransfer(a: Option<HitRecord>, a': Option<HitRecord>, objs: multiset<Hittable>, objs': multiset<Hittable>,
                      r: Ray, iv: Interval, sqrt: real -> real)
    requires a == a' && objs == objs'
    requires NearestAmong(a, objs, r, iv, sqrt)
    ensures NearestAmong(a', objs', r, iv, sqrt)
  {
  }

  /** A node whose box is the union of its children's boxes, over children that satisfy the
      conditions, satisfies them too and answers the nearer of its children's hits. */
  lemma JoinBoxed(h: Hittable, r: Ray, iv: Interval, sqrt: real -> real)
    requires h.BVHNode? && h.bbox == Boxes.Union(h.left.bbox, h.right.bbox)
    requires Boxed(h.left, r, iv, sqrt) && Boxed(h.right, r, iv, sqrt)
    ensures Boxed(h, r, iv, sqrt)
    ensures Hittables.Hit(h, r, iv, sqrt) == Nearer(Hittables.Hit(h.left, r, iv, sqrt), Hittables.Hit(h.right, r, iv, sqrt))
  {
    UnionEncloses(h.left.bbox, h.right.bbox);
    HitInsideEnclosing(h.bbox, h.left.bbox, h.left, r, iv, sqrt);
    HitInsideEnclosing(h.bbox, h.right.bbox, h.right, r, iv, sqrt);
    NodeBoxed(h, r, iv, sqrt);
    NodeHitIsNearer(h, r, iv, sqrt);
  }

  /** The objects of [start, end) and the leaves of the tree built over them are the same,
      so the conditions carry over. */
  lemma LeavesBoxed(objects: seq<Hittable>, start: nat, end: nat, axisAt: (nat, nat) -> int, r: Ray, iv: Interval, sqrt: real -> real)
    requires start < end <= |objects|
    requires forall i :: start <= i < end ==> Boxed(objects[i], r, iv, sqrt)
    ensures forall x :: x in Leaves(BVH(objects, start, end, axisAt), end - start) ==> Boxed(x, r, iv, sqrt)
  {
    BuiltLeaves(objects, start, end, axisAt);
    forall x | x in Leaves(BVH(objects, start, end, axisAt), end - start)
      ensures Boxed(x, r, iv, sqrt)
    {
      var i := InRange(objects, start, end, x);
    }
  }

  /** The nearest of the hits of a sequence of objects, as the scan of `HittableList::hit`
      computes it, is the nearest hit of the objects as a group. */
  lemma ScanAmong(objs: seq<Hittable>, r: Ray, iv: Interval, sqrt: real -> real)
    ensures NearestAmong(NearestOf(ObjectHits(objs, r, iv, sqrt)), multiset(objs), r, iv, sqrt)
  {
    var hits := ObjectHits(objs, r, iv, sqrt);
    var res := NearestOf(hits);
    NearestOfIsFirstMinimum(hits);
    if res.Some? {
      var k :| 0 <= k < |hits| && hits[k] == res &&
               (forall j :: 0 <= j < k && hits[j].Some? ==> hits[j].value.t > res.value.t);
      assert objs[k] in multiset(objs);
    }
    forall x | x in multiset(objs) && Hittables.Hit(x, r, iv, sqrt).Some?
      ensures res.Some? && res.value.t <= Hittables.Hit(x, r, iv, sqrt).value.t
    {
      var k :| 0 <= k < |objs| && objs[k] == x;
      assert hits[k] == Hittables.Hit(x, r, iv, sqrt);
    }
  }

  /** Two nearest hits of the same group are at the same parameter. */
  lemma AmongAgree(a: Option<HitRecord>, b: Option<HitRecord>, objs: multiset<Hittable>, r: Ray, iv: Interval, sqrt: real -> real)
    requires NearestAmong(a, objs, r, iv, sqrt) && NearestAmong(b, objs, r, iv, sqrt)
    ensures a.Some? <==> b.Some?
    ensures a.Some? ==> a.value.t == b.value.t
  {
    if a.Some? {
      var x :| x in objs && Hittables.Hit(x, r, iv, sqrt) == a;
      var y :| y in objs && Hittables.Hit(y, r, iv, sqrt) == b;
    }
  }

  /** `BVHNode(objects, start, end)` and the linear scan of `HittableList::hit` over the
      same objects agree: the tree is hit exactly when the list is, at the same parameter,
      provided every object narrows, has no NaN bound and is hit only inside its box. The
      tree then meets these conditions itself, so it can be put in a list or another tree. */
  lemma BVHMatchesScan(objects: seq<Hittable>, start: nat, end: nat, axisAt: (nat, nat) -> int,
                       r: Ray, iv: Interval, sqrt: real -> real, box: AABB)
    requires start < end <= |objects|
    requires forall i :: start <= i < end ==> Boxed(objects[i], r, iv, sqrt)
    ensures var tree, list := Hittables.Hit(BVH(objects, start, end, axisAt), r, iv, sqrt), Hittables.Hit(List(objects[start..end], box), r, iv, sqrt);
            (tree.Some? <==> list.Some?) && (tree.Some? ==> tree.value.t == list.value.t)
    ensures Boxed(BVH(objects, start, end, axisAt), r, iv, sqrt)
  {
    var node, span := BVH(objects, start, end, axisAt), end - start;
    var range := objects[start..end];
    BuiltLeaves(objects, start, end, axisAt);
    LeavesBoxed(objects, start, end, axisAt, r, iv, sqrt);
    ShapedNearest(node, span, r, iv, sqrt);
    ListNearest(List(range, box), r, iv, sqrt);
    ScanAmong(range, r, iv, sqrt);
    AmongAgree(Hittables.Hit(node, r, iv, sqrt), NearestOf(ObjectHits(range, r, iv, sqrt)), multiset(range), r, iv, sqrt);
  }

  /** The scenes put the tree in a list of its own (`HittableList(make_shared<BVHNode>(world))`):
      the list answers exactly what the tree answers. */
  lemma WorldOfTree(tree: Hittable, r: Ray, iv: Interval, sqrt: real -> real)
    requires Narrows(tree, r, iv, sqrt)
    ensures Hittables.Hit(List([tree], tree.bbox), r, iv, sqrt) == Hittables.Hit(tree, r, iv, sqrt)
  {
    var hits := ObjectHits([tree], r, iv, sqrt);
    ListNearest(List([tree], tree.bbox), r, iv, sqrt);
    assert hits[..0] == [];
  }

  // ---- the objects of the scenes meet the conditions ----

  /** A quad built with the four-corner box narrows, has finite bounds and is hit only
      inside its box. */
  lemma QuadBoxed(q: Vec3, u: Vec3, v: Vec3, scale: real, mat: Material, r: Ray, iv: Interval, sqrt: real -> real)
    requires Cross(u, v) != Zero && scale != 0.0
    ensures Boxed(MakeQuad(q, u, v, Scale(Cross(u, v), scale), mat), r, iv, sqrt)
  {
    var qd := MakeQuad(q, u, v, Scale(Cross(u, v), scale), mat);
    QuadNarrows(qd, r, iv, sqrt);
    FullQuadBoxNoNaN(q, u, v);
    FullQuadBoxHoldsHits(q, u, v, scale, mat, r, iv);
  }

  /** A coordinate of a point at distance |radius| from the centre is within |radius| of
      the centre's. */
  lemma CoordinateOnSphere(a: real, b: real, c: real, radius: real)
    requires a * a + b * b + c * c == radius * radius
    ensures -Abs(radius) <= a <= Abs(radius)
  {
    var m := Abs(radius);
    assert m * m == radius * radius;
    SquareNonNegative(b);
    SquareNonNegative(c);
    assert a * a <= m * m;
    if a > m {
      SquareAbove(a, m);
    } else if a < -m {
      SquareAbove(-a, m);
    }
  }

  lemma SquareNonNegative(x: real)
    ensures x * x >= 0.0
  {
    if x < 0.0 { PositiveProduct(-x, -x); }
  }

  lemma PositiveProduct(x: real, y: real)
    requires x > 0.0 && y > 0.0
    ensures x * y > 0.0
  {
  }

  /** Squaring is strictly increasing on the non-negative reals. */
  lemma SquareAbove(x: real, m: real)
    requires 0.0 <= m < x
    ensures m * m < x * x
  {
    PositiveProduct(x - m, x + m);
    assert x * x - m * m == (x - m) * (x + m);
  }

  /** A static sphere narrows, has finite bounds and, with exact square roots, is hit only
      on its surface, which its box centre -/+ (r, r, r) holds. */
  lemma StaticSphereBoxed(radius: real, position: Vec3, mat: Material, r: Ray, iv: Interval, sqrt: real -> real)
    requires ExactSqrt(sqrt)
    ensures Boxed(MakeSphere(radius, position, mat), r, iv, sqrt)
  {
    var s := MakeSphere(radius, position, mat);
    SphereNarrows(s, r, iv, sqrt);
    StaticSphereNoNaN(radius, position, mat);
    StaticSphereHitInside(radius, position, mat, r, iv, sqrt);
  }

  lemma StaticSphereHitInside(radius: real, position: Vec3, mat: Material, r: Ray, iv: Interval, sqrt: real -> real)
    requires ExactSqrt(sqrt)
    ensures var s := MakeSphere(radius, position, mat);
            HitInside(s.bbox, s, r, iv, sqrt)
  {
    var s := MakeSphere(radius, position, mat);
    StaticSphereHitOnSurface(s, r, iv, sqrt);
    SurfaceHitInside(s, r, iv, sqrt, position, radius, mat);
  }

  /** A hit, if any, lies at distance |radius| from c. */
  ghost predicate OnSurface(res: Option<HitRecord>, r: Ray, c: Vec3, radius: real)
  {
    res.Some? ==> LengthSq(Vectors.Sub(At(r, res.value.t), c)) == radius * radius
  }

  /** An object hit only at distance |radius| from c is hit only inside the box of the
      static sphere of that centre and radius. */
  lemma SurfaceHitInside(h: Hittable, r: Ray, iv: Interval, sqrt: real -> real, c: Vec3, radius: real, mat: Material)
    requires h.bbox == MakeSphere(radius, c, mat).bbox
    requires OnSurface(Hittables.Hit(h, r, iv, sqrt), r, c, radius)
    ensures HitInside(h.bbox, h, r, iv, sqrt)
  {
    var res := Hittables.Hit(h, r, iv, sqrt);
    if res.Some? {
      SurfaceInStaticBox(radius, c, mat, At(r, res.value.t));
    }
  }

  /** With exact square roots, a static sphere is hit only at distance |radius| from its
      centre. */
  lemma StaticSphereHitOnSurface(s: Hittable, r: Ray, iv: Interval, sqrt: real -> real)
    requires s.Sphere? && !s.isMoving && ExactSqrt(sqrt)
    ensures OnSurface(Hittables.Hit(s, r, iv, sqrt), r, s.position, s.radius)
  {
    SphereHitOnSurface(s, r, iv, sqrt);
  }

  lemma StaticSphereNoNaN(radius: real, position: Vec3, mat: Material)
    ensures NoNaN(MakeSphere(radius, position, mat).bbox)
  {
    forall k | 0 <= k < 3
      ensures IsNumber(AxisAt(MakeSphere(radius, position, mat).bbox, k).min)
      ensures IsNumber(AxisAt(MakeSphere(radius, position, mat).bbox, k).max)
    {
      StaticSphereBox(radius, position, mat, k);
    }
  }

  /** A point at distance |radius| from the centre lies in the static sphere's box. */
  lemma SurfaceInStaticBox(radius: real, position: Vec3, mat: Material, p: Vec3)
    requires LengthSq(Vectors.Sub(p, position)) == radius * radius
    ensures Contains(MakeSphere(radius, position, mat).bbox, p)
  {
    var d := Vectors.Sub(p, position);
    CoordinateOnSphere(d.x, d.y, d.z, radius);
    CoordinateOnSphere(d.y, d.z, d.x, radius);
    CoordinateOnSphere(d.z, d.x, d.y, radius);
    forall k | 0 <= k < 3
      ensures Within(AxisAt(MakeSphere(radius, position, mat).bbox, k), Finite(Component(p, k)))
    {
      StaticSphereBox(radius, position, mat, k);
    }
  }

  /** A single quad in a list is hit exactly where the quad itself is. */
  lemma LoneQuadListed(qd: Hittable, r: Ray, iv: Interval, sqrt: real -> real)
    requires qd.Quad?
    ensures Hittables.Hit(List([qd], qd.bbox), r, iv, sqrt) == QuadHit(qd, r, iv)
  {
    QuadNarrows(qd, r, iv, sqrt);
    WorldOfTree(qd, r, iv, sqrt);
  }

  /** The tree over one object is a node with that object on both sides and its box; a ray
      that misses the box misses the tree. */
  lemma LoneTreeCulls(h: Hittable, box: AABB, axisAt: (nat, nat) -> int, r: Ray, iv: Interval, sqrt: real -> real)
    requires h.bbox == box && !SlabHit(box, r, iv)
    ensures Hittables.Hit(BVH([h], 0, 1, axisAt), r, iv, sqrt).None?
  {
    assert BVH([h], 0, 1, axisAt) == Node(h, h);
    BoxUnionIdempotent(h.bbox);
  }

  /** The tree over the single object h loses the hit the list over h reports. */
  ghost predicate TreeLosesHit(h: Hittable, axisAt: (nat, nat) -> int, r: Ray, iv: Interval, sqrt: real -> real)
  {
    Hittables.Hit(List([h], h.bbox), r, iv, sqrt).Some? && Hittables.Hit(BVH([h], 0, 1, axisAt), r, iv, sqrt).None?
  }

  /** A quad the ray hits but whose box the ray misses is lost by the tree over it alone. */
  lemma BoxMissLosesHit(qd: Hittable, box: AABB, axisAt: (nat, nat) -> int, r: Ray, iv: Interval, sqrt: real -> real)
    requires qd.Quad? && qd.bbox == box
    requires QuadHit(qd, r, iv).Some? && !SlabHit(box, r, iv)
    ensures TreeLosesHit(qd, axisAt, r, iv, sqrt)
  {
    LoneQuadListed(qd, r, iv, sqrt);
    LoneTreeCulls(qd, box, axisAt, r, iv, sqrt);
  }

  /** The skewed quad Q = 0, u = (1, 1, 0), v = (1, -1, 0) boxed from Q to Q + u + v only
      is hit by the ray down through (0.5, 0.3), but the ray misses that box. */
  lemma SkewedQuadCulled(qd: Hittable, u: Vec3, v: Vec3, axisAt: (nat, nat) -> int, sqrt: real -> real)
    requires u == Vec3(1.0, 1.0, 0.0) && v == Vec3(1.0, -1.0, 0.0)
    requires IsSkewedQuad(qd) && qd.bbox == QuadBox(Zero, u, v)
    ensures TreeLosesHit(qd, axisAt, SkewedRay(), SkewedInterval(), sqrt)
  {
    SkewedQuadHit(qd);
    SkewedQuadEscapesBox(u, v);
    BoxMissLosesHit(qd, QuadBox(Zero, u, v), axisAt, SkewedRay(), SkewedInterval(), sqrt);
  }

  /** With the box `Quad::setBoundingBox` gives (Q to Q + u + v only), the tree over one
      skewed quad built by the quad constructor loses a hit the plain list reports. */
  lemma AsWrittenSkewedQuadCulled(u: Vec3, v: Vec3, n: Vec3, mat: Material, axisAt: (nat, nat) -> int, sqrt: real -> real)
    requires u == Vec3(1.0, 1.0, 0.0) && v == Vec3(1.0, -1.0, 0.0) && n == Vec3(0.0, 0.0, -1.0)
    ensures n == Scale(Cross(u, v), 0.5)
    ensures TreeLosesHit(MakeQuadAsWritten(Zero, u, v, n, mat), axisAt, SkewedRay(), SkewedInterval(), sqrt)
  {
    SkewedQuadFields(u, v, n, mat);
    SkewedQuadCulled(MakeQuadAsWritten(Zero, u, v, n, mat), u, v, axisAt, sqrt);
  }
}
