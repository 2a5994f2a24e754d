/** `HittableList`: a growable list of scene objects with an incrementally grown bounding
    box, its closest-hit loop, and the `box` helper that builds a cuboid from six quads. */
module HittableLists {
  import opened Doubles
  import opened Vectors
  import opened Intervals
  import opened Boxes
  import opened Hittables
  import ClosestHit

  /** The box a list ends with when the objects `added` are added, in order, to a list whose
      box was `start`: each `add` takes the union of the box so far and the object's box. */
  function AddedBoxes(start: AABB, added: seq<Hittable>): AABB
  {
    if |added| == 0 then start
    else Boxes.Union(AddedBoxes(start, added[..|added| - 1]), added[|added| - 1].bbox)
  }

  class HittableList {
    var objects: seq<Hittable>
    var bbox: AABB

    /** `HittableList()`: no objects and the default box. */
    constructor ()
      ensures objects == [] && bbox == DefaultBox
    {
      objects := [];
      bbox := DefaultBox;
    }

    /** `HittableList(obj)`: adds the object, then replaces the box by the object's own. */
    constructor Single(obj: Hittable)
      ensures objects == [obj] && bbox == obj.bbox
    {
      objects := [];
      bbox := DefaultBox;
      new;
      Add(obj);
      bbox := obj.bbox;
    }

    /** `add`: appends the object, keeping the earlier ones in order, and grows the box by
        the object's box. */
    method Add(obj: Hittable)
      modifies this
      ensures objects == old(objects) + [obj]
      ensures bbox == Boxes.Union(old(bbox), obj.bbox)
    {
      objects := objects + [obj];
      bbox := Boxes.Union(bbox, obj.bbox);
    }

    /** `clear`: no objects, and the box back to the default one. */
    method Clear()
      modifies this
      ensures objects == [] && bbox == DefaultBox
    {
      objects := [];
      bbox := DefaultBox;
    }

    /** `HittableList::hit`: every object is asked for a hit strictly below the closest
        one so far; a hit lowers the bound and is copied into the record. The answer is
        the list's hit as a scene object, and the record is left as it was when nothing
        is hit. */
    method Hit(r: Ray, iv: Interval, sqrt: real -> real, record: HitRecord) returns (hit: bool, rec: HitRecord)
      ensures hit == Hittables.Hit(List(objects, bbox), r, iv, sqrt).Some?
      ensures hit ==> rec == Hittables.Hit(List(objects, bbox), r, iv, sqrt).value
      ensures !hit ==> rec == record
    {
      var self := List(objects, bbox);
      hit := false;
      rec := record;
      var closest := iv.max;
      var i := 0;
      while i < |objects|
        invariant 0 <= i <= |objects|
        invariant !hit ==> closest == iv.max && rec == record
        invariant hit ==> closest == Finite(rec.t) && Surround(iv, closest) && Dot(rec.normal, r.dir) <= 0.0
        invariant ScanFrom(self, i, r, iv, closest, if hit then Some(rec) else None, sqrt) == Hittables.Hit(self, r, iv, sqrt)
      {
        var found := Hittables.Hit(objects[i], r, Interval(iv.min, closest), sqrt);
        ClosestHit.ScanFromStep(self, i, r, iv, closest, if hit then Some(rec) else None, sqrt);
        if found.Some? {
          hit := true;
          closest := Finite(found.value.t);
          rec := found.value;
        }
        i := i + 1;
      }
    }
  }

  /** Adding to a NaN-free box keeps it NaN-free, and the final box encloses the starting
      box and the box of every object added. */
  lemma {:induction false} AddedBoxesEnclose(start: AABB, added: seq<Hittable>)
    requires NoNaN(start)
    requires forall i :: 0 <= i < |added| ==> NoNaN(added[i].bbox)
    ensures NoNaN(AddedBoxes(start, added))
    ensures Encloses(AddedBoxes(start, added), start)
    ensures forall i :: 0 <= i < |added| ==> Encloses(AddedBoxes(start, added), added[i].bbox)
  {
    if |added| == 0 {
      EnclosesItself(start);
    } else {
      var n := |added| - 1;
      var front := added[..n];
      AddedBoxesEnclose(start, front);
      var before := AddedBoxes(start, front);
      UnionEncloses(before, added[n].bbox);
      EnclosesTransitive(AddedBoxes(start, added), before, start);
      forall i | 0 <= i < |added|
        ensures Encloses(AddedBoxes(start, added), added[i].bbox)
      {
        if i < n {
          assert front[i] == added[i];
          EnclosesTransitive(AddedBoxes(start, added), before, added[i].bbox);
        }
      }
    }
  }

  /** A NaN-free box encloses itself. */
  lemma EnclosesItself(b: AABB)
    requires NoNaN(b)
    ensures Encloses(b, b)
  {
    forall k | 0 <= k < 3
      ensures Le(AxisAt(b, k).min, AxisAt(b, k).min) && Le(AxisAt(b, k).max, AxisAt(b, k).max)
    {
      LtTrichotomy(AxisAt(b, k).min, AxisAt(b, k).min);
      LtTrichotomy(AxisAt(b, k).max, AxisAt(b, k).max);
    }
  }

  /** A list that starts from the default box keeps the default box, the whole space, however
      many NaN-free objects are added: the default intervals absorb every union. */
  lemma {:induction false} AddedToDefaultBox(added: seq<Hittable>)
    requires forall i :: 0 <= i < |added| ==> NoNaN(added[i].bbox)
    ensures AddedBoxes(DefaultBox, added) == DefaultBox
  {
    if |added| > 0 {
      AddedToDefaultBox(added[..|added| - 1]);
      DefaultBoxAbsorbs(added[|added| - 1].bbox);
    }
  }

  // ---- the `box` helper ----

  /** The corner of least coordinates of the box with corners a and b. */
  function LowCorner(a: Vec3, b: Vec3): Vec3
  {
    Vec3(MinOf(a.x, b.x), MinOf(a.y, b.y), MinOf(a.z, b.z))
  }

  /** The corner of greatest coordinates of the box with corners a and b. */
  function HighCorner(a: Vec3, b: Vec3): Vec3
  {
    Vec3(MaxOf(a.x, b.x), MaxOf(a.y, b.y), MaxOf(a.z, b.z))
  }

  /** The edge vectors `dx`, `dy`, `dz` of the box. */
  function EdgeX(lo: Vec3, hi: Vec3): Vec3 { Vec3(hi.x - lo.x, 0.0, 0.0) }
  function EdgeY(lo: Vec3, hi: Vec3): Vec3 { Vec3(0.0, hi.y - lo.y, 0.0) }
  function EdgeZ(lo: Vec3, hi: Vec3): Vec3 { Vec3(0.0, 0.0, hi.z - lo.z) }

  /** At least two of the coordinates are zero. */
  predicate AxisAligned(n: Vec3)
  {
    (n.x == 0.0 && n.y == 0.0) || (n.y == 0.0 && n.z == 0.0) || (n.x == 0.0 && n.z == 0.0)
  }

  function SignOf(x: real): real { if x > 0.0 then 1.0 else if x < 0.0 then -1.0 else 0.0 }

  /** The normalised form of an axis-aligned vector, computed without a square root. */
  function AxisUnit(n: Vec3): Vec3 { Vec3(SignOf(n.x), SignOf(n.y), SignOf(n.z)) }

  /** The length of an axis-aligned vector. */
  function AxisLength(n: Vec3): real { Abs(n.x) + Abs(n.y) + Abs(n.z) }

  /** The origin and edges a quad side is built from. */
  datatype Frame = Frame(q: Vec3, u: Vec3, v: Vec3)

  /** The origins and edges of the six sides `box` adds, in the order front, right, back,
      left, top, bottom. */
  function SideFrames(a: Vec3, b: Vec3): (fs: seq<Frame>)
    ensures |fs| == 6
  {
    FramesBetween(LowCorner(a, b), HighCorner(a, b))
  }

  /** The side frames of the box [lo, hi]. */
  function FramesBetween(lo: Vec3, hi: Vec3): (fs: seq<Frame>)
    ensures |fs| == 6
  {
    var dx, dy, dz := EdgeX(lo, hi), EdgeY(lo, hi), EdgeZ(lo, hi);
    [ Frame(Vec3(lo.x, lo.y, hi.z), dx, dy),
      Frame(Vec3(hi.x, lo.y, hi.z), Vectors.Neg(dz), dy),
      Frame(Vec3(hi.x, lo.y, lo.z), Vectors.Neg(dx), dy),
      Frame(Vec3(lo.x, lo.y, lo.z), dz, dy),
      Frame(Vec3(lo.x, hi.y, hi.z), dx, Vectors.Neg(dz)),
      Frame(Vec3(lo.x, lo.y, lo.z), dx, dz) ]
  }

  /** A quad side of the box, built by the quad constructor as written, with the normalised
      `u x v` of its edges as its normal. For a non-degenerate side the coordinate vector w
      is that unit normal, so the side inherits the constructor's scaling of alpha and beta. */
  function Side(f: Frame, mat: Material): (h: Hittable)
    ensures h.Quad? && h.q == f.q && h.u == f.u && h.v == f.v && h.material == mat
    ensures h.normal == AxisUnit(Cross(f.u, f.v))
    ensures h.d == Dot(h.normal, f.q) && h.bbox == QuadBox(f.q, f.u, f.v)
  {
    MakeQuadAsWritten(f.q, f.u, f.v, AxisUnit(Cross(f.u, f.v)), mat)
  }

  /** The normalised form of a non-zero axis-aligned vector is its own coordinate vector
      n / (n . n), so a side's w is its unit normal. */
  lemma AxisUnitCoordinateVector(n: Vec3)
    requires AxisAligned(n) && n != Zero
    ensures CoordinateVector(AxisUnit(n)) == AxisUnit(n)
  {
    assert Dot(AxisUnit(n), AxisUnit(n)) == 1.0;
  }

  /** Every side of a box with positive extents has w equal to its unit normal, as the quad
      constructor as written gives it. */
  lemma SidesCoordinateVectorAsWritten(a: Vec3, b: Vec3, mat: Material)
    requires a.x != b.x && a.y != b.y && a.z != b.z
    ensures var sides := BoxSides(a, b, mat);
            forall i :: 0 <= i < 6 ==> sides[i].w == sides[i].normal && LengthSq(sides[i].normal) == 1.0
  {
    var sides, fs := BoxSides(a, b, mat), SideFrames(a, b);
    forall i | 0 <= i < 6
      ensures sides[i].w == sides[i].normal && LengthSq(sides[i].normal) == 1.0
    {
      var n := Cross(fs[i].u, fs[i].v);
      FramesAxisAligned(a, b, i);
      CrossAxisAligned(fs[i].u, fs[i].v);
      SideFrameNonDegenerate(a, b, i);
      AxisUnitCoordinateVector(n);
      AxisUnitNormalises(n);
    }
  }

  /** With positive extents on every axis, no side's edges are parallel. */
  lemma SideFrameNonDegenerate(a: Vec3, b: Vec3, i: nat)
    requires a.x != b.x && a.y != b.y && a.z != b.z && i < 6
    ensures Cross(SideFrames(a, b)[i].u, SideFrames(a, b)[i].v) != Zero
  {
    var lo, hi := LowCorner(a, b), HighCorner(a, b);
    assert hi.x - lo.x > 0.0 && hi.y - lo.y > 0.0 && hi.z - lo.z > 0.0;
    var f := SideFrames(a, b)[i];
    var n := Cross(f.u, f.v);
    if i == 0 || i == 2 { assert n.z != 0.0; }
    else if i == 1 || i == 3 { assert n.x != 0.0; }
    else { assert n.y != 0.0; }
  }

  /** The six quads `box` adds. */
  function BoxSides(a: Vec3, b: Vec3, mat: Material): (sides: seq<Hittable>)
    ensures |sides| == 6
    ensures forall i :: 0 <= i < 6 ==> sides[i] == Side(SideFrames(a, b)[i], mat)
  {
    var fs := SideFrames(a, b);
    seq(6, i requires 0 <= i < 6 => Side(fs[i], mat))
  }

  /** `box`: a new default list to which the six sides are added one by one. */
  method MakeBox(a: Vec3, b: Vec3, mat: Material) returns (sides: HittableList)
    ensures fresh(sides)
    ensures sides.objects == BoxSides(a, b, mat)
    ensures sides.bbox == AddedBoxes(DefaultBox, BoxSides(a, b, mat))
  {
    var all := BoxSides(a, b, mat);
    sides := new HittableList();
    sides.Add(all[0]);
    sides.Add(all[1]);
    sides.Add(all[2]);
    sides.Add(all[3]);
    sides.Add(all[4]);
    sides.Add(all[5]);
    SixAdded(all);
  }

  /** Adding the six objects of `all` one by one to the default list gives `all`, with the
      boxes added in the same order. */
  lemma SixAdded(all: seq<Hittable>)
    requires |all| == 6
    ensures [] + [all[0]] + [all[1]] + [all[2]] + [all[3]] + [all[4]] + [all[5]] == all
    ensures AddedBoxes(DefaultBox, all) ==
            Boxes.Union(Boxes.Union(Boxes.Union(Boxes.Union(Boxes.Union(Boxes.Union(
              DefaultBox, all[0].bbox), all[1].bbox), all[2].bbox), all[3].bbox), all[4].bbox), all[5].bbox)
  {
    assert all[..6] == all;
    assert all[..0] == [];
    AddedPrefix(DefaultBox, all, 0);
    AddedPrefix(DefaultBox, all, 1);
    AddedPrefix(DefaultBox, all, 2);
    AddedPrefix(DefaultBox, all, 3);
    AddedPrefix(DefaultBox, all, 4);
    AddedPrefix(DefaultBox, all, 5);
  }

  /** Adding the first k + 1 objects is adding the first k, then object k. */
  lemma AddedPrefix(start: AABB, all: seq<Hittable>, k: nat)
    requires k < |all|
    ensures AddedBoxes(start, all[..k + 1]) == Boxes.Union(AddedBoxes(start, all[..k]), all[k].bbox)
  {
    assert all[..k + 1][..k] == all[..k];
  }

  /** The corners are ordered on every axis, whatever the order of a and b, and each
      coordinate comes from a or b. */
  lemma CornersOrdered(a: Vec3, b: Vec3)
    ensures LowCorner(a, b) == LowCorner(b, a) && HighCorner(a, b) == HighCorner(b, a)
    ensures forall k :: 0 <= k < 3 ==> Component(LowCorner(a, b), k) <= Component(HighCorner(a, b), k)
    ensures forall k :: 0 <= k < 3 ==>
              (Component(LowCorner(a, b), k) == Component(a, k) && Component(HighCorner(a, b), k) == Component(b, k)) ||
              (Component(LowCorner(a, b), k) == Component(b, k) && Component(HighCorner(a, b), k) == Component(a, k))
  {
  }

  /** `dx`, `dy`, `dz` lie along x, y and z, with lengths the box's extents |a - b| on those
      axes. */
  lemma EdgesAlongAxes(a: Vec3, b: Vec3)
    ensures var lo, hi := LowCorner(a, b), HighCorner(a, b);
            EdgeX(lo, hi) == Vec3(Abs(a.x - b.x), 0.0, 0.0) &&
            EdgeY(lo, hi) == Vec3(0.0, Abs(a.y - b.y), 0.0) &&
            EdgeZ(lo, hi) == Vec3(0.0, 0.0, Abs(a.z - b.z))
  {
  }

  /** A corner of the box [lo, hi]: every coordinate is the low or the high one. */
  predicate IsCorner(p: Vec3, lo: Vec3, hi: Vec3)
  {
    (p.x == lo.x || p.x == hi.x) && (p.y == lo.y || p.y == hi.y) && (p.z == lo.z || p.z == hi.z)
  }

  /** Side i spans the face on which coordinate k is fixed at `fixed`: its two edges have no
      k-component and its origin sits on that face. */
  predicate FrameOnFace(f: Frame, k: nat, fixed: real)
    requires k < 3
  {
    Component(f.u, k) == 0.0 && Component(f.v, k) == 0.0 && Component(f.q, k) == fixed
  }

  /** A side runs from one corner of the box, Q, to another, Q + u + v. */
  predicate SpansCorners(f: Frame, lo: Vec3, hi: Vec3)
  {
    IsCorner(f.q, lo, hi) && IsCorner(Vectors.Add(Vectors.Add(f.q, f.u), f.v), lo, hi)
  }

  /** Each side of the box [lo, hi] runs from corner to corner, and the sides lie on the
      faces z = max, x = max, z = min, x = min, y = max and y = min. */
  lemma FramesOnFaces(lo: Vec3, hi: Vec3)
    ensures var fs := FramesBetween(lo, hi);
            (forall i :: 0 <= i < 6 ==> SpansCorners(fs[i], lo, hi)) &&
            FrameOnFace(fs[0], 2, hi.z) && FrameOnFace(fs[1], 0, hi.x) && FrameOnFace(fs[2], 2, lo.z) &&
            FrameOnFace(fs[3], 0, lo.x) && FrameOnFace(fs[4], 1, hi.y) && FrameOnFace(fs[5], 1, lo.y)
  {
    var fs := FramesBetween(lo, hi);
    assert SpansCorners(fs[0], lo, hi);
    assert SpansCorners(fs[1], lo, hi);
    assert SpansCorners(fs[2], lo, hi);
    assert SpansCorners(fs[3], lo, hi);
    assert SpansCorners(fs[4], lo, hi);
    assert SpansCorners(fs[5], lo, hi);
  }

  /** The quads `box` adds share the material, run from corner to corner of the box with
      corners a and b, and lie on its six faces in the order front, right, back, left, top,
      bottom. */
  lemma SidesOnFaces(a: Vec3, b: Vec3, mat: Material)
    ensures var sides, lo, hi := BoxSides(a, b, mat), LowCorner(a, b), HighCorner(a, b);
            (forall i :: 0 <= i < 6 ==>
               sides[i].Quad? && sides[i].material == mat &&
               SpansCorners(Frame(sides[i].q, sides[i].u, sides[i].v), lo, hi)) &&
            FrameOnFace(Frame(sides[0].q, sides[0].u, sides[0].v), 2, hi.z) &&
            FrameOnFace(Frame(sides[1].q, sides[1].u, sides[1].v), 0, hi.x) &&
            FrameOnFace(Frame(sides[2].q, sides[2].u, sides[2].v), 2, lo.z) &&
            FrameOnFace(Frame(sides[3].q, sides[3].u, sides[3].v), 0, lo.x) &&
            FrameOnFace(Frame(sides[4].q, sides[4].u, sides[4].v), 1, hi.y) &&
            FrameOnFace(Frame(sides[5].q, sides[5].u, sides[5].v), 1, lo.y)
  {
    var sides, fs := BoxSides(a, b, mat), SideFrames(a, b);
    FramesOnFaces(LowCorner(a, b), HighCorner(a, b));
    forall i | 0 <= i < 6
      ensures Frame(sides[i].q, sides[i].u, sides[i].v) == fs[i]
    {
    }
  }

  /** The cross product of two axis-aligned vectors is axis-aligned. */
  lemma CrossAxisAligned(u: Vec3, v: Vec3)
    requires AxisAligned(u) && AxisAligned(v)
    ensures AxisAligned(Cross(u, v))
  {
  }

  /** For an axis-aligned vector, `AxisUnit` is its normalisation: a unit vector (unless the
      vector is zero) that scales back to it by its length. */
  lemma AxisUnitNormalises(n: Vec3)
    requires AxisAligned(n)
    ensures Scale(AxisUnit(n), AxisLength(n)) == n
    ensures n != Zero ==> AxisLength(n) > 0.0 && LengthSq(AxisUnit(n)) == 1.0
  {
  }

  /** Every side of the box has as its normal the normalised `u x v` of its edges. */
  lemma SideNormalsNormalised(a: Vec3, b: Vec3, mat: Material)
    ensures var sides := BoxSides(a, b, mat);
            forall i :: 0 <= i < 6 ==>
              AxisAligned(Cross(sides[i].u, sides[i].v)) &&
              Scale(sides[i].normal, AxisLength(Cross(sides[i].u, sides[i].v))) == Cross(sides[i].u, sides[i].v)
  {
    var sides, fs := BoxSides(a, b, mat), SideFrames(a, b);
    forall i | 0 <= i < 6
      ensures AxisAligned(Cross(sides[i].u, sides[i].v))
      ensures Scale(sides[i].normal, AxisLength(Cross(sides[i].u, sides[i].v))) == Cross(sides[i].u, sides[i].v)
    {
      FramesAxisAligned(a, b, i);
      CrossAxisAligned(fs[i].u, fs[i].v);
      AxisUnitNormalises(Cross(fs[i].u, fs[i].v));
    }
  }

  /** Every edge of every side is axis-aligned. */
  lemma FramesAxisAligned(a: Vec3, b: Vec3, i: nat)
    requires i < 6
    ensures AxisAligned(SideFrames(a, b)[i].u) && AxisAligned(SideFrames(a, b)[i].v)
  {
  }

  /** A quad's box has no NaN bound: it holds its corner Q. */
  lemma QuadBoxNoNaN(q: Vec3, u: Vec3, v: Vec3)
    ensures NoNaN(QuadBox(q, u, v))
  {
    QuadBoxHoldsCorners(q, u, v);
    var box := QuadBox(q, u, v);
    forall k | 0 <= k < 3
      ensures IsNumber(AxisAt(box, k).min) && IsNumber(AxisAt(box, k).max)
    {
      assert Within(AxisAt(box, k), Finite(Component(q, k)));
    }
  }

  /** Since `box` starts from the default list, the list it returns has the whole space as
      its bounding box, whatever the corners. */
  lemma BoxListCoversSpace(a: Vec3, b: Vec3, mat: Material)
    ensures AddedBoxes(DefaultBox, BoxSides(a, b, mat)) == DefaultBox
  {
    var sides, fs := BoxSides(a, b, mat), SideFrames(a, b);
    forall i | 0 <= i < 6
      ensures NoNaN(sides[i].bbox)
    {
      QuadBoxNoNaN(fs[i].q, fs[i].u, fs[i].v);
    }
    AddedToDefaultBox(sides);
  }
}
