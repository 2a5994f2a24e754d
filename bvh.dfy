/** BVH construction: `BVHNode(objects, start, end)` picks an axis at random, orders the
    objects of [start, end) by the minimum of their boxes on that axis (a copy of the vector,
    sorted in place), splits the range at its middle and builds both halves; one object is
    both children, two objects are put in order without sorting. */
module Bvh {
  import opened Doubles
  import opened Intervals
  import opened Boxes
  import opened Hittables
  import HittableLists

  /** The key `compare` orders by: the minimum of the object's box on the axis. */
  function Key(h: Hittable, axis: nat): Double
    requires axis < 3
  {
    AxisAt(h.bbox, axis).min
  }

  /** `BVHNode::compare`: a strictly smaller key on the axis. */
  predicate Compare(a: Hittable, b: Hittable, axis: nat)
    requires axis < 3
  {
    Lt(Key(a, axis), Key(b, axis))
  }

  /** The axis the comparator chain selects: 0 and 1 pick x and y, anything else z. */
  function ChooseAxis(drawn: int): (axis: nat)
    ensures axis < 3
    ensures 0 <= drawn < 3 ==> axis == drawn
  {
    if drawn == 0 then 0 else if drawn == 1 then 1 else 2
  }

  // ---- the order of the sorted range ----

  /** No later element has a strictly smaller key than an earlier one. */
  predicate Sorted(s: seq<Hittable>, axis: nat)
    requires axis < 3
  {
    forall i, j :: 0 <= i < j < |s| ==> !Compare(s[j], s[i], axis)
  }

  /** Every key is a number (not NaN), so that the comparator is a strict weak order. */
  predicate NumberKeys(s: seq<Hittable>, axis: nat)
    requires axis < 3
  {
    forall i :: 0 <= i < |s| ==> IsNumber(Key(s[i], axis))
  }

  /** One step of insertion: x moves left past the elements whose key is strictly greater. */
  function Insert(sorted: seq<Hittable>, x: Hittable, axis: nat): (res: seq<Hittable>)
    requires axis < 3
    ensures |res| == |sorted| + 1
    decreases |sorted|
  {
    if |sorted| == 0 || !Compare(x, sorted[|sorted| - 1], axis) then sorted + [x]
    else Insert(sorted[..|sorted| - 1], x, axis) + [sorted[|sorted| - 1]]
  }

  /** The order the range is sorted into: insertion of each element in turn. `std::sort`
      leaves the order of equal keys unspecified; this is the order of a stable sort. */
  function SortSeq(s: seq<Hittable>, axis: nat): (res: seq<Hittable>)
    requires axis < 3
    ensures |res| == |s|
  {
    if |s| == 0 then [] else Insert(SortSeq(s[..|s| - 1], axis), s[|s| - 1], axis)
  }

  /** Inserting adds exactly x. */
  lemma {:induction false} InsertPermutes(sorted: seq<Hittable>, x: Hittable, axis: nat)
    requires axis < 3
    ensures multiset(Insert(sorted, x, axis)) == multiset(sorted) + multiset{x}
    decreases |sorted|
  {
    if |sorted| > 0 && Compare(x, sorted[|sorted| - 1], axis) {
      var n := |sorted| - 1;
      InsertPermutes(sorted[..n], x, axis);
      assert sorted == sorted[..n] + [sorted[n]];
    }
  }

  /** Sorting permutes the range. */
  lemma {:induction false} SortPermutes(s: seq<Hittable>, axis: nat)
    requires axis < 3
    ensures multiset(SortSeq(s, axis)) == multiset(s)
  {
    if |s| > 0 {
      var n := |s| - 1;
      SortPermutes(s[..n], axis);
      InsertPermutes(SortSeq(s[..n], axis), s[n], axis);
      assert s == s[..n] + [s[n]];
    }
  }

  /** For numbers, "not less than" is transitive. */
  lemma NotLessTransitive(a: Double, b: Double, c: Double)
    requires IsNumber(a) && IsNumber(b) && IsNumber(c)
    requires !Lt(a, b) && !Lt(b, c)
    ensures !Lt(a, c)
  {
    LtTrichotomy(a, b);
    LtTrichotomy(b, c);
    if Lt(a, c) {
      if Lt(b, a) { LtTransitive(b, a, c); }
    }
  }

  /** Inserting into a sorted sequence of number keys keeps it sorted. */
  lemma {:induction false} InsertSorted(sorted: seq<Hittable>, x: Hittable, axis: nat)
    requires axis < 3
    requires Sorted(sorted, axis) && NumberKeys(sorted, axis) && IsNumber(Key(x, axis))
    ensures Sorted(Insert(sorted, x, axis), axis)
    decreases |sorted|
  {
    var res := Insert(sorted, x, axis);
    if |sorted| == 0 {
    } else if !Compare(x, sorted[|sorted| - 1], axis) {
      var n := |sorted| - 1;
      forall i, j | 0 <= i < j < |res|
        ensures !Compare(res[j], res[i], axis)
      {
        if j == n + 1 && i < n {
          NotLessTransitive(Key(x, axis), Key(sorted[n], axis), Key(sorted[i], axis));
        }
      }
    } else {
      var n := |sorted| - 1;
      var front := sorted[..n];
      var last := sorted[n];
      InsertSorted(front, x, axis);
      InsertPermutes(front, x, axis);
      var ins := Insert(front, x, axis);
      forall i, j | 0 <= i < j < |res|
        ensures !Compare(res[j], res[i], axis)
      {
        if j == n + 1 {
          var e := ins[i];
          assert e in multiset(ins);
          if e != x {
            assert e in multiset(front);
            var k :| 0 <= k < n && front[k] == e;
            assert sorted[k] == e;
          } else {
            LtTrichotomy(Key(x, axis), Key(last, axis));
          }
        }
      }
    }
  }

  /** Sorting a range of number keys leaves it sorted. */
  lemma {:induction false} SortSorted(s: seq<Hittable>, axis: nat)
    requires axis < 3 && NumberKeys(s, axis)
    ensures Sorted(SortSeq(s, axis), axis)
  {
    if |s| > 0 {
      var n := |s| - 1;
      assert NumberKeys(s[..n], axis);
      SortSorted(s[..n], axis);
      SortPermutes(s[..n], axis);
      var sorted := SortSeq(s[..n], axis);
      forall i | 0 <= i < |sorted|
        ensures IsNumber(Key(sorted[i], axis))
      {
        assert sorted[i] in multiset(s[..n]);
      }
      InsertSorted(sorted, s[n], axis);
    }
  }

  // ---- sorting the copied range in place ----

  /** `std::sort` on [lo, hi) of the copied vector, as an insertion sort by swaps. */
  method SortRange(a: array<Hittable>, lo: nat, hi: nat, axis: nat)
    requires lo <= hi <= a.Length && axis < 3
    modifies a
    ensures a[..] == old(a[..])[..lo] + SortSeq(old(a[..])[lo..hi], axis) + old(a[..])[hi..]
  {
    ghost var orig := a[..];
    var i := lo;
    while i < hi
      invariant lo <= i <= hi
      invariant a[..] == orig[..lo] + SortSeq(orig[lo..i], axis) + orig[i..]
    {
      ghost var before := a[..];
      InsertAt(a, lo, i, axis);
      SortedOneMore(orig, lo, i, axis, before, a[..]);
      i := i + 1;
    }
    assert orig[lo..hi] == orig[lo..i];
  }

  /** Inserting the next element extends the sorted range by one. */
  lemma SortedOneMore(orig: seq<Hittable>, lo: nat, i: nat, axis: nat, before: seq<Hittable>, after: seq<Hittable>)
    requires lo <= i < |orig| && axis < 3
    requires before == orig[..lo] + SortSeq(orig[lo..i], axis) + orig[i..]
    requires |before| == |orig|
    requires after == before[..lo] + Insert(before[lo..i], before[i], axis) + before[i + 1..]
    ensures after == orig[..lo] + SortSeq(orig[lo..i + 1], axis) + orig[i + 1..]
  {
    Reassemble(orig, lo, i, SortSeq(orig[lo..i], axis), before);
    SortSnoc(orig[lo..i + 1], axis);
    assert orig[lo..i + 1][..i - lo] == orig[lo..i];
  }

  /** The array with the sorted prefix `sorted` of [lo, i) in place: its parts. */
  lemma Reassemble(orig: seq<Hittable>, lo: nat, i: nat, sorted: seq<Hittable>, a: seq<Hittable>)
    requires lo <= i < |orig| && |sorted| == i - lo
    requires a == orig[..lo] + sorted + orig[i..]
    ensures |a| == |orig| && a[lo..i] == sorted && a[i] == orig[i]
    ensures a[..lo] == orig[..lo] && a[i + 1..] == orig[i + 1..]
  {
  }

  /** One pass of insertion: a[i] moves left by swaps past the keys strictly greater than
      its own, within [lo, i]. */
  method InsertAt(a: array<Hittable>, lo: nat, i: nat, axis: nat)
    requires lo <= i < a.Length && axis < 3
    modifies a
    ensures a[..] == old(a[..])[..lo] + Insert(old(a[..])[lo..i], old(a[i]), axis) + old(a[..])[i + 1..]
  {
    ghost var orig := a[..];
    ghost var x := a[i];
    var j := i;
    while j > lo && Compare(a[j], a[j - 1], axis)
      invariant lo <= j <= i && |orig| == a.Length
      invariant a[..lo] == orig[..lo] && a[i + 1..] == orig[i + 1..]
      invariant a[j] == x
      invariant Insert(orig[lo..i], x, axis) == Insert(a[lo..j], x, axis) + a[j + 1..i + 1]
    {
      ghost var b := a[..];
      a[j], a[j - 1] := a[j - 1], a[j];
      assert a[..] == b[j - 1 := x][j := b[j - 1]];
      SwapKeepsInsert(b, lo, j, i, x, axis);
      j := j - 1;
    }
    InsertDone(a[lo..j], x, axis);
    Reassembled(a[..], orig, lo, j, i, x, axis);
  }

  /** Swapping x with its greater left neighbour keeps what the pass will end with. */
  lemma SwapKeepsInsert(b: seq<Hittable>, lo: nat, j: nat, i: nat, x: Hittable, axis: nat)
    requires lo < j <= i < |b| && axis < 3 && b[j] == x && Compare(x, b[j - 1], axis)
    ensures var c := b[j - 1 := x][j := b[j - 1]];
            c[..lo] == b[..lo] && c[i + 1..] == b[i + 1..] && c[j - 1] == x &&
            Insert(b[lo..j], x, axis) + b[j + 1..i + 1] == Insert(c[lo..j - 1], x, axis) + c[j..i + 1]
  {
    var c := b[j - 1 := x][j := b[j - 1]];
    InsertStep(b[lo..j], x, axis);
    assert b[lo..j][..j - 1 - lo] == b[lo..j - 1] == c[lo..j - 1];
    assert c[j..i + 1] == [b[j - 1]] + b[j + 1..i + 1];
  }

  /** When the pass stops, the array is the untouched parts around the inserted range. */
  lemma Reassembled(b: seq<Hittable>, orig: seq<Hittable>, lo: nat, j: nat, i: nat, x: Hittable, axis: nat)
    requires lo <= j <= i < |b| == |orig| && axis < 3 && b[j] == x
    requires b[..lo] == orig[..lo] && b[i + 1..] == orig[i + 1..]
    requires Insert(orig[lo..i], x, axis) == Insert(b[lo..j], x, axis) + b[j + 1..i + 1]
    requires Insert(b[lo..j], x, axis) == b[lo..j] + [x]
    ensures b == orig[..lo] + Insert(orig[lo..i], x, axis) + orig[i + 1..]
  {
    assert b[lo..i + 1] == b[lo..j] + [x] + b[j + 1..i + 1];
    assert b == b[..lo] + b[lo..i + 1] + b[i + 1..];
  }

  /** Moving x past a last element with a strictly greater key. */
  lemma InsertStep(prefix: seq<Hittable>, x: Hittable, axis: nat)
    requires axis < 3 && |prefix| > 0 && Compare(x, prefix[|prefix| - 1], axis)
    ensures Insert(prefix, x, axis) == Insert(prefix[..|prefix| - 1], x, axis) + [prefix[|prefix| - 1]]
  {
  }

  /** Insertion stops at the front or before a key that is not greater. */
  lemma InsertDone(prefix: seq<Hittable>, x: Hittable, axis: nat)
    requires axis < 3
    requires |prefix| == 0 || !Compare(x, prefix[|prefix| - 1], axis)
    ensures Insert(prefix, x, axis) == prefix + [x]
  {
  }

  /** Sorting a sequence with one more element inserts that element. */
  lemma SortSnoc(s: seq<Hittable>, axis: nat)
    requires axis < 3 && |s| > 0
    ensures SortSeq(s, axis) == Insert(SortSeq(s[..|s| - 1], axis), s[|s| - 1], axis)
  {
  }

  // ---- the tree ----

  /** A node with its two children and the union of their boxes. */
  function Node(left: Hittable, right: Hittable): Hittable
  {
    BVHNode(left, right, Boxes.Union(left.bbox, right.bbox))
  }

  /** The objects with [lo, hi) replaced by its sorted order. */
  function SortedCopy(objects: seq<Hittable>, lo: nat, hi: nat, axis: nat): (res: seq<Hittable>)
    requires lo <= hi <= |objects| && axis < 3
    ensures |res| == |objects|
  {
    objects[..lo] + SortSeq(objects[lo..hi], axis) + objects[hi..]
  }

  /** The tree `BVHNode(objects, start, end)` builds; `axisAt(start, end)` is the number
      `randomInt(0, 2)` draws for that node. */
  function BVH(objects: seq<Hittable>, start: nat, end: nat, axisAt: (nat, nat) -> int): (node: Hittable)
    requires start < end <= |objects|
    ensures node.BVHNode?
    decreases end - start, 1
  {
    var axis := ChooseAxis(axisAt(start, end));
    var span := end - start;
    if span == 1 then Node(objects[start], objects[start])
    else if span == 2 then
      if Compare(objects[start], objects[start + 1], axis) then Node(objects[start], objects[start + 1])
      else Node(objects[start + 1], objects[start])
    else
      Split(SortedCopy(objects, start, end, axis), start, end, axisAt)
  }

  /** The node over a sorted range of more than two objects: its halves become the children. */
  function Split(sorted: seq<Hittable>, start: nat, end: nat, axisAt: (nat, nat) -> int): (node: Hittable)
    requires start + 2 < end <= |sorted|
    decreases end - start, 0
  {
    var mid := start + (end - start) / 2;
    Node(BVH(sorted, start, mid, axisAt), BVH(sorted, mid, end, axisAt))
  }

  /** `BVHNode(objects, start, end)`: copies the objects, sorts the copy's range when it
      holds more than two, and builds the children from the copy. */
  method Build(objects: seq<Hittable>, start: nat, end: nat, axisAt: (nat, nat) -> int) returns (node: Hittable)
    requires start < end <= |objects|
    ensures node == BVH(objects, start, end, axisAt)
    decreases end - start
  {
    var modifiable := new Hittable[|objects|](i requires 0 <= i < |objects| => objects[i]);
    assert modifiable[..] == objects;
    var axis := ChooseAxis(axisAt(start, end));
    var span := end - start;
    var left, right;
    if span == 1 {
      left, right := objects[start], objects[start];
    } else if span == 2 {
      if Compare(objects[start], objects[start + 1], axis) {
        left, right := objects[start], objects[start + 1];
      } else {
        left, right := objects[start + 1], objects[start];
      }
    } else {
      SortRange(modifiable, start, end, axis);
      var mid := start + span / 2;
      var sorted := modifiable[..];
      assert sorted == SortedCopy(objects, start, end, axis);
      left := Build(sorted, start, mid, axisAt);
      right := Build(sorted, mid, end, axisAt);
      BVHSplits(objects, start, end, axisAt);
      SplitChildren(sorted, start, mid, end, axisAt);
    }
    node := BVHNode(left, right, Boxes.Union(left.bbox, right.bbox));
  }

  /** A range of more than two objects: the children are built from the sorted copy, split
      at the middle. */
  lemma BVHSplits(objects: seq<Hittable>, start: nat, end: nat, axisAt: (nat, nat) -> int)
    requires start + 2 < end <= |objects|
    ensures BVH(objects, start, end, axisAt) ==
              Split(SortedCopy(objects, start, end, ChooseAxis(axisAt(start, end))), start, end, axisAt)
  {
  }

  /** The children of a split sorted range are the trees over its two halves. */
  lemma SplitChildren(sorted: seq<Hittable>, start: nat, mid: nat, end: nat, axisAt: (nat, nat) -> int)
    requires start + 2 < end <= |sorted| && mid == start + (end - start) / 2
    ensures Split(sorted, start, end, axisAt) == Node(BVH(sorted, start, mid, axisAt), BVH(sorted, mid, end, axisAt))
  {
  }

  /** `BVHNode(list)`: the tree over all of the list's objects. An empty list is excluded:
      a span of 0 recurses on the same empty range forever. */
  method FromList(list: HittableLists.HittableList, axisAt: (nat, nat) -> int) returns (node: Hittable)
    requires |list.objects| > 0
    ensures node == BVH(list.objects, 0, |list.objects|, axisAt)
  {
    node := Build(list.objects, 0, |list.objects|, axisAt);
  }

  // ---- what the tree holds ----

  /** The objects at the leaves of a tree of the construction's shape over `span` objects:
      a node over one object holds it once, a node over two holds both children, and a
      larger node the leaves of its halves, over span / 2 and span - span / 2 objects. */
  function Leaves(h: Hittable, span: nat): multiset<Hittable>
    decreases h
  {
    if !h.BVHNode? || span == 0 then multiset{}
    else if span == 1 then multiset{h.left}
    else if span == 2 then multiset{h.left, h.right}
    else Leaves(h.left, span / 2) + Leaves(h.right, span - span / 2)
  }

  /** The nodes of such a tree that the construction itself made. */
  function Inner(h: Hittable, span: nat): set<Hittable>
    decreases h
  {
    if !h.BVHNode? || span == 0 then {}
    else if span <= 2 then {h}
    else {h} + Inner(h.left, span / 2) + Inner(h.right, span - span / 2)
  }

  /** A tree of the construction's shape over `span` objects: every node made by the
      construction has the union of its children's boxes, and a node over one object has
      that object as both children. */
  predicate Shaped(h: Hittable, span: nat)
    decreases h
  {
    span >= 1 && h.BVHNode? && h.bbox == Boxes.Union(h.left.bbox, h.right.bbox) &&
    (span == 1 ==> h.left == h.right) &&
    (span > 2 ==> Shaped(h.left, span / 2) && Shaped(h.right, span - span / 2))
  }

  /** `tree` has the construction's shape over the span of [start, end) and its leaves are
      exactly the objects of that range. */
  ghost predicate HoldsRange(tree: Hittable, objects: seq<Hittable>, start: nat, end: nat)
  {
    start < end <= |objects| &&
    Shaped(tree, end - start) && Leaves(tree, end - start) == multiset(objects[start..end])
  }

  /** The built tree has the construction's shape, and its leaves are exactly the objects
      of [start, end), each as often as it occurs there: nothing is lost and nothing added. */
  lemma BuiltLeaves(objects: seq<Hittable>, start: nat, end: nat, axisAt: (nat, nat) -> int)
    requires start < end <= |objects|
    ensures Shaped(BVH(objects, start, end, axisAt), end - start)
    ensures Leaves(BVH(objects, start, end, axisAt), end - start) == multiset(objects[start..end])
  {
    BuiltHoldsRange(objects, start, end, axisAt);
  }

  lemma {:induction false} BuiltHoldsRange(objects: seq<Hittable>, start: nat, end: nat, axisAt: (nat, nat) -> int)
    requires start < end <= |objects|
    ensures HoldsRange(BVH(objects, start, end, axisAt), objects, start, end)
    decreases end - start
  {
    if end - start <= 2 {
      SmallBuiltLeaves(objects, start, end, axisAt);
    } else {
      var sorted := SortedCopy(objects, start, end, ChooseAxis(axisAt(start, end)));
      var mid := start + (end - start) / 2;
      BuiltHoldsRange(sorted, start, mid, axisAt);
      BuiltHoldsRange(sorted, mid, end, axisAt);
      HalvesOfSpan(start, mid, end);
      TreeOfSplit(objects, sorted, start, mid, end, axisAt);
      SortedHalves(objects, sorted, start, mid, end, ChooseAxis(axisAt(start, end)));
      JoinHolds(BVH(objects, start, end, axisAt), BVH(sorted, start, mid, axisAt), BVH(sorted, mid, end, axisAt),
                objects, sorted, start, mid, end);
    }
  }

  /** A tree over one or two objects holds exactly them. */
  lemma SmallBuiltLeaves(objects: seq<Hittable>, start: nat, end: nat, axisAt: (nat, nat) -> int)
    requires start < end <= |objects| && end - start <= 2
    ensures HoldsRange(BVH(objects, start, end, axisAt), objects, start, end)
  {
    if end - start == 1 {
      assert objects[start..end] == [objects[start]];
    } else {
      assert objects[start..end] == [objects[start], objects[start + 1]];
    }
  }

  /** A node joining two shaped trees over the halves of a span of more than two objects
      is shaped, and holds what its halves hold. */
  lemma JoinHolds(tree: Hittable, l: Hittable, r: Hittable, objects: seq<Hittable>, sorted: seq<Hittable>,
                  start: nat, mid: nat, end: nat)
    requires tree == Node(l, r)
    requires end - start > 2 && mid - start == (end - start) / 2 && end - mid == (end - start) - (end - start) / 2
    requires start < mid < end <= |objects| == |sorted|
    requires multiset(objects[start..end]) == multiset(sorted[start..mid]) + multiset(sorted[mid..end])
    requires HoldsRange(l, sorted, start, mid) && HoldsRange(r, sorted, mid, end)
    ensures HoldsRange(tree, objects, start, end)
  {
    NodeLeaves(l, r, mid - start, end - mid, end - start);
  }

  /** The halves [start, mid) and [mid, end) of a span of more than two have the spans the
      construction gives its children. */
  lemma HalvesOfSpan(start: nat, mid: nat, end: nat)
    requires start + 2 < end && mid == start + (end - start) / 2
    ensures start < mid < end
    ensures end - start > 2 && mid - start == (end - start) / 2 && end - mid == (end - start) - (end - start) / 2
  {
  }

  /** The tree over more than two objects joins the trees over the halves of the sorted copy. */
  lemma TreeOfSplit(objects: seq<Hittable>, sorted: seq<Hittable>, start: nat, mid: nat, end: nat, axisAt: (nat, nat) -> int)
    requires start + 2 < end <= |objects|
    requires sorted == SortedCopy(objects, start, end, ChooseAxis(axisAt(start, end)))
    requires mid == start + (end - start) / 2
    ensures BVH(objects, start, end, axisAt) == Node(BVH(sorted, start, mid, axisAt), BVH(sorted, mid, end, axisAt))
  {
    BVHSplits(objects, start, end, axisAt);
    SplitChildren(sorted, start, mid, end, axisAt);
  }

  /** The halves of the sorted range hold, together, the objects of the range. */
  lemma SortedHalves(objects: seq<Hittable>, sorted: seq<Hittable>, start: nat, mid: nat, end: nat, axis: nat)
    requires start <= mid <= end <= |objects| && axis < 3
    requires sorted == SortedCopy(objects, start, end, axis)
    ensures multiset(objects[start..end]) == multiset(sorted[start..mid]) + multiset(sorted[mid..end])
  {
    SortedCopyRange(objects, start, end, axis);
    SliceSplit(sorted, start, mid, end);
  }

  /** Joining two shaped trees over the halves of a span of more than two objects gives a
      shaped tree holding the leaves of both. */
  lemma NodeLeaves(l: Hittable, r: Hittable, nl: nat, nr: nat, n: nat)
    requires Shaped(l, nl) && Shaped(r, nr)
    requires n > 2 && nl == n / 2 && nr == n - n / 2
    ensures Shaped(Node(l, r), n)
    ensures Leaves(Node(l, r), n) == Leaves(l, nl) + Leaves(r, nr)
  {
  }

  /** A slice is its two halves. */
  lemma SliceSplit(s: seq<Hittable>, lo: nat, mid: nat, hi: nat)
    requires lo <= mid <= hi <= |s|
    ensures multiset(s[lo..hi]) == multiset(s[lo..mid]) + multiset(s[mid..hi])
  {
    assert s[lo..hi] == s[lo..mid] + s[mid..hi];
  }

  /** The sorted copy holds the sorted range where the range was. */
  lemma SortedCopyRange(objects: seq<Hittable>, lo: nat, hi: nat, axis: nat)
    requires lo <= hi <= |objects| && axis < 3
    ensures SortedCopy(objects, lo, hi, axis)[lo..hi] == SortSeq(objects[lo..hi], axis)
    ensures multiset(SortedCopy(objects, lo, hi, axis)[lo..hi]) == multiset(objects[lo..hi])
  {
    SortPermutes(objects[lo..hi], axis);
  }

  /** `x` is the tree `h` or lies below it. */
  predicate Occurs(x: Hittable, h: Hittable)
  {
    x == h || (h.BVHNode? && (Occurs(x, h.left) || Occurs(x, h.right)))
  }

  /** Whatever occurs in a tree of the construction's shape is one of the nodes the
      construction made, or the object at a leaf, or a part of that object. */
  lemma {:induction false} OccursInShaped(h: Hittable, span: nat, x: Hittable)
    requires Shaped(h, span) && Occurs(x, h)
    ensures x in Inner(h, span) || exists y :: y in Leaves(h, span) && Occurs(x, y)
    decreases h
  {
    if x != h {
      if span <= 2 {
        if Occurs(x, h.left) {
          assert h.left in Leaves(h, span);
        } else {
          assert h.right in Leaves(h, span);
        }
      } else if Occurs(x, h.left) {
        OccursInShaped(h.left, span / 2, x);
      } else {
        OccursInShaped(h.right, span - span / 2, x);
      }
    }
  }

  /** Every leaf of a tree of the construction's shape occurs in it, and when no leaf has a
      NaN bound the tree's box encloses the box of every leaf. */
  lemma ShapedHoldsLeaves(h: Hittable, span: nat)
    requires Shaped(h, span)
    ensures forall x :: x in Leaves(h, span) ==> Occurs(x, h)
    ensures (forall x :: x in Leaves(h, span) ==> NoNaN(x.bbox)) ==>
              NoNaN(h.bbox) && forall x :: x in Leaves(h, span) ==> Encloses(h.bbox, x.bbox)
  {
    LeavesOccur(h, span);
    if forall x :: x in Leaves(h, span) ==> NoNaN(x.bbox) {
      LeavesEnclosed(h, span);
    }
  }

  lemma {:induction false} LeavesOccur(h: Hittable, span: nat)
    requires Shaped(h, span)
    ensures forall x :: x in Leaves(h, span) ==> Occurs(x, h)
    decreases h
  {
    if span > 2 {
      LeavesOccur(h.left, span / 2);
      LeavesOccur(h.right, span - span / 2);
    }
  }

  lemma {:induction false} LeavesEnclosed(h: Hittable, span: nat)
    requires Shaped(h, span)
    requires forall x :: x in Leaves(h, span) ==> NoNaN(x.bbox)
    ensures NoNaN(h.bbox) && forall x :: x in Leaves(h, span) ==> Encloses(h.bbox, x.bbox)
    decreases h
  {
    var leaves := Leaves(h, span);
    if span <= 2 {
      assert h.left in leaves && h.right in leaves;
      UnionEncloses(h.left.bbox, h.right.bbox);
    } else {
      LeavesEnclosed(h.left, span / 2);
      LeavesEnclosed(h.right, span - span / 2);
      UnionEncloses(h.left.bbox, h.right.bbox);
      forall x | x in leaves
        ensures Encloses(h.bbox, x.bbox)
      {
        if x in Leaves(h.left, span / 2) {
          EnclosesTransitive(h.bbox, h.left.bbox, x.bbox);
        } else {
          EnclosesTransitive(h.bbox, h.right.bbox, x.bbox);
        }
      }
    }
  }

  /** The tree `BVHNode(objects, start, end)` builds holds every object of [start, end), in
      a box enclosing the object's box when no object has a NaN bound, and everything it
      holds is one of its own nodes or lies in one of those objects. */
  lemma BuiltTreeContents(objects: seq<Hittable>, start: nat, end: nat, axisAt: (nat, nat) -> int)
    requires start < end <= |objects|
    ensures var tree := BVH(objects, start, end, axisAt);
            forall i :: start <= i < end ==> Occurs(objects[i], tree)
    ensures var tree := BVH(objects, start, end, axisAt);
            (forall i :: start <= i < end ==> NoNaN(objects[i].bbox)) ==>
              NoNaN(tree.bbox) && forall i :: start <= i < end ==> Encloses(tree.bbox, objects[i].bbox)
    ensures var tree := BVH(objects, start, end, axisAt);
            forall x :: Occurs(x, tree) ==>
              x in Inner(tree, end - start) || exists i :: start <= i < end && Occurs(x, objects[i])
  {
    var tree, span := BVH(objects, start, end, axisAt), end - start;
    BuiltLeaves(objects, start, end, axisAt);
    ShapedHoldsLeaves(tree, span);
    forall i | start <= i < end
      ensures objects[i] in Leaves(tree, span)
    {
      assert objects[i] == objects[start..end][i - start];
    }
    if forall i :: start <= i < end ==> NoNaN(objects[i].bbox) {
      forall x | x in Leaves(tree, span)
        ensures NoNaN(x.bbox)
      {
        var i := InRange(objects, start, end, x);
      }
    }
    forall x | Occurs(x, tree)
      ensures x in Inner(tree, span) || exists i :: start <= i < end && Occurs(x, objects[i])
    {
      OccursInShaped(tree, span, x);
      if x !in Inner(tree, span) {
        var y :| y in Leaves(tree, span) && Occurs(x, y);
        var i := InRange(objects, start, end, y);
      }
    }
  }

  /** A member of the multiset of a slice sits at some index of the slice. */
  lemma InRange(objects: seq<Hittable>, start: nat, end: nat, x: Hittable) returns (i: nat)
    requires start <= end <= |objects| && x in multiset(objects[start..end])
    ensures start <= i < end && objects[i] == x
  {
    var k :| 0 <= k < end - start && objects[start..end][k] == x;
    i := start + k;
  }

  /** A range of one object: the object is both children. */
  lemma SingleObject(objects: seq<Hittable>, start: nat, axisAt: (nat, nat) -> int)
    requires start < |objects|
    ensures BVH(objects, start, start + 1, axisAt).left == objects[start]
    ensures BVH(objects, start, start + 1, axisAt).right == objects[start]
  {
  }

  /** A range of two objects: the two become the children without sorting, the one with
      the smaller key on the left; on equal keys the second object goes left. */
  lemma PairOrdered(objects: seq<Hittable>, start: nat, axisAt: (nat, nat) -> int)
    requires start + 2 <= |objects|
    ensures var node, axis := BVH(objects, start, start + 2, axisAt), ChooseAxis(axisAt(start, start + 2));
            multiset{node.left, node.right} == multiset{objects[start], objects[start + 1]} &&
            !Compare(node.right, node.left, axis) &&
            (Key(objects[start], axis) == Key(objects[start + 1], axis) ==> node.left == objects[start + 1])
  {
    var axis := ChooseAxis(axisAt(start, start + 2));
    if Compare(objects[start], objects[start + 1], axis) {
      LtTrichotomy(Key(objects[start], axis), Key(objects[start + 1], axis));
    }
  }
}
