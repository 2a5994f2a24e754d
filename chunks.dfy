/** The rectangular chunks `Camera::partition` cuts the image into, and what the chunk
    grid promises: indices in row-major order, aligned starts, clipped edges, and a tiling
    of the image with no gap and no overlap. */
module Chunks {
  import opened Vectors

  /** `ImageChunk`: where the chunk starts, its index, its size and the rendered rows. */
  datatype ImageChunk = ImageChunk(startx: int, starty: int, idx: int, width: int, height: int,
                                   partial: seq<seq<Color>>)

  /** A chunk's extent along one axis: `chunk_dimension`, or `total % chunk_dimension` when
      a full chunk would pass the edge. Both operands are positive wherever it is used, so
      C++'s `%` and Dafny's agree. */
  function EdgeSize(start: int, total: int, d: int): int
    requires d > 0
  {
    if start + d > total then total % d else d
  }

  /** A negative extent is an empty range of loop indices. */
  function Extent(n: int): nat
  {
    if n < 0 then 0 else n
  }

  /** The chunk `partition` emits at (x, y) with index `idx`, before it is rendered. */
  function Chunk(w: int, h: int, d: int, x: int, y: int, idx: int): ImageChunk
    requires d > 0
  {
    ImageChunk(x, y, idx, EdgeSize(x, w, d), EdgeSize(y, h, d), [])
  }

  /** The chunks of the row at height y from x onwards, numbered from idx. */
  function RowFrom(w: int, h: int, d: int, x: int, y: int, idx: int): (row: seq<ImageChunk>)
    requires d > 0
    ensures x < w ==> |row| > 0
    decreases w - x
  {
    if x >= w then [] else [Chunk(w, h, d, x, y, idx)] + RowFrom(w, h, d, x + d, y, idx + 1)
  }

  /** The chunks of the rows from height y downwards, numbered from idx. */
  function RowsFrom(w: int, h: int, d: int, y: int, idx: int): seq<ImageChunk>
    requires d > 0
    decreases h - y
  {
    if y >= h then []
    else
      var row := RowFrom(w, h, d, 0, y, idx);
      row + RowsFrom(w, h, d, y + d, idx + |row|)
  }

  /** The chunks of a w x h image with chunk dimension d, in the order they are emitted. */
  function Grid(w: int, h: int, d: int): seq<ImageChunk>
    requires d > 0
  {
    RowsFrom(w, h, d, 0, 0)
  }

  /** The number of chunks along an extent n: the number of steps of d that start below n. */
  function Count(n: int, d: int): nat
    requires d > 0
    decreases n
  {
    if n <= 0 then 0 else 1 + Count(n - d, d)
  }

  /** `Count` is the ceiling of n / d. */
  lemma {:induction false} CountIsCeiling(n: int, d: int)
    requires d > 0 && n > 0
    ensures (Count(n, d) - 1) * d < n <= Count(n, d) * d
    decreases n
  {
    if n - d > 0 {
      CountIsCeiling(n - d, d);
    }
  }

  /** The pixel (px, py) lies in the chunk. */
  predicate Covers(c: ImageChunk, px: int, py: int)
  {
    c.startx <= px < c.startx + c.width && c.starty <= py < c.starty + c.height
  }

  /** Chunk `a` comes before chunk `b` in row-major order of their starts. */
  predicate RowMajorBefore(a: ImageChunk, b: ImageChunk)
  {
    a.starty < b.starty || (a.starty == b.starty && a.startx < b.startx)
  }

  /** A multiple of d. */
  predicate Aligned(v: int, d: int)
    requires d > 0
  {
    v % d == 0
  }

  /** A chunk's shape: its start is aligned and inside the image, and each extent is d
      unless the edge clips it to what is left of the image. */
  predicate WellShaped(c: ImageChunk, w: int, h: int, d: int)
    requires d > 0
  {
    0 <= c.startx < w && 0 <= c.starty < h && Aligned(c.startx, d) && Aligned(c.starty, d) &&
    c.width == (if c.startx + d > w then w % d else d) &&
    c.height == (if c.starty + d > h then h % d else d) &&
    1 <= c.width <= d && 1 <= c.height <= d &&
    c.startx + c.width == (if c.startx + d < w then c.startx + d else w) &&
    c.starty + c.height == (if c.starty + d < h then c.starty + d else h) &&
    c.partial == []
  }

  // ---- numbering ----

  lemma {:induction false} RowIndexed(w: int, h: int, d: int, x: int, y: int, idx: int)
    requires d > 0
    ensures forall k :: 0 <= k < |RowFrom(w, h, d, x, y, idx)| ==>
              RowFrom(w, h, d, x, y, idx)[k].idx == idx + k && RowFrom(w, h, d, x, y, idx)[k].starty == y
    decreases w - x
  {
    if x < w {
      var row, rest := RowFrom(w, h, d, x, y, idx), RowFrom(w, h, d, x + d, y, idx + 1);
      RowIndexed(w, h, d, x + d, y, idx + 1);
      forall k | 0 <= k < |row|
        ensures row[k].idx == idx + k && row[k].starty == y
      {
        if k > 0 {
          assert row[k] == rest[k - 1];
        }
      }
    }
  }

  lemma {:induction false} RowsIndexed(w: int, h: int, d: int, y: int, idx: int)
    requires d > 0
    ensures forall k :: 0 <= k < |RowsFrom(w, h, d, y, idx)| ==> RowsFrom(w, h, d, y, idx)[k].idx == idx + k
    decreases h - y
  {
    if y < h {
      var row := RowFrom(w, h, d, 0, y, idx);
      var rest := RowsFrom(w, h, d, y + d, idx + |row|);
      var g := RowsFrom(w, h, d, y, idx);
      assert g == row + rest;
      RowIndexed(w, h, d, 0, y, idx);
      RowsIndexed(w, h, d, y + d, idx + |row|);
      forall k | 0 <= k < |g|
        ensures g[k].idx == idx + k
      {
        if k >= |row| {
          assert g[k] == rest[k - |row|];
        }
      }
    }
  }

  /** `partition` numbers the chunks 0, 1, 2, ... in the order it emits them. */
  lemma GridIndexed(w: int, h: int, d: int)
    requires d > 0
    ensures forall k :: 0 <= k < |Grid(w, h, d)| ==> Grid(w, h, d)[k].idx == k
  {
    RowsIndexed(w, h, d, 0, 0);
  }

  // ---- order ----

  lemma {:induction false} RowOrdered(w: int, h: int, d: int, x: int, y: int, idx: int)
    requires d > 0
    ensures forall k :: 0 <= k < |RowFrom(w, h, d, x, y, idx)| ==>
              x <= RowFrom(w, h, d, x, y, idx)[k].startx < w && RowFrom(w, h, d, x, y, idx)[k].starty == y
    ensures forall k, l :: 0 <= k < l < |RowFrom(w, h, d, x, y, idx)| ==>
              RowFrom(w, h, d, x, y, idx)[k].startx < RowFrom(w, h, d, x, y, idx)[l].startx
    decreases w - x
  {
    if x < w {
      var row, rest := RowFrom(w, h, d, x, y, idx), RowFrom(w, h, d, x + d, y, idx + 1);
      RowOrdered(w, h, d, x + d, y, idx + 1);
      forall k | 0 <= k < |row|
        ensures x <= row[k].startx < w && row[k].starty == y
      {
        if k > 0 {
          assert row[k] == rest[k - 1];
        }
      }
      forall k, l | 0 <= k < l < |row|
        ensures row[k].startx < row[l].startx
      {
        assert row[l] == rest[l - 1];
        if k > 0 {
          assert row[k] == rest[k - 1];
        }
      }
    }
  }

  lemma {:induction false} RowsOrdered(w: int, h: int, d: int, y: int, idx: int)
    requires d > 0
    ensures forall k :: 0 <= k < |RowsFrom(w, h, d, y, idx)| ==> y <= RowsFrom(w, h, d, y, idx)[k].starty < h
    ensures forall k, l :: 0 <= k < l < |RowsFrom(w, h, d, y, idx)| ==>
              RowMajorBefore(RowsFrom(w, h, d, y, idx)[k], RowsFrom(w, h, d, y, idx)[l])
    decreases h - y
  {
    if y < h {
      var row := RowFrom(w, h, d, 0, y, idx);
      var rest := RowsFrom(w, h, d, y + d, idx + |row|);
      RowOrdered(w, h, d, 0, y, idx);
      RowsOrdered(w, h, d, y + d, idx + |row|);
      var g := RowsFrom(w, h, d, y, idx);
      assert g == row + rest;
      forall k | 0 <= k < |g|
        ensures y <= g[k].starty < h
      {
        if k >= |row| {
          assert g[k] == rest[k - |row|];
        } else {
          assert g[k] == row[k];
        }
      }
      forall k, l | 0 <= k < l < |g|
        ensures RowMajorBefore(g[k], g[l])
      {
        if l < |row| {
          assert g[k] == row[k] && g[l] == row[l];
        } else if k < |row| {
          assert g[k] == row[k] && g[l] == rest[l - |row|];
        } else {
          assert g[k] == rest[k - |row|] && g[l] == rest[l - |row|];
        }
      }
    }
  }

  /** The chunks are emitted row by row, left to right, each start strictly after the last. */
  lemma GridRowMajor(w: int, h: int, d: int)
    requires d > 0
    ensures forall k, l :: 0 <= k < l < |Grid(w, h, d)| ==> RowMajorBefore(Grid(w, h, d)[k], Grid(w, h, d)[l])
  {
    RowsOrdered(w, h, d, 0, 0);
  }

  // ---- shape ----

  /** The edge extent: `total % d` is what is left of the image after an aligned start. */
  lemma EdgeExtent(start: int, total: int, d: int)
    requires d > 0 && 0 <= start < total && Aligned(start, d)
    ensures 1 <= EdgeSize(start, total, d) <= d
    ensures start + EdgeSize(start, total, d) == (if start + d < total then start + d else total)
  {
    if start + d > total {
      var q := start / d;
      assert start == q * d;
      RemainderOfAligned(start, total, d, q);
    }
  }

  /** When an aligned start is within d of the end, the remainder is the rest of the image. */
  lemma RemainderOfAligned(start: int, total: int, d: int, q: int)
    requires d > 0 && 0 <= start < total < start + d && start == q * d
    ensures total % d == total - start
  {
    var r := total - start;
    assert total == q * d + r && 0 <= r < d;
    DivModUnique(total, d, q, r);
  }

  /** Division with remainder is unique. */
  lemma DivModUnique(n: int, d: int, q: int, r: int)
    requires d > 0 && n == q * d + r && 0 <= r < d
    ensures n % d == r
  {
    var q', r' := n / d, n % d;
    assert n == q' * d + r';
    if q > q' {
      MulAtLeast(q - q', d);
      Distribute(q, q', d);
    } else if q < q' {
      MulAtLeast(q' - q, d);
      Distribute(q', q, d);
    }
  }

  /** A positive multiple of d is at least d. */
  lemma {:induction false} MulAtLeast(a: int, d: int)
    requires a >= 1 && d > 0
    ensures a * d >= d
    decreases a
  {
    if a > 1 {
      MulAtLeast(a - 1, d);
      Distribute(a, 1, d);
    }
  }

  lemma Distribute(a: int, b: int, d: int)
    ensures (a - b) * d == a * d - b * d
  {
  }

  lemma {:induction false} RowShaped(w: int, h: int, d: int, x: int, y: int, idx: int)
    requires d > 0 && 0 <= y < h && 0 <= x && Aligned(x, d) && Aligned(y, d)
    ensures forall c :: c in RowFrom(w, h, d, x, y, idx) ==> WellShaped(c, w, h, d)
    decreases w - x
  {
    if x < w {
      EdgeExtent(x, w, d);
      EdgeExtent(y, h, d);
      AlignedStep(x, d);
      RowShaped(w, h, d, x + d, y, idx + 1);
    }
  }

  lemma AlignedStep(v: int, d: int)
    requires d > 0 && Aligned(v, d)
    ensures Aligned(v + d, d)
  {
    var q := v / d;
    assert v == q * d;
    assert v + d == (q + 1) * d;
    DivModUnique(v + d, d, q + 1, 0);
  }

  lemma {:induction false} RowsShaped(w: int, h: int, d: int, y: int, idx: int)
    requires d > 0 && 0 <= y && Aligned(y, d)
    ensures forall c :: c in RowsFrom(w, h, d, y, idx) ==> WellShaped(c, w, h, d)
    decreases h - y
  {
    if y < h {
      var row := RowFrom(w, h, d, 0, y, idx);
      RowShaped(w, h, d, 0, y, idx);
      AlignedStep(y, d);
      RowsShaped(w, h, d, y + d, idx + |row|);
    }
  }

  /** Every chunk starts at a multiple of d inside the image and is d wide and high, except
      at the right and bottom edges, where it is clipped to `width % d` and `height % d`. */
  lemma GridShaped(w: int, h: int, d: int)
    requires d > 0
    ensures forall c :: c in Grid(w, h, d) ==> WellShaped(c, w, h, d)
  {
    RowsShaped(w, h, d, 0, 0);
  }

  // ---- count ----

  lemma {:induction false} RowLength(w: int, h: int, d: int, x: int, y: int, idx: int)
    requires d > 0
    ensures |RowFrom(w, h, d, x, y, idx)| == Count(w - x, d)
    decreases w - x
  {
    if x < w {
      RowLength(w, h, d, x + d, y, idx + 1);
    }
  }

  lemma {:induction false} RowsLength(w: int, h: int, d: int, y: int, idx: int)
    requires d > 0
    ensures |RowsFrom(w, h, d, y, idx)| == Count(h - y, d) * Count(w, d)
    decreases h - y
  {
    if y < h {
      var row := RowFrom(w, h, d, 0, y, idx);
      RowLength(w, h, d, 0, y, idx);
      RowsLength(w, h, d, y + d, idx + |row|);
      assert h - (y + d) == h - y - d;
      CountStep(h - y, d, Count(w, d));
    }
  }

  lemma CountStep(n: int, d: int, cols: nat)
    requires d > 0 && n > 0
    ensures cols + Count(n - d, d) * cols == Count(n, d) * cols
  {
    assert Count(n, d) == 1 + Count(n - d, d);
  }

  /** `partition` emits ceil(width / d) * ceil(height / d) chunks. */
  lemma GridCount(w: int, h: int, d: int)
    requires d > 0
    ensures |Grid(w, h, d)| == Count(h, d) * Count(w, d)
  {
    RowsLength(w, h, d, 0, 0);
  }

  // ---- tiling ----

  lemma {:induction false} RowReaches(w: int, h: int, d: int, x: int, y: int, idx: int, px: int)
    requires d > 0 && x <= px < w
    ensures exists k :: 0 <= k < |RowFrom(w, h, d, x, y, idx)| &&
              RowFrom(w, h, d, x, y, idx)[k].startx <= px < RowFrom(w, h, d, x, y, idx)[k].startx + d
    decreases w - x
  {
    var row := RowFrom(w, h, d, x, y, idx);
    if px < x + d {
      assert row[0].startx == x;
    } else {
      RowReaches(w, h, d, x + d, y, idx + 1, px);
      var rest := RowFrom(w, h, d, x + d, y, idx + 1);
      var k :| 0 <= k < |rest| && rest[k].startx <= px < rest[k].startx + d;
      assert row[k + 1] == rest[k];
    }
  }

  lemma {:induction false} RowsReach(w: int, h: int, d: int, y: int, idx: int, px: int, py: int)
    requires d > 0 && 0 <= px < w && y <= py < h
    ensures exists k :: 0 <= k < |RowsFrom(w, h, d, y, idx)| &&
              var c := RowsFrom(w, h, d, y, idx)[k];
              c.startx <= px < c.startx + d && c.starty <= py < c.starty + d
    decreases h - y
  {
    var row := RowFrom(w, h, d, 0, y, idx);
    var g := RowsFrom(w, h, d, y, idx);
    if py < y + d {
      RowReaches(w, h, d, 0, y, idx, px);
      RowIndexed(w, h, d, 0, y, idx);
      var k :| 0 <= k < |row| && row[k].startx <= px < row[k].startx + d;
      assert g[k] == row[k];
    } else {
      var rest := RowsFrom(w, h, d, y + d, idx + |row|);
      RowsReach(w, h, d, y + d, idx + |row|, px, py);
      var k :| 0 <= k < |rest| && var c := rest[k]; c.startx <= px < c.startx + d && c.starty <= py < c.starty + d;
      assert g[|row| + k] == rest[k];
    }
  }

  /** Two aligned starts within d of the same coordinate are equal. */
  lemma AlignedWindowUnique(a: int, b: int, p: int, d: int)
    requires d > 0 && Aligned(a, d) && Aligned(b, d)
    requires a <= p < a + d && b <= p < b + d
    ensures a == b
  {
    var i, j := a / d, b / d;
    assert a == i * d && b == j * d;
    if i < j {
      MulAtLeast(j - i, d);
      Distribute(j, i, d);
    } else if j < i {
      MulAtLeast(i - j, d);
      Distribute(i, j, d);
    }
  }

  /** Every pixel of the image lies in exactly one chunk: the chunks tile the image with no
      gap and no overlap. */
  lemma GridTiles(w: int, h: int, d: int, px: int, py: int)
    requires d > 0 && 0 <= px < w && 0 <= py < h
    ensures exists k :: 0 <= k < |Grid(w, h, d)| && Covers(Grid(w, h, d)[k], px, py)
    ensures forall k, l :: (0 <= k < |Grid(w, h, d)| && 0 <= l < |Grid(w, h, d)| &&
              Covers(Grid(w, h, d)[k], px, py) && Covers(Grid(w, h, d)[l], px, py)) ==> k == l
  {
    var g := Grid(w, h, d);
    GridShaped(w, h, d);
    GridRowMajor(w, h, d);
    RowsReach(w, h, d, 0, 0, px, py);
    var k :| 0 <= k < |g| && g[k].startx <= px < g[k].startx + d && g[k].starty <= py < g[k].starty + d;
    assert WellShaped(g[k], w, h, d);
    assert Covers(g[k], px, py);
    forall k1, l1 | 0 <= k1 < |g| && 0 <= l1 < |g| && Covers(g[k1], px, py) && Covers(g[l1], px, py)
      ensures k1 == l1
    {
      assert WellShaped(g[k1], w, h, d) && WellShaped(g[l1], w, h, d);
      AlignedWindowUnique(g[k1].startx, g[l1].startx, px, d);
      AlignedWindowUnique(g[k1].starty, g[l1].starty, py, d);
    }
  }
}
